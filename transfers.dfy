/** Transfer matching: every pair of a first-leg record and a second-leg
    record whose layover (the second leg's start time minus the first leg's
    arrival time) lies in the transfer window, in the order of a nested scan
    over the first legs and then the second legs. */
module Transfers {
  import opened GoStrings
  import opened TimeStrings
  import opened TripRecords

  /** Layover window at GuangZhouNan, in minutes. */
  const MinTransferDuration: int := 25
  const MaxTransferDuration: int := 60

  /** A candidate connection (`trainTransfer`). */
  datatype TrainTransfer = TrainTransfer(first: LineInfo, second: LineInfo)
  {
    /** The layover: second leg's start time minus first leg's arrival time. */
    function Gap(): (gap: int)
      requires |first| > ArriveTime && |second| > StartTime
      ensures BeginsWithClock(second[StartTime]) && BeginsWithClock(first[ArriveTime]) ==> -1799 <= gap <= 1799
      ensures !TimeStringMatches(first[ArriveTime]) ==> gap == TimeString2Min(second[StartTime])
    {
      TimeGap(second[StartTime], first[ArriveTime])
    }
  }

  /** A test on a pair of legs; the transfer matcher's is WindowOf(25, 60). */
  type Acceptance = (LineInfo, LineInfo) -> bool

  /** The layover of the pair lies in [lo, hi]. The length test only makes
      the test total: the matcher requires its legs to have the two time
      fields. */
  predicate LayoverWithin(f: LineInfo, s: LineInfo, lo: int, hi: int)
  {
    |f| > ArriveTime && |s| > StartTime && lo <= TrainTransfer(f, s).Gap() <= hi
  }

  function WindowOf(lo: int, hi: int): Acceptance
  {
    (f: LineInfo, s: LineInfo) => LayoverWithin(f, s, lo, hi)
  }

  /** On legs with both time fields, the window test is the layover bound. */
  lemma WindowOfAt(f: LineInfo, s: LineInfo, lo: int, hi: int)
    requires |f| > ArriveTime && |s| > StartTime
    ensures WindowOf(lo, hi)(f, s) <==> lo <= TimeGap(s[StartTime], f[ArriveTime]) <= hi
  {
  }

  /** Go reads the arrival time of every first leg and, once there is a
      first leg, the start time of every second leg. */
  predicate TimesReadable(firstLines: seq<LineInfo>, secondLines: seq<LineInfo>)
  {
    && (forall i :: 0 <= i < |firstLines| ==> |firstLines[i]| > ArriveTime)
    && (firstLines != [] ==> forall j :: 0 <= j < |secondLines| ==> |secondLines[j]| > StartTime)
  }

  /** Index pairs accepted for first leg `i` among the first `m` second legs, by j. */
  function RowPairs(firsts: seq<LineInfo>, seconds: seq<LineInfo>, i: nat, m: nat, accept: Acceptance)
    : (ps: seq<(nat, nat)>)
    requires i < |firsts| && m <= |seconds|
    ensures |ps| <= m
    ensures forall k :: 0 <= k < |ps| ==> ps[k].0 == i && ps[k].1 < m
  {
    if m == 0 then []
    else if accept(firsts[i], seconds[m - 1]) then RowPairs(firsts, seconds, i, m - 1, accept) + [(i, m - 1)]
    else RowPairs(firsts, seconds, i, m - 1, accept)
  }

  /** Index pairs accepted for the first `n` first legs, row after row. */
  function AcceptedPairs(firsts: seq<LineInfo>, seconds: seq<LineInfo>, n: nat, accept: Acceptance)
    : (ps: seq<(nat, nat)>)
    requires n <= |firsts|
    ensures forall k :: 0 <= k < |ps| ==> ps[k].0 < n && ps[k].1 < |seconds|
  {
    if n == 0 then []
    else AcceptedPairs(firsts, seconds, n - 1, accept) + RowPairs(firsts, seconds, n - 1, |seconds|, accept)
  }

  /** Every index pair of `ps` points at a first and a second leg. */
  predicate PairsInRange(firsts: seq<LineInfo>, seconds: seq<LineInfo>, ps: seq<(nat, nat)>)
  {
    forall k :: 0 <= k < |ps| ==> ps[k].0 < |firsts| && ps[k].1 < |seconds|
  }

  /** The transfers that a list of index pairs stands for. */
  function Materialize(firsts: seq<LineInfo>, seconds: seq<LineInfo>, ps: seq<(nat, nat)>)
    : (ts: seq<TrainTransfer>)
    requires PairsInRange(firsts, seconds, ps)
    ensures |ts| == |ps|
    ensures forall k :: 0 <= k < |ps| ==> ts[k] == TrainTransfer(firsts[ps[k].0], seconds[ps[k].1])
  {
    seq(|ps|, k requires 0 <= k < |ps| => TrainTransfer(firsts[ps[k].0], seconds[ps[k].1]))
  }

  /** What the transfer matcher returns for the acceptance test `accept`. */
  function Transfers(firsts: seq<LineInfo>, seconds: seq<LineInfo>, accept: Acceptance): seq<TrainTransfer>
  {
    Materialize(firsts, seconds, AcceptedPairs(firsts, seconds, |firsts|, accept))
  }

  /** resolveTransfer: the nested scan with the GuangZhouNan window. */
  method ResolveTransfer(firstLines: seq<LineInfo>, secondLines: seq<LineInfo>)
    returns (result: seq<TrainTransfer>)
    requires TimesReadable(firstLines, secondLines)
    ensures result == Transfers(firstLines, secondLines, WindowOf(MinTransferDuration, MaxTransferDuration))
    ensures forall t :: t in result ==>
              && t.first in firstLines && t.second in secondLines
              && MinTransferDuration <= t.Gap() <= MaxTransferDuration
  {
    ghost var accept := WindowOf(MinTransferDuration, MaxTransferDuration);
    result := [];
    for i := 0 to |firstLines|
      invariant result == Materialize(firstLines, secondLines, AcceptedPairs(firstLines, secondLines, i, accept))
    {
      var firstTrainArrive := firstLines[i][ArriveTime];
      ScanRow(firstLines, secondLines, i, accept);
      for j := 0 to |secondLines|
        invariant result == Materialize(firstLines, secondLines, ScanPrefix(firstLines, secondLines, i, j, accept))
      {
        var gap := TimeGap(secondLines[j][StartTime], firstTrainArrive);
        WindowScanStep(firstLines, secondLines, i, j, MinTransferDuration, MaxTransferDuration, gap);
        if gap < MinTransferDuration || gap > MaxTransferDuration {
          continue;
        }
        result := result + [TrainTransfer(firstLines[i], secondLines[j])];
      }
    }
    WindowTransfersSound(firstLines, secondLines, MinTransferDuration, MaxTransferDuration);
  }

  /** Every transfer found with a layover window pairs a first leg with a
      second leg, and its layover lies in the window. */
  lemma WindowTransfersSound(firsts: seq<LineInfo>, seconds: seq<LineInfo>, lo: int, hi: int)
    requires TimesReadable(firsts, seconds)
    ensures forall t :: t in Transfers(firsts, seconds, WindowOf(lo, hi)) ==>
              && t.first in firsts && t.second in seconds
              && lo <= t.Gap() <= hi
  {
    var ts := Transfers(firsts, seconds, WindowOf(lo, hi));
    forall t | t in ts
      ensures t.first in firsts && t.second in seconds && lo <= t.Gap() <= hi
    {
      var k :| 0 <= k < |ts| && ts[k] == t;
      AcceptedPairsSound(firsts, seconds, |firsts|, WindowOf(lo, hi), k);
      WindowOfAt(t.first, t.second, lo, hi);
    }
  }

  /** The index pairs the scan has accepted once it is at second leg `j`
      of first leg `i`: all rows before `i`, then row `i` up to `j`. */
  function ScanPrefix(firsts: seq<LineInfo>, seconds: seq<LineInfo>, i: nat, j: nat, accept: Acceptance)
    : (ps: seq<(nat, nat)>)
    requires i < |firsts| && j <= |seconds|
    ensures PairsInRange(firsts, seconds, ps)
  {
    AcceptedPairs(firsts, seconds, i, accept) + RowPairs(firsts, seconds, i, j, accept)
  }

  /** A row of the scan starts after the rows before it and ends with them
      and itself. */
  lemma ScanRow(firsts: seq<LineInfo>, seconds: seq<LineInfo>, i: nat, accept: Acceptance)
    requires i < |firsts|
    ensures ScanPrefix(firsts, seconds, i, 0, accept) == AcceptedPairs(firsts, seconds, i, accept)
    ensures ScanPrefix(firsts, seconds, i, |seconds|, accept) == AcceptedPairs(firsts, seconds, i + 1, accept)
  {
    assert AcceptedPairs(firsts, seconds, i, accept) + [] == AcceptedPairs(firsts, seconds, i, accept);
  }

  /** One step of the inner scan: looking at second leg `j` appends its
      transfer exactly when the pair passes the test. */
  lemma ScanStep(firsts: seq<LineInfo>, seconds: seq<LineInfo>, i: nat, j: nat, accept: Acceptance)
    requires i < |firsts| && j < |seconds|
    ensures accept(firsts[i], seconds[j]) ==>
              (Materialize(firsts, seconds, ScanPrefix(firsts, seconds, i, j + 1, accept))
               == Materialize(firsts, seconds, ScanPrefix(firsts, seconds, i, j, accept))
                  + [TrainTransfer(firsts[i], seconds[j])])
    ensures !accept(firsts[i], seconds[j]) ==>
              (Materialize(firsts, seconds, ScanPrefix(firsts, seconds, i, j + 1, accept))
               == Materialize(firsts, seconds, ScanPrefix(firsts, seconds, i, j, accept)))
  {
    var done := AcceptedPairs(firsts, seconds, i, accept);
    var before := ScanPrefix(firsts, seconds, i, j, accept);
    if accept(firsts[i], seconds[j]) {
      assert ScanPrefix(firsts, seconds, i, j + 1, accept) == before + [(i, j)];
      MaterializeSnoc(firsts, seconds, before, (i, j));
    } else {
      assert ScanPrefix(firsts, seconds, i, j + 1, accept) == before;
    }
  }

  /** The step of the inner scan for a layover window, stated with the
      layover the matcher computes. */
  lemma WindowScanStep(firsts: seq<LineInfo>, seconds: seq<LineInfo>, i: nat, j: nat, lo: int, hi: int, gap: int)
    requires i < |firsts| && j < |seconds|
    requires |firsts[i]| > ArriveTime && |seconds[j]| > StartTime
    requires gap == TimeGap(seconds[j][StartTime], firsts[i][ArriveTime])
    ensures lo <= gap <= hi ==>
              (Materialize(firsts, seconds, ScanPrefix(firsts, seconds, i, j + 1, WindowOf(lo, hi)))
               == Materialize(firsts, seconds, ScanPrefix(firsts, seconds, i, j, WindowOf(lo, hi)))
                  + [TrainTransfer(firsts[i], seconds[j])])
    ensures !(lo <= gap <= hi) ==>
              (Materialize(firsts, seconds, ScanPrefix(firsts, seconds, i, j + 1, WindowOf(lo, hi)))
               == Materialize(firsts, seconds, ScanPrefix(firsts, seconds, i, j, WindowOf(lo, hi))))
  {
    WindowOfAt(firsts[i], seconds[j], lo, hi);
    ScanStep(firsts, seconds, i, j, WindowOf(lo, hi));
  }

  lemma MaterializeSnoc(firsts: seq<LineInfo>, seconds: seq<LineInfo>, ps: seq<(nat, nat)>, p: (nat, nat))
    requires PairsInRange(firsts, seconds, ps)
    requires p.0 < |firsts| && p.1 < |seconds|
    ensures Materialize(firsts, seconds, ps + [p])
         == Materialize(firsts, seconds, ps) + [TrainTransfer(firsts[p.0], seconds[p.1])]
  {
  }

  /** Every accepted index pair is in range and passes the test. */
  lemma {:induction false} AcceptedPairsSound(firsts: seq<LineInfo>, seconds: seq<LineInfo>, n: nat, accept: Acceptance, k: nat)
    requires n <= |firsts|
    requires k < |AcceptedPairs(firsts, seconds, n, accept)|
    ensures var p := AcceptedPairs(firsts, seconds, n, accept)[k];
            p.0 < n && p.1 < |seconds| && accept(firsts[p.0], seconds[p.1])
  {
    if n > 0 {
      var prev := AcceptedPairs(firsts, seconds, n - 1, accept);
      if k < |prev| {
        AcceptedPairsSound(firsts, seconds, n - 1, accept, k);
      } else {
        RowPairsSound(firsts, seconds, n - 1, |seconds|, accept, k - |prev|);
      }
    }
  }

  lemma {:induction false} RowPairsSound(firsts: seq<LineInfo>, seconds: seq<LineInfo>, i: nat, m: nat, accept: Acceptance, k: nat)
    requires i < |firsts| && m <= |seconds|
    requires k < |RowPairs(firsts, seconds, i, m, accept)|
    ensures var p := RowPairs(firsts, seconds, i, m, accept)[k];
            accept(firsts[i], seconds[p.1])
  {
    if m > 0 {
      var prev := RowPairs(firsts, seconds, i, m - 1, accept);
      if k < |prev| {
        RowPairsSound(firsts, seconds, i, m - 1, accept, k);
      }
    }
  }

  /** Every index pair that passes the test is accepted into its row. */
  lemma {:induction false} RowPairsComplete(firsts: seq<LineInfo>, seconds: seq<LineInfo>, i: nat, m: nat, accept: Acceptance, j: nat)
    requires i < |firsts| && j < m <= |seconds|
    requires accept(firsts[i], seconds[j])
    ensures (i, j) in RowPairs(firsts, seconds, i, m, accept)
  {
    if j < m - 1 {
      RowPairsComplete(firsts, seconds, i, m - 1, accept, j);
    }
  }

  lemma {:induction false} AcceptedPairsComplete(firsts: seq<LineInfo>, seconds: seq<LineInfo>, n: nat, accept: Acceptance, i: nat, j: nat)
    requires i < n <= |firsts| && j < |seconds|
    requires accept(firsts[i], seconds[j])
    ensures (i, j) in AcceptedPairs(firsts, seconds, n, accept)
  {
    var prev := AcceptedPairs(firsts, seconds, n - 1, accept);
    var row := RowPairs(firsts, seconds, n - 1, |seconds|, accept);
    if i < n - 1 {
      AcceptedPairsComplete(firsts, seconds, n - 1, accept, i, j);
    } else {
      RowPairsComplete(firsts, seconds, i, |seconds|, accept, j);
    }
    InConcat(prev, row, (i, j));
  }

  lemma InConcat<T>(a: seq<T>, b: seq<T>, x: T)
    requires x in a || x in b
    ensures x in a + b
  {
  }

  /** `p` comes before `q` in the order of the nested scan. */
  predicate LexLess(p: (nat, nat), q: (nat, nat))
  {
    p.0 < q.0 || (p.0 == q.0 && p.1 < q.1)
  }

  predicate LexSorted(ps: seq<(nat, nat)>)
  {
    forall a, b :: 0 <= a < b < |ps| ==> LexLess(ps[a], ps[b])
  }

  lemma {:induction false} RowPairsSorted(firsts: seq<LineInfo>, seconds: seq<LineInfo>, i: nat, m: nat, accept: Acceptance)
    requires i < |firsts| && m <= |seconds|
    ensures LexSorted(RowPairs(firsts, seconds, i, m, accept))
  {
    if m > 0 {
      RowPairsSorted(firsts, seconds, i, m - 1, accept);
    }
  }

  lemma {:induction false} AcceptedPairsSorted(firsts: seq<LineInfo>, seconds: seq<LineInfo>, n: nat, accept: Acceptance)
    requires n <= |firsts|
    ensures LexSorted(AcceptedPairs(firsts, seconds, n, accept))
  {
    if n > 0 {
      AcceptedPairsSorted(firsts, seconds, n - 1, accept);
      RowPairsSorted(firsts, seconds, n - 1, |seconds|, accept);
    }
  }

  lemma RowsAddUp(n: nat, m: nat)
    requires n > 0
    ensures (n - 1) * m + m == n * m
  {
  }

  lemma {:induction false} AcceptedPairsLength(firsts: seq<LineInfo>, seconds: seq<LineInfo>, n: nat, accept: Acceptance)
    requires n <= |firsts|
    ensures |AcceptedPairs(firsts, seconds, n, accept)| <= n * |seconds|
  {
    if n > 0 {
      var m := |seconds|;
      var prev := AcceptedPairs(firsts, seconds, n - 1, accept);
      var row := RowPairs(firsts, seconds, n - 1, m, accept);
      assert AcceptedPairs(firsts, seconds, n, accept) == prev + row;
      AcceptedPairsLength(firsts, seconds, n - 1, accept);
      assert |prev| <= (n - 1) * m;
      assert |row| <= m;
      RowsAddUp(n, m);
    }
  }

  /** What transfer matching computes, for any acceptance test: the k-th
      result pairs the legs of the k-th accepted index pair; an index pair
      is accepted exactly when the test holds of its legs; accepted pairs
      are strictly increasing in the order (i, j), so each one is produced
      once and the pairs of `firsts[i]` come before those of `firsts[i + 1]`;
      and there are at most |firsts| * |seconds| of them. */
  lemma TransfersCharacterization(firsts: seq<LineInfo>, seconds: seq<LineInfo>, accept: Acceptance)
    ensures var ps := AcceptedPairs(firsts, seconds, |firsts|, accept);
            && |Transfers(firsts, seconds, accept)| == |ps|
            && (forall k :: 0 <= k < |ps| ==>
                  Transfers(firsts, seconds, accept)[k] == TrainTransfer(firsts[ps[k].0], seconds[ps[k].1]))
            && (forall i: nat, j: nat :: i < |firsts| && j < |seconds| ==>
                  ((i, j) in ps <==> accept(firsts[i], seconds[j])))
            && LexSorted(ps)
            && |ps| <= |firsts| * |seconds|
  {
    var ps := AcceptedPairs(firsts, seconds, |firsts|, accept);
    forall i: nat, j: nat | i < |firsts| && j < |seconds|
      ensures (i, j) in ps <==> accept(firsts[i], seconds[j])
    {
      if (i, j) in ps {
        var k :| 0 <= k < |ps| && ps[k] == (i, j);
        AcceptedPairsSound(firsts, seconds, |firsts|, accept, k);
      }
      if accept(firsts[i], seconds[j]) {
        AcceptedPairsComplete(firsts, seconds, |firsts|, accept, i, j);
      }
    }
    AcceptedPairsSorted(firsts, seconds, |firsts|, accept);
    AcceptedPairsLength(firsts, seconds, |firsts|, accept);
  }

  /** No first legs, or no second legs, give no transfers. */
  lemma {:induction false} TransfersOfEmpty(firsts: seq<LineInfo>, seconds: seq<LineInfo>, accept: Acceptance)
    requires firsts == [] || seconds == []
    ensures Transfers(firsts, seconds, accept) == []
  {
    AcceptedPairsLength(firsts, seconds, |firsts|, accept);
  }

  /** An empty window (lo > hi) gives no transfers, whatever the legs. */
  lemma {:induction false} TransfersOfEmptyWindow(firsts: seq<LineInfo>, seconds: seq<LineInfo>, lo: int, hi: int)
    requires lo > hi
    ensures Transfers(firsts, seconds, WindowOf(lo, hi)) == []
  {
    var ps := AcceptedPairs(firsts, seconds, |firsts|, WindowOf(lo, hi));
    if ps != [] {
      AcceptedPairsSound(firsts, seconds, |firsts|, WindowOf(lo, hi), 0);
    }
  }

  /** A record with the given start and arrival times and empty other fields. */
  function Leg(start: GoString, arrive: GoString): (v: LineInfo)
    ensures |v| == ArriveTime + 1 && v[StartTime] == start && v[ArriveTime] == arrive
  {
    seq(ArriveTime + 1, k => if k == StartTime then start else if k == ArriveTime then arrive else [])
  }

  /** Clock times of the example below. */
  const Time1000: GoString := [0x31, 0x30, 0x3A, 0x30, 0x30]  // "10:00"
  const Time1020: GoString := [0x31, 0x30, 0x3A, 0x32, 0x30]  // "10:20"
  const Time1030: GoString := [0x31, 0x30, 0x3A, 0x33, 0x30]  // "10:30"
  const Time1110: GoString := [0x31, 0x31, 0x3A, 0x31, 0x30]  // "11:10"

  /** The layovers of the example: 20, 30 and 70 minutes after 10:00. */
  lemma ExampleLayovers()
    ensures TimeGap(Time1020, Time1000) == 20
    ensures TimeGap(Time1030, Time1000) == 30
    ensures TimeGap(Time1110, Time1000) == 70
  {
    ClockDigits(Time1000);
    ClockDigits(Time1020);
    ClockDigits(Time1030);
    ClockDigits(Time1110);
  }

  /** A first leg arriving at 10:00 and second legs leaving at 10:20, 10:30
      and 11:10: with the window [25, 60] only the 10:30 leg (30 minutes)
      connects; 20 minutes is too short and 70 too long. */
  lemma TransfersExample()
    ensures var f := Leg([], Time1000);
            var s := [Leg(Time1020, []), Leg(Time1030, []), Leg(Time1110, [])];
            Transfers([f], s, WindowOf(MinTransferDuration, MaxTransferDuration)) == [TrainTransfer(f, s[1])]
  {
    var f := Leg([], Time1000);
    var s := [Leg(Time1020, []), Leg(Time1030, []), Leg(Time1110, [])];
    var accept := WindowOf(MinTransferDuration, MaxTransferDuration);
    ExampleLayovers();
    WindowOfAt(f, s[0], MinTransferDuration, MaxTransferDuration);
    WindowOfAt(f, s[1], MinTransferDuration, MaxTransferDuration);
    WindowOfAt(f, s[2], MinTransferDuration, MaxTransferDuration);
    assert !accept(f, s[0]) && accept(f, s[1]) && !accept(f, s[2]);
    assert RowPairs([f], s, 0, 1, accept) == [];
    assert RowPairs([f], s, 0, 2, accept) == [(0, 1)];
    assert RowPairs([f], s, 0, 3, accept) == [(0, 1)];
    assert AcceptedPairs([f], s, 1, accept) == [(0, 1)];
  }
}
