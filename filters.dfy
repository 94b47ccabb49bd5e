/** The three record filters of the ticket query and the chain that the
    query flow applies them in. Each filter walks its input once and appends
    the records it keeps to a fresh result, so it keeps the input order. */
module Filters {
  import opened GoStrings
  import opened Sequences
  import opened TripRecords

  /** `"Y"`: the record can be bought online. */
  const Yes: GoString := [0x59]
  /** `"有"` in UTF-8: second-class seats available, count not given. */
  const SeatsAvailable: GoString := [0xE6, 0x9C, 0x89]
  /** `"无"` in UTF-8: no second-class seats. */
  const SeatsNone: GoString := [0xE6, 0x97, 0xA0]

  /* The tests below start with the length of the record so that they are
     total, as the selection `Keep` needs; the filter using each test
     requires every record it reads to be that long, so the length part
     never decides anything there. */

  /** The record passes FilterLinesCanNotBuy. */
  predicate Purchasable(v: LineInfo)
  {
    |v| > CanWebBuy && v[CanWebBuy] == Yes
  }

  /** The record passes FilterStationNotMatch for the queried segment. */
  predicate OnSegment(v: LineInfo, from: GoString, to: GoString)
  {
    |v| > ToStationTelecode && v[FromStationTelecode] == from && v[ToStationTelecode] == to
  }

  /** The record passes FilterLinesWithoutSeatGrade2; `mustInt` is the
      string-to-integer conversion of the svrkit library, which is not
      part of this model and so is left uninterpreted. */
  predicate HasSeatGrade2(v: LineInfo, mustInt: GoString -> int)
  {
    |v| > SeatGrade2 && v[SeatGrade2] != SeatsNone && (v[SeatGrade2] == SeatsAvailable || mustInt(v[SeatGrade2]) >= 2)
  }

  /** Go reads field 11 of every record, fields 6 and 7 of those it can
      buy, and field 30 of those that are also on the segment; this is
      what the chain needs so that none of those reads is past the end. */
  predicate ChainReadable(queried: seq<LineInfo>, from: GoString, to: GoString)
  {
    forall v :: v in queried ==>
      |v| > CanWebBuy && (Purchasable(v) && OnSegment(v, from, to) ==> |v| > SeatGrade2)
  }

  /** The record passes all three filters of the query flow. */
  predicate Bookable(v: LineInfo, from: GoString, to: GoString, mustInt: GoString -> int)
  {
    Purchasable(v) && OnSegment(v, from, to) && HasSeatGrade2(v, mustInt)
  }

  function OnSegmentOf(from: GoString, to: GoString): LineInfo -> bool
  {
    (v: LineInfo) => OnSegment(v, from, to)
  }

  function HasSeatGrade2Of(mustInt: GoString -> int): LineInfo -> bool
  {
    (v: LineInfo) => HasSeatGrade2(v, mustInt)
  }

  function BookableOf(from: GoString, to: GoString, mustInt: GoString -> int): LineInfo -> bool
  {
    (v: LineInfo) => Bookable(v, from, to, mustInt)
  }

  method FilterLinesCanNotBuy(lines: seq<LineInfo>) returns (result: seq<LineInfo>)
    requires forall v :: v in lines ==> |v| > CanWebBuy
    ensures result == Keep(lines, Purchasable)
    ensures IsSubsequence(result, lines)
    ensures forall v :: v in result <==> v in lines && Purchasable(v)
  {
    result := [];
    for i := 0 to |lines|
      invariant result == Keep(lines[..i], Purchasable)
    {
      var v := lines[i];
      assert lines[..i + 1] == lines[..i] + [v];
      KeepSnoc(lines[..i], v, Purchasable);
      if v[CanWebBuy] != Yes {
        continue;
      }
      result := result + [v];
    }
    assert lines[..|lines|] == lines;
    KeepIsSubsequence(lines, Purchasable);
    forall v ensures v in result <==> v in lines && Purchasable(v) {
      KeepMembers(lines, Purchasable, v);
    }
  }

  method FilterLinesWithoutSeatGrade2(lines: seq<LineInfo>, mustInt: GoString -> int)
    returns (result: seq<LineInfo>)
    requires forall v :: v in lines ==> |v| > SeatGrade2
    ensures result == Keep(lines, HasSeatGrade2Of(mustInt))
    ensures IsSubsequence(result, lines)
    ensures forall v :: v in result <==> v in lines && HasSeatGrade2(v, mustInt)
  {
    result := [];
    for i := 0 to |lines|
      invariant result == Keep(lines[..i], HasSeatGrade2Of(mustInt))
    {
      var v := lines[i];
      assert lines[..i + 1] == lines[..i] + [v];
      KeepSnoc(lines[..i], v, HasSeatGrade2Of(mustInt));
      if v[SeatGrade2] == SeatsNone {
        continue;
      }
      if v[SeatGrade2] != SeatsAvailable {
        if mustInt(v[SeatGrade2]) < 2 {
          continue;
        }
      }
      result := result + [v];
    }
    assert lines[..|lines|] == lines;
    KeepIsSubsequence(lines, HasSeatGrade2Of(mustInt));
    forall v ensures v in result <==> v in lines && HasSeatGrade2(v, mustInt) {
      KeepMembers(lines, HasSeatGrade2Of(mustInt), v);
    }
  }

  method FilterStationNotMatch(lines: seq<LineInfo>, from: GoString, to: GoString)
    returns (result: seq<LineInfo>)
    requires forall v :: v in lines ==> |v| > ToStationTelecode
    ensures result == Keep(lines, OnSegmentOf(from, to))
    ensures IsSubsequence(result, lines)
    ensures forall v :: v in result <==> v in lines && OnSegment(v, from, to)
  {
    result := [];
    for i := 0 to |lines|
      invariant result == Keep(lines[..i], OnSegmentOf(from, to))
    {
      var v := lines[i];
      assert lines[..i + 1] == lines[..i] + [v];
      KeepSnoc(lines[..i], v, OnSegmentOf(from, to));
      if v[FromStationTelecode] != from || v[ToStationTelecode] != to {
        continue;
      }
      result := result + [v];
    }
    assert lines[..|lines|] == lines;
    KeepIsSubsequence(lines, OnSegmentOf(from, to));
    forall v ensures v in result <==> v in lines && OnSegment(v, from, to) {
      KeepMembers(lines, OnSegmentOf(from, to), v);
    }
  }

  /** The station filter applied to its own output changes nothing. */
  lemma {:induction false} StationFilterIdempotent(lines: seq<LineInfo>, from: GoString, to: GoString)
    ensures Keep(Keep(lines, OnSegmentOf(from, to)), OnSegmentOf(from, to)) == Keep(lines, OnSegmentOf(from, to))
  {
    KeepIdempotent(lines, OnSegmentOf(from, to));
  }

  /** The seat filter's three cases: "无" is always dropped, "有" always kept,
      and any other value kept exactly when its count is at least 2. */
  lemma {:induction false} SeatGrade2Cases(lines: seq<LineInfo>, mustInt: GoString -> int)
    requires forall v :: v in lines ==> |v| > SeatGrade2
    ensures forall v :: v in Keep(lines, HasSeatGrade2Of(mustInt)) ==> v[SeatGrade2] != SeatsNone
    ensures forall v :: v in lines && v[SeatGrade2] == SeatsAvailable ==>
                        v in Keep(lines, HasSeatGrade2Of(mustInt))
    ensures forall v :: v in lines && v[SeatGrade2] != SeatsNone && v[SeatGrade2] != SeatsAvailable ==>
                        (v in Keep(lines, HasSeatGrade2Of(mustInt)) <==> mustInt(v[SeatGrade2]) >= 2)
  {
    forall v {
      KeepMembers(lines, HasSeatGrade2Of(mustInt), v);
    }
  }

  /** The filter chain of commonGetLines (and getLinesNanTou2GuangZhou) on
      the records the query returned: buyable, then on the queried
      segment, then with second-class seats. */
  method CommonGetLines(queried: seq<LineInfo>, from: GoString, to: GoString, mustInt: GoString -> int)
    returns (lines: seq<LineInfo>)
    requires ChainReadable(queried, from, to)
    ensures lines == Keep(queried, BookableOf(from, to, mustInt))
    ensures IsSubsequence(lines, queried)
    ensures forall v :: v in lines <==> v in queried && Bookable(v, from, to, mustInt)
  {
    lines := FilterLinesCanNotBuy(queried);
    lines := FilterStationNotMatch(lines, from, to);
    lines := FilterLinesWithoutSeatGrade2(lines, mustInt);
    ChainIsOneFilter(queried, from, to, mustInt);
    KeepIsSubsequence(queried, BookableOf(from, to, mustInt));
    forall v ensures v in lines <==> v in queried && Bookable(v, from, to, mustInt) {
      KeepMembers(queried, BookableOf(from, to, mustInt), v);
    }
  }

  /** getLinesNanTou2GuangZhou: the same chain, for the fixed segment
      from NanTou to GuangZhouNan. */
  method GetLinesNanTou2GuangZhou(queried: seq<LineInfo>, mustInt: GoString -> int)
    returns (lines: seq<LineInfo>)
    requires ChainReadable(queried, StationNanTou, StationGuangZhouNan)
    ensures lines == Keep(queried, BookableOf(StationNanTou, StationGuangZhouNan, mustInt))
    ensures forall v :: v in lines ==>
              |v| > SeatGrade2 && v[FromStationTelecode] == StationNanTou && v[ToStationTelecode] == StationGuangZhouNan
  {
    lines := FilterLinesCanNotBuy(queried);
    lines := FilterStationNotMatch(lines, StationNanTou, StationGuangZhouNan);
    lines := FilterLinesWithoutSeatGrade2(lines, mustInt);
    ChainIsOneFilter(queried, StationNanTou, StationGuangZhouNan, mustInt);
  }

  /** The three filters in the order of the query flow select the same
      records as the single conjunction of their predicates. */
  lemma {:induction false} ChainIsOneFilter(queried: seq<LineInfo>, from: GoString, to: GoString, mustInt: GoString -> int)
    ensures Keep(Keep(Keep(queried, Purchasable), OnSegmentOf(from, to)), HasSeatGrade2Of(mustInt))
         == Keep(queried, BookableOf(from, to, mustInt))
  {
    var both: LineInfo -> bool := (v: LineInfo) => Purchasable(v) && OnSegment(v, from, to);
    KeepKeep(queried, Purchasable, OnSegmentOf(from, to), both);
    KeepKeep(queried, both, HasSeatGrade2Of(mustInt), BookableOf(from, to, mustInt));
  }
}
