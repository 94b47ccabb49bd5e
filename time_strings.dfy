/** Clock times "HH:MM" turned into minutes by byte arithmetic, and the gap
    between two of them. A string that fails the format check counts as 0
    minutes. The format check is a regular expression that is not anchored,
    while the arithmetic always reads bytes 0, 1, 3 and 4; this model keeps
    both as they are. */
module TimeStrings {
  import opened GoStrings

  const Zero: byte := 0x30
  const Colon: byte := 0x3A

  predicate IsDigit(b: byte)
  {
    0x30 <= b <= 0x39
  }

  /** The five bytes of `s` from position `k` on match `[012][0-9]:[0-5][0-9]`. */
  predicate MatchesAt(s: GoString, k: nat)
    requires k + 5 <= |s|
  {
    && 0x30 <= s[k] <= 0x32
    && IsDigit(s[k + 1])
    && s[k + 2] == Colon
    && 0x30 <= s[k + 3] <= 0x35
    && IsDigit(s[k + 4])
  }

  /** The format check of TimeString2Min. The pattern is not anchored, so
      it succeeds as soon as any five consecutive bytes match it. */
  predicate TimeStringMatches(s: GoString): (r: bool)
    ensures r ==> 5 <= |s|
    ensures BeginsWithClock(s) ==> r
  {
    exists k: nat | k <= |s| - 5 :: MatchesAt(s, k)
  }

  /** The string starts with a well-formed clock time. */
  predicate BeginsWithClock(s: GoString)
  {
    5 <= |s| && MatchesAt(s, 0)
  }

  /** Bytes before a match do not stop the check from succeeding: the
      pattern can be found anywhere in the string. */
  lemma {:induction false} TimeStringMatchesAfterPrefix(prefix: GoString, s: GoString)
    requires TimeStringMatches(s)
    ensures TimeStringMatches(prefix + s)
  {
    var k: nat :| k <= |s| - 5 && MatchesAt(s, k);
    var t := prefix + s;
    assert t[|prefix| + k..|prefix| + k + 5] == s[k..k + 5];
    assert MatchesAt(t, |prefix| + k);
  }

  /** `int(b - '0')`: Go subtracts in bytes, wrapping modulo 256, and only
      then converts to int. */
  function DigitValue(b: byte): (d: int)
    ensures 0 <= d < 256
    ensures IsDigit(b) ==> d == b as int - Zero as int
  {
    (b as int - Zero as int) % 256
  }

  function TimeString2Min(t: GoString): (minutes: int)
    ensures !TimeStringMatches(t) ==> minutes == 0
    ensures BeginsWithClock(t) ==> 0 <= minutes <= 29 * 60 + 59
  {
    if !TimeStringMatches(t) then 0
    else DigitValue(t[0]) * 10 * 60 + DigitValue(t[1]) * 60 + DigitValue(t[3]) * 10 + DigitValue(t[4])
  }

  /** `a - b` in minutes. */
  function TimeGap(a: GoString, b: GoString): (gap: int)
    ensures BeginsWithClock(a) && BeginsWithClock(b) ==> -1799 <= gap <= 1799
    ensures !TimeStringMatches(b) ==> gap == TimeString2Min(a)
    ensures !TimeStringMatches(a) ==> gap == -TimeString2Min(b)
  {
    TimeString2Min(a) - TimeString2Min(b)
  }

  /** The rendering of `h` hours and `m` minutes as "HH:MM"; it is the
      reference against which TimeString2Min is proved. */
  function Clock(h: nat, m: nat): (s: GoString)
    requires h < 30 && m < 60
    ensures |s| == 5
  {
    [(Zero as int + h / 10) as byte, (Zero as int + h % 10) as byte, Colon,
     (Zero as int + m / 10) as byte, (Zero as int + m % 10) as byte]
  }

  /** A string that begins with "HH:MM" (hours below 30, minutes below 60)
      is read as exactly `60 * HH + MM`, whatever follows. */
  lemma ClockRoundTrip(h: nat, m: nat, rest: GoString)
    requires h < 30 && m < 60
    ensures BeginsWithClock(Clock(h, m) + rest)
    ensures TimeString2Min(Clock(h, m) + rest) == 60 * h + m
  {
    var s := Clock(h, m) + rest;
    assert MatchesAt(s, 0);
    assert TimeStringMatches(s);
  }

  /** Conversely, every string the well-formed case covers is the rendering
      of the value it is read as, followed by the rest. */
  lemma ClockParse(t: GoString)
    requires BeginsWithClock(t)
    ensures var v := TimeString2Min(t); t == Clock(v / 60, v % 60) + t[5..]
  {
    assert TimeStringMatches(t) by { assert MatchesAt(t, 0); }
    var v := TimeString2Min(t);
    var h, m := DigitValue(t[0]) * 10 + DigitValue(t[1]), DigitValue(t[3]) * 10 + DigitValue(t[4]);
    assert v == 60 * h + m;
    assert v / 60 == h && v % 60 == m;
    var c := Clock(v / 60, v % 60);
    assert c[0] == t[0] && c[1] == t[1] && c[2] == t[2] && c[3] == t[3] && c[4] == t[4];
    assert t == t[..5] + t[5..];
  }

  /** Gaps are differences of readings: a time is 0 minutes from itself,
      swapping the arguments negates the gap, and gaps add up. */
  lemma TimeGapLaws(a: GoString, b: GoString, c: GoString)
    ensures TimeGap(a, a) == 0
    ensures TimeGap(a, b) == -TimeGap(b, a)
    ensures TimeGap(a, c) == TimeGap(a, b) + TimeGap(b, c)
  {
  }

  /** What a string beginning with a well-formed time reads as, digit by digit. */
  lemma ClockDigits(t: GoString)
    requires BeginsWithClock(t)
    ensures TimeString2Min(t)
         == 60 * (10 * (t[0] as int - 0x30) + (t[1] as int - 0x30)) + 10 * (t[3] as int - 0x30) + (t[4] as int - 0x30)
  {
    assert MatchesAt(t, 0);
  }

  /** Readings of sample strings. */
  lemma TimeString2MinExamples()
    ensures TimeString2Min([0x30, 0x35, 0x3A, 0x33, 0x30]) == 330     // "05:30"
    ensures TimeString2Min([0x32, 0x34, 0x3A, 0x30, 0x30]) == 1440    // "24:00"
    ensures TimeString2Min([0x62, 0x61, 0x64]) == 0                   // "bad"
    ensures TimeGap([0x30, 0x39, 0x3A, 0x30, 0x30], [0x30, 0x38, 0x3A, 0x33, 0x30]) == 30    // "09:00" - "08:30"
    ensures TimeGap([0x30, 0x38, 0x3A, 0x30, 0x30], [0x30, 0x38, 0x3A, 0x33, 0x30]) == -30   // "08:00" - "08:30"
  {
    ClockDigits([0x30, 0x35, 0x3A, 0x33, 0x30]);
    ClockDigits([0x32, 0x34, 0x3A, 0x30, 0x30]);
    ClockDigits([0x30, 0x39, 0x3A, 0x30, 0x30]);
    ClockDigits([0x30, 0x38, 0x3A, 0x33, 0x30]);
    ClockDigits([0x30, 0x38, 0x3A, 0x30, 0x30]);
  }

  /** Because the check is not anchored, a well-formed time after a leading
      space passes it; the arithmetic then reads the space, a digit, the
      colon and a digit, and the space minus '0' wraps around to 240. */
  lemma UnanchoredCheck()
    ensures var s: GoString := [0x20, 0x30, 0x35, 0x3A, 0x33, 0x30];   // " 05:30"
            TimeStringMatches(s) && !BeginsWithClock(s)
            && TimeString2Min(s) == 240 * 600 + 0 * 60 + 10 * 10 + 3
  {
    var s: GoString := [0x20, 0x30, 0x35, 0x3A, 0x33, 0x30];
    assert MatchesAt(s, 1);
  }
}
