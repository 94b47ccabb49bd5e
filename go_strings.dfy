/** Go strings as the byte sequences they are, and the one routine of Go's
    `strings` package the tool relies on: `strings.Split` with a separator of
    one byte (the tool splits on `'`, `@` and `|`). */
module GoStrings {

  /** One byte of a Go string. */
  newtype byte = x: int | 0 <= x < 256

  /** A Go string: an immutable sequence of bytes, UTF-8 for text. */
  type GoString = seq<byte>

  /** Number of occurrences of `b` in `s`. */
  function Count(s: GoString, b: byte): nat
  {
    if s == [] then 0 else (if s[0] == b then 1 else 0) + Count(s[1..], b)
  }

  /** Index of the first occurrence of `sep` in `s`. */
  function IndexOf(s: GoString, sep: byte): (i: nat)
    requires sep in s
    ensures i < |s| && s[i] == sep && sep !in s[..i]
  {
    if s[0] == sep then 0
    else
      assert sep in s[1..] by { var k :| 0 <= k < |s| && s[k] == sep; assert s[1..][k - 1] == sep; }
      var j := IndexOf(s[1..], sep);
      assert s[..j + 1] == [s[0]] + s[1..][..j];
      1 + j
  }

  /** No occurrence of `sep` comes before IndexOf's. */
  lemma {:induction false} IndexOfFirst(s: GoString, sep: byte, j: nat)
    requires j < |s| && s[j] == sep
    ensures IndexOf(s, sep) <= j
  {
    if s[0] != sep {
      assert s[1..][j - 1] == sep;
      IndexOfFirst(s[1..], sep, j - 1);
    }
  }

  /** `strings.Split(s, sep)` for a one-byte separator: the pieces of `s`
      between the occurrences of `sep`, in order. There is always at least
      one piece: splitting the empty string gives `[""]`. */
  function Split(s: GoString, sep: byte): (pieces: seq<GoString>)
    ensures |pieces| >= 1
    ensures forall k :: 0 <= k < |pieces| ==> sep !in pieces[k]
    decreases |s|
  {
    if sep !in s then [s]
    else
      var i := IndexOf(s, sep);
      [s[..i]] + Split(s[i + 1..], sep)
  }

  /** `strings.Join(pieces, sep)`: the inverse of Split. */
  function Join(pieces: seq<GoString>, sep: byte): GoString
  {
    if |pieces| == 0 then []
    else if |pieces| == 1 then pieces[0]
    else pieces[0] + [sep] + Join(pieces[1..], sep)
  }

  lemma {:induction false} CountConcat(a: GoString, b: GoString, x: byte)
    ensures Count(a + b, x) == Count(a, x) + Count(b, x)
  {
    if a == [] {
      assert a + b == b;
    } else {
      assert (a + b)[1..] == a[1..] + b;
      CountConcat(a[1..], b, x);
    }
  }

  lemma {:induction false} CountAbsent(s: GoString, x: byte)
    requires x !in s
    ensures Count(s, x) == 0
  {
    if s != [] {
      assert x !in s[1..] by { assert forall k :: 0 <= k < |s| - 1 ==> s[1..][k] == s[k + 1]; }
      CountAbsent(s[1..], x);
    }
  }

  /** Split yields one piece more than there are separators. */
  lemma {:induction false} SplitCount(s: GoString, sep: byte)
    ensures |Split(s, sep)| == Count(s, sep) + 1
    decreases |s|
  {
    if sep !in s {
      CountAbsent(s, sep);
    } else {
      var i := IndexOf(s, sep);
      assert s == s[..i] + [sep] + s[i + 1..];
      CountConcat(s[..i] + [sep], s[i + 1..], sep);
      CountConcat(s[..i], [sep], sep);
      CountAbsent(s[..i], sep);
      SplitCount(s[i + 1..], sep);
    }
  }

  /** Joining the pieces of a split gives back the original string. */
  lemma {:induction false} SplitJoin(s: GoString, sep: byte)
    ensures Join(Split(s, sep), sep) == s
    decreases |s|
  {
    if sep in s {
      var i := IndexOf(s, sep);
      var rest := Split(s[i + 1..], sep);
      assert Split(s, sep) == [s[..i]] + rest;
      assert ([s[..i]] + rest)[1..] == rest;
      SplitJoin(s[i + 1..], sep);
      assert s == s[..i] + [sep] + s[i + 1..];
    }
  }

  /** Splitting a join of separator-free pieces gives back those pieces. */
  lemma {:induction false} JoinSplit(pieces: seq<GoString>, sep: byte)
    requires |pieces| >= 1
    requires forall k :: 0 <= k < |pieces| ==> sep !in pieces[k]
    ensures Split(Join(pieces, sep), sep) == pieces
  {
    if |pieces| > 1 {
      var p, tail := pieces[0], Join(pieces[1..], sep);
      var s := p + [sep] + tail;
      assert Join(pieces, sep) == s;
      assert s[|p|] == sep;
      assert forall k :: 0 <= k < |p| ==> s[k] == p[k];
      var i := IndexOf(s, sep);
      IndexOfFirst(s, sep, |p|);
      assert i == |p|;
      assert s[..i] == p;
      assert s[i + 1..] == tail;
      JoinSplit(pieces[1..], sep);
      assert pieces == [p] + pieces[1..];
    }
  }
}
