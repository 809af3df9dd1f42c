/**
  The meaning of the `.TIF` run stream: a sequence of `(token, count)` byte
  pairs, each standing for `count` cells of the colour whose token it is.
  These definitions are the specification the encoder is proved against.
 */
module TifRuns {
  import opened Palette

  /** `n` copies of colour `c`. */
  function Repeat(c: Color, n: nat): (s: seq<Color>)
    ensures |s| == n
    ensures forall k :: 0 <= k < n ==> s[k] == c
  {
    seq(n, _ => c)
  }

  /** Every even position holds a colour token. */
  predicate Tokens(s: seq<byte>) {
    && |s| % 2 == 0
    && forall k :: 0 <= k < |s| && k % 2 == 0 ==> FromTifToken(s[k]).Some?
  }

  /** Pairs of a known token and a count in 1..255. */
  predicate WellFormed(s: seq<byte>) {
    && Tokens(s)
    && forall k :: 0 <= k < |s| && k % 2 == 1 ==> 1 <= s[k]
  }

  /** Two adjacent pairs repeat a token only when the first is full (255). */
  predicate Maximal(s: seq<byte>) {
    forall k :: 0 <= k && k + 3 < |s| && k % 2 == 0 && s[k] == s[k + 2] ==> s[k + 1] == 255
  }

  /** The colour sequence a run stream stands for, read pair by pair. */
  function Expand(s: seq<byte>): seq<Color>
    requires Tokens(s)
    decreases |s|
  {
    if |s| == 0 then []
    else Expand(s[..|s| - 2]) + Repeat(FromTifToken(s[|s| - 2]).value, s[|s| - 1])
  }

  /** The sum of all counts of a run stream. */
  function SumCounts(s: seq<byte>): nat
    requires |s| % 2 == 0
    decreases |s|
  {
    if |s| == 0 then 0 else SumCounts(s[..|s| - 2]) + s[|s| - 1]
  }

  /** Appending one pair adds its run at the end of the expansion. */
  lemma ExpandSnoc(s: seq<byte>, c: Color, n: byte)
    requires Tokens(s)
    ensures Tokens(s + [TifToken(c), n])
    ensures Expand(s + [TifToken(c), n]) == Expand(s) + Repeat(c, n)
    ensures SumCounts(s + [TifToken(c), n]) == SumCounts(s) + n
  {
    var t := s + [TifToken(c), n];
    assert t[..|t| - 2] == s;
    TokenRoundTrip(c);
  }

  /** A stream expands to exactly as many cells as its counts add up to. */
  lemma {:induction false} ExpandLength(s: seq<byte>)
    requires Tokens(s)
    ensures |Expand(s)| == SumCounts(s)
    decreases |s|
  {
    if |s| > 0 {
      ExpandLength(s[..|s| - 2]);
    }
  }

  /** Splits a row-major colour sequence of `h` rows into rows of `w` cells
      (the row count is not stored in the file, so the caller supplies it). */
  function Rows(s: seq<Color>, w: nat, h: nat): (rows: seq<seq<Color>>)
    requires |s| == h * w
    ensures |rows| == h
    ensures forall i :: 0 <= i < h ==> |rows[i]| == w
    decreases h
  {
    if h == 0 then []
    else
      assert |s| - w == (h - 1) * w;
      Rows(s[..|s| - w], w, h - 1) + [s[|s| - w..]]
  }
}
