/**
 * The string operations the handlers lean on, with the meaning Rust's `str`
 * gives them: `split` on a one-character pattern, `contains`, and the
 * substring relation used to say that parsed pieces are taken verbatim.
 */
module Text {

  /** Index of the first `c` in `s` at or after `from`, or `|s|` when there is none. */
  function IndexFrom(s: string, c: char, from: nat): (i: nat)
    requires from <= |s|
    ensures from <= i <= |s|
    ensures c !in s[from..i]
    ensures i < |s| ==> s[i] == c
    decreases |s| - from
  {
    if from == |s| then from
    else if s[from] == c then from
    else
      var i := IndexFrom(s, c, from + 1);
      assert s[from..i] == [s[from]] + s[from + 1..i];
      i
  }

  /** Index of the first `c` in `s`, or `|s|` when `s` has none. */
  function IndexOf(s: string, c: char): (i: nat)
    ensures i <= |s|
    ensures c !in s[..i]
    ensures i < |s| ==> s[i] == c
  {
    var i := IndexFrom(s, c, 0);
    assert s[0..i] == s[..i];
    i
  }

  /** `IndexOf` finds `c` exactly when `s` contains it. */
  lemma IndexOfFound(s: string, c: char)
    ensures IndexOf(s, c) < |s| <==> c in s
  {
    var i := IndexOf(s, c);
    if i == |s| {
      assert s[..i] == s;
    }
  }

  /**
   * `s.split(sep)`: the pieces between consecutive occurrences of `sep`,
   * empty pieces included, so `""` splits into `[""]`.
   */
  function Split(s: string, sep: char): (pieces: seq<string>)
    ensures |pieces| >= 1
    decreases |s|
  {
    var i := IndexOf(s, sep);
    if i == |s| then [s] else [s[..i]] + Split(s[i + 1..], sep)
  }

  /**
   * No piece contains the separator, and there are two pieces or more exactly
   * when the text contains it.
   */
  lemma {:induction false} SplitPieces(s: string, sep: char)
    ensures forall k :: 0 <= k < |Split(s, sep)| ==> sep !in Split(s, sep)[k]
    ensures |Split(s, sep)| >= 2 <==> sep in s
    decreases |s|
  {
    var i := IndexOf(s, sep);
    IndexOfFound(s, sep);
    if i == |s| {
      assert s[..i] == s;
    } else {
      var rest := Split(s[i + 1..], sep);
      SplitPieces(s[i + 1..], sep);
      assert Split(s, sep) == [s[..i]] + rest;
    }
  }

  /** The first `c` of `a + b` is the head of `b` when `a` has none. */
  lemma IndexOfPast(a: string, b: string, c: char)
    requires c !in a && |b| > 0 && b[0] == c
    ensures IndexOf(a + b, c) == |a|
  {
    var s := a + b;
    assert s[|a|] == c;
    assert s[..|a|] == a;
  }

  /** The first piece is the text before the first separator, or all of it. */
  lemma SplitFirst(s: string, sep: char)
    ensures Split(s, sep)[0] == s[..IndexOf(s, sep)]
  {
    if IndexOf(s, sep) == |s| {
      assert s[..|s|] == s;
    }
  }

  /** Text without the separator is a single piece. */
  lemma SplitWhole(s: string, sep: char)
    requires sep !in s
    ensures Split(s, sep) == [s]
  {
    IndexOfFound(s, sep);
  }

  /** The first separator ends the first piece; the rest is split on its own. */
  lemma SplitAt(a: string, b: string, sep: char)
    requires sep !in a
    ensures Split(a + [sep] + b, sep) == [a] + Split(b, sep)
  {
    var s := a + [sep] + b;
    IndexOfPast(a, [sep] + b, sep);
    assert s == a + ([sep] + b);
    assert s[..|a|] == a;
    assert s[|a| + 1..] == b;
  }

  /** Glues pieces back together with `sep` between neighbours. */
  function Join(pieces: seq<string>, sep: char): (joined: string)
  {
    if |pieces| == 0 then ""
    else if |pieces| == 1 then pieces[0]
    else pieces[0] + [sep] + Join(pieces[1..], sep)
  }

  /** Splitting loses nothing: the pieces and the separators make up the input again. */
  lemma {:induction false} JoinSplit(s: string, sep: char)
    ensures Join(Split(s, sep), sep) == s
    decreases |s|
  {
    var i := IndexOf(s, sep);
    IndexOfFound(s, sep);
    if i < |s| {
      var rest := Split(s[i + 1..], sep);
      JoinSplit(s[i + 1..], sep);
      var pieces := [s[..i]] + rest;
      assert Split(s, sep) == pieces;
      assert pieces[1..] == rest;
      calc {
        Join(pieces, sep);
        s[..i] + [sep] + Join(rest, sep);
        s[..i] + [s[i]] + s[i + 1..];
        s;
      }
    }
  }

  /** `x` occurs as a contiguous part of `s`. */
  ghost predicate IsInfix(x: string, s: string)
  {
    exists i, j :: 0 <= i <= j <= |s| && s[i..j] == x
  }

  lemma InfixTransitive(x: string, y: string, z: string)
    requires IsInfix(x, y) && IsInfix(y, z)
    ensures IsInfix(x, z)
  {
    var i, j :| 0 <= i <= j <= |y| && y[i..j] == x;
    var i', j' :| 0 <= i' <= j' <= |z| && z[i'..j'] == y;
    forall m | 0 <= m < j - i ensures z[i' + i..i' + j][m] == x[m] {
      assert x[m] == y[i + m];
      assert y[i + m] == z[i' + i + m];
    }
    assert z[i' + i..i' + j] == x;
  }

  /** A character absent from `s` is absent from every part of it. */
  lemma InfixAvoids(x: string, s: string, c: char)
    requires IsInfix(x, s) && c !in s
    ensures c !in x
  {
    var i, j :| 0 <= i <= j <= |s| && s[i..j] == x;
  }

  lemma InfixBetween(a: string, x: string, b: string)
    ensures IsInfix(x, a + x + b)
  {
    assert (a + x + b)[|a|..|a| + |x|] == x;
  }

  /** A part of a part is a part: `x` inside `y`, and `y` inside a longer text. */
  lemma InfixNested(a: string, b: string, x: string, c: string, d: string, e: string)
    ensures IsInfix(x, a + (b + x + c) + d + e)
  {
    var y := b + x + c;
    InfixBetween(b, x, c);
    InfixBetween(a, y, d + e);
    ConcatAssoc(a + y, d, e);
    InfixTransitive(x, y, a + y + d + e);
  }

  /** The middle of `a + x + b` is `x`. */
  lemma Middle(a: string, x: string, b: string)
    ensures |a + x + b| == |a| + |x| + |b|
    ensures (a + x + b)[|a|..|a| + |x|] == x
  {
  }

  /** Concatenation regroups freely; stated once so that long texts need no element-wise proof. */
  lemma ConcatAssoc(a: string, b: string, c: string)
    ensures (a + b) + c == a + (b + c)
  {
  }

  lemma ConcatEmpty(a: string)
    ensures a + "" == a
  {
  }

  /** The character right after `a` in `a + b` is the first of `b`. */
  lemma CharAfter(a: string, b: string)
    requires |b| > 0
    ensures (a + b)[|a|] == b[0]
  {
  }

  /** Equal texts with equal surroundings have equal middles. */
  lemma CancelMiddle(a: string, x: string, y: string, b: string)
    requires a + x + b == a + y + b
    ensures x == y
  {
    assert |x| == |y|;
    assert (a + x + b)[|a|..|a| + |x|] == x;
    assert (a + y + b)[|a|..|a| + |y|] == y;
  }

  lemma SliceIsInfix(s: string, a: nat, b: nat)
    requires a <= b <= |s|
    ensures IsInfix(s[a..b], s)
  {
  }

  /** A part found at `inner` in the suffix of `s` from `from` lies at `from + inner` in `s`. */
  lemma ShiftedSlice(s: string, from: nat, inner: nat, part: string)
    requires from <= |s| && inner + |part| <= |s| - from
    requires s[from..][inner..inner + |part|] == part
    ensures s[from + inner..from + inner + |part|] == part
  {
    assert s[from..][inner..inner + |part|] == s[from + inner..from + inner + |part|];
  }

  /** Where the `k`-th piece starts in the joined text; the piece is copied there unaltered. */
  lemma {:induction false} JoinPieceOffset(pieces: seq<string>, sep: char, k: nat) returns (start: nat)
    requires k < |pieces|
    ensures start + |pieces[k]| <= |Join(pieces, sep)|
    ensures Join(pieces, sep)[start..start + |pieces[k]|] == pieces[k]
    decreases |pieces|
  {
    var joined := Join(pieces, sep);
    if |pieces| == 1 {
      assert joined[..|pieces[0]|] == pieces[0];
      start := 0;
    } else {
      var rest := pieces[1..];
      var head := pieces[0] + [sep];
      assert joined == head + Join(rest, sep);
      if k == 0 {
        assert joined[..|pieces[0]|] == pieces[0];
        start := 0;
      } else {
        var inner := JoinPieceOffset(rest, sep, k - 1);
        assert joined[|head|..] == Join(rest, sep);
        ShiftedSlice(joined, |head|, inner, rest[k - 1]);
        start := |head| + inner;
      }
    }
  }

  /** Every piece `split` yields is a verbatim part of its input. */
  lemma SplitPieceIsInfix(s: string, sep: char, k: nat)
    requires k < |Split(s, sep)|
    ensures IsInfix(Split(s, sep)[k], s)
  {
    var pieces := Split(s, sep);
    JoinSplit(s, sep);
    var start := JoinPieceOffset(pieces, sep, k);
    SliceIsInfix(s, start, start + |pieces[k]|);
  }
}
