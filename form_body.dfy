/**
 * The request-body parser of the todo controller (`ugly_form_body_parser`).
 * The body is cut at every `&`; pieces without `=` are dropped; a kept piece
 * contributes the pair (text before its first `=`, text between its first and
 * second `=`), and the pairs are inserted into a map in body order. Nothing
 * is percent- or `+`-decoded.
 */
module FormBody {
  import opened Text

  /** First item of `piece.split("=")`: the text before the first `=`. */
  function Key(piece: string): (key: string)
    requires '=' in piece
    ensures |key| < |piece| && piece[|key|] == '='
    ensures piece[..|key|] == key && '=' !in key
  {
    Split(piece, '=')[0]
  }

  /**
   * Second item of `piece.split("=")`. The filter on `=` is exactly what makes
   * this item exist, so the parser's second `unwrap` cannot fail.
   */
  function Value(piece: string): (value: string)
    requires '=' in piece
    ensures '=' !in value
  {
    SplitPieces(piece, '=');
    Split(piece, '=')[1]
  }

  /** The key is the text before the first `=`. */
  lemma KeyBeforeFirst(piece: string)
    requires '=' in piece
    ensures Key(piece) == piece[..IndexOf(piece, '=')]
  {
    SplitFirst(piece, '=');
  }

  /** The value is the text after the first `=` up to the next `=`, or to the end. */
  lemma ValueUpToNext(piece: string)
    requires '=' in piece
    ensures IndexOf(piece, '=') < |piece|
    ensures var t := piece[IndexOf(piece, '=') + 1..];
      Value(piece) == t[..IndexOf(t, '=')]
  {
    var i := IndexOf(piece, '=');
    IndexOfFound(piece, '=');
    var t := piece[i + 1..];
    assert piece == piece[..i] + ['='] + t;
    SplitAt(piece[..i], t, '=');
    SplitFirst(t, '=');
  }

  /**
   * A kept piece reads `key=value` followed by text that is empty or starts
   * with a second `=`; that rest is discarded. Neither half contains `=`.
   */
  lemma PieceShape(piece: string)
    requires '=' in piece
    ensures var key, value := Key(piece), Value(piece);
      && '=' !in key && '=' !in value
      && |key| + 1 + |value| <= |piece|
      && piece[..|key| + 1 + |value|] == key + "=" + value
      && (|key| + 1 + |value| < |piece| ==> piece[|key| + 1 + |value|] == '=')
  {
    KeyBeforeFirst(piece);
    ValueUpToNext(piece);
    var i := IndexOf(piece, '=');
    IndexOfFound(piece, '=');
    var t := piece[i + 1..];
    var j := IndexOf(t, '=');
    assert piece[..i + 1 + j] == piece[..i] + [piece[i]] + t[..j];
  }

  /**
   * The map built from `pieces` in order: a piece without `=` is skipped, a
   * kept piece inserts its pair, replacing any earlier value of its key.
   */
  function Absorb(pieces: seq<string>): (data: map<string, string>)
    ensures forall key :: key in data ==> '=' !in key && '=' !in data[key]
    ensures |data| <= |pieces|
  {
    if |pieces| == 0 then map[]
    else
      var data := Absorb(pieces[..|pieces| - 1]);
      var p := pieces[|pieces| - 1];
      if '=' in p then data[Key(p) := Value(p)] else data
  }

  /** What the parser returns for `body`. */
  function FormData(body: string): (data: map<string, string>)
    ensures forall key :: key in data ==> '=' !in key && '=' !in data[key]
    ensures |data| <= |Split(body, '&')|
  {
    Absorb(Split(body, '&'))
  }

  /** The parser itself: fills a map from the `&`-separated pieces, as `extend` does. */
  method ParseFormBody(body: string) returns (data: map<string, string>)
    ensures data == FormData(body)
  {
    var pieces := Split(body, '&');
    data := map[];
    var n := 0;
    while n < |pieces|
      invariant n <= |pieces|
      invariant data == Absorb(pieces[..n])
    {
      var p := pieces[n];
      assert pieces[..n + 1][..n] == pieces[..n];
      if '=' in p {
        var halves := Split(p, '=');
        SplitPieces(p, '=');
        data := data[halves[0] := halves[1]];
      }
      n := n + 1;
    }
    assert pieces[..n] == pieces;
  }

  /** A key is present exactly when some kept piece carries it. */
  lemma {:induction false} AbsorbKeys(pieces: seq<string>, key: string)
    ensures key in Absorb(pieces) <==>
      exists j :: 0 <= j < |pieces| && '=' in pieces[j] && Key(pieces[j]) == key
  {
    if |pieces| > 0 {
      var init := pieces[..|pieces| - 1];
      AbsorbKeys(init, key);
      if key in Absorb(init) {
        var j :| 0 <= j < |init| && '=' in init[j] && Key(init[j]) == key;
        assert pieces[j] == init[j];
      }
      if exists j :: 0 <= j < |pieces| && '=' in pieces[j] && Key(pieces[j]) == key {
        var j :| 0 <= j < |pieces| && '=' in pieces[j] && Key(pieces[j]) == key;
        if j < |init| {
          assert init[j] == pieces[j];
        }
      }
    }
  }

  /**
   * The value a key ends up with is the one of the LAST kept piece carrying
   * that key: later duplicates overwrite earlier ones.
   */
  lemma {:induction false} LaterWins(pieces: seq<string>, j: nat)
    requires j < |pieces| && '=' in pieces[j]
    requires forall l :: j < l < |pieces| && '=' in pieces[l] ==> Key(pieces[l]) != Key(pieces[j])
    ensures Key(pieces[j]) in Absorb(pieces)
    ensures Absorb(pieces)[Key(pieces[j])] == Value(pieces[j])
  {
    var last := |pieces| - 1;
    var init := pieces[..last];
    if j < last {
      assert forall l :: j < l < |init| ==> init[l] == pieces[l];
      LaterWins(init, j);
      assert init[j] == pieces[j];
    }
  }

  /** Every entry of the map comes from the LAST kept piece of the body carrying its key. */
  lemma {:induction false} AbsorbLast(pieces: seq<string>, key: string)
    requires key in Absorb(pieces)
    ensures exists j :: (0 <= j < |pieces| && '=' in pieces[j] && Key(pieces[j]) == key &&
                         Absorb(pieces)[key] == Value(pieces[j]) &&
                         forall l :: j < l < |pieces| && '=' in pieces[l] ==> Key(pieces[l]) != key)
  {
    var last := |pieces| - 1;
    var init := pieces[..last];
    var p := pieces[last];
    assert Absorb(pieces) == if '=' in p then Absorb(init)[Key(p) := Value(p)] else Absorb(init);
    if '=' in p && Key(p) == key {
      assert Absorb(pieces)[key] == Value(pieces[last]);
    } else {
      assert Absorb(pieces)[key] == Absorb(init)[key];
      AbsorbLast(init, key);
      var j :| (0 <= j < |init| && '=' in init[j] && Key(init[j]) == key &&
                Absorb(init)[key] == Value(init[j]) &&
                forall l :: j < l < |init| && '=' in init[l] ==> Key(init[l]) != key);
      assert pieces[j] == init[j];
      forall l | j < l < |pieces| && '=' in pieces[l]
        ensures Key(pieces[l]) != key
      {
        if l < last {
          assert pieces[l] == init[l];
        }
      }
    }
  }

  /** An empty body yields an empty map. */
  lemma EmptyBody()
    ensures FormData("") == map[]
  {
    assert Split("", '&') == [""];
  }

  /** Both halves of a kept piece are verbatim parts of the body it came from, free of `&` and `=`. */
  lemma HalvesVerbatim(body: string, j: nat, k: nat)
    requires j < |Split(body, '&')| && '=' in Split(body, '&')[j] && k < 2
    ensures var half := Split(Split(body, '&')[j], '=')[k];
      IsInfix(half, body) && '&' !in half && '=' !in half
  {
    var p := Split(body, '&')[j];
    SplitPieces(body, '&');
    SplitPieces(p, '=');
    var half := Split(p, '=')[k];
    SplitPieceIsInfix(body, '&', j);
    SplitPieceIsInfix(p, '=', k);
    InfixTransitive(half, p, body);
    InfixAvoids(half, p, '&');
  }

  /** A body `key=value` with neither part holding `&` or `=` parses to exactly that one pair. */
  lemma SinglePair(key: string, value: string)
    requires '&' !in key && '=' !in key && '&' !in value && '=' !in value
    ensures FormData(key + "=" + value) == map[key := value]
  {
    var body := key + "=" + value;
    assert body == key + ['='] + value;
    assert body[|key|] == '=';
    SplitWhole(body, '&');
    SplitAt(key, value, '=');
    SplitWhole(value, '=');
    assert Key(body) == key && Value(body) == value;
    assert [body][..0] == [];
    assert FormData(body) == Absorb([body]);
    assert Absorb([body]) == Absorb([])[key := value];
  }

  /** In a one-piece body, text after a second `=` is dropped. */
  lemma SecondEqualsDropped(key: string, value: string, rest: string)
    requires '&' !in key && '=' !in key && '&' !in value && '=' !in value && '&' !in rest
    ensures FormData(key + "=" + value + "=" + rest) == map[key := value]
  {
    var body := key + "=" + value + "=" + rest;
    assert body == key + ['='] + (value + ['='] + rest);
    assert body[|key|] == '=';
    SplitWhole(body, '&');
    SplitAt(key, value + ['='] + rest, '=');
    SplitAt(value, rest, '=');
    assert Key(body) == key && Value(body) == value;
    assert [body][..0] == [];
    assert FormData(body) == Absorb([body]);
    assert Absorb([body]) == Absorb([])[key := value];
  }

  /**
   * Keys and values are handed back verbatim: each is a contiguous part of the
   * body and contains neither `&` nor `=`, so no decoding took place.
   */
  lemma Verbatim(body: string, key: string)
    requires key in FormData(body)
    ensures IsInfix(key, body) && IsInfix(FormData(body)[key], body)
    ensures '&' !in key && '=' !in key
    ensures '&' !in FormData(body)[key] && '=' !in FormData(body)[key]
  {
    var pieces := Split(body, '&');
    AbsorbLast(pieces, key);
    var j :| 0 <= j < |pieces| && '=' in pieces[j] && Key(pieces[j]) == key &&
      FormData(body)[key] == Value(pieces[j]);
    HalvesVerbatim(body, j, 0);
    HalvesVerbatim(body, j, 1);
  }
}
