/** Kebab-casing on underscore boundaries, as plait's element names use it: the identifier is
    split at every `_`, empty words are dropped, each word is lowercased and the words are joined
    with `-`. The conversion belongs to the `convert_case` crate; this is its documented
    behaviour for the one boundary plait selects, restricted to ASCII case. */
module Kebab {
  import opened Text

  /** The pieces between underscores, empty ones included: `a__b` gives `a`, ``, `b`. */
  function Pieces(s: string): (r: seq<string>)
    ensures |r| >= 1
  {
    if s == [] then [[]]
    else
      var rest := Pieces(s[1..]);
      if s[0] == '_' then [[]] + rest
      else [[s[0]] + rest[0]] + rest[1..]
  }

  /** Pieces joined back together with `_`, the inverse of `Pieces`. */
  function JoinUnderscore(ws: seq<string>): string {
    if ws == [] then ""
    else if |ws| == 1 then ws[0]
    else ws[0] + "_" + JoinUnderscore(ws[1..])
  }

  /** Splitting at underscores loses nothing: the pieces, joined with `_`, give the name back,
      and no piece holds an underscore. */
  lemma {:induction false} PiecesSplit(s: string)
    ensures JoinUnderscore(Pieces(s)) == s
    ensures forall i :: 0 <= i < |Pieces(s)| ==> NoUnderscore(Pieces(s)[i])
    decreases |s|
  {
    PiecesHaveNoUnderscore(s);
    if s != [] {
      PiecesSplit(s[1..]);
      var rest := Pieces(s[1..]);
      assert s == [s[0]] + s[1..];
      if s[0] == '_' {
        assert ([[]] + rest)[1..] == rest;
        assert JoinUnderscore([[]] + rest) == [] + "_" + JoinUnderscore(rest);
      } else {
        var ps := [[s[0]] + rest[0]] + rest[1..];
        if |rest| == 1 {
          assert JoinUnderscore(ps) == [s[0]] + rest[0];
        } else {
          assert ps[1..] == rest[1..];
          assert JoinUnderscore(rest) == rest[0] + "_" + JoinUnderscore(rest[1..]);
          assert JoinUnderscore(ps) == [s[0]] + rest[0] + "_" + JoinUnderscore(rest[1..]);
        }
      }
    }
  }

  function NonEmpty(ws: seq<string>): (r: seq<string>)
    ensures forall i :: 0 <= i < |r| ==> r[i] != []
    ensures |r| <= |ws|
  {
    if ws == [] then []
    else if ws[0] == [] then NonEmpty(ws[1..])
    else [ws[0]] + NonEmpty(ws[1..])
  }

  function LowerAll(ws: seq<string>): (r: seq<string>)
    ensures |r| == |ws|
    ensures forall i :: 0 <= i < |ws| ==> r[i] == LowerAscii(ws[i])
  {
    if ws == [] then [] else [LowerAscii(ws[0])] + LowerAll(ws[1..])
  }

  function JoinHyphen(ws: seq<string>): string {
    if ws == [] then ""
    else if |ws| == 1 then ws[0]
    else ws[0] + "-" + JoinHyphen(ws[1..])
  }

  /** `to_case(Case::Kebab)` with the underscore boundary only. */
  function KebabCase(s: string): string {
    JoinHyphen(LowerAll(NonEmpty(Pieces(s))))
  }

  predicate NoUnderscore(s: string) {
    forall i :: 0 <= i < |s| ==> s[i] != '_'
  }

  /** What a kebab-case name looks like: no underscore and no upper-case ASCII letter. */
  predicate IsKebab(s: string) {
    NoUnderscore(s) && NoAsciiUpper(s)
  }

  lemma {:induction false} PiecesHaveNoUnderscore(s: string)
    ensures forall i :: 0 <= i < |Pieces(s)| ==> NoUnderscore(Pieces(s)[i])
    decreases |s|
  {
    if s != [] {
      PiecesHaveNoUnderscore(s[1..]);
    }
  }

  lemma {:induction false} NonEmptyKeeps(ws: seq<string>, p: string -> bool)
    requires forall i :: 0 <= i < |ws| ==> p(ws[i])
    ensures forall i :: 0 <= i < |NonEmpty(ws)| ==> p(NonEmpty(ws)[i])
    decreases |ws|
  {
    if ws != [] {
      NonEmptyKeeps(ws[1..], p);
    }
  }

  lemma {:induction false} JoinIsKebab(ws: seq<string>)
    requires forall i :: 0 <= i < |ws| ==> IsKebab(ws[i])
    ensures IsKebab(JoinHyphen(ws))
    decreases |ws|
  {
    if |ws| > 1 {
      JoinIsKebab(ws[1..]);
      var j := JoinHyphen(ws);
      assert j == ws[0] + "-" + JoinHyphen(ws[1..]);
      assert IsKebab(ws[0]);
    }
  }

  /** The result of kebab-casing has no underscore and no upper-case letter. */
  lemma KebabIsKebab(s: string)
    ensures IsKebab(KebabCase(s))
  {
    PiecesHaveNoUnderscore(s);
    var ws := NonEmpty(Pieces(s));
    NonEmptyKeeps(Pieces(s), NoUnderscore);
    var ls := LowerAll(ws);
    forall i | 0 <= i < |ls|
      ensures IsKebab(ls[i])
    {
      LowerAsciiIsLower(ws[i]);
    }
    JoinIsKebab(ls);
  }

  /** A word without underscores is one piece, and what follows it continues that piece. */
  lemma {:induction false} PiecesOfWord(w: string, t: string)
    requires NoUnderscore(w)
    ensures Pieces(w + t) == [w + Pieces(t)[0]] + Pieces(t)[1..]
    decreases |w|
  {
    if w == [] {
      assert w + t == t;
      assert w + Pieces(t)[0] == Pieces(t)[0];
      assert Pieces(t) == [Pieces(t)[0]] + Pieces(t)[1..];
    } else {
      assert (w + t)[1..] == w[1..] + t;
      PiecesOfWord(w[1..], t);
      assert [w[0]] + (w[1..] + Pieces(t)[0]) == w + Pieces(t)[0];
    }
  }

  /** Kebab-casing a kebab-case name changes nothing, so the conversion is idempotent. */
  lemma KebabOfKebab(s: string)
    requires IsKebab(s)
    ensures KebabCase(s) == s
  {
    PiecesOfWord(s, "");
    assert s + "" == s;
    assert Pieces(s) == [s];
    LowerOfLower(s);
    if s == [] {
      assert NonEmpty([s]) == [];
    } else {
      assert NonEmpty([s]) == [s];
      assert LowerAll([s]) == [s];
    }
  }

  lemma KebabIdempotent(s: string)
    ensures KebabCase(KebabCase(s)) == KebabCase(s)
  {
    KebabIsKebab(s);
    KebabOfKebab(KebabCase(s));
  }

  /** Two underscore-free words joined by `_` become the two lowercased words joined by `-`. */
  lemma TwoWords(a: string, b: string)
    requires a != [] && b != [] && NoUnderscore(a) && NoUnderscore(b)
    ensures KebabCase(a + "_" + b) == LowerAscii(a) + "-" + LowerAscii(b)
  {
    PiecesOfWord(b, "");
    assert b + "" == b;
    var t := "_" + b;
    assert Pieces(t) == [[]] + Pieces(b) by {
      assert t[1..] == b;
    }
    PiecesOfWord(a, t);
    assert a + "_" + b == a + t;
    assert Pieces(t) == [[], b];
    assert a + [] == a;
    assert Pieces(a + t) == [a, b];
    assert NonEmpty([a, b]) == [a, b] by {
      assert [a, b][1..] == [b];
    }
    assert LowerAll([a, b]) == [LowerAscii(a), LowerAscii(b)];
    assert JoinHyphen([LowerAscii(a), LowerAscii(b)]) == LowerAscii(a) + "-" + LowerAscii(b) by {
      assert [LowerAscii(a), LowerAscii(b)][1..] == [LowerAscii(b)];
    }
  }
}
