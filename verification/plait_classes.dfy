/** plait's `Classes`: several class-name parts joined into one `class` value. Empty parts and
    absent options are skipped, and the parts that remain are separated by single spaces. */
module PlaitClasses {
  import opened Wrappers

  /** A `ClassPart`: a `&str`, or an `Option<&str>`. */
  datatype ClassPart = StrPart(s: string) | OptPart(o: Option<string>)

  /** `should_skip`: an empty string, `None`, or `Some("")`. */
  predicate ShouldSkip(p: ClassPart) {
    match p
    case StrPart(s) => s == []
    case OptPart(o) => o.None? || o.value == []
  }

  /** The text `write_to` writes. */
  function PartText(p: ClassPart): string {
    match p
    case StrPart(s) => s
    case OptPart(o) => if o.Some? then o.value else []
  }

  /** The texts of the parts that are not skipped, in order. */
  function Kept(parts: seq<ClassPart>): (ws: seq<string>)
    ensures |ws| <= |parts|
    ensures forall i :: 0 <= i < |ws| ==> ws[i] != []
  {
    if parts == [] then []
    else
      var init := Kept(parts[..|parts| - 1]);
      var p := parts[|parts| - 1];
      if ShouldSkip(p) then init else init + [PartText(p)]
  }

  /** Words separated by single spaces. */
  function Join(ws: seq<string>): string {
    if ws == [] then []
    else if |ws| == 1 then ws[0]
    else Join(ws[..|ws| - 1]) + " " + ws[|ws| - 1]
  }

  /** The position of the last space in `s`. */
  function LastSpace(s: string): (r: Option<nat>)
    ensures r.Some? ==> r.value < |s| && s[r.value] == ' ' && forall j :: r.value < j < |s| ==> s[j] != ' '
    ensures r.None? ==> forall j :: 0 <= j < |s| ==> s[j] != ' '
  {
    if s == [] then None
    else if s[|s| - 1] == ' ' then Some(|s| - 1)
    else LastSpace(s[..|s| - 1])
  }

  /** Splitting at every space: the partner of `Join`. */
  function Split(s: string): (ws: seq<string>)
    ensures ws != []
    decreases |s|
  {
    match LastSpace(s)
    case None => [s]
    case Some(i) => Split(s[..i]) + [s[i + 1..]]
  }

  predicate HasNoSpace(w: string) {
    forall j :: 0 <= j < |w| ==> w[j] != ' '
  }

  /** `Classes`'s `fmt`: writes each part that is not skipped, preceded by a space when
      something was written before it. */
  method WriteClasses(parts: seq<ClassPart>) returns (out: string)
    ensures out == Join(Kept(parts))
  {
    out := "";
    var needSpace := false;
    var i := 0;
    while i < |parts|
      invariant 0 <= i <= |parts|
      invariant out == Join(Kept(parts[..i]))
      invariant needSpace <==> Kept(parts[..i]) != []
    {
      assert parts[..i + 1][..i] == parts[..i];
      var p := parts[i];
      if !ShouldSkip(p) {
        if needSpace {
          out := out + " ";
        }
        out := out + PartText(p);
        needSpace := true;
      }
      i := i + 1;
    }
    assert parts[..|parts|] == parts;
  }

  /** When no word is empty or holds a space, splitting the joined text gives the words back: the
      output keeps every part whole and in order, with nothing added. */
  lemma {:induction false} SplitJoin(ws: seq<string>)
    requires ws != []
    requires forall i :: 0 <= i < |ws| ==> HasNoSpace(ws[i])
    ensures Split(Join(ws)) == ws
    decreases |ws|
  {
    if |ws| > 1 {
      var init := ws[..|ws| - 1];
      SplitJoin(init);
      SplitAppendWord(Join(init), ws[|ws| - 1]);
      assert init + [ws[|ws| - 1]] == ws;
    } else {
      assert HasNoSpace(ws[0]);
    }
  }

  /** A space and a word without spaces add one word to the split. */
  lemma SplitAppendWord(j: string, w: string)
    requires HasNoSpace(w)
    ensures Split(j + " " + w) == Split(j) + [w]
  {
    var s := j + " " + w;
    forall k | |j| < k < |s| ensures s[k] != ' ' {
      assert s[k] == w[k - |j| - 1];
    }
    LastSpaceAt(s, |j|);
    assert s[..|j|] == j;
    assert s[|j| + 1..] == w;
  }

  lemma LastSpaceAt(s: string, i: nat)
    requires i < |s| && s[i] == ' '
    requires forall k :: i < k < |s| ==> s[k] != ' '
    ensures LastSpace(s) == Some(i)
  {
  }

  /** Neither end of the joined text is a space, when no word starts or ends with one. */
  lemma {:induction false} JoinHasNoEdgeSpace(ws: seq<string>)
    requires forall i :: 0 <= i < |ws| ==> ws[i] != [] && ws[i][0] != ' ' && ws[i][|ws[i]| - 1] != ' '
    ensures Join(ws) == [] <==> ws == []
    ensures Join(ws) != [] ==> Join(ws)[0] != ' ' && Join(ws)[|Join(ws)| - 1] != ' '
    decreases |ws|
  {
    if |ws| > 1 {
      JoinHasNoEdgeSpace(ws[..|ws| - 1]);
      var j := Join(ws[..|ws| - 1]);
      assert (j + " " + ws[|ws| - 1])[0] == j[0];
    }
  }

  /** Kept class parts are never empty, so every skipped part leaves no trace, and parts that are
      all skipped give the empty string. */
  lemma AllSkippedIsEmpty(parts: seq<ClassPart>)
    requires forall i :: 0 <= i < |parts| ==> ShouldSkip(parts[i])
    ensures Join(Kept(parts)) == []
  {
    KeptOfSkipped(parts);
  }

  lemma {:induction false} KeptOfSkipped(parts: seq<ClassPart>)
    requires forall i :: 0 <= i < |parts| ==> ShouldSkip(parts[i])
    ensures Kept(parts) == []
    decreases |parts|
  {
    if parts != [] {
      KeptOfSkipped(parts[..|parts| - 1]);
    }
  }

  /** `("btn", Some("btn-primary"), None)` gives `btn btn-primary`. */
  lemma ButtonExample()
    ensures Join(Kept([StrPart("btn"), OptPart(Some("btn-primary")), OptPart(None)])) == "btn btn-primary"
  {
    var parts := [StrPart("btn"), OptPart(Some("btn-primary")), OptPart(None)];
    ButtonKept();
    assert parts[..2] == [StrPart("btn"), OptPart(Some("btn-primary"))];
    assert Kept(parts) == ["btn", "btn-primary"];
    assert ["btn", "btn-primary"][..1] == ["btn"];
  }

  lemma ButtonKept()
    ensures Kept([StrPart("btn"), OptPart(Some("btn-primary"))]) == ["btn", "btn-primary"]
  {
    var parts := [StrPart("btn"), OptPart(Some("btn-primary"))];
    assert parts[..1] == [StrPart("btn")];
    assert Kept([StrPart("btn")]) == ["btn"];
  }
}
