/** The attribute collection shared by spool's and plait's `Attributes`: an insertion-ordered
    map (the source uses `IndexMap`) from attribute name to an optional, already-rendered value.
    A `None` value is a boolean attribute, written as a bare name. */
module AttrMap {
  import opened Wrappers

  type Entries = seq<(string, Option<string>)>

  function Names(m: Entries): (r: seq<string>)
    ensures |r| == |m|
    ensures forall i :: 0 <= i < |m| ==> r[i] == m[i].0
  {
    if m == [] then [] else [m[0].0] + Names(m[1..])
  }

  /** No name occurs twice, as in any `IndexMap`. */
  predicate KeysUnique(m: Entries) {
    forall i, j :: 0 <= i < j < |m| ==> m[i].0 != m[j].0
  }

  /** The position of `k`, if present. */
  function IndexOf(m: Entries, k: string): (r: Option<nat>)
    ensures r.Some? ==> r.value < |m| && m[r.value].0 == k && forall j :: 0 <= j < r.value ==> m[j].0 != k
    ensures r.None? ==> forall j :: 0 <= j < |m| ==> m[j].0 != k
  {
    if m == [] then None
    else if m[0].0 == k then Some(0)
    else match IndexOf(m[1..], k)
      case Some(i) => Some(i + 1)
      case None => None
  }

  /** The value stored for `k`: `None` when absent, `Some(None)` for a boolean attribute. */
  function Lookup(m: Entries, k: string): Option<Option<string>> {
    match IndexOf(m, k)
    case Some(i) => Some(m[i].1)
    case None => None
  }

  /** Two entry lists with the same names at the same positions find every key at the same place. */
  lemma IndexOfSameNames(m: Entries, m': Entries, k: string)
    requires |m| == |m'| && forall i :: 0 <= i < |m| ==> m[i].0 == m'[i].0
    ensures IndexOf(m, k) == IndexOf(m', k)
  {
  }

  /** `IndexMap::insert`: an existing name keeps its position and takes the new value; a new
      name goes at the end. */
  function Insert(m: Entries, k: string, v: Option<string>): (r: Entries)
    ensures Lookup(r, k) == Some(v)
    ensures forall k' :: k' != k ==> Lookup(r, k') == Lookup(m, k')
    ensures Lookup(m, k).Some? ==> Names(r) == Names(m)
    ensures Lookup(m, k).None? ==> Names(r) == Names(m) + [k]
    ensures KeysUnique(m) ==> KeysUnique(r)
  {
    match IndexOf(m, k)
    case Some(i) =>
      var r := m[i := (k, v)];
      IndexOfSameNames(m, r, k);
      forall k' | k' != k ensures Lookup(r, k') == Lookup(m, k') {
        IndexOfSameNames(m, r, k');
      }
      r
    case None =>
      var r := m + [(k, v)];
      assert r[|m|].0 == k;
      forall k' | k' != k ensures Lookup(r, k') == Lookup(m, k') {
        InsertNewOther(m, k, v, k');
      }
      r
  }

  lemma InsertNewOther(m: Entries, k: string, v: Option<string>, k': string)
    requires k' != k
    ensures IndexOf(m + [(k, v)], k') == IndexOf(m, k')
  {
    var r := m + [(k, v)];
    assert forall j :: 0 <= j < |m| ==> r[j] == m[j];
    assert r[|m|].0 != k';
  }

  /** How one entry joins a collection. A `class` with a value is appended, after a space, to
      a `class` that already has a value, and otherwise takes the slot; a `class` without a
      value is dropped; any other name simply replaces or adds its entry. */
  function MergeEntry(m: Entries, e: (string, Option<string>)): Entries {
    if e.0 == "class" then
      match e.1
      case None => m
      case Some(v) =>
        match Lookup(m, "class")
        case Some(Some(existing)) => Insert(m, "class", Some(existing + " " + v))
        case _ => Insert(m, "class", Some(v))
    else Insert(m, e.0, e.1)
  }

  /** The value `class` ends with when an incoming `class` value `incoming` meets the current one. */
  function JoinClass(current: Option<Option<string>>, incoming: Option<Option<string>>): Option<Option<string>> {
    match incoming
    case Some(Some(v)) =>
      (match current
       case Some(Some(e)) => Some(Some(e + " " + v))
       case _ => Some(Some(v)))
    case _ => current
  }

  /** What a key maps to once the entries `other` have been merged in, in terms of both sides. */
  function MergedValue(m: Entries, other: Entries, k: string): Option<Option<string>> {
    if k == "class" then JoinClass(Lookup(m, k), Lookup(other, k))
    else if Lookup(other, k).Some? then Lookup(other, k) else Lookup(m, k)
  }

  /** `merge`: the entries of `other` join one by one, in their order. */
  function Merge(m: Entries, other: Entries): Entries
    decreases |other|
  {
    if other == [] then m else Merge(MergeEntry(m, other[0]), other[1..])
  }

  lemma MergeEntryShape(m: Entries, e: (string, Option<string>))
    ensures KeysUnique(m) ==> KeysUnique(MergeEntry(m, e))
    ensures |m| <= |MergeEntry(m, e)| && Names(MergeEntry(m, e))[..|m|] == Names(m)
  {
  }

  /** Merging never moves or drops a name already collected, and keeps names unique. */
  lemma {:induction false} MergeKeepsPositions(m: Entries, other: Entries)
    ensures KeysUnique(m) ==> KeysUnique(Merge(m, other))
    ensures |m| <= |Merge(m, other)| && Names(Merge(m, other))[..|m|] == Names(m)
    decreases |other|
  {
    if other != [] {
      var m' := MergeEntry(m, other[0]);
      MergeEntryShape(m, other[0]);
      MergeKeepsPositions(m', other[1..]);
      var r := Merge(m, other);
      assert Names(r)[..|m|] == Names(r)[..|m'|][..|m|];
    }
  }

  lemma MergeEntryLookup(m: Entries, e: (string, Option<string>), k: string)
    ensures Lookup(MergeEntry(m, e), k) == MergedValue(m, [e], k)
  {
    assert IndexOf([e], k) == if e.0 == k then Some(0) else None;
  }

  /** Merging keeps every name the collection had at its position, and each key ends with the
      value `MergedValue` describes: `other` wins for ordinary names, classes are joined. */
  lemma {:induction false} MergeLookup(m: Entries, other: Entries, k: string)
    requires KeysUnique(other)
    ensures Lookup(Merge(m, other), k) == MergedValue(m, other, k)
    decreases |other|
  {
    if other != [] {
      var e := other[0];
      var m' := MergeEntry(m, e);
      var rest := other[1..];
      assert KeysUnique(rest) by {
        forall i, j | 0 <= i < j < |rest| ensures rest[i].0 != rest[j].0 {
          assert rest[i] == other[i + 1] && rest[j] == other[j + 1];
        }
      }
      MergeLookup(m', rest, k);
      MergeEntryLookup(m, e, k);
      if e.0 == k {
        assert Lookup(other, k) == Some(e.1);
        assert IndexOf(rest, k).None? by {
          forall j | 0 <= j < |rest| ensures rest[j].0 != k {
            assert rest[j] == other[j + 1];
          }
        }
      } else {
        assert Lookup(other, k) == Lookup(rest, k) by {
          var a := IndexOf(rest, k);
          if a.Some? {
            assert other[a.value + 1] == rest[a.value];
          }
        }
      }
    }
  }

  /** The text the collection renders to: ` name="value"` per valued entry and ` name` per
      boolean one, in order. */
  function Render(m: Entries): string {
    if m == [] then ""
    else
      var (name, value) := m[0];
      " " + name + (match value case Some(v) => "=\"" + v + "\"" case None => "") + Render(m[1..])
  }

  lemma {:induction false} RenderAppend(a: Entries, b: Entries)
    ensures Render(a + b) == Render(a) + Render(b)
    decreases |a|
  {
    if a != [] {
      assert (a + b)[1..] == a[1..] + b;
      RenderAppend(a[1..], b);
    } else {
      assert a + b == b;
    }
  }

  /** A new entry renders after everything already collected. */
  lemma RenderInsertNew(m: Entries, k: string, v: Option<string>)
    requires Lookup(m, k).None?
    ensures Render(Insert(m, k, v)) == Render(m) + " " + k + (match v case Some(s) => "=\"" + s + "\"" case None => "")
  {
    RenderAppend(m, [(k, v)]);
  }
}
