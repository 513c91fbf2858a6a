/** plait's `Attributes`: the same collection as spool's, without the parent element's name, and
    with the escape mode resolved from the attribute's name, so URL attributes are checked. */
module PlaitAttributes {
  import opened Wrappers
  import opened HtmlEscape
  import opened PlaitEscape
  import opened PlaitRender
  import Url
  import UrlEscape
  import AttrMap

  datatype Attributes = Attributes(entries: AttrMap.Entries)

  predicate Valid(a: Attributes) {
    AttrMap.KeysUnique(a.entries)
  }

  /** `Attributes::new`: an empty collection. */
  function New(): (a: Attributes)
    ensures Valid(a) && forall k :: AttrMap.Lookup(a.entries, k).None?
  {
    Attributes([])
  }

  /** `with_capacity`: the capacity is only a hint, so the collection starts empty too. */
  function WithCapacity(capacity: nat): (a: Attributes)
    ensures a == New()
  {
    Attributes([])
  }

  /** `add`: renders the value under the mode resolved from the name and stores it; a second
      `class` is appended to the first after a space, any other name is replaced in place. */
  function Add(a: Attributes, name: string, value: Value, mode: Option<EscapeMode>): (r: Attributes)
    ensures Valid(a) ==> Valid(r)
    ensures var rendered := Render(value, ResolveForAttribute(name, mode));
      AttrMap.Lookup(r.entries, name) ==
        if name == "class" then AttrMap.JoinClass(AttrMap.Lookup(a.entries, name), Some(Some(rendered)))
        else Some(Some(rendered))
    ensures forall k :: k != name ==> AttrMap.Lookup(r.entries, k) == AttrMap.Lookup(a.entries, k)
  {
    var rendered := Render(value, ResolveForAttribute(name, mode));
    AttrMap.MergeEntryShape(a.entries, (name, Some(rendered)));
    forall k ensures AttrMap.Lookup(AttrMap.MergeEntry(a.entries, (name, Some(rendered))), k)
      == AttrMap.MergedValue(a.entries, [(name, Some(rendered))], k) {
      AttrMap.MergeEntryLookup(a.entries, (name, Some(rendered)), k);
    }
    Attributes(AttrMap.MergeEntry(a.entries, (name, Some(rendered))))
  }

  /** `add_optional`: `Some` adds, `None` leaves the collection untouched. */
  function AddOptional(a: Attributes, name: string, value: Option<Value>, mode: Option<EscapeMode>): (r: Attributes)
    ensures value.None? ==> r == a
    ensures value.Some? ==> r == Add(a, name, value.value, mode)
  {
    match value
    case Some(v) => Add(a, name, v, mode)
    case None => a
  }

  /** `add_boolean`: a set flag stores the bare name; a clear flag changes nothing. */
  function AddBoolean(a: Attributes, name: string, value: bool): (r: Attributes)
    ensures Valid(a) ==> Valid(r)
    ensures value ==> AttrMap.Lookup(r.entries, name) == Some(None)
    ensures value ==> forall k :: k != name ==> AttrMap.Lookup(r.entries, k) == AttrMap.Lookup(a.entries, k)
    ensures !value ==> r == a
  {
    if value then Attributes(AttrMap.Insert(a.entries, name, None)) else a
  }

  /** `merge`: every entry of `other` joins in its order; ordinary names take `other`'s value,
      classes are joined with a space, and names already present keep their position. */
  function Merge(a: Attributes, other: Attributes): (r: Attributes)
    requires Valid(other)
    ensures Valid(a) ==> Valid(r)
    ensures forall k :: AttrMap.Lookup(r.entries, k) == AttrMap.MergedValue(a.entries, other.entries, k)
    ensures |a.entries| <= |r.entries| && AttrMap.Names(r.entries)[..|a.entries|] == AttrMap.Names(a.entries)
  {
    AttrMap.MergeKeepsPositions(a.entries, other.entries);
    forall k ensures AttrMap.Lookup(AttrMap.Merge(a.entries, other.entries), k) == AttrMap.MergedValue(a.entries, other.entries, k) {
      AttrMap.MergeLookup(a.entries, other.entries, k);
    }
    Attributes(AttrMap.Merge(a.entries, other.entries))
  }

  /** `render_to` on `Attributes`: every entry in order, as ` name="value"` or ` name`; the
      escape mode it is given is ignored, since values were escaped when added. */
  function RenderAttributes(a: Attributes, mode: EscapeMode): string {
    AttrMap.Render(a.entries)
  }

  /** Without an explicit mode, a URL attribute stores either the fallback URL or an escaped URL
      that decodes to one passing the check. */
  lemma UrlAttributesAreChecked(a: Attributes, name: string, url: string)
    requires Url.IsUrlAttribute(name) && name != "class"
    ensures var v := AttrMap.Lookup(Add(a, name, Str(url), None).entries, name).value.value;
      v == UrlEscape.BlockedUrlFallback || (Url.IsUrlSafe(url) && v == Escape(url))
  {
    DefaultAttributeMode(name);
  }

  /** Adding a name twice keeps one entry, at the first position, holding the second value. */
  lemma SecondValueWins(a: Attributes, name: string, v1: Value, v2: Value, mode: Option<EscapeMode>)
    requires name != "class"
    ensures var r := Add(Add(a, name, v1, mode), name, v2, mode);
      AttrMap.Lookup(r.entries, name) == Some(Some(Render(v2, ResolveForAttribute(name, mode))))
    ensures AttrMap.Names(Add(Add(a, name, v1, mode), name, v2, mode).entries)
      == AttrMap.Names(Add(a, name, v1, mode).entries)
  {
  }

  /** Three classes added in turn are stored as one value, separated by single spaces. */
  lemma ThreeClasses(c1: string, c2: string, c3: string)
    ensures var a := Add(Add(Add(New(), "class", Str(c1), None), "class", Str(c2), None), "class", Str(c3), None);
      AttrMap.Lookup(a.entries, "class") == Some(Some(Escape(c1) + " " + Escape(c2) + " " + Escape(c3)))
  {
    DefaultModeExamples();
    var a1 := Add(New(), "class", Str(c1), None);
    ClassStep(New(), c1, None);
    ClassStep(a1, c2, Some(Escape(c1)));
    ClassStep(Add(a1, "class", Str(c2), None), c3, Some(Escape(c1) + " " + Escape(c2)));
  }

  /** One more class: appended after a space to the classes so far, or alone. */
  lemma ClassStep(a: Attributes, c: string, before: Option<string>)
    requires AttrMap.Lookup(a.entries, "class") == (if before.Some? then Some(Some(before.value)) else None)
    requires ResolveForAttribute("class", None) == Html
    ensures AttrMap.Lookup(Add(a, "class", Str(c), None).entries, "class")
      == Some(Some(if before.Some? then before.value + " " + Escape(c) else Escape(c)))
  {
  }
}
