/** spool's `Attributes`: attributes collected ahead of rendering, with `class` values
    accumulating instead of replacing each other. */
module SpoolAttributes {
  import opened Wrappers
  import opened HtmlEscape
  import opened SpoolEscape
  import opened SpoolRender
  import AttrMap

  datatype Attributes = Attributes(entries: AttrMap.Entries)

  predicate Valid(a: Attributes) {
    AttrMap.KeysUnique(a.entries)
  }

  /** `Attributes::new`: an empty collection. */
  function New(): (a: Attributes)
    ensures Valid(a) && forall k :: AttrMap.Lookup(a.entries, k).None?
  {
    Attributes([])
  }

  /** `add`: renders the value under the resolved mode and stores it; a second `class` is
      appended to the first after a space, any other name is replaced in place. */
  function Add(a: Attributes, parent: string, name: string, value: Value, mode: Option<EscapeMode>): (r: Attributes)
    ensures Valid(a) ==> Valid(r)
    ensures var rendered := Render(value, ResolveForAttribute(parent, name, mode));
      AttrMap.Lookup(r.entries, name) ==
        if name == "class" then AttrMap.JoinClass(AttrMap.Lookup(a.entries, name), Some(Some(rendered)))
        else Some(Some(rendered))
    ensures forall k :: k != name ==> AttrMap.Lookup(r.entries, k) == AttrMap.Lookup(a.entries, k)
  {
    var rendered := Render(value, ResolveForAttribute(parent, name, mode));
    AttrMap.MergeEntryShape(a.entries, (name, Some(rendered)));
    forall k ensures AttrMap.Lookup(AttrMap.MergeEntry(a.entries, (name, Some(rendered))), k)
      == AttrMap.MergedValue(a.entries, [(name, Some(rendered))], k) {
      AttrMap.MergeEntryLookup(a.entries, (name, Some(rendered)), k);
    }
    Attributes(AttrMap.MergeEntry(a.entries, (name, Some(rendered))))
  }

  /** `add_optional`: `Some` adds, `None` leaves the collection untouched. */
  function AddOptional(a: Attributes, parent: string, name: string, value: Option<Value>, mode: Option<EscapeMode>): (r: Attributes)
    ensures value.None? ==> r == a
    ensures value.Some? ==> r == Add(a, parent, name, value.value, mode)
  {
    match value
    case Some(v) => Add(a, parent, name, v, mode)
    case None => a
  }

  /** `add_boolean`: a set flag stores the bare name (replacing any value it had); a clear flag
      changes nothing. */
  function AddBoolean(a: Attributes, name: string, value: bool): (r: Attributes)
    ensures Valid(a) ==> Valid(r)
    ensures value ==> AttrMap.Lookup(r.entries, name) == Some(None)
    ensures value ==> forall k :: k != name ==> AttrMap.Lookup(r.entries, k) == AttrMap.Lookup(a.entries, k)
    ensures !value ==> r == a
  {
    if value then Attributes(AttrMap.Insert(a.entries, name, None)) else a
  }

  /** `merge`: every entry of `other` joins in its order; ordinary names take `other`'s value,
      classes are joined with a space, and names already present keep their position. */
  function Merge(a: Attributes, other: Attributes): (r: Attributes)
    requires Valid(other)
    ensures Valid(a) ==> Valid(r)
    ensures forall k :: AttrMap.Lookup(r.entries, k) == AttrMap.MergedValue(a.entries, other.entries, k)
    ensures |a.entries| <= |r.entries| && AttrMap.Names(r.entries)[..|a.entries|] == AttrMap.Names(a.entries)
  {
    AttrMap.MergeKeepsPositions(a.entries, other.entries);
    forall k ensures AttrMap.Lookup(AttrMap.Merge(a.entries, other.entries), k) == AttrMap.MergedValue(a.entries, other.entries, k) {
      AttrMap.MergeLookup(a.entries, other.entries, k);
    }
    Attributes(AttrMap.Merge(a.entries, other.entries))
  }

  /** `render_to` on `Attributes`: every entry in order, as ` name="value"` or ` name`. */
  function RenderAttributes(a: Attributes): string {
    AttrMap.Render(a.entries)
  }

  lemma FirstClass(parent: string, c: string)
    ensures Add(New(), parent, "class", Str(c), None).entries == [("class", Some(Escape(c)))]
  {
    assert AttrMap.IndexOf([], "class") == None;
  }

  lemma SecondClass(parent: string, e: string, c: string)
    ensures Add(Attributes([("class", Some(e))]), parent, "class", Str(c), None).entries
      == [("class", Some(e + " " + Escape(c)))]
  {
    assert AttrMap.Lookup([("class", Some(e))], "class") == Some(Some(e));
  }

  /** Two classes added one after the other render as one attribute holding both, separated by
      a space. */
  lemma ClassesAccumulate(parent: string, c1: string, c2: string)
    ensures
      var a := Add(Add(New(), parent, "class", Str(c1), None), parent, "class", Str(c2), None);
      a.entries == [("class", Some(Escape(c1) + " " + Escape(c2)))] &&
      RenderAttributes(a) == " class=\"" + (Escape(c1) + " " + Escape(c2)) + "\""
  {
    ClassesEntries(parent, c1, c2);
    RenderClass(Escape(c1) + " " + Escape(c2));
  }

  lemma RenderClass(v: string)
    ensures RenderAttributes(Attributes([("class", Some(v))])) == " class=\"" + v + "\""
  {
    RenderOneValued("class", v);
    assert " " + "class" + "=\"" == " class=\"";
  }

  lemma ClassesEntries(parent: string, c1: string, c2: string)
    ensures Add(Add(New(), parent, "class", Str(c1), None), parent, "class", Str(c2), None)
      == Attributes([("class", Some(Escape(c1) + " " + Escape(c2)))])
  {
    FirstClass(parent, c1);
    SecondClass(parent, Escape(c1), c2);
  }

  lemma RenderOneValued(name: string, v: string)
    ensures RenderAttributes(Attributes([(name, Some(v))])) == " " + name + "=\"" + v + "\""
  {
    assert AttrMap.Render([(name, Some(v))]) == " " + name + ("=\"" + v + "\"") + AttrMap.Render([]);
  }

  /** Adding a name twice keeps one entry, at the first position, holding the second value. */
  lemma SecondValueWins(a: Attributes, parent: string, name: string, v1: Value, v2: Value, mode: Option<EscapeMode>)
    requires name != "class"
    ensures var r := Add(Add(a, parent, name, v1, mode), parent, name, v2, mode);
      AttrMap.Lookup(r.entries, name) == Some(Some(Render(v2, ResolveForAttribute(parent, name, mode))))
    ensures AttrMap.Names(Add(Add(a, parent, name, v1, mode), parent, name, v2, mode).entries)
      == AttrMap.Names(Add(a, parent, name, v1, mode).entries)
  {
  }

  /** The rendered collection never lets a default-mode value break out of its quotes. */
  lemma DefaultValuesStayQuoted(a: Attributes, parent: string, name: string, value: Value)
    requires name != "class" && !Trusted(value)
    ensures AttrMap.Lookup(Add(a, parent, name, value, None).entries, name) == Some(Some(Escape(PlainText(value))))
    ensures NoMarkup(Escape(PlainText(value)))
  {
    EscapeHasNoMarkup(PlainText(value));
  }
}
