/** plait's `MaybeAttr`: values that decide for themselves whether an attribute is written.
    A boolean writes a valueless attribute when true; an option writes a valued attribute when
    present. */
module PlaitMaybeAttr {
  import opened Wrappers
  import opened HtmlEscape
  import opened Markup
  import opened PlaitFormatter

  datatype MaybeAttr = BoolAttr(b: bool) | OptAttr(v: Option<string>)

  /** `write_escaped`. */
  function WriteEscaped(m: MaybeAttr, out: string, name: string): string {
    match m
    case BoolAttr(b) => WriteBooleanAttribute(out, name, b)
    case OptAttr(Some(v)) => WriteAttributeEscaped(out, name, v)
    case OptAttr(None) => out
  }

  /** `write_raw`. */
  function WriteRaw(m: MaybeAttr, out: string, name: string): string {
    match m
    case BoolAttr(b) => WriteBooleanAttribute(out, name, b)
    case OptAttr(Some(v)) => WriteAttributeRaw(out, name, v)
    case OptAttr(None) => out
  }

  /** `write_maybe_attribute_raw` on the formatter hands over to the value. */
  function WriteMaybeAttributeRaw(out: string, name: string, m: MaybeAttr): string {
    WriteRaw(m, out, name)
  }

  /** `write_maybe_attribute_escaped` on the formatter hands over to the value. */
  function WriteMaybeAttributeEscaped(out: string, name: string, m: MaybeAttr): string {
    WriteEscaped(m, out, name)
  }

  /** What each kind of value writes: nothing for `false` and `None`, the bare name for `true`,
      and the quoted value for `Some`, escaped or not. Booleans ignore the escaping choice. */
  lemma MaybeAttrMeaning(m: MaybeAttr, out: string, name: string)
    ensures m.BoolAttr? ==> WriteEscaped(m, out, name) == WriteRaw(m, out, name)
    ensures m == BoolAttr(false) || m == OptAttr(None) <==> WriteEscaped(m, out, name) == out
    ensures m == BoolAttr(true) ==> WriteEscaped(m, out, name) == out + " " + name
    ensures m.OptAttr? && m.v.Some? ==> WriteEscaped(m, out, name) == out + AttrText(name, Escape(m.v.value))
    ensures m.OptAttr? && m.v.Some? ==> WriteRaw(m, out, name) == out + AttrText(name, m.v.value)
  {
  }

  /** Four maybe-attributes in a row, one of each kind: only the present value and the true flag
      appear, in order. */
  lemma MixedMaybeAttributes(out: string, value: string)
    ensures var r := WriteMaybeAttributeEscaped(out, "class", OptAttr(Some(value)));
      var r := WriteMaybeAttributeEscaped(r, "id", OptAttr(None));
      var r := WriteMaybeAttributeEscaped(r, "checked", BoolAttr(true));
      var r := WriteMaybeAttributeEscaped(r, "disabled", BoolAttr(false));
      r == out + AttrText("class", Escape(value)) + " checked"
  {
  }
}
