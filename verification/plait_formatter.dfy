/** plait's `HtmlFormatter`: stateless writers, each appending one piece of markup to the output.
    Unlike spool's formatter nothing checks the order of the calls; the generated code is
    trusted to make them in a sensible order. */
module PlaitFormatter {
  import opened Wrappers
  import opened HtmlEscape
  import opened Markup
  import Entities
  import Url
  import VoidElements

  /** `is_void_element`: an exact, case-sensitive match against the void element names. */
  predicate IsVoidElement(name: string) {
    name in VoidElements.Names
  }

  /** `open_tag`: `<name`. */
  function OpenTag(out: string, name: string): string {
    out + "<" + name
  }

  /** `close_start_tag`: `>`. */
  function CloseStartTag(out: string): string {
    out + ">"
  }

  /** `close_tag`: `</name>`, or nothing for a void element. */
  function CloseTag(out: string, name: string): string {
    if IsVoidElement(name) then out else out + "</" + name + ">"
  }

  /** `write_raw` for text: copied as it is. */
  function WriteRaw(out: string, raw: string): string {
    out + raw
  }

  /** `write_html_escaped` for text: escaped. */
  function WriteHtmlEscaped(out: string, text: string): (r: string)
    ensures |r| >= |out| && r[..|out|] == out && Entities.Unescape(r[|out|..]) == text && NoMarkup(r[|out|..])
  {
    var r := out + Escape(text);
    assert r[|out|..] == Escape(text);
    Entities.UnescapeEscape(text);
    EscapeHasNoMarkup(text);
    r
  }

  /** `write_attribute_raw`: ` name="value"` with the value's text copied. */
  function WriteAttributeRaw(out: string, name: string, value: string): (r: string)
    ensures r == out + AttrText(name, value)
  {
    out + " " + name + "=\"" + value + "\""
  }

  /** `write_attribute_escaped`: ` name="value"` with the value escaped. */
  function WriteAttributeEscaped(out: string, name: string, value: string): (r: string)
    ensures r == out + AttrText(name, Escape(value))
  {
    out + " " + name + "=\"" + Escape(value) + "\""
  }

  /** `write_optional_attribute_raw`. */
  function WriteOptionalAttributeRaw(out: string, name: string, value: Option<string>): (r: string)
    ensures value.None? ==> r == out
    ensures value.Some? ==> r == WriteAttributeRaw(out, name, value.value)
  {
    match value
    case Some(v) => WriteAttributeRaw(out, name, v)
    case None => out
  }

  /** `write_optional_attribute_escaped`. */
  function WriteOptionalAttributeEscaped(out: string, name: string, value: Option<string>): (r: string)
    ensures value.None? ==> r == out
    ensures value.Some? ==> r == WriteAttributeEscaped(out, name, value.value)
  {
    match value
    case Some(v) => WriteAttributeEscaped(out, name, v)
    case None => out
  }

  /** `write_url_attribute_escaped`: written only for a URL attribute holding a URL that passes
      the check; otherwise the attribute is left out altogether. */
  function WriteUrlAttributeEscaped(out: string, name: string, value: string): (r: string)
    ensures r != out <==> Url.IsUrlAttribute(name) && Url.IsUrlSafe(value)
    ensures r != out ==> r == WriteAttributeEscaped(out, name, value)
  {
    if Url.IsUrlAttribute(name) && Url.IsUrlSafe(value) then WriteAttributeEscaped(out, name, value)
    else out
  }

  /** `write_optional_url_attribute_escaped`. */
  function WriteOptionalUrlAttributeEscaped(out: string, name: string, value: Option<string>): (r: string)
    ensures value.None? ==> r == out
    ensures value.Some? ==> r == WriteUrlAttributeEscaped(out, name, value.value)
  {
    match value
    case Some(v) => WriteUrlAttributeEscaped(out, name, v)
    case None => out
  }

  /** `write_boolean_attribute`: ` name` when the value is true. */
  function WriteBooleanAttribute(out: string, name: string, value: bool): string {
    if value then out + " " + name else out
  }

  /** An escaped attribute reads back as exactly the name and value that were written. */
  lemma EscapedAttributeReadsBack(out: string, name: string, value: string)
    requires IsAttrName(name)
    ensures var r := WriteAttributeEscaped(out, name, value);
      r[..|out|] == out && ReadAttr(r[|out|..]) == Some((name, value))
  {
    var r := WriteAttributeEscaped(out, name, value);
    assert r[|out|..] == AttrText(name, Escape(value));
    ReadEscapedAttr(name, value);
  }

  /** A raw attribute reads back as its name and value, decoded, when the value holds no `"`. */
  lemma RawAttributeReadsBack(out: string, name: string, value: string)
    requires IsAttrName(name) && IndexOfChar(value, '"').None?
    ensures var r := WriteAttributeRaw(out, name, value);
      r[..|out|] == out && ReadAttr(r[|out|..]) == Some((name, Entities.Unescape(value)))
  {
    var r := WriteAttributeRaw(out, name, value);
    assert r[|out|..] == AttrText(name, value);
    ReadRawAttr(name, value);
  }

  /** A URL attribute that is written reads back as the URL, which passes the check. */
  lemma UrlAttributeReadsBack(out: string, name: string, value: string)
    requires IsAttrName(name)
    ensures var r := WriteUrlAttributeEscaped(out, name, value);
      r == out || (ReadAttr(r[|out|..]) == Some((name, value)) && Url.IsUrlSafe(value))
  {
    EscapedAttributeReadsBack(out, name, value);
  }

  /** An element's start and end tags, with nothing between them: `<name></name>`, or just
      `<name>` for a void element. */
  lemma EmptyElement(name: string)
    ensures CloseTag(CloseStartTag(OpenTag("", name)), name)
      == if IsVoidElement(name) then "<" + name + ">" else "<" + name + "></" + name + ">"
  {
    assert OpenTag("", name) == "<" + name;
    assert "<" + name + ">" + "</" == "<" + name + "></";
  }

  /** The void check is exact: `br` is void, `BR` and `div` are not. */
  lemma VoidExamples()
    ensures IsVoidElement("br") && !IsVoidElement("BR") && !IsVoidElement("div")
  {
    assert "BR" != "br";
  }
}
