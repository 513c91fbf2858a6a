/** plait's `HtmlDisplay` pieces: small values that write one piece of markup into a text sink.
    They mirror the formatter's writers, with two differences: `CloseTag` always writes an end
    tag, and `UrlAttribute` checks only the URL, not the attribute's name. */
module PlaitDisplay {
  import opened Wrappers
  import opened HtmlEscape
  import opened Markup
  import Url
  import PlaitFormatter
  import PlaitMaybeAttr

  /** A `MaybeAttributeValue`: whether the attribute is written at all, and its value if it has
      one. */
  datatype MaybeValue = MaybeValue(shouldWrite: bool, value: Option<string>)

  datatype Piece =
    | StrText(s: string)
    | OpenStartTag(name: string)
    | CloseStartTag
    | CloseTag(name: string)
    | Text(s: string)
    | Raw(s: string)
    | Attribute(name: string, value: string)
    | RawAttribute(name: string, value: string)
    | UrlAttribute(name: string, value: string)
    | MaybeAttribute(name: string, maybe: MaybeValue)
    | RawMaybeAttribute(name: string, maybe: MaybeValue)
    | UrlMaybeAttribute(name: string, url: Option<string>)
    | Ref(p: Piece)

  /** Writes a maybe-attribute, with the value escaped or not. */
  function MaybeText(name: string, m: MaybeValue, escaped: bool): string {
    if !m.shouldWrite then ""
    else
      match m.value
      case None => " " + name
      case Some(v) => " " + name + "=\"" + (if escaped then Escape(v) else v) + "\""
  }

  /** An escaped attribute, written only when the URL passes the check. */
  function UrlText(name: string, value: string): string {
    if Url.IsUrlSafe(value) then " " + name + "=\"" + Escape(value) + "\"" else ""
  }

  /** `html_fmt`: the text a piece appends to the sink. */
  function HtmlFmt(p: Piece): string {
    match p
    case StrText(s) => Escape(s)
    case OpenStartTag(name) => "<" + name
    case CloseStartTag => ">"
    case CloseTag(name) => "</" + name + ">"
    case Text(s) => Escape(s)
    case Raw(s) => s
    case Attribute(name, value) => " " + name + "=\"" + Escape(value) + "\""
    case RawAttribute(name, value) => " " + name + "=\"" + value + "\""
    case UrlAttribute(name, value) => UrlText(name, value)
    case MaybeAttribute(name, m) => MaybeText(name, m, true)
    case RawMaybeAttribute(name, m) => MaybeText(name, m, false)
    case UrlMaybeAttribute(name, url) =>
      (match url
       case Some(v) => UrlText(name, v)
       case None => "")
    case Ref(q) => HtmlFmt(q)
  }

  /** The pieces write what the formatter's writers of the same name write. */
  lemma AgreesWithFormatter(name: string, value: string)
    ensures HtmlFmt(OpenStartTag(name)) == PlaitFormatter.OpenTag("", name)
    ensures HtmlFmt(CloseStartTag) == PlaitFormatter.CloseStartTag("")
    ensures HtmlFmt(Text(value)) == HtmlFmt(StrText(value)) == PlaitFormatter.WriteHtmlEscaped("", value)
    ensures HtmlFmt(Raw(value)) == PlaitFormatter.WriteRaw("", value)
    ensures HtmlFmt(Attribute(name, value)) == PlaitFormatter.WriteAttributeEscaped("", name, value)
    ensures HtmlFmt(RawAttribute(name, value)) == PlaitFormatter.WriteAttributeRaw("", name, value)
  {
  }

  /** `CloseTag` writes an end tag even for a void element, where the formatter writes none. */
  lemma CloseTagIgnoresVoid(name: string)
    ensures HtmlFmt(CloseTag(name)) == PlaitFormatter.CloseTag("", name) <==> !PlaitFormatter.IsVoidElement(name)
  {
  }

  /** `UrlAttribute` writes exactly when the URL passes, whatever the attribute is called; it
      agrees with the formatter's URL writer on URL attributes only. */
  lemma UrlAttributeChecksOnlyTheUrl(name: string, value: string)
    ensures HtmlFmt(UrlAttribute(name, value)) != "" <==> Url.IsUrlSafe(value)
    ensures Url.IsUrlAttribute(name) ==> HtmlFmt(UrlAttribute(name, value)) == PlaitFormatter.WriteUrlAttributeEscaped("", name, value)
    ensures !Url.IsUrlAttribute(name) && Url.IsUrlSafe(value) ==> HtmlFmt(UrlAttribute(name, value)) != PlaitFormatter.WriteUrlAttributeEscaped("", name, value)
  {
    var d := HtmlFmt(UrlAttribute(name, value));
    var f := PlaitFormatter.WriteUrlAttributeEscaped("", name, value);
    if Url.IsUrlSafe(value) {
      assert d == PlaitFormatter.WriteAttributeEscaped("", name, value);
      assert |d| > 0;
      if !Url.IsUrlAttribute(name) {
        assert f == "";
      }
    } else {
      assert d == "" && f == "";
    }
  }

  /** A written `UrlAttribute` reads back as the name and a URL that passes the check. */
  lemma UrlAttributeReadsBack(name: string, value: string)
    requires IsAttrName(name)
    ensures HtmlFmt(UrlAttribute(name, value)) == "" || (ReadAttr(HtmlFmt(UrlAttribute(name, value))) == Some((name, value)) && Url.IsUrlSafe(value))
  {
    ReadEscapedAttr(name, value);
  }

  /** The maybe value a `MaybeAttr` stands for: a flag is written bare when true, an option is
      written with its value when present. */
  function FromMaybeAttr(m: PlaitMaybeAttr.MaybeAttr): MaybeValue {
    match m
    case BoolAttr(b) => MaybeValue(b, None)
    case OptAttr(v) => MaybeValue(v.Some?, v)
  }

  /** `MaybeAttribute` and `RawMaybeAttribute` write what the formatter's maybe-attribute writers
      write for the same value. */
  lemma MaybeAgreesWithFormatter(name: string, m: PlaitMaybeAttr.MaybeAttr)
    ensures HtmlFmt(MaybeAttribute(name, FromMaybeAttr(m))) == PlaitMaybeAttr.WriteEscaped(m, "", name)
    ensures HtmlFmt(RawMaybeAttribute(name, FromMaybeAttr(m))) == PlaitMaybeAttr.WriteRaw(m, "", name)
  {
  }

  /** `UrlMaybeAttribute` writes nothing for `None` and acts as `UrlAttribute` for `Some`. */
  lemma UrlMaybeMeaning(name: string, url: Option<string>)
    ensures url.None? ==> HtmlFmt(UrlMaybeAttribute(name, url)) == ""
    ensures url.Some? ==> HtmlFmt(UrlMaybeAttribute(name, url)) == HtmlFmt(UrlAttribute(name, url.value))
  {
    if url.None? {
      UrlMaybeNone(name);
    } else {
      UrlMaybeSome(name, url.value);
    }
  }

  lemma UrlMaybeNone(name: string)
    ensures HtmlFmt(UrlMaybeAttribute(name, None)) == ""
  {
  }

  lemma UrlMaybeSome(name: string, v: string)
    ensures HtmlFmt(UrlMaybeAttribute(name, Some(v))) == HtmlFmt(UrlAttribute(name, v))
  {
  }

  /** A borrowed piece writes what the piece writes. */
  lemma RefIsTransparent(p: Piece)
    ensures HtmlFmt(Ref(p)) == HtmlFmt(p)
  {
  }
}
