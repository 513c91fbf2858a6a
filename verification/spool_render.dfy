/** spool's `Render` trait: how each kind of value appends itself to the output under an
    escape mode. */
module SpoolRender {
  import opened Text
  import opened HtmlEscape
  import Entities
  import opened SpoolEscape

  /** The values a template may render. `Markup` is spool's `Html` newtype, already-built markup;
      `PreEscaped` wraps text the caller has escaped. `Ref` is a borrowed value (`&T`). */
  datatype Value =
    | Str(s: string)
    | OwnedString(s: string)
    | PreEscaped(s: string)
    | Markup(s: string)
    | Int(i: int)
    | Bool(b: bool)
    | Char(c: char)
    | Ref(v: Value)

  /** Values whose text is written verbatim whatever the mode. */
  predicate Trusted(v: Value) {
    match v
    case PreEscaped(_) => true
    case Markup(_) => true
    case Ref(w) => Trusted(w)
    case _ => false
  }

  /** Decimal rendering of an integer, with a leading `-` for negative values. */
  function IntText(i: int): string {
    if i < 0 then "-" + NatToString(-i) else NatToString(i)
  }

  /** The plain text a value stands for, before any escaping. */
  function PlainText(v: Value): string {
    match v
    case Str(s) => s
    case OwnedString(s) => s
    case PreEscaped(s) => s
    case Markup(s) => s
    case Int(i) => IntText(i)
    case Bool(b) => if b then "true" else "false"
    case Char(c) => [c]
    case Ref(w) => PlainText(w)
  }

  /** `str`'s rendering, which `String` and `char` reuse. */
  function RenderStr(s: string, mode: EscapeMode): (r: string)
    ensures mode == Raw ==> r == s
    ensures mode == Html ==> r == Escape(s)
  {
    match mode
    case Raw => s
    case Html => Escape(s)
  }

  /** The text `render` appends to the output. */
  function Render(v: Value, mode: EscapeMode): (r: string)
    ensures Trusted(v) || mode == Raw ==> r == PlainText(v)
    ensures !Trusted(v) && mode == Html ==> r == Escape(PlainText(v))
  {
    match v
    case Str(s) => RenderStr(s, mode)
    case OwnedString(s) => RenderStr(s, mode)
    case PreEscaped(s) => s
    case Markup(s) => s
    case Int(i) =>
      IntTextHasNoSpecials(i);
      EscapeIdentityIffClean(IntText(i));
      IntText(i)
    case Bool(b) =>
      BoolTextHasNoSpecials();
      if b then "true" else "false"
    case Char(c) => RenderStr([c], mode)
    case Ref(w) => Render(w, mode)
  }

  lemma IntTextHasNoSpecials(i: int)
    ensures !NeedsHtmlEscape(IntText(i))
  {
  }

  lemma BoolTextHasNoSpecials()
    ensures Escape("true") == "true" && Escape("false") == "false"
  {
    EscapeIdentityIffClean("true");
    EscapeIdentityIffClean("false");
  }

  /** Numbers and booleans never contain a special character, so the mode cannot change them. */
  lemma ModeIrrelevantForScalars(v: Value)
    requires v.Int? || v.Bool?
    ensures Render(v, Html) == Render(v, Raw)
  {

  }

  /** Under HTML escaping, an untrusted value's output can neither open a tag nor leave a quoted
      attribute, and decoding it gives back exactly the value's text. */
  lemma HtmlRenderIsSafeAndLossless(v: Value)
    requires !Trusted(v)
    ensures NoMarkup(Render(v, Html))
    ensures Entities.Unescape(Render(v, Html)) == PlainText(v)
  {
    EscapeHasNoMarkup(PlainText(v));
    Entities.UnescapeEscape(PlainText(v));
  }

  /** A borrowed value renders exactly like the value it borrows, in both modes. */
  lemma RefIsTransparent(v: Value, mode: EscapeMode)
    ensures Render(Ref(v), mode) == Render(v, mode)
    ensures Trusted(Ref(v)) == Trusted(v)
  {
  }
}
