/** plait's `Render` trait: each kind of value appends itself under one of three escape modes.
    Text is HTML-escaped, checked and escaped as a URL, or copied; markup the caller vouches for,
    numbers and booleans are copied in every mode; wrappers render what they wrap. */
module PlaitRender {
  import opened Wrappers
  import opened Text
  import opened HtmlEscape
  import Entities
  import Url
  import UrlEscape
  import opened PlaitEscape

  /** The values a template may render. `Markup` is plait's `Html` type, `PreEscaped` wraps text
      the caller has escaped; `Ref`, `MutRef` and `Boxed` stand for `&T`, `&mut T` and
      `Box<T>`, and `Opt` for `Option<T>`. */
  datatype Value =
    | Str(s: string)
    | OwnedString(s: string)
    | PreEscaped(s: string)
    | Markup(s: string)
    | Int(i: int)
    | Bool(b: bool)
    | Char(c: char)
    | Ref(v: Value)
    | MutRef(v: Value)
    | Boxed(v: Value)
    | Opt(o: Option<Value>)

  /** The value a chain of wrappers ends in, or `None` when it ends in an absent option. */
  function Underlying(v: Value): (r: Option<Value>)
    ensures r.Some? ==> !r.value.Ref? && !r.value.MutRef? && !r.value.Boxed? && !r.value.Opt?
  {
    match v
    case Ref(w) => Underlying(w)
    case MutRef(w) => Underlying(w)
    case Boxed(w) => Underlying(w)
    case Opt(None) => None
    case Opt(Some(w)) => Underlying(w)
    case _ => Some(v)
  }

  /** Text values, which are escaped according to the mode. */
  predicate IsText(v: Value) {
    v.Str? || v.OwnedString? || v.Char?
  }

  /** Decimal rendering of an integer, with a leading `-` for negative values. */
  function IntText(i: int): string {
    if i < 0 then "-" + NatToString(-i) else NatToString(i)
  }

  /** The text a value stands for, before escaping; an absent option stands for nothing. */
  function PlainText(v: Value): string {
    match Underlying(v)
    case None => ""
    case Some(u) =>
      match u
      case Str(s) => s
      case OwnedString(s) => s
      case PreEscaped(s) => s
      case Markup(s) => s
      case Int(i) => IntText(i)
      case Bool(b) => if b then "true" else "false"
      case Char(c) => [c]
      case _ => ""
  }

  /** How text is written under each mode. */
  function EscapeText(s: string, mode: EscapeMode): string {
    match mode
    case Html => Escape(s)
    case Url => UrlEscape.EscapeUrl(s)
    case Raw => s
  }

  /** `render_to`: the text appended for `v` under `mode`. */
  function Render(v: Value, mode: EscapeMode): (r: string)
    ensures Underlying(v).None? ==> r == []
    ensures Underlying(v).Some? && !IsText(Underlying(v).value) ==> r == PlainText(v)
    ensures Underlying(v).Some? && IsText(Underlying(v).value) ==> r == EscapeText(PlainText(v), mode)
  {
    match v
    case Str(s) => EscapeText(s, mode)
    case OwnedString(s) => EscapeText(s, mode)
    case PreEscaped(s) => s
    case Markup(s) => s
    case Int(i) => IntText(i)
    case Bool(b) => if b then "true" else "false"
    case Char(c) => EscapeText([c], mode)
    case Ref(w) => Render(w, mode)
    case MutRef(w) => Render(w, mode)
    case Boxed(w) => Render(w, mode)
    case Opt(o) => match o case Some(w) => Render(w, mode) case None => ""
  }

  lemma IntTextIsClean(i: int)
    ensures NoMarkup(IntText(i)) && !NeedsHtmlEscape(IntText(i))
  {
  }

  /** Whatever the mode, nothing but markup the caller vouches for, or text written raw, can
      open a tag or leave a quoted attribute value. */
  lemma RenderHasNoMarkup(v: Value, mode: EscapeMode)
    requires mode != Raw
    requires Underlying(v).Some? ==> !Underlying(v).value.PreEscaped? && !Underlying(v).value.Markup?
    ensures NoMarkup(Render(v, mode))
  {
    match Underlying(v)
    case None =>
    case Some(u) =>
      if IsText(u) {
        if mode == Html {
          EscapeHasNoMarkup(PlainText(v));
        } else {
          UrlEscape.EscapeUrlHasNoMarkup(PlainText(v));
        }
      } else if u.Int? {
        IntTextIsClean(u.i);
      }
  }

  /** HTML-escaped text decodes back to the value's text. */
  lemma HtmlRenderIsLossless(v: Value)
    ensures Entities.Unescape(Render(v, Html)) == PlainText(v)
      || (Underlying(v).Some? && (Underlying(v).value.PreEscaped? || Underlying(v).value.Markup?))
  {
    match Underlying(v)
    case None =>
    case Some(u) =>
      if IsText(u) {
        Entities.UnescapeEscape(PlainText(v));
      } else if u.Int? {
        IntTextIsClean(u.i);
        EscapeIdentityIffClean(IntText(u.i));
        Entities.UnescapeEscape(IntText(u.i));
      } else if u.Bool? {
        BoolTextUnescapes(u.b);
      }
  }

  lemma BoolTextUnescapes(b: bool)
    ensures Entities.Unescape(if b then "true" else "false") == (if b then "true" else "false")
  {
    var t := if b then "true" else "false";
    EscapeIdentityIffClean(t);
    Entities.UnescapeEscape(t);
  }

  /** A URL-escaped text value is either the fallback or decodes to a URL that passes the check. */
  lemma UrlRenderIsSafe(v: Value)
    requires Underlying(v).Some? && IsText(Underlying(v).value)
    ensures Render(v, Url) == UrlEscape.BlockedUrlFallback
      || (Url.IsUrlSafe(PlainText(v)) && Entities.Unescape(Render(v, Url)) == PlainText(v))
  {
    UrlEscape.EscapeUrlMeaning(PlainText(v));
  }

  /** Wrappers are transparent: `&T`, `&mut T`, `Box<T>` and `Some(T)` render as `T` does. */
  lemma WrappersAreTransparent(v: Value, mode: EscapeMode)
    ensures Render(Ref(v), mode) == Render(v, mode)
    ensures Render(MutRef(v), mode) == Render(v, mode)
    ensures Render(Boxed(v), mode) == Render(v, mode)
    ensures Render(Opt(Some(v)), mode) == Render(v, mode)
    ensures Render(Opt(None), mode) == []
  {
    ReferencesAreTransparent(v, mode);
    OptionIsTransparent(v, mode);
  }

  lemma ReferencesAreTransparent(v: Value, mode: EscapeMode)
    ensures Render(Ref(v), mode) == Render(MutRef(v), mode) == Render(Boxed(v), mode) == Render(v, mode)
  {
  }

  lemma OptionIsTransparent(v: Value, mode: EscapeMode)
    ensures Render(Opt(Some(v)), mode) == Render(v, mode) && Render(Opt(None), mode) == []
  {
  }

  /** `String` and `char` render as the `str` with the same text. */
  lemma TextKindsAgree(s: string, c: char, mode: EscapeMode)
    ensures Render(OwnedString(s), mode) == Render(Str(s), mode)
    ensures Render(Char(c), mode) == Render(Str([c]), mode)
  {
  }

  /** Values the mode cannot affect: trusted markup, numbers, booleans. */
  lemma ModeIrrelevantForNonText(v: Value, m1: EscapeMode, m2: EscapeMode)
    requires Underlying(v).Some? ==> !IsText(Underlying(v).value)
    ensures Render(v, m1) == Render(v, m2)
  {
  }
}
