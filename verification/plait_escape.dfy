/** plait's escape modes. Besides verbatim and HTML escaping there is URL escaping, which the
    attribute resolution picks for attributes that carry URLs. */
module PlaitEscape {
  import opened Wrappers
  import Url

  datatype EscapeMode = Raw | Html | Url

  /** The mode for element content: the template's choice, else HTML escaping, whatever the
      element is called. */
  function ResolveForElement(name: Option<string>, provided: Option<EscapeMode>): (m: EscapeMode)
    ensures provided.Some? ==> m == provided.value
    ensures provided.None? ==> m == Html
  {
    match provided
    case Some(p) => p
    case None => Html
  }

  /** The mode for an attribute value: the template's choice, else URL escaping for the URL
      attributes and HTML escaping for all others. */
  function ResolveForAttribute(name: string, provided: Option<EscapeMode>): (m: EscapeMode)
    ensures provided.Some? ==> m == provided.value
  {
    match provided
    case Some(p) => p
    case None => if Url.IsUrlAttribute(name) then Url else Html
  }

  /** Without an explicit mode, an attribute is URL-escaped exactly when its name is one of the
      URL attributes, and it is never written raw. */
  lemma DefaultAttributeMode(name: string)
    ensures ResolveForAttribute(name, None) == Url <==> Url.IsUrlAttribute(name)
    ensures ResolveForAttribute(name, None) != Raw
  {
  }

  /** `href` and `src` default to URL escaping; `class` defaults to HTML escaping. */
  lemma DefaultModeExamples()
    ensures ResolveForAttribute("href", None) == Url
    ensures ResolveForAttribute("src", None) == Url
    ensures ResolveForAttribute("class", None) == Html
  {
  }
}
