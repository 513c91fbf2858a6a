/** spool's escape modes and the rules that pick one when a template gives none. */
module SpoolEscape {
  import opened Wrappers

  /** How rendered text is written: verbatim, or HTML-escaped. */
  datatype EscapeMode = Raw | Html

  /** The mode for element content: the template's choice, else HTML escaping. The element's
      name is accepted but does not influence the choice. */
  function ResolveForElement(name: Option<string>, provided: Option<EscapeMode>): (m: EscapeMode)
    ensures provided.Some? ==> m == provided.value
    ensures provided.None? ==> m == Html
  {
    match provided
    case Some(p) => p
    case None => Html
  }

  /** The mode for an attribute value: the template's choice, else HTML escaping, whatever the
      element and attribute are called. */
  function ResolveForAttribute(parent: string, name: string, provided: Option<EscapeMode>): (m: EscapeMode)
    ensures provided.Some? ==> m == provided.value
    ensures provided.None? ==> m == Html
  {
    match provided
    case Some(p) => p
    case None => Html
  }

  /** Only the template's choice matters: content and attributes default alike, and neither
      depends on a name. */
  lemma DefaultIsHtmlEverywhere(e: Option<string>, parent: string, name: string, provided: Option<EscapeMode>)
    ensures ResolveForElement(e, provided) == ResolveForAttribute(parent, name, provided)
    ensures ResolveForElement(e, provided) == ResolveForElement(None, provided)
  {
  }
}
