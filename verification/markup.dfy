/** The text shapes both engines write for attributes, and a reader for them. The reader is the
    partner of the writers: it recovers the name and the value a browser would see, which is
    what makes a written attribute unambiguous. */
module Markup {
  import opened Wrappers
  import opened HtmlEscape
  import Entities

  /** ` name="value"`. */
  function AttrText(name: string, value: string): string {
    " " + name + "=\"" + value + "\""
  }

  /** An attribute name that cannot be confused with the syntax around it. */
  predicate IsAttrName(name: string) {
    name != [] && forall i :: 0 <= i < |name| ==> name[i] != '=' && name[i] != '"' && name[i] != ' ' && name[i] != '>'
  }

  /** The first position of `c` in `s`. */
  function IndexOfChar(s: string, c: char): (r: Option<nat>)
    ensures r.Some? ==> r.value < |s| && s[r.value] == c && forall j :: 0 <= j < r.value ==> s[j] != c
    ensures r.None? ==> forall j :: 0 <= j < |s| ==> s[j] != c
  {
    if s == [] then None
    else if s[0] == c then Some(0)
    else match IndexOfChar(s[1..], c) case Some(i) => Some(i + 1) case None => None
  }

  /** Reads one quoted attribute: the name up to the first `=`, and the value between the quotes,
      with character references decoded. A value containing a bare `"` is not one value. */
  function ReadAttr(t: string): Option<(string, string)> {
    if |t| < 4 || t[0] != ' ' || t[|t| - 1] != '"' then None
    else
      match IndexOfChar(t, '=')
      case None => None
      case Some(e) =>
        if e + 2 <= |t| - 1 && t[e + 1] == '"' && IndexOfChar(t[e + 2..|t| - 1], '"').None? && e > 1 then
          Some((t[1..e], Entities.Unescape(t[e + 2..|t| - 1])))
        else None
  }

  /** The slices of an attribute's text. */
  lemma AttrTextParts(name: string, value: string)
    ensures var t := AttrText(name, value);
      |t| == |name| + |value| + 4 && t[0] == ' ' && t[|t| - 1] == '"'
      && t[1..|name| + 1] == name && t[|name| + 1] == '=' && t[|name| + 2] == '"'
      && t[|name| + 3..|t| - 1] == value
  {
    var t := AttrText(name, value);
    assert t == [' '] + name + ['='] + ['"'] + value + ['"'];
  }

  /** The first `=` of an attribute's text is the one after its name. */
  lemma EqualsAfterName(name: string, value: string)
    requires IsAttrName(name)
    ensures IndexOfChar(AttrText(name, value), '=') == Some(|name| + 1)
  {
    var t := AttrText(name, value);
    AttrTextParts(name, value);
    forall j | 0 <= j < |name| + 1 ensures t[j] != '=' {
      if j > 0 {
        assert t[j] == t[1..|name| + 1][j - 1];
      }
    }
  }

  /** A raw value is read back unchanged up to character references, provided it holds no `"`. */
  lemma ReadRawAttr(name: string, value: string)
    requires IsAttrName(name)
    requires IndexOfChar(value, '"').None?
    ensures ReadAttr(AttrText(name, value)) == Some((name, Entities.Unescape(value)))
  {
    AttrTextParts(name, value);
    EqualsAfterName(name, value);
  }

  /** Writing an escaped value and reading it back gives the name and the original value: the
      escaped attribute is lossless and cannot be split into more than one attribute. */
  lemma ReadEscapedAttr(name: string, value: string)
    requires IsAttrName(name)
    ensures ReadAttr(AttrText(name, Escape(value))) == Some((name, value))
  {
    EscapeHasNoMarkup(value);
    assert IndexOfChar(Escape(value), '"').None?;
    ReadRawAttr(name, Escape(value));
    Entities.UnescapeEscape(value);
  }
}
