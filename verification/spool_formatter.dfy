/** spool's `HtmlFormatter`: a state machine that writes HTML to an output string while keeping
    a stack of the elements that are open. Each operation is modelled as a pure function from
    one formatter snapshot to the next (or to the error the operation returns); the class at the
    end of the module is the same machine with mutable fields, as the source writes it. */
module SpoolFormatter {
  import opened Wrappers
  import opened Text
  import opened HtmlEscape
  import opened SpoolEscape
  import opened SpoolRender
  import VoidElements

  /** Void-element lookup ignores ASCII case. */
  predicate IsVoidElement(name: string) {
    LowerAscii(name) in VoidElements.Names
  }

  /** The void check ignores ASCII case: a name and its lowercase form agree, and a lowercase
      name is void exactly when it is one of the listed names. */
  lemma VoidIgnoresCase(name: string)
    ensures IsVoidElement(name) <==> IsVoidElement(LowerAscii(name))
    ensures NoAsciiUpper(name) ==> (IsVoidElement(name) <==> name in VoidElements.Names)
  {
    LoweredIsVoid(name);
    if NoAsciiUpper(name) {
      LowercaseIsVoid(name);
    }
  }

  lemma LoweredIsVoid(name: string)
    ensures IsVoidElement(name) <==> IsVoidElement(LowerAscii(name))
  {
    LowerAsciiIsLower(name);
    LowerOfLower(LowerAscii(name));
  }

  lemma LowercaseIsVoid(name: string)
    requires NoAsciiUpper(name)
    ensures IsVoidElement(name) <==> name in VoidElements.Names
  {
    LowerOfLower(name);
  }

  /** `Idle`: nothing open. `TagOpened`: `<name` written, `>` pending, attributes allowed.
      `InContent`: inside an element whose start tag is complete. */
  datatype State = Idle | TagOpened | InContent

  datatype Entry = Entry(name: string, isVoid: bool)

  /** The errors the formatter reports. */
  datatype FmtError = AttributeOutsideTag | NoElementToClose | ContentInVoidElement

  /** A snapshot of the formatter: the output so far, the open elements (innermost last), and
      the state. */
  datatype Fmt = Fmt(output: string, stack: seq<Entry>, state: State)

  /** The invariant every reachable snapshot keeps: the formatter is idle exactly when no element
      is open, and each entry's void flag agrees with its name. */
  predicate Valid(f: Fmt) {
    && (f.state == Idle <==> f.stack == [])
    && forall i :: 0 <= i < |f.stack| ==> f.stack[i].isVoid == IsVoidElement(f.stack[i].name)
  }

  /** A formatter over the output `out`: nothing open yet. */
  function New(out: string): (f: Fmt)
    ensures Valid(f) && f.output == out && f.state == Idle
  {
    Fmt(out, [], Idle)
  }

  /** Completes a pending start tag with `>`. */
  function ClosePending(f: Fmt): (r: Fmt)
    ensures r.stack == f.stack
    ensures f.state == TagOpened ==> r.output == f.output + ">" && r.state == InContent
    ensures f.state != TagOpened ==> r == f
  {
    if f.state == TagOpened then Fmt(f.output + ">", f.stack, InContent) else f
  }

  /** `start_element`: completes a pending start tag, writes `<name` and opens the element. */
  function StartElement(f: Fmt, name: string): (r: Fmt)
    ensures Valid(f) ==> Valid(r)
    ensures r.stack == f.stack + [Entry(name, IsVoidElement(name))]
    ensures r.state == TagOpened
    ensures r.output == ClosePending(f).output + "<" + name
  {
    var g := ClosePending(f);
    Fmt(g.output + "<" + name, g.stack + [Entry(name, IsVoidElement(name))], TagOpened)
  }

  /** Attributes may be written only while a start tag is pending. */
  predicate InTag(f: Fmt) {
    f.state == TagOpened && f.stack != []
  }

  /** The text ` name="value"` written inside the start tag of `parent`, with the value
      rendered under the attribute's resolved mode. */
  function AttributeText(parent: string, name: string, value: Value, mode: Option<EscapeMode>): string {
    " " + name + "=\"" + Render(value, ResolveForAttribute(parent, name, mode)) + "\""
  }

  /** The innermost open element. */
  function Top(f: Fmt): string
    requires f.stack != []
  {
    f.stack[|f.stack| - 1].name
  }

  /** `write_attribute`. */
  function WriteAttribute(f: Fmt, name: string, value: Value, mode: Option<EscapeMode>): (r: Result<Fmt, FmtError>)
    ensures r.Err? <==> !InTag(f)
    ensures r.Err? ==> r.error == AttributeOutsideTag
    ensures r.Ok? ==> r.value.stack == f.stack && r.value.state == f.state
    ensures r.Ok? ==> r.value.output == f.output + AttributeText(Top(f), name, value, mode)
  {
    if !InTag(f) then Err(AttributeOutsideTag)
    else Ok(f.(output := f.output + AttributeText(Top(f), name, value, mode)))
  }

  /** `write_optional_attribute`: like `write_attribute` for `Some`, nothing for `None`; the
      state check comes first either way. */
  function WriteOptionalAttribute(f: Fmt, name: string, value: Option<Value>, mode: Option<EscapeMode>): (r: Result<Fmt, FmtError>)
    ensures r.Err? <==> !InTag(f)
    ensures r.Err? ==> r.error == AttributeOutsideTag
    ensures value.Some? ==> r == WriteAttribute(f, name, value.value, mode)
    ensures value.None? && r.Ok? ==> r.value == f
  {
    if !InTag(f) then Err(AttributeOutsideTag)
    else match value
      case Some(v) => WriteAttribute(f, name, v, mode)
      case None => Ok(f)
  }

  /** `write_boolean_attribute`: ` name` when the flag is set, nothing otherwise. */
  function WriteBooleanAttribute(f: Fmt, name: string, value: bool): (r: Result<Fmt, FmtError>)
    ensures r.Err? <==> !InTag(f)
    ensures r.Err? ==> r.error == AttributeOutsideTag
    ensures r.Ok? ==> r.value.stack == f.stack && r.value.state == f.state
    ensures r.Ok? ==> r.value.output == f.output + (if value then " " + name else "")
  {
    if !InTag(f) then Err(AttributeOutsideTag)
    else if value then Ok(f.(output := f.output + " " + name))
    else Ok(f)
  }

  /** The condition under which content is refused: the innermost element is void and its
      start tag is still pending. */
  predicate ContentRefused(f: Fmt) {
    f.stack != [] && f.stack[|f.stack| - 1].isVoid && f.state == TagOpened
  }

  /** `write_content`: completes a pending start tag, then renders the content under the
      element's resolved mode. Content outside any element is allowed. */
  function WriteContent(f: Fmt, content: Value, mode: Option<EscapeMode>): (r: Result<Fmt, FmtError>)
    ensures r.Err? <==> ContentRefused(f)
    ensures r.Err? ==> r.error == ContentInVoidElement
    ensures r.Ok? ==> r.value.stack == f.stack
    ensures r.Ok? ==> r.value.state == (if f.state == Idle then Idle else InContent)
    ensures r.Ok? ==> r.value.output == ClosePending(f).output + Render(content, ResolveForElement(None, mode))
    ensures Valid(f) && r.Ok? ==> Valid(r.value)
  {
    if ContentRefused(f) then Err(ContentInVoidElement)
    else
      var g := ClosePending(f);
      var parent := if g.stack == [] then None else Some(g.stack[|g.stack| - 1].name);
      Ok(g.(output := g.output + Render(content, ResolveForElement(parent, mode))))
  }

  /** `end_element`: pops the innermost element; a void element only gets its pending `>`,
      any other gets its pending `>` and `</name>`. */
  function EndElement(f: Fmt): (r: Result<Fmt, FmtError>)
    ensures r.Err? <==> f.stack == []
    ensures r.Err? ==> r.error == NoElementToClose
    ensures r.Ok? ==> r.value.stack == f.stack[..|f.stack| - 1]
    ensures r.Ok? ==> r.value.state == (if |f.stack| == 1 then Idle else InContent)
    ensures r.Ok? && f.stack[|f.stack| - 1].isVoid ==>
      r.value.output == f.output + (if f.state == TagOpened then ">" else "")
    ensures r.Ok? && !f.stack[|f.stack| - 1].isVoid ==>
      r.value.output == ClosePending(f).output + "</" + f.stack[|f.stack| - 1].name + ">"
    ensures Valid(f) && r.Ok? ==> Valid(r.value)
  {
    if f.stack == [] then Err(NoElementToClose)
    else
      var entry := f.stack[|f.stack| - 1];
      var rest := f.stack[..|f.stack| - 1];
      var out :=
        if entry.isVoid then f.output + (if f.state == TagOpened then ">" else "")
        else ClosePending(f).output + "</" + entry.name + ">";
      Ok(Fmt(out, rest, if rest == [] then Idle else InContent))
  }

  /** Starting and then ending an element with nothing in between writes its complete markup:
      `<name>` for a void element, `<name></name>` for any other, and leaves the formatter as
      it was apart from the output. */
  lemma EmptyElement(f: Fmt, name: string)
    requires Valid(f) && !ContentRefused(f)
    ensures EndElement(StartElement(f, name)).Ok?
    ensures EndElement(StartElement(f, name)).value.stack == f.stack
    ensures IsVoidElement(name) ==>
      EndElement(StartElement(f, name)).value.output == ClosePending(f).output + "<" + name + ">"
    ensures !IsVoidElement(name) ==>
      EndElement(StartElement(f, name)).value.output == ClosePending(f).output + "<" + name + "></" + name + ">"
  {
    var g := StartElement(f, name);
    assert g.stack[..|g.stack| - 1] == f.stack;
  }

  /** Plain words render unchanged under the default mode. */
  lemma CleanWord(w: string)
    requires !NeedsHtmlEscape(w)
    ensures Render(Str(w), ResolveForAttribute("div", "class", None)) == w
    ensures forall p, n :: Render(Str(w), ResolveForAttribute(p, n, None)) == w
    ensures forall e :: Render(Str(w), ResolveForElement(e, None)) == w
  {
    EscapeIdentityIffClean(w);
  }

  lemma DivIsNotVoid()
    ensures !IsVoidElement("div")
  {
    assert LowerAscii("div") == "div";
  }

  lemma BrIsVoid()
    ensures IsVoidElement("br")
  {
    assert LowerAscii("br") == "br";
  }

  lemma AttributeStep(f: Fmt, name: string, w: string)
    requires InTag(f) && !NeedsHtmlEscape(w)
    ensures WriteAttribute(f, name, Str(w), None) == Ok(f.(output := f.output + (" " + name + "=\"" + w + "\"")))
  {
    CleanWord(w);
  }

  lemma ContentStep(f: Fmt, w: string)
    requires !ContentRefused(f) && !NeedsHtmlEscape(w)
    ensures WriteContent(f, Str(w), None) ==
      Ok(Fmt(ClosePending(f).output + w, f.stack, if f.state == Idle then Idle else InContent))
  {
    CleanWord(w);
  }

  lemma EndStep(out: string, below: seq<Entry>, top: Entry, state: State)
    ensures EndElement(Fmt(out, below + [top], state)) ==
      Ok(Fmt(
        if top.isVoid then out + (if state == TagOpened then ">" else "")
        else ClosePending(Fmt(out, below + [top], state)).output + "</" + top.name + ">",
        below, if below == [] then Idle else InContent))
  {
    assert (below + [top])[..|below|] == below;
  }

  /** A normal element with one attribute and text content writes
      `<tag name="value">text</tag>` and leaves the open elements as they were. */
  lemma ElementWithAttributeAndText(f: Fmt, tag: string, name: string, value: string, text: string)
    requires Valid(f) && !ContentRefused(f) && !IsVoidElement(tag)
    requires !NeedsHtmlEscape(value) && !NeedsHtmlEscape(text)
    ensures
      var f1 := WriteAttribute(StartElement(f, tag), name, Str(value), None);
      f1.Ok? &&
      var f2 := WriteContent(f1.value, Str(text), None);
      f2.Ok? &&
      var f3 := EndElement(f2.value);
      f3.Ok? && f3.value.stack == f.stack &&
      f3.value.output == ClosePending(f).output + "<" + tag + " " + name + "=\"" + value + "\">" + text + "</" + tag + ">"
  {
    var f0 := StartElement(f, tag);
    AttributeStep(f0, name, value);
    var f1 := f0.(output := f0.output + (" " + name + "=\"" + value + "\""));
    ContentStep(f1, text);
    var f2 := Fmt(f1.output + ">" + text, f1.stack, InContent);
    EndStep(f2.output, f.stack, Entry(tag, false), InContent);
    AttributeAndTextText(ClosePending(f).output, tag, name, value, text);
  }

  lemma AttributeAndTextText(p: string, tag: string, name: string, value: string, text: string)
    ensures p + "<" + tag + (" " + name + "=\"" + value + "\"") + ">" + text + "</" + tag + ">"
         == p + "<" + tag + " " + name + "=\"" + value + "\">" + text + "</" + tag + ">"
  {
    assert "\"" + ">" == "\">";
  }

  /** A void element with one attribute writes `<tag name="value">` and no end tag. */
  lemma VoidElementWithAttribute(f: Fmt, tag: string, name: string, value: string)
    requires Valid(f) && !ContentRefused(f) && IsVoidElement(tag)
    requires !NeedsHtmlEscape(value)
    ensures
      var f1 := WriteAttribute(StartElement(f, tag), name, Str(value), None);
      f1.Ok? &&
      var f2 := EndElement(f1.value);
      f2.Ok? && f2.value.stack == f.stack &&
      f2.value.output == ClosePending(f).output + "<" + tag + " " + name + "=\"" + value + "\">"
  {
    var f0 := StartElement(f, tag);
    AttributeStep(f0, name, value);
    var f1 := f0.(output := f0.output + (" " + name + "=\"" + value + "\""));
    EndStep(f1.output, f.stack, Entry(tag, true), TagOpened);
    VoidAttributeText(ClosePending(f).output, tag, name, value);
  }

  lemma VoidAttributeText(p: string, tag: string, name: string, value: string)
    ensures p + "<" + tag + (" " + name + "=\"" + value + "\"") + ">"
         == p + "<" + tag + " " + name + "=\"" + value + "\">"
  {
    assert "\"" + ">" == "\">";
  }

  /** One element nested in another, with text inside: `<outer><inner>text</inner></outer>`. */
  lemma NestedElements(f: Fmt, outer: string, inner: string, text: string)
    requires Valid(f) && !ContentRefused(f) && !IsVoidElement(outer) && !IsVoidElement(inner)
    requires !NeedsHtmlEscape(text)
    ensures
      var f1 := StartElement(StartElement(f, outer), inner);
      var f2 := WriteContent(f1, Str(text), None);
      f2.Ok? &&
      var f3 := EndElement(f2.value);
      f3.Ok? &&
      var f4 := EndElement(f3.value);
      f4.Ok? && f4.value.stack == f.stack &&
      f4.value.output == ClosePending(f).output + "<" + outer + "><" + inner + ">" + text + "</" + inner + "></" + outer + ">"
  {
    var f0 := StartElement(f, outer);
    var f1 := StartElement(f0, inner);
    assert f1.output == ClosePending(f).output + "<" + outer + ">" + "<" + inner;
    ContentStep(f1, text);
    var f2 := Fmt(f1.output + ">" + text, f1.stack, InContent);
    EndStep(f2.output, f.stack + [Entry(outer, false)], Entry(inner, false), InContent);
    assert (f.stack + [Entry(outer, false)]) + [Entry(inner, false)] == f1.stack;
    var f3 := Fmt(f2.output + "</" + inner + ">", f.stack + [Entry(outer, false)], InContent);
    EndStep(f3.output, f.stack, Entry(outer, false), InContent);
    NestedText(ClosePending(f).output, outer, inner, text);
  }

  lemma NestedText(p: string, outer: string, inner: string, text: string)
    ensures p + "<" + outer + ">" + "<" + inner + ">" + text + "</" + inner + ">" + "</" + outer + ">"
         == p + "<" + outer + "><" + inner + ">" + text + "</" + inner + "></" + outer + ">"
  {
    assert ">" + "<" == "><";
    assert ">" + "</" == "></";
  }

  /** The three error cases. */
  lemma ErrorCases()
    ensures
      var f := WriteContent(StartElement(New(""), "div"), Str("Content"), None);
      f.Ok? && WriteAttribute(f.value, "class", Str("test"), None) == Err(AttributeOutsideTag)
    ensures EndElement(New("")) == Err(NoElementToClose)
    ensures WriteContent(StartElement(New(""), "br"), Str("Content"), None) == Err(ContentInVoidElement)
  {
    DivIsNotVoid();
    BrIsVoid();
  }
}

/** The formatter as the source writes it: mutable fields and one method per operation, each
    proved to move the fields exactly as the corresponding pure function of `SpoolFormatter`
    moves a snapshot. */
module SpoolHtmlFormatter {
  import opened Wrappers
  import opened SpoolEscape
  import opened SpoolRender
  import opened SpoolFormatter

  class HtmlFormatter {
    var output: string
    var stack: seq<Entry>
    var state: State

    function Snapshot(): Fmt
      reads this
    {
      Fmt(output, stack, state)
    }

    /** The snapshot invariant, kept by every method. */
    predicate Valid()
      reads this
    {
      SpoolFormatter.Valid(Snapshot())
    }

    constructor (out: string)
      ensures Snapshot() == New(out) && Valid()
    {
      output := out;
      stack := [];
      state := Idle;
    }

    method Load(f: Fmt)
      modifies this
      ensures Snapshot() == f
      ensures Valid() <==> SpoolFormatter.Valid(f)
    {
      output, stack, state := f.output, f.stack, f.state;
    }

    method StartElement(name: string)
      requires Valid()
      modifies this
      ensures Valid()
      ensures Snapshot() == SpoolFormatter.StartElement(old(Snapshot()), name)
    {
      if state == TagOpened {
        output := output + ">";
        state := InContent;
      }
      output := output + "<" + name;
      stack := stack + [Entry(name, IsVoidElement(name))];
      state := TagOpened;
    }

    method WriteAttribute(name: string, value: Value, mode: Option<EscapeMode>) returns (r: Result<(), FmtError>)
      requires Valid()
      modifies this
      ensures Valid()
      ensures var s := SpoolFormatter.WriteAttribute(old(Snapshot()), name, value, mode);
        if s.Ok? then r.Ok? && Snapshot() == s.value else r == Err(s.error) && Snapshot() == old(Snapshot())
    {
      if state != TagOpened || stack == [] {
        return Err(AttributeOutsideTag);
      }
      var m := ResolveForAttribute(stack[|stack| - 1].name, name, mode);
      output := output + " " + name + "=\"" + Render(value, m) + "\"";
      return Ok(());
    }

    method WriteContent(content: Value, mode: Option<EscapeMode>) returns (r: Result<(), FmtError>)
      requires Valid()
      modifies this
      ensures Valid()
      ensures var s := SpoolFormatter.WriteContent(old(Snapshot()), content, mode);
        if s.Ok? then r.Ok? && Snapshot() == s.value else r == Err(s.error) && Snapshot() == old(Snapshot())
    {
      if stack != [] && stack[|stack| - 1].isVoid && state == TagOpened {
        return Err(ContentInVoidElement);
      }
      if state == TagOpened {
        output := output + ">";
        state := InContent;
      }
      var parent := if stack == [] then None else Some(stack[|stack| - 1].name);
      output := output + Render(content, ResolveForElement(parent, mode));
      return Ok(());
    }

    method EndElement() returns (r: Result<(), FmtError>)
      requires Valid()
      modifies this
      ensures Valid()
      ensures var s := SpoolFormatter.EndElement(old(Snapshot()));
        if s.Ok? then r.Ok? && Snapshot() == s.value else r == Err(s.error) && Snapshot() == old(Snapshot())
    {
      if stack == [] {
        return Err(NoElementToClose);
      }
      var entry := stack[|stack| - 1];
      stack := stack[..|stack| - 1];
      if entry.isVoid {
        if state == TagOpened {
          output := output + ">";
        }
      } else {
        if state == TagOpened {
          output := output + ">";
        }
        output := output + "</" + entry.name + ">";
      }
      state := if stack == [] then Idle else InContent;
      return Ok(());
    }
  }
}
