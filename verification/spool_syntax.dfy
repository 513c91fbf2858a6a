/** The template grammar of spool's `html!` macro: a node is a string literal, a parenthesised
    expression, a braced fragment or an element; an element is a name, attributes, and either
    `;` (void elements) or a braced body. Attributes are parsed by `AttrSyntax`. */
module SpoolSyntax {
  import opened Wrappers
  import Str = Text
  import opened Tokens
  import opened AttrSyntax
  import VoidElements

  datatype Node =
    | Text(text: string)
    | Expression(expr: GroupExpr)
    | Element(name: string, isVoid: bool, attributes: seq<Attribute>, children: seq<Node>)
    | Fragment(children: seq<Node>)

  // ---------------------------------------------------------------------------------------
  // Element names

  /** Zero or more `- identifier` segments. */
  predicate IsHyphenTail(s: seq<Token>) {
    s == [] || (|s| >= 2 && s[0] == Minus && s[1].Ident? && IsHyphenTail(s[2..]))
  }

  /** The reference grammar of an element name: an identifier, then hyphenated identifiers. */
  predicate IsElementNameTokens(s: seq<Token>) {
    |s| >= 1 && s[0].Ident? && IsHyphenTail(s[1..])
  }

  /** The text hyphen segments stand for: each identifier lowercased, after a `-`. */
  function HyphenText(s: seq<Token>): string
    requires IsHyphenTail(s)
  {
    if s == [] then "" else "-" + Str.ToLowercase(s[1].name) + HyphenText(s[2..])
  }

  /** The name a reference-grammar element name stands for. */
  function ElementNameText(s: seq<Token>): string
    requires IsElementNameTokens(s)
  {
    Str.ToLowercase(s[0].name) + HyphenText(s[1..])
  }

  /** The hyphen loop of `parse_element_name`, with the name read so far. */
  function ParseHyphenTail(ts: seq<Token>, acc: string): (r: Parsed<string>)
    ensures r.Ok? ==> Suffix(r.value.1, ts) && !Peek(r.value.1, Minus)
    ensures r.Ok? && Str.NoAsciiUpper(acc) ==> Str.NoAsciiUpper(r.value.0)
    decreases |ts|
  {
    if !Peek(ts, Minus) then Ok((acc, ts))
    else if !PeekAnyIdent(ts[1..]) then Err(ElementNameEndsWithHyphen)
    else
      var segment := Str.ToLowercase(ts[1].name);
      ParseHyphenTail(ts[2..], acc + "-" + segment)
  }

  /** `parse_element_name`: the name, lowercased, and whether it names a void element. */
  function ParseElementName(ts: seq<Token>): (r: Parsed<(string, bool)>)
    ensures !PeekAnyIdent(ts) ==> r == Err(ExpectedElementName)
    ensures r.Ok? ==> ProperSuffix(r.value.1, ts) && !Peek(r.value.1, Minus)
    ensures r.Ok? ==> Str.NoAsciiUpper(r.value.0.0)
    ensures r.Ok? ==> (r.value.0.1 <==> r.value.0.0 in VoidElements.Names)
  {
    if !PeekAnyIdent(ts) then Err(ExpectedElementName)
    else
      match ParseHyphenTail(ts[1..], Str.ToLowercase(ts[0].name))
      case Err(e) => Err(e)
      case Ok((name, rest)) => Ok(((name, name in VoidElements.Names), rest))
  }

  lemma HyphenStep(ts: seq<Token>, acc: string)
    requires Peek(ts, Minus) && PeekAnyIdent(ts[1..])
    ensures ParseHyphenTail(ts, acc) == ParseHyphenTail(ts[2..], acc + "-" + Str.ToLowercase(ts[1].name))
  {
  }

  lemma HyphenStop(ts: seq<Token>, acc: string)
    requires !Peek(ts, Minus)
    ensures ParseHyphenTail(ts, acc) == Ok((acc, ts))
  {
  }

  lemma HyphenPair(b: Token, s: seq<Token>, acc: string)
    requires b.Ident? && IsHyphenTail(s)
    ensures IsHyphenTail([Minus, b] + s)
    ensures acc + "-" + Str.ToLowercase(b.name) + HyphenText(s) == acc + HyphenText([Minus, b] + s)
  {
    var t := [Minus, b] + s;
    assert t[0] == Minus && t[1] == b && t[2..] == s;
    var l := Str.ToLowercase(b.name);
    assert HyphenText(t) == "-" + l + HyphenText(s);
    assert acc + "-" + l + HyphenText(s) == acc + ("-" + l + HyphenText(s));
  }

  /** What the hyphen loop read is a sequence of hyphenated identifiers, and the name grew by
      their lowercased text. */
  lemma {:induction false} HyphenTailSound(ts: seq<Token>, acc: string, name: string, rest: seq<Token>)
    requires ParseHyphenTail(ts, acc) == Ok((name, rest))
    ensures |rest| <= |ts|
    ensures IsHyphenTail(ts[..|ts| - |rest|]) && name == acc + HyphenText(ts[..|ts| - |rest|])
    decreases |ts|
  {
    if Peek(ts, Minus) {
      assert PeekAnyIdent(ts[1..]);
      var acc' := acc + "-" + Str.ToLowercase(ts[1].name);
      HyphenStep(ts, acc);
      HyphenTailSound(ts[2..], acc', name, rest);
      HyphenSoundStep(ts, acc, name, rest);
    } else {
      var k := |ts| - |rest|;
      HyphenStop(ts, acc);
      assert ts[..k] == [];
      assert acc + HyphenText(ts[..k]) == acc;
    }
  }

  /** The pair `- ident` in front of what the rest of the loop read. */
  lemma HyphenSoundStep(ts: seq<Token>, acc: string, name: string, rest: seq<Token>)
    requires Peek(ts, Minus) && PeekAnyIdent(ts[1..]) && |rest| <= |ts| - 2
    requires var s' := ts[2..][..|ts| - 2 - |rest|];
      IsHyphenTail(s') && name == acc + "-" + Str.ToLowercase(ts[1].name) + HyphenText(s')
    ensures IsHyphenTail(ts[..|ts| - |rest|]) && name == acc + HyphenText(ts[..|ts| - |rest|])
  {
    var k := |ts| - |rest|;
    var s' := ts[2..][..k - 2];
    assert ts[..k] == [ts[0], ts[1]] + s' by {
      PairPrefix(ts, k);
    }
    HyphenPair(ts[1], s', acc);
  }

  /** Every hyphenated name is read whole when no further `-` follows it. */
  lemma {:induction false} HyphenTailComplete(s: seq<Token>, rest: seq<Token>, acc: string)
    requires IsHyphenTail(s) && !Peek(rest, Minus)
    ensures ParseHyphenTail(s + rest, acc) == Ok((acc + HyphenText(s), rest))
    decreases |s|
  {
    if s == [] {
      assert s + rest == rest;
      assert acc + HyphenText(s) == acc;
      HyphenStop(rest, acc);
    } else {
      var ts := s + rest;
      HyphenCompleteStep(s, rest, acc);
      HyphenStep(ts, acc);
      HyphenTailComplete(s[2..], rest, acc + "-" + Str.ToLowercase(s[1].name));
    }
  }

  /** A hyphenated name is its first pair and then the others. */
  lemma HyphenCompleteStep(s: seq<Token>, rest: seq<Token>, acc: string)
    requires IsHyphenTail(s) && s != []
    ensures Peek(s + rest, Minus) && PeekAnyIdent((s + rest)[1..]) && (s + rest)[1] == s[1]
    ensures (s + rest)[2..] == s[2..] + rest && IsHyphenTail(s[2..])
    ensures acc + "-" + Str.ToLowercase(s[1].name) + HyphenText(s[2..]) == acc + HyphenText(s)
  {
    DropAppend(s, rest, 2);
    PairThenRest(s);
    HyphenPair(s[1], s[2..], acc);
  }

  /** The element name is the lowercased text of a reference-grammar name, and the parser
      stops right after it. */
  lemma ElementNameSound(ts: seq<Token>, name: string, isVoid: bool, rest: seq<Token>)
    requires ParseElementName(ts) == Ok(((name, isVoid), rest))
    ensures |rest| < |ts| && ts == ts[..|ts| - |rest|] + rest
    ensures IsElementNameTokens(ts[..|ts| - |rest|])
    ensures name == ElementNameText(ts[..|ts| - |rest|])
  {
    var k := |ts| - |rest|;
    var after := ts[1..];
    assert ParseHyphenTail(after, Str.ToLowercase(ts[0].name)) == Ok((name, rest));
    var tail := after[..|after| - |rest|];
    assert IsHyphenTail(tail) && name == Str.ToLowercase(ts[0].name) + HyphenText(tail) by {
      HyphenTailSound(after, Str.ToLowercase(ts[0].name), name, rest);
    }
    assert ts[..k][1..] == tail && ts[..k][0] == ts[0];
    assert ts == ts[..k] + rest;
  }

  /** A reference-grammar name followed by anything but `-` parses to its lowercased text. */
  lemma ElementNameComplete(s: seq<Token>, rest: seq<Token>)
    requires IsElementNameTokens(s) && !Peek(rest, Minus)
    ensures var name := ElementNameText(s);
      ParseElementName(s + rest) == Ok(((name, name in VoidElements.Names), rest))
  {
    var ts := s + rest;
    assert ts[0] == s[0];
    assert ts[1..] == s[1..] + rest;
    HyphenTailComplete(s[1..], rest, Str.ToLowercase(s[0].name));
  }

  /** A name that ends in `-` is refused with the trailing-hyphen error. */
  lemma TrailingHyphenRefused(s: seq<Token>, rest: seq<Token>)
    requires IsElementNameTokens(s) && !PeekAnyIdent(rest)
    ensures ParseElementName(s + [Minus] + rest) == Err(ElementNameEndsWithHyphen)
  {
    var ts := s + [Minus] + rest;
    assert ts[0] == s[0];
    assert ts[1..] == s[1..] + ([Minus] + rest);
    HyphenTailRefused(s[1..], rest, Str.ToLowercase(s[0].name));
  }

  lemma {:induction false} HyphenTailRefused(s: seq<Token>, rest: seq<Token>, acc: string)
    requires IsHyphenTail(s) && !PeekAnyIdent(rest)
    ensures ParseHyphenTail(s + ([Minus] + rest), acc) == Err(ElementNameEndsWithHyphen)
    decreases |s|
  {
    var ts := s + ([Minus] + rest);
    if s == [] {
      assert ts == [Minus] + rest;
      assert ts[1..] == rest;
    } else {
      assert ts[0] == Minus && ts[1] == s[1];
      assert ts[2..] == s[2..] + ([Minus] + rest);
      HyphenStep(ts, acc);
      HyphenTailRefused(s[2..], rest, acc + "-" + Str.ToLowercase(s[1].name));
    }
  }

  // ---------------------------------------------------------------------------------------
  // Nodes and elements

  /** What every parsed tree satisfies: element names are lowercase, the void flag agrees with
      the void list, and void elements have no children. */
  predicate WellFormed(n: Node) {
    match n
    case Text(_) => true
    case Expression(_) => true
    case Element(name, isVoid, _, children) =>
      && Str.NoAsciiUpper(name)
      && (isVoid <==> name in VoidElements.Names)
      && (isVoid ==> children == [])
      && AllWellFormed(children)
    case Fragment(children) => AllWellFormed(children)
  }

  predicate AllWellFormed(ns: seq<Node>) {
    forall i :: 0 <= i < |ns| ==> WellFormed(ns[i])
  }

  /** Where the attribute list of an element stops: at `;` or at a braced body. */
  predicate AtBodyStart(ts: seq<Token>) {
    Peek(ts, Semi) || (ts != [] && ts[0].Brace?)
  }

  /** `parse_element_attributes`: attributes, in order, until `;` or `{`. */
  function ParseElementAttributes(ts: seq<Token>): (r: Parsed<seq<Attribute>>)
    ensures r.Ok? ==> Suffix(r.value.1, ts) && AtBodyStart(r.value.1)
    ensures AtBodyStart(ts) ==> r == Ok(([], ts))
    ensures ts == [] ==> r.Err?
    decreases |ts|
  {
    if AtBodyStart(ts) then Ok(([], ts))
    else match ParseAttribute(ts)
      case Err(e) => Err(e)
      case Ok((a, rest)) =>
        match ParseElementAttributes(rest)
        case Err(e) => Err(e)
        case Ok((more, after)) => Ok(([a] + more, after))
  }

  /** `parse_node`: dispatch on the leading token. */
  function ParseNode(ts: seq<Token>): (r: Parsed<Node>)
    ensures r.Ok? ==> ProperSuffix(r.value.1, ts) && WellFormed(r.value.0)
    ensures ts != [] && ts[0].LitStr? ==> r == Ok((Text(ts[0].value), ts[1..]))
    ensures ts != [] && ts[0].Paren? ==> (r.Ok? <==> ParseParenthesized(ts).Ok?)
    ensures ts != [] && ts[0].Paren? && r.Ok? ==>
      r.value == (Expression(ParseParenthesized(ts).value.0), ts[1..])
    ensures ts != [] && ts[0].Brace? && r.Ok? ==> r.value.0.Fragment? && r.value.1 == ts[1..]
    ensures (ts == [] || !(ts[0].LitStr? || ts[0].Paren? || ts[0].Brace?)) ==> r == ParseElement(ts)
    decreases SizeSeq(ts), 1
  {
    if ts != [] && ts[0].LitStr? then Ok((Text(ts[0].value), ts[1..]))
    else if ts != [] && ts[0].Paren? then
      match ParseParenthesized(ts)
      case Err(e) => Err(e)
      case Ok((g, rest)) => Ok((Expression(g), rest))
    else if ts != [] && ts[0].Brace? then
      GroupIsSmaller(ts);
      match ParseNodes(ts[0].inner)
      case Err(e) => Err(e)
      case Ok(children) => Ok((Fragment(children), ts[1..]))
    else ParseElement(ts)
  }

  /** The contents of a braced group, node after node until it is used up. */
  function ParseNodes(content: seq<Token>): (r: Result<seq<Node>, SyntaxError>)
    ensures r.Ok? ==> AllWellFormed(r.value)
    ensures content == [] ==> r == Ok([])
    decreases SizeSeq(content), 2
  {
    if content == [] then Ok([])
    else match ParseNode(content)
      case Err(e) => Err(e)
      case Ok((n, rest)) =>
        SuffixIsSmaller(rest, content);
        match ParseNodes(rest)
        case Err(e) => Err(e)
        case Ok(more) => Ok([n] + more)
  }

  /** `parse_element`: a name, attributes, then `;` for a void element or a braced body for any
      other. */
  function ParseElement(ts: seq<Token>): (r: Parsed<Node>)
    ensures r.Ok? ==> ProperSuffix(r.value.1, ts) && WellFormed(r.value.0) && r.value.0.Element?
    ensures !PeekAnyIdent(ts) ==> r == Err(ExpectedElementName)
    ensures r.Ok? ==> ParseElementName(ts).Ok? && ParseElementName(ts).value.0 == (r.value.0.name, r.value.0.isVoid)
    decreases SizeSeq(ts), 0
  {
    match ParseElementName(ts)
    case Err(e) => Err(e)
    case Ok(((name, isVoid), afterName)) =>
      match ParseElementAttributes(afterName)
      case Err(e) => Err(e)
      case Ok((attrs, rest)) =>
        if isVoid then
          if !Peek(rest, Semi) then Err(ExpectedSemiAfterVoid)
          else
            DropAfterSuffix(rest, afterName, ts);
            Ok((Element(name, true, attrs, []), rest[1..]))
        else if rest != [] && rest[0].Brace? then
          SuffixIsSmaller(afterName, ts);
          SuffixIsNotLarger(rest, afterName);
          GroupIsSmaller(rest);
          DropAfterSuffix(rest, afterName, ts);
          match ParseNodes(rest[0].inner)
          case Err(e) => Err(e)
          case Ok(children) => Ok((Element(name, false, attrs, children), rest[1..]))
        else Err(ExpectedElementBody)
  }

  /** A braced group is a fragment of the nodes it holds, in order. */
  lemma FragmentRule(ts: seq<Token>)
    requires ts != [] && ts[0].Brace?
    ensures ParseNode(ts).Ok? <==> ParseNodes(ts[0].inner).Ok?
    ensures ParseNode(ts).Ok? ==> ParseNode(ts).value == (Fragment(ParseNodes(ts[0].inner).value), ts[1..])
  {
  }

  /** After a void element's attributes only `;` is accepted, and the element is childless. */
  lemma VoidRule(ts: seq<Token>, name: string, afterName: seq<Token>, attrs: seq<Attribute>, rest: seq<Token>)
    requires ParseElementName(ts) == Ok(((name, true), afterName))
    requires ParseElementAttributes(afterName) == Ok((attrs, rest))
    ensures Peek(rest, Semi) ==> ParseElement(ts) == Ok((Element(name, true, attrs, []), rest[1..]))
    ensures !Peek(rest, Semi) ==> ParseElement(ts) == Err(ExpectedSemiAfterVoid)
  {
  }

  /** After any other element's attributes only a braced body is accepted, and its nodes are
      the element's children. */
  lemma BodyRule(ts: seq<Token>, name: string, afterName: seq<Token>, attrs: seq<Attribute>, rest: seq<Token>)
    requires ParseElementName(ts) == Ok(((name, false), afterName))
    requires ParseElementAttributes(afterName) == Ok((attrs, rest))
    ensures Peek(rest, Semi) ==> ParseElement(ts) == Err(ExpectedElementBody)
    ensures rest[0].Brace? ==> (ParseElement(ts).Ok? <==> ParseNodes(rest[0].inner).Ok?)
    ensures rest[0].Brace? && ParseElement(ts).Ok? ==>
      ParseElement(ts) == Ok((Element(name, false, attrs, ParseNodes(rest[0].inner).value), rest[1..]))
  {
  }

  /** `br;` is an empty void element, whatever follows. */
  lemma VoidElementExample(rest: seq<Token>)
    ensures ParseNode([Ident("br"), Semi] + rest) == Ok((Element("br", true, [], []), rest))
  {
    var ts := [Ident("br"), Semi] + rest;
    assert ts[1..] == [Semi] + rest;
    assert Str.ToLowercase("br") == "br";
    assert ParseHyphenTail(ts[1..], "br") == Ok(("br", ts[1..]));
    assert ParseElementAttributes(ts[1..]) == Ok(([], ts[1..]));
    assert ts[1..][1..] == rest;
  }

  /** Names are lowercased beyond ASCII: `Ärger;` names the element `ärger`, which is not void
      and so needs a body. */
  lemma LowercasedNameExample(rest: seq<Token>)
    requires !Peek(rest, Minus)
    ensures ParseElementName([Ident("\U{C4}rger")] + rest) == Ok((("\U{E4}rger", false), rest))
  {
    var ts := [Ident("\U{C4}rger")] + rest;
    assert ts[1..] == rest;
    assert Str.ToLowercase("\U{C4}rger") == "\U{E4}rger";
  }

  /** `{}` is an empty fragment. */
  lemma EmptyFragmentExample(rest: seq<Token>)
    ensures ParseNode([Brace([])] + rest) == Ok((Fragment([]), rest))
  {
    var ts := [Brace([])] + rest;
    assert ts[1..] == rest;
  }

  // ---------------------------------------------------------------------------------------
  // Printing trees back to tokens

  /** A tree the printer can write back: host expressions are single host tokens and an
      element's name is already lowercase, since the printer writes it as one identifier. */
  predicate Printable(n: Node)
    decreases n
  {
    match n
    case Text(_) => true
    case Expression(g) => IsHostToken(g.expr)
    case Element(name, isVoid, attributes, children) =>
      && Str.ToLowercase(name) == name
      && (isVoid <==> name in VoidElements.Names)
      && (isVoid ==> children == [])
      && (forall i :: 0 <= i < |attributes| ==> PrintableAttribute(attributes[i]))
      && AllPrintable(children)
    case Fragment(children) => AllPrintable(children)
  }

  predicate AllPrintable(ns: seq<Node>)
    decreases ns
  {
    forall i :: 0 <= i < |ns| ==> Printable(ns[i])
  }

  /** Attributes one after another, with nothing between them. */
  function PrintAttributes(attrs: seq<Attribute>): seq<Token> {
    if attrs == [] then [] else PrintAttribute(attrs[0]) + PrintAttributes(attrs[1..])
  }

  /** The tokens of a node: a string literal, a parenthesised group, a braced fragment, or a
      name with its attributes and then `;` or a braced body. */
  function PrintNode(n: Node): (ts: seq<Token>)
    ensures ts != []
    decreases n
  {
    match n
    case Text(s) => [LitStr(s)]
    case Expression(g) => [Paren(GroupTokens(g))]
    case Fragment(children) => [Brace(PrintNodes(children))]
    case Element(name, isVoid, attributes, children) =>
      [Ident(name)] + PrintAttributes(attributes) + (if isVoid then [Semi] else [Brace(PrintNodes(children))])
  }

  function PrintNodes(ns: seq<Node>): seq<Token>
    decreases ns
  {
    if ns == [] then [] else PrintNode(ns[0]) + PrintNodes(ns[1..])
  }

  /** Printed attributes are read back in order, and the list stops at the `;` or `{` after
      them. */
  lemma {:induction false} AttributesRoundTrip(attrs: seq<Attribute>, tail: seq<Token>)
    requires forall i :: 0 <= i < |attrs| ==> PrintableAttribute(attrs[i])
    requires AtBodyStart(tail)
    ensures ParseElementAttributes(PrintAttributes(attrs) + tail) == Ok((attrs, tail))
    decreases |attrs|
  {
    if attrs == [] {
      assert PrintAttributes(attrs) + tail == tail;
    } else {
      AttributesRoundTrip(attrs[1..], tail);
      AttributesStep(attrs, tail);
    }
  }

  lemma AttributesStep(attrs: seq<Attribute>, tail: seq<Token>)
    requires attrs != [] && forall i :: 0 <= i < |attrs| ==> PrintableAttribute(attrs[i])
    requires AtBodyStart(tail)
    requires ParseElementAttributes(PrintAttributes(attrs[1..]) + tail) == Ok((attrs[1..], tail))
    ensures ParseElementAttributes(PrintAttributes(attrs) + tail) == Ok((attrs, tail))
  {
    var ts, more := AttributesLayout(attrs, tail);
    AttributeThen(attrs[0], more);
    HeadThenRest(attrs);
    AttributesCons(ts, attrs[0], more, attrs[1..], attrs, tail);
  }

  lemma HeadThenRest(attrs: seq<Attribute>)
    requires attrs != []
    ensures attrs == [attrs[0]] + attrs[1..]
  {
  }

  /** Printed attributes are the first one's tokens, then the others', then what follows. */
  lemma AttributesLayout(attrs: seq<Attribute>, tail: seq<Token>) returns (ts: seq<Token>, more: seq<Token>)
    requires attrs != [] && AtBodyStart(tail)
    ensures ts == PrintAttributes(attrs) + tail && more == PrintAttributes(attrs[1..]) + tail
    ensures ts == PrintAttribute(attrs[0]) + more && EndsAttribute(more)
    ensures PeekAnyIdent(ts) || PeekSpread(ts)
  {
    ts, more := PrintAttributes(attrs) + tail, PrintAttributes(attrs[1..]) + tail;
    var head, others := PrintAttribute(attrs[0]), PrintAttributes(attrs[1..]);
    assert PrintAttributes(attrs) == head + others;
    Associate(head, others, tail);
    PrintedAttributesStart(attrs[1..], tail, more);
    assert ts[0] == head[0];
    if PeekSpread(head) {
      assert ts[1] == head[1];
    }
  }

  lemma PrintedAttributesStart(attrs: seq<Attribute>, tail: seq<Token>, ts: seq<Token>)
    requires AtBodyStart(tail) && ts == PrintAttributes(attrs) + tail
    ensures EndsAttribute(ts)
  {
    if attrs != [] {
      assert ts[0] == PrintAttribute(attrs[0])[0];
    }
  }

  /** One step of the attribute loop. */
  lemma AttributesCons(ts: seq<Token>, a: Attribute, more: seq<Token>, rest: seq<Attribute>, attrs: seq<Attribute>, tail: seq<Token>)
    requires PeekAnyIdent(ts) || PeekSpread(ts)
    requires ParseAttribute(ts) == Ok((a, more))
    requires ParseElementAttributes(more) == Ok((rest, tail))
    requires attrs == [a] + rest
    ensures ParseElementAttributes(ts) == Ok((attrs, tail))
  {
  }

  /** An element read back, given that its children are. */
  lemma ElementRoundTrip(n: Node, rest: seq<Token>)
    requires n.Element? && Printable(n)
    requires !n.isVoid ==> ParseNodes(PrintNodes(n.children)) == Ok(n.children)
    ensures ParseNode(PrintNode(n) + rest) == Ok((n, rest))
  {
    var ts, afterName, tail := ElementLayout(n, rest);
    ElementNameRead(n.name, afterName);
    AttributesRoundTrip(n.attributes, tail);
    if n.isVoid {
      VoidElementRead(n, ts, afterName, tail, rest);
    } else {
      BlockElementRead(n, ts, afterName, tail, rest);
    }
  }

  /** A printed element is its name, its attributes, and then `;` or its braced children. */
  lemma ElementLayout(n: Node, rest: seq<Token>) returns (ts: seq<Token>, afterName: seq<Token>, tail: seq<Token>)
    requires n.Element?
    ensures ts == PrintNode(n) + rest && ts == [Ident(n.name)] + afterName
    ensures afterName == PrintAttributes(n.attributes) + tail && AtBodyStart(tail) && !Peek(afterName, Minus)
    ensures tail[1..] == rest
    ensures n.isVoid ==> tail[0] == Semi
    ensures !n.isVoid ==> tail[0] == Brace(PrintNodes(n.children))
  {
    var body := if n.isVoid then [Semi] else [Brace(PrintNodes(n.children))];
    tail := body + rest;
    afterName := PrintAttributes(n.attributes) + tail;
    ts := PrintNode(n) + rest;
    assert ts == [Ident(n.name)] + afterName;
    PrintedAttributesStart(n.attributes, tail, afterName);
    assert tail[1..] == rest;
  }

  /** A single lowercase identifier followed by anything but `-` is read as that name. */
  lemma ElementNameRead(name: string, afterName: seq<Token>)
    requires Str.ToLowercase(name) == name && !Peek(afterName, Minus)
    ensures ParseElementName([Ident(name)] + afterName) == Ok(((name, name in VoidElements.Names), afterName))
  {
    SingleNameText(name);
    ElementNameComplete([Ident(name)], afterName);
  }

  lemma SingleNameText(name: string)
    requires Str.ToLowercase(name) == name
    ensures IsElementNameTokens([Ident(name)]) && ElementNameText([Ident(name)]) == name
  {
    assert [Ident(name)][1..] == [];
    assert name + "" == name;
  }

  lemma VoidElementRead(n: Node, ts: seq<Token>, afterName: seq<Token>, tail: seq<Token>, rest: seq<Token>)
    requires n.Element? && n.isVoid && n.children == []
    requires ts == [Ident(n.name)] + afterName && tail != [] && tail[0] == Semi && tail[1..] == rest
    requires ParseElementName(ts) == Ok(((n.name, true), afterName))
    requires ParseElementAttributes(afterName) == Ok((n.attributes, tail))
    ensures ParseNode(ts) == Ok((n, rest))
  {
    VoidRule(ts, n.name, afterName, n.attributes, tail);
    assert n == Element(n.name, true, n.attributes, []);
  }

  lemma BlockElementRead(n: Node, ts: seq<Token>, afterName: seq<Token>, tail: seq<Token>, rest: seq<Token>)
    requires n.Element? && !n.isVoid
    requires ts == [Ident(n.name)] + afterName && tail != [] && tail[0] == Brace(PrintNodes(n.children)) && tail[1..] == rest
    requires ParseNodes(PrintNodes(n.children)) == Ok(n.children)
    requires ParseElementName(ts) == Ok(((n.name, false), afterName))
    requires ParseElementAttributes(afterName) == Ok((n.attributes, tail))
    ensures ParseNode(ts) == Ok((n, rest))
  {
    BodyRule(ts, n.name, afterName, n.attributes, tail);
    assert n == Element(n.name, false, n.attributes, n.children);
  }

  /** Every printable node is read back whole, whatever follows it. */
  lemma {:induction false} NodeRoundTrip(n: Node, rest: seq<Token>)
    requires Printable(n)
    ensures ParseNode(PrintNode(n) + rest) == Ok((n, rest))
    decreases n
  {
    var ts := PrintNode(n) + rest;
    match n
    case Text(_) =>
      assert ts[1..] == rest;
    case Expression(g) =>
      assert ts[1..] == rest;
      GroupRoundTrip(g);
    case Fragment(children) =>
      assert ts[1..] == rest;
      NodesRoundTrip(children);
    case Element(_, isVoid, _, children) =>
      if !isVoid {
        NodesRoundTrip(children);
      }
      ElementRoundTrip(n, rest);
  }

  /** The printer and the parser are inverse on printable trees: printing a sequence of nodes
      and parsing the tokens gives the same nodes back. */
  lemma {:induction false} NodesRoundTrip(ns: seq<Node>)
    requires AllPrintable(ns)
    ensures ParseNodes(PrintNodes(ns)) == Ok(ns)
    decreases ns
  {
    if ns != [] {
      var tail := PrintNodes(ns[1..]);
      NodeRoundTrip(ns[0], tail);
      NodesRoundTrip(ns[1..]);
      NodesStep(ns, tail);
    }
  }

  /** One step of the node loop over printed nodes. */
  lemma NodesStep(ns: seq<Node>, tail: seq<Token>)
    requires ns != [] && tail == PrintNodes(ns[1..])
    requires ParseNode(PrintNode(ns[0]) + tail) == Ok((ns[0], tail))
    requires ParseNodes(tail) == Ok(ns[1..])
    ensures ParseNodes(PrintNodes(ns)) == Ok(ns)
  {
    HeadThenRestNodes(ns);
    NodesCons(PrintNode(ns[0]) + tail, ns[0], tail, ns[1..], ns);
  }

  lemma HeadThenRestNodes(ns: seq<Node>)
    requires ns != []
    ensures ns == [ns[0]] + ns[1..]
  {
  }

  /** One step of the node loop. */
  lemma NodesCons(content: seq<Token>, n: Node, rest: seq<Token>, more: seq<Node>, ns: seq<Node>)
    requires content != [] && ParseNode(content) == Ok((n, rest))
    requires ParseNodes(rest) == Ok(more) && ns == [n] + more
    ensures ParseNodes(content) == Ok(ns)
  {
  }
}
