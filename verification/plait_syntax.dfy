/** The template grammar of plait's `html!` macro. A node is a string literal, a parenthesised
    expression, `#(raw)`, `#doctype`, `#children`, a `let`, `if`, `for` or `match` form, `@(display)`,
    an `@Component(...) { ... }` call, or an element whose name is kebab-cased and whose
    attributes sit in parentheses. Host expressions, patterns, types and paths are single
    tokens (see `Tokens.IsHostToken`). */
module PlaitSyntax {
  import opened Wrappers
  import Ascii = Text
  import opened Tokens
  import opened AttrSyntax
  import opened Kebab
  import VoidElements

  datatype Node =
    | Text(text: string)
    | Expression(expr: Token)
    | RawExpression(expr: Token)
    | Doctype
    | Children
    | Let(pattern: Token, ty: Option<Token>, init: Option<Token>)
    | If(cond: IfCond)
    | For(pattern: Token, iter: Token, body: seq<Node>)
    | Match(scrutinee: Token, arms: seq<Arm>)
    | Component(path: Token, fields: seq<Field>, attributes: seq<Attribute>, children: seq<Node>)
    | HtmlDisplay(expr: Token)
    | Element(name: string, isVoid: bool, attributes: seq<Attribute>, children: seq<Node>)

  /** An `if` with its then-branch and an optional `@else` part; `@else if` nests to the right. */
  datatype IfCond = IfCond(condition: Token, thenBranch: seq<Node>, elseBranch: Option<ElseBranch>)

  datatype ElseBranch = ElseIf(inner: IfCond) | Else(nodes: seq<Node>)

  datatype Arm = Arm(pattern: Token, guard: Option<Token>, body: seq<Node>)

  /** A component property: `ident: expr`. */
  datatype Field = Field(name: string, value: Token)

  // ---------------------------------------------------------------------------------------
  // What every parsed tree satisfies

  predicate WellFormed(n: Node) {
    match n
    case If(c) => WellFormedIf(c)
    case For(_, _, body) => AllWellFormed(body)
    case Match(_, arms) => AllArmsWellFormed(arms)
    case Component(_, _, _, children) => AllWellFormed(children)
    case Element(name, isVoid, _, children) =>
      && IsKebab(name)
      && (isVoid <==> name in VoidElements.Names)
      && (isVoid ==> children == [])
      && AllWellFormed(children)
    case _ => true
  }

  predicate AllWellFormed(ns: seq<Node>) {
    forall i :: 0 <= i < |ns| ==> WellFormed(ns[i])
  }

  predicate WellFormedIf(c: IfCond) {
    && AllWellFormed(c.thenBranch)
    && match c.elseBranch
       case None => true
       case Some(ElseIf(inner)) => WellFormedIf(inner)
       case Some(Else(nodes)) => AllWellFormed(nodes)
  }

  predicate AllArmsWellFormed(arms: seq<Arm>) {
    forall i :: 0 <= i < |arms| ==> AllWellFormed(arms[i].body)
  }

  // ---------------------------------------------------------------------------------------
  // Leaf forms

  /** `#(expr)`, `#doctype` or `#children` after a leading `#`. */
  function ParsePound(ts: seq<Token>): (r: Parsed<Node>)
    requires Peek(ts, Pound)
    ensures r.Ok? ==> ProperSuffix(r.value.1, ts) && WellFormed(r.value.0)
    ensures r.Ok? ==> r.value.0.RawExpression? || r.value.0.Doctype? || r.value.0.Children?
    ensures r.Ok? && r.value.0.RawExpression? <==>
      |ts| >= 2 && ts[1].Paren? && ParseWholeHost(ts[1].inner).Ok?
    ensures r.Ok? && r.value.0.Doctype? <==> |ts| >= 2 && ts[1] == Ident("doctype")
    ensures r.Ok? && r.value.0.Children? <==> |ts| >= 2 && ts[1] == Ident("children")
    ensures PeekIdent(ts[1..]) && ts[1].name != "doctype" && ts[1].name != "children" ==>
      r == Err(BadPoundIdent)
    ensures !PeekIdent(ts[1..]) && !(|ts| >= 2 && ts[1].Paren?) ==> r == Err(BadPound)
  {
    if |ts| >= 2 && ts[1].Paren? then
      match ParseWholeHost(ts[1].inner)
      case Err(e) => Err(e)
      case Ok(e) => Ok((RawExpression(e), ts[2..]))
    else if PeekIdent(ts[1..]) then
      if ts[1].name == "doctype" then Ok((Doctype, ts[2..]))
      else if ts[1].name == "children" then Ok((Children, ts[2..]))
      else Err(BadPoundIdent)
    else Err(BadPound)
  }

  /** `let pattern (: type)? (= expr)? ;` */
  function ParseLet(ts: seq<Token>): (r: Parsed<Node>)
    requires PeekKeyword(ts, "let")
    ensures r.Ok? ==> ProperSuffix(r.value.1, ts) && r.value.0.Let?
    ensures r.Ok? ==> |ts| >= 2 && r.value.0.pattern == ts[1]
  {
    match ParseHost(ts[1..], APattern)
    case Err(e) => Err(e)
    case Ok((pattern, r1)) =>
      var (ty, r2) := if Peek(r1, Colon) && ParseHost(r1[1..], AType).Ok?
        then (Some(r1[1]), r1[2..]) else (None, r1);
      if Peek(r1, Colon) && ParseHost(r1[1..], AType).Err? then Err(Expected(AType))
      else
        var (init, r3) := if Peek(r2, Eq) && ParseHost(r2[1..], AnExpression).Ok?
          then (Some(r2[1]), r2[2..]) else (None, r2);
        if Peek(r2, Eq) && ParseHost(r2[1..], AnExpression).Err? then Err(Expected(AnExpression))
        else if !Peek(r3, Semi) then Err(Expected(Punct(Semi)))
        else Ok((Let(pattern, ty, init), r3[1..]))
  }

  // ---------------------------------------------------------------------------------------
  // Recursive forms

  /** `Node::parse`: dispatch on the leading token. */
  function ParseNode(ts: seq<Token>): (r: Parsed<Node>)
    ensures r.Ok? ==> ProperSuffix(r.value.1, ts) && WellFormed(r.value.0)
    decreases SizeSeq(ts), 2
  {
    if ts != [] && ts[0].LitStr? then Ok((Text(ts[0].value), ts[1..]))
    else if ts != [] && ts[0].Paren? then
      match ParseWholeHost(ts[0].inner)
      case Err(e) => Err(e)
      case Ok(e) => Ok((Expression(e), ts[1..]))
    else if Peek(ts, Pound) then ParsePound(ts)
    else if PeekKeyword(ts, "let") then ParseLet(ts)
    else if PeekKeyword(ts, "if") then
      match ParseIf(ts)
      case Err(e) => Err(e)
      case Ok((c, rest)) => Ok((If(c), rest))
    else if PeekKeyword(ts, "for") then ParseFor(ts)
    else if PeekKeyword(ts, "match") then ParseMatch(ts)
    else if Peek(ts, At) then
      if |ts| >= 2 && ts[1].Paren? then
        match ParseWholeHost(ts[1].inner)
        case Err(e) => Err(e)
        case Ok(e) => Ok((HtmlDisplay(e), ts[2..]))
      else ParseComponent(ts)
    else ParseElement(ts)
  }

  /** The contents of a braced group, node after node until it is used up. */
  function ParseNodes(content: seq<Token>): (r: Result<seq<Node>, SyntaxError>)
    ensures r.Ok? ==> AllWellFormed(r.value)
    ensures content == [] ==> r == Ok([])
    decreases SizeSeq(content), 3
  {
    if content == [] then Ok([])
    else match ParseNode(content)
      case Err(e) => Err(e)
      case Ok((n, rest)) =>
        SuffixIsSmaller(rest, content);
        match ParseNodes(rest)
        case Err(e) => Err(e)
        case Ok(more) => Ok([n] + more)
  }

  /** The nodes of the braced group at the front of `ts`, or the missing-braces error. */
  function ParseBlock(ts: seq<Token>): (r: Parsed<seq<Node>>)
    ensures r.Ok? ==> ts != [] && ts[0].Brace? && r.value.1 == ts[1..]
    ensures (ts == [] || !ts[0].Brace?) ==> r == Err(Expected(CurlyBraces))
    ensures r.Ok? ==> AllWellFormed(r.value.0)
    decreases SizeSeq(ts), 4
  {
    if ts == [] || !ts[0].Brace? then Err(Expected(CurlyBraces))
    else
      GroupIsSmaller(ts);
      match ParseNodes(ts[0].inner)
      case Err(e) => Err(e)
      case Ok(ns) => Ok((ns, ts[1..]))
  }

  /** The two tokens that start an else branch: `@ else`. */
  predicate HasElse(ts: seq<Token>) {
    |ts| >= 2 && ts[0] == At && ts[1] == Ident("else")
  }

  /** `parse_if_condition`: `if`, a condition, a braced then-branch, and `@else` followed by an
      else branch when those two tokens come next. */
  function ParseIf(ts: seq<Token>): (r: Parsed<IfCond>)
    ensures r.Ok? ==> ProperSuffix(r.value.1, ts) && WellFormedIf(r.value.0)
    ensures !PeekKeyword(ts, "if") ==> r == Err(Expected(Keyword("if")))
    ensures r.Ok? ==> |ts| >= 3 && r.value.0.condition == ts[1] && ts[2].Brace?
    ensures r.Ok? ==> (r.value.0.elseBranch.Some? <==> HasElse(ts[3..]))
    ensures r.Ok? && r.value.0.elseBranch.None? ==> r.value.1 == ts[3..]
    decreases SizeSeq(ts), 0
  {
    if !PeekKeyword(ts, "if") then Err(Expected(Keyword("if")))
    else if ParseHost(ts[1..], AnExpression).Err? then Err(Expected(AnExpression))
    else if |ts| < 3 || !ts[2].Brace? then Err(Expected(CurlyBraces))
    else
      SuffixIsSmaller(ts[2..], ts);
      GroupIsSmaller(ts[2..]);
      match ParseNodes(ts[2].inner)
      case Err(e) => Err(e)
      case Ok(thenBranch) =>
        if HasElse(ts[3..]) then
          SuffixIsSmaller(ts[5..], ts);
          match ParseElse(ts[5..])
          case Err(e) => Err(e)
          case Ok((e, rest)) => Ok((IfCond(ts[1], thenBranch, Some(e)), rest))
        else Ok((IfCond(ts[1], thenBranch, None), ts[3..]))
  }

  /** `parse_else_branch`: another `if`, or a braced block. */
  function ParseElse(ts: seq<Token>): (r: Parsed<ElseBranch>)
    ensures r.Ok? ==> ProperSuffix(r.value.1, ts)
    ensures r.Ok? ==> match r.value.0
      case ElseIf(inner) => WellFormedIf(inner)
      case Else(nodes) => AllWellFormed(nodes)
    ensures r.Ok? ==> (r.value.0.ElseIf? <==> PeekKeyword(ts, "if"))
    decreases SizeSeq(ts), 1
  {
    if PeekKeyword(ts, "if") then
      match ParseIf(ts)
      case Err(e) => Err(e)
      case Ok((c, rest)) => Ok((ElseIf(c), rest))
    else if ts == [] || !ts[0].Brace? then Err(Expected(CurlyBraces))
    else
      GroupIsSmaller(ts);
      match ParseNodes(ts[0].inner)
      case Err(e) => Err(e)
      case Ok(nodes) => Ok((Else(nodes), ts[1..]))
  }

  /** `for pattern in expr { body }` */
  function ParseFor(ts: seq<Token>): (r: Parsed<Node>)
    requires PeekKeyword(ts, "for")
    ensures r.Ok? ==> ProperSuffix(r.value.1, ts) && WellFormed(r.value.0) && r.value.0.For?
    decreases SizeSeq(ts), 0
  {
    match ParseHost(ts[1..], APattern)
    case Err(e) => Err(e)
    case Ok((pattern, r1)) =>
      if !PeekKeyword(r1, "in") then Err(Expected(Keyword("in")))
      else match ParseHost(r1[1..], AnExpression)
        case Err(e) => Err(e)
        case Ok((iter, r2)) =>
          if r2 == [] || !r2[0].Brace? then Err(Expected(CurlyBraces))
          else
            SuffixIsSmaller(r2, ts);
            GroupIsSmaller(r2);
            match ParseNodes(r2[0].inner)
            case Err(e) => Err(e)
            case Ok(body) => Ok((For(pattern, iter, body), r2[1..]))
  }

  /** `match expr { arms }` */
  function ParseMatch(ts: seq<Token>): (r: Parsed<Node>)
    requires PeekKeyword(ts, "match")
    ensures r.Ok? ==> ProperSuffix(r.value.1, ts) && WellFormed(r.value.0) && r.value.0.Match?
    ensures r.Ok? ==> |ts| >= 3 && r.value.0.scrutinee == ts[1] && r.value.1 == ts[3..]
    decreases SizeSeq(ts), 0
  {
    match ParseHost(ts[1..], AnExpression)
    case Err(e) => Err(e)
    case Ok((scrutinee, r1)) =>
      if r1 == [] || !r1[0].Brace? then Err(Expected(CurlyBraces))
      else
        SuffixIsSmaller(r1, ts);
        GroupIsSmaller(r1);
        match ParseArms(r1[0].inner)
        case Err(e) => Err(e)
        case Ok(arms) => Ok((Match(scrutinee, arms), r1[1..]))
  }

  /** The arms of a `match`, in source order, until the braces are used up. */
  function ParseArms(content: seq<Token>): (r: Result<seq<Arm>, SyntaxError>)
    ensures r.Ok? ==> AllArmsWellFormed(r.value)
    decreases SizeSeq(content), 1
  {
    if content == [] then Ok([])
    else match ParseArm(content)
      case Err(e) => Err(e)
      case Ok((arm, rest)) =>
        SuffixIsSmaller(rest, content);
        match ParseArms(rest)
        case Err(e) => Err(e)
        case Ok(more) =>
          ArmsCons(arm, more);
          Ok([arm] + more)
  }

  lemma ArmsCons(arm: Arm, more: seq<Arm>)
    requires AllWellFormed(arm.body) && AllArmsWellFormed(more)
    ensures AllArmsWellFormed([arm] + more)
  {
    forall i | 0 <= i < |[arm] + more| ensures AllWellFormed(([arm] + more)[i].body) {
      if i > 0 {
        assert ([arm] + more)[i] == more[i - 1];
      }
    }
  }

  /** Where the `=>` of an arm is: after the pattern, or after the pattern and an `if guard`. */
  function ArrowAt(ts: seq<Token>): nat {
    if |ts| >= 2 && ts[1] == Ident("if") then 3 else 1
  }

  /** `MatchArm::parse`: a pattern, an optional `if guard`, `=>`, then a braced block or a
      single node, then an optional comma. */
  function ParseArm(ts: seq<Token>): (r: Parsed<Arm>)
    ensures r.Ok? ==> ProperSuffix(r.value.1, ts) && AllWellFormed(r.value.0.body)
    ensures r.Ok? ==> |ts| > ArrowAt(ts) && ts[ArrowAt(ts)] == FatArrow && r.value.0.pattern == ts[0]
    ensures r.Ok? ==> (r.value.0.guard.Some? <==> ts[1] == Ident("if"))
    ensures r.Ok? && r.value.0.guard.Some? ==> r.value.0.guard.value == ts[2]
    decreases SizeSeq(ts), 0
  {
    if ParseHost(ts, APattern).Err? then Err(Expected(APattern))
    else
      var k := ArrowAt(ts);
      if k == 3 && ParseHost(ts[2..], AnExpression).Err? then Err(Expected(AnExpression))
      else if !(|ts| > k && ts[k] == FatArrow) then Err(Expected(Punct(FatArrow)))
      else
        SuffixIsSmaller(ts[k + 1..], ts);
        match ArmBody(ts[k + 1..])
        case Err(e) => Err(e)
        case Ok((nodes, after)) =>
          TailSuffix(after, ts, k + 1);
          var guard := if k == 3 then Some(ts[2]) else None;
          Ok((Arm(ts[0], guard, nodes), if Peek(after, Comma) then after[1..] else after))
  }

  /** The body of an arm: the nodes of a braced block, or exactly one node. */
  function ArmBody(ts: seq<Token>): (r: Parsed<seq<Node>>)
    ensures r.Ok? ==> ProperSuffix(r.value.1, ts) && AllWellFormed(r.value.0)
    ensures ts != [] && ts[0].Brace? ==> r == ParseBlock(ts)
    ensures (ts == [] || !ts[0].Brace?) && r.Ok? ==>
      |r.value.0| == 1 && ParseNode(ts) == Ok((r.value.0[0], r.value.1))
    decreases SizeSeq(ts), 5
  {
    if ts != [] && ts[0].Brace? then ParseBlock(ts)
    else
      match ParseNode(ts)
      case Err(e) => Err(e)
      case Ok((n, rest)) => Ok(([n], rest))
  }

  /** `@path`, an optional parenthesised `fields ; attributes` list, and a required block. */
  function ParseComponent(ts: seq<Token>): (r: Parsed<Node>)
    ensures r.Ok? ==> ProperSuffix(r.value.1, ts) && WellFormed(r.value.0) && r.value.0.Component?
    ensures r.Ok? ==> |ts| >= 2 && ts[0] == At && r.value.0.path == ts[1]
    ensures r.Ok? && !(|ts| >= 3 && ts[2].Paren?) ==> r.value.0.fields == [] && r.value.0.attributes == []
    decreases SizeSeq(ts), 0
  {
    if !Peek(ts, At) then Err(Expected(Punct(At)))
    else match ParseHost(ts[1..], APath)
      case Err(e) => Err(e)
      case Ok((path, r1)) =>
        var args := if r1 != [] && r1[0].Paren? then ParseCallArgs(r1[0].inner) else Ok(([], []));
        var r2 := if r1 != [] && r1[0].Paren? then r1[1..] else r1;
        match args
        case Err(e) => Err(e)
        case Ok((fields, attributes)) =>
          if r2 == [] || !r2[0].Brace? then Err(Expected(CurlyBraces))
          else
            SuffixIsSmaller(r2, ts);
            GroupIsSmaller(r2);
            match ParseNodes(r2[0].inner)
            case Err(e) => Err(e)
            case Ok(children) => Ok((Component(path, fields, attributes, children), r2[1..]))
  }

  /** `parse` of an element: a kebab-cased name, attributes in optional parentheses, then `;`
      for a void element or a braced body for any other. */
  function ParseElement(ts: seq<Token>): (r: Parsed<Node>)
    ensures r.Ok? ==> ProperSuffix(r.value.1, ts) && WellFormed(r.value.0) && r.value.0.Element?
    ensures !PeekAnyIdent(ts) ==> r == Err(Expected(AnIdentifier))
    ensures r.Ok? ==> r.value.0.name == KebabCase(ts[0].name)
    ensures r.Ok? && !(|ts| >= 2 && ts[1].Paren?) ==> r.value.0.attributes == []
    decreases SizeSeq(ts), 0
  {
    if !PeekAnyIdent(ts) then Err(Expected(AnIdentifier))
    else
      var name := KebabCase(ts[0].name);
      KebabIsKebab(ts[0].name);
      var isVoid := name in VoidElements.Names;
      var r1 := ts[1..];
      var parsed := if r1 != [] && r1[0].Paren? then ParseElementAttributes(r1[0].inner) else Ok([]);
      var r2 := if r1 != [] && r1[0].Paren? then r1[1..] else r1;
      match parsed
      case Err(e) => Err(e)
      case Ok(attributes) =>
        if isVoid then
          if !Peek(r2, Semi) then Err(ExpectedSemiAfterVoid)
          else Ok((Element(name, true, attributes, []), r2[1..]))
        else if r2 == [] || !r2[0].Brace? then Err(ExpectedElementBody)
        else
          SuffixIsSmaller(r2, ts);
          GroupIsSmaller(r2);
          match ParseNodes(r2[0].inner)
          case Err(e) => Err(e)
          case Ok(children) => Ok((Element(name, false, attributes, children), r2[1..]))
  }

  // ---------------------------------------------------------------------------------------
  // Lists inside parentheses

  /** The attributes inside an element's parentheses, each optionally followed by a comma. */
  function ParseElementAttributes(content: seq<Token>): (r: Result<seq<Attribute>, SyntaxError>)
    ensures content == [] ==> r == Ok([])
    decreases |content|
  {
    if content == [] then Ok([])
    else match ParseAttribute(content)
      case Err(e) => Err(e)
      case Ok((a, r1)) =>
        var r2 := if Peek(r1, Comma) then r1[1..] else r1;
        match ParseElementAttributes(r2)
        case Err(e) => Err(e)
        case Ok(more) => Ok([a] + more)
  }

  /** `ComponentCallField::parse`: a non-keyword identifier, `:`, an expression. */
  function ParseField(ts: seq<Token>): (r: Parsed<Field>)
    ensures r.Ok? <==> PeekIdent(ts) && |ts| >= 3 && ts[1] == Colon && IsHostToken(ts[2])
    ensures r.Ok? ==> r.value == (Field(ts[0].name, ts[2]), ts[3..])
  {
    if !PeekIdent(ts) then Err(Expected(AnIdentifier))
    else if !Peek(ts[1..], Colon) then Err(Expected(Punct(Colon)))
    else match ParseHost(ts[2..], AnExpression)
      case Err(e) => Err(e)
      case Ok((value, rest)) => Ok((Field(ts[0].name, value), rest))
  }

  /** The field loop: fields separated by `,`; a `;` ends the fields; anything else after a
      field is an error. */
  function ParseFields(content: seq<Token>): (r: Parsed<seq<Field>>)
    ensures r.Ok? ==> Suffix(r.value.1, content)
    ensures content == [] ==> r == Ok(([], []))
    decreases |content|
  {
    if content == [] then Ok(([], []))
    else match ParseField(content)
      case Err(e) => Err(e)
      case Ok((f, r1)) =>
        if Peek(r1, Comma) then
          match ParseFields(r1[1..])
          case Err(e) => Err(e)
          case Ok((more, r2)) => Ok(([f] + more, r2))
        else if Peek(r1, Semi) then Ok(([f], r1[1..]))
        else if r1 != [] then Err(ExpectedFieldSeparator)
        else Ok(([f], r1))
  }

  /** The attribute loop of a component call: attributes separated by `,`. */
  function ParseCallAttributes(content: seq<Token>): (r: Result<seq<Attribute>, SyntaxError>)
    ensures content == [] ==> r == Ok([])
    decreases |content|
  {
    if content == [] then Ok([])
    else match ParseAttribute(content)
      case Err(e) => Err(e)
      case Ok((a, r1)) =>
        if Peek(r1, Comma) then
          match ParseCallAttributes(r1[1..])
          case Err(e) => Err(e)
          case Ok(more) => Ok([a] + more)
        else if r1 != [] then Err(ExpectedAttributeSeparator)
        else Ok([a])
  }

  /** The parenthesised arguments of a component call: a leading `;` means no fields. */
  function ParseCallArgs(content: seq<Token>): (r: Result<(seq<Field>, seq<Attribute>), SyntaxError>)
    ensures Peek(content, Semi) ==> (r.Ok? <==> ParseCallAttributes(content[1..]).Ok?)
    ensures Peek(content, Semi) && r.Ok? ==> r.value == ([], ParseCallAttributes(content[1..]).value)
    ensures content == [] ==> r == Ok(([], []))
  {
    if Peek(content, Semi) then
      match ParseCallAttributes(content[1..])
      case Err(e) => Err(e)
      case Ok(attrs) => Ok(([], attrs))
    else
      match ParseFields(content)
      case Err(e) => Err(e)
      case Ok((fields, rest)) =>
        match ParseCallAttributes(rest)
        case Err(e) => Err(e)
        case Ok(attrs) => Ok((fields, attrs))
  }

  // ---------------------------------------------------------------------------------------
  // The grammar, rule by rule

  /** The leading token decides the form: a string is text, a parenthesised group an
      expression, `@(...)` a display, `@` otherwise a component call, and the keywords `let`,
      `if`, `for` and `match` their own forms; anything else is an element. */
  lemma NodeDispatch(ts: seq<Token>)
    requires ts != []
    ensures ts[0].LitStr? ==> ParseNode(ts) == Ok((Text(ts[0].value), ts[1..]))
    ensures ts[0].Paren? ==> (ParseNode(ts).Ok? <==> ParseWholeHost(ts[0].inner).Ok?)
    ensures ts[0].Paren? && ParseNode(ts).Ok? ==>
      ParseNode(ts).value == (Expression(ts[0].inner[0]), ts[1..])
    ensures ts[0] == Pound ==> ParseNode(ts) == ParsePound(ts)
  {
  }

  /** The keywords `let`, `if`, `for` and `match` lead to their own forms. */
  lemma LetDispatch(ts: seq<Token>)
    requires ts != [] && ts[0] == Ident("let")
    ensures ParseNode(ts) == ParseLet(ts)
  {
  }

  lemma IfDispatch(ts: seq<Token>)
    requires ts != [] && ts[0] == Ident("if")
    ensures ParseNode(ts).Ok? <==> ParseIf(ts).Ok?
    ensures ParseNode(ts).Ok? ==> ParseNode(ts).value == (If(ParseIf(ts).value.0), ParseIf(ts).value.1)
  {
  }

  lemma ForDispatch(ts: seq<Token>)
    requires ts != [] && ts[0] == Ident("for")
    ensures ParseNode(ts) == ParseFor(ts)
  {
  }

  lemma MatchDispatch(ts: seq<Token>)
    requires ts != [] && ts[0] == Ident("match")
    ensures ParseNode(ts) == ParseMatch(ts)
  {
  }

  /** `@(...)` is a display and `@` otherwise a component call. */
  lemma AtDispatch(ts: seq<Token>)
    requires ts != [] && ts[0] == At
    ensures |ts| >= 2 && ts[1].Paren? ==> (ParseNode(ts).Ok? <==> ParseWholeHost(ts[1].inner).Ok?)
    ensures |ts| >= 2 && ts[1].Paren? && ParseNode(ts).Ok? ==>
      ParseNode(ts).value == (HtmlDisplay(ts[1].inner[0]), ts[2..])
    ensures !(|ts| >= 2 && ts[1].Paren?) ==> ParseNode(ts) == ParseComponent(ts)
  {
    assert !PeekKeyword(ts, "let") && !PeekKeyword(ts, "if") && !PeekKeyword(ts, "for") && !PeekKeyword(ts, "match");
    assert !Peek(ts, Pound) && Peek(ts, At);
  }

  lemma ElementDispatch(ts: seq<Token>)
    requires ts != [] && !(ts[0].LitStr? || ts[0].Paren? || ts[0] == Pound || ts[0] == At)
    requires ts[0] !in [Ident("let"), Ident("if"), Ident("for"), Ident("match")]
    ensures ParseNode(ts) == ParseElement(ts)
  {
    assert !PeekKeyword(ts, "let") && !PeekKeyword(ts, "if") && !PeekKeyword(ts, "for") && !PeekKeyword(ts, "match");
    assert !Peek(ts, Pound) && !Peek(ts, At);
  }

  /** The then-branch of an `if` is the nodes of its block, and its else branch is what
      follows `@ else`. */
  lemma IfShape(ts: seq<Token>, c: IfCond, rest: seq<Token>)
    requires ParseIf(ts) == Ok((c, rest))
    ensures ParseNodes(ts[2].inner) == Ok(c.thenBranch)
    ensures c.elseBranch.Some? ==> ParseElse(ts[5..]) == Ok((c.elseBranch.value, rest))
  {
  }

  /** `@else if` continues the chain with a nested `if`; `@else { ... }` ends it with a block. */
  lemma ElseShape(ts: seq<Token>, e: ElseBranch, rest: seq<Token>)
    requires ParseElse(ts) == Ok((e, rest))
    ensures e.ElseIf? ==> ParseIf(ts) == Ok((e.inner, rest))
    ensures e.Else? ==> ts[0].Brace? && ParseNodes(ts[0].inner) == Ok(e.nodes) && rest == ts[1..]
  {
  }

  /** A match arm's body is the block's nodes, or exactly one node, and one trailing comma is
      consumed with it. */
  lemma ArmShape(ts: seq<Token>, arm: Arm, rest: seq<Token>)
    requires ParseArm(ts) == Ok((arm, rest))
    ensures ArmBody(ts[ArrowAt(ts) + 1..]).Ok?
    ensures arm.body == ArmBody(ts[ArrowAt(ts) + 1..]).value.0
    ensures var after := ArmBody(ts[ArrowAt(ts) + 1..]).value.1;
      rest == if Peek(after, Comma) then after[1..] else after
  {
  }

  // ---------------------------------------------------------------------------------------
  // Component fields, printed and read back

  predicate ValidField(f: Field) {
    !IsKeyword(f.name) && IsHostToken(f.value)
  }

  function FieldTokens(f: Field): seq<Token> {
    [Ident(f.name), Colon, f.value]
  }

  /** Fields written as the grammar expects them: `name: value`, separated by commas. */
  function PrintFields(fs: seq<Field>): seq<Token>
    decreases |fs|
  {
    if fs == [] then []
    else if |fs| == 1 then FieldTokens(fs[0])
    else FieldTokens(fs[0]) + [Comma] + PrintFields(fs[1..])
  }

  lemma FieldBack(f: Field, rest: seq<Token>)
    requires ValidField(f)
    ensures ParseField(FieldTokens(f) + rest) == Ok((f, rest))
  {
    var ts := FieldTokens(f) + rest;
    assert ts[0] == Ident(f.name) && ts[1] == Colon && ts[2] == f.value;
    assert ts[3..] == rest;
  }

  /** Printed fields followed by `;` are read back exactly, leaving what follows the `;`. */
  lemma {:induction false} FieldsRoundTrip(fs: seq<Field>, rest: seq<Token>)
    requires fs != [] && forall i :: 0 <= i < |fs| ==> ValidField(fs[i])
    ensures ParseFields(PrintFields(fs) + [Semi] + rest) == Ok((fs, rest))
    decreases |fs|
  {
    var ts := PrintFields(fs) + [Semi] + rest;
    if |fs| == 1 {
      assert ts == FieldTokens(fs[0]) + ([Semi] + rest);
      FieldBack(fs[0], [Semi] + rest);
      assert ([Semi] + rest)[1..] == rest;
      assert [fs[0]] == fs;
    } else {
      var tail := PrintFields(fs[1..]) + [Semi] + rest;
      assert ts == FieldTokens(fs[0]) + ([Comma] + tail);
      FieldBack(fs[0], [Comma] + tail);
      assert ([Comma] + tail)[1..] == tail;
      FieldsRoundTrip(fs[1..], rest);
      assert [fs[0]] + fs[1..] == fs;
    }
  }

  /** A `;` after the fields hands everything after it to the attribute list. */
  lemma CallArgsSplit(fs: seq<Field>, attrs: seq<Token>)
    requires fs != [] && forall i :: 0 <= i < |fs| ==> ValidField(fs[i])
    ensures ParseCallAttributes(attrs).Ok? ==>
      ParseCallArgs(PrintFields(fs) + [Semi] + attrs) == Ok((fs, ParseCallAttributes(attrs).value))
    ensures ParseCallAttributes(attrs).Err? ==>
      ParseCallArgs(PrintFields(fs) + [Semi] + attrs) == Err(ParseCallAttributes(attrs).error)
  {
    FieldsRoundTrip(fs, attrs);
    var content := PrintFields(fs) + [Semi] + attrs;
    assert content[0] == Ident(fs[0].name);
  }

  // ---------------------------------------------------------------------------------------
  // Printing trees back to tokens

  /** The keywords that start the control forms, which therefore cannot name an element. */
  predicate IsFormKeyword(name: string) {
    name == "let" || name == "if" || name == "for" || name == "match"
  }

  /** A tree the printer can write back: host expressions, patterns, types and paths are single
      host tokens of the right kind, fields are valid, and an element's name is already kebab
      case and is not a form keyword, since the printer writes it as one identifier. */
  predicate Printable(n: Node)
    decreases n
  {
    match n
    case Text(_) => true
    case Expression(e) => IsHostToken(e)
    case RawExpression(e) => IsHostToken(e)
    case Doctype => true
    case Children => true
    case Let(p, ty, init) =>
      && IsHostTokenFor(p, APattern)
      && (ty.Some? ==> IsHostTokenFor(ty.value, AType))
      && (init.Some? ==> IsHostToken(init.value))
    case If(c) => PrintableIf(c)
    case For(p, iter, body) => IsHostTokenFor(p, APattern) && IsHostToken(iter) && AllPrintable(body)
    case Match(scrutinee, arms) => IsHostToken(scrutinee) && AllArmsPrintable(arms)
    case Component(path, fields, attributes, children) =>
      && IsHostTokenFor(path, APath)
      && (forall i :: 0 <= i < |fields| ==> ValidField(fields[i]))
      && (forall i :: 0 <= i < |attributes| ==> PrintableAttribute(attributes[i]))
      && AllPrintable(children)
    case HtmlDisplay(e) => IsHostToken(e)
    case Element(name, isVoid, attributes, children) =>
      && IsKebab(name)
      && !IsFormKeyword(name)
      && (isVoid <==> name in VoidElements.Names)
      && (isVoid ==> children == [])
      && (forall i :: 0 <= i < |attributes| ==> PrintableAttribute(attributes[i]))
      && AllPrintable(children)
  }

  predicate AllPrintable(ns: seq<Node>)
    decreases ns
  {
    forall i :: 0 <= i < |ns| ==> Printable(ns[i])
  }

  predicate PrintableIf(c: IfCond)
    decreases c
  {
    && IsHostToken(c.condition)
    && AllPrintable(c.thenBranch)
    && match c.elseBranch
       case None => true
       case Some(ElseIf(inner)) => PrintableIf(inner)
       case Some(Else(nodes)) => AllPrintable(nodes)
  }

  predicate PrintableArm(arm: Arm)
    decreases arm
  {
    && IsHostTokenFor(arm.pattern, APattern)
    && (arm.guard.Some? ==> IsHostToken(arm.guard.value))
    && AllPrintable(arm.body)
  }

  predicate AllArmsPrintable(arms: seq<Arm>)
    decreases arms
  {
    forall i :: 0 <= i < |arms| ==> PrintableArm(arms[i])
  }

  /** `t` and the optional token after it, or nothing. */
  function OptionalPair(t: Token, o: Option<Token>): seq<Token> {
    if o.Some? then [t, o.value] else []
  }

  /** Attributes separated by commas, as both parenthesised lists accept them. */
  function PrintAttributeList(attrs: seq<Attribute>): seq<Token>
    decreases |attrs|
  {
    if attrs == [] then []
    else if |attrs| == 1 then PrintAttribute(attrs[0])
    else PrintAttribute(attrs[0]) + [Comma] + PrintAttributeList(attrs[1..])
  }

  /** The contents of a component call's parentheses: `fields ; attributes`, or `; attributes`
      when there are no fields. */
  function PrintCallArgs(fields: seq<Field>, attributes: seq<Attribute>): seq<Token> {
    PrintFields(fields) + [Semi] + PrintAttributeList(attributes)
  }

  /** The tokens of a node. */
  function PrintNode(n: Node): (ts: seq<Token>)
    ensures ts != []
    decreases n
  {
    match n
    case Text(s) => [LitStr(s)]
    case Expression(e) => [Paren([e])]
    case RawExpression(e) => [Pound, Paren([e])]
    case Doctype => [Pound, Ident("doctype")]
    case Children => [Pound, Ident("children")]
    case Let(p, ty, init) => [Ident("let"), p] + OptionalPair(Colon, ty) + OptionalPair(Eq, init) + [Semi]
    case If(c) => PrintIf(c)
    case For(p, iter, body) => [Ident("for"), p, Ident("in"), iter, Brace(PrintNodes(body))]
    case Match(scrutinee, arms) => [Ident("match"), scrutinee, Brace(PrintArms(arms))]
    case Component(path, fields, attributes, children) =>
      [At, path]
      + (if fields == [] && attributes == [] then [] else [Paren(PrintCallArgs(fields, attributes))])
      + [Brace(PrintNodes(children))]
    case HtmlDisplay(e) => [At, Paren([e])]
    case Element(name, isVoid, attributes, children) =>
      [Ident(name)]
      + (if attributes == [] then [] else [Paren(PrintAttributeList(attributes))])
      + (if isVoid then [Semi] else [Brace(PrintNodes(children))])
  }

  function PrintNodes(ns: seq<Node>): seq<Token>
    decreases ns
  {
    if ns == [] then [] else PrintNode(ns[0]) + PrintNodes(ns[1..])
  }

  /** `if cond { ... }`, then `@ else` and the else branch when there is one. */
  function PrintIf(c: IfCond): (ts: seq<Token>)
    ensures |ts| >= 3 && ts[0] == Ident("if")
    decreases c
  {
    [Ident("if"), c.condition, Brace(PrintNodes(c.thenBranch))]
    + match c.elseBranch
      case None => []
      case Some(ElseIf(inner)) => [At, Ident("else")] + PrintIf(inner)
      case Some(Else(nodes)) => [At, Ident("else"), Brace(PrintNodes(nodes))]
  }

  /** `pattern (if guard)? => { body }`, with no comma after it. */
  function PrintArm(arm: Arm): seq<Token>
    decreases arm
  {
    [arm.pattern] + OptionalPair(Ident("if"), arm.guard) + [FatArrow, Brace(PrintNodes(arm.body))]
  }

  function PrintArms(arms: seq<Arm>): seq<Token>
    decreases arms
  {
    if arms == [] then [] else PrintArm(arms[0]) + PrintArms(arms[1..])
  }

  /** The first attribute of a printed list is read back, and leaves the comma and the rest. */
  lemma ListHead(attrs: seq<Attribute>)
    requires |attrs| >= 2 && PrintableAttribute(attrs[0])
    ensures var more := [Comma] + PrintAttributeList(attrs[1..]);
      ParseAttribute(PrintAttributeList(attrs)) == Ok((attrs[0], more))
  {
    var more := [Comma] + PrintAttributeList(attrs[1..]);
    Associate(PrintAttribute(attrs[0]), [Comma], PrintAttributeList(attrs[1..]));
    AttributeThen(attrs[0], more);
  }

  lemma ListLast(a: Attribute)
    requires PrintableAttribute(a)
    ensures ParseAttribute(PrintAttributeList([a])) == Ok((a, []))
  {
    assert PrintAttributeList([a]) == PrintAttribute(a) + [];
    AttributeThen(a, []);
  }

  /** An element's printed attribute list is read back in order. */
  lemma {:induction false} ElementAttributesRoundTrip(attrs: seq<Attribute>)
    requires forall i :: 0 <= i < |attrs| ==> PrintableAttribute(attrs[i])
    ensures ParseElementAttributes(PrintAttributeList(attrs)) == Ok(attrs)
    decreases |attrs|
  {
    if |attrs| == 1 {
      ListLast(attrs[0]);
      ElementAttributesCons(PrintAttributeList(attrs), attrs[0], [], [], attrs);
    } else if |attrs| >= 2 {
      ListHead(attrs);
      ElementAttributesRoundTrip(attrs[1..]);
      var list := PrintAttributeList(attrs[1..]);
      ElementAttributesCons(PrintAttributeList(attrs), attrs[0], [Comma] + list, attrs[1..], attrs);
    }
  }

  /** One step of an element's attribute loop: an attribute, an optional comma, the others. */
  lemma ElementAttributesCons(ts: seq<Token>, a: Attribute, after: seq<Token>, more: seq<Attribute>, attrs: seq<Attribute>)
    requires ParseAttribute(ts) == Ok((a, after))
    requires ParseElementAttributes(if Peek(after, Comma) then after[1..] else after) == Ok(more)
    requires attrs == [a] + more
    ensures ParseElementAttributes(ts) == Ok(attrs)
  {
  }

  /** A component call's printed attribute list is read back in order. */
  lemma {:induction false} CallAttributesRoundTrip(attrs: seq<Attribute>)
    requires forall i :: 0 <= i < |attrs| ==> PrintableAttribute(attrs[i])
    ensures ParseCallAttributes(PrintAttributeList(attrs)) == Ok(attrs)
    decreases |attrs|
  {
    if |attrs| == 1 {
      ListLast(attrs[0]);
      CallAttributesLast(PrintAttributeList(attrs), attrs[0], attrs);
    } else if |attrs| >= 2 {
      ListHead(attrs);
      CallAttributesRoundTrip(attrs[1..]);
      var list := PrintAttributeList(attrs[1..]);
      CallAttributesCons(PrintAttributeList(attrs), attrs[0], list, attrs[1..], attrs);
    }
  }

  lemma CallAttributesCons(ts: seq<Token>, a: Attribute, list: seq<Token>, more: seq<Attribute>, attrs: seq<Attribute>)
    requires ParseAttribute(ts) == Ok((a, [Comma] + list))
    requires ParseCallAttributes(list) == Ok(more)
    requires attrs == [a] + more
    ensures ParseCallAttributes(ts) == Ok(attrs)
  {
    assert ([Comma] + list)[1..] == list;
  }

  lemma CallAttributesLast(ts: seq<Token>, a: Attribute, attrs: seq<Attribute>)
    requires ParseAttribute(ts) == Ok((a, [])) && attrs == [a]
    ensures ParseCallAttributes(ts) == Ok(attrs)
  {
  }

  /** A component call's printed arguments are read back: fields, then attributes. */
  lemma CallArgsRoundTrip(fields: seq<Field>, attributes: seq<Attribute>)
    requires forall i :: 0 <= i < |fields| ==> ValidField(fields[i])
    requires forall i :: 0 <= i < |attributes| ==> PrintableAttribute(attributes[i])
    ensures ParseCallArgs(PrintCallArgs(fields, attributes)) == Ok((fields, attributes))
  {
    var list := PrintAttributeList(attributes);
    CallAttributesRoundTrip(attributes);
    if fields == [] {
      AttributesOnlyArgs(attributes, list);
    } else {
      CallArgsSplit(fields, list);
    }
  }

  /** With no fields the arguments are `;` and the attribute list. */
  lemma AttributesOnlyArgs(attributes: seq<Attribute>, list: seq<Token>)
    requires list == PrintAttributeList(attributes) && ParseCallAttributes(list) == Ok(attributes)
    ensures ParseCallArgs(PrintCallArgs([], attributes)) == Ok(([], attributes))
  {
    assert PrintCallArgs([], attributes) == [Semi] + list;
    assert ([Semi] + list)[1..] == list;
  }

  // ---------------------------------------------------------------------------------------
  // Each form read back, given that the nodes inside it are

  lemma TextRoundTrip(s: string, rest: seq<Token>)
    ensures ParseNode(PrintNode(Text(s)) + rest) == Ok((Text(s), rest))
  {
    var ts := PrintNode(Text(s)) + rest;
    assert ts[0] == LitStr(s) && ts[1..] == rest;
  }

  lemma ExpressionRoundTrip(e: Token, rest: seq<Token>)
    requires IsHostToken(e)
    ensures ParseNode(PrintNode(Expression(e)) + rest) == Ok((Expression(e), rest))
  {
    var ts := PrintNode(Expression(e)) + rest;
    assert ts[0] == Paren([e]) && ts[1..] == rest;
  }

  lemma PoundRoundTrip(n: Node, rest: seq<Token>)
    requires (n.RawExpression? && IsHostToken(n.expr)) || n.Doctype? || n.Children?
    ensures ParseNode(PrintNode(n) + rest) == Ok((n, rest))
  {
    var ts := PrintNode(n) + rest;
    assert ts[0] == Pound && ts[2..] == rest;
    NodeDispatch(ts);
  }

  lemma DisplayRoundTrip(e: Token, rest: seq<Token>)
    requires IsHostToken(e)
    ensures ParseNode(PrintNode(HtmlDisplay(e)) + rest) == Ok((HtmlDisplay(e), rest))
  {
    var ts := PrintNode(HtmlDisplay(e)) + rest;
    assert ts[0] == At && ts[1] == Paren([e]) && ts[2..] == rest;
    AtDispatch(ts);
  }

  /** `let` with its optional type and initialiser. */
  lemma LetRoundTrip(n: Node, rest: seq<Token>)
    requires n.Let? && Printable(n)
    ensures ParseNode(PrintNode(n) + rest) == Ok((n, rest))
  {
    var ts := PrintNode(n) + rest;
    LetDispatch(ts);
    var r1 := LetPattern(n, ts, rest);
    HostReads(ts[1..], APattern);
    var r2 := LetType(n, r1, rest);
    LetInit(n, r2, rest);
    LetAssemble(n, ts, r1, r2, rest);
  }

  /** `ParseLet` read step by step over the pieces. */
  lemma {:induction false} LetAssemble(n: Node, ts: seq<Token>, r1: seq<Token>, r2: seq<Token>, rest: seq<Token>)
    requires n.Let? && IsHostTokenFor(n.pattern, APattern)
    requires |ts| >= 2 && ts[0] == Ident("let") && ParseHost(ts[1..], APattern) == Ok((n.pattern, r1))
    requires n.ty.Some? ==> |r1| >= 2 && Peek(r1, Colon) && ParseHost(r1[1..], AType) == Ok((n.ty.value, r1[2..])) && r1[2..] == r2
    requires n.ty.None? ==> !Peek(r1, Colon) && r1 == r2
    requires n.init.Some? ==> |r2| >= 2 && Peek(r2, Eq) && ParseHost(r2[1..], AnExpression) == Ok((n.init.value, r2[2..]))
    requires n.init.Some? ==> r2[2..] == [Semi] + rest
    requires n.init.None? ==> !Peek(r2, Eq) && r2 == [Semi] + rest
    requires ([Semi] + rest)[1..] == rest
    ensures ParseLet(ts) == Ok((n, rest))
  {
  }

  /** After `let` and the pattern: the optional type, the optional initialiser, `;`. */
  lemma LetPattern(n: Node, ts: seq<Token>, rest: seq<Token>) returns (r1: seq<Token>)
    requires n.Let? && ts == PrintNode(n) + rest
    ensures |ts| >= 2 && ts[0] == Ident("let") && ts[1..] != [] && ts[1..][0] == n.pattern && ts[1..][1..] == r1
    ensures r1 == OptionalPair(Colon, n.ty) + (OptionalPair(Eq, n.init) + ([Semi] + rest))
  {
    var a, b, c := [Ident("let"), n.pattern], OptionalPair(Colon, n.ty), OptionalPair(Eq, n.init);
    r1 := b + (c + ([Semi] + rest));
    assert PrintNode(n) == a + b + c + [Semi];
    Associate(a + b + c, [Semi], rest);
    Associate(a + b, c, [Semi] + rest);
    Associate(a, b, c + ([Semi] + rest));
    assert ts == a + r1;
  }

  lemma LetType(n: Node, r1: seq<Token>, rest: seq<Token>) returns (r2: seq<Token>)
    requires n.Let? && (n.ty.Some? ==> IsHostTokenFor(n.ty.value, AType))
    requires r1 == OptionalPair(Colon, n.ty) + (OptionalPair(Eq, n.init) + ([Semi] + rest))
    ensures r2 == OptionalPair(Eq, n.init) + ([Semi] + rest)
    ensures n.ty.Some? ==> |r1| >= 2 && Peek(r1, Colon) && ParseHost(r1[1..], AType) == Ok((n.ty.value, r1[2..])) && r1[2..] == r2
    ensures n.ty.None? ==> !Peek(r1, Colon) && r1 == r2
  {
    r2 := OptionalPair(Eq, n.init) + ([Semi] + rest);
    assert r2[0] == Eq || r2[0] == Semi;
    if n.ty.Some? {
      assert r1 == [Colon, n.ty.value] + r2;
      assert r1[1..][0] == n.ty.value && r1[1..][1..] == r2;
    }
  }

  lemma LetInit(n: Node, r2: seq<Token>, rest: seq<Token>)
    requires n.Let? && (n.init.Some? ==> IsHostToken(n.init.value))
    requires r2 == OptionalPair(Eq, n.init) + ([Semi] + rest)
    ensures n.init.Some? ==> |r2| >= 2 && Peek(r2, Eq) && ParseHost(r2[1..], AnExpression) == Ok((n.init.value, r2[2..]))
    ensures n.init.Some? ==> r2[2..] == [Semi] + rest
    ensures n.init.None? ==> !Peek(r2, Eq) && r2 == [Semi] + rest
    ensures ([Semi] + rest)[1..] == rest
  {
    if n.init.Some? {
      assert r2 == [Eq, n.init.value] + ([Semi] + rest);
      assert r2[1..][0] == n.init.value && r2[1..][1..] == [Semi] + rest;
    }
  }

  /** `for pattern in iter { body }`. */
  lemma ForRoundTrip(n: Node, rest: seq<Token>)
    requires n.For? && IsHostTokenFor(n.pattern, APattern) && IsHostToken(n.iter)
    requires ParseNodes(PrintNodes(n.body)) == Ok(n.body)
    ensures ParseNode(PrintNode(n) + rest) == Ok((n, rest))
  {
    var ts := ForLayout(n, rest);
    ForDispatch(ts);
    ForHosts(n, ts);
    ForAssemble(n, ts, PrintNodes(n.body), rest);
  }

  lemma ForLayout(n: Node, rest: seq<Token>) returns (ts: seq<Token>)
    requires n.For?
    ensures ts == PrintNode(n) + rest && |ts| >= 5
    ensures ts[0] == Ident("for") && ts[1] == n.pattern && ts[2] == Ident("in") && ts[3] == n.iter
    ensures ts[4] == Brace(PrintNodes(n.body)) && ts[5..] == rest
    ensures ts[1..][0] == n.pattern && ts[1..][1..] == ts[2..] && ts[2..][1..] == ts[3..]
    ensures ts[3..][0] == n.iter && ts[3..][1..] == ts[4..] && ts[4..][0] == ts[4] && ts[4..][1..] == rest
  {
    ts := PrintNode(n) + rest;
    DropAppend(PrintNode(n), rest, 5);
  }

  lemma ForAssemble(n: Node, ts: seq<Token>, inner: seq<Token>, rest: seq<Token>)
    requires n.For? && |ts| >= 5 && ts[0] == Ident("for") && ts[2] == Ident("in")
    requires ts[4] == Brace(inner) && ts[2..][1..] == ts[3..] && ts[4..][0] == ts[4] && ts[4..][1..] == rest
    requires ParseHost(ts[1..], APattern) == Ok((n.pattern, ts[2..]))
    requires ParseHost(ts[3..], AnExpression) == Ok((n.iter, ts[4..]))
    requires ParseNodes(inner) == Ok(n.body)
    ensures ParseFor(ts) == Ok((n, rest))
  {
    assert n == For(n.pattern, n.iter, n.body);
  }

  /** The loop's pattern and iterated expression are read as the host tokens they are. */
  lemma ForHosts(n: Node, ts: seq<Token>)
    requires n.For? && IsHostTokenFor(n.pattern, APattern) && IsHostToken(n.iter) && |ts| >= 5
    requires ts[1..][0] == n.pattern && ts[1..][1..] == ts[2..]
    requires ts[3..][0] == n.iter && ts[3..][1..] == ts[4..]
    ensures ParseHost(ts[1..], APattern) == Ok((n.pattern, ts[2..]))
    ensures ParseHost(ts[3..], AnExpression) == Ok((n.iter, ts[4..]))
  {
  }

  /** `match scrutinee { arms }`. */
  lemma MatchRoundTrip(n: Node, rest: seq<Token>)
    requires n.Match? && IsHostToken(n.scrutinee)
    requires ParseArms(PrintArms(n.arms)) == Ok(n.arms)
    ensures ParseNode(PrintNode(n) + rest) == Ok((n, rest))
  {
    var ts := MatchLayout(n, rest);
    MatchDispatch(ts);
    HostReads(ts[1..], AnExpression);
    MatchAssemble(n, ts, PrintArms(n.arms), rest);
  }

  /** A printed `match`: the keyword, the scrutinee, then the arms' block. */
  lemma MatchLayout(n: Node, rest: seq<Token>) returns (ts: seq<Token>)
    requires n.Match?
    ensures ts == PrintNode(n) + rest && |ts| >= 3 && ts[0] == Ident("match")
    ensures ts[1..] != [] && ts[1..][0] == n.scrutinee && ts[1..][1..] == ts[2..]
    ensures ts[2..] != [] && ts[2..][0] == Brace(PrintArms(n.arms)) && ts[2..][1..] == rest
  {
    ts := PrintNode(n) + rest;
    DropAppend(PrintNode(n), rest, 2);
  }

  lemma MatchAssemble(n: Node, ts: seq<Token>, inner: seq<Token>, rest: seq<Token>)
    requires n.Match? && |ts| >= 3 && PeekKeyword(ts, "match")
    requires ParseHost(ts[1..], AnExpression) == Ok((n.scrutinee, ts[2..]))
    requires ts[2..] != [] && ts[2..][0] == Brace(inner) && ts[2..][1..] == rest
    requires ParseArms(inner) == Ok(n.arms)
    ensures ParseMatch(ts) == Ok((n, rest))
  {
    assert n == Match(n.scrutinee, n.arms);
  }

  /** `@path`, the parenthesised arguments when there are any, and the children's block. */
  lemma ComponentRoundTrip(n: Node, rest: seq<Token>)
    requires n.Component? && IsHostTokenFor(n.path, APath)
    requires forall i :: 0 <= i < |n.fields| ==> ValidField(n.fields[i])
    requires forall i :: 0 <= i < |n.attributes| ==> PrintableAttribute(n.attributes[i])
    requires ParseNodes(PrintNodes(n.children)) == Ok(n.children)
    ensures ParseNode(PrintNode(n) + rest) == Ok((n, rest))
  {
    var ts, r1, r2 := ComponentLayout(n, rest);
    AtDispatch(ts);
    HostReads(ts[1..], APath);
    if n.fields != [] || n.attributes != [] {
      CallArgsRoundTrip(n.fields, n.attributes);
    }
    ComponentAssemble(n, ts, r1, r2, PrintNodes(n.children), rest);
  }

  /** A printed component call: `@`, the path, the arguments' group when there are any, then the
      children's block. */
  lemma ComponentLayout(n: Node, rest: seq<Token>) returns (ts: seq<Token>, r1: seq<Token>, r2: seq<Token>)
    requires n.Component?
    ensures ts == PrintNode(n) + rest
    ensures |ts| >= 2 && ts[0] == At && ts[1] == n.path && ts[1..][0] == n.path && ts[1..][1..] == r1
    ensures r2 == [Brace(PrintNodes(n.children))] + rest && r2[0] == Brace(PrintNodes(n.children)) && r2[1..] == rest
    ensures n.fields == [] && n.attributes == [] ==> r1 == r2
    ensures !(n.fields == [] && n.attributes == []) ==>
      r1 != [] && r1[0] == Paren(PrintCallArgs(n.fields, n.attributes)) && r1[1..] == r2
  {
    var args := if n.fields == [] && n.attributes == [] then [] else [Paren(PrintCallArgs(n.fields, n.attributes))];
    r2 := [Brace(PrintNodes(n.children))] + rest;
    r1 := args + r2;
    ts := PrintNode(n) + rest;
    Associate([At, n.path] + args, [Brace(PrintNodes(n.children))], rest);
    Associate([At, n.path], args, r2);
    assert ts == [At, n.path] + r1;
  }

  lemma ComponentAssemble(n: Node, ts: seq<Token>, r1: seq<Token>, r2: seq<Token>, inner: seq<Token>, rest: seq<Token>)
    requires n.Component? && |ts| >= 2 && ts[0] == At
    requires ParseHost(ts[1..], APath) == Ok((n.path, r1))
    requires r1 != [] && r1[0].Paren? ==> ParseCallArgs(r1[0].inner) == Ok((n.fields, n.attributes)) && r2 == r1[1..]
    requires !(r1 != [] && r1[0].Paren?) ==> n.fields == [] && n.attributes == [] && r2 == r1
    requires r2 != [] && r2[0] == Brace(inner) && r2[1..] == rest
    requires ParseNodes(inner) == Ok(n.children)
    ensures ParseComponent(ts) == Ok((n, rest))
  {
    assert n == Component(n.path, n.fields, n.attributes, n.children);
  }

  /** An element: its name, its parenthesised attributes when there are any, then `;` or the
      children's block. */
  lemma ElementRoundTrip(n: Node, rest: seq<Token>)
    requires n.Element? && Printable(n)
    requires !n.isVoid ==> ParseNodes(PrintNodes(n.children)) == Ok(n.children)
    ensures ParseNode(PrintNode(n) + rest) == Ok((n, rest))
  {
    var ts, r2 := ElementLayout(n, rest);
    KebabOfKebab(n.name);
    ElementDispatch(ts);
    if n.isVoid {
      VoidAfterAttributes(n, ts, r2, rest);
    } else {
      BlockAfterAttributes(n, ts, r2, PrintNodes(n.children), rest);
    }
  }

  /** A printed element read up to the end of its attributes: `r2` is what follows them. */
  lemma ElementLayout(n: Node, rest: seq<Token>) returns (ts: seq<Token>, r2: seq<Token>)
    requires n.Element? && forall i :: 0 <= i < |n.attributes| ==> PrintableAttribute(n.attributes[i])
    ensures ts == PrintNode(n) + rest && ts != [] && ts[0] == Ident(n.name)
    ensures if |ts| >= 2 && ts[1].Paren?
      then ParseElementAttributes(ts[1].inner) == Ok(n.attributes) && r2 == ts[2..]
      else n.attributes == [] && r2 == ts[1..]
    ensures r2 != [] && r2[1..] == rest
    ensures r2[0] == if n.isVoid then Semi else Brace(PrintNodes(n.children))
  {
    ts, r2 := ElementSplit(n, rest);
    if n.attributes != [] {
      ElementAttributesRoundTrip(n.attributes);
    }
  }

  /** The same split, with the attribute group as printed. */
  lemma ElementSplit(n: Node, rest: seq<Token>) returns (ts: seq<Token>, r2: seq<Token>)
    requires n.Element?
    ensures ts == PrintNode(n) + rest && ts != [] && ts[0] == Ident(n.name)
    ensures n.attributes != [] ==> |ts| >= 2 && ts[1] == Paren(PrintAttributeList(n.attributes)) && r2 == ts[2..]
    ensures n.attributes == [] ==> r2 == ts[1..]
    ensures r2 != [] && r2[1..] == rest
    ensures r2[0] == if n.isVoid then Semi else Brace(PrintNodes(n.children))
  {
    var attrs, body := ElementPrinted(n);
    ts := PrintNode(n) + rest;
    r2 := body + rest;
    assert ts == [Ident(n.name)] + (attrs + r2) by {
      Associate([Ident(n.name)] + attrs, body, rest);
      Associate([Ident(n.name)], attrs, r2);
    }
    if attrs != [] {
      assert ts[2..] == r2;
    } else {
      assert ts[1..] == r2;
    }
  }

  /** How an element prints: its name, its attribute group if any, and its ending. */
  lemma ElementPrinted(n: Node) returns (attrs: seq<Token>, body: seq<Token>)
    requires n.Element?
    ensures PrintNode(n) == [Ident(n.name)] + attrs + body
    ensures attrs == if n.attributes == [] then [] else [Paren(PrintAttributeList(n.attributes))]
    ensures body == if n.isVoid then [Semi] else [Brace(PrintNodes(n.children))]
  {
    body := if n.isVoid then [Semi] else [Brace(PrintNodes(n.children))];
    attrs := if n.attributes == [] then [] else [Paren(PrintAttributeList(n.attributes))];
  }

  /** `ParseElement` on a void element once its attributes are read and `r2` is what follows
      them. */
  lemma VoidAfterAttributes(n: Node, ts: seq<Token>, r2: seq<Token>, rest: seq<Token>)
    requires n.Element? && n.isVoid && n.children == [] && n.name in VoidElements.Names
    requires KebabCase(n.name) == n.name && ts != [] && ts[0] == Ident(n.name)
    requires if |ts| >= 2 && ts[1].Paren?
      then ParseElementAttributes(ts[1].inner) == Ok(n.attributes) && r2 == ts[2..]
      else n.attributes == [] && r2 == ts[1..]
    requires r2 != [] && r2[0] == Semi && r2[1..] == rest
    ensures ParseElement(ts) == Ok((n, rest))
  {
    assert n == Element(n.name, true, n.attributes, []);
  }

  /** The same for an element with a block of children. */
  lemma BlockAfterAttributes(n: Node, ts: seq<Token>, r2: seq<Token>, inner: seq<Token>, rest: seq<Token>)
    requires n.Element? && !n.isVoid && n.name !in VoidElements.Names
    requires KebabCase(n.name) == n.name && ts != [] && ts[0] == Ident(n.name)
    requires if |ts| >= 2 && ts[1].Paren?
      then ParseElementAttributes(ts[1].inner) == Ok(n.attributes) && r2 == ts[2..]
      else n.attributes == [] && r2 == ts[1..]
    requires r2 != [] && r2[0] == Brace(inner) && r2[1..] == rest
    requires ParseNodes(inner) == Ok(n.children)
    ensures ParseElement(ts) == Ok((n, rest))
  {
    assert n == Element(n.name, false, n.attributes, n.children);
  }

  /** The `if` chain: a condition, the then-block, and `@ else` with what follows it. */
  lemma {:induction false} IfThenRoundTrip(c: IfCond, rest: seq<Token>)
    requires c.elseBranch.None? && IsHostToken(c.condition) && !HasElse(rest)
    requires ParseNodes(PrintNodes(c.thenBranch)) == Ok(c.thenBranch)
    ensures ParseIf(PrintIf(c) + rest) == Ok((c, rest))
  {
    var ts := PrintIf(c) + rest;
    assert ts[1..][0] == c.condition && ts[2] == Brace(PrintNodes(c.thenBranch)) && ts[3..] == rest;
    assert c == IfCond(ts[1], c.thenBranch, None);
  }

  lemma {:induction false} IfElseIfRoundTrip(c: IfCond, rest: seq<Token>)
    requires c.elseBranch.Some? && c.elseBranch.value.ElseIf? && IsHostToken(c.condition)
    requires ParseNodes(PrintNodes(c.thenBranch)) == Ok(c.thenBranch)
    requires ParseIf(PrintIf(c.elseBranch.value.inner) + rest) == Ok((c.elseBranch.value.inner, rest))
    ensures ParseIf(PrintIf(c) + rest) == Ok((c, rest))
  {
    var ts := IfElseLayout(c, rest);
    ElseIfBranch(c.elseBranch.value.inner, ts[5..], rest);
    HostReads(ts[1..], AnExpression);
    IfAssemble(c, ts, PrintNodes(c.thenBranch), rest);
  }

  /** A printed `if` with an else branch: the condition, the then-block, `@ else`, then the
      branch. */
  lemma IfElseLayout(c: IfCond, rest: seq<Token>) returns (ts: seq<Token>)
    requires c.elseBranch.Some?
    ensures ts == PrintIf(c) + rest && |ts| >= 5
    ensures ts[0] == Ident("if") && ts[1..] != [] && ts[1..][0] == c.condition
    ensures ts[2] == Brace(PrintNodes(c.thenBranch)) && HasElse(ts[3..])
    ensures c.elseBranch.value.ElseIf? ==> ts[5..] == PrintIf(c.elseBranch.value.inner) + rest
    ensures c.elseBranch.value.Else? ==>
      ts[5..] != [] && ts[5..][0] == Brace(PrintNodes(c.elseBranch.value.nodes)) && ts[5..][1..] == rest
  {
    var head := [Ident("if"), c.condition, Brace(PrintNodes(c.thenBranch)), At, Ident("else")];
    var tail := match c.elseBranch.value
      case ElseIf(inner) => PrintIf(inner)
      case Else(nodes) => [Brace(PrintNodes(nodes))];
    assert PrintIf(c) == head + tail;
    ts := PrintIf(c) + rest;
    Associate(head, tail, rest);
    assert ts[5..] == tail + rest;
  }

  lemma ElseIfBranch(inner: IfCond, after: seq<Token>, rest: seq<Token>)
    requires after == PrintIf(inner) + rest && ParseIf(after) == Ok((inner, rest))
    ensures ParseElse(after) == Ok((ElseIf(inner), rest))
  {
    assert PeekKeyword(after, "if");
  }

  /** A braced block as the last else branch. */
  lemma ElseBlock(after: seq<Token>, inner: seq<Token>, nodes: seq<Node>, rest: seq<Token>)
    requires after != [] && after[0] == Brace(inner) && after[1..] == rest
    requires ParseNodes(inner) == Ok(nodes)
    ensures ParseElse(after) == Ok((Else(nodes), rest))
  {
    assert !PeekKeyword(after, "if");
  }

  lemma {:induction false} IfElseRoundTrip(c: IfCond, rest: seq<Token>)
    requires c.elseBranch.Some? && c.elseBranch.value.Else? && IsHostToken(c.condition)
    requires ParseNodes(PrintNodes(c.thenBranch)) == Ok(c.thenBranch)
    requires ParseNodes(PrintNodes(c.elseBranch.value.nodes)) == Ok(c.elseBranch.value.nodes)
    ensures ParseIf(PrintIf(c) + rest) == Ok((c, rest))
  {
    var ts := IfElseLayout(c, rest);
    ElseBlock(ts[5..], PrintNodes(c.elseBranch.value.nodes), c.elseBranch.value.nodes, rest);
    HostReads(ts[1..], AnExpression);
    IfAssemble(c, ts, PrintNodes(c.thenBranch), rest);
  }

  /** `ParseIf` over a then-block followed by `@ else` and an else branch that reads back. */
  lemma IfAssemble(c: IfCond, ts: seq<Token>, thenInner: seq<Token>, rest: seq<Token>)
    requires c.elseBranch.Some?
    requires |ts| >= 5 && ts[0] == Ident("if") && ParseHost(ts[1..], AnExpression) == Ok((c.condition, ts[2..]))
    requires ts[2] == Brace(thenInner) && HasElse(ts[3..])
    requires ParseNodes(thenInner) == Ok(c.thenBranch)
    requires ParseElse(ts[5..]) == Ok((c.elseBranch.value, rest))
    ensures ParseIf(ts) == Ok((c, rest))
  {
    assert c == IfCond(ts[1], c.thenBranch, Some(c.elseBranch.value));
  }

  lemma {:induction false} IfNodeRoundTrip(c: IfCond, rest: seq<Token>)
    requires ParseIf(PrintIf(c) + rest) == Ok((c, rest))
    ensures ParseNode(PrintNode(If(c)) + rest) == Ok((If(c), rest))
  {
    IfDispatch(PrintIf(c) + rest);
  }

  /** A match arm: its pattern, its guard when there is one, `=>` and the body's block. */
  lemma {:induction false} ArmRoundTrip(arm: Arm, rest: seq<Token>)
    requires IsHostTokenFor(arm.pattern, APattern) && (arm.guard.Some? ==> IsHostToken(arm.guard.value))
    requires ParseNodes(PrintNodes(arm.body)) == Ok(arm.body)
    requires !Peek(rest, Comma)
    ensures ParseArm(PrintArm(arm) + rest) == Ok((arm, rest))
  {
    var ts, k := ArmLayout(arm, rest);
    ArmBlock(arm.body, ts[k + 1..], rest);
    ArmAssemble(arm, ts, k, rest);
  }

  /** Where the parts of a printed arm sit. */
  lemma ArmLayout(arm: Arm, rest: seq<Token>) returns (ts: seq<Token>, k: nat)
    ensures ts == PrintArm(arm) + rest && |ts| > k + 1 && k == ArrowAt(ts)
    ensures ts[0] == arm.pattern && ts[k] == FatArrow
    ensures arm.guard.Some? <==> ts[1] == Ident("if")
    ensures arm.guard.Some? ==> ts[2] == arm.guard.value
    ensures ts[k + 1..] == [Brace(PrintNodes(arm.body))] + rest
  {
    var block := Brace(PrintNodes(arm.body));
    ts := PrintArm(arm) + rest;
    if arm.guard.Some? {
      assert ts == [arm.pattern, Ident("if"), arm.guard.value, FatArrow, block] + rest;
      k := 3;
    } else {
      assert ts == [arm.pattern, FatArrow, block] + rest;
      k := 1;
    }
  }

  /** A braced block as an arm's body. */
  lemma ArmBlock(nodes: seq<Node>, after: seq<Token>, rest: seq<Token>)
    requires after == [Brace(PrintNodes(nodes))] + rest
    requires ParseNodes(PrintNodes(nodes)) == Ok(nodes)
    ensures ArmBody(after) == Ok((nodes, rest))
  {
    assert after[1..] == rest;
  }

  lemma ArmAssemble(arm: Arm, ts: seq<Token>, k: nat, rest: seq<Token>)
    requires IsHostTokenFor(arm.pattern, APattern) && (arm.guard.Some? ==> IsHostToken(arm.guard.value))
    requires |ts| > k + 1 && k == ArrowAt(ts) && ts[0] == arm.pattern && ts[k] == FatArrow
    requires arm.guard.Some? <==> ts[1] == Ident("if")
    requires arm.guard.Some? ==> ts[2] == arm.guard.value
    requires ArmBody(ts[k + 1..]) == Ok((arm.body, rest)) && !Peek(rest, Comma)
    ensures ParseArm(ts) == Ok((arm, rest))
  {
    if arm.guard.Some? {
      GuardedArm(arm, ts, rest);
    } else {
      PlainArm(arm, ts, rest);
    }
  }

  lemma GuardedArm(arm: Arm, ts: seq<Token>, rest: seq<Token>)
    requires IsHostTokenFor(arm.pattern, APattern) && arm.guard.Some? && IsHostToken(arm.guard.value)
    requires |ts| > 4 && ts[0] == arm.pattern && ts[1] == Ident("if") && ts[2] == arm.guard.value
    requires ts[3] == FatArrow && ArmBody(ts[4..]) == Ok((arm.body, rest)) && !Peek(rest, Comma)
    ensures ParseArm(ts) == Ok((arm, rest))
  {
    HostReads(ts, APattern);
    HostReads(ts[2..], AnExpression);
    assert ArrowAt(ts) == 3;
    ArmReads(ts, 3, arm.body, rest);
    ArmFields(arm);
  }

  lemma PlainArm(arm: Arm, ts: seq<Token>, rest: seq<Token>)
    requires IsHostTokenFor(arm.pattern, APattern) && arm.guard.None?
    requires |ts| > 2 && ts[0] == arm.pattern && ts[1] != Ident("if")
    requires ts[1] == FatArrow && ArmBody(ts[2..]) == Ok((arm.body, rest)) && !Peek(rest, Comma)
    ensures ParseArm(ts) == Ok((arm, rest))
  {
    HostReads(ts, APattern);
    ArmReads(ts, 1, arm.body, rest);
    ArmFields(arm);
  }

  lemma ArmFields(arm: Arm)
    ensures arm == Arm(arm.pattern, arm.guard, arm.body)
  {
  }

  /** `ParseArm` once its pattern, guard, arrow and body have been read. */
  lemma ArmReads(ts: seq<Token>, k: nat, nodes: seq<Node>, after: seq<Token>)
    requires ParseHost(ts, APattern).Ok? && k == ArrowAt(ts) && |ts| > k && ts[k] == FatArrow
    requires k == 3 ==> ParseHost(ts[2..], AnExpression).Ok?
    requires ArmBody(ts[k + 1..]) == Ok((nodes, after)) && !Peek(after, Comma)
    ensures ParseArm(ts) == Ok((Arm(ts[0], if k == 3 then Some(ts[2]) else None, nodes), after))
  {
  }

  /** One step of the node loop. */
  lemma NodesCons(content: seq<Token>, n: Node, rest: seq<Token>, more: seq<Node>, ns: seq<Node>)
    requires content != [] && ParseNode(content) == Ok((n, rest))
    requires ParseNodes(rest) == Ok(more) && ns == [n] + more
    ensures ParseNodes(content) == Ok(ns)
  {
  }

  /** One step of the arm loop. */
  lemma ArmsCons2(content: seq<Token>, arm: Arm, rest: seq<Token>, more: seq<Arm>, arms: seq<Arm>)
    requires content != [] && ParseArm(content) == Ok((arm, rest))
    requires ParseArms(rest) == Ok(more) && arms == [arm] + more
    ensures ParseArms(content) == Ok(arms)
  {
  }

  /** Printed nodes never start with `@ else`, so an `if` without an else branch stops where
      it should. */
  lemma NodesStart(ns: seq<Node>)
    requires AllPrintable(ns)
    ensures !HasElse(PrintNodes(ns))
  {
    if ns != [] {
      var ts := PrintNodes(ns);
      var first := PrintNode(ns[0]);
      assert ts[0] == first[0];
      if first[0] == At {
        assert |first| >= 2 && ts[1] == first[1];
        assert Printable(ns[0]);
      }
    }
  }

  /** Printed arms never start with `,`, so an arm's optional comma is never taken. */
  lemma ArmsStart(arms: seq<Arm>)
    requires AllArmsPrintable(arms)
    ensures !Peek(PrintArms(arms), Comma)
  {
    if arms != [] {
      assert PrintArms(arms)[0] == arms[0].pattern;
      assert PrintableArm(arms[0]);
    }
  }

  // ---------------------------------------------------------------------------------------
  // Every printable tree reads back

  /** A printed node reads back as itself and leaves what follows it, unless what follows is
      `@ else`, which an `if` would take as its own. */
  lemma {:induction false} NodeRoundTrip(n: Node, rest: seq<Token>)
    requires Printable(n) && !HasElse(rest)
    ensures ParseNode(PrintNode(n) + rest) == Ok((n, rest))
    decreases n
  {
    match n
    case Text(s) => TextRoundTrip(s, rest);
    case Expression(e) => ExpressionRoundTrip(e, rest);
    case RawExpression(_) => PoundRoundTrip(n, rest);
    case Doctype => PoundRoundTrip(n, rest);
    case Children => PoundRoundTrip(n, rest);
    case Let(_, _, _) => LetRoundTrip(n, rest);
    case If(c) =>
      IfRoundTrip(c, rest);
      IfNodeRoundTrip(c, rest);
    case For(_, _, body) =>
      NodesRoundTrip(body);
      ForRoundTrip(n, rest);
    case Match(_, arms) =>
      ArmsRoundTrip(arms);
      MatchRoundTrip(n, rest);
    case Component(_, _, _, children) =>
      NodesRoundTrip(children);
      ComponentRoundTrip(n, rest);
    case HtmlDisplay(e) => DisplayRoundTrip(e, rest);
    case Element(_, isVoid, _, children) =>
      if !isVoid {
        NodesRoundTrip(children);
      }
      ElementRoundTrip(n, rest);
  }

  /** Printing a sequence of printable nodes and parsing the tokens gives the nodes back. */
  lemma {:induction false} NodesRoundTrip(ns: seq<Node>)
    requires AllPrintable(ns)
    ensures ParseNodes(PrintNodes(ns)) == Ok(ns)
    decreases ns
  {
    if ns != [] {
      var tail := PrintNodes(ns[1..]);
      NodesStart(ns[1..]);
      NodeRoundTrip(ns[0], tail);
      NodesRoundTrip(ns[1..]);
      NodesStep(ns, tail);
    }
  }

  lemma NodesStep(ns: seq<Node>, tail: seq<Token>)
    requires ns != [] && tail == PrintNodes(ns[1..])
    requires ParseNode(PrintNode(ns[0]) + tail) == Ok((ns[0], tail))
    requires ParseNodes(tail) == Ok(ns[1..])
    ensures ParseNodes(PrintNodes(ns)) == Ok(ns)
  {
    NodesCons(PrintNode(ns[0]) + tail, ns[0], tail, ns[1..], ns);
  }

  /** An `if` chain reads back whatever its else branch is. */
  lemma {:induction false} IfRoundTrip(c: IfCond, rest: seq<Token>)
    requires PrintableIf(c) && !HasElse(rest)
    ensures ParseIf(PrintIf(c) + rest) == Ok((c, rest))
    decreases c
  {
    NodesRoundTrip(c.thenBranch);
    match c.elseBranch
    case None => IfThenRoundTrip(c, rest);
    case Some(ElseIf(inner)) =>
      IfRoundTrip(inner, rest);
      IfElseIfRoundTrip(c, rest);
    case Some(Else(nodes)) =>
      NodesRoundTrip(nodes);
      IfElseRoundTrip(c, rest);
  }

  /** The arms of a `match`, printed without commas, read back. */
  lemma {:induction false} ArmsRoundTrip(arms: seq<Arm>)
    requires AllArmsPrintable(arms)
    ensures ParseArms(PrintArms(arms)) == Ok(arms)
    decreases arms
  {
    if arms != [] {
      var tail := PrintArms(arms[1..]);
      assert PrintableArm(arms[0]);
      NodesRoundTrip(arms[0].body);
      ArmsStart(arms[1..]);
      ArmRoundTrip(arms[0], tail);
      ArmsRoundTrip(arms[1..]);
      ArmsStep(arms, tail);
    }
  }

  lemma ArmsStep(arms: seq<Arm>, tail: seq<Token>)
    requires arms != [] && tail == PrintArms(arms[1..])
    requires ParseArm(PrintArm(arms[0]) + tail) == Ok((arms[0], tail))
    requires ParseArms(tail) == Ok(arms[1..])
    ensures ParseArms(PrintArms(arms)) == Ok(arms)
  {
    ArmsCons2(PrintArm(arms[0]) + tail, arms[0], tail, arms[1..], arms);
  }
}
