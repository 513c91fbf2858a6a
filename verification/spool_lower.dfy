/** spool's code generator: how `render!` turns a template tree into a sequence of calls on
    `HtmlFormatter`, and what those calls do when they run. The generated code is modelled as a
    list of operations; host expressions stay opaque tokens whose values an `Env` supplies. */
module SpoolLower {
  import opened Wrappers
  import opened Tokens
  import AttrSyntax
  import Ascii = Text
  import VoidElements
  import opened SpoolEscape
  import opened SpoolRender
  import opened SpoolFormatter
  import SpoolSyntax

  // ---------------------------------------------------------------------------------------
  // The tree the generator walks

  /** The nodes the generator handles: those the parser builds, plus `if` chains and `for`
      loops. */
  datatype Node =
    | Text(text: string)
    | Expression(expr: AttrSyntax.GroupExpr)
    | Fragment(children: seq<Node>)
    | If(cond: IfCond)
    | For(pattern: Token, iter: Token, body: seq<Node>)
    | Element(name: string, isVoid: bool, attributes: seq<AttrSyntax.Attribute>, children: seq<Node>)

  datatype IfCond = IfCond(condition: Token, thenBranch: seq<Node>, elseBranch: Option<ElseBranch>)

  /** `else { ... }`, or `else if ...` continuing the chain. */
  datatype ElseBranch = ElseIf(inner: IfCond) | Else(nodes: seq<Node>)

  /** The parser's tree seen as a generator input. */
  function FromSyntax(n: SpoolSyntax.Node): Node {
    match n
    case Text(t) => Text(t)
    case Expression(g) => Expression(g)
    case Element(name, isVoid, attrs, cs) => Element(name, isVoid, attrs, FromSyntaxSeq(cs))
    case Fragment(cs) => Fragment(FromSyntaxSeq(cs))
  }

  function FromSyntaxSeq(ns: seq<SpoolSyntax.Node>): seq<Node> {
    if ns == [] then [] else [FromSyntax(ns[0])] + FromSyntaxSeq(ns[1..])
  }

  // ---------------------------------------------------------------------------------------
  // Generated operations

  /** An argument of a generated call: a string literal from the template, or a host
      expression. */
  datatype Arg = Lit(s: string) | Host(expr: Token)

  /** The flag of `write_boolean_attribute`: the literal `true`, or a host expression. */
  datatype Flag = Always | FlagOf(expr: Token)

  /** One generated statement. `IfElse` and `ForEach` are host control flow around nested
      statements; `SpreadAttributes` calls a formatter method spool does not define. */
  datatype Op =
    | WriteContent(content: Arg, mode: Option<EscapeMode>)
    | StartElement(name: string)
    | WriteAttribute(name: string, value: Arg, mode: Option<EscapeMode>)
    | WriteOptionalAttribute(name: string, expr: Token, mode: Option<EscapeMode>)
    | WriteBooleanAttribute(name: string, flag: Flag)
    | SpreadAttributes(expr: Token)
    | EndElement
    | IfElse(condition: Token, thenOps: seq<Op>, elseOps: ElseOps)
    | ForEach(pattern: Token, iter: Token, body: seq<Op>)

  /** What follows the then-block of a generated `if`: nothing, or an else block. */
  datatype ElseOps = NoElse | ElseBlock(ops: seq<Op>)

  /** The parsed escape-mode suffix as the runtime's `EscapeMode`. */
  function ModeOf(m: Option<AttrSyntax.Mode>): (r: Option<EscapeMode>)
    ensures r.None? <==> m.None?
    ensures m == Some(AttrSyntax.Raw) <==> r == Some(Raw)
    ensures m == Some(AttrSyntax.Html) <==> r == Some(Html)
  {
    match m
    case None => None
    case Some(Raw) => Some(Raw)
    case Some(Html) => Some(Html)
  }

  /** One attribute becomes one call: a literal is written raw, `=(expr)` and `=[expr]` keep
      their mode, `?[expr]` and a bare name are boolean attributes, and `..(expr)` spreads. */
  function LowerAttribute(a: AttrSyntax.Attribute): Op {
    match a
    case Spread(e) => SpreadAttributes(e)
    case NameValue(name, None) => WriteBooleanAttribute(name, Always)
    case NameValue(name, Some(Literal(v))) => WriteAttribute(name, Lit(v), Some(Raw))
    case NameValue(name, Some(Dynamic(g))) => WriteAttribute(name, Host(g.expr), ModeOf(g.mode))
    case NameValue(name, Some(Optional(g))) => WriteOptionalAttribute(name, g.expr, ModeOf(g.mode))
    case NameValue(name, Some(Boolean(c))) => WriteBooleanAttribute(name, FlagOf(c))
  }

  /** The attribute calls of an element: one per attribute, in source order. */
  function LowerAttributes(attrs: seq<AttrSyntax.Attribute>): (r: seq<Op>)
    ensures |r| == |attrs|
    ensures forall i :: 0 <= i < |attrs| ==> r[i] == LowerAttribute(attrs[i])
  {
    if attrs == [] then [] else [LowerAttribute(attrs[0])] + LowerAttributes(attrs[1..])
  }

  /** `push_statements_for_node`. */
  function LowerNode(n: Node): seq<Op> {
    match n
    case Text(t) => [WriteContent(Lit(t), Some(Raw))]
    case Expression(g) => [WriteContent(Host(g.expr), ModeOf(g.mode))]
    case Fragment(cs) => LowerNodes(cs)
    case If(c) => [LowerIf(c)]
    case For(p, it, body) => [ForEach(p, it, LowerNodes(body))]
    case Element(name, _, attrs, cs) =>
      [StartElement(name)] + LowerAttributes(attrs) + LowerNodes(cs) + [EndElement]
  }

  function LowerNodes(ns: seq<Node>): seq<Op> {
    if ns == [] then [] else LowerNode(ns[0]) + LowerNodes(ns[1..])
  }

  /** `push_statements_for_if_condition`: no else gives a bare `if`; an else block or a
      further `if` goes in the else block. */
  function LowerIf(c: IfCond): Op {
    var elseOps :=
      match c.elseBranch
      case None => NoElse
      case Some(Else(ns)) => ElseBlock(LowerNodes(ns))
      case Some(ElseIf(inner)) => ElseBlock([LowerIf(inner)]);
    IfElse(c.condition, LowerNodes(c.thenBranch), elseOps)
  }

  // ---------------------------------------------------------------------------------------
  // Running the generated code

  /** What the host expressions evaluate to: values to render, optional values, booleans
      (attribute flags and `if` conditions), and how many items a loop's iterator yields. */
  datatype Env = Env(
    value: Token -> Value,
    optional: Token -> Option<Value>,
    flag: Token -> bool,
    count: Token -> nat)

  /** Every generated call ends in `.unwrap()`, so the first error stops the program.
      `spread_attributes` is not a method of the formatter, so a spread can never run. */
  datatype ExecError = Failed(error: FmtError) | SpreadUndefined

  function Lift(r: Result<Fmt, FmtError>): Result<Fmt, ExecError> {
    match r
    case Ok(g) => Ok(g)
    case Err(e) => Err(Failed(e))
  }

  function ArgValue(a: Arg, env: Env): Value {
    match a
    case Lit(s) => Str(s)
    case Host(e) => env.value(e)
  }

  function FlagValue(fl: Flag, env: Env): bool {
    match fl
    case Always => true
    case FlagOf(e) => env.flag(e)
  }

  function Exec(ops: seq<Op>, f: Fmt, env: Env): Result<Fmt, ExecError>
    decreases ops, 0, 0
  {
    if ops == [] then Ok(f)
    else match ExecOp(ops[0], f, env)
      case Err(e) => Err(e)
      case Ok(g) => Exec(ops[1..], g, env)
  }

  function ExecOp(op: Op, f: Fmt, env: Env): Result<Fmt, ExecError>
    decreases op, 0, 0
  {
    match op
    case WriteContent(c, m) => Lift(SpoolFormatter.WriteContent(f, ArgValue(c, env), m))
    case StartElement(name) => Ok(SpoolFormatter.StartElement(f, name))
    case WriteAttribute(name, v, m) => Lift(SpoolFormatter.WriteAttribute(f, name, ArgValue(v, env), m))
    case WriteOptionalAttribute(name, e, m) => Lift(SpoolFormatter.WriteOptionalAttribute(f, name, env.optional(e), m))
    case WriteBooleanAttribute(name, fl) => Lift(SpoolFormatter.WriteBooleanAttribute(f, name, FlagValue(fl, env)))
    case SpreadAttributes(_) => Err(SpreadUndefined)
    case EndElement => Lift(SpoolFormatter.EndElement(f))
    case IfElse(c, t, NoElse) => if env.flag(c) then Exec(t, f, env) else Ok(f)
    case IfElse(c, t, ElseBlock(els)) => if env.flag(c) then Exec(t, f, env) else Exec(els, f, env)
    case ForEach(_, it, body) => Repeat(body, env.count(it), f, env)
  }

  /** A loop body run `n` times. */
  function Repeat(body: seq<Op>, n: nat, f: Fmt, env: Env): Result<Fmt, ExecError>
    decreases body, 1, n
  {
    if n == 0 then Ok(f)
    else match Exec(body, f, env)
      case Err(e) => Err(e)
      case Ok(g) => Repeat(body, n - 1, g, env)
  }

  // ---------------------------------------------------------------------------------------
  // The markup a tree stands for

  function AttrHtml(element: string, a: AttrSyntax.Attribute, env: Env): string {
    match a
    case Spread(_) => ""
    case NameValue(name, None) => " " + name
    case NameValue(name, Some(Literal(v))) => AttributeText(element, name, Str(v), Some(Raw))
    case NameValue(name, Some(Dynamic(g))) => AttributeText(element, name, env.value(g.expr), ModeOf(g.mode))
    case NameValue(name, Some(Optional(g))) =>
      (match env.optional(g.expr)
       case None => ""
       case Some(v) => AttributeText(element, name, v, ModeOf(g.mode)))
    case NameValue(name, Some(Boolean(c))) => if env.flag(c) then " " + name else ""
  }

  function AttrsHtml(element: string, attrs: seq<AttrSyntax.Attribute>, env: Env): string {
    if attrs == [] then "" else AttrHtml(element, attrs[0], env) + AttrsHtml(element, attrs[1..], env)
  }

  /** The markup of a node: text as written, expressions rendered under their mode, elements
      as start tag, attributes, children and (except for void elements) end tag. */
  function HtmlOf(n: Node, env: Env): string {
    match n
    case Text(t) => t
    case Expression(g) => Render(env.value(g.expr), ResolveForElement(None, ModeOf(g.mode)))
    case Fragment(cs) => HtmlSeq(cs, env)
    case If(c) => HtmlIf(c, env)
    case For(_, it, body) => Times(HtmlSeq(body, env), env.count(it))
    case Element(name, _, attrs, cs) =>
      "<" + name + AttrsHtml(name, attrs, env) + ">" + HtmlSeq(cs, env)
      + (if IsVoidElement(name) then "" else "</" + name + ">")
  }

  function HtmlSeq(ns: seq<Node>, env: Env): string {
    if ns == [] then "" else HtmlOf(ns[0], env) + HtmlSeq(ns[1..], env)
  }

  function HtmlIf(c: IfCond, env: Env): string {
    if env.flag(c.condition) then HtmlSeq(c.thenBranch, env)
    else match c.elseBranch
      case None => ""
      case Some(Else(ns)) => HtmlSeq(ns, env)
      case Some(ElseIf(inner)) => HtmlIf(inner, env)
  }

  function Times(s: string, n: nat): string {
    if n == 0 then "" else s + Times(s, n - 1)
  }

  // ---------------------------------------------------------------------------------------
  // The trees the generator is correct for

  predicate NoSpread(attrs: seq<AttrSyntax.Attribute>) {
    forall i :: 0 <= i < |attrs| ==> attrs[i].NameValue?
  }

  /** No spread attribute anywhere, and no children under a void element. */
  predicate Lowerable(n: Node) {
    match n
    case Text(_) => true
    case Expression(_) => true
    case Fragment(cs) => AllLowerable(cs)
    case If(c) => LowerableIf(c)
    case For(_, _, body) => AllLowerable(body)
    case Element(name, _, attrs, cs) =>
      NoSpread(attrs) && (IsVoidElement(name) ==> cs == []) && AllLowerable(cs)
  }

  predicate AllLowerable(ns: seq<Node>) {
    forall i :: 0 <= i < |ns| ==> Lowerable(ns[i])
  }

  predicate LowerableIf(c: IfCond) {
    && AllLowerable(c.thenBranch)
    && match c.elseBranch
      case None => true
      case Some(Else(ns)) => AllLowerable(ns)
      case Some(ElseIf(inner)) => LowerableIf(inner)
  }

  // ---------------------------------------------------------------------------------------
  // Lemmas

  /** Lowering a node list is lowering each node and concatenating, so a fragment adds no
      operations of its own. */
  lemma {:induction false} LowerNodesAppend(a: seq<Node>, b: seq<Node>)
    ensures LowerNodes(a + b) == LowerNodes(a) + LowerNodes(b)
    decreases |a|
  {
    if a == [] {
      assert a + b == b;
    } else {
      assert (a + b)[1..] == a[1..] + b;
      LowerNodesAppend(a[1..], b);
    }
  }

  /** Running two operation lists one after the other is running their concatenation. */
  lemma {:induction false} ExecAppend(a: seq<Op>, b: seq<Op>, f: Fmt, env: Env)
    ensures Exec(a, f, env).Err? ==> Exec(a + b, f, env) == Exec(a, f, env)
    ensures Exec(a, f, env).Ok? ==> Exec(a + b, f, env) == Exec(b, Exec(a, f, env).value, env)
    decreases |a|
  {
    if a == [] {
      assert a + b == b;
    } else {
      assert (a + b)[0] == a[0];
      assert (a + b)[1..] == a[1..] + b;
      match ExecOp(a[0], f, env)
      case Err(_) =>
      case Ok(g) => ExecAppend(a[1..], b, g, env);
    }
  }

  /** A formatter from which any node may run: valid, and not inside a void start tag. */
  predicate Ready(f: Fmt) {
    Valid(f) && !ContentRefused(f)
  }

  /** Running a node's code from `f` succeeded, left the same elements open, and wrote `html`;
      the pending `>` of `f`, if any, is written once `html` is non-empty and is otherwise still
      pending. */
  predicate Ran(f: Fmt, r: Result<Fmt, ExecError>, html: string) {
    && r.Ok?
    && Ready(r.value)
    && r.value.stack == f.stack
    && (r.value.state == TagOpened ==> r.value == f)
    && ClosePending(r.value).output == ClosePending(f).output + html
  }

  lemma RanTwice(f: Fmt, g: Fmt, r: Result<Fmt, ExecError>, h1: string, h2: string)
    requires Ran(f, Ok(g), h1) && Ran(g, r, h2)
    ensures Ran(f, r, h1 + h2)
  {
  }

  /** One attribute call, run inside the start tag of `element`, writes that attribute's
      markup and nothing else. */
  lemma AttributeStep(element: string, a: AttrSyntax.Attribute, f: Fmt, env: Env)
    requires InTag(f) && Top(f) == element && a.NameValue?
    ensures ExecOp(LowerAttribute(a), f, env) == Ok(f.(output := f.output + AttrHtml(element, a, env)))
  {
    assert f.(output := f.output + "") == f;
    match a.value
    case None =>
    case Some(Literal(_)) =>
    case Some(Dynamic(_)) =>
    case Some(Optional(g)) =>
    case Some(Boolean(_)) =>
  }

  /** The attribute calls of a spread-free list, run inside the start tag of `element`, write
      the attribute markup and change nothing else. */
  lemma {:induction false} RunAttributes(element: string, attrs: seq<AttrSyntax.Attribute>, f: Fmt, env: Env)
    requires InTag(f) && Top(f) == element && NoSpread(attrs)
    ensures Exec(LowerAttributes(attrs), f, env) == Ok(f.(output := f.output + AttrsHtml(element, attrs, env)))
    decreases |attrs|
  {
    if attrs == [] {
      assert f.(output := f.output + "") == f;
    } else {
      var g := f.(output := f.output + AttrHtml(element, attrs[0], env));
      AttributeStep(element, attrs[0], f, env);
      RunAttributes(element, attrs[1..], g, env);
      AttributesCons(element, attrs, f, g, env);
    }
  }

  lemma AttributesCons(element: string, attrs: seq<AttrSyntax.Attribute>, f: Fmt, g: Fmt, env: Env)
    requires attrs != [] && g == f.(output := f.output + AttrHtml(element, attrs[0], env))
    requires ExecOp(LowerAttribute(attrs[0]), f, env) == Ok(g)
    requires Exec(LowerAttributes(attrs[1..]), g, env) == Ok(g.(output := g.output + AttrsHtml(element, attrs[1..], env)))
    ensures Exec(LowerAttributes(attrs), f, env) == Ok(f.(output := f.output + AttrsHtml(element, attrs, env)))
  {
    var ops := LowerAttributes(attrs);
    LowerAttributesTail(attrs);
    ExecCons(ops, f, g, env);
    Associate(f.output, AttrHtml(element, attrs[0], env), AttrsHtml(element, attrs[1..], env));
  }

  lemma LowerAttributesTail(attrs: seq<AttrSyntax.Attribute>)
    requires attrs != []
    ensures LowerAttributes(attrs) != [] && LowerAttributes(attrs)[0] == LowerAttribute(attrs[0])
    ensures LowerAttributes(attrs)[1..] == LowerAttributes(attrs[1..])
  {
    assert ([LowerAttribute(attrs[0])] + LowerAttributes(attrs[1..]))[1..] == LowerAttributes(attrs[1..]);
  }

  lemma Associate(a: string, b: string, c: string)
    ensures a + b + c == a + (b + c)
  {
  }

  /** Running a list whose first operation succeeds continues from that operation's result. */
  lemma ExecCons(ops: seq<Op>, f: Fmt, g: Fmt, env: Env)
    requires ops != [] && ExecOp(ops[0], f, env) == Ok(g)
    ensures Exec(ops, f, env) == Exec(ops[1..], g, env)
  {
  }

  /** The generator is correct for every spread-free tree without children under void
      elements: its code never fails (in particular never reports an attribute outside a tag
      or an element that is not open), closes every element it opens, and writes exactly the
      tree's markup. */
  lemma {:induction false} RunNode(n: Node, f: Fmt, env: Env)
    requires Ready(f) && Lowerable(n)
    ensures Ran(f, Exec(LowerNode(n), f, env), HtmlOf(n, env))
    decreases n, 1
  {
    match n
    case Text(t) =>
    case Expression(g) =>
    case Fragment(cs) =>
      RunNodes(cs, f, env);
    case If(c) =>
      RunIf(c, f, env);
    case For(p, it, body) =>
      RunRepeat(body, env.count(it), f, env);
    case Element(_, _, _, _) =>
      RunElement(n, f, env);
  }

  lemma {:induction false} RunNodes(ns: seq<Node>, f: Fmt, env: Env)
    requires Ready(f) && AllLowerable(ns)
    ensures Ran(f, Exec(LowerNodes(ns), f, env), HtmlSeq(ns, env))
    decreases ns, 0
  {
    if ns == [] {
    } else {
      var a := LowerNode(ns[0]);
      ExecAppend(a, LowerNodes(ns[1..]), f, env);
      RunNode(ns[0], f, env);
      var g := Exec(a, f, env).value;
      RunNodes(ns[1..], g, env);
      RanTwice(f, g, Exec(LowerNodes(ns[1..]), g, env), HtmlOf(ns[0], env), HtmlSeq(ns[1..], env));
    }
  }

  lemma {:induction false} RunIf(c: IfCond, f: Fmt, env: Env)
    requires Ready(f) && LowerableIf(c)
    ensures Ran(f, Exec([LowerIf(c)], f, env), HtmlIf(c, env))
    decreases c, 0
  {
    assert Exec([LowerIf(c)], f, env) == ExecOp(LowerIf(c), f, env);
    if env.flag(c.condition) {
      RunNodes(c.thenBranch, f, env);
    } else {
      match c.elseBranch
      case None =>
      case Some(Else(ns)) =>
        RunNodes(ns, f, env);
      case Some(ElseIf(inner)) =>
        RunIf(inner, f, env);
    }
  }

  lemma {:induction false} RunRepeat(body: seq<Node>, k: nat, f: Fmt, env: Env)
    requires Ready(f) && AllLowerable(body)
    ensures Ran(f, Repeat(LowerNodes(body), k, f, env), Times(HtmlSeq(body, env), k))
    decreases body, 2, k
  {
    if k > 0 {
      RunNodes(body, f, env);
      var g := Exec(LowerNodes(body), f, env).value;
      RunRepeat(body, k - 1, g, env);
      RanTwice(f, g, Repeat(LowerNodes(body), k - 1, g, env), HtmlSeq(body, env), Times(HtmlSeq(body, env), k - 1));
    }
  }

  lemma {:induction false} RunElement(n: Node, f: Fmt, env: Env)
    requires n.Element? && Ready(f) && Lowerable(n)
    ensures Ran(f, Exec(LowerNode(n), f, env), HtmlOf(n, env))
    decreases n, 0
  {
    var head := [StartElement(n.name)] + LowerAttributes(n.attributes);
    var body := LowerNodes(n.children);
    assert LowerNode(n) == head + body + [EndElement];
    OpenElement(n.name, n.attributes, f, env);
    ExecAppend(head, body, f, env);
    ExecAppend(head + body, [EndElement], f, env);
    if IsVoidElement(n.name) {
      CloseVoid(n, f, env);
    } else {
      var s1 := Opened(f, n.name, n.attributes, env);
      RunNodes(n.children, s1, env);
      CloseNormal(n, f, Exec(body, s1, env).value, env);
    }
  }

  /** The formatter after an element's start tag and attributes: `<name` and the attribute
      markup written, the element open, its `>` pending. */
  function Opened(f: Fmt, name: string, attrs: seq<AttrSyntax.Attribute>, env: Env): Fmt {
    Fmt(ClosePending(f).output + "<" + name + AttrsHtml(name, attrs, env),
        f.stack + [Entry(name, IsVoidElement(name))], TagOpened)
  }

  lemma OpenElement(name: string, attrs: seq<AttrSyntax.Attribute>, f: Fmt, env: Env)
    requires Valid(f) && NoSpread(attrs)
    ensures Exec([StartElement(name)] + LowerAttributes(attrs), f, env) == Ok(Opened(f, name, attrs, env))
    ensures Valid(Opened(f, name, attrs, env))
  {
    var s0 := SpoolFormatter.StartElement(f, name);
    ExecAppend([StartElement(name)], LowerAttributes(attrs), f, env);
    assert Exec([StartElement(name)], f, env) == Ok(s0);
    RunAttributes(name, attrs, s0, env);
  }

  /** Running `front` and then `end_element`. */
  lemma ExecThenEnd(front: seq<Op>, f: Fmt, s: Fmt, env: Env)
    requires Exec(front, f, env) == Ok(s)
    ensures Exec(front + [EndElement], f, env) == Lift(SpoolFormatter.EndElement(s))
  {
    ExecAppend(front, [EndElement], f, env);
  }

  /** A run that left the same elements open, wrote `html` after the pending `>` and does not
      leave a start tag pending. */
  lemma RanFrom(f: Fmt, g: Fmt, html: string)
    requires Valid(g) && g.stack == f.stack && g.state != TagOpened
    requires g.output == ClosePending(f).output + html
    ensures Ran(f, Ok(g), html)
  {
  }

  lemma CloseVoid(n: Node, f: Fmt, env: Env)
    requires n.Element? && Valid(f) && IsVoidElement(n.name) && n.children == []
    requires var s1 := Opened(f, n.name, n.attributes, env);
      Valid(s1) && Exec([StartElement(n.name)] + LowerAttributes(n.attributes), f, env) == Ok(s1)
    ensures
      var head := [StartElement(n.name)] + LowerAttributes(n.attributes);
      Ran(f, Exec(head + LowerNodes(n.children) + [EndElement], f, env), HtmlOf(n, env))
  {
    var head := [StartElement(n.name)] + LowerAttributes(n.attributes);
    var s1 := Opened(f, n.name, n.attributes, env);
    var g := Fmt(s1.output + ">", f.stack, if f.stack == [] then Idle else InContent);
    assert head + LowerNodes(n.children) == head;
    EndStep(s1.output, f.stack, Entry(n.name, true), TagOpened);
    ExecThenEnd(head, f, s1, env);
    VoidHtml(n, env);
    Associate(ClosePending(f).output + "<" + n.name + AttrsHtml(n.name, n.attributes, env), ">", "");
    TagRegroup(ClosePending(f).output, n.name, AttrsHtml(n.name, n.attributes, env));
    RanFrom(f, g, HtmlOf(n, env));
  }

  /** A void element without children is its start tag. */
  lemma VoidHtml(n: Node, env: Env)
    requires n.Element? && IsVoidElement(n.name) && n.children == []
    ensures HtmlOf(n, env) == "<" + n.name + AttrsHtml(n.name, n.attributes, env) + ">"
  {
    assert HtmlSeq(n.children, env) == "";
  }

  lemma TagRegroup(p: string, name: string, attrs: string)
    ensures p + "<" + name + attrs + ">" == p + ("<" + name + attrs + ">")
  {
  }

  lemma CloseNormal(n: Node, f: Fmt, g: Fmt, env: Env)
    requires n.Element? && Valid(f) && !IsVoidElement(n.name)
    requires
      var s1 := Opened(f, n.name, n.attributes, env);
      Exec([StartElement(n.name)] + LowerAttributes(n.attributes) + LowerNodes(n.children), f, env) == Ok(g) &&
      Ran(s1, Ok(g), HtmlSeq(n.children, env))
    ensures
      var head := [StartElement(n.name)] + LowerAttributes(n.attributes);
      Ran(f, Exec(head + LowerNodes(n.children) + [EndElement], f, env), HtmlOf(n, env))
  {
    var head := [StartElement(n.name)] + LowerAttributes(n.attributes);
    var h := Fmt(ClosePending(g).output + "</" + n.name + ">", f.stack, if f.stack == [] then Idle else InContent);
    EndStep(g.output, f.stack, Entry(n.name, false), g.state);
    assert SpoolFormatter.EndElement(g) == Ok(h);
    ExecThenEnd(head + LowerNodes(n.children), f, g, env);
    NormalMarkup(n, f, g, env);
    RanFrom(f, h, HtmlOf(n, env));
  }

  /** The markup of a normal element is its start tag, its children's markup and its end tag. */
  lemma NormalMarkup(n: Node, f: Fmt, g: Fmt, env: Env)
    requires n.Element? && !IsVoidElement(n.name)
    requires ClosePending(g).output == ClosePending(Opened(f, n.name, n.attributes, env)).output + HtmlSeq(n.children, env)
    ensures ClosePending(g).output + "</" + n.name + ">" == ClosePending(f).output + HtmlOf(n, env)
  {
    var open := "<" + n.name + AttrsHtml(n.name, n.attributes, env);
    NormalHtml(n, env);
    OpenedPending(f, n.name, n.attributes, env);
    Regroup(ClosePending(f).output, open, HtmlSeq(n.children, env), "</" + n.name + ">");
  }

  lemma NormalHtml(n: Node, env: Env)
    requires n.Element? && !IsVoidElement(n.name)
    ensures HtmlOf(n, env)
      == "<" + n.name + AttrsHtml(n.name, n.attributes, env) + ">" + HtmlSeq(n.children, env) + ("</" + n.name + ">")
  {
  }

  lemma OpenedPending(f: Fmt, name: string, attrs: seq<AttrSyntax.Attribute>, env: Env)
    ensures ClosePending(Opened(f, name, attrs, env)).output
      == ClosePending(f).output + ("<" + name + AttrsHtml(name, attrs, env)) + ">"
  {
  }

  lemma Regroup(p: string, open: string, kids: string, close: string)
    ensures p + open + ">" + kids + close == p + (open + ">" + kids + close)
  {
  }

  /** A child under a void element is refused: the generated code stops with
      `ContentInVoidElement` at the child. */
  lemma VoidChildRefused(name: string, text: string, f: Fmt, env: Env)
    requires IsVoidElement(name)
    ensures Exec(LowerNode(Element(name, true, [], [Text(text)])), f, env) == Err(Failed(ContentInVoidElement))
  {
    var s0 := SpoolFormatter.StartElement(f, name);
    var w := WriteContent(Lit(text), Some(Raw));
    assert LowerNodes([Text(text)]) == [w] by {
      assert [Text(text)][1..] == [];
    }
    assert LowerNode(Element(name, true, [], [Text(text)])) == [StartElement(name), w, EndElement];
    assert ContentRefused(s0);
    assert ExecOp(w, s0, env) == Err(Failed(ContentInVoidElement));
    assert [StartElement(name), w, EndElement][1..] == [w, EndElement];
  }

  /** A spread attribute stops the generated code, since the formatter has no method for it. */
  lemma SpreadStops(name: string, e: Token, f: Fmt, env: Env)
    ensures Exec(LowerNode(Element(name, false, [AttrSyntax.Spread(e)], [])), f, env) == Err(SpreadUndefined)
  {
    var ops := [StartElement(name), SpreadAttributes(e), EndElement];
    assert LowerAttributes([AttrSyntax.Spread(e)]) == [SpreadAttributes(e)];
    assert LowerNodes([]) == [];
    assert LowerNode(Element(name, false, [AttrSyntax.Spread(e)], [])) == ops;
    var s0 := SpoolFormatter.StartElement(f, name);
    assert ExecOp(ops[0], f, env) == Ok(s0);
    assert ops[1..] == [SpreadAttributes(e), EndElement];
    assert ExecOp(ops[1], s0, env) == Err(SpreadUndefined);
  }

  // ---------------------------------------------------------------------------------------
  // Parsed trees

  predicate SyntaxSpreadFree(n: SpoolSyntax.Node) {
    match n
    case Text(_) => true
    case Expression(_) => true
    case Element(_, _, attrs, cs) => NoSpread(attrs) && forall i :: 0 <= i < |cs| ==> SyntaxSpreadFree(cs[i])
    case Fragment(cs) => forall i :: 0 <= i < |cs| ==> SyntaxSpreadFree(cs[i])
  }

  /** A parsed, spread-free tree meets the generator's requirement: parsed names are lowercase,
      so the formatter's case-insensitive void test agrees with the parser's void flag, and the
      parser gives void elements no children. */
  lemma {:induction false} ParsedIsLowerable(n: SpoolSyntax.Node)
    requires SpoolSyntax.WellFormed(n) && SyntaxSpreadFree(n)
    ensures Lowerable(FromSyntax(n))
    decreases n, 1
  {
    match n
    case Text(_) =>
    case Expression(_) =>
    case Element(name, isVoid, attrs, cs) =>
      Ascii.LowerOfLower(name);
      ParsedAreLowerable(cs);
    case Fragment(cs) =>
      ParsedAreLowerable(cs);
  }

  lemma {:induction false} ParsedAreLowerable(ns: seq<SpoolSyntax.Node>)
    requires SpoolSyntax.AllWellFormed(ns) && forall i :: 0 <= i < |ns| ==> SyntaxSpreadFree(ns[i])
    ensures AllLowerable(FromSyntaxSeq(ns)) && |FromSyntaxSeq(ns)| == |ns|
    decreases ns, 0
  {
    if ns != [] {
      ParsedIsLowerable(ns[0]);
      ParsedAreLowerable(ns[1..]);
      var r := FromSyntaxSeq(ns);
      assert r == [FromSyntax(ns[0])] + FromSyntaxSeq(ns[1..]);
      forall i | 0 <= i < |r|
        ensures Lowerable(r[i])
      {
        if i > 0 {
          assert r[i] == FromSyntaxSeq(ns[1..])[i - 1];
        }
      }
    }
  }
}
