/** plait's code generator for `html!`: each template node becomes calls on plait's stateless
    `HtmlFormatter`, host control flow around such calls, or calls into host closures and
    components. The generated code is a list of operations; host expressions stay opaque tokens
    whose values an `Env` supplies. */
module PlaitLower {
  import opened Wrappers
  import opened Tokens
  import opened HtmlEscape
  import opened Markup
  import Url
  import F = PlaitFormatter
  import M = PlaitMaybeAttr
  import PlaitSyntax

  // ---------------------------------------------------------------------------------------
  // The tree the generator walks

  /** An attribute value: a string literal, `#(expr)` written unescaped, or an expression. */
  datatype AttrValue = TextValue(text: string) | RawValue(expr: Token) | ExprValue(expr: Token)

  /** `isMaybe`: the value decides whether the attribute is written at all. `isUrl`: the value
      is a URL and must pass the URL check. */
  datatype Attribute =
    | NameValue(name: string, isMaybe: bool, isUrl: bool, value: Option<AttrValue>)
    | Spread(expr: Token)

  datatype Node =
    | Text(text: string)
    | RawExpression(expr: Token)
    | Expression(expr: Token)
    | Children(expr: Token)
    | If(cond: IfCond)
    | For(pattern: Token, iter: Token, body: seq<Node>)
    | Match(scrutinee: Token, arms: seq<Arm>)
    | Component(path: Token, fields: seq<PlaitSyntax.Field>, attributes: seq<Attribute>, children: seq<Node>)
    | Element(name: string, isVoid: bool, attributes: seq<Attribute>, children: seq<Node>)

  datatype IfCond = IfCond(condition: Token, thenBranch: seq<Node>, elseBranch: Option<ElseBranch>)

  datatype ElseBranch = ElseIf(inner: IfCond) | Else(nodes: seq<Node>)

  datatype Arm = Arm(pattern: Token, guard: Option<Token>, body: seq<Node>)

  // ---------------------------------------------------------------------------------------
  // Generated operations

  /** An argument of a generated call: a string literal from the template, or a host
      expression. */
  datatype Arg = Lit(s: string) | Host(expr: Token)

  datatype Op =
    | WriteHtmlEscaped(text: string)
    | RenderRawTo(expr: Token)
    | RenderTo(expr: Token)
    | CallClosure(expr: Token)
    | IfElse(condition: Token, thenOps: seq<Op>, elseOps: ElseOps)
    | ForEach(pattern: Token, iter: Token, body: seq<Op>)
    | MatchOn(scrutinee: Token, arms: seq<ArmOps>)
    | RenderComponent(path: Token, fields: seq<PlaitSyntax.Field>, attrOps: seq<Op>, childOps: seq<Op>)
    | OpenTag(name: string)
    | CloseStartTag
    | CloseTag(name: string)
    | WriteAttributeEscaped(name: string, value: Arg)
    | WriteUrlAttributeEscaped(name: string, value: Arg)
    | WriteAttributeRaw(name: string, expr: Token)
    | WriteBooleanTrue(name: string)
    | WriteMaybeAttributeRaw(name: string, expr: Token)
    | WriteMaybeAttributeEscaped(name: string, expr: Token)
    | WriteOptionalUrlAttributeEscaped(name: string, expr: Token)

  /** What follows the then-block of a generated `if`: nothing, or an else block. */
  datatype ElseOps = NoElse | ElseBlock(ops: seq<Op>)

  /** A generated match arm: the pattern and guard as written, and the body's statements. */
  datatype ArmOps = ArmOps(pattern: Token, guard: Option<Token>, body: seq<Op>)

  /** A maybe-attribute without a value is never built by the parser; the generator treats it as
      unreachable, so it is a precondition here. */
  predicate Supported(a: Attribute) {
    !(a.NameValue? && a.isMaybe && a.value.None?)
  }

  predicate AllSupported(attrs: seq<Attribute>) {
    forall i :: 0 <= i < |attrs| ==> Supported(attrs[i])
  }

  /** Every attribute in the tree is supported. */
  predicate SupportedNode(n: Node) {
    match n
    case If(c) => SupportedIf(c)
    case For(_, _, body) => SupportedNodes(body)
    case Match(_, arms) => SupportedArms(arms)
    case Component(_, _, attrs, cs) => AllSupported(attrs) && SupportedNodes(cs)
    case Element(_, _, attrs, cs) => AllSupported(attrs) && SupportedNodes(cs)
    case _ => true
  }

  predicate SupportedNodes(ns: seq<Node>) {
    forall i :: 0 <= i < |ns| ==> SupportedNode(ns[i])
  }

  predicate SupportedIf(c: IfCond) {
    && SupportedNodes(c.thenBranch)
    && match c.elseBranch
      case None => true
      case Some(Else(ns)) => SupportedNodes(ns)
      case Some(ElseIf(inner)) => SupportedIf(inner)
  }

  predicate SupportedArms(arms: seq<Arm>) {
    forall i :: 0 <= i < |arms| ==> SupportedNodes(arms[i].body)
  }

  /** `push_statements_for_attribute`: the writer is chosen by (maybe, value kind, URL flag). */
  function LowerAttribute(a: Attribute): Op
    requires Supported(a)
  {
    match a
    case Spread(e) => CallClosure(e)
    case NameValue(name, isMaybe, isUrl, value) =>
      match value
      case None => WriteBooleanTrue(name)
      case Some(TextValue(t)) =>
        if isUrl then WriteUrlAttributeEscaped(name, Lit(t)) else WriteAttributeEscaped(name, Lit(t))
      case Some(RawValue(e)) =>
        if isMaybe then WriteMaybeAttributeRaw(name, e) else WriteAttributeRaw(name, e)
      case Some(ExprValue(e)) =>
        if isMaybe then
          if isUrl then WriteOptionalUrlAttributeEscaped(name, e) else WriteMaybeAttributeEscaped(name, e)
        else if isUrl then WriteUrlAttributeEscaped(name, Host(e))
        else WriteAttributeEscaped(name, Host(e))
  }

  /** One call per attribute, in source order. */
  function LowerAttributes(attrs: seq<Attribute>): (r: seq<Op>)
    requires AllSupported(attrs)
    ensures |r| == |attrs|
    ensures forall i :: 0 <= i < |attrs| ==> r[i] == LowerAttribute(attrs[i])
  {
    if attrs == [] then [] else [LowerAttribute(attrs[0])] + LowerAttributes(attrs[1..])
  }

  /** `push_statements_for_node`. */
  function LowerNode(n: Node): seq<Op>
    requires SupportedNode(n)
  {
    match n
    case Text(t) => [WriteHtmlEscaped(t)]
    case RawExpression(e) => [RenderRawTo(e)]
    case Expression(e) => [RenderTo(e)]
    case Children(e) => [CallClosure(e)]
    case If(c) => [LowerIf(c)]
    case For(p, it, body) => [ForEach(p, it, LowerNodes(body))]
    case Match(s, arms) => [MatchOn(s, LowerArms(arms))]
    case Component(p, fields, attrs, cs) => [RenderComponent(p, fields, LowerAttributes(attrs), LowerNodes(cs))]
    case Element(name, isVoid, attrs, cs) =>
      [OpenTag(name)] + LowerAttributes(attrs) + [CloseStartTag]
      + (if isVoid then [] else LowerNodes(cs) + [CloseTag(name)])
  }

  function LowerNodes(ns: seq<Node>): seq<Op>
    requires SupportedNodes(ns)
  {
    if ns == [] then [] else LowerNode(ns[0]) + LowerNodes(ns[1..])
  }

  function LowerIf(c: IfCond): Op
    requires SupportedIf(c)
  {
    var elseOps :=
      match c.elseBranch
      case None => NoElse
      case Some(Else(ns)) => ElseBlock(LowerNodes(ns))
      case Some(ElseIf(inner)) => ElseBlock([LowerIf(inner)]);
    IfElse(c.condition, LowerNodes(c.thenBranch), elseOps)
  }

  /** Each arm keeps its pattern and guard, and the arms keep their order. */
  function LowerArms(arms: seq<Arm>): (r: seq<ArmOps>)
    requires SupportedArms(arms)
    ensures |r| == |arms|
    ensures forall i :: 0 <= i < |arms| ==> r[i].pattern == arms[i].pattern && r[i].guard == arms[i].guard
  {
    if arms == [] then []
    else
      assert SupportedNodes(arms[0].body);
      [ArmOps(arms[0].pattern, arms[0].guard, LowerNodes(arms[0].body))] + LowerArms(arms[1..])
  }

  // ---------------------------------------------------------------------------------------
  // Running the generated code

  /** What the host code does: the text an expression renders as (escaped by `IntoHtml`, or
      raw), the `Display` text of an attribute value, maybe-attribute and optional values, the
      text a closure writes, booleans, loop lengths, which arm matches, and what a component
      writes given the text of its attributes and of its children. */
  datatype Env = Env(
    html: Token -> string,
    raw: Token -> string,
    display: Token -> string,
    maybe: Token -> M.MaybeAttr,
    optional: Token -> Option<string>,
    closure: Token -> string,
    flag: Token -> bool,
    count: Token -> nat,
    matches: (Token, Token, Option<Token>) -> bool,
    component: (Token, seq<PlaitSyntax.Field>, string, string) -> string)

  function ArgText(a: Arg, env: Env): string {
    match a
    case Lit(s) => s
    case Host(e) => env.display(e)
  }

  function Exec(ops: seq<Op>, out: string, env: Env): string
    decreases ops, 0, 0
  {
    if ops == [] then out else Exec(ops[1..], ExecOp(ops[0], out, env), env)
  }

  function ExecOp(op: Op, out: string, env: Env): string
    decreases op, 0, 0
  {
    match op
    case WriteHtmlEscaped(t) => F.WriteHtmlEscaped(out, t)
    case RenderRawTo(e) => out + env.raw(e)
    case RenderTo(e) => out + env.html(e)
    case CallClosure(e) => out + env.closure(e)
    case IfElse(c, t, NoElse) => if env.flag(c) then Exec(t, out, env) else out
    case IfElse(c, t, ElseBlock(els)) => if env.flag(c) then Exec(t, out, env) else Exec(els, out, env)
    case ForEach(_, it, body) => Repeat(body, env.count(it), out, env)
    case MatchOn(s, arms) => ExecArms(s, arms, out, env)
    case RenderComponent(p, fields, a, c) => out + env.component(p, fields, Exec(a, "", env), Exec(c, "", env))
    case OpenTag(name) => F.OpenTag(out, name)
    case CloseStartTag => F.CloseStartTag(out)
    case CloseTag(name) => F.CloseTag(out, name)
    case WriteAttributeEscaped(name, v) => F.WriteAttributeEscaped(out, name, ArgText(v, env))
    case WriteUrlAttributeEscaped(name, v) => F.WriteUrlAttributeEscaped(out, name, ArgText(v, env))
    case WriteAttributeRaw(name, e) => F.WriteAttributeRaw(out, name, env.display(e))
    case WriteBooleanTrue(name) => F.WriteBooleanAttribute(out, name, true)
    case WriteMaybeAttributeRaw(name, e) => M.WriteMaybeAttributeRaw(out, name, env.maybe(e))
    case WriteMaybeAttributeEscaped(name, e) => M.WriteMaybeAttributeEscaped(out, name, env.maybe(e))
    case WriteOptionalUrlAttributeEscaped(name, e) => F.WriteOptionalUrlAttributeEscaped(out, name, env.optional(e))
  }

  function Repeat(body: seq<Op>, n: nat, out: string, env: Env): string
    decreases body, 1, n
  {
    if n == 0 then out else Repeat(body, n - 1, Exec(body, out, env), env)
  }

  /** A Rust `match` runs the first arm whose pattern and guard accept the scrutinee. */
  function ExecArms(s: Token, arms: seq<ArmOps>, out: string, env: Env): string
    decreases arms, 0, 0
  {
    if arms == [] then out
    else if env.matches(s, arms[0].pattern, arms[0].guard) then Exec(arms[0].body, out, env)
    else ExecArms(s, arms[1..], out, env)
  }

  // ---------------------------------------------------------------------------------------
  // The markup a tree stands for

  /** A URL attribute's markup: the escaped attribute when the name is a URL attribute and the
      URL passes the check, and nothing otherwise. */
  function UrlMarkup(name: string, url: string): string {
    if Url.IsUrlAttribute(name) && Url.IsUrlSafe(url) then AttrText(name, Escape(url)) else ""
  }

  /** A maybe-attribute's markup: a flag gives the bare name or nothing, an option gives the
      attribute (escaped or not) or nothing. */
  function MaybeMarkup(name: string, m: M.MaybeAttr, escaped: bool): string {
    match m
    case BoolAttr(b) => if b then " " + name else ""
    case OptAttr(None) => ""
    case OptAttr(Some(v)) => AttrText(name, if escaped then Escape(v) else v)
  }

  function AttrMarkup(a: Attribute, env: Env): string {
    match a
    case Spread(e) => env.closure(e)
    case NameValue(name, isMaybe, isUrl, value) =>
      match value
      case None => " " + name
      case Some(TextValue(t)) => if isUrl then UrlMarkup(name, t) else AttrText(name, Escape(t))
      case Some(RawValue(e)) => if isMaybe then MaybeMarkup(name, env.maybe(e), false) else AttrText(name, env.display(e))
      case Some(ExprValue(e)) =>
        if isMaybe && isUrl then (if env.optional(e).Some? then UrlMarkup(name, env.optional(e).value) else "")
        else if isMaybe then MaybeMarkup(name, env.maybe(e), true)
        else if isUrl then UrlMarkup(name, env.display(e))
        else AttrText(name, Escape(env.display(e)))
  }

  function AttrsMarkup(attrs: seq<Attribute>, env: Env): string {
    if attrs == [] then "" else AttrMarkup(attrs[0], env) + AttrsMarkup(attrs[1..], env)
  }

  /** The markup of a node: escaped text, rendered expressions, and elements as start tag,
      attributes and `>`, then for a non-void element its children and end tag. */
  function MarkupOf(n: Node, env: Env): string
    decreases n, 0
  {
    match n
    case Text(t) => Escape(t)
    case RawExpression(e) => env.raw(e)
    case Expression(e) => env.html(e)
    case Children(e) => env.closure(e)
    case If(c) => MarkupIf(c, env)
    case For(_, it, body) => Times(MarkupSeq(body, env), env.count(it))
    case Match(s, arms) => MarkupArms(s, arms, env)
    case Component(p, fields, attrs, cs) => env.component(p, fields, AttrsMarkup(attrs, env), MarkupSeq(cs, env))
    case Element(name, isVoid, attrs, cs) =>
      "<" + name + AttrsMarkup(attrs, env) + ">"
      + (if isVoid then "" else MarkupSeq(cs, env) + "</" + name + ">")
  }

  function MarkupSeq(ns: seq<Node>, env: Env): string
    decreases ns, 0
  {
    if ns == [] then "" else MarkupOf(ns[0], env) + MarkupSeq(ns[1..], env)
  }

  function MarkupIf(c: IfCond, env: Env): string
    decreases c, 0
  {
    if env.flag(c.condition) then MarkupSeq(c.thenBranch, env)
    else match c.elseBranch
      case None => ""
      case Some(Else(ns)) => MarkupSeq(ns, env)
      case Some(ElseIf(inner)) => MarkupIf(inner, env)
  }

  function MarkupArms(s: Token, arms: seq<Arm>, env: Env): string
    decreases arms, 0
  {
    if arms == [] then ""
    else if env.matches(s, arms[0].pattern, arms[0].guard) then MarkupSeq(arms[0].body, env)
    else MarkupArms(s, arms[1..], env)
  }

  function Times(s: string, n: nat): string {
    if n == 0 then "" else s + Times(s, n - 1)
  }

  /** The void flag of every element agrees with the formatter's void list, as the parser
      guarantees. */
  predicate VoidConsistent(n: Node) {
    match n
    case If(c) => VoidConsistentIf(c)
    case For(_, _, body) => AllVoidConsistent(body)
    case Match(_, arms) => forall i :: 0 <= i < |arms| ==> AllVoidConsistent(arms[i].body)
    case Component(_, _, _, cs) => AllVoidConsistent(cs)
    case Element(name, isVoid, _, cs) => (isVoid <==> F.IsVoidElement(name)) && AllVoidConsistent(cs)
    case _ => true
  }

  predicate AllVoidConsistent(ns: seq<Node>) {
    forall i :: 0 <= i < |ns| ==> VoidConsistent(ns[i])
  }

  predicate VoidConsistentIf(c: IfCond) {
    && AllVoidConsistent(c.thenBranch)
    && match c.elseBranch
      case None => true
      case Some(Else(ns)) => AllVoidConsistent(ns)
      case Some(ElseIf(inner)) => VoidConsistentIf(inner)
  }

  // ---------------------------------------------------------------------------------------
  // Lemmas

  lemma {:induction false} ExecAppend(a: seq<Op>, b: seq<Op>, out: string, env: Env)
    ensures Exec(a + b, out, env) == Exec(b, Exec(a, out, env), env)
    decreases |a|
  {
    if a == [] {
      assert a + b == b;
    } else {
      assert (a + b)[0] == a[0];
      assert (a + b)[1..] == a[1..] + b;
      ExecAppend(a[1..], b, ExecOp(a[0], out, env), env);
    }
  }

  /** A one-operation program is that operation. */
  lemma ExecOne(op: Op, out: string, env: Env)
    ensures Exec([op], out, env) == ExecOp(op, out, env)
  {
    assert [op][1..] == [];
  }

  lemma TextAttributeWrites(name: string, isMaybe: bool, isUrl: bool, t: string, out: string, env: Env)
    ensures var a := NameValue(name, isMaybe, isUrl, Some(TextValue(t)));
      ExecOp(LowerAttribute(a), out, env) == out + AttrMarkup(a, env)
  {
    if isUrl {
      assert ExecOp(WriteUrlAttributeEscaped(name, Lit(t)), out, env) == F.WriteUrlAttributeEscaped(out, name, t);
    } else {
      assert ExecOp(WriteAttributeEscaped(name, Lit(t)), out, env) == F.WriteAttributeEscaped(out, name, t);
    }
  }

  lemma RawAttributeWrites(name: string, isMaybe: bool, isUrl: bool, e: Token, out: string, env: Env)
    ensures var a := NameValue(name, isMaybe, isUrl, Some(RawValue(e)));
      ExecOp(LowerAttribute(a), out, env) == out + AttrMarkup(a, env)
  {
    if isMaybe {
      M.MaybeAttrMeaning(env.maybe(e), out, name);
      assert ExecOp(WriteMaybeAttributeRaw(name, e), out, env) == M.WriteRaw(env.maybe(e), out, name);
    } else {
      assert ExecOp(WriteAttributeRaw(name, e), out, env) == F.WriteAttributeRaw(out, name, env.display(e));
    }
  }

  lemma OptionalUrlAttributeWrites(name: string, isUrl: bool, e: Token, out: string, env: Env)
    requires isUrl
    ensures var a := NameValue(name, true, isUrl, Some(ExprValue(e)));
      ExecOp(LowerAttribute(a), out, env) == out + AttrMarkup(a, env)
  {
    var o := env.optional(e);
    assert ExecOp(WriteOptionalUrlAttributeEscaped(name, e), out, env) == F.WriteOptionalUrlAttributeEscaped(out, name, o);
    if o.Some? {
      UrlWrites(out, name, o.value);
    } else {
      assert out + "" == out;
    }
  }

  /** The URL writer appends the URL attribute's markup. */
  lemma UrlWrites(out: string, name: string, url: string)
    ensures F.WriteUrlAttributeEscaped(out, name, url) == out + UrlMarkup(name, url)
  {
    assert out + "" == out;
  }

  lemma MaybeAttributeWrites(name: string, isUrl: bool, e: Token, out: string, env: Env)
    requires !isUrl
    ensures var a := NameValue(name, true, isUrl, Some(ExprValue(e)));
      ExecOp(LowerAttribute(a), out, env) == out + AttrMarkup(a, env)
  {
    M.MaybeAttrMeaning(env.maybe(e), out, name);
    assert ExecOp(WriteMaybeAttributeEscaped(name, e), out, env) == M.WriteEscaped(env.maybe(e), out, name);
  }

  lemma PlainExprAttributeWrites(name: string, isUrl: bool, e: Token, out: string, env: Env)
    ensures var a := NameValue(name, false, isUrl, Some(ExprValue(e)));
      ExecOp(LowerAttribute(a), out, env) == out + AttrMarkup(a, env)
  {
    if isUrl {
      assert ExecOp(WriteUrlAttributeEscaped(name, Host(e)), out, env) == F.WriteUrlAttributeEscaped(out, name, env.display(e));
    } else {
      assert ExecOp(WriteAttributeEscaped(name, Host(e)), out, env) == F.WriteAttributeEscaped(out, name, env.display(e));
    }
  }

  /** Each attribute call appends that attribute's markup. */
  lemma AttributeWrites(a: Attribute, out: string, env: Env)
    requires Supported(a)
    ensures ExecOp(LowerAttribute(a), out, env) == out + AttrMarkup(a, env)
  {
    match a
    case Spread(e) =>
      assert ExecOp(CallClosure(e), out, env) == out + env.closure(e);
    case NameValue(name, isMaybe, isUrl, value) =>
      match value
      case None =>
        assert ExecOp(WriteBooleanTrue(name), out, env) == out + " " + name;
      case Some(TextValue(t)) =>
        TextAttributeWrites(name, isMaybe, isUrl, t, out, env);
      case Some(RawValue(e)) =>
        RawAttributeWrites(name, isMaybe, isUrl, e, out, env);
      case Some(ExprValue(e)) =>
        if !isMaybe {
          PlainExprAttributeWrites(name, isUrl, e, out, env);
        } else if isUrl {
          OptionalUrlAttributeWrites(name, isUrl, e, out, env);
        } else {
          MaybeAttributeWrites(name, isUrl, e, out, env);
        }
  }

  lemma {:induction false} AttributesWrite(attrs: seq<Attribute>, out: string, env: Env)
    requires AllSupported(attrs)
    ensures Exec(LowerAttributes(attrs), out, env) == out + AttrsMarkup(attrs, env)
    decreases |attrs|
  {
    if attrs != [] {
      AttributesWrite(attrs[1..], out + AttrMarkup(attrs[0], env), env);
      AttributesStep(attrs, out, env);
    }
  }

  /** The first attribute's call, then the others'. */
  lemma AttributesStep(attrs: seq<Attribute>, out: string, env: Env)
    requires attrs != [] && AllSupported(attrs)
    requires var mid := out + AttrMarkup(attrs[0], env);
      Exec(LowerAttributes(attrs[1..]), mid, env) == mid + AttrsMarkup(attrs[1..], env)
    ensures Exec(LowerAttributes(attrs), out, env) == out + AttrsMarkup(attrs, env)
  {
    var mid := out + AttrMarkup(attrs[0], env);
    AttributeWrites(attrs[0], out, env);
    LoweredHead(attrs, out, mid, env);
    MarkupHead(attrs, out, env);
  }

  lemma LoweredHead(attrs: seq<Attribute>, out: string, mid: string, env: Env)
    requires attrs != [] && AllSupported(attrs)
    requires ExecOp(LowerAttribute(attrs[0]), out, env) == mid
    ensures Exec(LowerAttributes(attrs), out, env) == Exec(LowerAttributes(attrs[1..]), mid, env)
  {
    assert LowerAttributes(attrs) == [LowerAttribute(attrs[0])] + LowerAttributes(attrs[1..]);
    ExecStep(LowerAttribute(attrs[0]), LowerAttributes(attrs[1..]), out, mid, env);
  }

  lemma MarkupHead(attrs: seq<Attribute>, out: string, env: Env)
    requires attrs != []
    ensures out + AttrsMarkup(attrs, env) == (out + AttrMarkup(attrs[0], env)) + AttrsMarkup(attrs[1..], env)
  {
  }

  /** A program that starts with an operation runs the rest from where the operation left off. */
  lemma ExecStep(op: Op, ops: seq<Op>, out: string, mid: string, env: Env)
    requires ExecOp(op, out, env) == mid
    ensures Exec([op] + ops, out, env) == Exec(ops, mid, env)
  {
    assert ([op] + ops)[1..] == ops;
  }

  /** Text and expressions lower to one call that appends their markup. */
  lemma LeafWrites(n: Node, out: string, env: Env)
    requires n.Text? || n.RawExpression? || n.Expression? || n.Children?
    ensures Exec(LowerNode(n), out, env) == out + MarkupOf(n, env)
  {
    match n
    case Text(t) =>
      ExecOne(WriteHtmlEscaped(t), out, env);
    case RawExpression(e) =>
      ExecOne(RenderRawTo(e), out, env);
    case Expression(e) =>
      ExecOne(RenderTo(e), out, env);
    case Children(e) =>
      ExecOne(CallClosure(e), out, env);
  }

  /** The generator is correct: for a tree whose void flags agree with the void list, the
      generated code appends exactly the tree's markup. */
  lemma {:induction false} NodeWrites(n: Node, out: string, env: Env)
    requires SupportedNode(n) && VoidConsistent(n)
    ensures Exec(LowerNode(n), out, env) == out + MarkupOf(n, env)
    decreases n, 1
  {
    match n
    case Text(_) =>
      LeafWrites(n, out, env);
    case RawExpression(_) =>
      LeafWrites(n, out, env);
    case Expression(_) =>
      LeafWrites(n, out, env);
    case Children(_) =>
      LeafWrites(n, out, env);
    case If(c) =>
      IfWrites(c, out, env);
    case For(p, it, body) =>
      ExecOne(ForEach(p, it, LowerNodes(body)), out, env);
      RepeatWrites(body, env.count(it), out, env);
    case Match(s, arms) =>
      ExecOne(MatchOn(s, LowerArms(arms)), out, env);
      ArmsWrite(s, arms, out, env);
    case Component(_, _, _, _) =>
      ComponentWrites(n, out, env);
    case Element(_, _, _, _) =>
      ElementWrites(n, out, env);
  }

  lemma {:induction false} NodesWrite(ns: seq<Node>, out: string, env: Env)
    requires SupportedNodes(ns) && AllVoidConsistent(ns)
    ensures Exec(LowerNodes(ns), out, env) == out + MarkupSeq(ns, env)
    decreases ns, 0
  {
    if ns != [] {
      var x := MarkupOf(ns[0], env);
      NodeWrites(ns[0], out, env);
      NodesWrite(ns[1..], out + x, env);
      ExecThen(LowerNode(ns[0]), LowerNodes(ns[1..]), x, MarkupSeq(ns[1..], env), out, env);
    }
  }

  lemma {:induction false} IfWrites(c: IfCond, out: string, env: Env)
    requires SupportedIf(c) && VoidConsistentIf(c)
    ensures Exec([LowerIf(c)], out, env) == out + MarkupIf(c, env)
    decreases c, 0
  {
    if env.flag(c.condition) {
      NodesWrite(c.thenBranch, out, env);
    } else {
      match c.elseBranch
      case None =>
      case Some(Else(ns)) =>
        NodesWrite(ns, out, env);
      case Some(ElseIf(inner)) =>
        IfWrites(inner, out, env);
    }
  }

  lemma {:induction false} RepeatWrites(body: seq<Node>, k: nat, out: string, env: Env)
    requires SupportedNodes(body) && AllVoidConsistent(body)
    ensures Repeat(LowerNodes(body), k, out, env) == out + Times(MarkupSeq(body, env), k)
    decreases body, 2, k
  {
    if k > 0 {
      NodesWrite(body, out, env);
      RepeatWrites(body, k - 1, out + MarkupSeq(body, env), env);
    }
  }

  lemma {:induction false} ArmsWrite(s: Token, arms: seq<Arm>, out: string, env: Env)
    requires SupportedArms(arms) && forall i :: 0 <= i < |arms| ==> AllVoidConsistent(arms[i].body)
    ensures ExecArms(s, LowerArms(arms), out, env) == out + MarkupArms(s, arms, env)
    decreases arms, 0
  {
    if arms != [] {
      var lowered := LowerArms(arms);
      assert lowered[0].body == LowerNodes(arms[0].body);
      assert lowered[1..] == LowerArms(arms[1..]);
      if env.matches(s, arms[0].pattern, arms[0].guard) {
        NodesWrite(arms[0].body, out, env);
      } else {
        ArmsWrite(s, arms[1..], out, env);
      }
    }
  }

  /** The start tag: `<name`, the attributes' markup, `>`. */
  lemma StartTagWrites(name: string, attrs: seq<Attribute>, out: string, env: Env)
    requires AllSupported(attrs)
    ensures Exec([OpenTag(name)] + LowerAttributes(attrs) + [CloseStartTag], out, env)
      == out + ("<" + name + AttrsMarkup(attrs, env) + ">")
  {
    var m := AttrsMarkup(attrs, env);
    OpenThenAttributes(name, attrs, out, env);
    ExecAppend([OpenTag(name)] + LowerAttributes(attrs), [CloseStartTag], out, env);
    ExecOne(CloseStartTag, out + "<" + name + m, env);
    TagRegroup(out, name, m);
  }

  lemma OpenThenAttributes(name: string, attrs: seq<Attribute>, out: string, env: Env)
    requires AllSupported(attrs)
    ensures Exec([OpenTag(name)] + LowerAttributes(attrs), out, env) == out + "<" + name + AttrsMarkup(attrs, env)
  {
    ExecAppend([OpenTag(name)], LowerAttributes(attrs), out, env);
    ExecOne(OpenTag(name), out, env);
    AttributesWrite(attrs, out + "<" + name, env);
  }

  lemma TagRegroup(out: string, name: string, attrs: string)
    ensures out + "<" + name + attrs + ">" == out + ("<" + name + attrs + ">")
  {
  }

  /** Children followed by the end tag of a non-void element. */
  lemma BodyWrites(name: string, cs: seq<Node>, out: string, env: Env)
    requires SupportedNodes(cs) && AllVoidConsistent(cs) && !F.IsVoidElement(name)
    ensures Exec(LowerNodes(cs) + [CloseTag(name)], out, env) == out + (MarkupSeq(cs, env) + "</" + name + ">")
    decreases cs, 1
  {
    ExecAppend(LowerNodes(cs), [CloseTag(name)], out, env);
    NodesWrite(cs, out, env);
    ExecOne(CloseTag(name), out + MarkupSeq(cs, env), env);
    CloseRegroup(out, MarkupSeq(cs, env), name);
  }

  lemma CloseRegroup(out: string, kids: string, name: string)
    ensures out + kids + "</" + name + ">" == out + (kids + "</" + name + ">")
  {
  }

  /** A component receives the markup of its attributes and of its children. */
  lemma {:induction false} ComponentWrites(n: Node, out: string, env: Env)
    requires n.Component? && SupportedNode(n) && VoidConsistent(n)
    ensures Exec(LowerNode(n), out, env) == out + MarkupOf(n, env)
    decreases n, 0
  {
    ComponentShape(n, env);
    ComponentPartsWrite(n.path, n.fields, n.attributes, n.children, out, env);
  }

  lemma ComponentShape(n: Node, env: Env)
    requires n.Component? && SupportedNode(n)
    ensures LowerNode(n) == [RenderComponent(n.path, n.fields, LowerAttributes(n.attributes), LowerNodes(n.children))]
    ensures MarkupOf(n, env) == env.component(n.path, n.fields, AttrsMarkup(n.attributes, env), MarkupSeq(n.children, env))
  {
  }

  /** A component given by its parts: the callee receives the rendered attributes and children. */
  lemma {:induction false} ComponentPartsWrite(p: Token, fields: seq<PlaitSyntax.Field>, attrs: seq<Attribute>, cs: seq<Node>,
                                               out: string, env: Env)
    requires AllSupported(attrs) && SupportedNodes(cs) && AllVoidConsistent(cs)
    ensures Exec([RenderComponent(p, fields, LowerAttributes(attrs), LowerNodes(cs))], out, env)
      == out + env.component(p, fields, AttrsMarkup(attrs, env), MarkupSeq(cs, env))
    decreases cs, 2
  {
    ExecOne(RenderComponent(p, fields, LowerAttributes(attrs), LowerNodes(cs)), out, env);
    AttributesWrite(attrs, "", env);
    NodesWrite(cs, "", env);
    EmptyThen(AttrsMarkup(attrs, env));
    EmptyThen(MarkupSeq(cs, env));
  }

  lemma EmptyThen(x: string)
    ensures "" + x == x
  {
  }

  lemma {:induction false} ElementWrites(n: Node, out: string, env: Env)
    requires n.Element? && SupportedNode(n) && VoidConsistent(n)
    ensures Exec(LowerNode(n), out, env) == out + MarkupOf(n, env)
    decreases n, 0
  {
    ElementLowered(n);
    ElementMarkup(n, env);
    ElementPartsWrite(n.name, n.isVoid, n.attributes, n.children, out, env);
  }

  /** The code of an element: the start tag's statements, then, unless void, the children's and
      `close_tag`. */
  lemma ElementLowered(n: Node)
    requires n.Element? && SupportedNode(n)
    ensures LowerNode(n)
      == [OpenTag(n.name)] + LowerAttributes(n.attributes) + [CloseStartTag]
         + (if n.isVoid then [] else LowerNodes(n.children) + [CloseTag(n.name)])
  {
  }

  lemma ElementMarkup(n: Node, env: Env)
    requires n.Element?
    ensures MarkupOf(n, env)
      == "<" + n.name + AttrsMarkup(n.attributes, env) + ">"
         + (if n.isVoid then "" else MarkupSeq(n.children, env) + "</" + n.name + ">")
  {
  }

  /** An element given by its parts: the start tag, then for a non-void element the children
      and the end tag. */
  lemma {:induction false} ElementPartsWrite(name: string, isVoid: bool, attrs: seq<Attribute>, cs: seq<Node>,
                                             out: string, env: Env)
    requires AllSupported(attrs) && SupportedNodes(cs) && AllVoidConsistent(cs)
    requires isVoid <==> F.IsVoidElement(name)
    ensures Exec([OpenTag(name)] + LowerAttributes(attrs) + [CloseStartTag]
                 + (if isVoid then [] else LowerNodes(cs) + [CloseTag(name)]), out, env)
      == out + ("<" + name + AttrsMarkup(attrs, env) + ">"
                + (if isVoid then "" else MarkupSeq(cs, env) + "</" + name + ">"))
    decreases cs, 3
  {
    var start := [OpenTag(name)] + LowerAttributes(attrs) + [CloseStartTag];
    var tag := "<" + name + AttrsMarkup(attrs, env) + ">";
    if isVoid {
      StartTagWrites(name, attrs, out, env);
      assert start + [] == start;
      assert tag + "" == tag;
    } else {
      NormalPartsWrite(name, attrs, cs, out, env);
    }
  }

  /** The non-void case: start tag, children, end tag. */
  lemma {:induction false} NormalPartsWrite(name: string, attrs: seq<Attribute>, cs: seq<Node>, out: string, env: Env)
    requires AllSupported(attrs) && SupportedNodes(cs) && AllVoidConsistent(cs)
    requires !F.IsVoidElement(name)
    ensures Exec([OpenTag(name)] + LowerAttributes(attrs) + [CloseStartTag] + (LowerNodes(cs) + [CloseTag(name)]), out, env)
      == out + ("<" + name + AttrsMarkup(attrs, env) + ">" + (MarkupSeq(cs, env) + "</" + name + ">"))
    decreases cs, 2
  {
    var start := [OpenTag(name)] + LowerAttributes(attrs) + [CloseStartTag];
    var tag := "<" + name + AttrsMarkup(attrs, env) + ">";
    var rest := LowerNodes(cs) + [CloseTag(name)];
    var body := MarkupSeq(cs, env) + "</" + name + ">";
    StartTagWrites(name, attrs, out, env);
    BodyWrites(name, cs, out + tag, env);
    ExecThen(start, rest, tag, body, out, env);
  }

  /** Running two programs in turn appends what each appends. */
  lemma ExecThen(a: seq<Op>, b: seq<Op>, x: string, y: string, out: string, env: Env)
    requires Exec(a, out, env) == out + x
    requires Exec(b, out + x, env) == out + x + y
    ensures Exec(a + b, out, env) == out + (x + y)
  {
    ExecAppend(a, b, out, env);
    assert out + x + y == out + (x + y);
  }

  /** A URL attribute never writes a URL that fails the check: its markup is empty, or it is the
      escaped attribute of a URL attribute name whose value passes. */
  lemma UrlAttributeIsChecked(a: Attribute, env: Env, out: string)
    requires a.NameValue? && a.isUrl && Supported(a) && a.value.Some? && !a.value.value.RawValue?
    ensures var r := ExecOp(LowerAttribute(a), out, env);
      r == out || exists u :: r == out + AttrText(a.name, Escape(u)) && Url.IsUrlAttribute(a.name) && Url.IsUrlSafe(u)
  {
    AttributeWrites(a, out, env);
  }

  /** A void element's children are never lowered: its code is the start tag alone. */
  lemma VoidChildrenIgnored(name: string, attrs: seq<Attribute>, cs1: seq<Node>, cs2: seq<Node>)
    requires AllSupported(attrs) && SupportedNodes(cs1) && SupportedNodes(cs2)
    ensures LowerNode(Element(name, true, attrs, cs1)) == LowerNode(Element(name, true, attrs, cs2))
    ensures |LowerNode(Element(name, true, attrs, cs1))| == |attrs| + 2
  {
  }
}
