/** plait's `attrs!` macro: a list of attributes becomes a block that creates an `Attributes`
    collection with one slot per attribute and then makes one call on it per attribute. The
    host expressions stay opaque tokens whose values an `Env` supplies. */
module PlaitAttrsLower {
  import opened Wrappers
  import opened Tokens
  import AttrSyntax
  import opened PlaitEscape
  import opened PlaitRender
  import PA = PlaitAttributes
  import AttrMap

  /** The value argument of an `add` call: the template's string literal or a host expression. */
  datatype Arg = Lit(s: string) | Host(expr: Token)

  /** The flag of an `add_boolean` call: the literal `true`, or a host expression. */
  datatype Flag = Always | FlagOf(expr: Token)

  datatype Call =
    | AddCall(name: string, value: Arg, mode: Option<EscapeMode>)
    | AddOptionalCall(name: string, expr: Token, mode: Option<EscapeMode>)
    | AddBooleanCall(name: string, flag: Flag)
    | MergeCall(expr: Token)

  /** The generated block: the capacity passed to `with_capacity` and the calls in order. */
  datatype Code = Code(capacity: nat, calls: seq<Call>)

  /** The mode written after `:` in a group becomes the runtime escape mode of the same name;
      without one the runtime resolves the mode from the attribute's name. */
  function ModeOf(m: Option<AttrSyntax.Mode>): (r: Option<EscapeMode>)
    ensures r.None? <==> m.None?
    ensures r == Some(Raw) <==> m == Some(AttrSyntax.Raw)
    ensures r == Some(Html) <==> m == Some(AttrSyntax.Html)
  {
    match m
    case None => None
    case Some(Raw) => Some(Raw)
    case Some(Html) => Some(Html)
  }

  /** The call generated for one attribute. A string literal is added raw: the macro's literal
      is trusted text. */
  function CallFor(a: AttrSyntax.Attribute): Call {
    match a
    case Spread(e) => MergeCall(e)
    case NameValue(name, None) => AddBooleanCall(name, Always)
    case NameValue(name, Some(Literal(v))) => AddCall(name, Lit(v), Some(Raw))
    case NameValue(name, Some(Dynamic(g))) => AddCall(name, Host(g.expr), ModeOf(g.mode))
    case NameValue(name, Some(Optional(g))) => AddOptionalCall(name, g.expr, ModeOf(g.mode))
    case NameValue(name, Some(Boolean(c))) => AddBooleanCall(name, FlagOf(c))
  }

  function Calls(attrs: seq<AttrSyntax.Attribute>): (r: seq<Call>)
    ensures |r| == |attrs|
    ensures forall i :: 0 <= i < |attrs| ==> r[i] == CallFor(attrs[i])
  {
    if attrs == [] then [] else [CallFor(attrs[0])] + Calls(attrs[1..])
  }

  /** `attrs_impl`: the capacity is the number of calls, one per attribute. */
  function AttrsImpl(attrs: seq<AttrSyntax.Attribute>): (r: Code)
    ensures r.capacity == |r.calls| == |attrs|
  {
    var calls := Calls(attrs);
    Code(|calls|, calls)
  }

  // ---------------------------------------------------------------------------------------
  // Running the generated block

  /** What the host expressions evaluate to: values, optional values, flags, and the
      collections that spreads merge in. */
  datatype Env = Env(
    value: Token -> Value,
    optional: Token -> Option<Value>,
    flag: Token -> bool,
    spread: Token -> PA.Attributes)

  function ArgValue(a: Arg, env: Env): Value {
    match a
    case Lit(s) => Str(s)
    case Host(e) => env.value(e)
  }

  function FlagValue(f: Flag, env: Env): bool {
    match f
    case Always => true
    case FlagOf(e) => env.flag(e)
  }

  /** Every collection merged in is a well-formed map, as any `Attributes` value is. */
  predicate SpreadsValid(calls: seq<Call>, env: Env) {
    forall i :: 0 <= i < |calls| ==> calls[i].MergeCall? ==> PA.Valid(env.spread(calls[i].expr))
  }

  function Step(a: PA.Attributes, c: Call, env: Env): (r: PA.Attributes)
    requires c.MergeCall? ==> PA.Valid(env.spread(c.expr))
  {
    match c
    case AddCall(name, v, mode) => PA.Add(a, name, ArgValue(v, env), mode)
    case AddOptionalCall(name, e, mode) => PA.AddOptional(a, name, env.optional(e), mode)
    case AddBooleanCall(name, f) => PA.AddBoolean(a, name, FlagValue(f, env))
    case MergeCall(e) => PA.Merge(a, env.spread(e))
  }

  function RunCalls(calls: seq<Call>, a: PA.Attributes, env: Env): PA.Attributes
    requires SpreadsValid(calls, env)
  {
    if calls == [] then a else RunCalls(calls[1..], Step(a, calls[0], env), env)
  }

  /** The block's value: the calls applied in order to a fresh collection. */
  function Run(code: Code, env: Env): PA.Attributes
    requires SpreadsValid(code.calls, env)
  {
    RunCalls(code.calls, PA.WithCapacity(code.capacity), env)
  }

  predicate AttrSpreadsValid(attrs: seq<AttrSyntax.Attribute>, env: Env) {
    forall i :: 0 <= i < |attrs| ==> attrs[i].Spread? ==> PA.Valid(env.spread(attrs[i].expr))
  }

  /** What `attrs!` evaluates to. */
  function Eval(attrs: seq<AttrSyntax.Attribute>, env: Env): PA.Attributes
    requires AttrSpreadsValid(attrs, env)
  {
    Run(AttrsImpl(attrs), env)
  }

  /** An attribute's name, if it has one. */
  predicate Names(a: AttrSyntax.Attribute, k: string) {
    a.NameValue? && a.name == k
  }

  predicate Mentions(attrs: seq<AttrSyntax.Attribute>, k: string) {
    exists i :: 0 <= i < |attrs| && Names(attrs[i], k)
  }

  predicate NoSpread(attrs: seq<AttrSyntax.Attribute>) {
    forall i :: 0 <= i < |attrs| ==> !attrs[i].Spread?
  }

  // ---------------------------------------------------------------------------------------
  // Lemmas

  /** Running calls one after another is running the concatenation. */
  lemma {:induction false} RunCallsAppend(c1: seq<Call>, c2: seq<Call>, a: PA.Attributes, env: Env)
    requires SpreadsValid(c1, env) && SpreadsValid(c2, env)
    ensures SpreadsValid(c1 + c2, env)
    ensures RunCalls(c1 + c2, a, env) == RunCalls(c2, RunCalls(c1, a, env), env)
    decreases |c1|
  {
    if c1 == [] {
      assert c1 + c2 == c2;
    } else {
      assert (c1 + c2)[0] == c1[0];
      assert (c1 + c2)[1..] == c1[1..] + c2;
      RunCallsAppend(c1[1..], c2, Step(a, c1[0], env), env);
    }
  }

  lemma {:induction false} CallsAppend(a1: seq<AttrSyntax.Attribute>, a2: seq<AttrSyntax.Attribute>)
    ensures Calls(a1 + a2) == Calls(a1) + Calls(a2)
    decreases |a1|
  {
    if a1 == [] {
      assert a1 + a2 == a2;
    } else {
      assert (a1 + a2)[0] == a1[0];
      assert (a1 + a2)[1..] == a1[1..] + a2;
      CallsAppend(a1[1..], a2);
    }
  }

  lemma SpreadsValidOfAttrs(attrs: seq<AttrSyntax.Attribute>, env: Env)
    requires AttrSpreadsValid(attrs, env)
    ensures SpreadsValid(Calls(attrs), env)
  {
    var calls := Calls(attrs);
    forall i | 0 <= i < |calls| && calls[i].MergeCall?
      ensures PA.Valid(env.spread(calls[i].expr))
    {
      assert calls[i] == CallFor(attrs[i]);
    }
  }

  /** The collection stays a well-formed map through every call. */
  lemma {:induction false} RunCallsValid(calls: seq<Call>, a: PA.Attributes, env: Env)
    requires SpreadsValid(calls, env) && PA.Valid(a)
    ensures PA.Valid(RunCalls(calls, a, env))
    decreases |calls|
  {
    if calls != [] {
      RunCallsValid(calls[1..], Step(a, calls[0], env), env);
    }
  }

  /** `attrs!` always produces a well-formed collection. */
  lemma EvalValid(attrs: seq<AttrSyntax.Attribute>, env: Env)
    requires AttrSpreadsValid(attrs, env)
    ensures PA.Valid(Eval(attrs, env))
  {
    SpreadsValidOfAttrs(attrs, env);
    RunCallsValid(Calls(attrs), PA.New(), env);
  }

  /** Without spreads, a name no attribute carries is never in the collection. */
  lemma {:induction false} UnmentionedStaysOut(attrs: seq<AttrSyntax.Attribute>, a: PA.Attributes, env: Env, k: string)
    requires NoSpread(attrs) && !Mentions(attrs, k)
    ensures SpreadsValid(Calls(attrs), env)
    ensures AttrMap.Lookup(RunCalls(Calls(attrs), a, env).entries, k) == AttrMap.Lookup(a.entries, k)
    decreases |attrs|
  {
    if attrs != [] {
      var calls := Calls(attrs);
      assert calls[0] == CallFor(attrs[0]);
      assert calls[1..] == Calls(attrs[1..]);
      assert !Names(attrs[0], k);
      var b := Step(a, calls[0], env);
      assert AttrMap.Lookup(b.entries, k) == AttrMap.Lookup(a.entries, k);
      UnmentionedStaysOut(attrs[1..], b, env, k);
    }
  }

  /** So `attrs!` without spreads holds only names its attributes carry. */
  lemma OnlyMentionedNames(attrs: seq<AttrSyntax.Attribute>, env: Env, k: string)
    requires NoSpread(attrs) && !Mentions(attrs, k)
    ensures AttrSpreadsValid(attrs, env)
    ensures AttrMap.Lookup(Eval(attrs, env).entries, k).None?
  {
    UnmentionedStaysOut(attrs, PA.New(), env, k);
  }

  /** A literal attribute listed after the others decides that name's value (unless it is
      `class`, whose values accumulate): the literal text, unescaped. */
  lemma LastLiteralWins(attrs: seq<AttrSyntax.Attribute>, name: string, v: string, env: Env)
    requires AttrSpreadsValid(attrs, env) && name != "class"
    ensures AttrSpreadsValid(attrs + [AttrSyntax.NameValue(name, Some(AttrSyntax.Literal(v)))], env)
    ensures AttrMap.Lookup(Eval(attrs + [AttrSyntax.NameValue(name, Some(AttrSyntax.Literal(v)))], env).entries, name)
      == Some(Some(Render(Str(v), Raw)))
  {
    var last := [AttrSyntax.NameValue(name, Some(AttrSyntax.Literal(v)))];
    assert AttrSpreadsValid(attrs + last, env) by {
      forall i | 0 <= i < |attrs + last| && (attrs + last)[i].Spread?
        ensures PA.Valid(env.spread((attrs + last)[i].expr))
      {
        assert i < |attrs|;
        assert (attrs + last)[i] == attrs[i];
      }
    }
    SpreadsValidOfAttrs(attrs, env);
    SpreadsValidOfAttrs(last, env);
    CallsAppend(attrs, last);
    RunCallsAppend(Calls(attrs), Calls(last), PA.New(), env);
    var mid := RunCalls(Calls(attrs), PA.New(), env);
    assert Calls(last) == [AddCall(name, Lit(v), Some(Raw))];
    assert RunCalls(Calls(last), mid, env) == PA.Add(mid, name, Str(v), Some(Raw));
  }

  /** A valueless attribute listed last is stored as a bare name. */
  lemma LastBareNameWins(attrs: seq<AttrSyntax.Attribute>, name: string, env: Env)
    requires AttrSpreadsValid(attrs, env)
    ensures AttrSpreadsValid(attrs + [AttrSyntax.NameValue(name, None)], env)
    ensures AttrMap.Lookup(Eval(attrs + [AttrSyntax.NameValue(name, None)], env).entries, name) == Some(None)
  {
    var last := [AttrSyntax.NameValue(name, None)];
    assert AttrSpreadsValid(attrs + last, env) by {
      forall i | 0 <= i < |attrs + last| && (attrs + last)[i].Spread?
        ensures PA.Valid(env.spread((attrs + last)[i].expr))
      {
        assert i < |attrs|;
        assert (attrs + last)[i] == attrs[i];
      }
    }
    SpreadsValidOfAttrs(attrs, env);
    SpreadsValidOfAttrs(last, env);
    CallsAppend(attrs, last);
    RunCallsAppend(Calls(attrs), Calls(last), PA.New(), env);
    var mid := RunCalls(Calls(attrs), PA.New(), env);
    assert Calls(last) == [AddBooleanCall(name, Always)];
    assert RunCalls(Calls(last), mid, env) == PA.AddBoolean(mid, name, true);
  }

  /** A `?[flag]` attribute whose flag is false and an `=[expr]` attribute whose value is absent
      leave the collection as it was. */
  lemma AbsentValuesAddNothing(a: PA.Attributes, name: string, g: AttrSyntax.GroupExpr, env: Env)
    requires env.optional(g.expr).None? && !env.flag(g.expr)
    ensures Step(a, CallFor(AttrSyntax.NameValue(name, Some(AttrSyntax.Optional(g)))), env) == a
    ensures Step(a, CallFor(AttrSyntax.NameValue(name, Some(AttrSyntax.Boolean(g.expr)))), env) == a
  {
  }
}
