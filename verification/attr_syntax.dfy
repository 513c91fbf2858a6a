/** The attribute grammar shared by both template macros: escape-mode suffixes, the
    `(expr : mode)` and `[expr : mode]` groups, attribute names, attribute values and the
    `..(expr)` spread. spool's and plait's `parse_attribute` are the same code, and the name
    grammar is spool's `parse_attribute_name`; plait's own name parser is not part of this model. */
module AttrSyntax {
  import opened Wrappers
  import opened Tokens

  /** The macro crates' escape mode. */
  datatype Mode = Raw | Html

  /** `parse_escape_mode`: the identifier `raw` or `html`. */
  function ParseEscapeMode(ts: seq<Token>): (r: Parsed<Mode>)
    ensures r.Ok? <==> PeekIdent(ts) && ts[0].name in {"raw", "html"}
    ensures r.Ok? ==> r.value.1 == ts[1..] && (r.value.0 == Raw <==> ts[0].name == "raw")
    ensures PeekIdent(ts) && r.Err? ==> r.error == InvalidEscapeMode
  {
    if !PeekIdent(ts) then Err(Expected(AnIdentifier))
    else if ts[0].name == "raw" then Ok((Raw, ts[1..]))
    else if ts[0].name == "html" then Ok((Html, ts[1..]))
    else Err(InvalidEscapeMode)
  }

  /** An expression with its optional escape-mode suffix. */
  datatype GroupExpr = GroupExpr(expr: Token, mode: Option<Mode>)

  /** The contents of `(expr)`, `(expr : mode)`, `[expr]` or `[expr : mode]`. */
  function ParseGroupContent(content: seq<Token>): (r: Result<GroupExpr, SyntaxError>)
    ensures r.Ok? ==> content != [] && r.value.expr == content[0]
    ensures r.Ok? && r.value.mode.None? <==> |content| == 1 && IsHostToken(content[0])
    ensures r.Ok? && r.value.mode.Some? <==>
      |content| == 3 && IsHostToken(content[0]) && content[1] == Colon && ParseEscapeMode(content[2..]).Ok?
    ensures r.Ok? && r.value.mode.Some? ==> r.value.mode.value == ParseEscapeMode(content[2..]).value.0
  {
    match ParseHost(content, AnExpression)
    case Err(e) => Err(e)
    case Ok((e, rest)) =>
      if rest == [] then Ok(GroupExpr(e, None))
      else if rest[0] != Colon then Err(UnexpectedToken)
      else match ParseEscapeMode(rest[1..])
        case Err(m) => Err(m)
        case Ok((m, after)) => if after == [] then Ok(GroupExpr(e, Some(m))) else Err(UnexpectedToken)
  }

  /** `ParenthesizedExpression`: a parenthesised group holding an expression and optional mode. */
  function ParseParenthesized(ts: seq<Token>): (r: Parsed<GroupExpr>)
    ensures r.Ok? <==> ts != [] && ts[0].Paren? && ParseGroupContent(ts[0].inner).Ok?
    ensures r.Ok? ==> r.value == (ParseGroupContent(ts[0].inner).value, ts[1..])
  {
    if ts == [] || !ts[0].Paren? then Err(Expected(Parentheses))
    else match ParseGroupContent(ts[0].inner)
      case Err(e) => Err(e)
      case Ok(g) => Ok((g, ts[1..]))
  }

  /** `BracketedExpression`: the same inside square brackets. */
  function ParseBracketed(ts: seq<Token>): (r: Parsed<GroupExpr>)
    ensures r.Ok? <==> ts != [] && ts[0].Bracket? && ParseGroupContent(ts[0].inner).Ok?
    ensures r.Ok? ==> r.value == (ParseGroupContent(ts[0].inner).value, ts[1..])
  {
    if ts == [] || !ts[0].Bracket? then Err(Expected(SquareBrackets))
    else match ParseGroupContent(ts[0].inner)
      case Err(e) => Err(e)
      case Ok(g) => Ok((g, ts[1..]))
  }

  // ---------------------------------------------------------------------------------------
  // Attribute names

  predicate IsNamePrefix(t: Token) {
    t == At || t == Dollar || t == Colon || t == Pound
  }

  predicate IsSeparator(t: Token) {
    t == Minus || t == Colon || t == Dot
  }

  /** The text of the consumed tokens. */
  function TextOf(s: seq<Token>): string {
    if s == [] then "" else TokenText(s[0]) + TextOf(s[1..])
  }

  /** Zero or more `separator identifier` pairs. */
  predicate IsNameTail(s: seq<Token>) {
    s == [] || (|s| >= 2 && IsSeparator(s[0]) && s[1].Ident? && IsNameTail(s[2..]))
  }

  /** The reference grammar of a name: an optional prefix, an identifier, then separated
      identifiers. */
  predicate IsNameTokens(s: seq<Token>) {
    || (|s| >= 2 && IsNamePrefix(s[0]) && s[1].Ident? && IsNameTail(s[2..]))
    || (|s| >= 1 && s[0].Ident? && IsNameTail(s[1..]))
  }

  /** A separator that continues a name: anything but the first dot of a `..` spread. */
  predicate ContinuesName(ts: seq<Token>) {
    ts != [] && IsSeparator(ts[0]) && !(ts[0] == Dot && |ts| > 1 && ts[1] == Dot)
  }

  /** Where a name stops: at anything but a separator, or at the `..` of a spread. */
  predicate StopsName(rest: seq<Token>) {
    !ContinuesName(rest)
  }

  /** The separator-and-identifier loop of `parse_attribute_name`, with the name read so far. */
  function ParseNameTail(ts: seq<Token>, acc: string): (r: Parsed<string>)
    ensures r.Ok? ==> |r.value.1| <= |ts| && r.value.1 == ts[|ts| - |r.value.1|..] && StopsName(r.value.1)
    decreases |ts|
  {
    if ContinuesName(ts) then
      if !PeekAnyIdent(ts[1..]) then Err(ExpectedIdentAfterSeparator(ts[0]))
      else ParseNameTail(ts[2..], acc + TokenText(ts[0]) + ts[1].name)
    else Ok((acc, ts))
  }

  lemma TailCons(a: Token, b: Token, s: seq<Token>)
    requires IsSeparator(a) && b.Ident? && IsNameTail(s)
    ensures IsNameTail([a, b] + s)
    ensures TextOf([a, b] + s) == TokenText(a) + b.name + TextOf(s)
  {
    var t := [a, b] + s;
    assert t[2..] == s;
    assert t[1..][1..] == s;
  }

  /** One step of the loop: a separator and an identifier are appended to the name. */
  lemma TailStep(ts: seq<Token>, acc: string)
    requires ContinuesName(ts) && PeekAnyIdent(ts[1..])
    ensures ParseNameTail(ts, acc) == ParseNameTail(ts[2..], acc + TokenText(ts[0]) + ts[1].name)
  {
  }

  /** The loop stops at once where no separator continues the name. */
  lemma TailStop(ts: seq<Token>, acc: string)
    requires StopsName(ts)
    ensures ParseNameTail(ts, acc) == Ok((acc, ts))
  {
  }

  lemma TextAfterPair(acc: string, a: Token, b: Token, s: seq<Token>)
    requires IsSeparator(a) && b.Ident? && IsNameTail(s)
    ensures IsNameTail([a, b] + s)
    ensures acc + TokenText(a) + b.name + TextOf(s) == acc + TextOf([a, b] + s)
  {
    TailCons(a, b, s);
  }

  lemma PairPrefix(ts: seq<Token>, k: int)
    requires 2 <= k <= |ts|
    ensures ts[..k] == [ts[0], ts[1]] + ts[2..][..k - 2]
  {
  }

  /** What the loop read is a sequence of separated identifiers, and the name grew by its text. */
  lemma {:induction false} NameTailSound(ts: seq<Token>, acc: string, name: string, rest: seq<Token>)
    requires ParseNameTail(ts, acc) == Ok((name, rest))
    ensures |rest| <= |ts|
    ensures name == acc + TextOf(ts[..|ts| - |rest|]) && IsNameTail(ts[..|ts| - |rest|])
    decreases |ts|
  {
    var k := |ts| - |rest|;
    if ContinuesName(ts) {
      assert PeekAnyIdent(ts[1..]);
      var acc' := acc + TokenText(ts[0]) + ts[1].name;
      assert ParseNameTail(ts[2..], acc') == Ok((name, rest)) by {
        TailStep(ts, acc);
      }
      var s' := ts[2..][..k - 2];
      assert name == acc' + TextOf(s') && IsNameTail(s') by {
        NameTailSound(ts[2..], acc', name, rest);
      }
      assert ts[..k] == [ts[0], ts[1]] + s' by {
        PairPrefix(ts, k);
      }
      TextAfterPair(acc, ts[0], ts[1], s');
    } else {
      TailStop(ts, acc);
      assert ts[..k] == [];
      assert acc + TextOf(ts[..k]) == acc;
    }
  }

  /** How many prefix tokens (`@`, `$`, `:`, `#`) a name starts with: none or one. */
  function PrefixLen(ts: seq<Token>): (n: nat)
    requires ts != []
    ensures n <= 1 && (n == 1 <==> IsNamePrefix(ts[0]))
  {
    if IsNamePrefix(ts[0]) then 1 else 0
  }

  /** `parse_attribute_name`: an optional `@`, `$`, `:` or `#`, an identifier, then any number of
      `-`, `:` or `.` each followed by an identifier. */
  function ParseAttributeName(ts: seq<Token>): (r: Parsed<string>)
    ensures ts == [] ==> r == Err(ExpectedAttributeName)
    ensures r.Ok? ==> ProperSuffix(r.value.1, ts) && StopsName(r.value.1)
  {
    if ts == [] then Err(ExpectedAttributeName)
    else
      var start := PrefixLen(ts);
      if !PeekAnyIdent(ts[start..]) then
        if start == 0 then Err(BadAttributeNameStart)
        else Err(ExpectedIdentAfterPrefix(ts[0]))
      else ParseNameTail(ts[start + 1..], TextOf(ts[..start + 1]))
  }

  lemma NameUnfold(ts: seq<Token>)
    requires ts != [] && PeekAnyIdent(ts[PrefixLen(ts)..])
    ensures var start := PrefixLen(ts);
      ParseAttributeName(ts) == ParseNameTail(ts[start + 1..], TextOf(ts[..start + 1]))
  {
  }

  lemma SplitWhole(s: seq<Token>, m: int)
    requires 0 <= m <= |s|
    ensures s == s[..m] + s[m..]
  {
  }

  /** A name's head (an identifier, or a prefix and an identifier) and a tail make a name. */
  lemma HeadAndTail(head: seq<Token>, tail: seq<Token>)
    requires (|head| == 1 && head[0].Ident?) || (|head| == 2 && IsNamePrefix(head[0]) && head[1].Ident?)
    requires IsNameTail(tail)
    ensures IsNameTokens(head + tail)
  {
    var s := head + tail;
    assert s[|head|..] == tail;
  }

  /** The name is the text of the consumed tokens, and those follow the reference grammar. */
  lemma NameSound(ts: seq<Token>, name: string, rest: seq<Token>)
    requires ParseAttributeName(ts) == Ok((name, rest))
    ensures |rest| < |ts| && ts == ts[..|ts| - |rest|] + rest
    ensures name == TextOf(ts[..|ts| - |rest|]) && IsNameTokens(ts[..|ts| - |rest|])
  {
    var start := NameHead(ts, name, rest);
    HeadThenTail(ts, start, name, rest);
  }

  /** A name that parses has its identifier right after the optional prefix, and the loop
      read the rest of it. */
  lemma NameHead(ts: seq<Token>, name: string, rest: seq<Token>) returns (start: nat)
    requires ParseAttributeName(ts) == Ok((name, rest))
    ensures start <= 1 && start + 1 <= |ts| && ts[start].Ident? && (start == 1 <==> IsNamePrefix(ts[0]))
    ensures ParseNameTail(ts[start + 1..], TextOf(ts[..start + 1])) == Ok((name, rest))
  {
    start := PrefixLen(ts);
  }

  /** `NameSound` once the head of the name is read and the loop has run. */
  lemma HeadThenTail(ts: seq<Token>, start: nat, name: string, rest: seq<Token>)
    requires start + 1 <= |ts| && ts[start].Ident?
    requires start <= 1 && (start == 1 ==> IsNamePrefix(ts[0]))
    requires ParseNameTail(ts[start + 1..], TextOf(ts[..start + 1])) == Ok((name, rest))
    ensures |rest| < |ts| && ts == ts[..|ts| - |rest|] + rest
    ensures name == TextOf(ts[..|ts| - |rest|]) && IsNameTokens(ts[..|ts| - |rest|])
  {
    var after := ts[start + 1..];
    var tail := NameTailSplit(after, TextOf(ts[..start + 1]), name, rest);
    AssembleName(ts, start, tail, name, rest);
  }

  /** The loop's input is what it read followed by what it left. */
  lemma NameTailSplit(ts: seq<Token>, acc: string, name: string, rest: seq<Token>) returns (tail: seq<Token>)
    requires ParseNameTail(ts, acc) == Ok((name, rest))
    ensures ts == tail + rest && name == acc + TextOf(tail) && IsNameTail(tail)
  {
    NameTailSound(ts, acc, name, rest);
    tail := ts[..|ts| - |rest|];
    SplitWhole(ts, |ts| - |rest|);
  }

  /** A head, a well-formed tail read after it and the tokens left make up the stream. */
  lemma AssembleName(ts: seq<Token>, start: nat, tail: seq<Token>, name: string, rest: seq<Token>)
    requires start + 1 <= |ts| && ts[start].Ident?
    requires start <= 1 && (start == 1 ==> IsNamePrefix(ts[0]))
    requires ts[start + 1..] == tail + rest
    requires name == TextOf(ts[..start + 1]) + TextOf(tail) && IsNameTail(tail)
    ensures |rest| < |ts| && ts == ts[..|ts| - |rest|] + rest
    ensures name == TextOf(ts[..|ts| - |rest|]) && IsNameTokens(ts[..|ts| - |rest|])
  {
    var head := ts[..start + 1];
    SplitWhole(ts, start + 1);
    ConcatParts(ts, head, tail, rest);
    TextOfAppend(head, tail);
    HeadAndTail(head, tail);
  }

  /** Cutting `a + (b + c)` after `b`. */
  lemma ConcatParts(x: seq<Token>, a: seq<Token>, b: seq<Token>, c: seq<Token>)
    requires x == a + (b + c)
    ensures |x| - |c| == |a| + |b| && x[..|a| + |b|] == a + b && x == (a + b) + c
  {
    assert a + (b + c) == (a + b) + c;
  }

  lemma {:induction false} TextOfAppend(a: seq<Token>, b: seq<Token>)
    ensures TextOf(a + b) == TextOf(a) + TextOf(b)
    decreases |a|
  {
    if a != [] {
      assert (a + b)[1..] == a[1..] + b;
      TextOfAppend(a[1..], b);
    } else {
      assert a + b == b;
    }
  }

  /** Every name of the reference grammar is read whole, whatever follows it that cannot
      continue it. */
  lemma {:induction false} NameTailComplete(s: seq<Token>, rest: seq<Token>, acc: string)
    requires IsNameTail(s) && StopsName(rest)
    ensures ParseNameTail(s + rest, acc) == Ok((acc + TextOf(s), rest))
    decreases |s|
  {
    if s == [] {
      assert s + rest == rest;
      assert acc + TextOf(s) == acc;
      TailStop(rest, acc);
    } else {
      PairSplit(s, rest);
      TailStep(s + rest, acc);
      NameTailComplete(s[2..], rest, acc + TokenText(s[0]) + s[1].name);
      TextAfterPair(acc, s[0], s[1], s[2..]);
    }
  }

  lemma PairSplit(s: seq<Token>, rest: seq<Token>)
    requires |s| >= 2
    ensures (s + rest)[0] == s[0] && (s + rest)[1] == s[1] && (s + rest)[1..][0] == s[1]
    ensures (s + rest)[2..] == s[2..] + rest && s == [s[0], s[1]] + s[2..]
  {
  }

  /** The name grammar read back: a reference-grammar name followed by anything that stops a
      name parses to exactly its text and leaves the rest. */
  lemma NameComplete(s: seq<Token>, rest: seq<Token>)
    requires IsNameTokens(s) && StopsName(rest)
    ensures ParseAttributeName(s + rest) == Ok((TextOf(s), rest))
  {
    var ts := s + rest;
    var start := PrefixLen(s);
    var head := s[..start + 1];
    NameSplit(s, rest);
    NameUnfold(ts);
    NameTailComplete(s[start + 1..], rest, TextOf(head));
    TextOfAppend(head, s[start + 1..]);
    SplitWhole(s, start + 1);
  }

  /** Where a name ends in `s + rest`: its head is read from `s` and its tail continues into
      `rest`. */
  lemma NameSplit(s: seq<Token>, rest: seq<Token>)
    requires IsNameTokens(s)
    ensures var start := PrefixLen(s); var ts := s + rest;
      start + 1 <= |s| && PrefixLen(ts) == start && PeekAnyIdent(ts[start..])
      && ts[start + 1..] == s[start + 1..] + rest && ts[..start + 1] == s[..start + 1]
      && IsNameTail(s[start + 1..])
  {
    var start := PrefixLen(s);
    var ts := s + rest;
    assert ts[0] == s[0] && ts[start] == s[start];
    assert ts[start..][0] == s[start];
  }

  /** A name never starts with `-` or `.` and always ends with an identifier. */
  lemma NameEdges(ts: seq<Token>)
    requires ParseAttributeName(ts).Ok?
    ensures var k := |ts| - |ParseAttributeName(ts).value.1|;
      ts[0] != Minus && ts[0] != Dot && ts[k - 1].Ident?
  {
    var k := |ts| - |ParseAttributeName(ts).value.1|;
    NameSound(ts, ParseAttributeName(ts).value.0, ParseAttributeName(ts).value.1);
    NameTokensEndInIdent(ts[..k]);
  }

  lemma {:induction false} NameTailEndsInIdent(s: seq<Token>)
    requires IsNameTail(s) && s != []
    ensures s[|s| - 1].Ident?
    decreases |s|
  {
    if |s| > 2 {
      NameTailEndsInIdent(s[2..]);
    }
  }

  lemma NameTokensEndInIdent(s: seq<Token>)
    requires IsNameTokens(s)
    ensures s[|s| - 1].Ident?
  {
    var start := if |s| >= 2 && IsNamePrefix(s[0]) && s[1].Ident? && IsNameTail(s[2..]) then 2 else 1;
    if |s| > start {
      NameTailEndsInIdent(s[start..]);
    }
  }

  // ---------------------------------------------------------------------------------------
  // Attribute values and attributes

  datatype AttrValue =
    | Literal(value: string)
    | Dynamic(expr: GroupExpr)
    | Optional(expr: GroupExpr)
    | Boolean(cond: Token)

  /** `parse_attribute_value`: `?[bool]`, or `=` followed by `(expr)`, `[expr]` or a string. */
  function ParseAttributeValue(ts: seq<Token>): (r: Parsed<AttrValue>)
    ensures r.Ok? ==> ProperSuffix(r.value.1, ts)
    ensures !Peek(ts, Question) && !Peek(ts, Eq) ==> r == Err(ExpectedAttributeValue)
    ensures r.Ok? ==> (r.value.0.Boolean? <==> ts[0] == Question)
    ensures r.Ok? && ts[0] == Eq ==>
      |ts| >= 2 && r.value.1 == ts[2..] &&
      match r.value.0
      case Dynamic(g) => ts[1].Paren? && ParseGroupContent(ts[1].inner) == Ok(g)
      case Optional(g) => ts[1].Bracket? && ParseGroupContent(ts[1].inner) == Ok(g)
      case Literal(v) => ts[1] == LitStr(v)
      case Boolean(_) => false
    ensures Peek(ts, Eq) && |ts| >= 2 && !ts[1].Paren? && !ts[1].Bracket? && !ts[1].LitStr? ==>
      r == Err(ExpectedValueAfterEq)
  {
    if Peek(ts, Question) then
      if |ts| < 2 || !ts[1].Bracket? then Err(Expected(SquareBrackets))
      else match ParseWholeHost(ts[1].inner)
        case Err(e) => Err(e)
        case Ok(e) => Ok((Boolean(e), ts[2..]))
    else if !Peek(ts, Eq) then Err(ExpectedAttributeValue)
    else
      var rest := ts[1..];
      if rest != [] && rest[0].Paren? then
        match ParseParenthesized(rest)
        case Err(e) => Err(e)
        case Ok((g, after)) => Ok((Dynamic(g), after))
      else if rest != [] && rest[0].Bracket? then
        match ParseBracketed(rest)
        case Err(e) => Err(e)
        case Ok((g, after)) => Ok((Optional(g), after))
      else if rest != [] && rest[0].LitStr? then Ok((Literal(rest[0].value), rest[1..]))
      else Err(ExpectedValueAfterEq)
  }

  datatype Attribute =
    | NameValue(name: string, value: Option<AttrValue>)
    | Spread(expr: Token)

  predicate PeekSpread(ts: seq<Token>) {
    |ts| >= 2 && ts[0] == Dot && ts[1] == Dot
  }

  /** `parse_attribute`: `..(expr)` is a spread; anything else is a name, with a value exactly
      when `?` or `=` follows it. */
  function ParseAttribute(ts: seq<Token>): (r: Parsed<Attribute>)
    ensures r.Ok? ==> ProperSuffix(r.value.1, ts)
    ensures ts == [] ==> r.Err?
    ensures PeekSpread(ts) && !(|ts| >= 3 && ts[2].Paren?) ==> r == Err(ExpectedSpreadGroup)
    ensures r.Ok? ==> (r.value.0.Spread? <==> PeekSpread(ts))
    ensures r.Ok? && r.value.0.Spread? ==> ts[2] == Paren([r.value.0.expr]) && r.value.1 == ts[3..]
    ensures r.Ok? && r.value.0.NameValue? ==>
      && ParseAttributeName(ts).Ok?
      && var (name, rest) := ParseAttributeName(ts).value;
      && r.value.0.name == name
      && (r.value.0.value.Some? <==> Peek(rest, Question) || Peek(rest, Eq))
      && (r.value.0.value.Some? ==> ParseAttributeValue(rest) == Ok((r.value.0.value.value, r.value.1)))
      && (r.value.0.value.None? ==> r.value.1 == rest)
  {
    if PeekSpread(ts) then
      if |ts| < 3 || !ts[2].Paren? then Err(ExpectedSpreadGroup)
      else match ParseWholeHost(ts[2].inner)
        case Err(e) => Err(e)
        case Ok(e) => Ok((Spread(e), ts[3..]))
    else match ParseAttributeName(ts)
      case Err(e) => Err(e)
      case Ok((name, rest)) =>
        if Peek(rest, Question) || Peek(rest, Eq) then
          match ParseAttributeValue(rest)
          case Err(e) => Err(e)
          case Ok((v, after)) => Ok((NameValue(name, Some(v)), after))
        else Ok((NameValue(name, None), rest))
  }

  // ---------------------------------------------------------------------------------------
  // Printing attributes back to tokens

  function ModeName(m: Mode): string {
    match m
    case Raw => "raw"
    case Html => "html"
  }

  /** The tokens of a group's contents: the expression, then `: mode` when there is one. */
  function GroupTokens(g: GroupExpr): seq<Token> {
    match g.mode
    case None => [g.expr]
    case Some(m) => [g.expr, Colon, Ident(ModeName(m))]
  }

  /** The host expressions a value holds. */
  function ValueHosts(v: AttrValue): seq<Token> {
    match v
    case Literal(_) => []
    case Dynamic(g) => [g.expr]
    case Optional(g) => [g.expr]
    case Boolean(c) => [c]
  }

  /** The host expressions an attribute holds. */
  function HostTokens(a: Attribute): seq<Token> {
    match a
    case Spread(e) => [e]
    case NameValue(_, None) => []
    case NameValue(_, Some(v)) => ValueHosts(v)
  }

  predicate AllHostTokens(ts: seq<Token>) {
    forall i :: 0 <= i < |ts| ==> IsHostToken(ts[i])
  }

  /** An attribute the printer can write: each host expression in it is a single host token. */
  predicate PrintableAttribute(a: Attribute) {
    AllHostTokens(HostTokens(a))
  }

  /** The tokens of a value: `?[cond]`, `=(group)`, `=[group]` or `="literal"`. */
  function PrintValue(v: AttrValue): seq<Token> {
    match v
    case Literal(s) => [Eq, LitStr(s)]
    case Dynamic(g) => [Eq, Paren(GroupTokens(g))]
    case Optional(g) => [Eq, Bracket(GroupTokens(g))]
    case Boolean(c) => [Question, Bracket([c])]
  }

  /** The tokens of an attribute; the printer writes a name as a single identifier. */
  function PrintAttribute(a: Attribute): (ts: seq<Token>)
    ensures ts != [] && (ts[0].Ident? || PeekSpread(ts))
  {
    match a
    case Spread(e) => [Dot, Dot, Paren([e])]
    case NameValue(name, None) => [Ident(name)]
    case NameValue(name, Some(v)) => [Ident(name)] + PrintValue(v)
  }

  /** A group's contents read back. */
  lemma GroupRoundTrip(g: GroupExpr)
    requires IsHostToken(g.expr)
    ensures ParseGroupContent(GroupTokens(g)) == Ok(g)
  {
    if g.mode.Some? {
      var ts := GroupTokens(g);
      assert ts[1..][1..] == [Ident(ModeName(g.mode.value))];
    }
  }

  /** A value read back, whatever follows it. */
  lemma ValueRoundTrip(v: AttrValue, rest: seq<Token>)
    requires AllHostTokens(ValueHosts(v))
    ensures ParseAttributeValue(PrintValue(v) + rest) == Ok((v, rest))
  {
    var ts := PrintValue(v) + rest;
    assert ts[2..] == rest;
    assert ts[1..][1..] == rest;
    match v
    case Literal(_) =>
    case Dynamic(g) =>
      assert ValueHosts(v)[0] == g.expr;
      GroupRoundTrip(g);
    case Optional(g) =>
      assert ValueHosts(v)[0] == g.expr;
      GroupRoundTrip(g);
    case Boolean(c) =>
      assert ValueHosts(v)[0] == c;
  }

  /** A name printed as one identifier is read back whole. */
  lemma IdentNameRoundTrip(name: string, rest: seq<Token>)
    requires StopsName(rest)
    ensures ParseAttributeName([Ident(name)] + rest) == Ok((name, rest))
  {
    var s := [Ident(name)];
    assert IsNameTail(s[1..]);
    assert TextOf(s) == name by {
      assert s[1..] == [];
      assert TextOf(s[1..]) == "";
      assert name + "" == name;
    }
    NameComplete(s, rest);
  }

  /** An attribute read back: the name stops where the printed attribute does, provided what
      follows neither continues a name nor starts a value. */
  lemma AttributeRoundTrip(a: Attribute, rest: seq<Token>)
    requires PrintableAttribute(a)
    requires StopsName(rest) && !Peek(rest, Question) && !Peek(rest, Eq)
    ensures ParseAttribute(PrintAttribute(a) + rest) == Ok((a, rest))
  {
    match a
    case Spread(e) =>
      var ts := PrintAttribute(a) + rest;
      assert ts[3..] == rest;
    case NameValue(name, None) =>
      IdentNameRoundTrip(name, rest);
    case NameValue(name, Some(v)) =>
      ValuedRoundTrip(name, v, rest);
  }

  /** What may follow a printed attribute in either macro: another attribute, a `,`, the `;` or
      braced body that ends an element's attributes, or nothing. */
  predicate EndsAttribute(rest: seq<Token>) {
    rest == [] || rest[0].Ident? || PeekSpread(rest) || rest[0] == Comma || rest[0] == Semi || rest[0].Brace?
  }

  /** `AttributeRoundTrip` for the tokens that follow attributes in a template. */
  lemma AttributeThen(a: Attribute, rest: seq<Token>)
    requires PrintableAttribute(a) && EndsAttribute(rest)
    ensures ParseAttribute(PrintAttribute(a) + rest) == Ok((a, rest))
  {
    AttributeRoundTrip(a, rest);
  }

  lemma ValuedRoundTrip(name: string, v: AttrValue, rest: seq<Token>)
    requires AllHostTokens(ValueHosts(v))
    ensures ParseAttribute([Ident(name)] + PrintValue(v) + rest) == Ok((NameValue(name, Some(v)), rest))
  {
    var after := PrintValue(v) + rest;
    assert [Ident(name)] + PrintValue(v) + rest == [Ident(name)] + after;
    assert StopsName(after) && (Peek(after, Question) || Peek(after, Eq));
    IdentNameRoundTrip(name, after);
    ValueRoundTrip(v, rest);
  }
}
