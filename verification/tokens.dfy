/** The token streams the template macros parse. A token is a punctuation mark, an identifier,
    a string literal, a delimited group holding its own tokens, or an opaque stand-in for a host
    expression, pattern, type or path whose extent the host parser decides. */
module Tokens {
  import opened Wrappers

  datatype Token =
    | At | Dollar | Colon | Pound | Minus | Dot | Semi | Comma | Question | Eq | FatArrow
    | Ident(name: string)
    | LitStr(value: string)
    | Paren(inner: seq<Token>)
    | Bracket(inner: seq<Token>)
    | Brace(inner: seq<Token>)
    | Opaque(text: string)
    | Other(text: string)

  /** What a host-parser call was looking for when it found something else. */
  datatype Expectation =
    | AnExpression | APattern | AType | APath | AnIdentifier
    | Parentheses | SquareBrackets | CurlyBraces
    | Keyword(kw: string) | Punct(p: Token)

  /** The errors the template parsers report; `Message` gives each one's text. */
  datatype SyntaxError =
    | Expected(what: Expectation)
    | UnexpectedToken
    | InvalidEscapeMode
    | ExpectedAttributeName
    | BadAttributeNameStart
    | ExpectedIdentAfterPrefix(prefix: Token)
    | ExpectedIdentAfterSeparator(separator: Token)
    | ExpectedAttributeValue
    | ExpectedValueAfterEq
    | ExpectedSpreadGroup
    | ExpectedElementName
    | ElementNameEndsWithHyphen
    | ExpectedSemiAfterVoid
    | ExpectedElementBody
    | BadPoundIdent
    | BadPound
    | ExpectedFieldSeparator
    | ExpectedAttributeSeparator

  /** The text a punctuation token or identifier stands for. */
  function TokenText(t: Token): string {
    match t
    case At => "@"
    case Dollar => "$"
    case Colon => ":"
    case Pound => "#"
    case Minus => "-"
    case Dot => "."
    case Semi => ";"
    case Comma => ","
    case Question => "?"
    case Eq => "="
    case FatArrow => "=>"
    case Ident(n) => n
    case _ => ""
  }

  function ExpectationText(w: Expectation): string {
    match w
    case AnExpression => "an expression"
    case APattern => "pattern"
    case AType => "type"
    case APath => "path"
    case AnIdentifier => "identifier"
    case Parentheses => "parentheses"
    case SquareBrackets => "square brackets"
    case CurlyBraces => "curly braces"
    case Keyword(kw) => "`" + kw + "`"
    case Punct(p) => "`" + TokenText(p) + "`"
  }

  /** The message each error carries. */
  function Message(e: SyntaxError): string {
    match e
    case Expected(w) => "expected " + ExpectationText(w)
    case UnexpectedToken => "unexpected token"
    case InvalidEscapeMode => "invalid escape mode"
    case ExpectedAttributeName => "expected attribute name"
    case BadAttributeNameStart => "attribute name must start with a letter, '_', '@', '$', ':', or '#'"
    case ExpectedIdentAfterPrefix(p) => "expected identifier after '" + TokenText(p) + "'"
    case ExpectedIdentAfterSeparator(sep) => "expected identifier after '" + TokenText(sep) + "' in attribute name"
    case ExpectedAttributeValue => "expected '=' or '?[bool_expr]' for attribute value"
    case ExpectedValueAfterEq => "expected string literal, (expression), or [expression] after '='"
    case ExpectedSpreadGroup => "expected '(expression)' after '..'"
    case ExpectedElementName => "expected element name"
    case ElementNameEndsWithHyphen => "element name cannot end with hyphen"
    case ExpectedSemiAfterVoid => "expected a `;` after a void element"
    case ExpectedElementBody => "expected a body of the element enclosed in `{}`"
    case BadPoundIdent => "Expected 'doctype'm 'children' or '(' after '#'"
    case BadPound => "Expected 'doctype' or '(' after '#'"
    case ExpectedFieldSeparator => "expected ',' or ';' after a field"
    case ExpectedAttributeSeparator => "expected ',' after an attribute"
  }

  /** The result of a parser: the value and the tokens it left, or an error. */
  type Parsed<T> = Result<(T, seq<Token>), SyntaxError>

  /** The strict keywords of Rust 2021; an identifier parser that is not `parse_any` refuses them. */
  predicate IsKeyword(name: string) {
    name in {"as", "async", "await", "break", "const", "continue", "crate", "dyn", "else", "enum",
             "extern", "false", "fn", "for", "if", "impl", "in", "let", "loop", "match", "mod",
             "move", "mut", "pub", "ref", "return", "self", "Self", "static", "struct", "super",
             "trait", "true", "type", "unsafe", "use", "where", "while"}
  }

  /** `peek(Ident::peek_any)`: any identifier, keywords included. */
  predicate PeekAnyIdent(ts: seq<Token>) {
    ts != [] && ts[0].Ident?
  }

  /** `peek(Ident)`: an identifier that is not a keyword. */
  predicate PeekIdent(ts: seq<Token>) {
    ts != [] && ts[0].Ident? && !IsKeyword(ts[0].name)
  }

  /** `peek(Token![kw])` for a keyword. */
  predicate PeekKeyword(ts: seq<Token>, kw: string) {
    ts != [] && ts[0] == Ident(kw)
  }

  predicate Peek(ts: seq<Token>, t: Token) {
    ts != [] && ts[0] == t
  }

  /** A token the host parser would take as a whole expression, pattern, type or path of the
      kind asked for: an opaque stand-in or a non-keyword identifier is any of them, and a string
      literal is an expression or a pattern but never a type or a path. */
  predicate IsHostTokenFor(t: Token, what: Expectation) {
    || t.Opaque?
    || (t.Ident? && !IsKeyword(t.name))
    || (t.LitStr? && !what.AType? && !what.APath?)
  }

  /** A token that stands for a whole expression. */
  predicate IsHostToken(t: Token) {
    IsHostTokenFor(t, AnExpression)
  }

  function Size(t: Token): nat {
    match t
    case Paren(inner) => 1 + SizeSeq(inner)
    case Bracket(inner) => 1 + SizeSeq(inner)
    case Brace(inner) => 1 + SizeSeq(inner)
    case _ => 1
  }

  /** The number of tokens in a stream, counting those nested in groups. */
  function SizeSeq(ts: seq<Token>): nat {
    if ts == [] then 0 else Size(ts[0]) + SizeSeq(ts[1..])
  }

  /** `rest` is what is left of `ts` after at least one token was consumed. */
  predicate ProperSuffix(rest: seq<Token>, ts: seq<Token>) {
    |rest| < |ts| && rest == ts[|ts| - |rest|..]
  }

  lemma {:induction false} SuffixIsSmaller(rest: seq<Token>, ts: seq<Token>)
    requires ProperSuffix(rest, ts)
    ensures SizeSeq(rest) < SizeSeq(ts)
    decreases |ts|
  {
    if |rest| + 1 < |ts| {
      assert ProperSuffix(rest, ts[1..]);
      SuffixIsSmaller(rest, ts[1..]);
    } else {
      assert rest == ts[1..];
    }
  }

  /** `rest` is what is left of `ts` after zero or more tokens were consumed. */
  predicate Suffix(rest: seq<Token>, ts: seq<Token>) {
    |rest| <= |ts| && rest == ts[|ts| - |rest|..]
  }

  lemma SuffixIsNotLarger(rest: seq<Token>, ts: seq<Token>)
    requires Suffix(rest, ts)
    ensures SizeSeq(rest) <= SizeSeq(ts)
  {
    if |rest| < |ts| {
      SuffixIsSmaller(rest, ts);
    } else {
      assert rest == ts;
    }
  }

  /** The tokens inside a leading group are fewer than the stream that holds the group. */
  lemma GroupIsSmaller(ts: seq<Token>)
    requires ts != [] && (ts[0].Paren? || ts[0].Bracket? || ts[0].Brace?)
    ensures SizeSeq(ts[0].inner) < SizeSeq(ts)
  {
  }

  /** Dropping the first token of a suffix of a proper suffix leaves a proper suffix. */
  lemma DropAfterSuffix(rest: seq<Token>, mid: seq<Token>, ts: seq<Token>)
    requires ProperSuffix(mid, ts) && Suffix(rest, mid) && rest != []
    ensures ProperSuffix(rest[1..], ts)
  {
    assert rest[1..] == ts[|ts| - |rest[1..]|..];
  }

  /** A proper suffix of a non-empty tail of a stream is a proper suffix of the stream, and so
      is what follows its first token. */
  lemma TailSuffix(after: seq<Token>, ts: seq<Token>, k: nat)
    requires 0 < k <= |ts| && ProperSuffix(after, ts[k..])
    ensures ProperSuffix(after, ts)
    ensures after != [] ==> ProperSuffix(after[1..], ts)
  {
    assert after == ts[|ts| - |after|..];
    if after != [] {
      assert after[1..] == ts[|ts| - |after[1..]|..];
    }
  }

  /** Concatenation regroups; stated once so that proofs about printed streams can cite it. */
  lemma Associate(a: seq<Token>, b: seq<Token>, c: seq<Token>)
    ensures (a + b) + c == a + (b + c)
  {
  }

  /** Dropping a prefix of the first part of a concatenation. */
  lemma DropAppend(a: seq<Token>, b: seq<Token>, k: nat)
    requires k <= |a|
    ensures (a + b)[k..] == a[k..] + b
  {
  }

  /** A stream of at least two tokens is those two and the rest. */
  lemma PairThenRest(s: seq<Token>)
    requires |s| >= 2
    ensures s == [s[0], s[1]] + s[2..]
  {
  }

  /** Parses one host expression (or pattern, type or path), which a single token stands for. */
  function ParseHost(ts: seq<Token>, what: Expectation): (r: Parsed<Token>)
    ensures r.Ok? <==> ts != [] && IsHostTokenFor(ts[0], what)
    ensures r.Ok? ==> r.value == (ts[0], ts[1..])
    ensures r.Err? ==> r.error == Expected(what)
  {
    if ts != [] && IsHostTokenFor(ts[0], what) then Ok((ts[0], ts[1..])) else Err(Expected(what))
  }

  /** A host token at the head of a stream is read as itself. */
  lemma HostReads(ts: seq<Token>, what: Expectation)
    requires ts != [] && IsHostTokenFor(ts[0], what)
    ensures ParseHost(ts, what) == Ok((ts[0], ts[1..]))
  {
  }

  /** Parses the tokens of a group as one host expression that must fill the whole group. */
  function ParseWholeHost(content: seq<Token>): (r: Result<Token, SyntaxError>)
    ensures r.Ok? <==> |content| == 1 && IsHostToken(content[0])
    ensures r.Ok? ==> r.value == content[0]
  {
    match ParseHost(content, AnExpression)
    case Err(e) => Err(e)
    case Ok((e, rest)) => if rest == [] then Ok(e) else Err(UnexpectedToken)
  }
}
