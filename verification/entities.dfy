/** Decoding of HTML character references, the model of `hescape::unescape` that the URL
    sanitiser runs before it looks for a scheme. The decoder recognises the references the
    escaper produces (`&amp;`, `&lt;`, `&gt;`, `&quot;`, `&#39;`), `&apos;`, and decimal
    (`&#NN;`) or hexadecimal (`&#xNN;`) numeric references that name a Unicode scalar value;
    any other `&` is kept as it is. */
module Entities {
  import opened Wrappers
  import opened Text
  import HtmlEscape

  /** The fixed references, tried in this order before numeric ones. */
  const Table: seq<(string, char)> :=
    [("&amp;", '&'), ("&lt;", '<'), ("&gt;", '>'), ("&quot;", '"'), ("&#39;", '\''), ("&apos;", '\'')]

  predicate StartsWith(s: string, p: string) {
    |p| <= |s| && s[..|p|] == p
  }

  /** The first table entry that `s` starts with, as the decoded character and its length. */
  function MatchTable(s: string, k: nat): (r: Option<(char, nat)>)
    requires k <= |Table|
    ensures r.Some? ==> 1 < r.value.1 <= |s|
    decreases |Table| - k
  {
    if k == |Table| then None
    else if StartsWith(s, Table[k].0) then Some((Table[k].1, |Table[k].0|))
    else MatchTable(s, k + 1)
  }

  predicate IsDigitIn(c: char, hex: bool) {
    if hex then IsAsciiHexDigit(c) else IsAsciiDigit(c)
  }

  /** The end of the run of digits starting at `i`. */
  function RunEnd(s: string, i: nat, hex: bool): (j: nat)
    requires i <= |s|
    ensures i <= j <= |s|
    ensures forall k :: i <= k < j ==> IsDigitIn(s[k], hex)
    ensures j == |s| || !IsDigitIn(s[j], hex)
    decreases |s| - i
  {
    if i < |s| && IsDigitIn(s[i], hex) then RunEnd(s, i + 1, hex) else i
  }

  function RunValue(s: string, hex: bool): nat
    requires forall k :: 0 <= k < |s| ==> IsDigitIn(s[k], hex)
  {
    if s == [] then 0
    else
      assert IsDigitIn(s[|s| - 1], hex);
      RunValue(s[..|s| - 1], hex) * (if hex then 16 else 10) + HexDigitValue(s[|s| - 1])
  }

  predicate IsScalarValue(v: nat) {
    v < 0xD800 || 0xE000 <= v < 0x11_0000
  }

  /** A numeric reference `&#digits;` or `&#xhexdigits;` at the start of `s`. */
  function NumericRef(s: string): (r: Option<(char, nat)>)
    ensures r.Some? ==> 1 < r.value.1 <= |s|
  {
    if |s| < 3 || s[0] != '&' || s[1] != '#' then None
    else
      var hex := s[2] == 'x' || s[2] == 'X';
      var start := if hex then 3 else 2;
      var end := RunEnd(s, start, hex);
      if end == start || end == |s| || s[end] != ';' then None
      else
        var v := RunValue(s[start..end], hex);
        if IsScalarValue(v) then Some((v as char, end + 1)) else None
  }

  /** The reference at the start of `s`, if any: the character it stands for and its length. */
  function DecodeRef(s: string): (r: Option<(char, nat)>)
    ensures r.Some? ==> 1 < r.value.1 <= |s|
  {
    match MatchTable(s, 0)
    case Some(hit) => Some(hit)
    case None => NumericRef(s)
  }

  /** Replaces every recognised reference by its character, scanning left to right. */
  function Unescape(s: string): (r: string)
    ensures |r| <= |s|
    decreases |s|
  {
    if s == [] then []
    else if s[0] == '&' then
      match DecodeRef(s)
      case Some((c, n)) => [c] + Unescape(s[n..])
      case None => ['&'] + Unescape(s[1..])
    else [s[0]] + Unescape(s[1..])
  }

  lemma PrefixOf(e: string, rest: string)
    ensures StartsWith(e + rest, e)
  {
    assert (e + rest)[..|e|] == e;
  }

  lemma NotPrefix(s: string, e: string, i: nat)
    requires i < |s| && i < |e| && s[i] != e[i]
    ensures !StartsWith(s, e)
  {
  }

  /** The reference the escaper writes for `c` decodes back to `c`, whatever follows it. */
  lemma DecodeEntity(c: char, rest: string)
    requires HtmlEscape.IsSpecial(c)
    ensures DecodeRef(HtmlEscape.Entity(c) + rest) == Some((c, |HtmlEscape.Entity(c)|))
  {
    var e := HtmlEscape.Entity(c);
    var s := e + rest;
    PrefixOf(e, rest);
    assert s[1] == e[1];
    if c == '<' {
      NotPrefix(s, Table[0].0, 1);
    } else if c == '>' {
      NotPrefix(s, Table[0].0, 1);
      NotPrefix(s, Table[1].0, 1);
    } else if c == '"' {
      NotPrefix(s, Table[0].0, 1);
      NotPrefix(s, Table[1].0, 1);
      NotPrefix(s, Table[2].0, 1);
    } else if c == '\'' {
      NotPrefix(s, Table[0].0, 1);
      NotPrefix(s, Table[1].0, 1);
      NotPrefix(s, Table[2].0, 1);
      NotPrefix(s, Table[3].0, 1);
    }
  }

  lemma UnescapeEscapedChar(c: char, rest: string)
    ensures Unescape(HtmlEscape.EscapeChar(c) + rest) == [c] + Unescape(rest)
  {
    var s := HtmlEscape.EscapeChar(c) + rest;
    if HtmlEscape.IsSpecial(c) {
      DecodeEntity(c, rest);
      assert s[|HtmlEscape.Entity(c)|..] == rest;
    } else {
      assert s[1..] == rest;
    }
  }

  /** Decoding undoes escaping: the escaped text still carries the original exactly. */
  lemma {:induction false} UnescapeEscape(s: string)
    ensures Unescape(HtmlEscape.Escape(s)) == s
    decreases |s|
  {
    if s != [] {
      UnescapeEscapedChar(s[0], HtmlEscape.Escape(s[1..]));
      UnescapeEscape(s[1..]);
    }
  }
}
