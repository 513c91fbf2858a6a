/** plait's URL sanitiser: the attributes that carry URLs, and the check that decides whether a
    URL may be written into one. The check decodes the URL the way a browser might (percent
    decoding twice, then HTML character references), drops control characters and surrounding
    white space, and then accepts relative URLs and URLs whose scheme is `http`, `https`,
    `mailto` or `tel`. The scheme grammar follows section 3.1 of RFC 3986 (a letter, then
    letters, digits, `+`, `-` or `.`), except that ASCII white space and control characters
    are tolerated between the scheme and its colon, as browsers do. */
module Url {
  import opened Wrappers
  import opened Text
  import Entities

  /** The attributes whose values are URLs. */
  predicate IsUrlAttribute(name: string) {
    name in {"href", "src", "action", "formaction", "poster", "cite", "data", "profile", "manifest",
             "icon", "background", "xlink:href"}
  }

  /** `percent_decode_str(..).decode_utf8()`: `%` followed by two hex digits becomes the byte
      they spell, anything else is kept. Decoded bytes from 0x80 up are refused here, as though
      they were never valid UTF-8. */
  function PercentDecode(s: string): (r: Option<string>)
    ensures r.Some? ==> |r.value| <= |s|
    decreases |s|
  {
    if s == [] then Some([])
    else if s[0] == '%' && |s| >= 3 && IsAsciiHexDigit(s[1]) && IsAsciiHexDigit(s[2]) then
      var b := HexDigitValue(s[1]) * 16 + HexDigitValue(s[2]);
      if b >= 0x80 then None
      else
        match PercentDecode(s[3..])
        case Some(t) => Some([b as char] + t)
        case None => None
    else
      match PercentDecode(s[1..])
      case Some(t) => Some([s[0]] + t)
      case None => None
  }

  /** `char::is_control`: the Unicode general category Cc. */
  predicate IsControl(c: char) {
    c <= '\U{1F}' || '\U{7F}' <= c <= '\U{9F}'
  }

  /** Keeps the characters that are not control characters, in order. */
  function StripControls(s: string): (r: string)
    ensures forall i :: 0 <= i < |r| ==> !IsControl(r[i])
    ensures |r| <= |s|
  {
    if s == [] then []
    else if IsControl(s[0]) then StripControls(s[1..])
    else [s[0]] + StripControls(s[1..])
  }

  /** The Unicode `White_Space` property, which `str::trim` strips. */
  predicate IsWhiteSpace(c: char) {
    || '\t' <= c <= '\r' || c == ' ' || c == '\U{85}' || c == '\U{A0}' || c == '\U{1680}'
    || '\U{2000}' <= c <= '\U{200A}' || c == '\U{2028}' || c == '\U{2029}' || c == '\U{202F}'
    || c == '\U{205F}' || c == '\U{3000}'
  }

  function TrimStart(s: string): (r: string)
    ensures r == [] || !IsWhiteSpace(r[0])
    ensures |r| <= |s| && r == s[|s| - |r|..]
  {
    if s != [] && IsWhiteSpace(s[0]) then TrimStart(s[1..]) else s
  }

  function TrimEnd(s: string): (r: string)
    ensures r == [] || !IsWhiteSpace(r[|r| - 1])
    ensures |r| <= |s| && r == s[..|r|]
  {
    if s != [] && IsWhiteSpace(s[|s| - 1]) then TrimEnd(s[..|s| - 1]) else s
  }

  /** `str::trim`. */
  function Trim(s: string): (r: string)
    ensures r == [] || (!IsWhiteSpace(r[0]) && !IsWhiteSpace(r[|r| - 1]))
  {
    TrimEnd(TrimStart(s))
  }

  predicate IsAllowedScheme(scheme: string) {
    scheme in {"http", "https", "mailto", "tel"}
  }

  predicate IsSchemeChar(c: char) {
    IsAsciiAlnum(c) || c == '+' || c == '-' || c == '.'
  }

  /** What may sit between a scheme and its colon: `is_ascii_whitespace` or `is_ascii_control`. */
  predicate IsGapChar(c: char) {
    c == ' ' || c == '\t' || c == '\n' || c == '\U{C}' || c == '\r' || c <= '\U{1F}' || c == '\U{7F}'
  }

  /** The characters that end a relative path's first segment: `/`, `?` and `#`. */
  predicate EndsPath(c: char) {
    c == '/' || c == '?' || c == '#'
  }

  /** `s.find(':')`: the first position of `:`, or none. */
  function FirstColon(s: string): (r: Option<nat>)
    ensures r.Some? ==> r.value < |s| && s[r.value] == ':' && forall j :: 0 <= j < r.value ==> s[j] != ':'
    ensures r.None? ==> forall j :: 0 <= j < |s| ==> s[j] != ':'
  {
    if s == [] then None
    else if s[0] == ':' then Some(0)
    else match FirstColon(s[1..]) case Some(i) => Some(i + 1) case None => None
  }

  /** `s.find(['/', '?', '#'])`: the first position of a character satisfying `EndsPath`, or none. */
  function FirstPathEnd(s: string): (r: Option<nat>)
    ensures r.Some? ==> r.value < |s| && EndsPath(s[r.value]) && forall j :: 0 <= j < r.value ==> !EndsPath(s[j])
    ensures r.None? ==> forall j :: 0 <= j < |s| ==> !EndsPath(s[j])
  {
    if s == [] then None
    else if EndsPath(s[0]) then Some(0)
    else match FirstPathEnd(s[1..]) case Some(i) => Some(i + 1) case None => None
  }

  /** Where the scheme token that starts at position 0 ends, scanning from `i`. */
  function TokenEnd(p: string, i: nat): (j: nat)
    requires i <= |p|
    ensures i <= j <= |p|
    ensures forall k :: i <= k < j ==> IsSchemeChar(p[k])
    ensures j == |p| || !IsSchemeChar(p[j])
    decreases |p| - i
  {
    if i < |p| && IsSchemeChar(p[i]) then TokenEnd(p, i + 1) else i
  }

  predicate AllGap(s: string) {
    forall i :: 0 <= i < |s| ==> IsGapChar(s[i])
  }

  /** `parse_scheme`: the lower-cased scheme of `s`, or `None` for a relative URL. */
  function ParseScheme(s: string): Option<string> {
    match FirstColon(s)
    case None => None
    case Some(colon) =>
      if (match FirstPathEnd(s) case Some(i) => i < colon case None => false) then None
      else
        var prefix := s[..colon];
        if prefix == [] || !IsAsciiAlpha(prefix[0]) then None
        else
          var tokenEnd := TokenEnd(prefix, 1);
          if !AllGap(prefix[tokenEnd..]) then None
          else Some(LowerAscii(prefix[..tokenEnd]))
  }

  /** No `:`, `/`, `?` or `#` among the first `k` characters. */
  predicate ClearBefore(s: string, k: nat)
    requires k <= |s|
  {
    forall i :: 0 <= i < k ==> s[i] != ':' && !EndsPath(s[i])
  }

  predicate SchemeCharsBetween(s: string, lo: nat, hi: nat)
    requires lo <= hi <= |s|
  {
    forall i :: lo <= i < hi ==> IsSchemeChar(s[i])
  }

  predicate GapBetween(s: string, lo: nat, hi: nat)
    requires lo <= hi <= |s|
  {
    forall i :: lo <= i < hi ==> IsGapChar(s[i])
  }

  /** The declarative reading of a scheme with its colon at `k`: `s[..j]` is a scheme token,
      `s[j..k]` is white space or control characters, `s[k]` is the first colon and no `/`, `?`
      or `#` comes before it. */
  predicate SchemeAt(s: string, j: nat, k: nat) {
    0 < j <= k < |s| && s[k] == ':' && ClearBefore(s, k) && IsAsciiAlpha(s[0])
    && SchemeCharsBetween(s, 1, j) && GapBetween(s, j, k)
  }

  /** `s[..j]` is the scheme token of `s` in the declarative reading. */
  ghost predicate SchemeEndsAt(s: string, j: nat) {
    exists k: nat :: SchemeAt(s, j, k)
  }

  lemma GapIsNotScheme(c: char)
    requires IsGapChar(c)
    ensures !IsSchemeChar(c)
  {
  }

  /** `parse_scheme` finds a scheme exactly when the declarative reading does, and returns that
      token lower-cased. */
  lemma ParseSchemeMeaning(s: string)
    ensures ParseScheme(s).Some? ==> exists j: nat :: j <= |s| && SchemeEndsAt(s, j) && ParseScheme(s).value == LowerAscii(s[..j])
    ensures forall j: nat :: j <= |s| && SchemeEndsAt(s, j) ==> ParseScheme(s) == Some(LowerAscii(s[..j]))
  {
    if ParseScheme(s).Some? {
      var colon := FirstColon(s).value;
      var prefix := s[..colon];
      var j := TokenEnd(prefix, 1);
      assert GapBetween(s, j, colon) by {
        forall i | j <= i < colon ensures IsGapChar(s[i]) {
          assert prefix[j..][i - j] == s[i];
        }
      }
      assert SchemeAt(s, j, colon);
      assert prefix[..j] == s[..j];
    }
    forall j: nat | j <= |s| && SchemeEndsAt(s, j) ensures ParseScheme(s) == Some(LowerAscii(s[..j])) {
      var k: nat :| SchemeAt(s, j, k);
      SchemeFromReading(s, j, k);
    }
  }

  lemma SchemeFromReading(s: string, j: nat, k: nat)
    requires SchemeAt(s, j, k)
    ensures ParseScheme(s) == Some(LowerAscii(s[..j]))
  {
    assert FirstColon(s) == Some(k);
    var fp := FirstPathEnd(s);
    assert fp.Some? ==> fp.value >= k;
    var prefix := s[..k];
    var t := TokenEnd(prefix, 1);
    if j < k {
      GapIsNotScheme(s[j]);
      assert prefix[j] == s[j];
    }
    assert t == j;
    assert AllGap(prefix[t..]) by {
      forall i | 0 <= i < |prefix[t..]| ensures IsGapChar(prefix[t..][i]) {
        assert prefix[t..][i] == s[t + i];
      }
    }
    assert prefix[..t] == s[..j];
  }

  /** `is_url_safe`. */
  predicate IsUrlSafe(url: string) {
    if url == [] then false
    else
      match PercentDecode(url)
      case None => false
      case Some(once) =>
        match PercentDecode(once)
        case None => false
        case Some(twice) =>
          var trimmed := Trim(StripControls(Entities.Unescape(twice)));
          if trimmed == [] then false
          else
            match ParseScheme(trimmed)
            case None => true
            case Some(scheme) => IsAllowedScheme(scheme)
  }

  /** The text the scheme check looks at, when decoding succeeds. */
  function Decoded(url: string): Option<string> {
    match PercentDecode(url)
    case None => None
    case Some(once) =>
      match PercentDecode(once)
      case None => None
      case Some(twice) => Some(Trim(StripControls(Entities.Unescape(twice))))
  }

  /** A URL passes exactly when it is non-empty, decodes, leaves something after cleaning, and
      that text either has no scheme in the declarative sense or has an allowed one. */
  lemma IsUrlSafeMeaning(url: string)
    ensures IsUrlSafe(url) <==>
      url != [] && Decoded(url).Some? && Decoded(url).value != [] &&
      forall j: nat :: j <= |Decoded(url).value| && SchemeEndsAt(Decoded(url).value, j) ==> IsAllowedScheme(LowerAscii(Decoded(url).value[..j]))
  {
    if Decoded(url).Some? {
      ParseSchemeMeaning(Decoded(url).value);
    }
  }

  /** A scheme token, optional white space or control characters, and a colon: the token is the
      scheme, lower-cased, whatever follows the colon. */
  lemma SchemeOfToken(w: string, gap: string, rest: string)
    requires w != [] && IsAsciiAlpha(w[0]) && forall i :: 1 <= i < |w| ==> IsSchemeChar(w[i])
    requires AllGap(gap)
    ensures ParseScheme(w + gap + ":" + rest) == Some(LowerAscii(w))
  {
    var s := w + gap + ":" + rest;
    TokenSchemeAt(w, gap, rest);
    SchemeFromReading(s, |w|, |w| + |gap|);
    assert s[..|w|] == w;
  }

  /** The characters of `w + gap + ":" + rest`, by position. */
  lemma TokenGapChar(w: string, gap: string, rest: string, i: nat)
    requires i <= |w| + |gap|
    ensures var s := w + gap + ":" + rest;
      i < |s| && (i < |w| ==> s[i] == w[i]) && (|w| <= i < |w| + |gap| ==> s[i] == gap[i - |w|])
      && (i == |w| + |gap| ==> s[i] == ':')
  {
  }

  lemma TokenSchemeAt(w: string, gap: string, rest: string)
    requires w != [] && IsAsciiAlpha(w[0]) && forall i :: 1 <= i < |w| ==> IsSchemeChar(w[i])
    requires AllGap(gap)
    ensures SchemeAt(w + gap + ":" + rest, |w|, |w| + |gap|)
  {
    var s := w + gap + ":" + rest;
    var k := |w| + |gap|;
    TokenGapChar(w, gap, rest, k);
    TokenGapChar(w, gap, rest, 0);
    forall i | 1 <= i < |w| ensures IsSchemeChar(s[i]) {
      TokenGapChar(w, gap, rest, i);
    }
    forall i | |w| <= i < k ensures IsGapChar(s[i]) {
      TokenGapChar(w, gap, rest, i);
    }
    forall i | 0 <= i < k ensures s[i] != ':' && !EndsPath(s[i]) {
      TokenGapChar(w, gap, rest, i);
    }
  }

  /** Lower-casing the text first does not change the scheme that is found. */
  lemma ParseSchemeIgnoresCase(s: string)
    ensures ParseScheme(LowerAscii(s)) == ParseScheme(s)
  {
    var l := LowerAscii(s);
    if ParseScheme(l).Some? {
      LowerSchemeLifts(s);
    }
    if ParseScheme(s).Some? {
      ParseSchemeMeaning(s);
      ParseSchemeMeaning(l);
      var j: nat :| j <= |s| && SchemeEndsAt(s, j) && ParseScheme(s).value == LowerAscii(s[..j]);
      var k: nat :| SchemeAt(s, j, k);
      SchemeAtLower(s, j, k);
      LowerTwice(s, j);
    }
  }

  /** A scheme found in the lower-cased text is found in the text itself. */
  lemma LowerSchemeLifts(s: string)
    requires ParseScheme(LowerAscii(s)).Some?
    ensures ParseScheme(s).Some?
  {
    var l := LowerAscii(s);
    ParseSchemeMeaning(l);
    var j: nat :| j <= |l| && SchemeEndsAt(l, j) && ParseScheme(l).value == LowerAscii(l[..j]);
    var k: nat :| SchemeAt(l, j, k);
    SchemeAtLower(s, j, k);
    assert SchemeEndsAt(s, j);
    ParseSchemeMeaning(s);
  }

  lemma LowerTwice(s: string, j: nat)
    requires j <= |s|
    ensures LowerAscii(LowerAscii(s)[..j]) == LowerAscii(s[..j])
  {
  }

  /** Lower-casing keeps every character class the scheme reading depends on. */
  lemma LowerKeepsClasses(c: char)
    ensures ToAsciiLower(c) == ':' <==> c == ':'
    ensures EndsPath(ToAsciiLower(c)) <==> EndsPath(c)
    ensures IsAsciiAlpha(ToAsciiLower(c)) <==> IsAsciiAlpha(c)
    ensures IsSchemeChar(ToAsciiLower(c)) <==> IsSchemeChar(c)
    ensures IsGapChar(ToAsciiLower(c)) <==> IsGapChar(c)
  {
  }

  lemma SchemeAtLower(s: string, j: nat, k: nat)
    ensures SchemeAt(s, j, k) <==> SchemeAt(LowerAscii(s), j, k)
  {
    var l := LowerAscii(s);
    forall i | 0 <= i < |s|
      ensures l[i] == ':' <==> s[i] == ':'
      ensures EndsPath(l[i]) <==> EndsPath(s[i])
      ensures IsAsciiAlpha(l[i]) <==> IsAsciiAlpha(s[i])
      ensures IsSchemeChar(l[i]) <==> IsSchemeChar(s[i])
      ensures IsGapChar(l[i]) <==> IsGapChar(s[i])
    {
      LowerKeepsClasses(s[i]);
    }
    if 0 < j <= k < |s| {
      assert ClearBefore(l, k) <==> ClearBefore(s, k);
      assert SchemeCharsBetween(l, 1, j) <==> SchemeCharsBetween(s, 1, j);
      assert GapBetween(l, j, k) <==> GapBetween(s, j, k);
    }
  }

  /** Every allowed scheme is three to six letters long, so a longer scheme (`javascript`,
      `vbscript`) is refused whatever its case. */
  lemma AllowedSchemeLength(scheme: string)
    requires IsAllowedScheme(scheme)
    ensures 3 <= |scheme| <= 6
  {
  }

  /** `is_url_safe` in terms of the cleaned text. */
  lemma SafeByDecoded(url: string)
    ensures IsUrlSafe(url) <==>
      url != [] && Decoded(url).Some? && Decoded(url).value != [] &&
      (ParseScheme(Decoded(url).value).None? || IsAllowedScheme(ParseScheme(Decoded(url).value).value))
  {
  }

  lemma SchemeOfTokenNoGap(w: string, rest: string)
    requires w != [] && IsAsciiAlpha(w[0]) && forall i :: 1 <= i < |w| ==> IsSchemeChar(w[i])
    ensures ParseScheme(w + ":" + rest) == Some(LowerAscii(w))
  {
    SchemeOfToken(w, "", rest);
    assert w + "" == w;
  }

  /** A URL that decodes to a scheme that is not allowed is refused. */
  lemma DisallowedSchemeIsUnsafe(url: string, w: string, gap: string, rest: string)
    requires w != [] && IsAsciiAlpha(w[0]) && forall i :: 1 <= i < |w| ==> IsSchemeChar(w[i])
    requires AllGap(gap)
    requires Decoded(url) == Some(w + gap + ":" + rest)
    requires !IsAllowedScheme(LowerAscii(w))
    ensures !IsUrlSafe(url)
  {
    SchemeOfToken(w, gap, rest);
  }

  /** A URL whose cleaned text is non-empty and has no colon is relative, and passes. */
  lemma RelativeUrlIsSafe(url: string)
    requires url != []
    requires Decoded(url).Some? && Decoded(url).value != []
    requires forall i :: 0 <= i < |Decoded(url).value| ==> Decoded(url).value[i] != ':'
    ensures IsUrlSafe(url)
  {
  }

  /** Removing controls distributes over concatenation. */
  lemma {:induction false} StripControlsAppend(a: string, b: string)
    ensures StripControls(a + b) == StripControls(a) + StripControls(b)
    decreases |a|
  {
    if a == [] {
      assert a + b == b;
    } else {
      assert (a + b)[0] == a[0];
      assert (a + b)[1..] == a[1..] + b;
      StripControlsAppend(a[1..], b);
    }
  }

  /** A control character hidden inside a URL (`java\u{0}script:`) cannot split a scheme: it is
      removed before the scheme is read. */
  lemma ControlIsInvisible(a: string, c: char, b: string)
    requires IsControl(c)
    ensures StripControls(a + [c] + b) == StripControls(a + b)
  {
    StripControlsAppend(a + [c], b);
    StripControlsAppend(a, [c]);
    StripControlsAppend(a, b);
    assert StripControls([c]) == [];
  }

  /** Text without `%`, `&`, control characters or surrounding white space is what the scheme
      check sees. */
  lemma {:induction false} PlainDecodesToItself(s: string)
    requires forall i :: 0 <= i < |s| ==> s[i] != '%' && s[i] != '&' && !IsControl(s[i])
    ensures PercentDecode(s) == Some(s)
    ensures Entities.Unescape(s) == s
    ensures StripControls(s) == s
    decreases |s|
  {
    if s != [] {
      PlainDecodesToItself(s[1..]);
      assert s == [s[0]] + s[1..];
    }
  }

  /** Printable ASCII other than `%` and `&`: text every decoding step leaves alone. */
  predicate IsPlain(s: string) {
    forall i :: 0 <= i < |s| ==> ' ' < s[i] <= '~' && s[i] != '%' && s[i] != '&'
  }

  /** Plain text reaches the scheme check unchanged. */
  lemma PlainUrl(url: string)
    requires IsPlain(url) && url != []
    ensures Decoded(url) == Some(url)
  {
    PlainDecodesToItself(url);
    assert !IsWhiteSpace(url[0]) && !IsWhiteSpace(url[|url| - 1]);
    assert TrimStart(url) == url;
    assert TrimEnd(url) == url;
  }

  lemma SchemeTokenIsPlain(w: string)
    requires w != [] && IsAsciiAlpha(w[0]) && forall i :: 1 <= i < |w| ==> IsSchemeChar(w[i])
    ensures IsPlain(w)
  {
    forall i | 0 <= i < |w| ensures ' ' < w[i] <= '~' && w[i] != '%' && w[i] != '&' {
      assert i == 0 || IsSchemeChar(w[i]);
    }
  }

  lemma PlainConcat(a: string, b: string)
    requires IsPlain(a) && IsPlain(b)
    ensures IsPlain(a + b)
  {
    forall i | 0 <= i < |a + b| ensures ' ' < (a + b)[i] <= '~' && (a + b)[i] != '%' && (a + b)[i] != '&' {
      if i >= |a| {
        assert (a + b)[i] == b[i - |a|];
      }
    }
  }

  /** Plain text of the form `scheme:rest` with a scheme outside the allow-list is refused. */
  lemma PlainSchemeBlocked(w: string, rest: string)
    requires IsRefusedScheme(w)
    requires IsPlain(rest)
    ensures !IsUrlSafe(w + ":" + rest)
  {
    PlainSchemeSafe(w, rest);
  }

  /** For plain text `scheme:rest`, the verdict is exactly the allow-list's verdict on the
      scheme, in any case. */
  lemma PlainSchemeSafe(w: string, rest: string)
    requires w != [] && IsAsciiAlpha(w[0]) && forall i :: 1 <= i < |w| ==> IsSchemeChar(w[i])
    requires IsPlain(rest)
    ensures IsUrlSafe(w + ":" + rest) <==> IsAllowedScheme(LowerAscii(w))
  {
    PlainSchemeUrl(w, rest);
    SafeByDecoded(w + ":" + rest);
  }

  lemma SchemeUrlPlain(w: string, rest: string)
    requires w != [] && IsAsciiAlpha(w[0]) && forall i :: 1 <= i < |w| ==> IsSchemeChar(w[i])
    requires IsPlain(rest)
    ensures IsPlain(w + ":" + rest) && w + ":" + rest != []
  {
    SchemeTokenIsPlain(w);
    assert IsPlain(":");
    PlainConcat(w, ":");
    PlainConcat(w + ":", rest);
  }

  /** A token that `parse_scheme` accepts as a scheme which the allow-list refuses. */
  predicate IsRefusedScheme(w: string) {
    w != [] && IsAsciiAlpha(w[0]) && (forall i :: 1 <= i < |w| ==> IsSchemeChar(w[i]))
    && !IsAllowedScheme(LowerAscii(w))
  }

  lemma JavascriptIsRefused()
    ensures IsRefusedScheme("javascript")
  {
    var w := "javascript";
    assert forall i :: 1 <= i < |w| ==> IsSchemeChar(w[i]);
    if IsAllowedScheme(LowerAscii(w)) {
      AllowedSchemeLength(LowerAscii(w));
    }
  }

  /** `javascript:` followed by any plain text, such as `alert(1)`, is refused. */
  lemma JavascriptIsBlocked(rest: string)
    requires IsPlain(rest)
    ensures !IsUrlSafe("javascript:" + rest)
  {
    JavascriptIsRefused();
    PlainSchemeBlocked("javascript", rest);
    JavascriptColon();
  }

  lemma JavascriptColon()
    ensures "javascript" + ":" == "javascript:"
  {
  }

  /** `https:` followed by any plain text, such as `//example.com`, passes. */
  lemma HttpsIsAllowed(rest: string)
    requires IsPlain(rest)
    ensures IsUrlSafe("https:" + rest)
  {
    var w := "https";
    assert w != [] && IsAsciiAlpha(w[0]) && forall i :: 1 <= i < |w| ==> IsSchemeChar(w[i]);
    assert IsAllowedScheme(LowerAscii(w)) by {
      assert LowerAscii(w) == w;
    }
    PlainSchemeSafe(w, rest);
    assert w + ":" + rest == "https:" + rest;
  }

  /** `scheme:rest` with plain text decodes to itself and has the token as its scheme. */
  lemma PlainSchemeUrl(w: string, rest: string)
    requires w != [] && IsAsciiAlpha(w[0]) && forall i :: 1 <= i < |w| ==> IsSchemeChar(w[i])
    requires IsPlain(rest)
    ensures w + ":" + rest != [] && Decoded(w + ":" + rest) == Some(w + ":" + rest)
    ensures ParseScheme(w + ":" + rest) == Some(LowerAscii(w))
  {
    SchemeUrlPlain(w, rest);
    PlainUrl(w + ":" + rest);
    SchemeOfTokenNoGap(w, rest);
  }

  /** A scheme that is found is a non-empty, lower-case RFC 3986 scheme token. */
  lemma SchemeShape(s: string)
    requires ParseScheme(s).Some?
    ensures var t := ParseScheme(s).value;
      t != [] && IsAsciiLower(t[0]) && NoAsciiUpper(t) && forall i :: 0 <= i < |t| ==> IsSchemeChar(t[i])
  {
    ParseSchemeMeaning(s);
    var j: nat :| j <= |s| && SchemeEndsAt(s, j) && ParseScheme(s).value == LowerAscii(s[..j]);
    var k: nat :| SchemeAt(s, j, k);
    var t := LowerAscii(s[..j]);
    LowerAsciiIsLower(s[..j]);
    forall i | 0 <= i < |t| ensures IsSchemeChar(t[i]) {
      LowerKeepsClasses(s[i]);
    }
  }

  /** Text that does not start with an ASCII letter has no scheme and is read as relative, even
      when it spells `javascript:` in full-width letters. */
  lemma NoLetterNoScheme(s: string)
    requires s == [] || !IsAsciiAlpha(s[0])
    ensures ParseScheme(s).None?
  {
    ParseSchemeMeaning(s);
  }
}
