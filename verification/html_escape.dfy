/** HTML text escaping as spool's `escape_html` performs it: the five characters that are
    significant in HTML text and quoted attribute values become character references, and
    everything else is copied. Rust strings are UTF-8 bytes; the five specials are ASCII, so a
    byte that matches one of them is always a whole character, and escaping byte by byte equals
    escaping character by character, which is how this module states it. */
module HtmlEscape {

  /** The characters `needs_html_escape` looks for. */
  predicate IsSpecial(c: char) {
    c == '&' || c == '<' || c == '>' || c == '"' || c == '\''
  }

  /** The replacement text for one special character. */
  function Entity(c: char): (r: string)
    requires IsSpecial(c)
    ensures |r| >= 4 && r[0] == '&' && r[|r| - 1] == ';'
  {
    match c
    case '&' => "&amp;"
    case '<' => "&lt;"
    case '>' => "&gt;"
    case '"' => "&quot;"
    case _ => "&#39;"
  }

  function EscapeChar(c: char): string {
    if IsSpecial(c) then Entity(c) else [c]
  }

  /** The reference definition of escaping: each character replaced independently. */
  function Escape(s: string): string {
    if s == [] then [] else EscapeChar(s[0]) + Escape(s[1..])
  }

  /** `needs_html_escape`: some character of `s` is special. */
  predicate NeedsHtmlEscape(s: string) {
    exists i :: 0 <= i < |s| && IsSpecial(s[i])
  }

  /** No character that can open a tag or close a quoted attribute value survives escaping. */
  predicate NoMarkup(s: string) {
    forall i :: 0 <= i < |s| ==> s[i] != '<' && s[i] != '>' && s[i] != '"' && s[i] != '\''
  }

  lemma {:induction false} EscapeAppend(a: string, b: string)
    ensures Escape(a + b) == Escape(a) + Escape(b)
    decreases |a|
  {
    if a != [] {
      assert (a + b)[0] == a[0];
      assert (a + b)[1..] == a[1..] + b;
      EscapeAppend(a[1..], b);
      calc {
        Escape(a + b);
        EscapeChar(a[0]) + Escape(a[1..] + b);
        EscapeChar(a[0]) + (Escape(a[1..]) + Escape(b));
      }
    } else {
      assert a + b == b;
    }
  }

  /** The fast path is sound: text without specials escapes to itself, and only such text does. */
  lemma {:induction false} EscapeIdentityIffClean(s: string)
    ensures Escape(s) == s <==> !NeedsHtmlEscape(s)
    decreases |s|
  {
    if s != [] {
      EscapeIdentityIffClean(s[1..]);
      if IsSpecial(s[0]) {
        EscapeLength(s[1..]);
        assert |Escape(s)| > |s|;
      } else {
        assert Escape(s) == [s[0]] + Escape(s[1..]);
        if NeedsHtmlEscape(s) {
          var i :| 0 <= i < |s| && IsSpecial(s[i]);
          assert IsSpecial(s[1..][i - 1]);
        }
        if NeedsHtmlEscape(s[1..]) {
          var i :| 0 <= i < |s[1..]| && IsSpecial(s[1..][i]);
          assert IsSpecial(s[i + 1]);
        }
      }
    }
  }

  /** Escaping never shortens its input. */
  lemma {:induction false} EscapeLength(s: string)
    ensures |Escape(s)| >= |s|
    decreases |s|
  {
    if s != [] {
      EscapeLength(s[1..]);
    }
  }

  /** The output of escaping cannot open a tag or break out of a quoted attribute value. */
  lemma {:induction false} EscapeHasNoMarkup(s: string)
    ensures NoMarkup(Escape(s))
    decreases |s|
  {
    if s != [] {
      EscapeHasNoMarkup(s[1..]);
      var head := EscapeChar(s[0]);
      assert NoMarkup(head);
      var r := Escape(s);
      assert r == head + Escape(s[1..]);
      forall i | 0 <= i < |r|
        ensures r[i] != '<' && r[i] != '>' && r[i] != '"' && r[i] != '\''
      {
        if i >= |head| {
          assert r[i] == Escape(s[1..])[i - |head|];
        }
      }
    }
  }

  /** The escaping loop: it scans the input, copying each run of ordinary characters in one
      piece and emitting the replacement for each special one; the result is appended to
      `output`. */
  method EscapeHtml(output: string, s: string) returns (out: string)
    ensures out == output + Escape(s)
  {
    if !NeedsHtmlEscape(s) {
      EscapeIdentityIffClean(s);
      out := output + s;
    } else {
      out := EscapeRuns(output, s);
    }
  }

  /** The scanning loop behind `EscapeHtml`, entered when some character needs escaping. */
  method EscapeRuns(output: string, s: string) returns (out: string)
    ensures out == output + Escape(s)
  {
    out := output;
    var last := 0;
    var i := 0;
    while i < |s|
      invariant 0 <= last <= i <= |s|
      invariant out == output + Escape(s[..last])
      invariant forall k :: last <= k < i ==> !IsSpecial(s[k])
    {
      if IsSpecial(s[i]) {
        out := EmitSpecial(output, out, s, last, i);
        last := i + 1;
      }
      i := i + 1;
    }
    EscapeTail(s, last);
    out := AppendRun(out, s, last, |s|);
    assert s[last..|s|] == s[last..];
  }

  /** Pushes the run `s[lo..hi]`, skipping the push when the run is empty. */
  method AppendRun(out: string, s: string, lo: int, hi: int) returns (r: string)
    requires 0 <= lo <= hi <= |s|
    ensures r == out + s[lo..hi]
  {
    r := out;
    if lo < hi {
      r := r + s[lo..hi];
    }
  }

  /** Handles one special character: pushes the clean run before it, then its replacement. */
  method EmitSpecial(output: string, out: string, s: string, last: int, i: int) returns (r: string)
    requires 0 <= last <= i < |s|
    requires out == output + Escape(s[..last])
    requires forall k :: last <= k < i ==> !IsSpecial(s[k])
    requires IsSpecial(s[i])
    ensures r == output + Escape(s[..i + 1])
  {
    EscapeStep(s, last, i);
    r := AppendRun(out, s, last, i);
    r := r + Entity(s[i]);
  }

  /** One special character: the clean run before it is copied, then its replacement. */
  lemma EscapeStep(s: string, last: int, i: int)
    requires 0 <= last <= i < |s|
    requires forall k :: last <= k < i ==> !IsSpecial(s[k])
    requires IsSpecial(s[i])
    ensures Escape(s[..i + 1]) == Escape(s[..last]) + s[last..i] + Entity(s[i])
  {
    var chunk := s[last..i];
    CleanChunk(s, last, i);
    assert s[..i + 1] == s[..last] + chunk + [s[i]];
    EscapeAppend(s[..last] + chunk, [s[i]]);
    EscapeAppend(s[..last], chunk);
  }

  /** The clean run after the last special character is copied unchanged. */
  lemma EscapeTail(s: string, last: int)
    requires 0 <= last <= |s|
    requires forall k :: last <= k < |s| ==> !IsSpecial(s[k])
    ensures Escape(s) == Escape(s[..last]) + s[last..]
  {
    CleanChunk(s, last, |s|);
    assert s[last..|s|] == s[last..];
    assert s == s[..last] + s[last..];
    EscapeAppend(s[..last], s[last..]);
  }

  lemma CleanChunk(s: string, lo: int, hi: int)
    requires 0 <= lo <= hi <= |s|
    requires forall k :: lo <= k < hi ==> !IsSpecial(s[k])
    ensures Escape(s[lo..hi]) == s[lo..hi]
  {
    var c := s[lo..hi];
    assert forall j :: 0 <= j < |c| ==> c[j] == s[lo + j];
    EscapeIdentityIffClean(c);
  }

  lemma EscapeCons(c: char, rest: string)
    ensures Escape([c] + rest) == EscapeChar(c) + Escape(rest)
  {
    assert ([c] + rest)[1..] == rest;
  }

  /** Every special character is escaped, in the order it appears. */
  lemma AllSpecialsEscaped()
    ensures Escape("<\"'>&") == "&lt;&quot;&#39;&gt;&amp;"
  {
    QuoteSpecialsEscaped();
    EscapeCons('<', "\"'>&");
    assert ['<'] + "\"'>&" == "<\"'>&";
  }

  lemma QuoteSpecialsEscaped()
    ensures Escape("\"'>&") == "&quot;&#39;&gt;&amp;"
  {
    LastSpecialsEscaped();
    EscapeCons('"', "'>&");
    assert ['"'] + "'>&" == "\"'>&";
  }

  lemma LastSpecialsEscaped()
    ensures Escape("'>&") == "&#39;&gt;&amp;"
  {
    EscapeCons('&', "");
    EscapeCons('>', "&");
    EscapeCons('\'', ">&");
  }
}
