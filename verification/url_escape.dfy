/** plait's `escape_url`: a URL written as an attribute value. A URL that fails the safety check
    is replaced by a fixed harmless URL; a URL that passes is HTML-escaped, so the attribute
    value a browser decodes is the URL itself. */
module UrlEscape {
  import opened Wrappers
  import opened Text
  import opened Url
  import opened HtmlEscape
  import Entities

  /** What is written in place of a refused URL. */
  const BlockedUrlFallback: string := "about:invalid"

  /** The text `escape_url` appends. */
  function EscapeUrl(s: string): (r: string)
    ensures r == BlockedUrlFallback || Entities.Unescape(r) == s
  {
    if !IsUrlSafe(s) then BlockedUrlFallback
    else
      Entities.UnescapeEscape(s);
      Escape(s)
  }

  /** `escape_url` on an output buffer: the buffer keeps its contents and gains the text. */
  method EscapeUrlInto(output: string, s: string) returns (out: string)
    ensures out == output + EscapeUrl(s)
  {
    if !IsUrlSafe(s) {
      out := output + BlockedUrlFallback;
    } else {
      out := EscapeHtml(output, s);
    }
  }

  /** An accepted URL is never written as the fallback text. */
  lemma SafeUrlIsNotFallback(s: string)
    requires IsUrlSafe(s)
    ensures Escape(s) != BlockedUrlFallback
  {
    Entities.UnescapeEscape(s);
    FallbackDecodesToItself();
    FallbackIsUnsafe();
  }

  lemma FallbackDecodesToItself()
    ensures Entities.Unescape(BlockedUrlFallback) == BlockedUrlFallback
  {
    PlainDecodesToItself(BlockedUrlFallback);
  }

  /** The fallback would itself be refused: `about` is not an allowed scheme. */
  lemma FallbackIsUnsafe()
    ensures !IsUrlSafe(BlockedUrlFallback)
  {
    assert IsRefusedScheme("about") by {
      var w := "about";
      assert forall i :: 1 <= i < |w| ==> IsSchemeChar(w[i]);
      assert LowerAscii(w) == w;
    }
    assert IsPlain("invalid");
    PlainSchemeBlocked("about", "invalid");
    assert "about" + ":" + "invalid" == BlockedUrlFallback;
  }

  /** The fallback is written exactly for refused URLs; an accepted URL is written so that
      decoding the attribute value gives it back. */
  lemma EscapeUrlMeaning(s: string)
    ensures IsUrlSafe(s) ==> Entities.Unescape(EscapeUrl(s)) == s
    ensures EscapeUrl(s) == BlockedUrlFallback <==> !IsUrlSafe(s)
  {
    if IsUrlSafe(s) {
      SafeUrlIsNotFallback(s);
    }
  }

  /** What a browser decodes from the written value passes the check exactly when the input
      did: an accepted URL comes back unchanged, and the fallback is itself refused. */
  lemma EscapeUrlKeepsVerdict(s: string)
    ensures IsUrlSafe(Entities.Unescape(EscapeUrl(s))) <==> IsUrlSafe(s)
  {
    if !IsUrlSafe(s) {
      FallbackDecodesToItself();
      FallbackIsUnsafe();
    } else {
      Entities.UnescapeEscape(s);
    }
  }

  /** Whatever the input, the written text cannot close the attribute value or open a tag. */
  lemma EscapeUrlHasNoMarkup(s: string)
    ensures NoMarkup(EscapeUrl(s))
  {
    if IsUrlSafe(s) {
      EscapeHasNoMarkup(s);
    }
  }

  /** The empty URL is refused. */
  lemma EmptyUrlIsBlocked()
    ensures EscapeUrl("") == BlockedUrlFallback
  {
  }
}
