/** Character classes and small string helpers used throughout the model.
    Everything here is ASCII-only, matching the `is_ascii_*` family of Rust's `char`. */
module Text {

  predicate IsAsciiUpper(c: char) { 'A' <= c <= 'Z' }

  predicate IsAsciiLower(c: char) { 'a' <= c <= 'z' }

  predicate IsAsciiAlpha(c: char) { IsAsciiUpper(c) || IsAsciiLower(c) }

  predicate IsAsciiDigit(c: char) { '0' <= c <= '9' }

  predicate IsAsciiAlnum(c: char) { IsAsciiAlpha(c) || IsAsciiDigit(c) }

  predicate IsAsciiHexDigit(c: char) { IsAsciiDigit(c) || 'a' <= c <= 'f' || 'A' <= c <= 'F' }

  /** The value of one hexadecimal digit. */
  function HexDigitValue(c: char): (v: nat)
    requires IsAsciiHexDigit(c)
    ensures v < 16
    ensures IsAsciiDigit(c) ==> v < 10
  {
    if IsAsciiDigit(c) then c as int - '0' as int
    else if 'a' <= c <= 'f' then c as int - 'a' as int + 10
    else c as int - 'A' as int + 10
  }

  /** `char::to_ascii_lowercase`: upper-case ASCII letters move down by 32, everything else stays. */
  function ToAsciiLower(c: char): (r: char)
    ensures IsAsciiUpper(c) ==> IsAsciiLower(r) && r as int == c as int + 32
    ensures !IsAsciiUpper(c) ==> r == c
  {
    if IsAsciiUpper(c) then (c as int + 32) as char else c
  }

  /** `str::to_ascii_lowercase`, character by character. */
  function LowerAscii(s: string): (r: string)
    ensures |r| == |s|
    ensures forall i :: 0 <= i < |s| ==> r[i] == ToAsciiLower(s[i])
  {
    if s == [] then [] else [ToAsciiLower(s[0])] + LowerAscii(s[1..])
  }

  /** `char::to_lowercase` on the letters of the ASCII, Latin-1 Supplement, Greek and basic
      Cyrillic blocks: each upper-case letter moves to its one lower-case partner, and every other
      character stays. ASCII letters are lowered exactly as `ToAsciiLower` lowers them. */
  function ToLowerChar(c: char): (r: char)
    ensures c as int < 128 ==> r == ToAsciiLower(c)
    ensures !IsAsciiUpper(r)
    ensures r != c ==> r as int > c as int
  {
    if IsAsciiUpper(c) then ToAsciiLower(c)
    else if || ('\U{C0}' <= c <= '\U{DE}' && c != '\U{D7}')
            || ('\U{391}' <= c <= '\U{3AB}' && c != '\U{3A2}')
            || ('\U{410}' <= c <= '\U{42F}')
    then (c as int + 0x20) as char
    else if '\U{400}' <= c <= '\U{40F}' then (c as int + 0x50) as char
    else c
  }

  /** `str::to_lowercase`, character by character, with `ToLowerChar`'s letters. */
  function ToLowercase(s: string): (r: string)
    ensures |r| == |s|
    ensures forall i :: 0 <= i < |s| ==> r[i] == ToLowerChar(s[i])
    ensures NoAsciiUpper(r)
  {
    if s == [] then [] else [ToLowerChar(s[0])] + ToLowercase(s[1..])
  }

  /** On ASCII text the full lowercasing and the ASCII one agree. */
  lemma LowercaseOfAscii(s: string)
    requires forall i :: 0 <= i < |s| ==> s[i] as int < 128
    ensures ToLowercase(s) == LowerAscii(s)
  {
  }

  /** True when no character of `s` is an upper-case ASCII letter. */
  predicate NoAsciiUpper(s: string) {
    forall i :: 0 <= i < |s| ==> !IsAsciiUpper(s[i])
  }

  lemma LowerAsciiIsLower(s: string)
    ensures NoAsciiUpper(LowerAscii(s))
  {
  }

  /** Lowercasing text that is already lowercase changes nothing. */
  lemma LowerOfLower(s: string)
    requires NoAsciiUpper(s)
    ensures LowerAscii(s) == s
  {
  }

  function DigitChar(d: nat): (c: char)
    requires d < 10
    ensures IsAsciiDigit(c)
  {
    ('0' as int + d) as char
  }

  /** The decimal rendering of `n`, as Rust's `format!("{}", n)` prints it. */
  function NatToString(n: nat): (r: string)
    ensures |r| > 0
    ensures forall i :: 0 <= i < |r| ==> IsAsciiDigit(r[i])
    decreases n
  {
    if n < 10 then [DigitChar(n)] else NatToString(n / 10) + [DigitChar(n % 10)]
  }

  /** The value of a non-empty run of decimal digits. */
  function DecimalValue(s: string): nat
    requires forall i :: 0 <= i < |s| ==> IsAsciiDigit(s[i])
  {
    if s == [] then 0
    else
      assert IsAsciiDigit(s[|s| - 1]);
      DecimalValue(s[..|s| - 1]) * 10 + (s[|s| - 1] as int - '0' as int)
  }

  /** Reading back a printed number gives the number: the decimal printer is injective. */
  lemma {:induction false} DecimalValueOfNatToString(n: nat)
    ensures DecimalValue(NatToString(n)) == n
    decreases n
  {
    if n >= 10 {
      var p := NatToString(n / 10);
      var s := NatToString(n);
      assert s[..|s| - 1] == p;
      DecimalValueOfNatToString(n / 10);
    }
  }

  lemma NatToStringInjective(m: nat, n: nat)
    requires NatToString(m) == NatToString(n)
    ensures m == n
  {
    DecimalValueOfNatToString(m);
    DecimalValueOfNatToString(n);
  }
}
