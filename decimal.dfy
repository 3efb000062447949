/**
 * Decimal digit strings, as Rust's integer parsing (`str::parse::<u16>`)
 * and `Display` for integers read and write them, and the whitespace that
 * `str::trim` removes.
 */
module Decimal {
  import opened Wrappers
  import opened Integers

  predicate IsDigit(c: char) {
    '0' <= c <= '9'
  }

  predicate AllDigits(s: string) {
    forall i | 0 <= i < |s| :: IsDigit(s[i])
  }

  function DigitValue(c: char): (d: nat)
    requires IsDigit(c)
    ensures d < 10
  {
    c as int - '0' as int
  }

  function DigitChar(d: nat): (c: char)
    requires d < 10
    ensures IsDigit(c) && DigitValue(c) == d
  {
    ('0' as int + d) as char
  }

  /** The value of a string of decimal digits, most significant first. */
  function DecimalValue(s: string): nat
    requires AllDigits(s)
  {
    if s == [] then 0 else DecimalValue(s[..|s| - 1]) * 10 + DigitValue(s[|s| - 1])
  }

  function Pow10(n: nat): (p: nat)
    ensures p >= 1
  {
    if n == 0 then 1 else 10 * Pow10(n - 1)
  }

  /** One more digit at the end multiplies the value by ten and adds the digit. */
  lemma DecimalValueSnoc(s: string, c: char)
    requires AllDigits(s) && IsDigit(c)
    ensures AllDigits(s + [c]) && DecimalValue(s + [c]) == DecimalValue(s) * 10 + DigitValue(c)
  {
    assert (s + [c])[..|s|] == s;
  }

  /** The value of two digit strings one after the other. */
  lemma {:induction false} DecimalValueConcat(a: string, b: string)
    requires AllDigits(a) && AllDigits(b)
    ensures AllDigits(a + b) && DecimalValue(a + b) == DecimalValue(a) * Pow10(|b|) + DecimalValue(b)
  {
    if b == [] {
      assert a + b == a;
    } else {
      var p, c := b[..|b| - 1], b[|b| - 1];
      assert b == p + [c];
      assert a + b == (a + p) + [c];
      DecimalValueConcat(a, p);
      DecimalValueSnoc(a + p, c);
      DecimalValueSnoc(p, c);
      ShiftDigit(DecimalValue(a), Pow10(|p|), DecimalValue(p), DigitValue(c));
    }
  }

  /** One more digit shifts both parts of a concatenation. */
  lemma ShiftDigit(x: int, p: int, y: int, c: int)
    ensures (x * p + y) * 10 + c == x * (10 * p) + (y * 10 + c)
  {
  }

  /** `n` written in decimal, without leading zeros. */
  function DecimalString(n: nat): (s: string)
    ensures |s| >= 1 && AllDigits(s)
    ensures s[0] == '0' ==> n == 0
  {
    if n < 10 then [DigitChar(n)] else DecimalString(n / 10) + [DigitChar(n % 10)]
  }

  /** Reading a number's decimal form gives the number back. */
  lemma {:induction false} DecimalRoundTrip(n: nat)
    ensures DecimalValue(DecimalString(n)) == n
  {
    if n >= 10 {
      var s := DecimalString(n);
      assert s[..|s| - 1] == DecimalString(n / 10);
      DecimalRoundTrip(n / 10);
    }
  }

  /**
   * `u16::from_str`: an optional `+`, then at least one decimal digit, and
   * a value that fits in 16 bits; anything else is an error.
   */
  function ParseU16(s: string): (r: Option<u16>)
    ensures r.Some? ==> |s| >= 1 && (s[0] == '+' || IsDigit(s[0]))
  {
    var body := if |s| > 0 && s[0] == '+' then s[1..] else s;
    if body == [] || !AllDigits(body) then None
    else if DecimalValue(body) <= U16_MAX then Some(DecimalValue(body))
    else None
  }

  /** Every `u16` written in decimal parses back to itself, with or without a `+`. */
  lemma ParseU16RoundTrip(n: u16)
    ensures ParseU16(DecimalString(n)) == Some(n)
    ensures ParseU16("+" + DecimalString(n)) == Some(n)
  {
    DecimalRoundTrip(n);
    assert ("+" + DecimalString(n))[1..] == DecimalString(n);
  }

  /** The empty string, a lone sign and a minus sign are all rejected. */
  lemma ParseU16Rejects(s: string)
    ensures ParseU16("") == None && ParseU16("+") == None
    ensures ParseU16("-" + s) == None
  {
    assert !IsDigit(("-" + s)[0]);
  }

  /**
   * The characters with the Unicode `White_Space` property, which
   * `str::trim` removes at both ends.
   */
  predicate IsWhitespace(c: char) {
    c == ' ' || '\t' <= c <= '\r' || c == '\U{85}' || c == '\U{A0}' || c == '\U{1680}'
    || '\U{2000}' <= c <= '\U{200A}' || c == '\U{2028}' || c == '\U{2029}' || c == '\U{202F}'
    || c == '\U{205F}' || c == '\U{3000}'
  }

  function TrimStart(s: string): (r: string)
    ensures |r| <= |s| && r == s[|s| - |r|..]
    ensures r != [] ==> !IsWhitespace(r[0])
    ensures forall i | 0 <= i < |s| - |r| :: IsWhitespace(s[i])
  {
    if s != [] && IsWhitespace(s[0]) then TrimStart(s[1..]) else s
  }

  function TrimEnd(s: string): (r: string)
    ensures |r| <= |s| && r == s[..|r|]
    ensures r != [] ==> !IsWhitespace(r[|r| - 1])
    ensures forall i | |r| <= i < |s| :: IsWhitespace(s[i])
  {
    if s != [] && IsWhitespace(s[|s| - 1]) then TrimEnd(s[..|s| - 1]) else s
  }

  /** `str::trim`: no whitespace is left at either end. */
  function Trim(s: string): (r: string)
    ensures r != [] ==> !IsWhitespace(r[0]) && !IsWhitespace(r[|r| - 1])
  {
    var t := TrimStart(s);
    var r := TrimEnd(t);
    assert r != [] ==> r[0] == t[0];
    r
  }

  /** Trimming drops only whitespace, at both ends. */
  lemma TrimDropsWhitespace(s: string)
    ensures var a := |s| - |TrimStart(s)|;
      && (forall i | 0 <= i < a :: IsWhitespace(s[i]))
      && (forall i | a + |Trim(s)| <= i < |s| :: IsWhitespace(s[i]))
  {
    var t := TrimStart(s);
    var a := |s| - |t|;
    forall i | a + |Trim(s)| <= i < |s|
      ensures IsWhitespace(s[i])
    {
      assert s[i] == t[i - a];
    }
  }
}
