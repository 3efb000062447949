/**
 * Hexadecimal output of a byte (mathml_renderer/src/itoa.rs): two
 * upper-case hex digits, high nibble first.
 */
module Itoa {
  import opened Integers

  /** `digit_to_hex_ascii`: a digit below 16 as its ASCII hex character (the source panics on larger digits). */
  function DigitToHexAscii(digit: u8): (c: char)
    requires digit < 16
    ensures digit < 10 ==> '0' <= c <= '9' && c as int - '0' as int == digit
    ensures 10 <= digit ==> 'A' <= c <= 'F' && c as int - 'A' as int == digit - 10
  {
    if digit <= 9 then (digit + '0' as int) as char
    else (digit - 10 + 'A' as int) as char
  }

  /** The value of an upper-case hex digit. */
  function HexValue(c: char): int {
    if '0' <= c <= '9' then c as int - '0' as int
    else if 'A' <= c <= 'F' then c as int - 'A' as int + 10
    else -1
  }

  predicate IsUpperHexDigit(c: char) {
    '0' <= c <= '9' || 'A' <= c <= 'F'
  }

  /** The two characters `append_u8_as_hex` writes: `b >> 4`, then `b & 0x0F`. */
  function HexByte(b: u8): string {
    [DigitToHexAscii(b / 16), DigitToHexAscii(b % 16)]
  }

  /** `append_u8_as_hex`: appends the two hex digits of `b`. */
  method AppendU8AsHex(output: string, b: u8) returns (r: string)
    ensures r == output + HexByte(b)
  {
    var hi := DigitToHexAscii(b / 16);
    var lo := DigitToHexAscii(b % 16);
    r := output + [hi, lo];
  }

  /**
   * Exactly two characters are written, both upper-case hex digits, and
   * reading them back as high and low nibble gives `b`.
   */
  lemma HexByteRoundTrip(b: u8)
    ensures |HexByte(b)| == 2
    ensures IsUpperHexDigit(HexByte(b)[0]) && IsUpperHexDigit(HexByte(b)[1])
    ensures HexValue(HexByte(b)[0]) * 16 + HexValue(HexByte(b)[1]) == b
  {
  }

  /** Each digit value has its own character, so different bytes are written differently. */
  lemma HexByteInjective(a: u8, b: u8)
    requires HexByte(a) == HexByte(b)
    ensures a == b
  {
    HexByteRoundTrip(a);
    HexByteRoundTrip(b);
  }

  /** The byte 0 is written as "00", and 255 as "FF". */
  lemma HexByteExamples()
    ensures HexByte(0) == "00"
    ensures HexByte(255) == "FF"
  {
  }
}
