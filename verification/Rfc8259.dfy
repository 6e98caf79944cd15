/** The characters of JSON texts as RFC 8259 lists them, by their codes. */
module Rfc8259 {
  import opened Sax

  /** ws of section 2: space, horizontal tab, line feed, carriage return. */
  predicate IsWs(c: int) { c == 0x20 || c == 0x09 || c == 0x0A || c == 0x0D }

  predicate AllWs(s: Text) { forall i :: 0 <= i < |s| ==> IsWs(s[i]) }

  /** The structural characters of section 2. */
  const BEGIN_ARRAY := 0x5B
  const END_ARRAY := 0x5D
  const BEGIN_OBJECT := 0x7B
  const END_OBJECT := 0x7D
  const NAME_SEPARATOR := 0x3A
  const VALUE_SEPARATOR := 0x2C

  const QUOTATION_MARK := 0x22
  const ESCAPE := 0x5C

  /** The characters that may follow an escape in section 7, but for u. */
  predicate IsEscaped(c: int) {
    c == 0x22 || c == 0x5C || c == 0x2F || c == 0x62 || c == 0x66 || c == 0x6E || c == 0x72 || c == 0x74
  }

  /** What an escaped character stands for. */
  function EscapedValue(c: int): Byte
    requires IsEscaped(c)
  {
    if c == 0x62 then 0x08 else if c == 0x66 then 0x0C else if c == 0x6E then 0x0A
    else if c == 0x72 then 0x0D else if c == 0x74 then 0x09 else c
  }

  /** HEXDIG of section 7, in either case. */
  predicate IsHexDig(c: int) { 0x30 <= c <= 0x39 || 0x41 <= c <= 0x46 || 0x61 <= c <= 0x66 }

  function HexValue(c: int): (v: nat)
    requires IsHexDig(c)
    ensures v < 16
  {
    if c <= 0x39 then c - 0x30 else if c <= 0x46 then c - 0x41 + 10 else c - 0x61 + 10
  }

  predicate IsDecDigit(c: int) { 0x30 <= c <= 0x39 }

  predicate AllDecDigits(s: Text) { forall i :: 0 <= i < |s| ==> IsDecDigit(s[i]) }
}
