/**
 UTF-8 as rapidjson/encodings.h decodes and validates it, and the writer with an ASCII target
 (rapidjson/writer.h), which writes every other character as one \u escape or a surrogate pair.
 */
module Unicode {
  import opened Sax
  import opened Scan
  import opened JsonWriter
  import opened RoundTrip

  // ---------------------------------------------------------------- section 4 of RFC 3629

  predicate In(b: Byte, lo: Byte, hi: Byte) { lo <= b <= hi }

  predicate IsTailByte(b: Byte) { In(b, 0x80, 0xBF) }

  /** How many bytes the character at `p` has; 0 if no well-formed character begins there. */
  function CharLength(t: Text, p: nat): (n: nat)
    ensures n <= 4 && (n > 1 ==> p + n <= |t|)
  {
    var a, b, c, d := Peek(t, p), Peek(t, p + 1), Peek(t, p + 2), Peek(t, p + 3);
    if a <= 0x7F then 1
    else if In(a, 0xC2, 0xDF) && IsTailByte(b) then 2
    else if a == 0xE0 && In(b, 0xA0, 0xBF) && IsTailByte(c) then 3
    else if In(a, 0xE1, 0xEC) && IsTailByte(b) && IsTailByte(c) then 3
    else if a == 0xED && In(b, 0x80, 0x9F) && IsTailByte(c) then 3
    else if In(a, 0xEE, 0xEF) && IsTailByte(b) && IsTailByte(c) then 3
    else if a == 0xF0 && In(b, 0x90, 0xBF) && IsTailByte(c) && IsTailByte(d) then 4
    else if In(a, 0xF1, 0xF3) && IsTailByte(b) && IsTailByte(c) && IsTailByte(d) then 4
    else if a == 0xF4 && In(b, 0x80, 0x8F) && IsTailByte(c) && IsTailByte(d) then 4
    else 0
  }

  /** From `p` on the text is a sequence of well-formed characters. */
  predicate WellFormedFrom(t: Text, p: nat)
    decreases |t| - p
  {
    p >= |t| || (CharLength(t, p) > 0 && WellFormedFrom(t, p + CharLength(t, p)))
  }

  /** A Unicode scalar value: no surrogate. */
  predicate IsScalarValue(cp: int) { 0 <= cp <= 0xD7FF || 0xE000 <= cp <= 0x10FFFF }

  // ---------------------------------------------------------------- GetRange, Decode, Validate

  /** The table of byte classes. */
  function GetRange(c: Byte): Byte {
    if c < 0x80 then 0
    else if c < 0x90 then 0x10
    else if c < 0xA0 then 0x40
    else if c < 0xC0 then 0x20
    else if c < 0xC2 then 8
    else if c < 0xE0 then 2
    else if c == 0xE0 then 10
    else if c == 0xED then 4
    else if c < 0xF0 then 3
    else if c == 0xF0 then 11
    else if c < 0xF4 then 6
    else if c == 0xF4 then 5
    else 8
  }

  /** The class of the byte meets the mask; masks have bits 4, 5 and 6 only. */
  predicate Meets(c: Byte, mask: Byte) {
    var r := GetRange(c);
    || (r / 16 % 2 == 1 && mask / 16 % 2 == 1)
    || (r / 32 % 2 == 1 && mask / 32 % 2 == 1)
    || (r / 64 % 2 == 1 && mask / 64 % 2 == 1)
  }

  lemma MasksMean(c: Byte)
    ensures Meets(c, 0x70) <==> IsTailByte(c)
    ensures Meets(c, 0x50) <==> In(c, 0x80, 0x9F)
    ensures Meets(c, 0x10) <==> In(c, 0x80, 0x8F)
    ensures Meets(c, 0x20) <==> In(c, 0xA0, 0xBF)
    ensures Meets(c, 0x60) <==> In(c, 0x90, 0xBF)
  {
  }

  /** The class of a lead byte: which mask its second byte has to meet, and how many bytes follow. */
  function FirstMask(kind: Byte): Byte {
    if kind == 4 then 0x50 else if kind == 5 then 0x10 else if kind == 10 then 0x20 else if kind == 11 then 0x60 else 0x70
  }

  function Following(kind: Byte): nat {
    if kind == 2 then 1 else if kind == 3 || kind == 4 || kind == 10 then 2 else if kind == 5 || kind == 6 || kind == 11 then 3 else 0
  }

  /** The bits of a lead byte that belong to the code point: 0xFF shifted right by the class. */
  function LeadBits(kind: Byte, c: Byte): nat {
    if kind == 2 then c % 64 else if kind == 3 then c % 32 else if kind == 4 then c % 16
    else if kind == 5 then c % 8 else if kind == 6 then c % 4 else 0
  }

  /**
   Decode accepts exactly the well-formed characters, and the code point it returns is the
   scalar value that Encode turns into the bytes read.
   */
  method Decode(t: Text, p: nat) returns (ok: bool, codepoint: nat, q: nat)
    requires p < |t|
    ensures ok <==> CharLength(t, p) > 0
    ensures ok ==> q == p + CharLength(t, p) <= |t| && IsScalarValue(codepoint) && Utf8(codepoint) == t[p..q]
  {
    var c := Peek(t, p);
    q := p + 1;
    if c < 0x80 {
      return true, c, q;
    }
    var kind := GetRange(c);
    codepoint := LeadBits(kind, c);
    if Following(kind) == 0 {
      return false, codepoint, q;
    }
    c := Peek(t, q);
    q := q + 1;
    codepoint := codepoint * 64 + c % 64;
    ok := Meets(c, FirstMask(kind));
    if Following(kind) >= 2 {
      c := Peek(t, q);
      q := q + 1;
      codepoint := codepoint * 64 + c % 64;
      ok := ok && Meets(c, 0x70);
    }
    if Following(kind) >= 3 {
      c := Peek(t, q);
      q := q + 1;
      codepoint := codepoint * 64 + c % 64;
      ok := ok && Meets(c, 0x70);
    }
    DecodedRight(t, p, ok, codepoint, q);
  }

  lemma DecodedRight(t: Text, p: nat, ok: bool, codepoint: nat, q: nat)
    requires p < |t| && t[p] >= 0x80 && Following(GetRange(t[p])) > 0
    requires var kind := GetRange(t[p]);
             var n := Following(kind);
             var b, c, d := Peek(t, p + 1), Peek(t, p + 2), Peek(t, p + 3);
             && q == p + 1 + n
             && ok == (Meets(b, FirstMask(kind)) && (n >= 2 ==> Meets(c, 0x70)) && (n >= 3 ==> Meets(d, 0x70)))
             && var x := LeadBits(kind, t[p]) * 64 + b % 64;
                codepoint == if n == 1 then x else if n == 2 then x * 64 + c % 64 else (x * 64 + c % 64) * 64 + d % 64
    ensures ok <==> CharLength(t, p) > 0
    ensures ok ==> q == p + CharLength(t, p) <= |t| && IsScalarValue(codepoint) && Utf8(codepoint) == t[p..q]
  {
    hide Meets, GetRange, LeadBits, Utf8, CharLength, IsScalarValue, FirstMask, Following, Two, Three, Four;
    Accepted(t, p, ok);
    if ok {
      var kind := GetRange(t[p]);
      LeadIs(t[p]);
      var b, c, d := Peek(t, p + 1), Peek(t, p + 2), Peek(t, p + 3);
      if Following(kind) == 1 {
        TwoBytes(t[p], b);
        assert t[p..q] == [t[p], b];
      } else if Following(kind) == 2 {
        ThreeBytes(t[p], b, c);
        assert t[p..q] == [t[p], b, c];
      } else {
        FourBytes(t[p], b, c, d);
        assert t[p..q] == [t[p], b, c, d];
      }
    }
  }

  /** The masks accept exactly the well-formed characters. */
  lemma Accepted(t: Text, p: nat, ok: bool)
    requires p < |t| && t[p] >= 0x80 && Following(GetRange(t[p])) > 0
    requires var kind := GetRange(t[p]);
             var n := Following(kind);
             ok == (Meets(Peek(t, p + 1), FirstMask(kind)) && (n >= 2 ==> Meets(Peek(t, p + 2), 0x70))
                    && (n >= 3 ==> Meets(Peek(t, p + 3), 0x70)))
    ensures CharLength(t, p) == if ok then 1 + Following(GetRange(t[p])) else 0
    ensures ok ==> SecondOk(t[p], Peek(t, p + 1))
    ensures ok ==> Following(GetRange(t[p])) >= 2 ==> IsTailByte(Peek(t, p + 2))
    ensures ok ==> Following(GetRange(t[p])) >= 3 ==> IsTailByte(Peek(t, p + 3))
  {
    MasksMean(Peek(t, p + 1));
    MasksMean(Peek(t, p + 2));
    MasksMean(Peek(t, p + 3));
    hide Meets;
  }

  /** The second byte is a tail byte, and excludes overlong forms, surrogates and too large values. */
  predicate SecondOk(a: Byte, b: Byte) {
    && IsTailByte(b) && (a == 0xE0 ==> b >= 0xA0) && (a == 0xED ==> b <= 0x9F)
    && (a == 0xF0 ==> b >= 0x90) && (a == 0xF4 ==> b <= 0x8F)
  }

  lemma LeadIs(a: Byte)
    requires Following(GetRange(a)) > 0
    ensures var n := Following(GetRange(a));
            && n <= 3
            && (n == 1 ==> In(a, 0xC2, 0xDF) && LeadBits(GetRange(a), a) == a - 0xC0)
            && (n == 2 ==> In(a, 0xE0, 0xEF) && LeadBits(GetRange(a), a) == a - 0xE0)
            && (n == 3 ==> In(a, 0xF0, 0xF4) && LeadBits(GetRange(a), a) == a - 0xF0)
  {
  }

  lemma TwoBytes(a: Byte, b: Byte)
    requires In(a, 0xC2, 0xDF) && IsTailByte(b)
    ensures var cp := Two(a, b);
            cp == (a - 0xC0) * 64 + b % 64 && cp >= 0x80 && IsScalarValue(cp) && Utf8(cp) == [a, b]
  {
  }

  lemma ThreeBytes(a: Byte, b: Byte, c: Byte)
    requires In(a, 0xE0, 0xEF) && SecondOk(a, b) && IsTailByte(c)
    ensures var cp := Three(a, b, c);
            cp == ((a - 0xE0) * 64 + b % 64) * 64 + c % 64 && cp >= 0x80 && IsScalarValue(cp) && Utf8(cp) == [a, b, c]
  {
    var x := (a - 0xE0) * 64 + (b - 0x80);
    Base64(a - 0xE0, b - 0x80);
    Base64(x, c - 0x80);
    DivDiv(Three(a, b, c));
    TailRests(b, c, c);
    ThreeRange(a, b, c);
  }

  lemma ThreeRange(a: Byte, b: Byte, c: Byte)
    requires In(a, 0xE0, 0xEF) && SecondOk(a, b) && IsTailByte(c)
    ensures 0x800 <= Three(a, b, c) <= 0xFFFF && IsScalarValue(Three(a, b, c))
  {
  }

  lemma Base64(y: nat, d: nat)
    requires d < 64
    ensures (y * 64 + d) / 64 == y && (y * 64 + d) % 64 == d
  {
  }

  lemma DivDiv(x: nat)
    ensures x / 4096 == x / 64 / 64 && x / 262144 == x / 64 / 64 / 64
  {
  }

  lemma FourBytes(a: Byte, b: Byte, c: Byte, d: Byte)
    requires In(a, 0xF0, 0xF4) && SecondOk(a, b) && IsTailByte(c) && IsTailByte(d)
    ensures var cp := Four(a, b, c, d);
            && cp == (((a - 0xF0) * 64 + b % 64) * 64 + c % 64) * 64 + d % 64 && cp >= 0x80
            && IsScalarValue(cp) && Utf8(cp) == [a, b, c, d]
  {
    var x := (a - 0xF0) * 64 + (b - 0x80);
    var y := x * 64 + (c - 0x80);
    Base64(a - 0xF0, b - 0x80);
    Base64(x, c - 0x80);
    Base64(y, d - 0x80);
    DivDiv(Four(a, b, c, d));
    TailRests(b, c, d);
    FourRange(a, b, c, d);
  }

  lemma TailRests(b: Byte, c: Byte, d: Byte)
    requires IsTailByte(b) && IsTailByte(c) && IsTailByte(d)
    ensures b % 64 == b - 0x80 && c % 64 == c - 0x80 && d % 64 == d - 0x80
  {
  }

  lemma FourRange(a: Byte, b: Byte, c: Byte, d: Byte)
    requires In(a, 0xF0, 0xF4) && SecondOk(a, b) && IsTailByte(c) && IsTailByte(d)
    ensures 0x10000 <= Four(a, b, c, d) <= 0x10FFFF
  {
  }

  /** Encode writes one well-formed character: with Decode's contract the two are inverse. */
  lemma EncodedIsWellFormed(cp: nat, t: Text, p: nat)
    requires IsScalarValue(cp) && Stands(t, p, Utf8(cp))
    ensures CharLength(t, p) == |Utf8(cp)|
  {
    var s := Utf8(cp);
    assert t[p + 0] == s[0];
    if |s| > 1 {
      assert t[p + 1] == s[1];
    }
    if |s| > 2 {
      assert t[p + 2] == s[2];
    }
    if |s| > 3 {
      assert t[p + 3] == s[3];
    }
  }

  function Two(a: int, b: int): int { (a - 0xC0) * 64 + (b - 0x80) }
  function Three(a: int, b: int, c: int): int { ((a - 0xE0) * 64 + (b - 0x80)) * 64 + (c - 0x80) }
  function Four(a: int, b: int, c: int, d: int): int {
    (((a - 0xF0) * 64 + (b - 0x80)) * 64 + (c - 0x80)) * 64 + (d - 0x80)
  }

  /** The code point that the bytes of one character stand for. */
  function Recover(s: Text): (cp: int) {
    if |s| == 1 then s[0]
    else if |s| == 2 then Two(s[0], s[1])
    else if |s| == 3 then Three(s[0], s[1], s[2])
    else if |s| == 4 then Four(s[0], s[1], s[2], s[3])
    else 0
  }

  /** Encoding loses nothing. */
  lemma RecoverEncoded(cp: nat)
    requires cp <= 0x10FFFF
    ensures Recover(Utf8(cp)) == cp
  {
    assert cp / 4096 == cp / 64 / 64 && cp / 262144 == cp / 4096 / 64;
  }

  /** Every well-formed character is the encoding of a scalar value. */
  lemma CharacterIsEncoded(t: Text, p: nat)
    requires p < |t| && CharLength(t, p) > 0
    ensures var s := t[p..p + CharLength(t, p)];
            var cp := Recover(s);
            IsScalarValue(cp) && Utf8(cp) == s && (t[p] < 0x80 ==> cp == t[p]) && (t[p] >= 0x80 ==> cp >= 0x80)
  {
    hide Utf8, CharLength, IsScalarValue, Two, Three, Four;
    CharParts(t, p);
    var n := CharLength(t, p);
    var a := t[p];
    if n == 1 {
      OneByte(a);
    } else if n == 2 {
      TwoBytes(a, t[p + 1]);
    } else if n == 3 {
      ThreeBytes(a, t[p + 1], t[p + 2]);
    } else {
      FourBytes(a, t[p + 1], t[p + 2], t[p + 3]);
    }
  }

  lemma OneByte(a: Byte)
    requires a < 0x80
    ensures IsScalarValue(a) && Utf8(a) == [a]
  {
  }

  lemma CharParts(t: Text, p: nat)
    requires p < |t| && CharLength(t, p) > 0
    ensures var n := CharLength(t, p);
            && 1 <= n <= 4 && p + n <= |t|
            && (n == 1 ==> t[p] < 0x80 && t[p..p + n] == [t[p]])
            && (n == 2 ==> In(t[p], 0xC2, 0xDF) && IsTailByte(t[p + 1]) && t[p..p + n] == [t[p], t[p + 1]])
            && (n == 3 ==> In(t[p], 0xE0, 0xEF) && SecondOk(t[p], t[p + 1]) && IsTailByte(t[p + 2])
                           && t[p..p + n] == [t[p], t[p + 1], t[p + 2]])
            && (n == 4 ==> In(t[p], 0xF0, 0xF4) && SecondOk(t[p], t[p + 1]) && IsTailByte(t[p + 2]) && IsTailByte(t[p + 3])
                           && t[p..p + n] == [t[p], t[p + 1], t[p + 2], t[p + 3]])
  {
  }

  /** Validate reads the same bytes as Decode and copies them. */
  method Validate(t: Text, p: nat, out: Text) returns (ok: bool, q: nat, r: Text)
    requires p < |t|
    ensures ok <==> CharLength(t, p) > 0
    ensures ok ==> q == p + CharLength(t, p) <= |t| && r == out + t[p..q]
  {
    var c := Peek(t, p);
    q := p + 1;
    r := out + [c];
    if c < 0x80 {
      return true, q, r;
    }
    var kind := GetRange(c);
    if Following(kind) == 0 {
      return false, q, r;
    }
    c := Peek(t, q);
    q := q + 1;
    r := r + [c];
    ok := Meets(c, FirstMask(kind));
    if Following(kind) >= 2 {
      c := Peek(t, q);
      q := q + 1;
      r := r + [c];
      ok := ok && Meets(c, 0x70);
    }
    if Following(kind) >= 3 {
      c := Peek(t, q);
      q := q + 1;
      r := r + [c];
      ok := ok && Meets(c, 0x70);
    }
    Accepted(t, p, ok);
    LeadIs(t[p]);
  }

  // ---------------------------------------------------------------- the ASCII target

  function HexText(v: nat): (s: Text)
    requires v < 0x10000
    ensures |s| == 4
  {
    [UpperHex(v / 4096), UpperHex(v / 256 % 16), UpperHex(v / 16 % 16), UpperHex(v % 16)]
  }

  const ESCAPE: Text := ['\\' as int, 'u' as int]

  /** One escape, or two for a surrogate pair. */
  function UnicodeEscape(cp: int): (s: Text)
    requires 0 <= cp <= 0x10FFFF
    ensures |s| == 6 || |s| == 12
  {
    if cp <= 0xFFFF then ESCAPE + HexText(cp)
    else
      var v := cp - 0x10000;
      ESCAPE + HexText(v / 1024 + 0xD800) + (ESCAPE + HexText(v % 1024 + 0xDC00))
  }

  /** The text between the quotes. */
  function AsciiText(s: Text, p: nat): (r: Text)
    requires WellFormedFrom(s, p)
    decreases |s| - p
  {
    if p >= |s| then []
    else if s[p] < 0x80 then EscapedByte(s[p]) + AsciiText(s, p + 1)
    else
      var q := p + CharLength(s, p);
      CharacterIsEncoded(s, p);
      UnicodeEscape(Recover(s[p..q])) + AsciiText(s, q)
  }

  predicate IsAscii(s: Text) { forall i :: 0 <= i < |s| ==> s[i] < 0x80 }

  /** The string can be written exactly if it is well-formed. */
  method WriteAsciiString(s: Text) returns (ok: bool, os: Text)
    ensures ok <==> WellFormedFrom(s, 0)
    ensures ok ==> os == ['"' as int] + AsciiText(s, 0) + ['"' as int] && IsAscii(os)
  {
    hide CharLength, AsciiText, Utf8, UnicodeEscape, EscapedByte, WellFormedFrom, Recover;
    os := ['"' as int];
    var p := 0;
    while p < |s|
      invariant 0 <= p <= |s| && IsAscii(os)
      invariant WellFormedFrom(s, p) <==> WellFormedFrom(s, 0)
      invariant WellFormedFrom(s, 0) ==> os + AsciiText(s, p) == ['"' as int] + AsciiText(s, 0)
      decreases |s| - p
    {
      AsciiStep(s, p);
      if s[p] >= 0x80 {
        var good, cp, q := Decode(s, p);
        if !good {
          return false, os;
        }
        RecoverEncoded(cp);
        os := os + UnicodeEscape(cp);
        EscapeIsAscii(cp);
        p := q;
      } else {
        os := os + EscapedByte(s[p]);
        p := p + 1;
      }
    }
    AsciiEnd(s, p);
    os := os + ['"' as int];
    ok := true;
  }

  lemma AsciiEnd(s: Text, p: nat)
    requires p >= |s|
    ensures WellFormedFrom(s, p) && AsciiText(s, p) == []
  {
  }

  lemma AsciiStep(s: Text, p: nat)
    requires p < |s|
    ensures WellFormedFrom(s, p) <==> CharLength(s, p) > 0 && WellFormedFrom(s, p + CharLength(s, p))
    ensures s[p] < 0x80 ==> CharLength(s, p) == 1 && IsAscii(EscapedByte(s[p]))
    ensures WellFormedFrom(s, p) ==> s[p] < 0x80 ==> AsciiText(s, p) == EscapedByte(s[p]) + AsciiText(s, p + 1)
    ensures WellFormedFrom(s, p) ==> s[p] >= 0x80 ==>
              var q := p + CharLength(s, p);
              var cp := Recover(s[p..q]);
              IsScalarValue(cp) && AsciiText(s, p) == UnicodeEscape(cp) + AsciiText(s, q)
  {
    if CharLength(s, p) > 0 {
      CharacterIsEncoded(s, p);
    }
  }

  lemma EscapeIsAscii(cp: int)
    requires 0 <= cp <= 0x10FFFF
    ensures IsAscii(UnicodeEscape(cp))
  {
  }

  lemma HexReadsBack(t: Text, p: nat, v: nat)
    requires v < 0x10000 && Stands(t, p, HexText(v))
    ensures Hex4(t, p) == Digits(v)
  {
    var s := HexText(v);
    assert t[p + 0] == s[0] && t[p + 1] == s[1] && t[p + 2] == s[2] && t[p + 3] == s[3];
    UpperHexDigit(v / 4096);
    UpperHexDigit(v / 256 % 16);
    UpperHexDigit(v / 16 % 16);
    UpperHexDigit(v % 16);
    hide HexDigit, UpperHex, HexRun;
    HexUnfold(t, p, v / 4096, v / 256 % 16, v / 16 % 16, v % 16);
    assert v / 256 == v / 16 / 16 && v / 4096 == v / 256 / 16;
  }

  lemma HexUnfold(t: Text, p: nat, a: nat, b: nat, c: nat, d: nat)
    requires HexDigit(Peek(t, p)) == Digits(a) && HexDigit(Peek(t, p + 1)) == Digits(b)
    requires HexDigit(Peek(t, p + 2)) == Digits(c) && HexDigit(Peek(t, p + 3)) == Digits(d)
    ensures HexRun(t, p, 4, 0) == Digits(((a * 16 + b) * 16 + c) * 16 + d)
  {
    hide HexDigit;
    assert HexRun(t, p, 4, 0) == HexRun(t, p + 1, 3, a);
    assert HexRun(t, p + 1, 3, a) == HexRun(t, p + 2, 2, 16 * a + b);
    assert HexRun(t, p + 2, 2, 16 * a + b) == HexRun(t, p + 3, 1, 16 * (16 * a + b) + c);
    assert HexRun(t, p + 3, 1, 16 * (16 * a + b) + c) == Digits(16 * (16 * (16 * a + b) + c) + d);
  }

  /** An escape reads back as the bytes of its code point. */
  lemma UnicodeEscapeReadsBack(t: Text, p: nat, cp: int)
    requires IsScalarValue(cp) && Stands(t, p, UnicodeEscape(cp))
    ensures Peek(t, p) == '\\' as int && EscapeAt(t, p) == Chars(Utf8(cp), p + |UnicodeEscape(cp)|)
  {
    hide Stands, HexText, Utf8, Hex4;
    if cp <= 0xFFFF {
      EscapeHead(t, p, cp, []);
    } else {
      var v := cp - 0x10000;
      var lead, trail := v / 1024 + 0xD800, v % 1024 + 0xDC00;
      EscapeHead(t, p, lead, ESCAPE + HexText(trail));
      EscapeHead(t, p + 6, trail, []);
      assert Pair(lead, trail) == cp;
    }
  }

  lemma EscapeHead(t: Text, p: nat, v: nat, rest: Text)
    requires v < 0x10000 && (Stands(t, p, ESCAPE + HexText(v) + rest) || (rest == [] && Stands(t, p, ESCAPE + HexText(v))))
    ensures Peek(t, p) == '\\' as int && Peek(t, p + 1) == 'u' as int && Hex4(t, p + 2) == Digits(v)
    ensures p + 6 <= |t| && Stands(t, p + 6, rest)
  {
    hide Hex4, HexText;
    var h := HexText(v);
    assert rest == [] ==> ESCAPE + h + rest == ESCAPE + h;
    assert ESCAPE + h + rest == ESCAPE + (h + rest);
    StandsSplit(t, p, ESCAPE, h + rest);
    StandsSplit(t, p + 2, h, rest);
    assert t[p + 0] == ESCAPE[0] && t[p + 1] == ESCAPE[1];
    HexReadsBack(t, p + 2, v);
  }

  lemma {:induction false} AsciiBodyReadsBack(t: Text, q: nat, s: Text, p: nat, acc: Text)
    requires WellFormedFrom(s, p) && p <= |s| && Stands(t, q, AsciiText(s, p) + ['"' as int])
    ensures StringBody(t, q, acc) == Chars(acc + s[p..], q + |AsciiText(s, p)| + 1)
    decreases |s| - p
  {
    hide EscapeAt, EscapedByte, Stands, UnicodeEscape, CharLength, Recover, Utf8, AsciiText, WellFormedFrom;
    var quote := ['"' as int];
    if p == |s| {
      AsciiEnd(s, p);
      assert AsciiText(s, p) + quote == quote;
      StandsHead(t, q, quote);
      assert acc + s[p..] == acc;
    } else {
      AsciiStep(s, p);
      var n := CharLength(s, p);
      CharFits(s, p);
      var piece := s[p..p + n];
      var head := if s[p] < 0x80 then EscapedByte(s[p]) else UnicodeEscape(Recover(piece));
      var rest := AsciiText(s, p + n) + quote;
      assert AsciiText(s, p) + quote == head + rest;
      StandsSplit(t, q, head, rest);
      StandsHead(t, q, head);
      AsciiBodyReadsBack(t, q + |head|, s, p + n, acc + piece);
      assert acc + piece + s[p + n..] == acc + s[p..];
      if s[p] >= 0x80 {
        UnicodeEscapeReadsBack(t, q, Recover(piece));
        CharacterIsEncoded(s, p);
      } else {
        assert piece == [s[p]];
        if EscapeLetter(s[p]) != 0 {
          EscapedReadsBack(t, q, s[p]);
        } else {
          PlainByte(s[p]);
        }
      }
    }
  }

  lemma CharFits(s: Text, p: nat)
    requires p < |s|
    ensures p + CharLength(s, p) <= |s|
  {
  }

  /**
   Writing well-formed UTF-8 with an ASCII target and reading it back restores the bytes; a
   string that is not well-formed is refused.
   */
  method AsciiRoundTrip(s: Text) returns (ok: bool, text: Text)
    ensures ok <==> WellFormedFrom(s, 0)
    ensures ok ==> IsAscii(text) && text != [] && text[0] == '"' as int && ParseString(text, 0) == Chars(s, |text|)
  {
    hide AsciiText, WellFormedFrom, StringBody;
    ok, text := WriteAsciiString(s);
    if ok {
      var body := AsciiText(s, 0) + ['"' as int];
      assert text == ['"' as int] + body;
      StandsBehind(text, body);
      AsciiBodyReadsBack(text, 1, s, 0, []);
      assert [] + s[0..] == s;
    }
  }

  lemma StandsBehind(text: Text, body: Text)
    requires text == ['"' as int] + body
    ensures Stands(text, 1, body)
  {
  }
}
