/**
 What one call of SkipWhitespaceAndComments, ParseString, ParseNumber and the
 literal parsers does to the text at a position (rapidjson/reader.h).
 */
module Scan {
  import opened Sax

  // ---------------------------------------------------------------- white space and comments

  datatype Skip = At(pos: nat) | Bad(off: nat)

  predicate IsWhite(c: Byte) {
    c == ' ' as int || c == '\n' as int || c == '\r' as int || c == '\t' as int
  }

  function SkipWhite(t: Text, p: nat): (q: nat)
    ensures p <= q
    ensures p <= |t| ==> q <= |t|
    ensures !IsWhite(Peek(t, q))
    decreases |t| - p
  {
    if IsWhite(Peek(t, p)) then SkipWhite(t, p + 1) else p
  }

  /** The position after a block comment whose body starts at `p`. */
  function BlockComment(t: Text, p: nat): (s: Skip)
    ensures s.At? ==> p < s.pos
    ensures s.At? ==> s.pos <= |t|
    decreases |t| - p
  {
    if Peek(t, p) == 0 then Bad(p)
    else if Peek(t, p) == '*' as int then
      if Peek(t, p + 1) == '/' as int then At(p + 2) else BlockComment(t, p + 1)
    else BlockComment(t, p + 1)
  }

  /** The position after a line comment whose body starts at `p`. */
  function LineComment(t: Text, p: nat): (q: nat)
    ensures p <= q
    ensures p <= |t| ==> q <= |t|
    decreases |t| - p
  {
    if Peek(t, p) == 0 then p
    else if Peek(t, p) == '\n' as int then p + 1
    else LineComment(t, p + 1)
  }

  function Comments(t: Text, p: nat): (s: Skip)
    requires p <= |t|
    ensures s.At? ==> p <= s.pos <= |t|
    decreases |t| - p
  {
    if Peek(t, p) != '/' as int then At(p)
    else if Peek(t, p + 1) == '*' as int then
      var s := BlockComment(t, p + 2);
      if s.Bad? then s else Comments(t, SkipWhite(t, s.pos))
    else if Peek(t, p + 1) == '/' as int then
      Comments(t, SkipWhite(t, LineComment(t, p + 2)))
    else Bad(p + 1)
  }

  function SkipSpace(o: Options, t: Text, p: nat): (s: Skip)
    requires p <= |t|
    ensures s.At? ==> p <= s.pos <= |t|
  {
    if o.comments then Comments(t, SkipWhite(t, p)) else At(SkipWhite(t, p))
  }

  // ---------------------------------------------------------------- strings

  datatype Decoded = Chars(s: Text, end: nat) | BadString(code: ErrorCode, off: nat)

  /** The reader's escape table: the character that a backslash and `e` stand for, 0 if none. */
  function Unescape(e: Byte): Byte {
    if e == '"' as int then '"' as int
    else if e == '/' as int then '/' as int
    else if e == '\\' as int then '\\' as int
    else if e == 'b' as int then 8
    else if e == 'f' as int then 12
    else if e == 'n' as int then 10
    else if e == 'r' as int then 13
    else if e == 't' as int then 9
    else 0
  }

  datatype Hex = Digits(v: nat) | NotHex

  function HexDigit(c: Byte): (h: Hex)
    ensures h.Digits? ==> h.v < 16 && c != 0
  {
    if '0' as int <= c <= '9' as int then Digits(c - '0' as int)
    else if 'A' as int <= c <= 'F' as int then Digits(c - 'A' as int + 10)
    else if 'a' as int <= c <= 'f' as int then Digits(c - 'a' as int + 10)
    else NotHex
  }

  /** `n` more hexadecimal digits from `p` on, after a prefix of value `v`. */
  function HexRun(t: Text, p: nat, n: nat, v: nat): (h: Hex)
    ensures h.Digits? ==> p + n <= |t| || n == 0
    decreases n
  {
    if n == 0 then Digits(v)
    else
      var d := HexDigit(Peek(t, p));
      if d.NotHex? then NotHex else HexRun(t, p + 1, n - 1, 16 * v + d.v)
  }

  lemma {:induction false} HexRunBound(t: Text, p: nat, n: nat, v: nat)
    requires HexRun(t, p, n, v).Digits?
    ensures n == 4 && v == 0 ==> HexRun(t, p, n, v).v < 0x10000
  {
    if n == 4 && v == 0 {
      var d0, d1, d2, d3 := HexDigit(Peek(t, p)), HexDigit(Peek(t, p + 1)), HexDigit(Peek(t, p + 2)), HexDigit(Peek(t, p + 3));
      assert HexRun(t, p + 1, 3, d0.v) == HexRun(t, p + 2, 2, 16 * d0.v + d1.v);
      assert HexRun(t, p + 2, 2, 16 * d0.v + d1.v) == HexRun(t, p + 3, 1, 16 * (16 * d0.v + d1.v) + d2.v);
      assert HexRun(t, p + 3, 1, 16 * (16 * d0.v + d1.v) + d2.v) == Digits(16 * (16 * (16 * d0.v + d1.v) + d2.v) + d3.v);
    }
  }

  function Hex4(t: Text, p: nat): (h: Hex)
    ensures h.Digits? ==> h.v < 0x10000 && p + 4 <= |t|
  {
    var h := HexRun(t, p, 4, 0);
    if h.Digits? then (HexRunBound(t, p, 4, 0); h) else h
  }

  /** UTF8::Encode (rapidjson/encodings.h). */
  function Utf8(cp: nat): (s: Text)
    requires cp <= 0x10FFFF
    ensures 1 <= |s| <= 4
    ensures cp <= 0xFFFF ==> |s| <= 3
  {
    if cp <= 0x7F then [cp]
    else if cp <= 0x7FF then [0xC0 + cp / 64, 0x80 + cp % 64]
    else if cp <= 0xFFFF then [0xE0 + cp / 4096, 0x80 + cp / 64 % 64, 0x80 + cp % 64]
    else [0xF0 + cp / 262144, 0x80 + cp / 4096 % 64, 0x80 + cp / 64 % 64, 0x80 + cp % 64]
  }

  predicate IsLead(cp: nat) { 0xD800 <= cp <= 0xDBFF }
  predicate IsTrail(cp: nat) { 0xDC00 <= cp <= 0xDFFF }

  function Pair(lead: nat, trail: nat): (cp: nat)
    requires IsLead(lead) && IsTrail(trail)
    ensures 0x10000 <= cp <= 0x10FFFF
  {
    (lead - 0xD800) * 1024 + (trail - 0xDC00) + 0x10000
  }

  datatype Codepoint = Codepoint(v: nat, end: nat) | BadCodepoint(code: ErrorCode)

  /** The code point of a \\u escape whose first hexadecimal digit is at `p`, or of a surrogate pair. */
  function CodepointAt(t: Text, p: nat): (c: Codepoint)
    ensures c.Codepoint? ==> c.v <= 0x10FFFF && p + 4 <= c.end <= |t|
    ensures c.Codepoint? ==> |Utf8(c.v)| <= c.end - p
  {
    var h := Hex4(t, p);
    if h.NotHex? then BadCodepoint(StringUnicodeEscapeInvalidHex)
    else if !IsLead(h.v) then Codepoint(h.v, p + 4)
    else if Peek(t, p + 4) != '\\' as int || Peek(t, p + 5) != 'u' as int then
      BadCodepoint(StringUnicodeSurrogateInvalid)
    else
      var h2 := Hex4(t, p + 6);
      if h2.NotHex? then BadCodepoint(StringUnicodeEscapeInvalidHex)
      else if !IsTrail(h2.v) then BadCodepoint(StringUnicodeSurrogateInvalid)
      else Codepoint(Pair(h.v, h2.v), p + 10)
  }

  /** One escape sequence, the backslash being at `p`. */
  function EscapeAt(t: Text, p: nat): (d: Decoded)
    ensures d.Chars? ==> p + 2 <= d.end <= |t|
    ensures d.Chars? ==> 1 <= |d.s| <= d.end - p
  {
    var e := Peek(t, p + 1);
    if Unescape(e) != 0 then Chars([Unescape(e)], p + 2)
    else if e != 'u' as int then BadString(StringEscapeInvalid, p)
    else
      match CodepointAt(t, p + 2)
      case BadCodepoint(code) => BadString(code, p)
      case Codepoint(v, end) => Chars(Utf8(v), end)
  }

  /** The rest of a string from `p` on, after the already decoded prefix `acc`. */
  function StringBody(t: Text, p: nat, acc: Text): (d: Decoded)
    ensures d.Chars? ==> p < d.end
    ensures d.Chars? ==> d.end <= |t|
    decreases |t| - p
  {
    var c := Peek(t, p);
    if c == '\\' as int then
      var e := EscapeAt(t, p);
      if e.BadString? then e else StringBody(t, e.end, acc + e.s)
    else if c == '"' as int then Chars(acc, p + 1)
    else if c < 0x20 then
      BadString(if c == 0 then StringMissQuotationMark else StringInvalidEncoding, p)
    else StringBody(t, p + 1, acc + [c])
  }

  /** ParseString: the opening quote is at `p`. */
  function ParseString(t: Text, p: nat): (d: Decoded)
    ensures d.Chars? ==> p + 1 < d.end <= |t|
  {
    StringBody(t, p + 1, [])
  }

  // ---------------------------------------------------------------- literals

  /** How many characters of `w` follow one another in the text from `p` on. */
  function Matched(t: Text, p: nat, w: Text): (n: nat)
    requires 0 !in w
    ensures n <= |w|
    ensures n == |w| ==> p + n <= |t| || |w| == 0
    ensures n < |w| ==> Peek(t, p + n) != w[n]
    ensures p <= |t| ==> p + n <= |t|
    decreases |w|
  {
    if w == [] || Peek(t, p) != w[0] then 0 else 1 + Matched(t, p + 1, w[1..])
  }

  /** A word that stands in the text is matched whole. */
  lemma {:induction false} MatchedAll(t: Text, p: nat, w: Text)
    requires Stands(t, p, w) && 0 !in w
    ensures Matched(t, p, w) == |w|
    decreases |w|
  {
    if w != [] {
      assert t[p + 0] == w[0];
      forall i | 0 <= i < |w[1..]|
        ensures t[p + 1 + i] == w[1..][i]
      {
        assert t[p + (1 + i)] == w[1 + i];
      }
      MatchedAll(t, p + 1, w[1..]);
    }
  }

  // ---------------------------------------------------------------- numbers

  predicate IsDigit(c: Byte) { '0' as int <= c <= '9' as int }

  function DigitsEnd(t: Text, p: nat): (q: nat)
    ensures p <= q
    ensures p <= |t| ==> q <= |t|
    ensures !IsDigit(Peek(t, q))
    ensures forall i :: p <= i < q ==> IsDigit(Peek(t, i))
    decreases |t| - p
  {
    if IsDigit(Peek(t, p)) then DigitsEnd(t, p + 1) else p
  }

  predicate AllDigits(s: Text) { forall c :: c in s ==> IsDigit(c) }

  /** The value of a run of decimal digits. */
  function DecimalValue(s: Text): nat
    requires AllDigits(s)
  {
    if s == [] then 0
    else
      assert IsDigit(s[|s| - 1]);
      DecimalValue(s[..|s| - 1]) * 10 + (s[|s| - 1] - '0' as int)
  }

  const MAX_INT_MAGNITUDE := 0x8000_0000
  const MAX_UINT := 0xFFFF_FFFF
  const MAX_INT64_MAGNITUDE := 0x8000_0000_0000_0000
  const MAX_UINT64 := 0xFFFF_FFFF_FFFF_FFFF

  /** The largest magnitude that is still reported as an integer. */
  function IntegerLimit(minus: bool): nat {
    if minus then MAX_INT64_MAGNITUDE else MAX_UINT64
  }

  /** The event for an integer of magnitude `n`. */
  function IntegerEvent(minus: bool, n: nat): Event
    requires n <= IntegerLimit(minus)
  {
    if minus then if n <= MAX_INT_MAGNITUDE then Int(0 - n) else Int64(0 - n)
    else if n <= MAX_UINT then Uint(n) else Uint64(n)
  }

  datatype Span = End(end: nat) | BadNumber(code: ErrorCode, off: nat)

  /** The integer part: a zero, or a digit from 1 to 9 followed by digits. */
  function IntegerPart(t: Text, p: nat): (s: Span)
    ensures s.End? ==> p < s.end <= |t|
    ensures s.End? ==> AllDigits(t[p..s.end])
  {
    if Peek(t, p) == '0' as int then End(p + 1)
    else if IsDigit(Peek(t, p)) then
      var q := DigitsEnd(t, p + 1);
      assert forall i :: p <= i < q ==> IsDigit(Peek(t, i));
      assert forall i :: p <= i < q ==> t[i] == Peek(t, i);
      End(q)
    else BadNumber(ValueInvalid, p)
  }

  function FractionPart(t: Text, p: nat): (s: Span)
    requires p <= |t|
    ensures s.End? ==> p <= s.end <= |t|
  {
    if Peek(t, p) != '.' as int then End(p)
    else if IsDigit(Peek(t, p + 1)) then End(DigitsEnd(t, p + 1))
    else BadNumber(NumberMissFraction, p + 1)
  }

  /** The exponent of the number that starts at `start`. */
  function ExponentPart(o: Options, t: Text, start: nat, p: nat): (s: Span)
    requires start <= p <= |t|
    ensures s.End? ==> p <= s.end <= |t|
  {
    if Peek(t, p) != 'e' as int && Peek(t, p) != 'E' as int then End(p)
    else
      var sign := Peek(t, p + 1);
      var q := if sign == '+' as int || sign == '-' as int then p + 2 else p + 1;
      if !IsDigit(Peek(t, q)) then BadNumber(NumberMissExponent, q)
      else
        var e := DigitsEnd(t, q);
        if sign != '-' as int && o.expTooBig(t[start..e]) then BadNumber(NumberTooBig, start)
        else End(e)
  }

  /** ParseNumber: one number starting at `p`. */
  function ParseNumber(o: Options, t: Text, p: nat, out: seq<Event>): (r: Outcome)
    requires p <= |t|
    ensures r.Ok? ==> p < r.pos <= |t|
  {
    var minus := Peek(t, p) == '-' as int;
    var ip := if minus then p + 1 else p;
    var whole := IntegerPart(t, ip);
    if whole.BadNumber? then Err(whole.code, whole.off, out)
    else
      var digits := t[ip..whole.end];
      var n := DecimalValue(digits);
      var isBig := n > IntegerLimit(minus);
      if isBig && o.intTooBig(digits) then Err(NumberTooBig, p, out)
      else
        var frac := FractionPart(t, whole.end);
        if frac.BadNumber? then Err(frac.code, frac.off, out)
        else
          var exp := ExponentPart(o, t, p, frac.end);
          if exp.BadNumber? then Err(exp.code, exp.off, out)
          else if isBig || exp.end != whole.end then Emit(o, Double(t[p..exp.end]), exp.end, p, out)
          else Emit(o, IntegerEvent(minus, n), exp.end, p, out)
  }
}
