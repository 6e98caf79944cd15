/**
 GenericReader over a string stream (rapidjson/reader.h, rapidjson/stream.h). One class
 serves the read-only stream and the in-situ stream, which decodes strings into the
 very buffer it reads from. Every method is proved against the functions of Scan,
 Recursive and TableDriven on the ORIGINAL text.
 */
module JsonReader {
  import opened Sax
  import opened Scan
  import opened Recursive
  import opened TableDriven

  datatype ParseResult = NoError | ParseError(code: ErrorCode, off: nat)

  /** The reader's own stack holds the frames of the table and, on top, the characters of a string. */
  datatype Cell = FrameCell(frame: Frame) | CharCell(c: Byte)

  function FrameCells(frames: Stack): (cells: seq<Cell>)
    ensures |cells| == |frames| && forall i :: 0 <= i < |frames| ==> cells[i] == FrameCell(frames[i])
  {
    seq(|frames|, i requires 0 <= i < |frames| => FrameCell(frames[i]))
  }

  function CharCells(t: Text): (cells: seq<Cell>)
    ensures |cells| == |t| && forall i :: 0 <= i < |t| ==> cells[i] == CharCell(t[i])
  {
    seq(|t|, i requires 0 <= i < |t| => CharCell(t[i]))
  }

  /** The characters that the topmost cells hold. */
  function TopChars(cells: seq<Cell>): (t: Text)
    requires forall i :: 0 <= i < |cells| ==> cells[i].CharCell?
  {
    seq(|cells|, i requires 0 <= i < |cells| => cells[i].c)
  }

  lemma CharsBack(t: Text)
    ensures TopChars(CharCells(t)) == t
  {
  }

  /** A string handed to the handler without copying: a place in the buffer. */
  datatype Slice = Slice(begin: nat, length: nat)

  class Reader {
    const o: Options
    const insitu: bool
    const buf: array<Byte>
    ghost const text: Text

    var src: nat
    var dst: nat
    var length: nat           // how many characters are on the stack (copying mode)
    var out: seq<Event>
    var handed: seq<Slice>    // the pointers given out, in order (in-situ mode)
    var result: ParseResult
    var stack: seq<Cell>

    constructor (o: Options, insitu: bool, buf: array<Byte>)
      ensures this.o == o && this.insitu == insitu && this.buf == buf && text == buf[..]
      ensures Valid() && src == 0 && out == [] && handed == [] && result == NoError && stack == []
    {
      this.o, this.insitu, this.buf, this.text := o, insitu, buf, buf[..];
      src, dst, length, out, handed, result, stack := 0, 0, 0, [], [], NoError, [];
    }

    /** A pointer given out still shows the string `s`, with its terminator. */
    ghost predicate Shows(h: Slice, s: Text)
      reads `src, buf
    {
      && h.begin + h.length < src <= buf.Length
      && buf[h.begin..h.begin + h.length] == s
      && buf[h.begin + h.length] == 0
    }

    /** The pointers given out show the strings of all String and Key events, in order. */
    ghost predicate AllShown(texts: seq<Text>)
      reads `src, `handed, buf
    {
      |handed| == |texts| && forall k :: 0 <= k < |handed| ==> Shows(handed[k], texts[k])
    }

    /** The unread text is as it was; in situ, every string delivered so far is still in place. */
    ghost predicate Valid()
      reads `src, `out, `handed, buf
      ensures Valid() ==> |text| == buf.Length && src <= |text|
    {
      && |text| == buf.Length && src <= buf.Length
      && (forall i :: src <= i < buf.Length ==> buf[i] == text[i])
      && if insitu then AllShown(Texts(out)) else buf[..] == text && handed == []
    }

    /** The state of the reader is the one that the outcome `r` describes. */
    ghost predicate Agrees(r: Outcome)
      reads this
    {
      match r
      case Ok(pos, out') => result == NoError && src == pos && out == out'
      case Err(code, off, out') => result == ParseError(code, off) && out == out'
    }

    // -------------------------------------------------------------- the stream

    function PeekChar(): (c: Byte)
      reads this, buf
      requires Valid()
      ensures c == Peek(text, src)
    {
      if src < buf.Length then buf[src] else 0
    }

    method Take() returns (c: Byte)
      requires Valid() && src < |text|
      modifies this`src
      ensures Valid() && src == old(src) + 1 && c == text[old(src)]
    {
      c := buf[src];
      src := src + 1;
    }

    method Consume(wanted: Byte) returns (b: bool)
      requires Valid() && wanted != 0
      modifies this`src
      ensures Valid() && b == (Peek(text, old(src)) == wanted)
      ensures src == if b then old(src) + 1 else old(src)
    {
      b := PeekChar() == wanted;
      if b {
        src := src + 1;
      }
    }

    // -------------------------------------------------------------- white space and comments

    method SkipWhitespace()
      requires Valid()
      modifies this`src
      ensures Valid() && src == SkipWhite(text, old(src))
    {
      while IsWhite(PeekChar())
        invariant Valid() && SkipWhite(text, src) == SkipWhite(text, old(src))
        decreases |text| - src
      {
        src := src + 1;
      }
    }

    method SkipBlockComment()
      requires Valid() && result == NoError
      modifies this`src, this`result
      ensures Valid()
      ensures match BlockComment(text, old(src))
              case At(q) => result == NoError && src == q
              case Bad(off) => result == ParseError(UnspecificSyntaxError, off)
    {
      while true
        invariant Valid() && result == NoError
        invariant BlockComment(text, src) == BlockComment(text, old(src))
        decreases |text| - src
      {
        if PeekChar() == 0 {
          result := ParseError(UnspecificSyntaxError, src);
          return;
        }
        var star := Consume('*' as int);
        if star {
          var slash := Consume('/' as int);
          if slash {
            return;
          }
        } else {
          src := src + 1;
        }
      }
    }

    method SkipLineComment()
      requires Valid()
      modifies this`src
      ensures Valid() && src == LineComment(text, old(src))
    {
      while PeekChar() != 0
        invariant Valid() && LineComment(text, src) == LineComment(text, old(src))
        decreases |text| - src
      {
        var c := Take();
        if c == '\n' as int {
          return;
        }
      }
    }

    /** One comment, its first slash being already consumed, and the white space behind it. */
    method SkipComment()
      requires Valid() && result == NoError && 0 < src && Peek(text, src - 1) == '/' as int
      modifies this`src, this`result
      ensures Valid()
      ensures result == NoError ==> old(src) <= src
      ensures result == NoError ==> Comments(text, old(src) - 1) == Comments(text, src)
      ensures result != NoError ==> Comments(text, old(src) - 1).Bad?
      ensures result != NoError ==> result == ParseError(UnspecificSyntaxError, Comments(text, old(src) - 1).off)
    {
      hide Valid;
      var star := Consume('*' as int);
      if star {
        SkipBlockComment();
        if result != NoError {
          return;
        }
      } else {
        var slash := Consume('/' as int);
        if slash {
          SkipLineComment();
        } else {
          result := ParseError(UnspecificSyntaxError, src);
          return;
        }
      }
      SkipWhitespace();
    }

    method SkipWhitespaceAndComments()
      requires Valid() && result == NoError
      modifies this`src, this`result
      ensures Valid() && Agrees(Space(o, text, old(src), out))
    {
      hide Valid;
      SkipWhitespace();
      if !o.comments {
        return;
      }
      ghost var first := src;
      while true
        invariant Valid() && result == NoError && Comments(text, first) == Comments(text, src)
        decreases |text| - src
      {
        var more := Consume('/' as int);
        if !more {
          return;
        }
        SkipComment();
        if result != NoError {
          return;
        }
      }
    }

    // -------------------------------------------------------------- events

    /** Call the handler. */
    method Deliver(e: Event, off: nat)
      requires Valid() && result == NoError && (insitu ==> !IsText(e))
      modifies this`out, this`result
      ensures Valid() && Agrees(Emit(o, e, src, off, old(out)))
    {
      TextsSnoc(out, e);
      out := out + [e];
      if !o.accepts(out) {
        result := ParseError(Termination, off);
      }
    }

    // -------------------------------------------------------------- strings

    /** While a string that began at `head` is decoded: `acc` has been written, behind the read cursor. */
    ghost predicate Writing(head: nat, base: seq<Cell>, acc: Text)
      reads `src, `dst, `length, `stack, `handed, buf
    {
      && head <= src <= buf.Length
      && (forall k :: 0 <= k < |handed| ==> handed[k].begin + handed[k].length < head)
      && if insitu then head <= dst <= src && buf[head..dst] == acc && stack == base
         else stack == base + CharCells(acc) && length == |acc|
    }

    /** The output side of both streams. */
    method Put(c: Byte, ghost head: nat, ghost base: seq<Cell>, ghost acc: Text)
      requires Valid() && Writing(head, base, acc) && (insitu ==> dst < src)
      modifies this`dst, this`length, this`stack, buf
      ensures Valid() && Writing(head, base, acc + [c])
      ensures insitu ==> dst == old(dst) + 1
    {
      if insitu {
        buf[dst] := c;
        dst := dst + 1;
      } else {
        stack := stack + [CharCell(c)];
        length := length + 1;
        assert base + CharCells(acc) + [CharCell(c)] == base + CharCells(acc + [c]);
      }
    }

    method Encode(cp: nat, ghost head: nat, ghost base: seq<Cell>, ghost acc: Text)
      requires cp <= 0x10FFFF
      requires Valid() && Writing(head, base, acc) && (insitu ==> dst + |Utf8(cp)| <= src)
      modifies this`dst, this`length, this`stack, buf
      ensures Valid() && Writing(head, base, acc + Utf8(cp))
    {
      hide Valid, Writing, AllShown;
      ghost var bytes := Utf8(cp);
      if cp <= 0x7F {
        Put(cp, head, base, acc);
        assert acc + [cp] == acc + bytes;
      } else if cp <= 0x7FF {
        Put(0xC0 + cp / 64, head, base, acc);
        assert acc + [bytes[0]] == acc + bytes[..1];
        Put(0x80 + cp % 64, head, base, acc + bytes[..1]);
        assert acc + bytes[..1] + [bytes[1]] == acc + bytes;
      } else if cp <= 0xFFFF {
        Put(0xE0 + cp / 4096, head, base, acc);
        assert acc + [bytes[0]] == acc + bytes[..1];
        Put(0x80 + cp / 64 % 64, head, base, acc + bytes[..1]);
        assert acc + bytes[..1] + [bytes[1]] == acc + bytes[..2];
        Put(0x80 + cp % 64, head, base, acc + bytes[..2]);
        assert acc + bytes[..2] + [bytes[2]] == acc + bytes;
      } else {
        Put(0xF0 + cp / 262144, head, base, acc);
        assert acc + [bytes[0]] == acc + bytes[..1];
        Put(0x80 + cp / 4096 % 64, head, base, acc + bytes[..1]);
        assert acc + bytes[..1] + [bytes[1]] == acc + bytes[..2];
        Put(0x80 + cp / 64 % 64, head, base, acc + bytes[..2]);
        assert acc + bytes[..2] + [bytes[2]] == acc + bytes[..3];
        Put(0x80 + cp % 64, head, base, acc + bytes[..3]);
        assert acc + bytes[..3] + [bytes[3]] == acc + bytes;
      }
    }

    method ParseHex4(escapeOffset: nat) returns (codepoint: nat)
      requires Valid() && result == NoError
      modifies this`src, this`result
      ensures Valid() && old(src) <= src
      ensures match Hex4(text, old(src))
              case Digits(v) => result == NoError && src == old(src) + 4 && codepoint == v
              case NotHex => result == ParseError(StringUnicodeEscapeInvalidHex, escapeOffset)
    {
      hide Valid, HexDigit;
      codepoint := 0;
      for i := 0 to 4
        invariant Valid() && result == NoError && src == old(src) + i
        invariant HexRun(text, src, 4 - i, codepoint) == HexRun(text, old(src), 4, 0)
      {
        var d := HexDigit(PeekChar());
        if d.NotHex? {
          result := ParseError(StringUnicodeEscapeInvalidHex, escapeOffset);
          return;
        }
        codepoint := 16 * codepoint + d.v;
        var _ := Take();
      }
    }

    /** The code point of a unicode escape, with the cursor behind its letter u. */
    method ParseCodepoint(escapeOffset: nat) returns (codepoint: nat)
      requires Valid() && result == NoError
      modifies this`src, this`result
      ensures Valid() && old(src) <= src
      ensures match CodepointAt(text, old(src))
              case Codepoint(v, end) => result == NoError && src == end && codepoint == v
              case BadCodepoint(code) => result == ParseError(code, escapeOffset)
    {
      hide Valid, Hex4;
      codepoint := ParseHex4(escapeOffset);
      if result != NoError || !IsLead(codepoint) {
        return;
      }
      var u := Consume('\\' as int);
      if u {
        u := Consume('u' as int);
      }
      if !u {
        result := ParseError(StringUnicodeSurrogateInvalid, escapeOffset);
        return;
      }
      var codepoint2 := ParseHex4(escapeOffset);
      if result != NoError {
        return;
      }
      if !IsTrail(codepoint2) {
        result := ParseError(StringUnicodeSurrogateInvalid, escapeOffset);
        return;
      }
      codepoint := Pair(codepoint, codepoint2);
    }

    /** One escape sequence, with the cursor on its backslash. */
    method ParseEscape(ghost head: nat, ghost base: seq<Cell>, ghost acc: Text)
      requires Valid() && Writing(head, base, acc) && result == NoError
      requires Peek(text, src) == '\\' as int
      modifies this`src, this`dst, this`length, this`stack, this`result, buf
      ensures Valid()
      ensures match EscapeAt(text, old(src))
              case Chars(s, end) => result == NoError && src == end && Writing(head, base, acc + s)
              case BadString(code, off) => result == ParseError(code, off)
    {
      hide AllShown, CodepointAt;
      var escapeOffset := src;
      var _ := Take();
      var e := PeekChar();
      if Unescape(e) != 0 {
        var _ := Take();
        Put(Unescape(e), head, base, acc);
      } else if e == 'u' as int {
        var _ := Take();
        var codepoint := ParseCodepoint(escapeOffset);
        if result == NoError {
          Encode(codepoint, head, base, acc);
        }
      } else {
        result := ParseError(StringEscapeInvalid, escapeOffset);
      }
    }

    /** The body of a string up to the closing quote, with a terminator written behind it. */
    method ParseStringToStream(ghost head: nat, ghost base: seq<Cell>)
      requires Valid() && Writing(head, base, []) && result == NoError
      modifies this`src, this`dst, this`length, this`stack, this`result, buf
      ensures Valid()
      ensures match StringBody(text, old(src), [])
              case Chars(s, end) => result == NoError && src == end && Writing(head, base, s + [0])
              case BadString(code, off) => result == ParseError(code, off)
    {
      hide AllShown, EscapeAt;
      ghost var acc := [];
      while true
        invariant Valid() && Writing(head, base, acc) && result == NoError
        invariant StringBody(text, src, acc) == StringBody(text, old(src), [])
        decreases |text| - src
      {
        var c := PeekChar();
        if c == '\\' as int {
          ghost var e := EscapeAt(text, src);
          ParseEscape(head, base, acc);
          if result != NoError {
            return;
          }
          acc := acc + e.s;
        } else if c == '"' as int {
          var _ := Take();
          Put(0, head, base, acc);
          return;
        } else if c < 0x20 {
          result := ParseError(if c == 0 then StringMissQuotationMark else StringInvalidEncoding, src);
          return;
        } else {
          var _ := Take();
          Put(c, head, base, acc);
          acc := acc + [c];
        }
      }
    }

    method ReadString(isKey: bool)
      requires Valid() && result == NoError && Peek(text, src) == '"' as int
      modifies this`src, this`dst, this`length, this`stack, this`out, this`handed, this`result, buf
      ensures Valid() && Agrees(Str(o, text, old(src), isKey, old(out)))
      ensures old(handed) <= handed && (result == NoError ==> stack == old(stack))
    {
      src := src + 1;
      var head := src;
      ghost var base := stack;
      dst, length := src, 0;
      assert base + CharCells([]) == base;
      ParseStringToStream(head, base);
      if result != NoError {
        return;
      }
      ghost var decoded := StringBody(text, head, []).s;
      if insitu {
        var length := dst - head - 1;
        var s := buf[head..head + length];
        assert buf[head..dst][..length] == decoded && buf[head..dst][length] == 0;
        assert s == buf[head..dst][..length];
        DeliverSlice(s, isKey, Slice(head, length));
      } else {
        var n := |stack| - length;
        var chars := stack[n..];
        assert chars == CharCells(decoded + [0]);
        CharsBack(decoded + [0]);
        var s := TopChars(chars)[..length - 1];
        stack := stack[..n];
        assert s == decoded && stack == base;
        Deliver(if isKey then Key(s) else String(s), src);
      }
    }

    /** Hand out a string that stays in the buffer. */
    method DeliverSlice(s: Text, isKey: bool, slice: Slice)
      requires Valid() && result == NoError && insitu
      requires slice.begin + slice.length < src
      requires buf[slice.begin..slice.begin + slice.length] == s && buf[slice.begin + slice.length] == 0
      modifies this`out, this`handed, this`result
      ensures Valid() && handed == old(handed) + [slice]
      ensures Agrees(Emit(o, if isKey then Key(s) else String(s), src, src, old(out)))
    {
      hide Texts;
      TextsSnoc(out, if isKey then Key(s) else String(s));
      handed := handed + [slice];
      out := out + [if isKey then Key(s) else String(s)];
      if !o.accepts(out) {
        result := ParseError(Termination, src);
      }
    }

    // -------------------------------------------------------------- numbers

    /** The digits from `ip` to the cursor are read and denote `n`. */
    ghost predicate ReadSoFar(ip: nat, n: nat)
      reads `src, buf
      requires |text| == buf.Length
    {
      && ip < src <= |text|
      && (forall i :: ip <= i < src ==> IsDigit(text[i]))
      && DecimalValue(text[ip..src]) == n
    }

    /** Digits are added to `i` as long as it fits 32 bits; then `use64bit` is set. */
    method Accumulate32(minus: bool, i0: uint32, ghost ip: nat) returns (i: uint32, use64bit: bool)
      requires Valid() && ReadSoFar(ip, i0) && i0 < 10
      modifies this`src
      ensures Valid() && ReadSoFar(ip, i) && old(src) <= src
      ensures DigitsEnd(text, src) == DigitsEnd(text, old(src))
      ensures i <= if minus then MAX_INT_MAGNITUDE else MAX_UINT
      ensures !use64bit ==> !IsDigit(Peek(text, src))
      ensures use64bit ==> IsDigit(Peek(text, src))
      ensures use64bit ==> i * 10 + (text[src] - '0' as int) > if minus then MAX_INT_MAGNITUDE else MAX_UINT
    {
      hide Valid;
      i, use64bit := i0, false;
      while IsDigit(PeekChar())
        invariant Valid() && ReadSoFar(ip, i) && old(src) <= src
        invariant DigitsEnd(text, src) == DigitsEnd(text, old(src))
        invariant i <= if minus then MAX_INT_MAGNITUDE else MAX_UINT
        decreases |text| - src
      {
        var c := PeekChar();
        if minus && i >= 214748364 && (i != 214748364 || c > '8' as int) {
          use64bit := true;
          return;
        }
        if !minus && i >= 429496729 && (i != 429496729 || c > '5' as int) {
          use64bit := true;
          return;
        }
        DecimalSnoc(text, ip, src);
        i := i * 10 + (c - '0' as int);
        var _ := Take();
      }
    }

    /** The same in 64 bits; then `useDouble` is set. */
    method Accumulate64(minus: bool, i0: uint64, ghost ip: nat) returns (i64: uint64, useDouble: bool)
      requires Valid() && ReadSoFar(ip, i0) && i0 <= MAX_UINT
      modifies this`src
      ensures Valid() && ReadSoFar(ip, i64) && old(src) <= src
      ensures DigitsEnd(text, src) == DigitsEnd(text, old(src))
      ensures i64 <= IntegerLimit(minus)
      ensures !useDouble ==> !IsDigit(Peek(text, src))
      ensures useDouble ==> IsDigit(Peek(text, src))
      ensures useDouble ==> i64 * 10 + (text[src] - '0' as int) > IntegerLimit(minus)
      ensures old(src) < |text| && IsDigit(text[old(src)]) && i0 * 10 <= MAX_UINT64 / 2 ==>
                old(src) < src && i0 * 10 + (text[old(src)] - '0' as int) <= i64
    {
      hide Valid;
      i64, useDouble := i0, false;
      while IsDigit(PeekChar())
        invariant Valid() && ReadSoFar(ip, i64) && old(src) <= src
        invariant DigitsEnd(text, src) == DigitsEnd(text, old(src))
        invariant i64 <= IntegerLimit(minus)
        invariant src == old(src) ==> i64 == i0
        invariant src > old(src) ==> i0 * 10 + (text[old(src)] - '0' as int) <= i64
        decreases |text| - src
      {
        var c := PeekChar();
        if minus && i64 >= 0x0CCC_CCCC_CCCC_CCCC && (i64 != 0x0CCC_CCCC_CCCC_CCCC || c > '8' as int) {
          useDouble := true;
          return;
        }
        if !minus && i64 >= 0x1999_9999_9999_9999 && (i64 != 0x1999_9999_9999_9999 || c > '5' as int) {
          useDouble := true;
          return;
        }
        DecimalSnoc(text, ip, src);
        i64 := i64 * 10 + (c - '0' as int);
        var _ := Take();
      }
    }

    method SkipDigits()
      requires Valid()
      modifies this`src
      ensures Valid() && src == DigitsEnd(text, old(src))
    {
      while IsDigit(PeekChar())
        invariant Valid() && DigitsEnd(text, src) == DigitsEnd(text, old(src))
        decreases |text| - src
      {
        var _ := Take();
      }
    }

    /** The integer part `n`: its exact value, unless it is beyond 64 bits. */
    predicate Classified(minus: bool, n: int, i64: uint64, use64bit: bool, useDouble: bool) {
      && useDouble == (n > IntegerLimit(minus))
      && (!useDouble ==> i64 == n)
      && (!useDouble ==> use64bit == (n > if minus then MAX_INT_MAGNITUDE else MAX_UINT))
    }

    /** A digit run that does not start with a zero. */
    method ReadDigits(minus: bool) returns (i64: uint64, use64bit: bool, useDouble: bool)
      requires Valid() && IsDigit(Peek(text, src))
      modifies this`src
      ensures Valid() && src == DigitsEnd(text, old(src) + 1)
      ensures forall i :: old(src) <= i < src ==> IsDigit(text[i])
      ensures Classified(minus, DecimalValue(text[old(src)..src]), i64, use64bit, useDouble)
    {
      hide Valid, DigitsEnd, DecimalValue;
      useDouble := false;
      var ip := src;
      var c := Take();
      DecimalSingle(text, ip);
      var i;
      i, use64bit := Accumulate32(minus, c - '0' as int, ip);
      i64 := i;
      ghost var mid := src;
      if use64bit {
        i64, useDouble := Accumulate64(minus, i, ip);
        if useDouble {
          ghost var here := src;
          DecimalSnoc(text, ip, here);
          SkipDigits();
          assert forall i :: here <= i < src ==> Peek(text, i) == text[i];
          DecimalMonotone(text, ip, here + 1, src);
        }
      }
      assert !IsDigit(Peek(text, src));
      DigitsEndHere(text, src);
    }

    method ReadIntegerPart(minus: bool) returns (i64: uint64, use64bit: bool, useDouble: bool)
      requires Valid() && result == NoError
      modifies this`src, this`result
      ensures Valid()
      ensures match IntegerPart(text, old(src))
              case BadNumber(code, off) => result == ParseError(code, off)
              case End(end) =>
                && result == NoError && src == end
                && Classified(minus, DecimalValue(text[old(src)..end]), i64, use64bit, useDouble)
    {
      hide Valid, DigitsEnd;
      i64, use64bit, useDouble := 0, false, false;
      ghost var ip := src;
      var c := PeekChar();
      if c == '0' as int {
        var _ := Take();
        DecimalSingle(text, ip);
      } else if IsDigit(c) {
        i64, use64bit, useDouble := ReadDigits(minus);
      } else {
        result := ParseError(ValueInvalid, src);
      }
    }

    method ReadFraction()
      requires Valid() && result == NoError
      modifies this`src, this`result
      ensures Valid()
      ensures match FractionPart(text, old(src))
              case BadNumber(code, off) => result == ParseError(code, off)
              case End(end) => result == NoError && src == end
    {
      var point := Consume('.' as int);
      if point {
        if !IsDigit(PeekChar()) {
          result := ParseError(NumberMissFraction, src);
          return;
        }
        SkipDigits();
      }
    }

    /** An optional sign. */
    method ReadSign() returns (minus: bool)
      requires Valid()
      modifies this`src
      ensures Valid() && minus == (Peek(text, old(src)) == '-' as int)
      ensures src == if minus || Peek(text, old(src)) == '+' as int then old(src) + 1 else old(src)
    {
      minus := false;
      var plus := Consume('+' as int);
      if !plus {
        minus := Consume('-' as int);
      }
    }

    method ReadExponent(start: nat)
      requires Valid() && result == NoError && start <= src && Unchanged(start)
      modifies this`src, this`result
      ensures Valid()
      ensures match ExponentPart(o, text, start, old(src))
              case BadNumber(code, off) => result == ParseError(code, off)
              case End(end) => result == NoError && src == end
    {
      hide Valid, DigitsEnd;
      var e := Consume('e' as int);
      if !e {
        e := Consume('E' as int);
      }
      if e {
        ReadExponentDigits(start);
      }
    }

    /** The sign and the digits of an exponent. */
    method ReadExponentDigits(start: nat)
      requires Valid() && result == NoError && start <= src && Unchanged(start)
      modifies this`src, this`result
      ensures Valid()
      ensures var sign := Peek(text, old(src));
              var q := if sign == '+' as int || sign == '-' as int then old(src) + 1 else old(src);
              var end := DigitsEnd(text, q);
              if !IsDigit(Peek(text, q)) then result == ParseError(NumberMissExponent, q)
              else if sign != '-' as int && o.expTooBig(text[start..end]) then result == ParseError(NumberTooBig, start)
              else result == NoError && src == end
    {
      hide Valid, DigitsEnd;
      var expMinus := ReadSign();
      if !IsDigit(PeekChar()) {
        result := ParseError(NumberMissExponent, src);
        return;
      }
      SkipDigits();
      if !expMinus {
        var lexeme := Lexeme(start);
        if o.expTooBig(lexeme) {
          result := ParseError(NumberTooBig, start);
        }
      }
    }

    /** The characters from `start` to the cursor; numbers are never rewritten. */
    function Lexeme(start: nat): (s: Text)
      reads `src, `out, `handed, buf
      requires Valid() && start <= src && Unchanged(start)
      ensures s == text[start..src]
    {
      buf[start..src]
    }

    /** Nothing from `start` on has been rewritten. */
    ghost predicate Unchanged(start: nat)
      reads buf
    {
      buf.Length == |text| && forall i :: start <= i < buf.Length ==> buf[i] == text[i]
    }

    lemma UnchangedHere()
      requires Valid()
      ensures Unchanged(src)
    {
    }

    method ReadNumber()
      requires Valid() && result == NoError
      modifies this`src, this`out, this`result
      ensures Valid() && Agrees(ParseNumber(o, text, old(src), old(out)))
    {
      hide Valid, Unchanged, IntegerPart, FractionPart, ExponentPart, Emit, DecimalValue, DigitsEnd;
      UnchangedHere();
      var start := src;
      var minus := Consume('-' as int);
      UnchangedHere();
      var ip := src;
      var i64, use64bit, useDouble := ReadIntegerPart(minus);
      if result != NoError {
        return;
      }
      var end := src;
      if useDouble && o.intTooBig(Lexeme(ip)) {
        result := ParseError(NumberTooBig, start);
        return;
      }
      ReadFraction();
      if result != NoError {
        return;
      }
      ReadExponent(start);
      if result != NoError {
        return;
      }
      DeliverNumber(start, minus, i64, use64bit, useDouble || src != end);
    }

    /** The event for the number that ends at the cursor. */
    method DeliverNumber(start: nat, minus: bool, i64: uint64, use64bit: bool, useDouble: bool)
      requires Valid() && result == NoError && start <= src && Unchanged(start)
      modifies this`out, this`result
      ensures Valid()
      ensures Agrees(Emit(o, NumberEvent(text[start..src], minus, i64, use64bit, useDouble), src, start, old(out)))
    {
      hide Valid, Emit;
      if useDouble {
        Deliver(Double(Lexeme(start)), start);
      } else if use64bit {
        Deliver(if minus then Int64(Signed(true, i64)) else Uint64(i64), start);
      } else {
        Deliver(if minus then Int(Signed(true, i64)) else Uint(i64), start);
      }
    }

    // -------------------------------------------------------------- literals

    method ConsumeThree(a: Byte, b: Byte, c: Byte) returns (ok: bool)
      requires Valid() && a != 0 && b != 0 && c != 0
      modifies this`src
      ensures Valid() && src == old(src) + Matched(text, old(src), [a, b, c])
      ensures ok == (src == old(src) + 3)
    {
      hide Valid, Matched;
      MatchedThree(text, src, a, b, c);
      ok := Consume(a);
      if ok { ok := Consume(b); }
      if ok { ok := Consume(c); }
    }

    method ReadNull()
      requires Valid() && result == NoError && src < |text|
      modifies this`src, this`out, this`result
      ensures Valid() && Agrees(Literal(o, text, old(src), NULL_TAIL, Null, old(out)))
    {
      hide Valid, Matched;
      var _ := Take();
      var b := ConsumeThree('u' as int, 'l' as int, 'l' as int);
      if b {
        Deliver(Null, src);
      } else {
        result := ParseError(ValueInvalid, src);
      }
    }

    method ReadTrue()
      requires Valid() && result == NoError && src < |text|
      modifies this`src, this`out, this`result
      ensures Valid() && Agrees(Literal(o, text, old(src), TRUE_TAIL, Bool(true), old(out)))
    {
      hide Valid, Matched;
      var _ := Take();
      var b := ConsumeThree('r' as int, 'u' as int, 'e' as int);
      if b {
        Deliver(Bool(true), src);
      } else {
        result := ParseError(ValueInvalid, src);
      }
    }

    method ReadFalse()
      requires Valid() && result == NoError && src < |text|
      modifies this`src, this`out, this`result
      ensures Valid() && Agrees(Literal(o, text, old(src), FALSE_TAIL, Bool(false), old(out)))
    {
      hide Valid, Matched;
      var _ := Take();
      MatchedCons(text, src, 'a' as int, ['l' as int, 's' as int, 'e' as int]);
      assert FALSE_TAIL == ['a' as int] + ['l' as int, 's' as int, 'e' as int];
      var b := Consume('a' as int);
      if b { b := ConsumeThree('l' as int, 's' as int, 'e' as int); }
      if b {
        Deliver(Bool(false), src);
      } else {
        result := ParseError(ValueInvalid, src);
      }
    }

    // -------------------------------------------------------------- the recursive parser

    method ReadValue()
      requires Valid() && result == NoError
      modifies this`src, this`dst, this`length, this`stack, this`out, this`handed, this`result, buf
      ensures Valid() && Agrees(Value(o, text, old(src), old(out)))
      ensures old(handed) <= handed && (result == NoError ==> stack == old(stack))
      decreases |text| - src, 1
    {
      hide Valid, Literal, Str, ParseNumber, Object, Array;
      var c := PeekChar();
      if c == 'n' as int { ReadNull(); }
      else if c == 't' as int { ReadTrue(); }
      else if c == 'f' as int { ReadFalse(); }
      else if c == '"' as int { ReadString(false); }
      else if c == '{' as int { ReadObject(); }
      else if c == '[' as int { ReadArray(); }
      else { ReadNumber(); }
    }

    method ReadObject()
      requires Valid() && result == NoError && Peek(text, src) == '{' as int
      modifies this`src, this`dst, this`length, this`stack, this`out, this`handed, this`result, buf
      ensures Valid() && Agrees(Object(o, text, old(src), old(out)))
      ensures old(handed) <= handed && (result == NoError ==> stack == old(stack))
      decreases |text| - src, 0
    {
      hide Valid, Members, MemberTail, Space;
      var _ := Take();
      Deliver(StartObject, src);
      if result != NoError {
        return;
      }
      SkipWhitespaceAndComments();
      if result != NoError {
        return;
      }
      var close := Consume('}' as int);
      if close {
        Deliver(EndObject(0), src);
        return;
      }
      ghost var goal := Members(o, text, src, 0, out);
      var memberCount := 0;
      while true
        invariant Valid() && result == NoError && old(src) < src && old(handed) <= handed && stack == old(stack)
        invariant Members(o, text, src, memberCount, out) == goal
        decreases |text| - src
      {
        ReadMember(memberCount);
        if result != NoError {
          return;
        }
        memberCount := memberCount + 1;
        var done := ReadMemberTail(memberCount);
        if done {
          return;
        }
      }
    }

    /** One member: its name, its value, and the white space behind them. */
    method ReadMember(ghost n: nat)
      requires Valid() && result == NoError
      modifies this`src, this`dst, this`length, this`stack, this`out, this`handed, this`result, buf
      ensures Valid() && old(handed) <= handed
      ensures result == NoError ==> old(src) < src && stack == old(stack)
      ensures result == NoError ==> Members(o, text, old(src), n, old(out)) == MemberTail(o, text, src, n, out)
      ensures result != NoError ==> Agrees(Members(o, text, old(src), n, old(out)))
      decreases |text| - src, 1
    {
      hide Valid, MemberRest, MemberTail, Str, Space;
      if PeekChar() != '"' as int {
        result := ParseError(ObjectMissName, src);
        return;
      }
      ReadString(true);
      if result != NoError {
        return;
      }
      SkipWhitespaceAndComments();
      if result != NoError {
        return;
      }
      ReadMemberValue(n);
    }

    /** The colon, the value and the white space behind it. */
    method ReadMemberValue(ghost n: nat)
      requires Valid() && result == NoError
      modifies this`src, this`dst, this`length, this`stack, this`out, this`handed, this`result, buf
      ensures Valid() && old(handed) <= handed
      ensures result == NoError ==> old(src) < src && stack == old(stack)
      ensures result == NoError ==> MemberRest(o, text, old(src), n, old(out)) == MemberTail(o, text, src, n, out)
      ensures result != NoError ==> Agrees(MemberRest(o, text, old(src), n, old(out)))
      decreases |text| - src, 0
    {
      hide Valid, Value, Space, MemberTail;
      var colon := Consume(':' as int);
      if !colon {
        result := ParseError(ObjectMissColon, src);
        return;
      }
      SkipWhitespaceAndComments();
      if result != NoError {
        return;
      }
      ReadValue();
      if result != NoError {
        return;
      }
      SkipWhitespaceAndComments();
    }

    /** After member number `n`: the end of the object or an error, unless a comma leads on. */
    method ReadMemberTail(n: nat) returns (done: bool)
      requires Valid() && result == NoError && 0 < n
      modifies this`src, this`out, this`result
      ensures Valid()
      ensures done ==> Agrees(MemberTail(o, text, old(src), n - 1, old(out)))
      ensures !done ==> result == NoError && old(src) < src
      ensures !done ==> MemberTail(o, text, old(src), n - 1, old(out)) == Members(o, text, src, n, out)
    {
      hide Valid, Members, Space;
      done := true;
      var c := PeekChar();
      if c == ',' as int {
        var _ := Take();
        SkipWhitespaceAndComments();
        if result != NoError {
          return;
        }
      } else if c == '}' as int {
        var _ := Take();
        Deliver(EndObject(n), src);
        return;
      } else {
        result := ParseError(ObjectMissCommaOrCurlyBracket, src);
        return;
      }
      if o.trailingCommas && PeekChar() == '}' as int {
        Deliver(EndObject(n), src);
        if result == NoError {
          var _ := Take();
        }
        return;
      }
      done := false;
    }

    method ReadArray()
      requires Valid() && result == NoError && Peek(text, src) == '[' as int
      modifies this`src, this`dst, this`length, this`stack, this`out, this`handed, this`result, buf
      ensures Valid() && Agrees(Array(o, text, old(src), old(out)))
      ensures old(handed) <= handed && (result == NoError ==> stack == old(stack))
      decreases |text| - src, 0
    {
      hide Valid, Value, Str, Space, ElementTail;
      var _ := Take();
      Deliver(StartArray, src);
      if result != NoError {
        return;
      }
      SkipWhitespaceAndComments();
      if result != NoError {
        return;
      }
      var close := Consume(']' as int);
      if close {
        Deliver(EndArray(0), src);
        return;
      }
      ghost var goal := Elements(o, text, src, 0, out);
      var elementCount := 0;
      while true
        invariant Valid() && result == NoError && old(src) < src && old(handed) <= handed && stack == old(stack)
        invariant Elements(o, text, src, elementCount, out) == goal
        decreases |text| - src
      {
        ReadValue();
        if result != NoError {
          return;
        }
        elementCount := elementCount + 1;
        SkipWhitespaceAndComments();
        if result != NoError {
          return;
        }
        var done := ReadElementTail(elementCount);
        if done {
          return;
        }
      }
    }

    /** After element number `n`: the end of the array or an error, unless a comma leads on. */
    method ReadElementTail(n: nat) returns (done: bool)
      requires Valid() && result == NoError && 0 < n
      modifies this`src, this`out, this`result
      ensures Valid()
      ensures done ==> Agrees(ElementTail(o, text, old(src), n - 1, old(out)))
      ensures !done ==> result == NoError && old(src) < src
      ensures !done ==> ElementTail(o, text, old(src), n - 1, old(out)) == Elements(o, text, src, n, out)
    {
      hide Valid, Elements, Space;
      done := true;
      var comma := Consume(',' as int);
      if comma {
        SkipWhitespaceAndComments();
        if result != NoError {
          return;
        }
      } else {
        var close := Consume(']' as int);
        if close {
          Deliver(EndArray(n), src);
        } else {
          result := ParseError(ArrayMissCommaOrSquareBracket, src);
        }
        return;
      }
      if o.trailingCommas && PeekChar() == ']' as int {
        Deliver(EndArray(n), src);
        if result == NoError {
          var _ := Take();
        }
        return;
      }
      done := false;
    }

    /** Parse without kParseIterativeFlag. */
    method RecursiveParse()
      requires Valid() && src == 0 && out == [] && result == NoError
      modifies this`src, this`dst, this`length, this`stack, this`out, this`handed, this`result, buf
      ensures Valid() && Agrees(Recursive.Document(o, text))
    {
      hide Valid, Value, Space;
      SkipWhitespaceAndComments();
      if result != NoError {
        return;
      }
      if PeekChar() == 0 {
        result := ParseError(DocumentEmpty, src);
        return;
      }
      ReadValue();
      if result != NoError {
        return;
      }
      if !o.stopWhenDone {
        SkipWhitespaceAndComments();
        if result != NoError {
          return;
        }
        if PeekChar() != 0 {
          result := ParseError(DocumentRootNotSingular, src);
        }
      }
    }

    // -------------------------------------------------------------- the table-driven parser

    /** Push the return state and a zero count, and call the handler. */
    method PushFrame(ghost frames: Stack, state: State, dst': State)
      requires Valid() && result == NoError && src < |text| && stack == FrameCells(frames)
      requires Consistent(state, frames) && AwaitsValue(state) && (dst' == ObjectInitial || dst' == ArrayInitial)
      modifies this`src, this`out, this`result, this`stack
      ensures Valid()
      ensures Moved(Open(o, if dst' == ObjectInitial then StartObject else StartArray, state, dst', frames, old(src), old(out)), dst')
    {
      hide Valid;
      stack := stack + [FrameCell(Frame(ReturnState(state), 0))];
      assert stack == FrameCells(frames + [Frame(ReturnState(state), 0)]);
      Deliver(if dst' == ObjectInitial then StartObject else StartArray, src);
      if result == NoError {
        var _ := Take();
      }
    }

    /** The reader has made the move `m`, arriving in `d` unless it failed. */
    ghost predicate Moved(m: Move, d: State)
      reads `src, `out, `result, `stack
    {
      match m
      case Go(state', stack', pos, out') => result == NoError && d == state' && stack == FrameCells(stack') && src == pos && out == out'
      case Halt(code, off, out') => result == ParseError(code, off) && out == out'
    }

    /** Pop the count and the return state, and call the handler. */
    method PopFrame(ghost frames: Stack, state: State, isObject: bool) returns (d: State)
      requires Valid() && result == NoError && src < |text| && stack == FrameCells(frames) && frames != [] && WellStacked(frames)
      modifies this`src, this`out, this`result, this`stack
      ensures Valid()
      ensures var c := frames[|frames| - 1].count;
              var k := if state == (if isObject then MemberValue else Element) then c + 1 else c;
              Moved(Close(o, if isObject then EndObject(k) else EndArray(k), frames, old(src), old(out)), d)
    {
      hide Valid;
      var f := stack[|stack| - 1].frame;
      stack := stack[..|stack| - 1];
      assert stack == FrameCells(frames[..|frames| - 1]);
      var c := f.count;
      if state == (if isObject then MemberValue else Element) {
        c := c + 1;
      }
      d := Restore(f.ret);
      Deliver(if isObject then EndObject(c) else EndArray(c), src);
      if result == NoError {
        var _ := Take();
      }
    }

    /** The transitions that take one delimiter or close a bracket. */
    method StepDelimiter(ghost frames: Stack, state: State, dst': State) returns (d: State)
      requires Valid() && result == NoError && src < |text| && stack == FrameCells(frames) && Consistent(state, frames) && frames != []
      requires dst' == KeyValueDelimiter || dst' == MemberDelimiter || dst' == ElementDelimiter
               || dst' == ObjectFinish || dst' == ArrayFinish
      modifies this`src, this`out, this`result, this`stack
      ensures Valid() && Moved(Delimit(o, state, dst', frames, old(src), old(out)), d)
    {
      hide Valid, Close, WellStacked;
      d := dst';
      if dst' == ObjectFinish || dst' == ArrayFinish {
        if !o.trailingCommas && dst' == ObjectFinish && state == MemberDelimiter {
          result := ParseError(ObjectMissName, src);
        } else if !o.trailingCommas && dst' == ArrayFinish && state == ElementDelimiter {
          result := ParseError(ValueInvalid, src);
        } else {
          d := PopFrame(frames, state, dst' == ObjectFinish);
        }
      } else {
        var _ := Take();
        if dst' != KeyValueDelimiter {
          var top := stack[|stack| - 1].frame;
          stack := stack[..|stack| - 1] + [FrameCell(top.(count := top.count + 1))];
          assert stack == FrameCells(Bump(frames));
        }
      }
    }

    /** Predict and Transit, followed by HandleError if they failed. */
    method Step(ghost frames: Stack, state: State) returns (d: State)
      requires Valid() && result == NoError && Peek(text, src) != 0 && stack == FrameCells(frames) && Consistent(state, frames)
      modifies this`src, this`dst, this`length, this`stack, this`out, this`handed, this`result, buf
      ensures Valid() && old(handed) <= handed
      ensures Moved(Transit(o, text, state, frames, old(src), old(out)), d)
      ensures result != NoError ==> d == Error
    {
      hide Valid, Open, Delimit, Value, Str, WellStacked;
      d := Predict(state, Tokenize(PeekChar()));
      if d == Error {
        result := ParseError(StateError(state), src);
      } else if d == ObjectInitial || d == ArrayInitial {
        PushFrame(frames, state, d);
      } else if d == MemberKey {
        ReadString(true);
      } else if d == MemberValue || d == Element || d == SingleValue {
        ReadValue();
        if d == SingleValue {
          d := Finish;
        }
      } else {
        d := StepDelimiter(frames, state, d);
      }
      if result != NoError {
        d := Error;
      }
    }

    /** Parse with kParseIterativeFlag. */
    method IterativeParse()
      requires Valid() && src == 0 && out == [] && result == NoError && stack == []
      modifies this`src, this`dst, this`length, this`stack, this`out, this`handed, this`result, buf
      ensures Valid() && Agrees(TableDriven.Document(o, text))
    {
      hide Valid, Transit, Space;
      var state := Start;
      ghost var frames: Stack := [];
      SkipWhitespaceAndComments();
      if result != NoError {
        return;
      }
      while PeekChar() != 0
        invariant Valid() && result == NoError && stack == FrameCells(frames) && Consistent(state, frames)
        invariant Run(o, text, state, frames, src, out) == TableDriven.Document(o, text)
        decreases |text| - src
      {
        ghost var move := Transit(o, text, state, frames, src, out);
        var d := Step(frames, state);
        if d == Error {
          return;
        }
        state := d;
        frames := move.stack;
        if o.stopWhenDone && state == Finish {
          return;
        }
        SkipWhitespaceAndComments();
        if result != NoError {
          return;
        }
      }
      if state != Finish {
        result := ParseError(StateError(state), src);
      }
    }
  }

  predicate IsText(e: Event) { e.String? || e.Key? }

  function Characters(e: Event): Text
    requires IsText(e)
  {
    if e.String? then e.s else e.k
  }

  /** The strings of the String and Key events, in order. */
  function Texts(out: seq<Event>): seq<Text> {
    if out == [] then []
    else
      var e := out[|out| - 1];
      Texts(out[..|out| - 1]) + if IsText(e) then [Characters(e)] else []
  }

  lemma TextsSnoc(out: seq<Event>, e: Event)
    ensures Texts(out + [e]) == Texts(out) + if IsText(e) then [Characters(e)] else []
  {
    assert (out + [e])[..|out|] == out;
  }

  lemma MatchedThree(t: Text, p: nat, a: Byte, b: Byte, c: Byte)
    requires a != 0 && b != 0 && c != 0
    ensures Matched(t, p, [a, b, c])
            == if Peek(t, p) != a then 0 else if Peek(t, p + 1) != b then 1 else if Peek(t, p + 2) != c then 2 else 3
  {
    assert [a, b, c][1..] == [b, c] && [b, c][1..] == [c] && [c][1..] == [];
    assert Matched(t, p + 2, [c]) == if Peek(t, p + 2) != c then 0 else 1;
    assert Matched(t, p + 1, [b, c]) == if Peek(t, p + 1) != b then 0 else 1 + Matched(t, p + 2, [c]);
  }

  lemma MatchedCons(t: Text, p: nat, a: Byte, w: Text)
    requires a != 0 && 0 !in w
    ensures Matched(t, p, [a] + w) == if Peek(t, p) != a then 0 else 1 + Matched(t, p + 1, w)
  {
    assert ([a] + w)[1..] == w;
  }

  function NumberEvent(lexeme: Text, minus: bool, n: uint64, use64bit: bool, useDouble: bool): Event {
    if useDouble then Double(lexeme)
    else if use64bit then if minus then Int64(Signed(true, n)) else Uint64(n)
    else if minus then Int(Signed(true, n)) else Uint(n)
  }

  function Signed(minus: bool, n: int): int { if minus then -n else n }

  lemma DigitsEndHere(t: Text, p: nat)
    requires !IsDigit(Peek(t, p))
    ensures DigitsEnd(t, p) == p
  {
  }

  lemma DecimalSingle(t: Text, p: int)
    requires 0 <= p < |t| && IsDigit(t[p])
    ensures t[p..p + 1] == [t[p]] && DecimalValue(t[p..p + 1]) == t[p] - '0' as int
  {
    assert t[p..p + 1][..0] == [];
  }

  /** One more digit. */
  lemma DecimalSnoc(t: Text, lo: int, hi: int)
    requires 0 <= lo <= hi < |t| && forall i :: lo <= i <= hi ==> IsDigit(t[i])
    ensures DecimalValue(t[lo..hi + 1]) == DecimalValue(t[lo..hi]) * 10 + (t[hi] - '0' as int)
  {
    var s := t[lo..hi + 1];
    assert s[..|s| - 1] == t[lo..hi];
  }

  /** More digits never make the value smaller. */
  lemma {:induction false} DecimalMonotone(t: Text, lo: int, mid: int, hi: int)
    requires 0 <= lo <= mid <= hi <= |t| && forall i :: lo <= i < hi ==> IsDigit(t[i])
    ensures DecimalValue(t[lo..mid]) <= DecimalValue(t[lo..hi])
    decreases hi - mid
  {
    if mid < hi {
      DecimalSnoc(t, lo, mid);
      DecimalMonotone(t, lo, mid + 1, hi);
    }
  }
}
