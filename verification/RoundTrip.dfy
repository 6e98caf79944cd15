/**
 Writing a value and reading the text back rebuilds the same tree: same strings byte for
 byte, same member order, same integer bits and flags, for every style and every flag setting.
 */
module RoundTrip {
  import opened Sax
  import opened Scan
  import opened Recursive
  import opened Itoa
  import D = Dom
  import opened JsonWriter
  import opened JsonReader
  import TableDriven
  import opened ParserEquivalence

  lemma StandsHead(t: Text, p: nat, r: Text)
    requires Stands(t, p, r) && r != []
    ensures p < |t| && t[p] == r[0] && Peek(t, p) == r[0]
  {
    assert t[p + 0] == r[0];
  }

  lemma Regroup(a: Text, w: Text, r: Text, e: Text, z: Text)
    ensures (a + w + r + e) + z == a + (w + (r + (e + z)))
  {
  }

  // ---------------------------------------------------------------- white space

  predicate AllWhite(s: Text) { forall i :: 0 <= i < |s| ==> IsWhite(s[i]) }

  predicate StartsToken(c: Byte) { !IsWhite(c) && c != '/' as int }

  lemma {:induction false} SkipBlank(o: Options, t: Text, p: nat, w: Text)
    requires Stands(t, p, w) && AllWhite(w) && StartsToken(Peek(t, p + |w|))
    ensures SkipSpace(o, t, p) == Skip.At(p + |w|)
  {
    SkipWhiteRun(t, p, w);
  }

  lemma {:induction false} SkipWhiteRun(t: Text, p: nat, w: Text)
    requires Stands(t, p, w) && AllWhite(w) && !IsWhite(Peek(t, p + |w|))
    ensures SkipWhite(t, p) == p + |w|
    decreases |w|
  {
    if w != [] {
      assert t[p + 0] == w[0];
      forall i | 0 <= i < |w[1..]|
        ensures t[p + 1 + i] == w[1..][i]
      {
        assert t[p + (1 + i)] == w[1 + i];
      }
      SkipWhiteRun(t, p + 1, w[1..]);
    }
  }

  // ---------------------------------------------------------------- strings

  lemma UpperHexDigit(d: nat)
    requires d < 16
    ensures HexDigit(UpperHex(d)) == Digits(d)
  {
  }

  /** One escaped byte reads as that byte. */
  lemma EscapedReadsBack(t: Text, p: nat, c: Byte)
    requires Stands(t, p, EscapedByte(c)) && EscapeLetter(c) != 0
    ensures Peek(t, p) == '\\' as int && EscapeAt(t, p) == Chars([c], p + |EscapedByte(c)|)
  {
    var e := EscapeLetter(c);
    var s := EscapedByte(c);
    assert t[p + 0] == s[0] && t[p + 1] == s[1];
    if e == 'u' as int {
      assert t[p + 2] == s[2] && t[p + 3] == s[3] && t[p + 4] == s[4] && t[p + 5] == s[5];
      HexOfByte(t, p + 2, c);
    }
  }

  lemma HexOfByte(t: Text, p: nat, c: Byte)
    requires p + 4 <= |t| && c < 0x20
    requires t[p] == '0' as int && t[p + 1] == '0' as int && t[p + 2] == UpperHex(c / 16) && t[p + 3] == UpperHex(c % 16)
    ensures Hex4(t, p) == Digits(c)
  {
    UpperHexDigit(c / 16);
    UpperHexDigit(c % 16);
    hide HexDigit, UpperHex;
    assert HexDigit('0' as int) == Digits(0) by { UpperHexDigit(0); ZeroHex(); }
    assert HexRun(t, p, 4, 0) == HexRun(t, p + 1, 3, 0);
    assert HexRun(t, p + 1, 3, 0) == HexRun(t, p + 2, 2, 0);
    assert HexRun(t, p + 2, 2, 0) == HexRun(t, p + 3, 1, c / 16);
    assert HexRun(t, p + 3, 1, c / 16) == Digits(16 * (c / 16) + c % 16);
  }

  lemma ZeroHex()
    ensures UpperHex(0) == '0' as int
  {
  }

  lemma {:induction false} BodyReadsBack(t: Text, p: nat, s: Text, acc: Text)
    requires Stands(t, p, Escaped(s) + ['"' as int])
    ensures StringBody(t, p, acc) == Chars(acc + s, p + |Escaped(s)| + 1)
    decreases |s|
  {
    hide EscapeAt, EscapedByte, Stands;
    if s == [] {
      assert Escaped(s) + ['"' as int] == ['"' as int];
      StandsHead(t, p, ['"' as int]);
      assert acc + s == acc;
    } else {
      var head, rest := EscapedByte(s[0]), Escaped(s[1..]) + ['"' as int];
      assert Escaped(s) + ['"' as int] == head + rest;
      StandsSplit(t, p, head, rest);
      StandsHead(t, p, head);
      BodyReadsBack(t, p + |head|, s[1..], acc + [s[0]]);
      assert acc + [s[0]] + s[1..] == acc + s;
      if EscapeLetter(s[0]) != 0 {
        EscapedReadsBack(t, p, s[0]);
      } else {
        PlainByte(s[0]);
      }
    }
  }

  lemma PlainByte(c: Byte)
    requires EscapeLetter(c) == 0
    ensures EscapedByte(c) == [c] && c >= 0x20 && c != '"' as int && c != '\\' as int
  {
  }

  lemma StringReadsBack(t: Text, p: nat, s: Text)
    requires Stands(t, p, Quoted(s))
    ensures Peek(t, p) == '"' as int && ParseString(t, p) == Chars(s, p + |Quoted(s)|)
  {
    assert Quoted(s) == ['"' as int] + (Escaped(s) + ['"' as int]);
    StandsSplit(t, p, ['"' as int], Escaped(s) + ['"' as int]);
    assert t[p + 0] == ['"' as int][0];
    BodyReadsBack(t, p + 1, s, []);
    assert [] + s == s;
  }

  // ---------------------------------------------------------------- the written string is the shortest

  lemma {:induction false} EscapedJoin(a: Text, b: Text)
    ensures Escaped(a + b) == Escaped(a) + Escaped(b)
  {
    hide EscapedByte;
    if a == [] {
      assert a + b == b;
    } else {
      assert (a + b)[0] == a[0] && (a + b)[1..] == a[1..] + b;
      EscapedJoin(a[1..], b);
    }
  }

  lemma EscapedOne(c: Byte)
    ensures Escaped([c]) == EscapedByte(c) && |EscapedByte(c)| <= 6
    ensures c >= 0x80 ==> |EscapedByte(c)| == 1
  {
    assert [c][1..] == [];
  }

  /** Bytes from 0x80 on are written as they are. */
  lemma {:induction false} HighBytes(s: Text)
    requires forall i :: 0 <= i < |s| ==> s[i] >= 0x80
    ensures |Escaped(s)| == |s|
  {
    hide EscapedByte;
    if s != [] {
      EscapedOne(s[0]);
      HighBytes(s[1..]);
    }
  }

  lemma Utf8Short(cp: nat)
    requires cp <= 0x10FFFF
    ensures |Escaped(Utf8(cp))| <= 6
  {
    hide EscapedByte, Escaped;
    if cp <= 0x7F {
      EscapedOne(cp);
    } else {
      HighBytes(Utf8(cp));
    }
  }

  lemma UnescapedShort(e: Byte)
    requires Unescape(e) != 0
    ensures |EscapedByte(Unescape(e))| <= 2
  {
  }

  lemma {:induction false} ShortBody(t: Text, p: nat, acc: Text)
    requires StringBody(t, p, acc).Chars?
    ensures var d := StringBody(t, p, acc); |Escaped(d.s)| + 1 <= |Escaped(acc)| + d.end - p
    decreases |t| - p
  {
    hide Escaped, EscapedByte, Utf8, CodepointAt, Unescape;
    var c := Peek(t, p);
    if c == '\\' as int {
      var e := EscapeAt(t, p);
      EscapedJoin(acc, e.s);
      ShortBody(t, e.end, acc + e.s);
      if Unescape(Peek(t, p + 1)) != 0 {
        UnescapedShort(Peek(t, p + 1));
        EscapedOne(Unescape(Peek(t, p + 1)));
      } else {
        Utf8Short(CodepointAt(t, p + 2).v);
      }
    } else if c != '"' as int {
      EscapedJoin(acc, [c]);
      EscapedOne(c);
      assert |EscapedByte(c)| == 1 by { PlainShort(c); }
      ShortBody(t, p + 1, acc + [c]);
    }
  }

  lemma PlainShort(c: Byte)
    requires c >= 0x20 && c != '"' as int && c != '\\' as int
    ensures |EscapedByte(c)| == 1
  {
  }

  /** Whatever text reads as a string, the writer's text for that string is not longer. */
  lemma ShortestString(t: Text, p: nat)
    requires ParseString(t, p).Chars?
    ensures var d := ParseString(t, p); |Quoted(d.s)| <= d.end - p
  {
    ShortBody(t, p + 1, []);
  }

  // ---------------------------------------------------------------- numbers and literals

  /** The character at `p` ends a number. */
  predicate EndsNumber(t: Text, p: nat) {
    var c := Peek(t, p);
    !IsDigit(c) && c != '.' as int && c != 'e' as int && c != 'E' as int
  }

  lemma {:induction false} DigitsRun(t: Text, p: nat, s: Text)
    requires Stands(t, p, s) && (forall i :: 0 <= i < |s| ==> IsDigit(s[i])) && !IsDigit(Peek(t, p + |s|))
    ensures DigitsEnd(t, p) == p + |s|
    decreases |s|
  {
    if s != [] {
      assert t[p + 0] == s[0];
      forall i | 0 <= i < |s[1..]|
        ensures t[p + 1 + i] == s[1..][i]
      {
        assert t[p + (1 + i)] == s[1 + i];
      }
      DigitsRun(t, p + 1, s[1..]);
    }
  }

  lemma IntegerReadsBack(t: Text, p: nat, n: nat)
    requires Stands(t, p, Decimal(n)) && EndsNumber(t, p + |Decimal(n)|)
    ensures IntegerPart(t, p) == End(p + |Decimal(n)|)
    ensures t[p..p + |Decimal(n)|] == Decimal(n)
  {
    DecimalIsDigits(n);
    var s := Decimal(n);
    assert t[p + 0] == s[0] && IsDigit(s[0]);
    if n == 0 {
      assert |s| == 1;
    } else {
      DigitsRun(t, p, s);
    }
  }

  lemma NumberReadsBack(o: Options, t: Text, p: nat, n: int, out: seq<Event>)
    requires -D.TWO_63 <= n < D.TWO_64 && AcceptsAll(o)
    requires Stands(t, p, SignedDecimal(n)) && EndsNumber(t, p + |SignedDecimal(n)|)
    ensures ParseNumber(o, t, p, out)
            == Ok(p + |SignedDecimal(n)|, out + [IntegerEvent(n < 0, D.Magnitude(n))])
  {
    hide Stands, Decimal, DecimalValue, IntegerPart, DigitsEnd, FractionPart, ExponentPart, EndsNumber;
    StandsWithin(t, p, SignedDecimal(n));
    NothingMore(o, t, p, p + |SignedDecimal(n)|);
    var m := D.Magnitude(n);
    DecimalRoundTrip(m);
    DecimalIsDigits(m);
    if n < 0 {
      StandsSplit(t, p, ['-' as int], Decimal(m));
      StandsHead(t, p, ['-' as int]);
      IntegerReadsBack(t, p + 1, m);
    } else {
      StandsHead(t, p, Decimal(m));
      assert Decimal(m)[0] in Decimal(m);
      IntegerReadsBack(t, p, m);
    }
  }

  lemma NothingMore(o: Options, t: Text, p: nat, q: nat)
    requires EndsNumber(t, q) && p <= q <= |t|
    ensures FractionPart(t, q) == End(q) && ExponentPart(o, t, p, q) == End(q)
  {
  }

  lemma LiteralReadsBack(o: Options, t: Text, p: nat, c: Byte, w: Text, e: Event, out: seq<Event>)
    requires Stands(t, p, [c] + w) && 0 !in w && AcceptsAll(o)
    ensures p < |t| && Literal(o, t, p, w, e, out) == Ok(p + 1 + |w|, out + [e])
  {
    StandsSplit(t, p, [c], w);
    MatchedAll(t, p + 1, w);
  }

  // ---------------------------------------------------------------- separators

  function Separator(lv: Level): Text {
    if lv.valueCount == 0 then []
    else if lv.inArray || lv.valueCount % 2 == 0 then [',' as int] else [':' as int]
  }

  /** What leads a value is its separator and white space. */
  lemma LeadShape(st: Style, lv: Level, d: nat) returns (w: Text)
    requires ValidStyle(st)
    ensures Lead(st, lv, d) == Separator(lv) + w && AllWhite(w)
  {
    w := Lead(st, lv, d)[|Separator(lv)|..];
    assert Lead(st, lv, d) == Separator(lv) + w;
  }

  lemma TailShape(st: Style, lv: Level, d: nat)
    requires ValidStyle(st)
    ensures AllWhite(Tail(st, lv, d))
  {
  }

  /** A value's text starts with a character that only a value starts with. */
  predicate StartsValue(c: Byte) {
    c == 'n' as int || c == 't' as int || c == 'f' as int || c == '"' as int || c == '[' as int || c == '{' as int
    || c == '-' as int || IsDigit(c)
  }

  lemma RenderHead(st: Style, depth: nat, v: D.Value)
    requires D.WellFormed(v)
    ensures Render(st, depth, v) != [] && StartsValue(Render(st, depth, v)[0])
  {
    if v.NumberValue? {
      DecimalIsDigits(D.Magnitude(D.IntegerOf(v)));
    }
  }

  lemma ValueStarts(t: Text, p: nat, r: Text)
    requires Stands(t, p, r) && r != [] && StartsValue(r[0])
    ensures StartsToken(Peek(t, p)) && Peek(t, p) == r[0] && Peek(t, p) != ']' as int && Peek(t, p) != '}' as int
    ensures Peek(t, p) != 0
  {
    assert t[p + 0] == r[0];
  }

  /** No white space to skip. */
  lemma NoBlank(o: Options, t: Text, p: nat, out: seq<Event>)
    requires p <= |t| && StartsToken(Peek(t, p))
    ensures Space(o, t, p, out) == Ok(p, out)
  {
    SkipBlank(o, t, p, []);
  }

  lemma BlankSkipped(o: Options, t: Text, p: nat, w: Text, out: seq<Event>)
    requires Stands(t, p, w) && AllWhite(w) && StartsToken(Peek(t, p + |w|))
    ensures Space(o, t, p, out) == Ok(p + |w|, out)
  {
    SkipBlank(o, t, p, w);
  }

  // ---------------------------------------------------------------- arrays

  /** The text from element `i` of an array to its closing bracket. */
  function ArrayRest(st: Style, d: nat, es: seq<D.Value>, i: nat): Text
    requires D.AllWellFormed(es) && i < |es| && d > 0
  {
    Render(st, d, es[i]) + AfterElement(st, d, es, i)
  }

  /** The text behind element `i`. */
  function AfterElement(st: Style, d: nat, es: seq<D.Value>, i: nat): Text
    requires D.AllWellFormed(es) && i < |es| && d > 0
  {
    RenderElements(st, d, es[i + 1..], i + 1) + (Tail(st, Level(|es|, true), d - 1) + [']' as int])
  }

  /** Another element follows, led by a comma. */
  lemma NextElement(st: Style, d: nat, es: seq<D.Value>, i: nat, t: Text, q: nat) returns (w: Text)
    requires D.AllWellFormed(es) && i + 1 < |es| && d > 0 && ValidStyle(st)
    requires Stands(t, q, AfterElement(st, d, es, i))
    ensures Peek(t, q) == ',' as int && AllWhite(w) && Stands(t, q + 1, w)
    ensures Stands(t, q + 1 + |w|, ArrayRest(st, d, es, i + 1))
    ensures |AfterElement(st, d, es, i)| == 1 + |w| + |ArrayRest(st, d, es, i + 1)|
  {
    hide Stands, Render, RenderElements, Lead, Tail;
    ElementsStep(st, d, es, i + 1);
    w := LeadShape(st, Level(i + 1, true), d);
    var rest := ArrayRest(st, d, es, i + 1);
    Regroup([',' as int], w, Render(st, d, es[i + 1]), RenderElements(st, d, es[i + 2..], i + 2),
            Tail(st, Level(|es|, true), d - 1) + [']' as int]);
    assert AfterElement(st, d, es, i) == [',' as int] + (w + rest);
    StandsSplit(t, q, [',' as int], w + rest);
    StandsSplit(t, q + 1, w, rest);
    StandsHead(t, q, [',' as int]);
  }

  /** The last element is followed by white space and the bracket. */
  lemma LastElement(st: Style, d: nat, es: seq<D.Value>, i: nat, t: Text, q: nat) returns (w: Text)
    requires D.AllWellFormed(es) && i + 1 == |es| && d > 0 && ValidStyle(st)
    requires Stands(t, q, AfterElement(st, d, es, i))
    ensures AllWhite(w) && Stands(t, q, w) && Peek(t, q + |w|) == ']' as int && q + |w| < |t|
    ensures |AfterElement(st, d, es, i)| == |w| + 1
  {
    hide Stands, Tail;
    w := Tail(st, Level(|es|, true), d - 1);
    TailShape(st, Level(|es|, true), d - 1);
    assert es[i + 1..] == [];
    assert AfterElement(st, d, es, i) == w + [']' as int];
    StandsSplit(t, q, w, [']' as int]);
    StandsHead(t, q + |w|, [']' as int]);
  }

  lemma {:induction false} ElementsReadBack(o: Options, st: Style, d: nat, es: seq<D.Value>, i: nat, t: Text, p: nat, out: seq<Event>)
    requires D.AllWellFormed(es) && i < |es| && d > 0 && ValidStyle(st) && AcceptsAll(o)
    requires Stands(t, p, ArrayRest(st, d, es, i))
    ensures Elements(o, t, p, i, out)
            == Ok(p + |ArrayRest(st, d, es, i)|, out + D.ElementEvents(es[i..]) + [EndArray(|es|)])
    decreases es, 0, |es| - i
  {
    hide Stands, Render, D.Events, AfterElement, Value, Space, AllWhite;
    var q := p + |Render(st, d, es[i])|;
    StandsSplit(t, p, Render(st, d, es[i]), AfterElement(st, d, es, i));
    var out1 := out + D.Events(es[i]);
    assert es[i..][0] == es[i] && es[i..][1..] == es[i + 1..];
    assert D.ElementEvents(es[i..]) == D.Events(es[i]) + D.ElementEvents(es[i + 1..]);
    if i + 1 < |es| {
      var w := NextElement(st, d, es, i, t, q);
      ValueReadsBack(o, st, d, es[i], t, p, out);
      NoBlank(o, t, q, out1);
      var p2 := q + 1 + |w|;
      ArrayRestHead(st, d, es, i + 1);
      ValueStarts(t, p2, ArrayRest(st, d, es, i + 1));
      BlankSkipped(o, t, q + 1, w, out1);
      ElementsReadBack(o, st, d, es, i + 1, t, p2, out1);
      NextTail(o, t, q, p2, i, out1);
      assert out1 + D.ElementEvents(es[i + 1..]) + [EndArray(|es|)] == out + D.ElementEvents(es[i..]) + [EndArray(|es|)];
    } else {
      var w := LastElement(st, d, es, i, t, q);
      EndsAfterBlank(t, q, w);
      ValueReadsBack(o, st, d, es[i], t, p, out);
      BlankSkipped(o, t, q, w, out1);
      assert es[i + 1..] == [];
      assert out1 + [EndArray(|es|)] == out + D.ElementEvents(es[i..]) + [EndArray(|es|)];
    }
  }

  lemma ArrayRestHead(st: Style, d: nat, es: seq<D.Value>, i: nat)
    requires D.AllWellFormed(es) && i < |es| && d > 0
    ensures ArrayRest(st, d, es, i) != [] && StartsValue(ArrayRest(st, d, es, i)[0])
  {
    RenderHead(st, d, es[i]);
    hide Render, AfterElement;
  }

  /** A comma leads on to the next element. */
  lemma NextTail(o: Options, t: Text, q: nat, p2: nat, i: nat, out: seq<Event>)
    requires q < |t| && Peek(t, q) == ',' as int && Space(o, t, q + 1, out) == Ok(p2, out) && Peek(t, p2) != ']' as int
    ensures p2 <= |t| && ElementTail(o, t, q, i, out) == Elements(o, t, p2, i + 1, out)
  {
    hide Elements, Space;
  }

  lemma EndsAfterBlank(t: Text, q: nat, w: Text)
    requires Stands(t, q, w) && AllWhite(w) && (Peek(t, q + |w|) == ']' as int || Peek(t, q + |w|) == '}' as int)
    ensures EndsNumber(t, q)
  {
    if w != [] {
      assert t[q + 0] == w[0];
    }
  }

  lemma {:induction false} ArrayReadsBack(o: Options, st: Style, depth: nat, es: seq<D.Value>, t: Text, p: nat, out: seq<Event>)
    requires D.AllWellFormed(es) && ValidStyle(st) && AcceptsAll(o)
    requires Stands(t, p, Render(st, depth, D.ArrayValue(es)))
    ensures Value(o, t, p, out)
            == Ok(p + |Render(st, depth, D.ArrayValue(es))|, out + D.Events(D.ArrayValue(es)))
    decreases es, 1
  {
    hide Stands, Render, Tail, Lead, RenderElements, Elements, Space, D.ElementEvents;
    var text := Render(st, depth, D.ArrayValue(es));
    var out1 := out + [StartArray];
    ArrayText(st, depth, es);
    StandsHead(t, p, text);
    if es == [] {
      EmptyArray(o, st, depth, t, p, out);
    } else {
      var rest := ArrayRest(st, depth + 1, es, 0);
      var w := FirstElement(st, depth, es, t, p);
      ArrayRestHead(st, depth + 1, es, 0);
      ValueStarts(t, p + 1 + |w|, rest);
      BlankSkipped(o, t, p + 1, w, out1);
      ElementsReadBack(o, st, depth + 1, es, 0, t, p + 1 + |w|, out1);
      assert es[0..] == es;
      assert out1 + D.ElementEvents(es) + [EndArray(|es|)] == out + D.Events(D.ArrayValue(es));
    }
  }

  lemma EmptyArray(o: Options, st: Style, depth: nat, t: Text, p: nat, out: seq<Event>)
    requires AcceptsAll(o) && Stands(t, p, Render(st, depth, D.ArrayValue([])))
    ensures Value(o, t, p, out)
            == Ok(p + |Render(st, depth, D.ArrayValue([]))|, out + D.Events(D.ArrayValue([])))
  {
    var text := Render(st, depth, D.ArrayValue([]));
    assert text == ['[' as int, ']' as int];
    assert t[p + 0] == text[0] && t[p + 1] == text[1];
    NoBlank(o, t, p + 1, out + [StartArray]);
    assert out + D.Events(D.ArrayValue([])) == out + [StartArray] + [EndArray(0)];
    hide Space, Elements;
  }

  /** The bracket is followed by white space and the first element. */
  lemma FirstElement(st: Style, depth: nat, es: seq<D.Value>, t: Text, p: nat) returns (w: Text)
    requires D.AllWellFormed(es) && es != [] && ValidStyle(st)
    requires Stands(t, p, Render(st, depth, D.ArrayValue(es)))
    ensures AllWhite(w) && Stands(t, p + 1, w) && Stands(t, p + 1 + |w|, ArrayRest(st, depth + 1, es, 0))
    ensures |Render(st, depth, D.ArrayValue(es))| == 1 + |w| + |ArrayRest(st, depth + 1, es, 0)|
  {
    hide Stands, Render, RenderElements, Lead, Tail;
    w := LeadShape(st, Level(0, true), depth + 1);
    ArrayText(st, depth, es);
    ElementsStep(st, depth + 1, es, 0);
    assert es[0..] == es;
    var rest := ArrayRest(st, depth + 1, es, 0);
    var z := Tail(st, Level(|es|, true), depth) + [']' as int];
    Regroup(['[' as int], w, Render(st, depth + 1, es[0]), RenderElements(st, depth + 1, es[1..], 1), z);
    assert Render(st, depth, D.ArrayValue(es)) == ['[' as int] + (w + rest);
    StandsSplit(t, p, ['[' as int], w + rest);
    StandsSplit(t, p + 1, w, rest);
  }

  // ---------------------------------------------------------------- objects

  /** The text from member `i` of an object to its closing bracket. */
  function ObjectRest(st: Style, d: nat, ms: seq<D.Member>, i: nat): Text
    requires D.MembersWellFormed(ms) && i < |ms| && d > 0
  {
    Quoted(ms[i].name) + AfterName(st, d, ms, i)
  }

  /** The text behind the name of member `i`. */
  function AfterName(st: Style, d: nat, ms: seq<D.Member>, i: nat): Text
    requires D.MembersWellFormed(ms) && i < |ms| && d > 0
  {
    Lead(st, Level(2 * i + 1, false), d) + (Render(st, d, ms[i].value) + AfterMember(st, d, ms, i))
  }

  /** The text behind member `i`. */
  function AfterMember(st: Style, d: nat, ms: seq<D.Member>, i: nat): Text
    requires D.MembersWellFormed(ms) && i < |ms| && d > 0
  {
    RenderMembers(st, d, ms[i + 1..], i + 1) + (Tail(st, Level(2 * |ms|, false), d - 1) + ['}' as int])
  }

  lemma Regroup6(a: Text, w: Text, n: Text, l: Text, r: Text, e: Text, z: Text)
    ensures (a + w + n + l + r + e) + z == a + (w + (n + (l + (r + (e + z)))))
  {
  }

  lemma NextMember(st: Style, d: nat, ms: seq<D.Member>, i: nat, t: Text, q: nat) returns (w: Text)
    requires D.MembersWellFormed(ms) && i + 1 < |ms| && d > 0 && ValidStyle(st)
    requires Stands(t, q, AfterMember(st, d, ms, i))
    ensures Peek(t, q) == ',' as int && q < |t| && AllWhite(w) && Stands(t, q + 1, w)
    ensures Stands(t, q + 1 + |w|, ObjectRest(st, d, ms, i + 1))
    ensures |AfterMember(st, d, ms, i)| == 1 + |w| + |ObjectRest(st, d, ms, i + 1)|
  {
    hide Stands, Render, RenderMembers, Lead, Tail, Quoted;
    MembersStep(st, d, ms, i + 1);
    w := LeadShape(st, Level(2 * (i + 1), false), d);
    var rest := ObjectRest(st, d, ms, i + 1);
    Regroup6([',' as int], w, Quoted(ms[i + 1].name), Lead(st, Level(2 * (i + 1) + 1, false), d),
             Render(st, d, ms[i + 1].value), RenderMembers(st, d, ms[i + 2..], i + 2),
             Tail(st, Level(2 * |ms|, false), d - 1) + ['}' as int]);
    assert AfterMember(st, d, ms, i) == [',' as int] + (w + rest);
    StandsSplit(t, q, [',' as int], w + rest);
    StandsSplit(t, q + 1, w, rest);
    StandsHead(t, q, [',' as int]);
  }

  lemma LastMember(st: Style, d: nat, ms: seq<D.Member>, i: nat, t: Text, q: nat) returns (w: Text)
    requires D.MembersWellFormed(ms) && i + 1 == |ms| && d > 0 && ValidStyle(st)
    requires Stands(t, q, AfterMember(st, d, ms, i))
    ensures AllWhite(w) && Stands(t, q, w) && Peek(t, q + |w|) == '}' as int && q + |w| < |t|
    ensures |AfterMember(st, d, ms, i)| == |w| + 1
  {
    hide Stands, Tail;
    w := Tail(st, Level(2 * |ms|, false), d - 1);
    TailShape(st, Level(2 * |ms|, false), d - 1);
    assert ms[i + 1..] == [];
    assert AfterMember(st, d, ms, i) == w + ['}' as int];
    StandsSplit(t, q, w, ['}' as int]);
    StandsHead(t, q + |w|, ['}' as int]);
  }

  /** The name is followed by a colon, white space and the value. */
  lemma ColonAndValue(st: Style, d: nat, ms: seq<D.Member>, i: nat, t: Text, q: nat) returns (w: Text)
    requires D.MembersWellFormed(ms) && i < |ms| && d > 0 && ValidStyle(st)
    requires Stands(t, q, AfterName(st, d, ms, i))
    ensures Peek(t, q) == ':' as int && q < |t| && AllWhite(w) && Stands(t, q + 1, w)
    ensures Stands(t, q + 1 + |w|, Render(st, d, ms[i].value))
    ensures Stands(t, q + 1 + |w| + |Render(st, d, ms[i].value)|, AfterMember(st, d, ms, i))
    ensures |AfterName(st, d, ms, i)| == 1 + |w| + |Render(st, d, ms[i].value)| + |AfterMember(st, d, ms, i)|
  {
    hide Stands, Render, AfterMember, Lead;
    w := LeadShape(st, Level(2 * i + 1, false), d);
    var r, z := Render(st, d, ms[i].value), AfterMember(st, d, ms, i);
    assert AfterName(st, d, ms, i) == [':' as int] + (w + (r + z));
    StandsSplit(t, q, [':' as int], w + (r + z));
    StandsSplit(t, q + 1, w, r + z);
    StandsSplit(t, q + 1 + |w|, r, z);
    StandsHead(t, q, [':' as int]);
  }

  lemma {:induction false} MembersReadBack(o: Options, st: Style, d: nat, ms: seq<D.Member>, i: nat, t: Text, p: nat, out: seq<Event>)
    requires D.MembersWellFormed(ms) && i < |ms| && d > 0 && ValidStyle(st) && AcceptsAll(o)
    requires Stands(t, p, ObjectRest(st, d, ms, i))
    ensures Members(o, t, p, i, out)
            == Ok(p + |ObjectRest(st, d, ms, i)|, out + D.MemberEvents(ms[i..]) + [EndObject(|ms|)])
    decreases ms, 0, |ms| - i, 1
  {
    hide Stands, AfterName, MemberRest, Space, Quoted, ParseString;
    var q := p + |Quoted(ms[i].name)|;
    StandsSplit(t, p, Quoted(ms[i].name), AfterName(st, d, ms, i));
    StringReadsBack(t, p, ms[i].name);
    NameEnds(st, d, ms, i, t, q);
    var out1 := out + [Key(ms[i].name)];
    NoBlank(o, t, q, out1);
    MemberRestReadsBack(o, st, d, ms, i, t, q, out1);
    assert ms[i..][0] == ms[i] && ms[i..][1..] == ms[i + 1..];
    hide D.Events;
    var evs := D.Events(ms[i].value) + D.MemberEvents(ms[i + 1..]);
    assert D.MemberEvents(ms[i..]) == [Key(ms[i].name)] + evs;
    assert out1 + evs + [EndObject(|ms|)] == out + D.MemberEvents(ms[i..]) + [EndObject(|ms|)];
  }

  lemma NameEnds(st: Style, d: nat, ms: seq<D.Member>, i: nat, t: Text, q: nat)
    requires D.MembersWellFormed(ms) && i < |ms| && d > 0 && ValidStyle(st)
    requires Stands(t, q, AfterName(st, d, ms, i))
    ensures q <= |t| && StartsToken(Peek(t, q))
  {
    hide Stands, AfterName;
    var _ := ColonAndValue(st, d, ms, i, t, q);
  }

  lemma {:induction false} MemberRestReadsBack(o: Options, st: Style, d: nat, ms: seq<D.Member>, i: nat, t: Text, q: nat, out: seq<Event>)
    requires D.MembersWellFormed(ms) && i < |ms| && d > 0 && ValidStyle(st) && AcceptsAll(o)
    requires Stands(t, q, AfterName(st, d, ms, i))
    ensures MemberRest(o, t, q, i, out)
            == Ok(q + |AfterName(st, d, ms, i)|,
                  out + (D.Events(ms[i].value) + D.MemberEvents(ms[i + 1..])) + [EndObject(|ms|)])
    decreases ms, 0, |ms| - i, 0
  {
    hide Stands, AfterName, AfterMember, Render, Value, Space, MemberTail, D.Events, D.MemberEvents, AllWhite, Members;
    var w := ColonAndValue(st, d, ms, i, t, q);
    var p1 := q + 1 + |w|;
    var v := ms[i].value;
    RenderHead(st, d, v);
    ValueStarts(t, p1, Render(st, d, v));
    BlankSkipped(o, t, q + 1, w, out);
    var p2 := p1 + |Render(st, d, v)|;
    var out2 := out + D.Events(v);
    if i + 1 < |ms| {
      var w2 := NextMember(st, d, ms, i, t, p2);
      ValueReadsBack(o, st, d, v, t, p1, out);
      NoBlank(o, t, p2, out2);
      var p3 := p2 + 1 + |w2|;
      NameStarts(st, d, ms, i + 1, t, p3);
      BlankSkipped(o, t, p2 + 1, w2, out2);
      NextMemberTail(o, t, p2, p3, i, out2);
      MembersReadBack(o, st, d, ms, i + 1, t, p3, out2);
      assert out2 + D.MemberEvents(ms[i + 1..]) + [EndObject(|ms|)]
          == out + (D.Events(v) + D.MemberEvents(ms[i + 1..])) + [EndObject(|ms|)];
    } else {
      var w2 := LastMember(st, d, ms, i, t, p2);
      EndsAfterBlank(t, p2, w2);
      ValueReadsBack(o, st, d, v, t, p1, out);
      BlankSkipped(o, t, p2, w2, out2);
      LastMemberTail(o, t, p2 + |w2|, i, out2);
      NoMemberEvents(ms, i + 1);
      assert out2 + [EndObject(|ms|)] == out + (D.Events(v) + []) + [EndObject(|ms|)];
    }
  }

  lemma NoMemberEvents(ms: seq<D.Member>, i: nat)
    requires D.MembersWellFormed(ms) && i == |ms|
    ensures D.MemberEvents(ms[i..]) == []
  {
  }

  lemma NextMemberTail(o: Options, t: Text, q: nat, p2: nat, i: nat, out: seq<Event>)
    requires q < |t| && Peek(t, q) == ',' as int && Space(o, t, q + 1, out) == Ok(p2, out) && Peek(t, p2) != '}' as int
    ensures p2 <= |t| && MemberTail(o, t, q, i, out) == Members(o, t, p2, i + 1, out)
  {
    hide Members, Space;
  }

  lemma LastMemberTail(o: Options, t: Text, q: nat, i: nat, out: seq<Event>)
    requires q < |t| && Peek(t, q) == '}' as int && AcceptsAll(o)
    ensures MemberTail(o, t, q, i, out) == Ok(q + 1, out + [EndObject(i + 1)])
  {
    hide Members, Space;
  }

  lemma NameStarts(st: Style, d: nat, ms: seq<D.Member>, i: nat, t: Text, p: nat)
    requires D.MembersWellFormed(ms) && i < |ms| && d > 0 && Stands(t, p, ObjectRest(st, d, ms, i))
    ensures p < |t| && Peek(t, p) == '"' as int && StartsToken(Peek(t, p))
  {
    hide Stands, AfterName;
    StandsSplit(t, p, Quoted(ms[i].name), AfterName(st, d, ms, i));
    StandsHead(t, p, Quoted(ms[i].name));
  }

  lemma {:induction false} ObjectReadsBack(o: Options, st: Style, depth: nat, ms: seq<D.Member>, t: Text, p: nat, out: seq<Event>)
    requires D.MembersWellFormed(ms) && ValidStyle(st) && AcceptsAll(o)
    requires Stands(t, p, Render(st, depth, D.ObjectValue(ms)))
    ensures Value(o, t, p, out)
            == Ok(p + |Render(st, depth, D.ObjectValue(ms))|, out + D.Events(D.ObjectValue(ms)))
    decreases ms, 1
  {
    hide Stands, Render, Tail, Lead, RenderMembers, Members, Space, D.MemberEvents;
    var text := Render(st, depth, D.ObjectValue(ms));
    var out1 := out + [StartObject];
    ObjectText(st, depth, ms);
    StandsHead(t, p, text);
    if ms == [] {
      EmptyObject(o, st, depth, t, p, out);
    } else {
      var w := FirstMember(st, depth, ms, t, p);
      NameStarts(st, depth + 1, ms, 0, t, p + 1 + |w|);
      BlankSkipped(o, t, p + 1, w, out1);
      MembersReadBack(o, st, depth + 1, ms, 0, t, p + 1 + |w|, out1);
      assert ms[0..] == ms;
      assert out1 + D.MemberEvents(ms) + [EndObject(|ms|)] == out + D.Events(D.ObjectValue(ms));
    }
  }

  lemma EmptyObject(o: Options, st: Style, depth: nat, t: Text, p: nat, out: seq<Event>)
    requires AcceptsAll(o) && Stands(t, p, Render(st, depth, D.ObjectValue([])))
    ensures Value(o, t, p, out)
            == Ok(p + |Render(st, depth, D.ObjectValue([]))|, out + D.Events(D.ObjectValue([])))
  {
    var text := Render(st, depth, D.ObjectValue([]));
    assert text == ['{' as int, '}' as int];
    assert t[p + 0] == text[0] && t[p + 1] == text[1];
    NoBlank(o, t, p + 1, out + [StartObject]);
    assert out + D.Events(D.ObjectValue([])) == out + [StartObject] + [EndObject(0)];
    hide Space, Members;
  }

  lemma FirstMember(st: Style, depth: nat, ms: seq<D.Member>, t: Text, p: nat) returns (w: Text)
    requires D.MembersWellFormed(ms) && ms != [] && ValidStyle(st)
    requires Stands(t, p, Render(st, depth, D.ObjectValue(ms)))
    ensures AllWhite(w) && Stands(t, p + 1, w) && Stands(t, p + 1 + |w|, ObjectRest(st, depth + 1, ms, 0))
    ensures |Render(st, depth, D.ObjectValue(ms))| == 1 + |w| + |ObjectRest(st, depth + 1, ms, 0)|
  {
    hide Stands, Render, RenderMembers, Lead, Tail, Quoted;
    w := LeadShape(st, Level(0, false), depth + 1);
    ObjectText(st, depth, ms);
    MembersStep(st, depth + 1, ms, 0);
    assert ms[0..] == ms;
    var rest := ObjectRest(st, depth + 1, ms, 0);
    Regroup6(['{' as int], w, Quoted(ms[0].name), Lead(st, Level(1, false), depth + 1),
             Render(st, depth + 1, ms[0].value), RenderMembers(st, depth + 1, ms[1..], 1),
             Tail(st, Level(2 * |ms|, false), depth) + ['}' as int]);
    assert Render(st, depth, D.ObjectValue(ms)) == ['{' as int] + (w + rest);
    StandsSplit(t, p, ['{' as int], w + rest);
    StandsSplit(t, p + 1, w, rest);
  }

  // ---------------------------------------------------------------- all values

  lemma ScalarReadsBack(o: Options, st: Style, depth: nat, v: D.Value, t: Text, p: nat, out: seq<Event>)
    requires D.WellFormed(v) && !v.ArrayValue? && !v.ObjectValue? && AcceptsAll(o)
    requires Stands(t, p, Render(st, depth, v)) && EndsNumber(t, p + |Render(st, depth, v)|)
    ensures Value(o, t, p, out) == Ok(p + |Render(st, depth, v)|, out + D.Events(v))
  {
    hide Stands, ParseNumber, ParseString, Quoted, Decimal, Literal;
    RenderHead(st, depth, v);
    StandsHead(t, p, Render(st, depth, v));
    match v
    case NullValue =>
      assert NULL_TEXT == ['n' as int] + NULL_TAIL;
      LiteralReadsBack(o, t, p, 'n' as int, NULL_TAIL, Null, out);
    case BoolValue(b) =>
      assert TRUE_TEXT == ['t' as int] + TRUE_TAIL && FALSE_TEXT == ['f' as int] + FALSE_TAIL;
      LiteralReadsBack(o, t, p, if b then 't' as int else 'f' as int, if b then TRUE_TAIL else FALSE_TAIL, Bool(b), out);
    case NumberValue(_, _) =>
      NumberReadsBack(o, t, p, D.IntegerOf(v), out);
      NumberHead(D.IntegerOf(v));
    case StringValue(s) =>
      StringReadsBack(t, p, s);
  }

  lemma NumberHead(n: int)
    ensures SignedDecimal(n)[0] == '-' as int || IsDigit(SignedDecimal(n)[0])
  {
    DecimalIsDigits(D.Magnitude(n));
    assert Decimal(D.Magnitude(n))[0] in Decimal(D.Magnitude(n));
  }

  /** The recursive parser reads a value's text and delivers the value's events. */
  lemma {:induction false} ValueReadsBack(o: Options, st: Style, depth: nat, v: D.Value, t: Text, p: nat, out: seq<Event>)
    requires D.WellFormed(v) && ValidStyle(st) && AcceptsAll(o)
    requires Stands(t, p, Render(st, depth, v)) && EndsNumber(t, p + |Render(st, depth, v)|)
    ensures Value(o, t, p, out) == Ok(p + |Render(st, depth, v)|, out + D.Events(v))
    decreases v, 2
  {
    hide Value, Render, D.Events, Stands;
    if v.ArrayValue? {
      ArrayReadsBack(o, st, depth, v.elements, t, p, out);
    } else if v.ObjectValue? {
      ObjectReadsBack(o, st, depth, v.members, t, p, out);
    } else {
      ScalarReadsBack(o, st, depth, v, t, p, out);
    }
  }

  /** Parsing the text of a value succeeds, consumes it all, and delivers the value's events. */
  lemma DocumentReadsBack(o: Options, st: Style, v: D.Value)
    requires D.WellFormed(v) && ValidStyle(st) && AcceptsAll(o)
    ensures Recursive.Document(o, Render(st, 0, v)) == Ok(|Render(st, 0, v)|, D.Events(v))
    ensures !DelimiterRoot(o, Render(st, 0, v))
  {
    hide Value, Render, D.Events, Space;
    var t := Render(st, 0, v);
    RenderHead(st, 0, v);
    ValueStarts(t, 0, t);
    NoBlank(o, t, 0, []);
    ValueReadsBack(o, st, 0, v, t, 0, []);
    assert [] + D.Events(v) == D.Events(v);
    NoBlank(o, t, |t|, D.Events(v));
  }

  /** So does the table-driven parser. */
  lemma TableDrivenReadsBack(o: Options, st: Style, v: D.Value)
    requires D.WellFormed(v) && ValidStyle(st) && AcceptsAll(o)
    ensures TableDriven.Document(o, Render(st, 0, v)) == Ok(|Render(st, 0, v)|, D.Events(v))
  {
    hide Render, D.Events;
    DocumentReadsBack(o, st, v);
    EqualIffNoDelimiterRoot(o, Render(st, 0, v));
  }

  /**
   Write a value with either writer, read the text with either parser in either mode, build
   the document: the text is the rendering of the value, the events are those that the parser
   delivers for the text, the document is what they build, and it is the value.
   */
  method WriteParseBuild(v: D.Value, st: Style, o: Options, iterative: bool, insitu: bool)
    returns (text: Text, events: seq<Event>, w: D.Value)
    requires D.WellFormed(v) && ValidStyle(st) && AcceptsAll(o)
    ensures text == Render(st, 0, v)
    ensures (if iterative then TableDriven.Document(o, text) else Recursive.Document(o, text)) == Ok(|text|, events)
    ensures D.FeedAll([], events) == D.Built([w])
    ensures w == v
  {
    hide Render, D.Events, D.FeedAll, Recursive.Document, TableDriven.Document;
    var writer := new Writer(st);
    writer.Accept(v);
    text := writer.os;
    assert text == Render(st, 0, v);
    var buf := new Byte[|text|](i requires 0 <= i < |text| => text[i]);
    assert buf[..] == text;
    var reader := new Reader(o, insitu, buf);
    if iterative {
      TableDrivenReadsBack(o, st, v);
      reader.IterativeParse();
    } else {
      DocumentReadsBack(o, st, v);
      reader.RecursiveParse();
    }
    events := reader.out;
    D.BuildValue([], v);
    var stack := BuildAll(events);
    w := stack[0];
  }

  /** The handler calls of the document, one after the other. */
  method BuildAll(events: seq<Event>) returns (stack: seq<D.Value>)
    requires D.FeedAll([], events).Built?
    ensures stack == D.FeedAll([], events).stack
  {
    var doc := new D.Document();
    for i := 0 to |events|
      invariant D.FeedAll(doc.stack, events[i..]) == D.FeedAll([], events)
    {
      assert events[i..][0] == events[i] && events[i..][1..] == events[i + 1..];
      doc.Handle(events[i]);
    }
    assert events[|events|..] == [];
    stack := doc.stack;
  }
}
