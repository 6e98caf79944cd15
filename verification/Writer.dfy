/**
 Writer and PrettyWriter (rapidjson/writer.h, rapidjson/prettywriter.h): the text of a value
 as a function, and the writer class with its level stack, which produces that text event by event.
 */
module JsonWriter {
  import opened Sax
  import opened Scan
  import opened Itoa
  import opened Dom

  /** Compact is Writer; Pretty is PrettyWriter with its indentation and array format. */
  datatype Style = Compact | Pretty(indentChar: Byte, indentCount: nat, singleLineArray: bool)

  /** SetIndent accepts white space only. */
  predicate ValidStyle(st: Style) {
    st.Pretty? ==> IsWhite(st.indentChar)
  }

  datatype Level = Level(valueCount: nat, inArray: bool)

  // ---------------------------------------------------------------- the text of a value

  /** The writer's escape table: the letter behind the backslash, 0 if the byte is written as it is. */
  function EscapeLetter(c: Byte): Byte {
    if c == 8 then 'b' as int
    else if c == 9 then 't' as int
    else if c == 10 then 'n' as int
    else if c == 12 then 'f' as int
    else if c == 13 then 'r' as int
    else if c < 0x20 then 'u' as int
    else if c == '"' as int then '"' as int
    else if c == '\\' as int then '\\' as int
    else 0
  }

  function UpperHex(d: nat): Byte
    requires d < 16
  {
    if d < 10 then '0' as int + d else 'A' as int + d - 10
  }

  function EscapedByte(c: Byte): (s: Text)
    ensures s != []
  {
    var e := EscapeLetter(c);
    if e == 0 then [c]
    else if e == 'u' as int then ['\\' as int, e, '0' as int, '0' as int, UpperHex(c / 16), UpperHex(c % 16)]
    else ['\\' as int, e]
  }

  function Escaped(s: Text): Text {
    if s == [] then [] else EscapedByte(s[0]) + Escaped(s[1..])
  }

  function Quoted(s: Text): Text {
    ['"' as int] + Escaped(s) + ['"' as int]
  }

  function Repeat(c: Byte, n: nat): (s: Text)
    ensures |s| == n && forall i :: 0 <= i < n ==> s[i] == c
  {
    if n == 0 then [] else Repeat(c, n - 1) + [c]
  }

  function Indent(st: Style, depth: nat): Text
    requires st.Pretty?
  {
    Repeat(st.indentChar, depth * st.indentCount)
  }

  /** What Prefix and PrettyPrefix put before a value, `depth` levels being open. */
  function Lead(st: Style, lv: Level, depth: nat): Text {
    match st
    case Compact =>
      if lv.valueCount == 0 then []
      else if lv.inArray || lv.valueCount % 2 == 0 then [',' as int] else [':' as int]
    case Pretty(_, _, single) =>
      if lv.inArray then
        (if lv.valueCount > 0 then if single then [',' as int, ' ' as int] else [',' as int] else [])
        + (if single then [] else ['\n' as int] + Indent(st, depth))
      else if lv.valueCount % 2 == 1 then [':' as int, ' ' as int]
      else (if lv.valueCount > 0 then [',' as int] else []) + ['\n' as int] + Indent(st, depth)
  }

  /** What EndObject and EndArray put before the bracket, `depth` levels being left. */
  function Tail(st: Style, lv: Level, depth: nat): Text {
    if st.Compact? || lv.valueCount == 0 || (lv.inArray && st.singleLineArray) then []
    else ['\n' as int] + Indent(st, depth)
  }

  const NULL_TEXT: Text := ['n' as int, 'u' as int, 'l' as int, 'l' as int]
  const TRUE_TEXT: Text := ['t' as int, 'r' as int, 'u' as int, 'e' as int]
  const FALSE_TEXT: Text := ['f' as int, 'a' as int, 'l' as int, 's' as int, 'e' as int]

  function Render(st: Style, depth: nat, v: Value): Text
    requires WellFormed(v)
    decreases v, 0
  {
    match v
    case NullValue => NULL_TEXT
    case BoolValue(b) => if b then TRUE_TEXT else FALSE_TEXT
    case NumberValue(_, _) => SignedDecimal(IntegerOf(v))
    case StringValue(s) => Quoted(s)
    case ArrayValue(es) =>
      ['[' as int] + RenderElements(st, depth + 1, es, 0) + Tail(st, Level(|es|, true), depth) + [']' as int]
    case ObjectValue(ms) =>
      ['{' as int] + RenderMembers(st, depth + 1, ms, 0) + Tail(st, Level(2 * |ms|, false), depth) + ['}' as int]
  }

  /** The elements, the first of them being number `k` of its array. */
  function RenderElements(st: Style, depth: nat, es: seq<Value>, k: nat): Text
    requires AllWellFormed(es)
    decreases es, 1
  {
    if es == [] then []
    else Lead(st, Level(k, true), depth) + Render(st, depth, es[0]) + RenderElements(st, depth, es[1..], k + 1)
  }

  function RenderMembers(st: Style, depth: nat, ms: seq<Member>, k: nat): Text
    requires MembersWellFormed(ms)
    decreases ms, 1
  {
    if ms == [] then []
    else
      Lead(st, Level(2 * k, false), depth) + Quoted(ms[0].name)
      + Lead(st, Level(2 * k + 1, false), depth) + Render(st, depth, ms[0].value)
      + RenderMembers(st, depth, ms[1..], k + 1)
  }

  // ---------------------------------------------------------------- the writer

  function LeadTop(st: Style, levels: seq<Level>): Text {
    if levels == [] then [] else Lead(st, levels[|levels| - 1], |levels|)
  }

  /** One more value in the innermost level. */
  function Counted(levels: seq<Level>): (r: seq<Level>)
    ensures |r| == |levels|
  {
    if levels == [] then []
    else
      var top := levels[|levels| - 1];
      levels[..|levels| - 1] + [top.(valueCount := top.valueCount + 1)]
  }

  class Writer {
    const st: Style
    var os: Text
    var levels: seq<Level>
    var hasRoot: bool

    constructor (st: Style)
      ensures this.st == st && os == [] && levels == [] && !hasRoot
    {
      this.st, os, levels, hasRoot := st, [], [], false;
    }

    /** The writer may be told a value. */
    predicate Open()
      reads this
    {
      hasRoot == (levels != [])
    }

    /** Prefix: separators, line breaks and indentation, and the count of the level. */
    method Prefix()
      requires Open()
      modifies this
      ensures os == old(os) + LeadTop(st, old(levels))
      ensures levels == Counted(old(levels)) && hasRoot
    {
      if levels == [] {
        hasRoot := true;
        return;
      }
      var level := levels[|levels| - 1];
      if st.Compact? {
        if level.valueCount > 0 {
          os := os + [if level.inArray || level.valueCount % 2 == 0 then ',' as int else ':' as int];
        }
      } else if level.inArray {
        if level.valueCount > 0 {
          os := os + [',' as int];
          if st.singleLineArray {
            os := os + [' ' as int];
          }
        }
        if !st.singleLineArray {
          os := os + ['\n' as int];
          WriteIndent();
        }
      } else if level.valueCount % 2 == 1 {
        os := os + [':' as int];
        os := os + [' ' as int];
      } else {
        if level.valueCount > 0 {
          os := os + [',' as int];
        }
        os := os + ['\n' as int];
        WriteIndent();
      }
      levels := levels[..|levels| - 1] + [level.(valueCount := level.valueCount + 1)];
    }

    method WriteIndent()
      requires st.Pretty?
      modifies this`os
      ensures os == old(os) + Indent(st, |levels|)
    {
      var count := |levels| * st.indentCount;
      for i := 0 to count
        invariant os == old(os) + Repeat(st.indentChar, i)
      {
        os := os + [st.indentChar];
      }
    }

    method WriteByte(c: Byte)
      modifies this`os
      ensures os == old(os) + EscapedByte(c)
    {
      var e := EscapeLetter(c);
      if e != 0 {
        os := os + ['\\' as int, e];
        if e == 'u' as int {
          os := os + ['0' as int, '0' as int, UpperHex(c / 16), UpperHex(c % 16)];
        }
      } else {
        os := os + [c];
      }
    }

    method WriteString(s: Text)
      modifies this`os
      ensures os == old(os) + Quoted(s)
    {
      hide EscapedByte;
      os := os + ['"' as int];
      for i := 0 to |s|
        invariant os + Escaped(s[i..]) == old(os) + ['"' as int] + Escaped(s)
      {
        assert s[i..][0] == s[i] && s[i..][1..] == s[i + 1..];
        assert Escaped(s[i..]) == EscapedByte(s[i]) + Escaped(s[i + 1..]);
        ghost var before := os;
        WriteByte(s[i]);
        assert os + Escaped(s[i + 1..]) == before + (EscapedByte(s[i]) + Escaped(s[i + 1..]));
      }
      assert s[|s|..] == [] && s[0..] == s;
      assert os == old(os) + ['"' as int] + Escaped(s);
      os := os + ['"' as int];
      assert os == old(os) + Quoted(s);
    }

    /** String and Key. */
    method String(s: Text)
      requires Open()
      modifies this
      ensures os == old(os) + LeadTop(st, old(levels)) + Quoted(s)
      ensures levels == Counted(old(levels)) && hasRoot
    {
      Prefix();
      WriteString(s);
    }

    method Literal(word: Text)
      requires Open()
      modifies this
      ensures os == old(os) + LeadTop(st, old(levels)) + word
      ensures levels == Counted(old(levels)) && hasRoot
    {
      Prefix();
      os := os + word;
    }

    /** Int, Uint, Int64 and Uint64, by the type that Accept chooses. */
    method Number(e: Event)
      requires Open() && IsScalar(e) && (e.Int? || e.Uint? || e.Int64? || e.Uint64?)
      modifies this
      ensures os == old(os) + LeadTop(st, old(levels)) + SignedDecimal(NumberOf(e))
      ensures levels == Counted(old(levels)) && hasRoot
    {
      Prefix();
      var text;
      match e {
        case Int(i) => text := I32toa(i, os);
        case Uint(u) => text := U32toa(u, os);
        case Int64(i) => text := I64toa(i, os);
        case Uint64(u) => text := U64toa(u, os);
      }
      os := text;
    }

    method Start(inArray: bool)
      requires Open()
      modifies this
      ensures os == old(os) + LeadTop(st, old(levels)) + [if inArray then '[' as int else '{' as int]
      ensures levels == Counted(old(levels)) + [Level(0, inArray)] && hasRoot
    {
      Prefix();
      levels := levels + [Level(0, inArray)];
      os := os + [if inArray then '[' as int else '{' as int];
    }

    method End()
      requires levels != []
      modifies this`os, this`levels
      ensures levels == old(levels)[..|old(levels)| - 1]
      ensures var lv := old(levels)[|old(levels)| - 1];
              os == old(os) + Tail(st, lv, |old(levels)| - 1) + [if lv.inArray then ']' as int else '}' as int]
    {
      var lv := levels[|levels| - 1];
      levels := levels[..|levels| - 1];
      if st.Pretty? && lv.valueCount != 0 && !(lv.inArray && st.singleLineArray) {
        os := os + ['\n' as int];
        WriteIndent();
      }
      os := os + [if lv.inArray then ']' as int else '}' as int];
    }

    /** GenericValue::Accept with this writer as the handler. */
    method Accept(v: Value)
      requires Open() && WellFormed(v)
      modifies this
      ensures os == old(os) + LeadTop(st, old(levels)) + Render(st, |old(levels)|, v)
      ensures levels == Counted(old(levels)) && hasRoot
      decreases v
    {
      match v
      case NullValue => Literal(NULL_TEXT);
      case BoolValue(b) => Literal(if b then TRUE_TEXT else FALSE_TEXT);
      case NumberValue(_, _) =>
        NumberEventValue(IntegerOf(v));
        Number(NumberEvent(v));
      case StringValue(s) => String(s);
      case ArrayValue(es) => AcceptArray(es);
      case ObjectValue(ms) => AcceptObject(ms);
    }

    method AcceptArray(es: seq<Value>)
      requires Open() && AllWellFormed(es)
      modifies this
      ensures os == old(os) + LeadTop(st, old(levels)) + Render(st, |old(levels)|, ArrayValue(es))
      ensures levels == Counted(old(levels)) && hasRoot
      decreases es
    {
      hide Lead, Tail, Render, RenderElements, Counted, LeadTop;
      Start(true);
      ghost var begin, outer, d := os, Counted(old(levels)), |levels|;
      for i := 0 to |es|
        invariant levels == outer + [Level(i, true)] && |levels| == d && hasRoot
        invariant os + RenderElements(st, d, es[i..], i) == begin + RenderElements(st, d, es, 0)
      {
        ElementsStep(st, d, es, i);
        Innermost(st, outer, Level(i, true));
        ghost var before := os;
        Accept(es[i]);
        assert os + RenderElements(st, d, es[i + 1..], i + 1)
            == before + (Lead(st, Level(i, true), d) + Render(st, d, es[i]) + RenderElements(st, d, es[i + 1..], i + 1));
      }
      ArrayText(st, |old(levels)|, es);
      ghost var inner := RenderElements(st, d, es, 0);
      assert os == begin + inner;
      End();
      assert begin + inner + Tail(st, Level(|es|, true), d - 1) + [']' as int]
          == old(os) + LeadTop(st, old(levels)) + (['[' as int] + inner + Tail(st, Level(|es|, true), d - 1) + [']' as int]);
    }

    method AcceptObject(ms: seq<Member>)
      requires Open() && MembersWellFormed(ms)
      modifies this
      ensures os == old(os) + LeadTop(st, old(levels)) + Render(st, |old(levels)|, ObjectValue(ms))
      ensures levels == Counted(old(levels)) && hasRoot
      decreases ms
    {
      hide Lead, Tail, Render, RenderMembers, Counted, LeadTop, Quoted;
      Start(false);
      ghost var begin, outer, d := os, Counted(old(levels)), |levels|;
      for i := 0 to |ms|
        invariant levels == outer + [Level(2 * i, false)] && |levels| == d && hasRoot
        invariant os + RenderMembers(st, d, ms[i..], i) == begin + RenderMembers(st, d, ms, 0)
      {
        MembersStep(st, d, ms, i);
        Innermost(st, outer, Level(2 * i, false));
        Innermost(st, outer, Level(2 * i + 1, false));
        ghost var before := os;
        String(ms[i].name);
        Accept(ms[i].value);
        assert os + RenderMembers(st, d, ms[i + 1..], i + 1) == before + RenderMembers(st, d, ms[i..], i);
      }
      ObjectText(st, |old(levels)|, ms);
      ghost var inner := RenderMembers(st, d, ms, 0);
      assert os == begin + inner;
      End();
      assert begin + inner + Tail(st, Level(2 * |ms|, false), d - 1) + ['}' as int]
          == old(os) + LeadTop(st, old(levels)) + (['{' as int] + inner + Tail(st, Level(2 * |ms|, false), d - 1) + ['}' as int]);
    }
  }

  /** The innermost level is the one that leads and counts. */
  lemma Innermost(st: Style, outer: seq<Level>, lv: Level)
    ensures LeadTop(st, outer + [lv]) == Lead(st, lv, |outer| + 1)
    ensures Counted(outer + [lv]) == outer + [lv.(valueCount := lv.valueCount + 1)]
  {
    var levels := outer + [lv];
    assert levels[|levels| - 1] == lv && levels[..|levels| - 1] == outer;
  }

  lemma ElementsStep(st: Style, d: nat, es: seq<Value>, i: nat)
    requires AllWellFormed(es) && i < |es|
    ensures RenderElements(st, d, es[i..], i)
            == Lead(st, Level(i, true), d) + Render(st, d, es[i]) + RenderElements(st, d, es[i + 1..], i + 1)
  {
    assert es[i..][0] == es[i] && es[i..][1..] == es[i + 1..];
  }

  lemma MembersStep(st: Style, d: nat, ms: seq<Member>, i: nat)
    requires MembersWellFormed(ms) && i < |ms|
    ensures RenderMembers(st, d, ms[i..], i)
            == Lead(st, Level(2 * i, false), d) + Quoted(ms[i].name)
               + Lead(st, Level(2 * i + 1, false), d) + Render(st, d, ms[i].value)
               + RenderMembers(st, d, ms[i + 1..], i + 1)
  {
    assert ms[i..][0] == ms[i] && ms[i..][1..] == ms[i + 1..];
  }

  lemma ArrayText(st: Style, depth: nat, es: seq<Value>)
    requires AllWellFormed(es)
    ensures Render(st, depth, ArrayValue(es))
            == ['[' as int] + RenderElements(st, depth + 1, es, 0) + Tail(st, Level(|es|, true), depth) + [']' as int]
    ensures RenderElements(st, depth + 1, es[|es|..], |es|) == []
  {
    hide Tail;
    assert es[|es|..] == [];
  }

  lemma ObjectText(st: Style, depth: nat, ms: seq<Member>)
    requires MembersWellFormed(ms)
    ensures Render(st, depth, ObjectValue(ms))
            == ['{' as int] + RenderMembers(st, depth + 1, ms, 0) + Tail(st, Level(2 * |ms|, false), depth) + ['}' as int]
    ensures RenderMembers(st, depth + 1, ms[|ms|..], |ms|) == []
  {
    hide Tail;
    assert ms[|ms|..] == [];
  }

  function NumberOf(e: Event): int
    requires e.Int? || e.Uint? || e.Int64? || e.Uint64?
  {
    match e
    case Int(i) => i
    case Uint(u) => u
    case Int64(i) => i
    case Uint64(u) => u
  }
}
