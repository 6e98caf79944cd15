/**
 Where white space stands in the texts of the writers (rapidjson/writer.h, rapidjson/prettywriter.h),
 told from the characters alone: quotation marks, brackets, commas and colons.
 */
module TextShape {
  import opened Sax
  import opened Rfc8259
  import D = Dom
  import W = JsonWriter
  import R = RoundTrip
  import Scan
  import Itoa

  // ---------------------------------------------------------------- reading characters in order

  /** Outside quoted strings, inside one, or behind a backslash in one. */
  datatype Quoting = Outside | Inside | Behind

  /** What the characters read so far leave open: a quoted string, and brackets. */
  datatype Context = Context(q: Quoting, open: Text)

  predicate Opens(c: int) { c == BEGIN_ARRAY || c == BEGIN_OBJECT }
  predicate Closes(c: int) { c == END_ARRAY || c == END_OBJECT }

  function Read(x: Context, c: Byte): Context {
    match x.q
    case Behind => x.(q := Inside)
    case Inside => if c == ESCAPE then x.(q := Behind) else if c == QUOTATION_MARK then x.(q := Outside) else x
    case Outside =>
      if c == QUOTATION_MARK then x.(q := Inside)
      else if Opens(c) then x.(open := x.open + [c])
      else if Closes(c) && x.open != [] then x.(open := x.open[..|x.open| - 1])
      else x
  }

  /** The context before character `i` of a text. */
  function Before(x: Context, s: Text, i: nat): Context
    requires i <= |s|
    decreases i
  {
    if i == 0 then x else Before(Read(x, s[0]), s[1..], i - 1)
  }

  const TOP := Context(Outside, [])

  /** No white space stands outside quoted strings. */
  predicate Tight(x: Context, s: Text) {
    forall i :: 0 <= i < |s| && Before(x, s, i).q.Outside? ==> !IsWs(s[i])
  }

  /** The text without the white space outside quoted strings. */
  function Stripped(x: Context, s: Text): Text
    decreases |s|
  {
    if s == [] then []
    else (if x.q.Outside? && IsWs(s[0]) then [] else [s[0]]) + Stripped(Read(x, s[0]), s[1..])
  }

  // ---------------------------------------------------------------- where white space belongs

  /** The innermost open bracket puts its parts on lines of their own. */
  predicate Breaks(st: W.Style, open: Text)
    requires st.Pretty?
  {
    !(st.singleLineArray && open != [] && open[|open| - 1] == BEGIN_ARRAY)
  }

  /** A new line inside `n` brackets. */
  function NewLine(st: W.Style, n: nat): Text
    requires st.Pretty?
  {
    [0x0A] + seq(n * st.indentCount, _ => st.indentChar)
  }

  /**
   The white space between two neighbouring characters `c` and `next` of a compact text, `open` being
   the brackets open between them:
   a line before a closing bracket, one bracket further out, unless nothing is between the brackets;
   a line behind an opening bracket; a line or, in an array on a single line, a blank behind a comma;
   a blank behind a colon.
   */
  function Gap(st: W.Style, open: Text, c: Byte, next: Byte): Text
    requires st.Pretty?
  {
    if next == 0 then []
    else if Closes(next) then
      if Opens(c) || !Breaks(st, open) || open == [] then [] else NewLine(st, |open| - 1)
    else if Opens(c) then
      if Breaks(st, open) then NewLine(st, |open|) else []
    else if c == VALUE_SEPARATOR then
      if Breaks(st, open) then NewLine(st, |open|) else [0x20]
    else if c == NAME_SEPARATOR then [0x20]
    else []
  }

  function GapIn(st: W.Style, x: Context, c: Byte, next: Byte): Text
    requires st.Pretty?
  {
    if x.q.Outside? then Gap(st, x.open, c, next) else []
  }

  /** A compact text with the gaps filled in. */
  function Spaced(st: W.Style, x: Context, s: Text): Text
    requires st.Pretty?
    decreases |s|
  {
    if s == [] then []
    else [s[0]] + GapIn(st, Read(x, s[0]), s[0], Peek(s, 1)) + Spaced(st, Read(x, s[0]), s[1..])
  }

  // ---------------------------------------------------------------- tight texts

  lemma TightStep(x: Context, c: Byte, s: Text)
    ensures Tight(x, [c] + s) <==> (x.q.Outside? ==> !IsWs(c)) && Tight(Read(x, c), s)
  {
    var cs := [c] + s;
    assert cs[1..] == s;
    if Tight(x, cs) {
      assert Before(x, cs, 0) == x;
      forall i | 0 <= i < |s| && Before(Read(x, c), s, i).q.Outside?
        ensures !IsWs(s[i])
      {
        assert Before(x, cs, i + 1) == Before(Read(x, c), s, i) && cs[i + 1] == s[i];
      }
    }
    if (x.q.Outside? ==> !IsWs(c)) && Tight(Read(x, c), s) {
      forall i | 0 <= i < |cs| && Before(x, cs, i).q.Outside?
        ensures !IsWs(cs[i])
      {
        if i > 0 {
          assert Before(x, cs, i) == Before(Read(x, c), s, i - 1) && cs[i] == s[i - 1];
        }
      }
    }
  }

  lemma SpacedStep(st: W.Style, x: Context, c: Byte, s: Text)
    requires st.Pretty?
    ensures Spaced(st, x, [c] + s) == [c] + GapIn(st, Read(x, c), c, Peek(s, 0)) + Spaced(st, Read(x, c), s)
  {
    assert ([c] + s)[1..] == s && Peek([c] + s, 1) == Peek(s, 0);
  }

  // ---------------------------------------------------------------- stripping undoes spacing

  lemma {:induction false} StripBlank(x: Context, w: Text, s: Text)
    requires x.q.Outside? && AllWs(w)
    ensures Stripped(x, w + s) == Stripped(x, s)
    decreases |w|
  {
    if w == [] {
      assert w + s == s;
    } else {
      assert w + s == [w[0]] + (w[1..] + s);
      assert ([w[0]] + (w[1..] + s))[1..] == w[1..] + s;
      assert Read(x, w[0]) == x;
      StripBlank(x, w[1..], s);
    }
  }

  lemma GapIsBlank(st: W.Style, x: Context, c: Byte, next: Byte)
    requires st.Pretty? && W.ValidStyle(st)
    ensures AllWs(GapIn(st, x, c, next))
  {
  }

  /** Without the white space outside quoted strings a spaced text is the compact text. */
  lemma {:induction false} StripSpaced(st: W.Style, x: Context, s: Text)
    requires st.Pretty? && W.ValidStyle(st) && Tight(x, s)
    ensures Stripped(x, Spaced(st, x, s)) == s
    decreases |s|
  {
    hide Tight, IsWs, Spaced, Read, AllWs, GapIn, Stripped;
    if s != [] {
      var c, rest, y := s[0], s[1..], Read(x, s[0]);
      assert s == [c] + rest;
      TightStep(x, c, rest);
      SpacedStep(st, x, c, rest);
      StripSpaced(st, y, rest);
      var gap, tail := GapIn(st, y, c, Peek(rest, 0)), Spaced(st, y, rest);
      Grouped([c], gap, tail);
      StripStep(x, c, gap + tail);
      StripGap(st, y, c, Peek(rest, 0), tail);
    } else {
      NothingSpaced(st, x);
    }
  }

  lemma NothingSpaced(st: W.Style, x: Context)
    requires st.Pretty?
    ensures Spaced(st, x, []) == [] && Stripped(x, []) == []
  {
  }

  lemma StripGap(st: W.Style, y: Context, c: Byte, next: Byte, tail: Text)
    requires st.Pretty? && W.ValidStyle(st)
    ensures Stripped(y, GapIn(st, y, c, next) + tail) == Stripped(y, tail)
  {
    GapIsBlank(st, y, c, next);
    hide Stripped, AllWs, Gap;
    if y.q.Outside? {
      StripBlank(y, GapIn(st, y, c, next), tail);
    } else {
      assert [] + tail == tail;
    }
  }

  lemma StripStep(x: Context, c: Byte, s: Text)
    ensures Stripped(x, [c] + s)
            == (if x.q.Outside? && IsWs(c) then [] else [c]) + Stripped(Read(x, c), s)
  {
    assert ([c] + s)[1..] == s;
  }

  // ---------------------------------------------------------------- the parts of a compact text

  /** What follows a value: the gap, and the rest of the text. */
  function After(st: W.Style, x: Context, r: Text): Text
    requires st.Pretty?
  {
    GapIn(st, x, QUOTATION_MARK, Peek(r, 0)) + Spaced(st, x, r)
  }

  /** The compact text `a` of a value, with `r` behind it, is spaced as `b`. */
  predicate Laid(st: W.Style, x: Context, a: Text, b: Text, r: Text)
    requires st.Pretty?
  {
    Spaced(st, x, a + r) == b + After(st, x, r) && (Tight(x, r) ==> Tight(x, a + r))
  }

  /** A character of a literal or a number. */
  predicate IsPlain(c: int) {
    !IsWs(c) && !Opens(c) && !Closes(c) && c != QUOTATION_MARK && c != VALUE_SEPARATOR && c != NAME_SEPARATOR
  }

  lemma PlainStep(st: W.Style, x: Context, c: Byte, s: Text)
    requires st.Pretty? && x.q.Outside? && IsPlain(c)
    ensures Laid(st, x, [c], [c], s)
  {
    SpacedStep(st, x, c, s);
    TightStep(x, c, s);
    assert Read(x, c) == x;
    hide Tight, Spaced;
    Grouped([c], GapIn(st, x, QUOTATION_MARK, Peek(s, 0)), Spaced(st, x, s));
  }

  lemma Grouped(a: Text, b: Text, c: Text)
    ensures (a + b) + c == a + (b + c)
  {
  }

  /** No gap stands before a character that closes nothing. */
  lemma NoGap(st: W.Style, x: Context, r: Text)
    requires st.Pretty? && !Closes(Peek(r, 0))
    ensures After(st, x, r) == Spaced(st, x, r)
  {
    hide Spaced;
    assert [] + Spaced(st, x, r) == Spaced(st, x, r);
  }

  lemma {:induction false} WordLaid(st: W.Style, x: Context, w: Text, r: Text)
    requires st.Pretty? && x.q.Outside? && w != [] && forall i :: 0 <= i < |w| ==> IsPlain(w[i])
    ensures Laid(st, x, w, w, r)
    decreases |w|
  {
    hide Tight, Spaced, After, GapIn, IsWs, Read;
    var c, rest := w[0], w[1..] + r;
    Grouped([c], w[1..], r);
    assert [c] + w[1..] == w;
    PlainStep(st, x, c, rest);
    if |w| == 1 {
      assert rest == r && w == [c];
    } else {
      WordLaid(st, x, w[1..], r);
      assert IsPlain(w[1]) && Peek(rest, 0) == w[1];
      NoGap(st, x, rest);
      Grouped([c], w[1..], After(st, x, r));
    }
  }

  /** The characters of a string between its quotes are neither moved nor stripped. */
  lemma {:induction false} CopiedInside(st: W.Style, y: Context, u: Text, r: Text)
    requires st.Pretty? && y.q.Inside? && forall i :: 0 <= i < |u| ==> u[i] != QUOTATION_MARK && u[i] != ESCAPE
    ensures Spaced(st, y, u + r) == u + Spaced(st, y, r)
    ensures Tight(y, r) ==> Tight(y, u + r)
    decreases |u|
  {
    hide Tight, Spaced, GapIn;
    if u == [] {
      assert u + r == r && u + Spaced(st, y, r) == Spaced(st, y, r);
    } else {
      var rest := u[1..] + r;
      assert [u[0]] + u[1..] == u;
      Grouped([u[0]], u[1..], r);
      InsideStep(st, y, u[0], rest);
      CopiedInside(st, y, u[1..], r);
      Grouped([u[0]], u[1..], Spaced(st, y, r));
    }
  }

  /** Inside a string no gap is filled in. */
  lemma InsideStep(st: W.Style, y: Context, c: Byte, s: Text)
    requires st.Pretty? && !y.q.Outside? && !Read(y, c).q.Outside?
    ensures Spaced(st, y, [c] + s) == [c] + Spaced(st, Read(y, c), s)
    ensures Tight(Read(y, c), s) ==> Tight(y, [c] + s)
  {
    hide Tight, Spaced, Read;
    SpacedStep(st, y, c, s);
    TightStep(y, c, s);
    assert [c] + [] == [c];
  }

  lemma EscapedByteCopied(st: W.Style, y: Context, c: Byte, r: Text)
    requires st.Pretty? && y.q.Inside?
    ensures Spaced(st, y, W.EscapedByte(c) + r) == W.EscapedByte(c) + Spaced(st, y, r)
    ensures Tight(y, r) ==> Tight(y, W.EscapedByte(c) + r)
  {
    hide Tight, Spaced, GapIn;
    var u := W.EscapedByte(c);
    if W.EscapeLetter(c) == 0 {
      CopiedInside(st, y, u, r);
    } else {
      var z, e, v := Read(y, ESCAPE), u[1], u[2..];
      InsideStep(st, y, ESCAPE, [e] + (v + r));
      InsideStep(st, z, e, v + r);
      CopiedInside(st, y, v, r);
      assert u == [ESCAPE] + ([e] + v);
      EscapeGrouped(e, v, r);
      EscapeGrouped(e, v, Spaced(st, y, r));
    }
  }

  lemma EscapeGrouped(e: Byte, v: Text, r: Text)
    ensures ([ESCAPE] + ([e] + v)) + r == [ESCAPE] + ([e] + (v + r))
  {
  }

  /** The rest of a string, its closing quotation mark included. */
  lemma {:induction false} BodyLaid(st: W.Style, x: Context, s: Text, r: Text)
    requires st.Pretty? && x.q.Outside?
    ensures var y, end := x.(q := Inside), [QUOTATION_MARK];
            && Spaced(st, y, W.Escaped(s) + (end + r)) == W.Escaped(s) + (end + After(st, x, r))
            && (Tight(x, r) ==> Tight(y, W.Escaped(s) + (end + r)))
    decreases |s|
  {
    hide Tight, Spaced, W.EscapedByte, GapIn;
    var y, end := x.(q := Inside), [QUOTATION_MARK];
    if s == [] {
      assert W.Escaped(s) == [] && [] + (end + r) == end + r && [] + (end + After(st, x, r)) == end + After(st, x, r);
      SpacedStep(st, y, QUOTATION_MARK, r);
      TightStep(y, QUOTATION_MARK, r);
      Grouped(end, GapIn(st, x, QUOTATION_MARK, Peek(r, 0)), Spaced(st, x, r));
    } else {
      hide After, Read;
      var u, rest := W.EscapedByte(s[0]), W.Escaped(s[1..]);
      BodyLaid(st, x, s[1..], r);
      EscapedByteCopied(st, y, s[0], rest + (end + r));
      Grouped(u, rest, end + r);
      Grouped(u, rest, end + After(st, x, r));
    }
  }

  lemma StringLaid(st: W.Style, x: Context, s: Text, r: Text)
    requires st.Pretty? && x.q.Outside?
    ensures Laid(st, x, W.Quoted(s), W.Quoted(s), r)
  {
    hide Tight, Spaced, After, W.Escaped;
    var y, end := x.(q := Inside), [QUOTATION_MARK];
    var rest := W.Escaped(s) + (end + r);
    QuotedGrouped(s, r);
    QuotedGrouped(s, After(st, x, r));
    SpacedStep(st, x, QUOTATION_MARK, rest);
    TightStep(x, QUOTATION_MARK, rest);
    assert end + [] == end;
    BodyLaid(st, x, s, r);
  }

  lemma QuotedGrouped(s: Text, r: Text)
    ensures W.Quoted(s) + r == [QUOTATION_MARK] + (W.Escaped(s) + ([QUOTATION_MARK] + r))
  {
    hide W.Escaped;
  }

  // ---------------------------------------------------------------- brackets, commas and colons

  lemma NewLineIsIndent(st: W.Style, n: nat)
    requires st.Pretty?
    ensures NewLine(st, n) == ['\n' as int] + W.Indent(st, n)
  {
  }

  function Within(x: Context, bracket: Byte): Context { x.(open := x.open + [bracket]) }

  function Close(bracket: Byte): Byte { if bracket == BEGIN_ARRAY then END_ARRAY else END_OBJECT }

  /** A closing bracket behind at least one part. */
  lemma CloseStep(st: W.Style, x: Context, bracket: Byte, n: nat, r: Text)
    requires st.Pretty? && x.q.Outside? && Opens(bracket) && n > 0
    ensures var y, end := Within(x, bracket), [Close(bracket)];
            && After(st, y, end + r)
               == W.Tail(st, W.Level(n, bracket == BEGIN_ARRAY), |x.open|) + (end + After(st, x, r))
            && (Tight(x, r) ==> Tight(y, end + r))
  {
    hide Spaced, Tight, Gap, Read, IsWs, W.Tail;
    var y, c := Within(x, bracket), Close(bracket);
    ReadBrackets(x, bracket);
    SpacedStep(st, y, c, r);
    TightStep(y, c, r);
    ValueGap(st, x.open, c, Peek(r, 0));
    TailGap(st, y.open, n);
    assert y.open[..|y.open| - 1] == x.open;
    Grouped([c], GapIn(st, x, QUOTATION_MARK, Peek(r, 0)), Spaced(st, x, r));
  }

  /** What stands before a closing bracket is the gap there. */
  lemma TailGap(st: W.Style, open: Text, n: nat)
    requires st.Pretty? && n > 0 && open != [] && Opens(open[|open| - 1])
    ensures var bracket := open[|open| - 1];
            W.Tail(st, W.Level(n, bracket == BEGIN_ARRAY), |open| - 1) == Gap(st, open, QUOTATION_MARK, Close(bracket))
  {
    NewLineIsIndent(st, |open| - 1);
    hide NewLine, W.Indent;
  }

  lemma ReadBrackets(x: Context, bracket: Byte)
    requires x.q.Outside? && Opens(bracket)
    ensures var y := Within(x, bracket);
            Read(x, bracket) == y && Read(y, Close(bracket)) == x && y.open != [] && y.open[|y.open| - 1] == bracket
    ensures !IsWs(bracket) && !IsWs(Close(bracket))
  {
  }

  /** Brackets with nothing between them. */
  lemma EmptyLaid(st: W.Style, x: Context, bracket: Byte, r: Text)
    requires st.Pretty? && x.q.Outside? && Opens(bracket)
    ensures Laid(st, x, [bracket, Close(bracket)], [bracket, Close(bracket)], r)
  {
    hide Spaced, Tight, Gap, Read, IsWs;
    var y, c := Within(x, bracket), Close(bracket);
    ReadBrackets(x, bracket);
    Adjacent(bracket, c, r);
    Adjacent(bracket, c, After(st, x, r));
    SpacedStep(st, x, bracket, [c] + r);
    TightStep(x, bracket, [c] + r);
    SpacedStep(st, y, c, r);
    TightStep(y, c, r);
    EmptyGap(st, y.open, bracket);
    ValueGap(st, x.open, c, Peek(r, 0));
    Grouped([c], GapIn(st, x, QUOTATION_MARK, Peek(r, 0)), Spaced(st, x, r));
    assert [bracket] + [] == [bracket];
  }

  lemma Adjacent(b: Byte, c: Byte, r: Text)
    ensures [b, c] + r == [b] + ([c] + r)
  {
    assert [b, c] == [b] + [c];
  }

  lemma EmptyGap(st: W.Style, open: Text, bracket: Byte)
    requires st.Pretty? && Opens(bracket)
    ensures Gap(st, open, bracket, Close(bracket)) == []
  {
  }

  /** The gap behind a value depends on its last character no further. */
  lemma ValueGap(st: W.Style, open: Text, c: Byte, next: Byte)
    requires st.Pretty? && !Opens(c) && c != VALUE_SEPARATOR && c != NAME_SEPARATOR
    ensures Gap(st, open, c, next) == Gap(st, open, QUOTATION_MARK, next)
  {
  }

  /** What leads a value is its separator and the gap behind that. */
  lemma LeadGap(st: W.Style, open: Text, k: nat, next: Byte)
    requires st.Pretty? && open != [] && R.StartsValue(next)
    ensures var inArray := open[|open| - 1] == BEGIN_ARRAY;
            if k == 0 then Opens(open[|open| - 1]) ==> W.Lead(st, W.Level(k, inArray), |open|) == Gap(st, open, open[|open| - 1], next)
            else
              var c := if inArray || k % 2 == 0 then VALUE_SEPARATOR else NAME_SEPARATOR;
              && W.Lead(W.Compact, W.Level(k, inArray), |open|) == [c]
              && W.Lead(st, W.Level(k, inArray), |open|) == [c] + Gap(st, open, c, next)
  {
    hide NewLine, W.Indent;
    NewLineIsIndent(st, |open|);
    assert !Closes(next) && next != 0;
  }

  /** The opening bracket and what leads the first part. */
  lemma OpenStep(st: W.Style, x: Context, bracket: Byte, s: Text)
    requires st.Pretty? && x.q.Outside? && Opens(bracket) && s != [] && R.StartsValue(s[0])
    ensures var y, lead := Within(x, bracket), W.Lead(st, W.Level(0, bracket == BEGIN_ARRAY), |x.open| + 1);
            && Spaced(st, x, [bracket] + s) == [bracket] + (lead + Spaced(st, y, s))
            && (Tight(y, s) ==> Tight(x, [bracket] + s))
  {
    hide Spaced, Tight, Gap, Read, W.Lead, IsWs;
    var y := Within(x, bracket);
    ReadBrackets(x, bracket);
    SpacedStep(st, x, bracket, s);
    TightStep(x, bracket, s);
    LeadGap(st, y.open, 0, s[0]);
    Grouped([bracket], GapIn(st, y, bracket, s[0]), Spaced(st, y, s));
  }

  /** A comma or a colon and what leads the next part, `k` parts of the innermost level being before it. */
  lemma SeparatorStep(st: W.Style, x: Context, bracket: Byte, k: nat, s: Text)
    requires st.Pretty? && x.q.Outside? && Opens(bracket) && k > 0 && s != [] && R.StartsValue(s[0])
    ensures var y, lv := Within(x, bracket), W.Level(k, bracket == BEGIN_ARRAY);
            && After(st, y, W.Lead(W.Compact, lv, |y.open|) + s) == W.Lead(st, lv, |y.open|) + Spaced(st, y, s)
            && (Tight(y, s) ==> Tight(y, W.Lead(W.Compact, lv, |y.open|) + s))
  {
    hide Spaced, Tight, Gap, Read, W.Lead, IsWs, After;
    var y := Within(x, bracket);
    var c := if bracket == BEGIN_ARRAY || k % 2 == 0 then VALUE_SEPARATOR else NAME_SEPARATOR;
    ReadBrackets(x, bracket);
    SpacedStep(st, y, c, s);
    TightStep(y, c, s);
    SeparatorRead(y, c);
    LeadGap(st, y.open, k, s[0]);
    NoGap(st, y, [c] + s);
  }

  lemma SeparatorRead(y: Context, c: Byte)
    requires y.q.Outside? && (c == VALUE_SEPARATOR || c == NAME_SEPARATOR)
    ensures Read(y, c) == y && !IsWs(c)
  {
  }

  // ---------------------------------------------------------------- values

  lemma {:induction false} ValueLaid(st: W.Style, x: Context, v: D.Value, r: Text)
    requires st.Pretty? && x.q.Outside? && D.WellFormed(v)
    ensures Laid(st, x, W.Render(W.Compact, |x.open|, v), W.Render(st, |x.open|, v), r)
    decreases v, 5
  {
    match v {
      case ArrayValue(es) => ArrayLaid(st, x, es, r);
      case ObjectValue(ms) => ObjectLaid(st, x, ms, r);
      case _ => ScalarLaid(st, x, v, r);
    }
  }

  lemma ScalarLaid(st: W.Style, x: Context, v: D.Value, r: Text)
    requires st.Pretty? && x.q.Outside? && D.WellFormed(v) && !v.ArrayValue? && !v.ObjectValue?
    ensures Laid(st, x, W.Render(W.Compact, |x.open|, v), W.Render(st, |x.open|, v), r)
  {
    hide Laid;
    if v.StringValue? {
      StringLaid(st, x, v.s, r);
    } else {
      if v.NumberValue? {
        Itoa.DecimalIsDigits(D.Magnitude(D.IntegerOf(v)));
        PlainNumber(D.IntegerOf(v));
      }
      WordLaid(st, x, W.Render(st, |x.open|, v), r);
    }
  }

  lemma PlainNumber(n: int)
    ensures var w := Itoa.SignedDecimal(n); w != [] && forall i :: 0 <= i < |w| ==> IsPlain(w[i])
  {
    var w := Itoa.SignedDecimal(n);
    Itoa.DecimalIsDigits(D.Magnitude(n));
    forall i | 0 <= i < |w|
      ensures IsPlain(w[i])
    {
      assert w[i] in w;
      assert w[i] == '-' as int || Scan.IsDigit(w[i]);
    }
  }

  lemma {:induction false} ArrayLaid(st: W.Style, x: Context, es: seq<D.Value>, r: Text)
    requires st.Pretty? && x.q.Outside? && D.AllWellFormed(es)
    ensures var v := D.ArrayValue(es); Laid(st, x, W.Render(W.Compact, |x.open|, v), W.Render(st, |x.open|, v), r)
    decreases es, 4
  {
    hide Spaced, Tight, After, W.Lead, W.Render, W.RenderElements, W.Tail;
    var d, v := |x.open| + 1, D.ArrayValue(es);
    W.ArrayText(W.Compact, |x.open|, es);
    W.ArrayText(st, |x.open|, es);
    NoTail(W.Level(|es|, true), |x.open|);
    if es == [] {
      NothingInside(st, |x.open|, true);
      EmptyLaid(st, x, BEGIN_ARRAY, r);
      assert [BEGIN_ARRAY] + [] + [] + [END_ARRAY] == [BEGIN_ARRAY, END_ARRAY];
    } else {
      var y, end := Within(x, BEGIN_ARRAY), [END_ARRAY];
      var first, rest := W.Render(W.Compact, d, es[0]), W.RenderElements(W.Compact, d, es[1..], 1);
      FirstElement(W.Compact, d, es);
      FirstElement(st, d, es);
      R.RenderHead(W.Compact, d, es[0]);
      OpenStep(st, x, BEGIN_ARRAY, first + (rest + (end + r)));
      ValueLaid(st, y, es[0], rest + (end + r));
      ElementsLaid(st, x, es[1..], 1, |es|, r);
      CompactBrackets(BEGIN_ARRAY, first, rest, end, r);
      Brackets(BEGIN_ARRAY, W.Lead(st, W.Level(0, true), d), W.Render(st, d, es[0]), W.RenderElements(st, d, es[1..], 1),
               W.Tail(st, W.Level(|es|, true), |x.open|), end, After(st, x, r));
    }
  }

  lemma NoTail(lv: W.Level, d: nat)
    ensures W.Tail(W.Compact, lv, d) == []
  {
  }

  lemma NothingInside(st: W.Style, d: nat, inArray: bool)
    ensures W.RenderElements(st, d + 1, [], 0) == [] && W.RenderMembers(st, d + 1, [], 0) == []
    ensures W.Tail(st, W.Level(0, inArray), d) == []
    ensures W.RenderElements(W.Compact, d + 1, [], 0) == [] && W.RenderMembers(W.Compact, d + 1, [], 0) == []
  {
  }

  lemma FirstElement(st: W.Style, d: nat, es: seq<D.Value>)
    requires D.AllWellFormed(es) && es != []
    ensures W.RenderElements(st, d, es, 0)
            == W.Lead(st, W.Level(0, true), d) + W.Render(st, d, es[0]) + W.RenderElements(st, d, es[1..], 1)
    ensures W.Lead(W.Compact, W.Level(0, true), d) == []
  {
    hide W.Render;
  }

  lemma Brackets(b: Byte, lead: Text, first: Text, rest: Text, tail: Text, end: Text, r: Text)
    ensures ([b] + (lead + first + rest) + tail + end) + r == [b] + (lead + (first + (rest + (tail + (end + r)))))
  {
  }

  lemma CompactBrackets(b: Byte, first: Text, rest: Text, end: Text, r: Text)
    ensures ([b] + ([] + first + rest) + [] + end) + r == [b] + (first + (rest + (end + r)))
  {
  }

  lemma Grouped4(a: Text, b: Text, c: Text, z: Text)
    ensures (a + b + c) + z == a + (b + (c + z))
  {
  }

  /** The elements from number `k` of `n` on, with the closing bracket. */
  lemma {:induction false} ElementsLaid(st: W.Style, x: Context, es: seq<D.Value>, k: nat, n: nat, r: Text)
    requires st.Pretty? && x.q.Outside? && D.AllWellFormed(es) && k > 0 && n > 0
    ensures var y, end, d := Within(x, BEGIN_ARRAY), [END_ARRAY], |x.open| + 1;
            && After(st, y, W.RenderElements(W.Compact, d, es, k) + (end + r))
               == W.RenderElements(st, d, es, k) + (W.Tail(st, W.Level(n, true), |x.open|) + (end + After(st, x, r)))
            && (Tight(x, r) ==> Tight(y, W.RenderElements(W.Compact, d, es, k) + (end + r)))
    decreases es, 3
  {
    hide Spaced, Tight, After, W.Lead, W.Render, W.Tail;
    var y, end, d := Within(x, BEGIN_ARRAY), [END_ARRAY], |x.open| + 1;
    var last := W.Tail(st, W.Level(n, true), |x.open|) + (end + After(st, x, r));
    if es == [] {
      CloseStep(st, x, BEGIN_ARRAY, n, r);
      assert [] + (end + r) == end + r && [] + last == last;
    } else {
      var lv, rest := W.Level(k, true), W.RenderElements(W.Compact, d, es[1..], k + 1) + (end + r);
      var first := W.Render(W.Compact, d, es[0]);
      R.RenderHead(W.Compact, d, es[0]);
      SeparatorStep(st, x, BEGIN_ARRAY, k, first + rest);
      ValueLaid(st, y, es[0], rest);
      ElementsLaid(st, x, es[1..], k + 1, n, r);
      Grouped4(W.Lead(W.Compact, lv, d), first, W.RenderElements(W.Compact, d, es[1..], k + 1), end + r);
      Grouped4(W.Lead(st, lv, d), W.Render(st, d, es[0]), W.RenderElements(st, d, es[1..], k + 1), last);
    }
  }

  // ---------------------------------------------------------------- objects

  /** A member: its name, the colon, its value. */
  function MemberText(st: W.Style, d: nat, m: D.Member): Text
    requires D.WellFormed(m.value)
  {
    W.Quoted(m.name) + (W.Lead(st, W.Level(1, false), d) + W.Render(st, d, m.value))
  }

  lemma FirstMember(st: W.Style, d: nat, ms: seq<D.Member>, k: nat)
    requires D.MembersWellFormed(ms) && ms != []
    ensures W.RenderMembers(st, d, ms, k)
            == W.Lead(st, W.Level(2 * k, false), d) + MemberText(st, d, ms[0]) + W.RenderMembers(st, d, ms[1..], k + 1)
  {
    hide W.Render, W.Quoted;
    assert W.Lead(st, W.Level(2 * k + 1, false), d) == W.Lead(st, W.Level(1, false), d);
    hide W.Lead;
    var a, b, c, e := W.Lead(st, W.Level(2 * k, false), d), W.Quoted(ms[0].name), W.Lead(st, W.Level(1, false), d),
      W.Render(st, d, ms[0].value);
    assert a + b + c + e == a + (b + (c + e));
  }

  lemma MemberHead(st: W.Style, d: nat, m: D.Member)
    requires D.WellFormed(m.value)
    ensures MemberText(st, d, m) != [] && R.StartsValue(MemberText(st, d, m)[0])
  {
    hide W.Escaped, W.Render, W.Lead;
  }

  lemma {:induction false} MemberLaid(st: W.Style, x: Context, m: D.Member, r: Text)
    requires st.Pretty? && x.q.Outside? && D.WellFormed(m.value)
    ensures var y := Within(x, BEGIN_OBJECT);
            Laid(st, y, MemberText(W.Compact, |y.open|, m), MemberText(st, |y.open|, m), r)
    decreases m, 3
  {
    hide Spaced, Tight, After, W.Lead, W.Render, W.Quoted;
    var y := Within(x, BEGIN_OBJECT);
    var d, lv, name := |y.open|, W.Level(1, false), W.Quoted(m.name);
    var value := W.Render(W.Compact, d, m.value);
    R.RenderHead(W.Compact, d, m.value);
    StringLaid(st, y, m.name, W.Lead(W.Compact, lv, d) + (value + r));
    SeparatorStep(st, x, BEGIN_OBJECT, 1, value + r);
    ValueLaid(st, y, m.value, r);
    MemberGrouped(name, W.Lead(W.Compact, lv, d), value, r);
    MemberGrouped(name, W.Lead(st, lv, d), W.Render(st, d, m.value), After(st, y, r));
  }

  lemma MemberGrouped(a: Text, b: Text, c: Text, z: Text)
    ensures (a + (b + c)) + z == a + (b + (c + z))
  {
  }

  /** The members from number `k` on, with the closing bracket. */
  lemma {:induction false} MembersLaid(st: W.Style, x: Context, ms: seq<D.Member>, k: nat, n: nat, r: Text)
    requires st.Pretty? && x.q.Outside? && D.MembersWellFormed(ms) && k > 0 && n > 0
    ensures var y, end, d := Within(x, BEGIN_OBJECT), [END_OBJECT], |x.open| + 1;
            && After(st, y, W.RenderMembers(W.Compact, d, ms, k) + (end + r))
               == W.RenderMembers(st, d, ms, k) + (W.Tail(st, W.Level(n, false), |x.open|) + (end + After(st, x, r)))
            && (Tight(x, r) ==> Tight(y, W.RenderMembers(W.Compact, d, ms, k) + (end + r)))
    decreases ms, 3
  {
    hide Spaced, Tight, After, W.Lead, MemberText, W.Tail, W.RenderMembers;
    var y, end, d := Within(x, BEGIN_OBJECT), [END_OBJECT], |x.open| + 1;
    var last := W.Tail(st, W.Level(n, false), |x.open|) + (end + After(st, x, r));
    if ms == [] {
      NoMembers(st, d, k);
      CloseStep(st, x, BEGIN_OBJECT, n, r);
      assert [] + (end + r) == end + r && [] + last == last;
    } else {
      var lv, rest := W.Level(2 * k, false), W.RenderMembers(W.Compact, d, ms[1..], k + 1) + (end + r);
      var first := MemberText(W.Compact, d, ms[0]);
      MemberHead(W.Compact, d, ms[0]);
      SeparatorStep(st, x, BEGIN_OBJECT, 2 * k, first + rest);
      MemberLaid(st, x, ms[0], rest);
      MembersLaid(st, x, ms[1..], k + 1, n, r);
      FirstMember(W.Compact, d, ms, k);
      FirstMember(st, d, ms, k);
      Grouped4(W.Lead(W.Compact, lv, d), first, W.RenderMembers(W.Compact, d, ms[1..], k + 1), end + r);
      Grouped4(W.Lead(st, lv, d), MemberText(st, d, ms[0]), W.RenderMembers(st, d, ms[1..], k + 1), last);
    }
  }

  lemma NoMembers(st: W.Style, d: nat, k: nat)
    ensures W.RenderMembers(st, d, [], k) == [] && W.RenderMembers(W.Compact, d, [], k) == []
  {
  }

  lemma NoLead(d: nat, inArray: bool)
    ensures W.Lead(W.Compact, W.Level(0, inArray), d) == []
  {
  }

  lemma {:induction false} ObjectLaid(st: W.Style, x: Context, ms: seq<D.Member>, r: Text)
    requires st.Pretty? && x.q.Outside? && D.MembersWellFormed(ms)
    ensures var v := D.ObjectValue(ms); Laid(st, x, W.Render(W.Compact, |x.open|, v), W.Render(st, |x.open|, v), r)
    decreases ms, 4
  {
    hide Spaced, Tight, After, W.Lead, W.Render, W.RenderMembers, W.Tail, MemberText;
    var d, v := |x.open| + 1, D.ObjectValue(ms);
    W.ObjectText(W.Compact, |x.open|, ms);
    W.ObjectText(st, |x.open|, ms);
    NoTail(W.Level(2 * |ms|, false), |x.open|);
    if ms == [] {
      NothingInside(st, |x.open|, false);
      EmptyLaid(st, x, BEGIN_OBJECT, r);
      assert [BEGIN_OBJECT] + [] + [] + [END_OBJECT] == [BEGIN_OBJECT, END_OBJECT];
    } else {
      var y, end := Within(x, BEGIN_OBJECT), [END_OBJECT];
      var first, rest := MemberText(W.Compact, d, ms[0]), W.RenderMembers(W.Compact, d, ms[1..], 1);
      FirstMember(W.Compact, d, ms, 0);
      FirstMember(st, d, ms, 0);
      NoLead(d, false);
      MemberHead(W.Compact, d, ms[0]);
      OpenStep(st, x, BEGIN_OBJECT, first + (rest + (end + r)));
      MemberLaid(st, x, ms[0], rest + (end + r));
      MembersLaid(st, x, ms[1..], 1, 2 * |ms|, r);
      CompactBrackets(BEGIN_OBJECT, first, rest, end, r);
      Brackets(BEGIN_OBJECT, W.Lead(st, W.Level(0, false), d), MemberText(st, d, ms[0]), W.RenderMembers(st, d, ms[1..], 1),
               W.Tail(st, W.Level(2 * |ms|, false), |x.open|), end, After(st, x, r));
    }
  }

  // ---------------------------------------------------------------- lines

  /** The text behind a line feed inside `depth` brackets: the indentation of what stands on the line. */
  predicate LineAt(st: W.Style, depth: nat, s: Text)
    requires st.Pretty?
  {
    exists k: nat :: k < |s| && !IsWs(s[k])
      && k == st.indentCount * (depth - if Closes(s[k]) then 1 else 0)
      && forall j :: 0 <= j < k ==> s[j] == st.indentChar
  }

  /** Every line feed outside quoted strings starts a line of that kind. */
  predicate Lines(st: W.Style, x: Context, s: Text)
    requires st.Pretty?
  {
    forall i :: 0 <= i < |s| && Before(x, s, i).q.Outside? && s[i] == 0x0A ==>
      LineAt(st, |Before(x, s, i).open|, s[i + 1..])
  }

  lemma LinesStep(st: W.Style, x: Context, c: Byte, s: Text)
    requires st.Pretty? && Lines(st, Read(x, c), s)
    requires x.q.Outside? && c == 0x0A ==> LineAt(st, |x.open|, s)
    ensures Lines(st, x, [c] + s)
  {
    hide LineAt, Read;
    var cs := [c] + s;
    assert cs[1..] == s;
    forall i | 0 <= i < |cs| && Before(x, cs, i).q.Outside? && cs[i] == 0x0A
      ensures LineAt(st, |Before(x, cs, i).open|, cs[i + 1..])
    {
      if i > 0 {
        assert Before(x, cs, i) == Before(Read(x, c), s, i - 1) && cs[i] == s[i - 1] && cs[i + 1..] == s[i..];
      }
    }
  }

  /** White space without line feeds begins no line. */
  lemma {:induction false} LinesBlank(st: W.Style, y: Context, w: Text, s: Text)
    requires st.Pretty? && y.q.Outside? && AllWs(w) && 0x0A !in w && Lines(st, y, s)
    ensures Lines(st, y, w + s)
    decreases |w|
  {
    hide Lines, LineAt;
    if w == [] {
      assert w + s == s;
    } else {
      assert [w[0]] + w[1..] == w;
      Grouped([w[0]], w[1..], s);
      assert Read(y, w[0]) == y;
      LinesBlank(st, y, w[1..], s);
      LinesStep(st, y, w[0], w[1..] + s);
    }
  }

  /** A gap begins a line exactly as deep as its brackets. */
  lemma LinesGap(st: W.Style, y: Context, c: Byte, next: Byte, s: Text)
    requires st.Pretty? && W.ValidStyle(st) && st.indentChar != 0x0A && y.q.Outside? && Lines(st, y, s)
    requires next != 0 ==> s != [] && s[0] == next && !IsWs(next)
    ensures Lines(st, y, Gap(st, y.open, c, next) + s)
  {
    hide Lines, LineAt, Read;
    var gap := Gap(st, y.open, c, next);
    if gap == [] {
      assert gap + s == s;
    } else if gap == [0x20] {
      LinesBlank(st, y, gap, s);
    } else {
      var n := |y.open| - if Closes(next) then 1 else 0;
      assert gap == NewLine(st, n);
      hide Gap;
      var w := gap[1..];
      assert |w| == n * st.indentCount && forall j :: 0 <= j < |w| ==> w[j] == st.indentChar;
      LinesBlank(st, y, w, s);
      LineOf(st, |y.open|, w, s);
      LineFeedRead(y);
      LinesStep(st, y, 0x0A, w + s);
      assert [0x0A as Byte] + w == gap;
      Grouped([0x0A], w, s);
    }
  }

  lemma LineFeedRead(y: Context)
    requires y.q.Outside?
    ensures Read(y, 0x0A) == y
  {
  }

  lemma LineOf(st: W.Style, depth: nat, w: Text, s: Text)
    requires st.Pretty? && s != [] && !IsWs(s[0])
    requires |w| == (depth - if Closes(s[0]) then 1 else 0) * st.indentCount
    requires forall j :: 0 <= j < |w| ==> w[j] == st.indentChar
    ensures LineAt(st, depth, w + s)
  {
    assert (w + s)[|w|] == s[0];
    assert forall j :: 0 <= j < |w| ==> (w + s)[j] == w[j];
  }

  lemma SpacedHead(st: W.Style, x: Context, s: Text)
    requires st.Pretty? && s != []
    ensures Spaced(st, x, s) != [] && Spaced(st, x, s)[0] == s[0]
  {
  }

  lemma TightHead(x: Context, s: Text)
    requires Tight(x, s) && s != [] && x.q.Outside?
    ensures !IsWs(s[0])
  {
    assert Before(x, s, 0) == x;
  }

  lemma {:induction false} LinesSpaced(st: W.Style, x: Context, s: Text)
    requires st.Pretty? && W.ValidStyle(st) && st.indentChar != 0x0A && Tight(x, s)
    ensures Lines(st, x, Spaced(st, x, s))
    decreases |s|
  {
    hide Tight, Spaced, Read, Gap, Lines, LineAt, IsWs;
    if s == [] {
      NoLines(st, x);
    } else {
      var c, rest, y := s[0], s[1..], Read(x, s[0]);
      assert s == [c] + rest;
      TightStep(x, c, rest);
      SpacedStep(st, x, c, rest);
      LinesSpaced(st, y, rest);
      var next, tail := Peek(rest, 0), Spaced(st, y, rest);
      Grouped([c], GapIn(st, y, c, next), tail);
      if y.q.Outside? {
        if rest != [] {
          SpacedHead(st, y, rest);
          TightHead(y, rest);
        }
        LinesGap(st, y, c, next, tail);
      } else {
        assert [] + tail == tail;
      }
      if x.q.Outside? {
        assert c != 0x0A by { LineFeedIsWs(); }
      }
      LinesStep(st, x, c, GapIn(st, y, c, next) + tail);
    }
  }

  lemma LineFeedIsWs()
    ensures IsWs(0x0A)
  {
  }

  lemma NoLines(st: W.Style, x: Context)
    requires st.Pretty?
    ensures Lines(st, x, Spaced(st, x, []))
  {
  }

  // ---------------------------------------------------------------- the texts of the writers

  /** Writer puts no white space outside quoted strings. */
  lemma CompactIsTight(v: D.Value)
    requires D.WellFormed(v)
    ensures Tight(TOP, W.Render(W.Compact, 0, v))
  {
    hide Tight, W.Render;
    ValueLaid(W.Pretty(' ' as int, 4, false), TOP, v, []);
    assert W.Render(W.Compact, 0, v) + [] == W.Render(W.Compact, 0, v);
    assert Tight(TOP, []) by { NothingTight(); }
  }

  lemma NothingTight()
    ensures Tight(TOP, [])
  {
  }

  /** PrettyWriter's text is Writer's text with the gaps filled in, for each array format. */
  lemma PrettyIsSpaced(st: W.Style, v: D.Value)
    requires st.Pretty? && D.WellFormed(v)
    ensures W.Render(st, 0, v) == Spaced(st, TOP, W.Render(W.Compact, 0, v))
  {
    hide Tight, W.Render;
    ValueLaid(st, TOP, v, []);
    assert W.Render(W.Compact, 0, v) + [] == W.Render(W.Compact, 0, v);
    assert After(st, TOP, []) == [];
    assert W.Render(st, 0, v) + [] == W.Render(st, 0, v);
  }

  /** Without the white space outside quoted strings, PrettyWriter's text is Writer's text. */
  lemma PrettyStripped(st: W.Style, v: D.Value)
    requires st.Pretty? && W.ValidStyle(st) && D.WellFormed(v)
    ensures Stripped(TOP, W.Render(st, 0, v)) == W.Render(W.Compact, 0, v)
  {
    hide Tight, W.Render, Spaced, Stripped;
    CompactIsTight(v);
    PrettyIsSpaced(st, v);
    StripSpaced(st, TOP, W.Render(W.Compact, 0, v));
  }

  /** Every line is indented by the brackets open before it, less one if it starts with a closing bracket. */
  lemma LinesIndented(st: W.Style, v: D.Value, i: nat)
    requires st.Pretty? && W.ValidStyle(st) && st.indentChar != 0x0A && D.WellFormed(v)
    requires i < |W.Render(st, 0, v)| && W.Render(st, 0, v)[i] == 0x0A && Before(TOP, W.Render(st, 0, v), i).q.Outside?
    ensures LineAt(st, |Before(TOP, W.Render(st, 0, v), i).open|, W.Render(st, 0, v)[i + 1..])
  {
    hide Tight, W.Render, Spaced, LineAt, Before;
    CompactIsTight(v);
    PrettyIsSpaced(st, v);
    LinesSpaced(st, TOP, W.Render(W.Compact, 0, v));
  }

  /** The six characters of an escaped control: \\u00 and its code in upper-case hexadecimal digits. */
  lemma ControlsInUpperCase(c: Byte, i: nat)
    requires |W.EscapedByte(c)| == 6 && 2 <= i < 6
    ensures var e := W.EscapedByte(c);
            && c < 0x20 && e[0] == ESCAPE && e[1] == 0x75 && IsHexDig(e[i]) && e[i] < 0x61
            && 4096 * HexValue(e[2]) + 256 * HexValue(e[3]) + 16 * HexValue(e[4]) + HexValue(e[5]) == c
  {
  }

  /** The writer as it is called: its text is the compact text, tight, or that text with the gaps filled in. */
  method WriteValue(st: W.Style, v: D.Value) returns (text: Text)
    requires W.ValidStyle(st) && D.WellFormed(v)
    ensures Tight(TOP, if st.Compact? then text else Stripped(TOP, text))
    ensures st.Pretty? ==> text == Spaced(st, TOP, Stripped(TOP, text))
    ensures st.Pretty? && st.indentChar != 0x0A ==> Lines(st, TOP, text)
  {
    hide Tight, W.Render, Spaced, Stripped, Lines;
    var writer := new W.Writer(st);
    writer.Accept(v);
    text := writer.os;
    assert text == W.Render(st, 0, v);
    CompactIsTight(v);
    if st.Pretty? {
      PrettyIsSpaced(st, v);
      PrettyStripped(st, v);
      if st.indentChar != 0x0A {
        LinesSpaced(st, TOP, W.Render(W.Compact, 0, v));
      }
    }
  }
}
