/**
 The lexemes that the reader takes (rapidjson/reader.h), as a grammar of their own: layout with
 comments, strings made of characters and escapes, numbers made of their parts. Each scanning
 function reads every lexeme of the grammar as what it means, reads nothing else, and its errors
 stand behind the longest part that could still have been one.
 */
module JsonLexis {
  import opened Sax
  import opened Rfc8259
  import S = Scan

  const SOLIDUS := 0x2F
  const ASTERISK := 0x2A
  const LINE_FEED := 0x0A

  // ---------------------------------------------------------------- layout

  /** A white-space character, a block comment, or a comment up to the end of its line. */
  datatype Piece = White(c: Byte) | Block(body: Text) | Line(body: Text)

  type Layout = seq<Piece>

  /** The characters between the marks of a block comment. */
  predicate BlockBody(s: Text) {
    0 !in s && forall i :: 0 <= i < |s| - 1 ==> !(s[i] == ASTERISK && s[i + 1] == SOLIDUS)
  }

  predicate LineBody(s: Text) { 0 !in s && LINE_FEED !in s }

  predicate PieceOk(comments: bool, x: Piece) {
    match x
    case White(c) => IsWs(c)
    case Block(body) => comments && BlockBody(body)
    case Line(body) => comments && LineBody(body)
  }

  function PieceText(x: Piece): (s: Text)
    ensures s != []
  {
    match x
    case White(c) => [c]
    case Block(body) => [SOLIDUS, ASTERISK] + body + [ASTERISK, SOLIDUS]
    case Line(body) => [SOLIDUS, SOLIDUS] + body + [LINE_FEED]
  }

  predicate LayoutOk(comments: bool, l: Layout) { forall i :: 0 <= i < |l| ==> PieceOk(comments, l[i]) }

  function LayoutText(l: Layout): Text {
    if l == [] then [] else PieceText(l[0]) + LayoutText(l[1..])
  }

  /** No layout goes on at `p`. */
  predicate LayoutStops(comments: bool, t: Text, p: nat) {
    !IsWs(Peek(t, p)) && (comments ==> Peek(t, p) != SOLIDUS)
  }

  lemma PeekStands(t: Text, p: nat, s: Text, i: nat)
    requires Stands(t, p, s) && i < |s|
    ensures Peek(t, p + i) == s[i]
  {
  }

  lemma {:induction false} BlockSkipped(t: Text, p: nat, body: Text)
    requires Stands(t, p, body + [ASTERISK, SOLIDUS]) && BlockBody(body)
    ensures S.BlockComment(t, p) == S.At(p + |body| + 2)
    decreases |body|
  {
    var all := body + [ASTERISK, SOLIDUS];
    PeekStands(t, p, all, 0);
    PeekStands(t, p, all, 1);
    if body != [] {
      assert all == [body[0]] + (body[1..] + [ASTERISK, SOLIDUS]);
      StandsSplit(t, p, [body[0]], body[1..] + [ASTERISK, SOLIDUS]);
      assert body[0] in body;
      BlockSkipped(t, p + 1, body[1..]);
      assert |body| > 1 ==> all[1] == body[1];
    }
  }

  /** A line comment ends behind its line feed, or where the text ends. */
  lemma {:induction false} LineSkipped(t: Text, p: nat, body: Text)
    requires Stands(t, p, body) && LineBody(body)
    requires Peek(t, p + |body|) == LINE_FEED || Peek(t, p + |body|) == 0
    ensures S.LineComment(t, p) == p + |body| + if Peek(t, p + |body|) == 0 then 0 else 1
    decreases |body|
  {
    if body != [] {
      PeekStands(t, p, body, 0);
      assert body == [body[0]] + body[1..];
      StandsSplit(t, p, [body[0]], body[1..]);
      assert body[0] in body;
      LineSkipped(t, p + 1, body[1..]);
    }
  }

  /** SkipSpace as white space and comments in turn. */
  lemma PieceSkipped(o: Options, t: Text, p: nat, x: Piece)
    requires PieceOk(o.comments, x) && Stands(t, p, PieceText(x))
    ensures p + |PieceText(x)| <= |t|
    ensures S.SkipSpace(o, t, p) == S.SkipSpace(o, t, p + |PieceText(x)|)
  {
    match x {
      case White(c) => PeekStands(t, p, PieceText(x), 0);
      case Block(body) => BlockPieceSkipped(o, t, p, body);
      case Line(body) => LinePieceSkipped(o, t, p, body);
    }
  }

  lemma CommentText(body: Text)
    ensures PieceText(Block(body)) == [SOLIDUS, ASTERISK] + (body + [ASTERISK, SOLIDUS])
    ensures PieceText(Line(body)) == [SOLIDUS, SOLIDUS] + (body + [LINE_FEED])
  {
    Joined3([SOLIDUS, ASTERISK], body, [ASTERISK, SOLIDUS]);
    Joined3([SOLIDUS, SOLIDUS], body, [LINE_FEED]);
  }

  lemma Joined3(a: Text, b: Text, c: Text)
    ensures (a + b) + c == a + (b + c)
  {
  }

  lemma BlockPieceSkipped(o: Options, t: Text, p: nat, body: Text)
    requires o.comments && BlockBody(body) && Stands(t, p, PieceText(Block(body)))
    ensures var q := p + |PieceText(Block(body))|; q <= |t| && S.SkipSpace(o, t, p) == S.SkipSpace(o, t, q)
  {
    hide Stands, BlockBody, S.BlockComment, S.SkipSpace, PieceText;
    var mark := [SOLIDUS, ASTERISK];
    CommentText(body);
    StandsWithin(t, p, PieceText(Block(body)));
    StandsSplit(t, p, mark, body + [ASTERISK, SOLIDUS]);
    PeekStands(t, p, mark, 0);
    PeekStands(t, p, mark, 1);
    BlockSkipped(t, p + 2, body);
    CommentStep(o, t, p);
  }

  /** Behind a comment the skipping goes on. */
  lemma CommentStep(o: Options, t: Text, p: nat)
    requires o.comments && p + 2 <= |t| && Peek(t, p) == SOLIDUS
    ensures Peek(t, p + 1) == ASTERISK && S.BlockComment(t, p + 2).At? ==>
      S.SkipSpace(o, t, p) == S.SkipSpace(o, t, S.BlockComment(t, p + 2).pos)
    ensures Peek(t, p + 1) == SOLIDUS ==> S.SkipSpace(o, t, p) == S.SkipSpace(o, t, S.LineComment(t, p + 2))
  {
    hide S.BlockComment, S.LineComment;
    assert S.SkipWhite(t, p) == p;
  }

  lemma LinePieceSkipped(o: Options, t: Text, p: nat, body: Text)
    requires o.comments && LineBody(body) && Stands(t, p, PieceText(Line(body)))
    ensures var q := p + |PieceText(Line(body))|; q <= |t| && S.SkipSpace(o, t, p) == S.SkipSpace(o, t, q)
  {
    hide Stands, LineBody, S.LineComment, S.SkipSpace, PieceText;
    var mark := [SOLIDUS, SOLIDUS];
    CommentText(body);
    StandsWithin(t, p, PieceText(Line(body)));
    StandsSplit(t, p, mark, body + [LINE_FEED]);
    StandsSplit(t, p + 2, body, [LINE_FEED]);
    PeekStands(t, p, mark, 0);
    PeekStands(t, p, mark, 1);
    PeekStands(t, p + 2 + |body|, [LINE_FEED], 0);
    LineSkipped(t, p + 2, body);
    CommentStep(o, t, p);
  }

  /** Behind a layout the skipping goes on. */
  lemma {:induction false} LayoutPassed(o: Options, t: Text, p: nat, l: Layout)
    requires LayoutOk(o.comments, l) && Stands(t, p, LayoutText(l))
    ensures p + |LayoutText(l)| <= |t| && S.SkipSpace(o, t, p) == S.SkipSpace(o, t, p + |LayoutText(l)|)
    decreases |l|
  {
    hide S.SkipSpace, PieceOk, PieceText, Stands;
    StandsWithin(t, p, LayoutText(l));
    if l != [] {
      StandsSplit(t, p, PieceText(l[0]), LayoutText(l[1..]));
      PieceSkipped(o, t, p, l[0]);
      LayoutPassed(o, t, p + |PieceText(l[0])|, l[1..]);
    }
  }

  /** Every layout is skipped to its end. */
  lemma LayoutSkipped(o: Options, t: Text, p: nat, l: Layout)
    requires LayoutOk(o.comments, l) && Stands(t, p, LayoutText(l)) && LayoutStops(o.comments, t, p + |LayoutText(l)|)
    ensures p + |LayoutText(l)| <= |t| && S.SkipSpace(o, t, p) == S.At(p + |LayoutText(l)|)
  {
    hide S.SkipSpace, LayoutText, Stands;
    LayoutPassed(o, t, p, l);
    NothingSkipped(o, t, p + |LayoutText(l)|);
  }

  lemma NothingSkipped(o: Options, t: Text, p: nat)
    requires LayoutStops(o.comments, t, p)
    ensures p <= |t| ==> S.SkipSpace(o, t, p) == S.At(p)
  {
  }

  // ---------------------------------------------------------------- what skipping has skipped

  /** At the end of the text a line comment needs no line feed. */
  predicate Unended(comments: bool, t: Text, q: nat, rest: Text) {
    rest == []
    || (comments && |rest| >= 2 && rest[..2] == [SOLIDUS, SOLIDUS] && LineBody(rest[2..]) && Peek(t, q) == 0)
  }

  /** A slash that begins no comment, or a block comment that does not end. */
  predicate BadComment(t: Text, k: nat, off: nat) {
    && k < off <= |t| && t[k] == SOLIDUS
    && ((off == k + 1 && Peek(t, off) != ASTERISK && Peek(t, off) != SOLIDUS)
        || (k + 2 <= off && t[k + 1] == ASTERISK && BlockBody(t[k + 2..off]) && Peek(t, off) == 0))
  }

  /** What stands between `p` and where the skipping ends. */
  ghost predicate Skipped(o: Options, t: Text, p: nat, s: S.Skip, l: Layout, rest: Text) {
    && p <= |t| && LayoutOk(o.comments, l)
    && match s {
         case At(q) =>
           p <= q <= |t| && t[p..q] == LayoutText(l) + rest && Unended(o.comments, t, q, rest) && LayoutStops(o.comments, t, q)
         case Bad(off) =>
           o.comments && rest == [] && Stands(t, p, LayoutText(l)) && BadComment(t, p + |LayoutText(l)|, off)
       }
  }

  lemma {:induction false} BlockFound(t: Text, p: nat)
    requires p <= |t|
    ensures match S.BlockComment(t, p)
            case At(q) => p + 2 <= q <= |t| && BlockBody(t[p..q - 2]) && t[q - 2..q] == [ASTERISK, SOLIDUS]
            case Bad(off) => p <= off <= |t| && BlockBody(t[p..off]) && Peek(t, off) == 0
    decreases |t| - p
  {
    if Peek(t, p) != 0 && !(Peek(t, p) == ASTERISK && Peek(t, p + 1) == SOLIDUS) {
      BlockFound(t, p + 1);
      match S.BlockComment(t, p + 1) {
        case At(q) => BlockLonger(t, p, q - 2);
        case Bad(off) => BlockLonger(t, p, off);
      }
    }
  }

  lemma BlockLonger(t: Text, p: nat, q: nat)
    requires p + 1 <= q <= |t| && BlockBody(t[p + 1..q]) && t[p] != 0
    requires !(t[p] == ASTERISK && Peek(t, p + 1) == SOLIDUS)
    ensures BlockBody(t[p..q])
  {
    var s, s1 := t[p..q], t[p + 1..q];
    assert s == [t[p]] + s1;
    forall i | 0 <= i < |s| - 1
      ensures !(s[i] == ASTERISK && s[i + 1] == SOLIDUS)
    {
      if i > 0 {
        assert s[i] == s1[i - 1] && s[i + 1] == s1[i];
      }
    }
  }

  lemma {:induction false} LineFound(t: Text, p: nat)
    requires p <= |t|
    ensures var q := S.LineComment(t, p);
            || (Peek(t, q) == 0 && LineBody(t[p..q]))
            || (p < q && t[q - 1] == LINE_FEED && LineBody(t[p..q - 1]))
    decreases |t| - p
  {
    if Peek(t, p) != 0 && Peek(t, p) != LINE_FEED {
      LineFound(t, p + 1);
      var q := S.LineComment(t, p + 1);
      if Peek(t, q) == 0 && LineBody(t[p + 1..q]) {
        assert t[p..q] == [t[p]] + t[p + 1..q];
      } else {
        assert t[p..q - 1] == [t[p]] + t[p + 1..q - 1];
      }
    }
  }

  /** One more piece in front. */
  lemma PieceInFront(o: Options, t: Text, p: nat, x: Piece, s: S.Skip, l: Layout, rest: Text)
    requires p + |PieceText(x)| <= |t| && PieceOk(o.comments, x) && t[p..p + |PieceText(x)|] == PieceText(x)
    requires Skipped(o, t, p + |PieceText(x)|, s, l, rest)
    ensures Skipped(o, t, p, s, [x] + l, rest)
  {
    hide PieceText, PieceOk, Unended, LayoutStops, BadComment;
    var k := p + |PieceText(x)|;
    assert ([x] + l)[1..] == l;
    match s {
      case At(q) => assert t[p..q] == t[p..k] + t[k..q];
      case Bad(off) =>
        var all := PieceText(x) + LayoutText(l);
        forall i | 0 <= i < |all|
          ensures t[p + i] == all[i]
        {
          if i < |PieceText(x)| {
            assert t[p + i] == t[p..k][i];
          } else {
            assert t[k + (i - |PieceText(x)|)] == LayoutText(l)[i - |PieceText(x)|];
          }
        }
    }
  }

  /** A piece is skipped, and what is skipped behind it follows. */
  lemma PieceFound(o: Options, t: Text, p: nat, x: Piece, l: Layout, rest: Text)
    requires p + |PieceText(x)| <= |t| && PieceOk(o.comments, x) && t[p..p + |PieceText(x)|] == PieceText(x)
    requires Skipped(o, t, p + |PieceText(x)|, S.SkipSpace(o, t, p + |PieceText(x)|), l, rest)
    ensures Skipped(o, t, p, S.SkipSpace(o, t, p), [x] + l, rest)
  {
    hide Skipped, S.SkipSpace, PieceOk, PieceText;
    var k := p + |PieceText(x)|;
    assert forall i :: 0 <= i < |PieceText(x)| ==> t[p + i] == t[p..k][i];
    PieceSkipped(o, t, p, x);
    PieceInFront(o, t, p, x, S.SkipSpace(o, t, k), l, rest);
  }

  /** What SkipWhitespaceAndComments passes over is a layout; what it refuses is no comment. */
  lemma {:induction false} LayoutFound(o: Options, t: Text, p: nat) returns (l: Layout, rest: Text)
    requires p <= |t|
    ensures Skipped(o, t, p, S.SkipSpace(o, t, p), l, rest)
    decreases |t| - p
  {
    hide Skipped, S.SkipSpace, S.BlockComment, S.LineComment;
    var x := PieceAt(o, t, p);
    if x.Some? {
      l, rest := LayoutFound(o, t, p + |PieceText(x.value)|);
      PieceFound(o, t, p, x.value, l, rest);
      l := [x.value] + l;
    } else if o.comments && Peek(t, p) == SOLIDUS && Peek(t, p + 1) == SOLIDUS {
      l, rest := [], t[p..S.LineComment(t, p + 2)];
      LineUnended(o, t, p);
    } else {
      l, rest := [], [];
      NothingFound(o, t, p);
    }
  }

  datatype MaybePiece = Some(value: Piece) | None

  /** The piece that starts at `p`, if one does. */
  lemma PieceAt(o: Options, t: Text, p: nat) returns (x: MaybePiece)
    requires p <= |t|
    ensures x.Some? ==>
      var s := PieceText(x.value); PieceOk(o.comments, x.value) && p + |s| <= |t| && t[p..p + |s|] == s
    ensures x.None? ==> !IsWs(Peek(t, p))
    ensures x.None? && o.comments && Peek(t, p) == SOLIDUS ==>
      && (Peek(t, p + 1) == ASTERISK ==> S.BlockComment(t, p + 2).Bad?)
      && (Peek(t, p + 1) == SOLIDUS ==>
            var q := S.LineComment(t, p + 2); p + 2 <= q <= |t| && Peek(t, q) == 0 && LineBody(t[p + 2..q]))
  {
    hide BlockBody, LineBody, S.BlockComment, S.LineComment, PieceText;
    x := None;
    if IsWs(Peek(t, p)) {
      x := Some(White(t[p]));
      WhiteText(t, p);
    } else if o.comments && Peek(t, p) == SOLIDUS && Peek(t, p + 1) == ASTERISK {
      BlockFound(t, p + 2);
      var b := S.BlockComment(t, p + 2);
      if b.At? {
        x := Some(Block(t[p + 2..b.pos - 2]));
        BlockText(t, p, b.pos);
      }
    } else if o.comments && Peek(t, p) == SOLIDUS && Peek(t, p + 1) == SOLIDUS {
      LineFound(t, p + 2);
      var q := S.LineComment(t, p + 2);
      if !(Peek(t, q) == 0 && LineBody(t[p + 2..q])) {
        x := Some(Line(t[p + 2..q - 1]));
        LineText(t, p, q);
      }
    }
  }

  lemma WhiteText(t: Text, p: nat)
    requires p < |t|
    ensures |PieceText(White(t[p]))| == 1 && t[p..p + 1] == PieceText(White(t[p]))
  {
  }

  lemma BlockText(t: Text, p: nat, q: nat)
    requires p + 4 <= q <= |t| && t[p] == SOLIDUS && t[p + 1] == ASTERISK && t[q - 2..q] == [ASTERISK, SOLIDUS]
    ensures var s := PieceText(Block(t[p + 2..q - 2])); |s| == q - p && t[p..q] == s
  {
    assert t[p..q] == [t[p], t[p + 1]] + t[p + 2..q - 2] + t[q - 2..q];
  }

  lemma LineText(t: Text, p: nat, q: nat)
    requires p + 3 <= q <= |t| && t[p] == SOLIDUS && t[p + 1] == SOLIDUS && t[q - 1] == LINE_FEED
    ensures var s := PieceText(Line(t[p + 2..q - 1])); |s| == q - p && t[p..q] == s
  {
    assert t[p..q] == [t[p], t[p + 1]] + t[p + 2..q - 1] + [t[q - 1]];
  }

  lemma NothingFound(o: Options, t: Text, p: nat)
    requires p <= |t| && !IsWs(Peek(t, p))
    requires o.comments && Peek(t, p) == SOLIDUS ==>
      Peek(t, p + 1) != SOLIDUS && (Peek(t, p + 1) == ASTERISK ==> S.BlockComment(t, p + 2).Bad?)
    ensures Skipped(o, t, p, S.SkipSpace(o, t, p), [], [])
  {
    if o.comments && Peek(t, p) == SOLIDUS && Peek(t, p + 1) == ASTERISK {
      BlockFound(t, p + 2);
    }
    assert t[p..p] == [];
  }

  lemma LineUnended(o: Options, t: Text, p: nat)
    requires o.comments && p + 2 <= |t| && Peek(t, p) == SOLIDUS && Peek(t, p + 1) == SOLIDUS
    requires var q := S.LineComment(t, p + 2); Peek(t, q) == 0 && LineBody(t[p + 2..q])
    ensures Skipped(o, t, p, S.SkipSpace(o, t, p), [], t[p..S.LineComment(t, p + 2)])
  {
    hide S.LineComment, LineBody;
    var q := S.LineComment(t, p + 2);
    var rest := t[p..q];
    assert S.SkipWhite(t, p) == p && S.SkipWhite(t, q) == q && S.Comments(t, q) == S.At(q);
    assert S.SkipSpace(o, t, p) == S.At(q);
    assert rest[..2] == [SOLIDUS, SOLIDUS] && rest[2..] == t[p + 2..q];
    assert [] + rest == rest;
  }

  // ---------------------------------------------------------------- strings

  const LETTER_U := 0x75

  /** A character as it is, an escaped character, four hexadecimal digits, or a surrogate pair of them. */
  datatype Unit = Plain(c: Byte) | Escaped(e: Byte) | Code(h: Text) | Surrogates(high: Text, low: Text)

  predicate FourHex(h: Text) { |h| == 4 && forall i :: 0 <= i < 4 ==> IsHexDig(h[i]) }

  function CodeOf(h: Text): (v: nat)
    requires FourHex(h)
    ensures v <= 0xFFFF
  {
    HexValue(h[0]) * 4096 + HexValue(h[1]) * 256 + HexValue(h[2]) * 16 + HexValue(h[3])
  }

  /** The surrogates of UTF-16, section 2.2 of RFC 2781. */
  predicate IsHighSurrogate(v: int) { 0xD800 <= v <= 0xDBFF }
  predicate IsLowSurrogate(v: int) { 0xDC00 <= v <= 0xDFFF }

  /** A low surrogate needs no high one before it. */
  predicate UnitOk(u: Unit) {
    match u
    case Plain(c) => c >= 0x20 && c != QUOTATION_MARK && c != ESCAPE
    case Escaped(e) => IsEscaped(e)
    case Code(h) => FourHex(h) && !IsHighSurrogate(CodeOf(h))
    case Surrogates(high, low) =>
      FourHex(high) && FourHex(low) && IsHighSurrogate(CodeOf(high)) && IsLowSurrogate(CodeOf(low))
  }

  function UnitText(u: Unit): (s: Text)
    ensures s != []
  {
    match u
    case Plain(c) => [c]
    case Escaped(e) => [ESCAPE, e]
    case Code(h) => [ESCAPE, LETTER_U] + h
    case Surrogates(high, low) => [ESCAPE, LETTER_U] + high + [ESCAPE, LETTER_U] + low
  }

  /** What a unit stands for. */
  function UnitBytes(u: Unit): Text
    requires UnitOk(u)
  {
    match u
    case Plain(c) => [c]
    case Escaped(e) => [EscapedValue(e)]
    case Code(h) => S.Utf8(CodeOf(h))
    case Surrogates(high, low) => S.Utf8(PairOf(CodeOf(high), CodeOf(low)))
  }

  predicate UnitsOk(us: seq<Unit>) { forall i :: 0 <= i < |us| ==> UnitOk(us[i]) }

  function UnitsText(us: seq<Unit>): Text {
    if us == [] then [] else UnitText(us[0]) + UnitsText(us[1..])
  }

  function UnitsBytes(us: seq<Unit>): Text
    requires UnitsOk(us)
  {
    if us == [] then [] else UnitBytes(us[0]) + UnitsBytes(us[1..])
  }

  function StringText(us: seq<Unit>): Text {
    [QUOTATION_MARK] + (UnitsText(us) + [QUOTATION_MARK])
  }

  predicate HexAt(t: Text, p: nat) { p + 4 <= |t| && FourHex(t[p..p + 4]) }

  lemma HexDigitIs(c: Byte)
    ensures S.HexDigit(c) == if IsHexDig(c) then S.Digits(HexValue(c)) else S.NotHex
  {
  }

  lemma HexStep(t: Text, p: nat, n: nat, v: nat)
    requires n > 0
    ensures S.HexRun(t, p, n, v)
            == if IsHexDig(Peek(t, p)) then S.HexRun(t, p + 1, n - 1, 16 * v + HexValue(Peek(t, p))) else S.NotHex
  {
    HexDigitIs(Peek(t, p));
  }

  lemma HexAtPeeks(t: Text, p: nat)
    ensures HexAt(t, p) <==>
      && IsHexDig(Peek(t, p)) && IsHexDig(Peek(t, p + 1)) && IsHexDig(Peek(t, p + 2)) && IsHexDig(Peek(t, p + 3))
    ensures p + 4 <= |t| ==> t[p..p + 4] == [Peek(t, p), Peek(t, p + 1), Peek(t, p + 2), Peek(t, p + 3)]
  {
    assert !IsHexDig(0);
    hide IsHexDig;
    if p + 4 <= |t| {
      var h := t[p..p + 4];
      assert h[0] == Peek(t, p) && h[1] == Peek(t, p + 1) && h[2] == Peek(t, p + 2) && h[3] == Peek(t, p + 3);
    } else {
      assert Peek(t, p + 3) == 0;
    }
  }

  lemma Hex4Is(t: Text, p: nat)
    ensures S.Hex4(t, p) == if HexAt(t, p) then S.Digits(CodeOf(t[p..p + 4])) else S.NotHex
  {
    HexAtPeeks(t, p);
    hide S.HexRun, HexValue, IsHexDig, HexAt;
    HexStep(t, p, 4, 0);
    if IsHexDig(Peek(t, p)) {
      var v := HexValue(Peek(t, p));
      HexStep(t, p + 1, 3, v);
      if IsHexDig(Peek(t, p + 1)) {
        v := 16 * v + HexValue(Peek(t, p + 1));
        HexStep(t, p + 2, 2, v);
        if IsHexDig(Peek(t, p + 2)) {
          v := 16 * v + HexValue(Peek(t, p + 2));
          HexStep(t, p + 3, 1, v);
          if IsHexDig(Peek(t, p + 3)) {
            v := 16 * v + HexValue(Peek(t, p + 3));
            NoHexStep(t, p + 4, v);
          }
        }
      }
    }
  }

  lemma NoHexStep(t: Text, p: nat, v: nat)
    ensures S.HexRun(t, p, 0, v) == S.Digits(v)
  {
  }

  /** The escape at `p` is none, for the reason that the code tells. */
  predicate BadEscape(t: Text, p: nat, code: ErrorCode) {
    var e := Peek(t, p + 1);
    && (code.StringEscapeInvalid? || code.StringUnicodeEscapeInvalidHex? || code.StringUnicodeSurrogateInvalid?)
    && (code.StringEscapeInvalid? <==> !IsEscaped(e) && e != LETTER_U)
    && (code.StringUnicodeEscapeInvalidHex? ==> !HexAt(t, p + 2) || (LowFollows(t, p) && !HexAt(t, p + 8)))
    && (code.StringUnicodeSurrogateInvalid? ==>
          && HexAt(t, p + 2) && IsHighSurrogate(CodeOf(t[p + 2..p + 6]))
          && (LowFollows(t, p) ==> HexAt(t, p + 8) && !IsLowSurrogate(CodeOf(t[p + 8..p + 12]))))
  }

  /** Behind a high surrogate another escape of the same kind begins. */
  predicate LowFollows(t: Text, p: nat) {
    && HexAt(t, p + 2) && IsHighSurrogate(CodeOf(t[p + 2..p + 6]))
    && Peek(t, p + 6) == ESCAPE && Peek(t, p + 7) == LETTER_U
  }

  /** One escape sequence: read as a unit of the grammar, or refused for a reason. */
  lemma EscapeFound(t: Text, p: nat) returns (u: Unit)
    requires p < |t| && t[p] == ESCAPE
    ensures match S.EscapeAt(t, p)
            case Chars(s, end) => UnitOk(u) && !u.Plain? && p < end <= |t| && t[p..end] == UnitText(u) && s == UnitBytes(u)
            case BadString(code, off) => off == p && BadEscape(t, p, code)
  {
    hide S.CodepointAt, S.Utf8, CodeOf, FourHex;
    var e := Peek(t, p + 1);
    UnescapeIs(e);
    if e == LETTER_U {
      u := CodeFound(t, p);
      hide UnitText, UnitBytes, UnitOk, BadEscape;
    } else {
      u := Escaped(e);
    }
  }

  /** The code point of a surrogate pair. */
  function PairOf(high: nat, low: nat): (v: nat)
    requires IsHighSurrogate(high) && IsLowSurrogate(low)
    ensures v <= 0x10FFFF
  {
    0x10000 + (high - 0xD800) * 0x400 + (low - 0xDC00)
  }

  /** The code points of the escapes, by their digits. */
  lemma CodepointIs(t: Text, p: nat)
    ensures S.CodepointAt(t, p + 2)
            == if !HexAt(t, p + 2) then S.BadCodepoint(StringUnicodeEscapeInvalidHex)
               else if !IsHighSurrogate(CodeOf(t[p + 2..p + 6])) then S.Codepoint(CodeOf(t[p + 2..p + 6]), p + 6)
               else if Peek(t, p + 6) != ESCAPE || Peek(t, p + 7) != LETTER_U then S.BadCodepoint(StringUnicodeSurrogateInvalid)
               else if !HexAt(t, p + 8) then S.BadCodepoint(StringUnicodeEscapeInvalidHex)
               else if !IsLowSurrogate(CodeOf(t[p + 8..p + 12])) then S.BadCodepoint(StringUnicodeSurrogateInvalid)
               else S.Codepoint(PairOf(CodeOf(t[p + 2..p + 6]), CodeOf(t[p + 8..p + 12])), p + 12)
  {
    hide S.Hex4, CodeOf, FourHex, IsHexDig;
    Hex4Is(t, p + 2);
    Hex4Is(t, p + 8);
  }

  /** The same behind \\u. */
  lemma CodeFound(t: Text, p: nat) returns (u: Unit)
    requires p < |t| && t[p] == ESCAPE && Peek(t, p + 1) == LETTER_U
    ensures match S.CodepointAt(t, p + 2)
            case Codepoint(v, end) =>
              UnitOk(u) && !u.Plain? && p < end <= |t| && t[p..end] == UnitText(u) && S.Utf8(v) == UnitBytes(u)
            case BadCodepoint(code) => BadEscape(t, p, code)
  {
    hide S.CodepointAt, S.Utf8, CodeOf, FourHex, UnitText, PairOf;
    CodepointIs(t, p);
    u := Plain(0);
    if HexAt(t, p + 2) {
      if !IsHighSurrogate(CodeOf(t[p + 2..p + 6])) {
        u := Code(t[p + 2..p + 6]);
        CodeText(t, p);
      } else if LowFollows(t, p) && HexAt(t, p + 8) && IsLowSurrogate(CodeOf(t[p + 8..p + 12])) {
        u := Surrogates(t[p + 2..p + 6], t[p + 8..p + 12]);
        CodeText(t, p);
      }
    }
  }

  lemma CodeText(t: Text, p: nat)
    requires p + 6 <= |t| && t[p] == ESCAPE && t[p + 1] == LETTER_U
    ensures t[p..p + 6] == UnitText(Code(t[p + 2..p + 6]))
    ensures p + 12 <= |t| && t[p + 6] == ESCAPE && t[p + 7] == LETTER_U ==>
      t[p..p + 12] == UnitText(Surrogates(t[p + 2..p + 6], t[p + 8..p + 12]))
  {
    var mark := [ESCAPE, LETTER_U];
    assert t[p..p + 2] == mark && t[p..p + 6] == t[p..p + 2] + t[p + 2..p + 6];
    if p + 12 <= |t| && t[p + 6] == ESCAPE && t[p + 7] == LETTER_U {
      assert t[p + 6..p + 8] == mark;
      assert t[p..p + 8] == t[p..p + 6] + t[p + 6..p + 8];
      assert t[p..p + 12] == t[p..p + 8] + t[p + 8..p + 12];
    }
  }

  lemma UnescapeIs(e: Byte)
    ensures S.Unescape(e) == if IsEscaped(e) then EscapedValue(e) else 0
    ensures IsEscaped(e) ==> e != 0 && e != LETTER_U && EscapedValue(e) != 0
  {
  }

  /** Every escape of the grammar is read as what it stands for. */
  lemma EscapeRead(t: Text, p: nat, u: Unit)
    requires UnitOk(u) && !u.Plain? && Stands(t, p, UnitText(u))
    ensures p < |t| && t[p] == ESCAPE
    ensures S.EscapeAt(t, p) == S.Chars(UnitBytes(u), p + |UnitText(u)|)
  {
    hide S.CodepointAt, S.Utf8, CodeOf, FourHex, PairOf, Stands;
    var s := UnitText(u);
    StandsWithin(t, p, s);
    PeekStands(t, p, s, 0);
    PeekStands(t, p, s, 1);
    UnescapeIs(s[1]);
    match u {
      case Plain(c) =>
      case Escaped(e) =>
      case Code(h) =>
        CodepointIs(t, p);
        CodeStands(t, p, h);
      case Surrogates(high, low) =>
        CodepointIs(t, p);
        PairStands(t, p, high, low);
    }
  }

  lemma CodeStands(t: Text, p: nat, h: Text)
    requires FourHex(h) && Stands(t, p, UnitText(Code(h)))
    ensures p + 6 <= |t| && t[p + 2..p + 6] == h && |UnitText(Code(h))| == 6
  {
    hide Stands;
    StandsWithin(t, p, UnitText(Code(h)));
    StandsSplit(t, p, [ESCAPE, LETTER_U], h);
    StandsSlice(t, p + 2, h);
  }

  lemma PairStands(t: Text, p: nat, high: Text, low: Text)
    requires FourHex(high) && FourHex(low) && Stands(t, p, UnitText(Surrogates(high, low)))
    ensures p + 12 <= |t| && t[p + 2..p + 6] == high && t[p + 8..p + 12] == low
    ensures |UnitText(Surrogates(high, low))| == 12
    ensures Peek(t, p + 6) == ESCAPE && Peek(t, p + 7) == LETTER_U
  {
    hide Stands;
    var mark := [ESCAPE, LETTER_U];
    StandsWithin(t, p, UnitText(Surrogates(high, low)));
    StandsSplit(t, p, mark + high + mark, low);
    StandsSplit(t, p, mark + high, mark);
    StandsSplit(t, p, mark, high);
    StandsSlice(t, p + 2, high);
    StandsSlice(t, p + 8, low);
    PeekStands(t, p + 6, mark, 0);
    PeekStands(t, p + 6, mark, 1);
  }

  /** How reading a string body from `p` on ends: at the quotation mark, or behind the units `us` for a reason. */
  ghost predicate BodyRead(t: Text, p: nat, acc: Text, us: seq<Unit>, d: S.Decoded) {
    && UnitsOk(us)
    && match d
       case Chars(s, end) => p < end <= |t| && t[p..end] == UnitsText(us) + [QUOTATION_MARK] && s == acc + UnitsBytes(us)
       case BadString(code, off) => p <= off <= |t| && t[p..off] == UnitsText(us) && BadUnit(t, off, code)
  }

  /** No unit and no quotation mark stands at `off`. */
  predicate BadUnit(t: Text, off: nat, code: ErrorCode) {
    match code
    case StringMissQuotationMark => Peek(t, off) == 0
    case StringInvalidEncoding => 0 < Peek(t, off) < 0x20
    case _ => Peek(t, off) == ESCAPE && BadEscape(t, off, code)
  }

  lemma UnitInFront(t: Text, p: nat, q: nat, acc: Text, u: Unit, us: seq<Unit>, d: S.Decoded)
    requires UnitOk(u) && p <= q <= |t| && t[p..q] == UnitText(u) && BodyRead(t, q, acc + UnitBytes(u), us, d)
    ensures BodyRead(t, p, acc, [u] + us, d)
  {
    hide UnitText, UnitBytes, BadUnit, UnitOk;
    var all := [u] + us;
    assert all[1..] == us && all[0] == u;
    assert UnitsText(all) == UnitText(u) + UnitsText(us) && UnitsBytes(all) == UnitBytes(u) + UnitsBytes(us);
    match d {
      case Chars(s, end) => assert t[p..end] == t[p..q] + t[q..end];
      case BadString(code, off) => assert t[p..off] == t[p..q] + t[q..off];
    }
  }

  /** What the string scanner accepts is made of units; what it refuses goes wrong where it says. */
  lemma {:induction false} BodyFound(t: Text, p: nat, acc: Text) returns (us: seq<Unit>)
    requires p <= |t|
    ensures BodyRead(t, p, acc, us, S.StringBody(t, p, acc))
    decreases |t| - p
  {
    hide BodyRead, S.EscapeAt, UnitBytes, BadEscape;
    var c := Peek(t, p);
    var d := S.StringBody(t, p, acc);
    us := [];
    if c == ESCAPE {
      var u := EscapeFound(t, p);
      var e := S.EscapeAt(t, p);
      if e.Chars? {
        us := BodyFound(t, e.end, acc + e.s);
        UnitInFront(t, p, e.end, acc, u, us, d);
        us := [u] + us;
      } else {
        BodyStops(t, p, acc);
      }
    } else if c == QUOTATION_MARK || c < 0x20 {
      BodyStops(t, p, acc);
    } else {
      PlainUnit(c);
      us := BodyFound(t, p + 1, acc + [c]);
      assert t[p..p + 1] == [c];
      UnitInFront(t, p, p + 1, acc, Plain(c), us, d);
      us := [Plain(c)] + us;
    }
  }

  lemma PlainUnit(c: Byte)
    requires c >= 0x20 && c != QUOTATION_MARK && c != ESCAPE
    ensures UnitOk(Plain(c)) && UnitBytes(Plain(c)) == [c] && UnitText(Plain(c)) == [c]
  {
  }

  lemma BodyStops(t: Text, p: nat, acc: Text)
    requires p <= |t|
    requires Peek(t, p) == QUOTATION_MARK || Peek(t, p) < 0x20 || (Peek(t, p) == ESCAPE && S.EscapeAt(t, p).BadString?)
    ensures BodyRead(t, p, acc, [], S.StringBody(t, p, acc))
  {
    hide BadEscape, S.EscapeAt;
    assert t[p..p] == [] && acc + [] == acc;
    if Peek(t, p) == ESCAPE {
      var _ := EscapeFound(t, p);
      assert BadEscape(t, p, S.EscapeAt(t, p).code);
      BadEscapeCodes(t, p, S.EscapeAt(t, p).code);
    } else if p < |t| && t[p] == QUOTATION_MARK {
      assert t[p..p + 1] == [] + [QUOTATION_MARK];
    }
  }

  lemma BadEscapeCodes(t: Text, p: nat, code: ErrorCode)
    requires BadEscape(t, p, code)
    ensures code != StringMissQuotationMark && code != StringInvalidEncoding
  {
  }

  /** Every string body of the grammar is read as what its units stand for. */
  lemma {:induction false} BodyTaken(t: Text, p: nat, us: seq<Unit>, acc: Text)
    requires UnitsOk(us) && Stands(t, p, UnitsText(us) + [QUOTATION_MARK])
    ensures S.StringBody(t, p, acc) == S.Chars(acc + UnitsBytes(us), p + |UnitsText(us)| + 1)
    decreases |us|
  {
    hide S.EscapeAt, UnitText, UnitBytes, Stands;
    if us == [] {
      assert UnitsText(us) + [QUOTATION_MARK] == [QUOTATION_MARK];
      PeekStands(t, p, [QUOTATION_MARK], 0);
      assert acc + [] == acc;
    } else {
      var u, rest := us[0], UnitsText(us[1..]) + [QUOTATION_MARK];
      var q := p + |UnitText(u)|;
      assert UnitsText(us) + [QUOTATION_MARK] == UnitText(u) + rest;
      StandsSplit(t, p, UnitText(u), rest);
      PeekStands(t, p, UnitText(u), 0);
      BodyTaken(t, q, us[1..], acc + UnitBytes(u));
      assert acc + UnitBytes(u) + UnitsBytes(us[1..]) == acc + UnitsBytes(us);
      UnitTaken(t, p, u, acc);
    }
  }

  lemma UnitTaken(t: Text, p: nat, u: Unit, acc: Text)
    requires UnitOk(u) && Stands(t, p, UnitText(u))
    ensures S.StringBody(t, p, acc) == S.StringBody(t, p + |UnitText(u)|, acc + UnitBytes(u))
  {
    hide S.EscapeAt, Stands, UnitText;
    if u.Plain? {
      PlainUnit(u.c);
      PeekStands(t, p, UnitText(u), 0);
    } else {
      EscapeRead(t, p, u);
      hide UnitBytes, UnitOk;
    }
  }

  /** ParseString reads every string of the grammar, whatever stands behind it. */
  lemma StringTaken(t: Text, p: nat, us: seq<Unit>)
    requires UnitsOk(us) && Stands(t, p, StringText(us))
    ensures Peek(t, p) == QUOTATION_MARK
    ensures S.ParseString(t, p) == S.Chars(UnitsBytes(us), p + |StringText(us)|)
  {
    StandsSplit(t, p, [QUOTATION_MARK], UnitsText(us) + [QUOTATION_MARK]);
    PeekStands(t, p, [QUOTATION_MARK], 0);
    BodyTaken(t, p + 1, us, []);
    assert [] + UnitsBytes(us) == UnitsBytes(us);
  }

  /** What ParseString accepts is a string of the grammar; what it refuses goes wrong where it says. */
  lemma StringFound(t: Text, p: nat) returns (us: seq<Unit>)
    requires p < |t| && t[p] == QUOTATION_MARK
    ensures UnitsOk(us)
    ensures match S.ParseString(t, p)
            case Chars(s, end) => p < end <= |t| && t[p..end] == StringText(us) && s == UnitsBytes(us)
            case BadString(code, off) => p < off <= |t| && t[p + 1..off] == UnitsText(us) && BadUnit(t, off, code)
  {
    hide BadUnit;
    us := BodyFound(t, p + 1, []);
    match S.ParseString(t, p) {
      case Chars(s, end) =>
        assert t[p..end] == [t[p]] + t[p + 1..end];
        assert [] + UnitsBytes(us) == UnitsBytes(us);
      case BadString(code, off) =>
    }
  }

  // ---------------------------------------------------------------- numbers

  const MINUS := 0x2D
  const PLUS := 0x2B
  const POINT := 0x2E
  const ZERO := 0x30

  predicate IsExponentLetter(c: int) { c == 0x65 || c == 0x45 }

  datatype Exponent = NoExponent | Exponent(letter: Byte, sign: Text, digits: Text)

  /** A number by the parts of section 6 of RFC 8259; no fraction is one without digits. */
  datatype Numeral = Numeral(minus: bool, whole: Text, fraction: Text, exponent: Exponent)

  predicate ExponentOk(e: Exponent) {
    e.Exponent? ==>
      && IsExponentLetter(e.letter) && (e.sign == [] || e.sign == [PLUS] || e.sign == [MINUS])
      && e.digits != [] && AllDecDigits(e.digits)
  }

  predicate NumeralOk(n: Numeral) {
    && n.whole != [] && AllDecDigits(n.whole) && (n.whole[0] == ZERO ==> |n.whole| == 1)
    && AllDecDigits(n.fraction) && ExponentOk(n.exponent)
  }

  function SignText(minus: bool): Text { if minus then [MINUS] else [] }
  function FractionText(f: Text): Text { if f == [] then [] else [POINT] + f }
  function ExponentText(e: Exponent): Text {
    match e
    case NoExponent => []
    case Exponent(letter, sign, digits) => [letter] + (sign + digits)
  }

  function NumeralText(n: Numeral): Text {
    SignText(n.minus) + (n.whole + (FractionText(n.fraction) + ExponentText(n.exponent)))
  }

  /** The value of decimal digits. */
  function ValueOf(s: Text): nat
    requires AllDecDigits(s)
  {
    if s == [] then 0 else 10 * ValueOf(s[..|s| - 1]) + (s[|s| - 1] - ZERO)
  }

  function WholeOf(n: Numeral): int
    requires NumeralOk(n)
  {
    if n.minus then 0 - ValueOf(n.whole) else ValueOf(n.whole)
  }

  /** The integer part lies outside -2^63 .. 2^64 - 1. */
  predicate BeyondIntegers(n: Numeral)
    requires NumeralOk(n)
  {
    WholeOf(n) < -0x8000_0000_0000_0000 || WholeOf(n) > 0xFFFF_FFFF_FFFF_FFFF
  }

  /** The event for a number: an integer of the smallest type of its sign, or a double. */
  function NumeralEvent(n: Numeral): Event
    requires NumeralOk(n)
  {
    if n.fraction != [] || n.exponent.Exponent? || BeyondIntegers(n) then Double(NumeralText(n))
    else if n.minus then if WholeOf(n) >= -0x8000_0000 then Int(WholeOf(n)) else Int64(WholeOf(n))
    else if WholeOf(n) <= 0xFFFF_FFFF then Uint(WholeOf(n)) else Uint64(WholeOf(n))
  }

  /** One of the two floating-point tests of the reader fires. */
  predicate TooBig(o: Options, n: Numeral)
    requires NumeralOk(n)
  {
    || (BeyondIntegers(n) && o.intTooBig(n.whole))
    || (n.exponent.Exponent? && n.exponent.sign != [MINUS] && o.expTooBig(NumeralText(n)))
  }

  /** The integer part `s` ends at `p`: a zero is alone. */
  predicate WholeStops(t: Text, p: nat, s: Text) { s != [ZERO] ==> !IsDecDigit(Peek(t, p)) }
  predicate FractionStops(t: Text, p: nat, f: Text) { if f == [] then Peek(t, p) != POINT else !IsDecDigit(Peek(t, p)) }
  predicate ExponentStops(t: Text, p: nat, e: Exponent) {
    if e.NoExponent? then !IsExponentLetter(Peek(t, p)) else !IsDecDigit(Peek(t, p))
  }

  /** The number `n` does not go on at `p`, where its text ends. */
  predicate NumberStops(t: Text, p: nat, n: Numeral) {
    && ExponentStops(t, p, n.exponent)
    && (n.exponent.NoExponent? ==> FractionStops(t, p, n.fraction) && (n.fraction == [] ==> WholeStops(t, p, n.whole)))
  }

  lemma {:induction false} DigitsTaken(t: Text, p: nat, s: Text)
    requires Stands(t, p, s) && AllDecDigits(s) && !IsDecDigit(Peek(t, p + |s|))
    ensures S.DigitsEnd(t, p) == p + |s|
    decreases |s|
  {
    if s != [] {
      assert s == [s[0]] + s[1..];
      PeekStands(t, p, s, 0);
      StandsSplit(t, p, [s[0]], s[1..]);
      DigitsTaken(t, p + 1, s[1..]);
    }
  }

  lemma {:induction false} ValueIs(s: Text)
    requires AllDecDigits(s)
    ensures S.AllDigits(s) && S.DecimalValue(s) == ValueOf(s)
  {
    if s != [] {
      ValueIs(s[..|s| - 1]);
    }
  }

  lemma WholeTaken(t: Text, p: nat, s: Text)
    requires s != [] && AllDecDigits(s) && (s[0] == ZERO ==> |s| == 1) && Stands(t, p, s) && WholeStops(t, p + |s|, s)
    ensures S.IntegerPart(t, p) == S.End(p + |s|) && p + |s| <= |t| && t[p..p + |s|] == s
  {
    PeekStands(t, p, s, 0);
    if s[0] != ZERO {
      DigitsTaken(t, p, s);
    }
  }

  lemma FractionTaken(t: Text, p: nat, f: Text)
    requires AllDecDigits(f) && Stands(t, p, FractionText(f)) && FractionStops(t, p + |FractionText(f)|, f)
    ensures p + |FractionText(f)| <= |t| && S.FractionPart(t, p) == S.End(p + |FractionText(f)|)
  {
    if f != [] {
      StandsSplit(t, p, [POINT], f);
      PeekStands(t, p, [POINT], 0);
      PeekStands(t, p + 1, f, 0);
      DigitsTaken(t, p + 1, f);
    }
  }

  lemma ExponentTaken(o: Options, t: Text, start: nat, p: nat, e: Exponent)
    requires start <= p && ExponentOk(e) && Stands(t, p, ExponentText(e)) && ExponentStops(t, p + |ExponentText(e)|, e)
    ensures var q := p + |ExponentText(e)|;
            && q <= |t|
            && S.ExponentPart(o, t, start, p)
               == if e.Exponent? && e.sign != [MINUS] && o.expTooBig(t[start..q]) then S.BadNumber(NumberTooBig, start)
                  else S.End(q)
  {
    hide Stands, AllDecDigits, ExponentText;
    if e.Exponent? {
      ExponentStands(t, p, e);
      SignBeforeDigits(t, p + 1, e);
      DigitsTaken(t, p + 1 + |e.sign|, e.digits);
    } else {
      assert ExponentText(e) == [] by { NoPart(t, p); }
      StandsWithin(t, p, ExponentText(e));
    }
  }

  lemma ExponentStands(t: Text, p: nat, e: Exponent)
    requires e.Exponent? && Stands(t, p, ExponentText(e))
    ensures Peek(t, p) == e.letter && Stands(t, p + 1, e.sign) && Stands(t, p + 1 + |e.sign|, e.digits)
    ensures |ExponentText(e)| == 1 + |e.sign| + |e.digits| && p + |ExponentText(e)| <= |t|
  {
    hide Stands;
    StandsWithin(t, p, ExponentText(e));
    StandsSplit(t, p, [e.letter], e.sign + e.digits);
    PeekStands(t, p, [e.letter], 0);
    StandsSplit(t, p + 1, e.sign, e.digits);
  }

  lemma SignBeforeDigits(t: Text, p: nat, e: Exponent)
    requires e.Exponent? && ExponentOk(e) && Stands(t, p, e.sign) && Stands(t, p + |e.sign|, e.digits)
    ensures IsDecDigit(Peek(t, p + |e.sign|))
    ensures Peek(t, p) == PLUS <==> e.sign == [PLUS]
    ensures Peek(t, p) == MINUS <==> e.sign == [MINUS]
  {
    PeekStands(t, p + |e.sign|, e.digits, 0);
    if e.sign != [] {
      PeekStands(t, p, e.sign, 0);
    }
  }

  /** Every number of the grammar with an end behind it is read whole, as its event, unless it is too big. */
  lemma NumberTaken(o: Options, t: Text, p: nat, n: Numeral, out: seq<Event>)
    requires NumeralOk(n) && Stands(t, p, NumeralText(n)) && NumberStops(t, p + |NumeralText(n)|, n)
    ensures p + |NumeralText(n)| <= |t|
    ensures S.ParseNumber(o, t, p, out)
            == if TooBig(o, n) then Err(NumberTooBig, p, out)
               else Emit(o, NumeralEvent(n), p + |NumeralText(n)|, p, out)
  {
    hide *;
    var ip := p + |SignText(n.minus)|;
    var wp := ip + |n.whole|;
    var fp := wp + |FractionText(n.fraction)|;
    PartsStand(t, p, n);
    SignTaken(t, p, n);
    PartHeads(t, wp, n);
    WholeTaken(t, ip, n.whole);
    FractionTaken(t, wp, n.fraction);
    ExponentTaken(o, t, p, fp, n.exponent);
    NumberOfParts(o, t, p, n, out);
  }

  lemma PartsStand(t: Text, p: nat, n: Numeral)
    requires NumeralOk(n) && Stands(t, p, NumeralText(n))
    ensures var ip := p + |SignText(n.minus)|;
            var wp := ip + |n.whole|;
            var fp := wp + |FractionText(n.fraction)|;
            && Stands(t, p, SignText(n.minus)) && Stands(t, ip, n.whole)
            && Stands(t, wp, FractionText(n.fraction)) && Stands(t, fp, ExponentText(n.exponent))
            && fp + |ExponentText(n.exponent)| == p + |NumeralText(n)| <= |t|
            && t[p..p + |NumeralText(n)|] == NumeralText(n)
    ensures n.whole != [] && AllDecDigits(n.whole) && (n.whole[0] == ZERO ==> |n.whole| == 1)
    ensures AllDecDigits(n.fraction) && ExponentOk(n.exponent)
  {
    hide Stands, ExponentText, FractionText, ExponentOk;
    var sign, rest := SignText(n.minus), FractionText(n.fraction) + ExponentText(n.exponent);
    StandsSplit(t, p, sign, n.whole + rest);
    StandsSplit(t, p + |sign|, n.whole, rest);
    StandsSplit(t, p + |sign| + |n.whole|, FractionText(n.fraction), ExponentText(n.exponent));
    StandsWithin(t, p, NumeralText(n));
    StandsSlice(t, p, NumeralText(n));
  }

  /** The parts that ParseNumber has found decide the event. */
  lemma NumberOfParts(o: Options, t: Text, p: nat, n: Numeral, out: seq<Event>)
    requires NumeralOk(n) && (Peek(t, p) == MINUS <==> n.minus)
    requires var ip := p + |SignText(n.minus)|;
             var wp := ip + |n.whole|;
             var fp := wp + |FractionText(n.fraction)|;
             var q := p + |NumeralText(n)|;
             && fp <= q <= |t| && t[ip..wp] == n.whole && t[p..q] == NumeralText(n)
             && S.IntegerPart(t, ip) == S.End(wp) && S.FractionPart(t, wp) == S.End(fp)
             && S.ExponentPart(o, t, p, fp)
                == if n.exponent.Exponent? && n.exponent.sign != [MINUS] && o.expTooBig(t[p..q]) then S.BadNumber(NumberTooBig, p)
                   else S.End(q)
    ensures S.ParseNumber(o, t, p, out)
            == if TooBig(o, n) then Err(NumberTooBig, p, out)
               else Emit(o, NumeralEvent(n), p + |NumeralText(n)|, p, out)
  {
    hide S.IntegerPart, S.FractionPart, S.ExponentPart, NumeralText, FractionText, Emit, NumeralOk, BeyondIntegers,
      NumeralEvent, S.DecimalValue, S.AllDigits, S.IntegerEvent, S.IntegerLimit;
    EventOfParts(n);
    var ip := if n.minus then p + 1 else p;
    assert ip == p + |SignText(n.minus)|;
    var wp, q := ip + |n.whole|, p + |NumeralText(n)|;
    var beyond := BeyondIntegers(n);
    assert S.IntegerPart(t, ip) == S.End(wp) && t[ip..wp] == n.whole;
    if !(beyond && o.intTooBig(n.whole)) {
      assert TooBig(o, n) <==> n.exponent.Exponent? && n.exponent.sign != [MINUS] && o.expTooBig(NumeralText(n));
      if !TooBig(o, n) {
        assert q != wp <==> n.fraction != [] || n.exponent.Exponent?;
        assert NumeralEvent(n) == if beyond || q != wp then Double(t[p..q]) else S.IntegerEvent(n.minus, S.DecimalValue(n.whole));
      }
    }
  }

  lemma EventOfParts(n: Numeral)
    requires NumeralOk(n)
    ensures S.AllDigits(n.whole) && (BeyondIntegers(n) <==> S.DecimalValue(n.whole) > S.IntegerLimit(n.minus))
    ensures |NumeralText(n)| == |SignText(n.minus)| + |n.whole| <==> n.fraction == [] && n.exponent.NoExponent?
    ensures NumeralEvent(n)
            == if BeyondIntegers(n) || n.fraction != [] || n.exponent.Exponent? then Double(NumeralText(n))
               else S.IntegerEvent(n.minus, S.DecimalValue(n.whole))
  {
    ValueIs(n.whole);
    PartLengths(n);
    hide S.DecimalValue, ValueOf, NumeralText, AllDecDigits;
  }

  lemma SignTaken(t: Text, p: nat, n: Numeral)
    requires NumeralOk(n) && Stands(t, p, SignText(n.minus)) && Stands(t, p + |SignText(n.minus)|, n.whole)
    ensures Peek(t, p) == MINUS <==> n.minus
  {
    PeekStands(t, p + |SignText(n.minus)|, n.whole, 0);
    if n.minus {
      PeekStands(t, p, SignText(n.minus), 0);
    }
  }

  /** What follows the integer part and the fraction ends them. */
  lemma PartHeads(t: Text, p: nat, n: Numeral)
    requires AllDecDigits(n.fraction) && ExponentOk(n.exponent)
    requires Stands(t, p, FractionText(n.fraction)) && Stands(t, p + |FractionText(n.fraction)|, ExponentText(n.exponent))
    requires NumberStops(t, p + |FractionText(n.fraction)| + |ExponentText(n.exponent)|, n)
    ensures WholeStops(t, p, n.whole) && FractionStops(t, p + |FractionText(n.fraction)|, n.fraction)
    ensures ExponentStops(t, p + |FractionText(n.fraction)| + |ExponentText(n.exponent)|, n.exponent)
  {
    if n.fraction != [] {
      PeekStands(t, p, FractionText(n.fraction), 0);
    }
    if n.exponent.Exponent? {
      PeekStands(t, p + |FractionText(n.fraction)|, ExponentText(n.exponent), 0);
    }
  }

  /** Parts that end make up a number that ends. */
  lemma PartsStop(t: Text, p: nat, n: Numeral)
    requires WholeStops(t, p, n.whole) && FractionStops(t, p + |FractionText(n.fraction)|, n.fraction)
    requires ExponentStops(t, p + |FractionText(n.fraction)| + |ExponentText(n.exponent)|, n.exponent)
    ensures NumberStops(t, p + |FractionText(n.fraction)| + |ExponentText(n.exponent)|, n)
  {
  }

  lemma PartLengths(n: Numeral)
    ensures |NumeralText(n)| == |SignText(n.minus)| + |n.whole| <==> n.fraction == [] && n.exponent.NoExponent?
  {
  }

  /** Why no number can be read at `p`; `n` is what could be read before the place `off` that is told. */
  predicate BadNumeral(o: Options, t: Text, p: nat, n: Numeral, code: ErrorCode, off: nat) {
    match code
    case ValueInvalid => off == (if Peek(t, p) == MINUS then p + 1 else p) && !IsDecDigit(Peek(t, off))
    case NumberMissFraction =>
      && NumeralOk(n) && n.fraction == [] && n.exponent.NoExponent?
      && Stands(t, p, NumeralText(n) + [POINT]) && off == p + |NumeralText(n)| + 1 && !IsDecDigit(Peek(t, off))
    case NumberMissExponent =>
      && NumeralOk(n) && n.exponent.NoExponent? && Stands(t, p, NumeralText(n))
      && var k := p + |NumeralText(n)|;
         && IsExponentLetter(Peek(t, k)) && !IsDecDigit(Peek(t, off))
         && off == if Peek(t, k + 1) == PLUS || Peek(t, k + 1) == MINUS then k + 2 else k + 1
    case NumberTooBig => off == p && NumeralOk(n) && Stands(t, p, NumeralText(n)) && TooBig(o, n)
    case _ => false
  }

  /** What ParseNumber has read: a number of the grammar, delivered as its event, or a bad one. */
  predicate NumberRead(o: Options, t: Text, p: nat, out: seq<Event>, n: Numeral, r: Outcome) {
    match r
    case Ok(q, out1) =>
      && NumeralOk(n) && !TooBig(o, n) && q == p + |NumeralText(n)| && Stands(t, p, NumeralText(n)) && NumberStops(t, q, n)
      && out1 == out + [NumeralEvent(n)] && o.accepts(out1)
    case Err(code, off, out1) =>
      if code.Termination? then
        && NumeralOk(n) && !TooBig(o, n) && off == p && Stands(t, p, NumeralText(n))
        && NumberStops(t, p + |NumeralText(n)|, n) && out1 == out + [NumeralEvent(n)] && !o.accepts(out1)
      else out1 == out && BadNumeral(o, t, p, n, code, off)
  }

  lemma DigitsFound(t: Text, p: nat)
    requires p <= |t|
    ensures var q := S.DigitsEnd(t, p); p <= q <= |t| && AllDecDigits(t[p..q]) && !IsDecDigit(Peek(t, q))
  {
    var q := S.DigitsEnd(t, p);
    forall i | 0 <= i < q - p
      ensures IsDecDigit(t[p..q][i])
    {
      assert S.IsDigit(Peek(t, p + i));
    }
  }

  lemma WholeFound(t: Text, p: nat)
    requires p <= |t|
    ensures match S.IntegerPart(t, p)
            case End(q) =>
              p < q <= |t| && AllDecDigits(t[p..q]) && (t[p] == ZERO ==> q == p + 1) && WholeStops(t, q, t[p..q])
            case BadNumber(code, off) => code == ValueInvalid && off == p && !IsDecDigit(Peek(t, p))
  {
    if p < |t| {
      DigitsFound(t, p + 1);
      var q := S.DigitsEnd(t, p + 1);
      assert t[p..q] == [t[p]] + t[p + 1..q];
    }
  }

  lemma FractionFound(t: Text, p: nat) returns (f: Text)
    requires p <= |t|
    ensures match S.FractionPart(t, p)
            case End(q) => p <= q <= |t| && AllDecDigits(f) && t[p..q] == FractionText(f) && FractionStops(t, q, f)
            case BadNumber(code, off) =>
              code == NumberMissFraction && off == p + 1 && Peek(t, p) == POINT && !IsDecDigit(Peek(t, off))
  {
    f := [];
    if Peek(t, p) == POINT {
      DigitsFound(t, p + 1);
      f := t[p + 1..S.DigitsEnd(t, p + 1)];
    }
  }

  lemma ExponentFound(o: Options, t: Text, start: nat, p: nat) returns (e: Exponent)
    requires start <= p <= |t|
    ensures match S.ExponentPart(o, t, start, p)
            case End(q) =>
              && p <= q <= |t| && ExponentOk(e) && t[p..q] == ExponentText(e) && ExponentStops(t, q, e)
              && !(e.Exponent? && e.sign != [MINUS] && o.expTooBig(t[start..q]))
            case BadNumber(code, off) =>
              if code == NumberTooBig then
                && off == start && ExponentOk(e) && e.Exponent? && e.sign != [MINUS]
                && p + |ExponentText(e)| <= |t| && t[p..p + |ExponentText(e)|] == ExponentText(e)
                && o.expTooBig(t[start..p + |ExponentText(e)|])
              else
                && code == NumberMissExponent && IsExponentLetter(Peek(t, p)) && !IsDecDigit(Peek(t, off))
                && off == if Peek(t, p + 1) == PLUS || Peek(t, p + 1) == MINUS then p + 2 else p + 1
  {
    hide ExponentText, AllDecDigits;
    e := NoExponent;
    if IsExponentLetter(Peek(t, p)) {
      var k := if Peek(t, p + 1) == PLUS || Peek(t, p + 1) == MINUS then p + 2 else p + 1;
      if IsDecDigit(Peek(t, k)) {
        e := ExponentOf(t, p);
      }
    } else {
      NoPart(t, p);
    }
  }

  /** The exponent whose letter is at `p`. */
  lemma ExponentOf(t: Text, p: nat) returns (e: Exponent)
    requires p < |t| && IsExponentLetter(t[p])
    requires IsDecDigit(Peek(t, if Peek(t, p + 1) == PLUS || Peek(t, p + 1) == MINUS then p + 2 else p + 1))
    ensures var k := if Peek(t, p + 1) == PLUS || Peek(t, p + 1) == MINUS then p + 2 else p + 1;
            var q := S.DigitsEnd(t, k);
            && q <= |t| && e.Exponent? && ExponentOk(e) && q == p + |ExponentText(e)| && t[p..q] == ExponentText(e)
            && ExponentStops(t, q, e)
    ensures e.sign == [MINUS] <==> Peek(t, p + 1) == MINUS
  {
    hide S.DigitsEnd, AllDecDigits, ExponentText;
    var signed := Peek(t, p + 1) == PLUS || Peek(t, p + 1) == MINUS;
    var k := if signed then p + 2 else p + 1;
    DigitsFound(t, k);
    DigitsRun(t, k);
    var q := S.DigitsEnd(t, k);
    e := Exponent(t[p], if signed then [t[p + 1]] else [], t[k..q]);
    ExponentSlice(t, p, k, q);
  }

  lemma DigitsRun(t: Text, p: nat)
    requires IsDecDigit(Peek(t, p))
    ensures S.DigitsEnd(t, p) > p
  {
  }

  lemma ExponentSlice(t: Text, p: nat, k: nat, q: nat)
    requires p < k <= p + 2 && k < q <= |t|
    ensures var e := Exponent(t[p], if k == p + 2 then [t[p + 1]] else [], t[k..q]);
            |ExponentText(e)| == q - p && t[p..q] == ExponentText(e)
  {
    var sign := if k == p + 2 then [t[p + 1]] else [];
    assert t[p..k] == [t[p]] + sign;
    assert t[p..q] == t[p..k] + t[k..q];
    Joined3([t[p]], sign, t[k..q]);
  }

  /** Parts that follow one another make up a number. */
  lemma Assemble(t: Text, p: nat, n: Numeral, ip: nat, wp: nat, fp: nat, q: nat)
    requires p <= ip <= wp <= fp <= q <= |t|
    requires t[p..ip] == SignText(n.minus) && t[ip..wp] == n.whole
    requires t[wp..fp] == FractionText(n.fraction) && t[fp..q] == ExponentText(n.exponent)
    ensures q == p + |NumeralText(n)| && t[p..q] == NumeralText(n) && Stands(t, p, NumeralText(n))
  {
    hide SignText, FractionText, ExponentText;
    assert t[wp..q] == t[wp..fp] + t[fp..q];
    assert t[ip..q] == t[ip..wp] + t[wp..q];
    assert t[p..q] == t[p..ip] + t[ip..q];
    SliceStands(t, p, q);
  }

  lemma SliceStands(t: Text, p: nat, q: nat)
    requires p <= q <= |t|
    ensures Stands(t, p, t[p..q])
  {
  }

  /** The number that is read when its parts are found one after the other. */
  lemma NumberFoundRest(o: Options, t: Text, p: nat, out: seq<Event>, m: Numeral, wp: nat) returns (n: Numeral)
    requires p <= |t| && (m.minus <==> Peek(t, p) == MINUS)
    requires NumeralOk(m) && m.fraction == [] && m.exponent.NoExponent?
    requires var ip := p + |SignText(m.minus)|;
             ip < wp <= |t| && t[p..ip] == SignText(m.minus) && t[ip..wp] == m.whole && S.IntegerPart(t, ip) == S.End(wp)
    requires Stands(t, p, NumeralText(m)) && wp == p + |NumeralText(m)|
    requires !(BeyondIntegers(m) && o.intTooBig(m.whole)) && WholeStops(t, wp, m.whole)
    ensures NumberRead(o, t, p, out, n, S.ParseNumber(o, t, p, out))
  {
    hide *;
    var f := FractionFound(t, wp);
    if S.FractionPart(t, wp).BadNumber? {
      n := m;
      BadPart(o, t, p, out, m, wp);
    } else {
      n := NumberFoundEnd(o, t, p, out, m, wp, f);
    }
  }

  lemma NumberFoundEnd(o: Options, t: Text, p: nat, out: seq<Event>, m: Numeral, wp: nat, f: Text) returns (n: Numeral)
    requires p <= |t| && (m.minus <==> Peek(t, p) == MINUS) && NumeralOk(m)
    requires var ip := p + |SignText(m.minus)|;
             ip < wp <= |t| && t[p..ip] == SignText(m.minus) && t[ip..wp] == m.whole && S.IntegerPart(t, ip) == S.End(wp)
    requires !(BeyondIntegers(m) && o.intTooBig(m.whole)) && WholeStops(t, wp, m.whole)
    requires var x := S.FractionPart(t, wp);
             x.End? && wp <= x.end <= |t| && AllDecDigits(f) && t[wp..x.end] == FractionText(f) && FractionStops(t, x.end, f)
    ensures NumberRead(o, t, p, out, n, S.ParseNumber(o, t, p, out))
  {
    hide *;
    var ip, fp := p + |SignText(m.minus)|, S.FractionPart(t, wp).end;
    var e := ExponentFound(o, t, p, fp);
    var x := S.ExponentPart(o, t, p, fp);
    if x.BadNumber? && x.code == NumberMissExponent {
      e := NoExponent;
    }
    NoPart(t, fp);
    n := Numeral(m.minus, m.whole, f, e);
    LongerOk(m, n);
    Assemble(t, p, n, ip, wp, fp, fp + |ExponentText(e)|);
    BeyondWhole(m, n);
    StandsSlice(t, p, NumeralText(n));
    if x.End? {
      SmallEnough(o, n);
      NumberOfParts(o, t, p, n, out);
      PartsStop(t, wp, n);
      NumberAccepted(o, t, p, out, n);
    } else {
      ExponentIsBad(o, t, p, n, fp);
      BadExponent(o, t, p, out, n, wp, fp);
    }
  }

  lemma LongerOk(m: Numeral, n: Numeral)
    requires NumeralOk(m) && m.whole == n.whole && AllDecDigits(n.fraction) && ExponentOk(n.exponent)
    ensures NumeralOk(n)
  {
  }

  lemma SmallEnough(o: Options, n: Numeral)
    requires NumeralOk(n) && !(BeyondIntegers(n) && o.intTooBig(n.whole))
    requires !(n.exponent.Exponent? && n.exponent.sign != [MINUS] && o.expTooBig(NumeralText(n)))
    ensures !TooBig(o, n)
  {
  }

  lemma ExponentIsBad(o: Options, t: Text, p: nat, n: Numeral, fp: nat)
    requires p <= fp <= |t| && NumeralOk(n) && Stands(t, p, NumeralText(n))
    requires fp + |ExponentText(n.exponent)| == p + |NumeralText(n)| <= |t| && t[p..p + |NumeralText(n)|] == NumeralText(n)
    requires match S.ExponentPart(o, t, p, fp)
             case End(q) => false
             case BadNumber(code, off) =>
               if code == NumberTooBig then
                 off == p && n.exponent.Exponent? && n.exponent.sign != [MINUS] && o.expTooBig(t[p..p + |NumeralText(n)|])
               else
                 && code == NumberMissExponent && n.exponent.NoExponent?
                 && IsExponentLetter(Peek(t, fp)) && !IsDecDigit(Peek(t, off))
                 && off == if Peek(t, fp + 1) == PLUS || Peek(t, fp + 1) == MINUS then fp + 2 else fp + 1
    ensures var x := S.ExponentPart(o, t, p, fp); BadNumeral(o, t, p, n, x.code, x.off)
  {
    hide S.ExponentPart, NumeralText, Stands, BeyondIntegers, NumeralOk;
  }

  lemma NumberAccepted(o: Options, t: Text, p: nat, out: seq<Event>, n: Numeral)
    requires NumeralOk(n) && !TooBig(o, n) && Stands(t, p, NumeralText(n)) && NumberStops(t, p + |NumeralText(n)|, n)
    ensures NumberRead(o, t, p, out, n, Emit(o, NumeralEvent(n), p + |NumeralText(n)|, p, out))
  {
    hide NumeralText, NumeralEvent, TooBig, Stands;
  }

  lemma BadPart(o: Options, t: Text, p: nat, out: seq<Event>, m: Numeral, wp: nat)
    requires p <= |t| && (m.minus <==> Peek(t, p) == MINUS)
    requires NumeralOk(m) && m.fraction == [] && m.exponent.NoExponent?
    requires var ip := p + |SignText(m.minus)|;
             ip < wp <= |t| && t[ip..wp] == m.whole && S.IntegerPart(t, ip) == S.End(wp)
    requires Stands(t, p, NumeralText(m)) && wp == p + |NumeralText(m)|
    requires !(BeyondIntegers(m) && o.intTooBig(m.whole))
    requires S.FractionPart(t, wp) == S.BadNumber(NumberMissFraction, wp + 1) && Peek(t, wp) == POINT
    requires !IsDecDigit(Peek(t, wp + 1))
    ensures NumberRead(o, t, p, out, m, S.ParseNumber(o, t, p, out))
  {
    hide S.IntegerPart, S.FractionPart, S.ExponentPart, NumeralText, FractionText, ExponentText, NumeralEvent, Stands,
      BeyondIntegers, ExponentOk, AllDecDigits, S.IntegerEvent, S.DecimalValue, S.IntegerLimit, S.AllDigits, ValueOf;
    EventOfParts(m);
    PointBehind(t, p, m);
  }

  lemma BadExponent(o: Options, t: Text, p: nat, out: seq<Event>, n: Numeral, wp: nat, fp: nat)
    requires p <= |t| && (n.minus <==> Peek(t, p) == MINUS) && NumeralOk(n)
    requires var ip := p + |SignText(n.minus)|;
             ip < wp <= fp <= |t| && t[ip..wp] == n.whole && S.IntegerPart(t, ip) == S.End(wp) && S.FractionPart(t, wp) == S.End(fp)
    requires !(BeyondIntegers(n) && o.intTooBig(n.whole)) && Stands(t, p, NumeralText(n))
    requires var x := S.ExponentPart(o, t, p, fp); x.BadNumber? && BadNumeral(o, t, p, n, x.code, x.off)
    ensures NumberRead(o, t, p, out, n, S.ParseNumber(o, t, p, out))
  {
    hide S.IntegerPart, S.FractionPart, S.ExponentPart, NumeralText, FractionText, ExponentText, NumeralEvent, Stands,
      BeyondIntegers, ExponentOk, AllDecDigits, S.IntegerEvent, S.DecimalValue, S.IntegerLimit, S.AllDigits, ValueOf,
      BadNumeral;
    EventOfParts(n);
    assert S.ExponentPart(o, t, p, fp).code != Termination by { BadNumeralCode(o, t, p, n, S.ExponentPart(o, t, p, fp)); }
  }

  lemma BadNumeralCode(o: Options, t: Text, p: nat, n: Numeral, x: S.Span)
    requires x.BadNumber? && BadNumeral(o, t, p, n, x.code, x.off)
    ensures x.code != Termination
  {
  }

  /** What ParseNumber accepts is a number of the grammar with exactly its event; what it refuses is bad. */
  lemma NumberFound(o: Options, t: Text, p: nat, out: seq<Event>) returns (n: Numeral)
    requires p <= |t|
    ensures NumberRead(o, t, p, out, n, S.ParseNumber(o, t, p, out))
  {
    hide S.IntegerPart, S.FractionPart, S.ExponentPart, NumeralText, FractionText, ExponentText, NumeralEvent, Stands,
      BeyondIntegers, ExponentOk, AllDecDigits, S.IntegerEvent, S.DecimalValue, S.IntegerLimit, S.AllDigits, ValueOf;
    var minus := Peek(t, p) == MINUS;
    var ip := if minus then p + 1 else p;
    assert t[p..ip] == SignText(minus);
    WholeFound(t, ip);
    if S.IntegerPart(t, ip).BadNumber? {
      n := Numeral(minus, [], [], NoExponent);
    } else {
      var wp := S.IntegerPart(t, ip).end;
      n := Numeral(minus, t[ip..wp], [], NoExponent);
      WholeOk(t, p, n, ip, wp);
      EventOfParts(n);
      if !(BeyondIntegers(n) && o.intTooBig(n.whole)) {
        hide S.ParseNumber, NumberRead;
        n := NumberFoundRest(o, t, p, out, n, wp);
      }
    }
  }

  lemma WholeOk(t: Text, p: nat, n: Numeral, ip: nat, wp: nat)
    requires p <= ip < wp <= |t| && t[p..ip] == SignText(n.minus) && t[ip..wp] == n.whole
    requires n.fraction == [] && n.exponent.NoExponent? && AllDecDigits(n.whole) && (n.whole[0] == ZERO ==> |n.whole| == 1)
    ensures NumeralOk(n) && wp == p + |NumeralText(n)| && Stands(t, p, NumeralText(n))
  {
    assert t[wp..wp] == [];
    Assemble(t, p, n, ip, wp, wp, wp);
  }

  lemma PointBehind(t: Text, p: nat, n: Numeral)
    requires Stands(t, p, NumeralText(n)) && Peek(t, p + |NumeralText(n)|) == POINT
    ensures Stands(t, p, NumeralText(n) + [POINT])
  {
    hide NumeralText;
  }

  lemma NoPart(t: Text, p: nat)
    ensures ExponentText(NoExponent) == [] && FractionText([]) == [] && (p <= |t| ==> t[p..p] == [])
    ensures ExponentOk(NoExponent)
  {
  }

  lemma BeyondWhole(m: Numeral, n: Numeral)
    requires NumeralOk(m) && NumeralOk(n) && m.minus == n.minus && m.whole == n.whole
    ensures BeyondIntegers(m) == BeyondIntegers(n)
  {
  }

  /** A number becomes a double exactly if it has a point or an exponent letter, or no 64-bit type holds it. */
  lemma DoubleIff(n: Numeral)
    requires NumeralOk(n)
    ensures NumeralEvent(n).Double? <==>
      || (exists i :: 0 <= i < |NumeralText(n)| && (NumeralText(n)[i] == POINT || IsExponentLetter(NumeralText(n)[i])))
      || BeyondIntegers(n)
  {
    hide BeyondIntegers, ValueOf, FractionText, ExponentText, NumeralText;
    var s, head := NumeralText(n), SignText(n.minus) + n.whole;
    HeadText(n);
    if n.fraction != [] || n.exponent.Exponent? {
      assert s[|head|] == POINT || IsExponentLetter(s[|head|]);
    } else {
      forall i | 0 <= i < |s|
        ensures s[i] != POINT && !IsExponentLetter(s[i])
      {
        assert i >= |SignText(n.minus)| ==> s[i] == n.whole[i - |SignText(n.minus)|];
      }
    }
  }

  /** What stands behind the integer part. */
  lemma HeadText(n: Numeral)
    requires NumeralOk(n)
    ensures var s, head := NumeralText(n), SignText(n.minus) + n.whole;
            && |s| >= |head| && s[..|head|] == head
            && (n.fraction == [] && n.exponent.NoExponent? ==> s == head)
            && (n.fraction != [] ==> |s| > |head| && s[|head|] == POINT)
            && (n.fraction == [] && n.exponent.Exponent? ==> |s| > |head| && s[|head|] == n.exponent.letter)
  {
    var rest := FractionText(n.fraction) + ExponentText(n.exponent);
    assert NumeralText(n) == (SignText(n.minus) + n.whole) + rest;
  }

  /** A comment that the end of the text ends is skipped too. */
  lemma UnendedSkipped(o: Options, t: Text, p: nat, rest: Text)
    requires Stands(t, p, rest) && Unended(o.comments, t, p + |rest|, rest) && Peek(t, p + |rest|) == 0
    ensures p + |rest| <= |t| && S.SkipSpace(o, t, p) == S.At(p + |rest|)
  {
    hide LineBody, Stands;
    StandsWithin(t, p, rest);
    if rest != [] {
      PeekStands(t, p, rest, 0);
      PeekStands(t, p, rest, 1);
      assert rest[0] == rest[..2][0] && rest[1] == rest[..2][1];
      assert rest == rest[..2] + rest[2..];
      StandsSplit(t, p, rest[..2], rest[2..]);
      LineSkipped(t, p + 2, rest[2..]);
      CommentStep(o, t, p);
    }
    NothingSkipped(o, t, p + |rest|);
  }
}
