/**
 The tokenizer on JSON texts (parsers/jsmn.c): for every tree and every layout of its text the
 tokens are the tree in preorder, with exact spans and child counts.
 */
module JsmnTree {
  import opened Sax
  import opened Jsmn
  import opened JsmnLexis
  import opened JsmnRuns
  import opened Rfc8259

  // ---------------------------------------------------------------- trees with their layout

  /** A JSON value as it is written, with the white space around every part. */
  datatype Json = Quoted(body: Text) | Word(word: Text) | List(elems: Elems) | Record(members: Members)

  datatype Elems =
    | NoElems(space: Text)
    | Elem(lead: Text, value: Json, trail: Text, comma: bool, rest: Elems)

  datatype Members =
    | NoMembers(space: Text)
    | Member(lead: Text, key: Text, before: Text, after: Text, value: Json, trail: Text, comma: bool, rest: Members)

  predicate JsonOk(v: Json) {
    match v
    case Quoted(body) => BodyOk(body)
    case Word(word) => WordOk(word)
    case List(elems) => ElemsOk(elems)
    case Record(members) => MembersOk(members)
  }

  predicate ElemsOk(e: Elems) {
    match e
    case NoElems(space) => AllWs(space)
    case Elem(lead, value, trail, comma, rest) =>
      AllWs(lead) && JsonOk(value) && AllWs(trail) && ElemsOk(rest) && (comma || rest.NoElems?)
  }

  predicate MembersOk(m: Members) {
    match m
    case NoMembers(space) => AllWs(space)
    case Member(lead, key, before, after, value, trail, comma, rest) =>
      && AllWs(lead) && BodyOk(key) && AllWs(before) && AllWs(after) && JsonOk(value) && AllWs(trail)
      && MembersOk(rest) && (comma || rest.NoMembers?)
  }

  const COLON: Text := [':' as int]

  function Separator(comma: bool): Text { if comma then [',' as int] else [] }

  function Written(v: Json): (r: Text) {
    match v
    case Quoted(body) => QUOTE + body + QUOTE
    case Word(word) => word
    case List(elems) => ['[' as int] + WrittenElems(elems) + [']' as int]
    case Record(members) => ['{' as int] + WrittenMembers(members) + ['}' as int]
  }

  function WrittenElems(e: Elems): (r: Text) {
    match e
    case NoElems(space) => space
    case Elem(lead, value, trail, comma, rest) =>
      lead + (Written(value) + (trail + (Separator(comma) + WrittenElems(rest))))
  }

  function WrittenMembers(m: Members): (r: Text) {
    match m
    case NoMembers(space) => space
    case Member(lead, key, before, after, value, trail, comma, rest) =>
      lead + (QUOTE + key + QUOTE + (before + (COLON + (after
      + (Written(value) + (trail + (Separator(comma) + WrittenMembers(rest))))))))
  }

  // ---------------------------------------------------------------- the tokens of a tree

  function Elements(e: Elems): nat { if e.NoElems? then 0 else 1 + Elements(e.rest) }
  function Pairs(m: Members): nat { if m.NoMembers? then 0 else 1 + Pairs(m.rest) }

  /** The tokens of the value written at `p`, in preorder. */
  function Flat(v: Json, p: nat): (ts: seq<Token>)
    ensures ts != []
  {
    match v
    case Quoted(body) => [Token(Kind.String, p + 1, p + 1 + |body|, 0)]
    case Word(word) => [Token(Primitive, p, p + |word|, 0)]
    case List(elems) => [Token(Array, p, p + |Written(v)|, Elements(elems))] + FlatElems(elems, p + 1)
    case Record(members) => [Token(Object, p, p + |Written(v)|, Pairs(members))] + FlatMembers(members, p + 1)
  }

  function FlatElems(e: Elems, p: nat): (ts: seq<Token>) {
    match e
    case NoElems(_) => []
    case Elem(lead, value, trail, comma, rest) =>
      var q := p + |lead|;
      Flat(value, q) + FlatElems(rest, q + |Written(value)| + |trail| + |Separator(comma)|)
  }

  function FlatMembers(m: Members, p: nat): (ts: seq<Token>) {
    match m
    case NoMembers(_) => []
    case Member(lead, key, before, after, value, trail, comma, rest) =>
      var k := p + |lead|;
      var q := k + |key| + 2 + |before| + 1 + |after|;
      [Token(Kind.String, k + 1, k + 1 + |key|, 1)]
      + (Flat(value, q) + FlatMembers(rest, q + |Written(value)| + |trail| + |Separator(comma)|))
  }

  predicate AllClosed(ts: seq<Token>) { forall t :: t in ts ==> !t.Open() }

  lemma {:induction false} FlatClosed(v: Json, p: nat)
    ensures AllClosed(Flat(v, p))
  {
    match v {
      case Quoted(_) =>
      case Word(_) =>
      case List(elems) => FlatElemsClosed(elems, p + 1);
      case Record(members) => FlatMembersClosed(members, p + 1);
    }
  }

  lemma {:induction false} FlatElemsClosed(e: Elems, p: nat)
    ensures AllClosed(FlatElems(e, p))
  {
    if e.Elem? {
      var q := p + |e.lead|;
      FlatClosed(e.value, q);
      FlatElemsClosed(e.rest, q + |Written(e.value)| + |e.trail| + |Separator(e.comma)|);
    }
  }

  lemma {:induction false} FlatMembersClosed(m: Members, p: nat)
    ensures AllClosed(FlatMembers(m, p))
  {
    if m.Member? {
      var q := p + |m.lead| + |m.key| + 2 + |m.before| + 1 + |m.after|;
      FlatClosed(m.value, q);
      FlatMembersClosed(m.rest, q + |Written(m.value)| + |m.trail| + |Separator(m.comma)|);
    }
  }

  // ---------------------------------------------------------------- pieces of the text

  // ---------------------------------------------------------------- runs

  lemma RunSpace(js: Text, cap: nat, s: State)
    requires SuperOk(s) && s.pos < |js| && IsSpace(js[s.pos])
    ensures Run(js, cap, s) == Run(js, cap, s.(pos := s.pos + 1))
  {
    hide LastOpen;
    assert Step(js, cap, s) == Go(s.(pos := s.pos + 1));
  }

  lemma {:induction false} RunBlank(js: Text, cap: nat, s: State, blank: Text)
    requires SuperOk(s) && Stands(js, s.pos, blank) && AllWs(blank)
    ensures Run(js, cap, s) == Run(js, cap, s.(pos := s.pos + |blank|))
    decreases |blank|
  {
    hide Run;
    if blank != [] {
      StandsAt(js, s.pos, blank, 0);
      RunSpace(js, cap, s);
      assert blank == blank[..1] + blank[1..];
      StandsSplit(js, s.pos, blank[..1], blank[1..]);
      RunBlank(js, cap, s.(pos := s.pos + 1), blank[1..]);
    }
  }

  /** What a value does to the state: its tokens are added and its superior has one child more. */
  function After(s: State, v: Json): (r: State)
    requires SuperOk(s)
    ensures SuperOk(r)
  {
    State(s.pos + |Written(v)|, Bump(s.tokens, s.super) + Flat(v, s.pos),
          if v.List? || v.Record? then LastOpen(s.tokens) else s.super)
  }

  lemma LastOpenIs(ts: seq<Token>, a: int)
    requires -1 <= a < |ts| && (a >= 0 ==> ts[a].Open()) && forall j :: a < j < |ts| ==> !ts[j].Open()
    ensures LastOpen(ts) == a
  {
  }

  lemma LastOpenBump(ts: seq<Token>, super: int)
    requires -1 <= super < |ts|
    ensures LastOpen(Bump(ts, super)) == LastOpen(ts)
  {
    hide LastOpen;
    LastOpenIs(Bump(ts, super), LastOpen(ts));
  }

  lemma RunQuoted(js: Text, cap: nat, s: State, body: Text)
    requires SuperOk(s) && |s.tokens| < cap && BodyOk(body) && Stands(js, s.pos, QUOTE + body + QUOTE)
    ensures Run(js, cap, s) == Run(js, cap, After(s, Quoted(body)))
  {
    hide LastOpen, StringEnd;
    var p := s.pos;
    StandsAt(js, p, QUOTE + body + QUOTE, 0);
    assert QUOTE + body + QUOTE == QUOTE + (body + QUOTE);
    StandsSplit(js, p, QUOTE, body + QUOTE);
    StandsSplit(js, p + 1, body, QUOTE);
    StandsSlice(js, p + 1, body);
    StandsAt(js, p + 1 + |body|, QUOTE, 0);
    StringEndIff(js, p + 1, p + 1 + |body|);
    assert Step(js, cap, s) == Go(After(s, Quoted(body)));
  }

  lemma RunWord(js: Text, cap: nat, s: State, w: Text)
    requires SuperOk(s) && |s.tokens| < cap && WordOk(w) && Stands(js, s.pos, w) && Stops(js, s.pos + |w|)
    ensures Run(js, cap, s) == Run(js, cap, After(s, Word(w)))
  {
    hide LastOpen, PrimitiveEnd;
    StandsAt(js, s.pos, w, 0);
    StandsSlice(js, s.pos, w);
    PrimitiveEndIff(js, s.pos, s.pos + |w|);
    assert Step(js, cap, s) == Go(After(s, Word(w)));
  }

  lemma RunOpening(js: Text, cap: nat, s: State, c: Byte)
    requires SuperOk(s) && |s.tokens| < cap && IsOpening(c) && s.pos < |js| && js[s.pos] == c
    ensures Run(js, cap, s)
            == Run(js, cap, State(s.pos + 1, Bump(s.tokens, s.super) + [Token(OpeningKind(c), s.pos, -1, 0)], |s.tokens|))
  {
    hide LastOpen;
    assert Step(js, cap, s) == OpenContainer(cap, s, OpeningKind(c));
  }

  /** The container at `a` is the innermost one that is open. */
  predicate Innermost(ts: seq<Token>, a: nat, kind: Kind) {
    && a < |ts| && ts[a].Open() && ts[a].kind == kind && IsContainer(kind)
    && forall j :: a < j < |ts| ==> !ts[j].Open()
  }

  /** `n` more children, and the end. */
  function Finished(t: Token, n: nat, end: int): Token { t.(size := t.size + n, end := end) }

  lemma RunClosing(js: Text, cap: nat, s: State, a: nat, c: Byte)
    requires SuperOk(s) && IsClosing(c) && s.pos < |js| && js[s.pos] == c
    requires Innermost(s.tokens, a, ClosingKind(c))
    ensures Run(js, cap, s) == Run(js, cap, State(s.pos + 1, s.tokens[a := Finished(s.tokens[a], 0, s.pos + 1)], LastOpen(s.tokens[..a])))
  {
    hide LastOpen;
    LastOpenIs(s.tokens, a);
    assert Step(js, cap, s) == CloseContainer(s, ClosingKind(c));
  }

  lemma RunColon(js: Text, cap: nat, s: State)
    requires SuperOk(s) && s.pos < |js| && js[s.pos] == ':' as int
    ensures Run(js, cap, s) == Run(js, cap, s.(pos := s.pos + 1, super := |s.tokens| - 1))
  {
    hide LastOpen;
    assert Step(js, cap, s) == Go(s.(pos := s.pos + 1, super := |s.tokens| - 1));
  }

  /** After a comma the innermost container is the superior token again. */
  lemma RunComma(js: Text, cap: nat, s: State, a: nat, kind: Kind)
    requires SuperOk(s) && s.pos < |js| && js[s.pos] == ',' as int && Innermost(s.tokens, a, kind)
    requires s.super == a || (s.super >= 0 && !IsContainer(s.tokens[s.super].kind))
    ensures Run(js, cap, s) == Run(js, cap, s.(pos := s.pos + 1, super := a))
  {
    hide LastOpen;
    LastOpenIs(s.tokens, a);
    assert Step(js, cap, s) == Go(s.(pos := s.pos + 1, super := a));
  }

  /** More closed tokens, and another child, keep a container the innermost one. */
  lemma StillInnermost(ts: seq<Token>, super: int, more: seq<Token>, a: nat, kind: Kind)
    requires Innermost(ts, a, kind) && -1 <= super < |ts| && AllClosed(more)
    ensures Innermost(Bump(ts, super) + more, a, kind)
  {
    var r := Bump(ts, super) + more;
    forall j | a < j < |r|
      ensures !r[j].Open()
    {
      if j >= |ts| {
        assert r[j] in more;
      }
    }
  }

  // ---------------------------------------------------------------- values, elements, members

  lemma {:induction false} RunValue(js: Text, cap: nat, s: State, v: Json)
    requires SuperOk(s) && JsonOk(v) && |s.tokens| + |Flat(v, s.pos)| <= cap
    requires Stands(js, s.pos, Written(v)) && Stops(js, s.pos + |Written(v)|)
    ensures Run(js, cap, s) == Run(js, cap, After(s, v))
    decreases v, 0
  {
    hide Run, LastOpen, Stands, Stops;
    match v {
      case Quoted(body) =>
        RunQuoted(js, cap, s, body);
      case Word(word) =>
        RunWord(js, cap, s, word);
      case List(elems) =>
        RunList(js, cap, s, elems);
      case Record(members) =>
        RunRecord(js, cap, s, members);
    }
  }

  lemma {:induction false} RunList(js: Text, cap: nat, s: State, elems: Elems)
    requires SuperOk(s) && ElemsOk(elems) && |s.tokens| + |Flat(List(elems), s.pos)| <= cap
    requires Stands(js, s.pos, Written(List(elems)))
    ensures Run(js, cap, s) == Run(js, cap, After(s, List(elems)))
    decreases elems, 1
  {
    hide Run, LastOpen, Stands, Bump, ElemsOk, FlatElems, WrittenElems;
    var bracket := ['[' as int];
    var text := WrittenElems(elems) + [']' as int];
    assert Written(List(elems)) == bracket + text;
    StandsSplit(js, s.pos, bracket, text);
    StandsChar(js, s.pos, '[' as int);
    RunOpening(js, cap, s, '[' as int);
    RunElems(js, cap, Opened(s, Array), |s.tokens|, elems);
    OpenedEnd(s, Array, List(elems), Elements(elems), |WrittenElems(elems)|, FlatElems(elems, s.pos + 1));
  }

  lemma {:induction false} RunRecord(js: Text, cap: nat, s: State, members: Members)
    requires SuperOk(s) && MembersOk(members) && |s.tokens| + |Flat(Record(members), s.pos)| <= cap
    requires Stands(js, s.pos, Written(Record(members)))
    ensures Run(js, cap, s) == Run(js, cap, After(s, Record(members)))
    decreases members, 2
  {
    hide Run, LastOpen, Stands, Bump, MembersOk, FlatMembers, WrittenMembers;
    var bracket := ['{' as int];
    var text := WrittenMembers(members) + ['}' as int];
    assert Written(Record(members)) == bracket + text;
    StandsSplit(js, s.pos, bracket, text);
    StandsChar(js, s.pos, '{' as int);
    RunOpening(js, cap, s, '{' as int);
    RunMembers(js, cap, Opened(s, Object), |s.tokens|, members);
    OpenedEnd(s, Object, Record(members), Pairs(members), |WrittenMembers(members)|, FlatMembers(members, s.pos + 1));
  }

  lemma StandsChar(js: Text, p: nat, c: Byte)
    requires Stands(js, p, [c])
    ensures p < |js| && js[p] == c
  {
    StandsAt(js, p, [c], 0);
  }

  /** The state behind an opening bracket. */
  function Opened(s: State, kind: Kind): (r: State)
    requires SuperOk(s) && IsContainer(kind)
    ensures SuperOk(r) && r.super == |s.tokens| && Innermost(r.tokens, |s.tokens|, kind)
  {
    State(s.pos + 1, Bump(s.tokens, s.super) + [Token(kind, s.pos, -1, 0)], |s.tokens|)
  }

  /** The state behind the closing bracket, `n` characters and the tokens `inside` later. */
  function Closed(s: State, a: nat, children: nat, n: nat, inside: seq<Token>): (r: State)
    requires a < |s.tokens|
    ensures SuperOk(r)
  {
    State(s.pos + n + 1, s.tokens[a := Finished(s.tokens[a], children, s.pos + n + 1)] + inside, LastOpen(s.tokens[..a]))
  }

  lemma OpenedEnd(s: State, kind: Kind, v: Json, children: nat, n: nat, inside: seq<Token>)
    requires SuperOk(s) && IsContainer(kind) && (v.List? || v.Record?) && |Written(v)| == n + 2
    requires Flat(v, s.pos) == [Token(kind, s.pos, s.pos + n + 2, children)] + inside
    ensures Closed(Opened(s, kind), |s.tokens|, children, n, inside) == After(s, v)
  {
    hide LastOpen, Flat, Written;
    var a := |s.tokens|;
    var s1 := Opened(s, kind);
    assert s1.tokens[..a] == Bump(s.tokens, s.super);
    LastOpenBump(s.tokens, s.super);
    assert s1.tokens[a := Finished(s1.tokens[a], children, s1.pos + n + 1)]
        == Bump(s.tokens, s.super) + [Token(kind, s.pos, s.pos + n + 2, children)];
  }

  lemma {:induction false} RunElems(js: Text, cap: nat, s: State, a: nat, e: Elems)
    requires SuperOk(s) && ElemsOk(e) && |s.tokens| + |FlatElems(e, s.pos)| <= cap
    requires s.super == a && Innermost(s.tokens, a, Array)
    requires Stands(js, s.pos, WrittenElems(e) + [']' as int])
    ensures Run(js, cap, s) == Run(js, cap, Closed(s, a, Elements(e), |WrittenElems(e)|, FlatElems(e, s.pos)))
    decreases e, 0
  {
    hide Run, LastOpen, Stands, Innermost, JsonOk;
    match e {
      case NoElems(space) =>
        StandsSplit(js, s.pos, space, [']' as int]);
        RunBlank(js, cap, s, space);
        var s1 := s.(pos := s.pos + |space|);
        StandsChar(js, s1.pos, ']' as int);
        RunClosing(js, cap, s1, a, ']' as int);
        assert Closed(s, a, 0, |space|, []).tokens == s.tokens[a := Finished(s.tokens[a], 0, s1.pos + 1)];
      case Elem(lead, value, trail, comma, rest) =>
        ElemStands(js, s.pos, e);
        RunBlank(js, cap, s, lead);
        var s1 := s.(pos := s.pos + |lead|);
        RunValue(js, cap, s1, value);
        var s2 := After(s1, value);
        FlatClosed(value, s1.pos);
        StillInnermost(s.tokens, a, Flat(value, s1.pos), a, Array);
        InnermostIs(s.tokens, a, Array);
        RunBlank(js, cap, s2, trail);
        var s3 := s2.(pos := s2.pos + |trail|);
        var s4 := s3.(pos := s3.pos + |Separator(comma)|);
        if comma {
          StandsChar(js, s3.pos, ',' as int);
          RunComma(js, cap, s3, a, Array);
        }
        RunElems(js, cap, s4, a, rest);
        ClosedJoin(s, s4, a, Flat(value, s1.pos), Elements(rest), |WrittenElems(rest)|, FlatElems(rest, s4.pos), |WrittenElems(e)|);
    }
  }

  lemma InnermostIs(ts: seq<Token>, a: nat, kind: Kind)
    requires Innermost(ts, a, kind)
    ensures LastOpen(ts) == a && a < |ts| && IsContainer(ts[a].kind)
  {
    LastOpenIs(ts, a);
  }

  /** The pieces of an element stand where the run meets them. */
  lemma ElemStands(js: Text, p: nat, e: Elems)
    requires e.Elem? && ElemsOk(e) && Stands(js, p, WrittenElems(e) + [']' as int])
    ensures var p1 := p + |e.lead|;
            var p2 := p1 + |Written(e.value)|;
            var p3 := p2 + |e.trail|;
            var p4 := p3 + |Separator(e.comma)|;
            && Stands(js, p, e.lead) && Stands(js, p1, Written(e.value)) && Stops(js, p2) && Stands(js, p2, e.trail)
            && Stands(js, p3, Separator(e.comma)) && Stands(js, p4, WrittenElems(e.rest) + [']' as int])
            && p4 + |WrittenElems(e.rest)| == p + |WrittenElems(e)|
  {
    hide Stands, Stops, Written;
    var close := [']' as int];
    var tail := TailText(Written(e.value), e.trail, e.comma, WrittenElems(e.rest) + close);
    TailAppend(Written(e.value), e.trail, e.comma, WrittenElems(e.rest), close);
    assert WrittenElems(e) + close == e.lead + tail;
    StandsSplit(js, p, e.lead, tail);
    TailStands(js, p + |e.lead|, Written(e.value), e.trail, e.comma, WrittenElems(e.rest) + close);
  }

  /** A value's text and what follows it. */
  function TailText(w: Text, trail: Text, comma: bool, rest: Text): Text { w + (trail + (Separator(comma) + rest)) }

  lemma TailAppend(w: Text, trail: Text, comma: bool, rest: Text, z: Text)
    ensures TailText(w, trail, comma, rest) + z == TailText(w, trail, comma, rest + z)
  {
    var x := Separator(comma) + rest;
    assert x + z == Separator(comma) + (rest + z);
    var y := trail + x;
    assert y + z == trail + (x + z);
    assert (w + y) + z == w + (y + z);
  }

  lemma TailStands(js: Text, p: nat, w: Text, trail: Text, comma: bool, last: Text)
    requires Stands(js, p, TailText(w, trail, comma, last)) && AllWs(trail) && last != []
    requires comma || EndsPrimitive(last[0])
    ensures var p2 := p + |w|;
            var p3 := p2 + |trail|;
            && Stands(js, p, w) && Stops(js, p2) && Stands(js, p2, trail)
            && Stands(js, p3, Separator(comma)) && Stands(js, p3 + |Separator(comma)|, last)
  {
    hide Stands, Stops, AllWs;
    var t3 := Separator(comma) + last;
    StandsSplit(js, p, w, trail + t3);
    FollowStops(js, p + |w|, trail, comma, last);
    StandsSplit(js, p + |w|, trail, t3);
    StandsSplit(js, p + |w| + |trail|, Separator(comma), last);
  }

  /** White space, a comma, or a closing bracket ends a word. */
  lemma FollowStops(js: Text, p: nat, trail: Text, comma: bool, last: Text)
    requires Stands(js, p, trail + (Separator(comma) + last)) && AllWs(trail) && last != []
    requires comma || EndsPrimitive(last[0])
    ensures Stops(js, p)
  {
    StandsAt(js, p, trail + (Separator(comma) + last), 0);
  }

  /** One child and its tokens, then the others. */
  lemma ClosedJoin(s: State, s4: State, a: nat, first: seq<Token>, children: nat, n4: nat, inside: seq<Token>, n: nat)
    requires a < |s.tokens| && s4.tokens == Bump(s.tokens, a) + first && s4.pos + n4 == s.pos + n
    ensures Closed(s4, a, children, n4, inside) == Closed(s, a, 1 + children, n, first + inside)
  {
    hide LastOpen;
    var end := s.pos + n + 1;
    assert s4.tokens[..a] == s.tokens[..a];
    assert s4.tokens[a := Finished(s4.tokens[a], children, end)] == s.tokens[a := Finished(s.tokens[a], 1 + children, end)] + first;
  }

  lemma {:induction false} RunMembers(js: Text, cap: nat, s: State, a: nat, m: Members)
    requires SuperOk(s) && MembersOk(m) && |s.tokens| + |FlatMembers(m, s.pos)| <= cap
    requires s.super == a && Innermost(s.tokens, a, Object)
    requires Stands(js, s.pos, WrittenMembers(m) + ['}' as int])
    ensures Run(js, cap, s) == Run(js, cap, Closed(s, a, Pairs(m), |WrittenMembers(m)|, FlatMembers(m, s.pos)))
    decreases m, 1
  {
    hide Run, LastOpen, Stands, Innermost, JsonOk;
    match m {
      case NoMembers(space) =>
        EmptyMembers(js, cap, s, a, space);
      case Member(_, _, _, _, _, _, comma, rest) =>
        MemberStands(js, s.pos, m);
        var s3 := RunPair(js, cap, s, a, m);
        var first := PairTokens(m, s.pos);
        if comma {
          var s4 := s3.(pos := s3.pos + 1, super := a);
          StandsChar(js, s3.pos, ',' as int);
          RunComma(js, cap, s3, a, Object);
          RunMembers(js, cap, s4, a, rest);
          ClosedJoin(s, s4, a, first, Pairs(rest), |WrittenMembers(rest)|, FlatMembers(rest, s4.pos), |WrittenMembers(m)|);
          FlatMembersSplit(m, s.pos);
        } else {
          EmptyMembers(js, cap, s3, a, rest.space);
          ClosedJoin(s, s3, a, first, 0, |rest.space|, [], |WrittenMembers(m)|);
          FlatMembersSplit(m, s.pos);
        }
    }
  }

  lemma FlatMembersSplit(m: Members, p: nat)
    requires m.Member?
    ensures var q := ValueStart(m, p) + |Written(m.value)| + |m.trail| + |Separator(m.comma)|;
            FlatMembers(m, p) == PairTokens(m, p) + FlatMembers(m.rest, q)
  {
    hide Written, Flat;
  }

  /** A key, its value and the white space behind it. */
  lemma {:induction false} RunPair(js: Text, cap: nat, s: State, a: nat, m: Members) returns (r: State)
    requires SuperOk(s) && m.Member? && MembersOk(m) && |s.tokens| + |FlatMembers(m, s.pos)| <= cap
    requires s.super == a && Innermost(s.tokens, a, Object)
    requires Stands(js, s.pos, WrittenMembers(m) + ['}' as int])
    ensures a < |s.tokens| && r.tokens == Bump(s.tokens, a) + PairTokens(m, s.pos)
    ensures r.pos == ValueStart(m, s.pos) + |Written(m.value)| + |m.trail|
    ensures Innermost(r.tokens, a, Object) && SuperOk(r)
    ensures r.super == a || (r.super >= 0 && !IsContainer(r.tokens[r.super].kind))
    ensures Run(js, cap, s) == Run(js, cap, r)
    decreases m, 0
  {
    hide Run, LastOpen, Stands, Stops, Written, Flat, FlatMembers;
    MemberStands(js, s.pos, m);
    FlatMembersSplit(m, s.pos);
    RunKey(js, cap, s, a, m);
    var s1 := KeyState(s, a, m);
    RunValue(js, cap, s1, m.value);
    var s2 := After(s1, m.value);
    MemberTokens(s, a, m);
    RunBlank(js, cap, s2, m.trail);
    r := s2.(pos := s2.pos + |m.trail|);
  }

  /** Nothing but white space before the closing brace; the superior token does not matter. */
  lemma EmptyMembers(js: Text, cap: nat, s: State, a: nat, space: Text)
    requires SuperOk(s) && AllWs(space) && Innermost(s.tokens, a, Object)
    requires Stands(js, s.pos, space + ['}' as int])
    ensures a < |s.tokens| && Run(js, cap, s) == Run(js, cap, Closed(s, a, 0, |space|, []))
  {
    hide Run, LastOpen, Stands;
    StandsSplit(js, s.pos, space, ['}' as int]);
    RunBlank(js, cap, s, space);
    var s1 := s.(pos := s.pos + |space|);
    StandsChar(js, s1.pos, '}' as int);
    RunClosing(js, cap, s1, a, '}' as int);
    assert Closed(s, a, 0, |space|, []).tokens == s.tokens[a := Finished(s.tokens[a], 0, s1.pos + 1)];
  }

  /** Where the value of a member begins. */
  function ValueStart(m: Members, p: nat): nat
    requires m.Member?
  {
    p + |m.lead| + |m.key| + 2 + |m.before| + 1 + |m.after|
  }

  /** The state in front of the value of a member: its key is the superior token. */
  function KeyState(s: State, a: nat, m: Members): (r: State)
    requires m.Member? && a < |s.tokens|
    ensures SuperOk(r)
  {
    var k := s.pos + |m.lead|;
    State(ValueStart(m, s.pos), Bump(s.tokens, a) + [Token(Kind.String, k + 1, k + 1 + |m.key|, 0)], |s.tokens|)
  }

  lemma RunKey(js: Text, cap: nat, s: State, a: nat, m: Members)
    requires SuperOk(s) && m.Member? && MembersOk(m) && s.super == a && a < |s.tokens| < cap
    requires Stands(js, s.pos, m.lead) && Stands(js, s.pos + |m.lead|, QUOTE + m.key + QUOTE)
    requires var p1 := s.pos + |m.lead| + |m.key| + 2;
             && Stands(js, p1, m.before) && Stands(js, p1 + |m.before|, COLON) && Stands(js, p1 + |m.before| + 1, m.after)
    ensures Run(js, cap, s) == Run(js, cap, KeyState(s, a, m))
  {
    hide Run, LastOpen, Stands, JsonOk, MembersOk;
    PartsAllWs(m);
    RunBlank(js, cap, s, m.lead);
    var s1 := s.(pos := s.pos + |m.lead|);
    RunQuoted(js, cap, s1, m.key);
    var s2 := After(s1, Quoted(m.key));
    RunBlank(js, cap, s2, m.before);
    var s3 := s2.(pos := s2.pos + |m.before|);
    StandsChar(js, s3.pos, ':' as int);
    RunColon(js, cap, s3);
    var s4 := s3.(pos := s3.pos + 1, super := |s.tokens|);
    RunBlank(js, cap, s4, m.after);
  }

  lemma PartsAllWs(m: Members)
    requires m.Member? && MembersOk(m)
    ensures AllWs(m.lead) && AllWs(m.before) && AllWs(m.after) && AllWs(m.trail) && BodyOk(m.key)
  {
  }

  /** The tokens of a key and its value. */
  function PairTokens(m: Members, p: nat): (ts: seq<Token>)
    requires m.Member?
  {
    var k := p + |m.lead|;
    [Token(Kind.String, k + 1, k + 1 + |m.key|, 1)] + Flat(m.value, ValueStart(m, p))
  }

  lemma MemberTokens(s: State, a: nat, m: Members)
    requires m.Member? && Innermost(s.tokens, a, Object)
    ensures var r := After(KeyState(s, a, m), m.value);
            && r.tokens == Bump(s.tokens, a) + PairTokens(m, s.pos)
            && Innermost(r.tokens, a, Object)
            && (r.super == a || (r.super >= 0 && !IsContainer(r.tokens[r.super].kind)))
  {
    hide LastOpen, Flat;
    var k := s.pos + |m.lead|;
    var s1 := KeyState(s, a, m);
    var key := Token(Kind.String, k + 1, k + 1 + |m.key|, 0);
    var flat := Flat(m.value, s1.pos);
    var r := After(s1, m.value);
    assert Bump(s1.tokens, s1.super) == Bump(s.tokens, a) + [key.(size := 1)];
    FlatClosed(m.value, s1.pos);
    AllClosedCons(key.(size := 1), flat);
    StillInnermost(s.tokens, a, PairTokens(m, s.pos), a, Object);
    StillInnermost(s.tokens, a, [key], a, Object);
    LastOpenIs(s1.tokens, a);
  }

  lemma AllClosedCons(t: Token, ts: seq<Token>)
    requires !t.Open() && AllClosed(ts)
    ensures AllClosed([t] + ts)
  {
  }

  /** The pieces of a member stand where the run meets them. */
  lemma MemberStands(js: Text, p: nat, m: Members)
    requires m.Member? && MembersOk(m) && Stands(js, p, WrittenMembers(m) + ['}' as int])
    ensures var p1 := p + |m.lead|;
            var p2 := p1 + |m.key| + 2;
            && Stands(js, p, m.lead) && Stands(js, p1, QUOTE + m.key + QUOTE)
            && Stands(js, p2, m.before) && Stands(js, p2 + |m.before|, COLON) && Stands(js, p2 + |m.before| + 1, m.after)
    ensures var q := ValueStart(m, p);
            var q1 := q + |Written(m.value)|;
            var q2 := q1 + |m.trail|;
            var q3 := q2 + |Separator(m.comma)|;
            && Stands(js, q, Written(m.value)) && Stops(js, q1) && Stands(js, q1, m.trail)
            && Stands(js, q2, Separator(m.comma)) && Stands(js, q3, WrittenMembers(m.rest) + ['}' as int])
            && q3 + |WrittenMembers(m.rest)| == p + |WrittenMembers(m)|
  {
    hide Stands, Stops, Written;
    var close := ['}' as int];
    var name := QUOTE + m.key + QUOTE;
    var tail := TailText(Written(m.value), m.trail, m.comma, WrittenMembers(m.rest));
    TailAppend(Written(m.value), m.trail, m.comma, WrittenMembers(m.rest), close);
    HeadAppend(m.lead, name, m.before, m.after, tail, close);
    HeadStands(js, p, m.lead, name, m.before, m.after, tail + close);
    TailStands(js, ValueStart(m, p), Written(m.value), m.trail, m.comma, WrittenMembers(m.rest) + close);
  }

  /** A key and what stands around it. */
  function HeadText(lead: Text, name: Text, before: Text, after: Text, rest: Text): Text {
    lead + (name + (before + (COLON + (after + rest))))
  }

  lemma HeadAppend(lead: Text, name: Text, before: Text, after: Text, rest: Text, z: Text)
    ensures HeadText(lead, name, before, after, rest) + z == HeadText(lead, name, before, after, rest + z)
  {
    Append(after, rest, z);
    Append(COLON, after + rest, z);
    Append(before, COLON + (after + rest), z);
    Append(name, before + (COLON + (after + rest)), z);
    Append(lead, name + (before + (COLON + (after + rest))), z);
  }

  lemma Append(a: Text, b: Text, c: Text)
    ensures (a + b) + c == a + (b + c)
  {
  }

  lemma HeadStands(js: Text, p: nat, lead: Text, name: Text, before: Text, after: Text, rest: Text)
    requires Stands(js, p, HeadText(lead, name, before, after, rest))
    ensures var p1 := p + |lead|;
            var p2 := p1 + |name|;
            var p3 := p2 + |before| + 1;
            && Stands(js, p, lead) && Stands(js, p1, name) && Stands(js, p2, before)
            && Stands(js, p2 + |before|, COLON) && Stands(js, p3, after) && Stands(js, p3 + |after|, rest)
  {
    hide Stands;
    var t3 := after + rest;
    var t2 := COLON + t3;
    var t1 := before + t2;
    StandsSplit(js, p, lead, name + t1);
    StandsSplit(js, p + |lead|, name, t1);
    StandsSplit(js, p + |lead| + |name|, before, t2);
    StandsSplit(js, p + |lead| + |name| + |before|, COLON, t3);
    StandsSplit(js, p + |lead| + |name| + |before| + 1, after, rest);
  }

  // ---------------------------------------------------------------- whole texts

  /**
   Every JSON text, however it is laid out, gives the tokens of its tree in preorder: exact
   spans, members per object, elements per array, 1 for a key and 0 for every other scalar.
   An array with fewer tokens is reported as too small.
   */
  lemma TreeTokens(lead: Text, v: Json, trail: Text, cap: nat)
    requires AllWs(lead) && AllWs(trail) && JsonOk(v)
    ensures var js := lead + Written(v) + trail;
            var ts := Flat(v, |lead|);
            && (|ts| <= cap ==> Run(js, cap, START).Done? && Run(js, cap, START).last.tokens == ts)
            && (|ts| > cap ==> Run(js, cap, START).Fail? && Run(js, cap, START).error == NoMem)
            && CountFrom(js, 0, 0) == |ts|
  {
    hide Run, LastOpen, Written, JsonOk, Flat, Stops, CountFrom;
    var js := lead + Written(v) + trail;
    var n := |Flat(v, |lead|)|;
    var s1 := START.(pos := |lead|);
    var big := n + cap;
    RunBlank(js, big, START, lead);
    RootStops(js, |lead| + |Written(v)|, trail);
    RunValue(js, big, s1, v);
    var s2 := After(s1, v);
    FlatClosed(v, |lead|);
    RunBlank(js, big, s2, trail);
    var s3 := s2.(pos := |js|);
    assert s3.tokens == Flat(v, |lead|);
    RunStops(js, big, s3);
    CountAgrees(js, big, START);
    ExactlyEnough(js, big, cap, START);
  }

  lemma RootStops(js: Text, p: nat, trail: Text)
    requires p <= |js| && js[p..] == trail && AllWs(trail)
    ensures Stops(js, p)
  {
    if trail != [] {
      assert js[p] == trail[0];
    }
  }

  lemma RunStops(js: Text, cap: nat, s: State)
    requires SuperOk(s) && s.pos == |js| && AllClosed(s.tokens)
    ensures Run(js, cap, s) == Done(s)
  {
  }
}
