/** What every run of the tokenizer keeps, over all texts and token arrays (parsers/jsmn.c). */
module JsmnRuns {
  import opened Sax
  import opened Rfc8259
  import opened Jsmn
  import opened JsmnLexis

  // ---------------------------------------------------------------- resuming with more tokens

  /** A larger array changes a run only where the smaller one was full, and then continues it. */
  lemma {:induction false} MoreTokens(js: Text, cap: nat, cap': nat, s: State)
    requires SuperOk(s) && cap <= cap'
    ensures var r := Run(js, cap, s);
            Run(js, cap', s) == if r.Fail? && r.error == NoMem then Run(js, cap', r.last) else r
    decreases |js| - s.pos
  {
    if !AtEnd(js, s.pos) {
      StepMoreTokens(js, cap, cap', s);
      var m := Step(js, cap, s);
      hide Step, LastOpen;
      if m.Go? {
        MoreTokens(js, cap, cap', m.next);
      }
    }
  }

  lemma StepMoreTokens(js: Text, cap: nat, cap': nat, s: State)
    requires SuperOk(s) && cap <= cap' && !AtEnd(js, s.pos)
    ensures var m := Step(js, cap, s); m != Stop(NoMem) ==> Step(js, cap', s) == m
  {
    hide StringEnd, PrimitiveEnd, LastOpen;
  }

  /** Call again with the next array after every out-of-tokens error. */
  function Attempts(js: Text, caps: seq<nat>, s: State): (r: Result)
    requires caps != [] && SuperOk(s)
    decreases |caps|
  {
    var r := Run(js, caps[0], s);
    if |caps| > 1 && r.Fail? && r.error == NoMem then Attempts(js, caps[1..], r.last) else r
  }

  /** However often the array has to grow, the end is that of one call with the last array. */
  lemma {:induction false} ResumeIsOneCall(js: Text, caps: seq<nat>, s: State)
    requires caps != [] && SuperOk(s) && forall i, j :: 0 <= i < j < |caps| ==> caps[i] <= caps[j]
    ensures Attempts(js, caps, s) == Run(js, caps[|caps| - 1], s)
    decreases |caps|
  {
    hide Run;
    MoreTokens(js, caps[0], caps[|caps| - 1], s);
    var r := Run(js, caps[0], s);
    if |caps| > 1 && r.Fail? && r.error == NoMem {
      ResumeIsOneCall(js, caps[1..], r.last);
    }
  }

  // ---------------------------------------------------------------- how many tokens are needed

  /** A text that is accepted with some array is accepted exactly with those that hold its tokens. */
  lemma {:induction false} ExactlyEnough(js: Text, cap: nat, cap': nat, s: State)
    requires SuperOk(s) && Run(js, cap, s).Done? && |s.tokens| <= cap'
    ensures var r := Run(js, cap, s);
            && |s.tokens| <= |r.last.tokens|
            && (|r.last.tokens| <= cap' ==> Run(js, cap', s) == r)
            && (|r.last.tokens| > cap' ==> Run(js, cap', s).Fail? && Run(js, cap', s).error == NoMem)
    decreases |js| - s.pos
  {
    if !AtEnd(js, s.pos) {
      StepEnough(js, cap, cap', s);
      var m := Step(js, cap, s);
      hide Step, LastOpen;
      if |m.next.tokens| <= cap' {
        ExactlyEnough(js, cap, cap', m.next);
      } else {
        ExactlyEnough(js, cap, |m.next.tokens|, m.next);
      }
    }
  }

  lemma StepEnough(js: Text, cap: nat, cap': nat, s: State)
    requires SuperOk(s) && !AtEnd(js, s.pos) && Step(js, cap, s).Go? && |s.tokens| <= cap'
    ensures var m := Step(js, cap, s);
            && |s.tokens| <= |m.next.tokens|
            && Step(js, cap', s) == if |m.next.tokens| <= cap' then m else Stop(NoMem)
  {
    hide StringEnd, PrimitiveEnd, LastOpen;
  }

  /** Counting gives the number of tokens of every text that is accepted. */
  lemma {:induction false} CountAgrees(js: Text, cap: nat, s: State)
    requires SuperOk(s) && Run(js, cap, s).Done?
    ensures CountFrom(js, s.pos, |s.tokens|) == |Run(js, cap, s).last.tokens|
    decreases |js| - s.pos
  {
    if !AtEnd(js, s.pos) {
      var next := Step(js, cap, s).next;
      CountStep(js, cap, s);
      hide Step, LastOpen, CountFrom;
      CountAgrees(js, cap, next);
    }
  }

  lemma CountStep(js: Text, cap: nat, s: State)
    requires SuperOk(s) && !AtEnd(js, s.pos) && Step(js, cap, s).Go?
    ensures var next := Step(js, cap, s).next;
            CountFrom(js, s.pos, |s.tokens|) == CountFrom(js, next.pos, |next.tokens|)
  {
    hide StringEnd, PrimitiveEnd, LastOpen;
  }

  // ---------------------------------------------------------------- brackets

  /** A text is accepted, or goes wrong somewhere, or ends too early. */
  datatype Verdict = Accepted | Wrong | Unfinished

  /** No closing quote follows, and no bad escape either. */
  ghost predicate NeverClosed(js: Text, p: nat) {
    (forall q: nat :: !FailsAt(js, p, q)) && forall e: nat :: !Quoted(js, p, e)
  }

  ghost predicate BadBody(js: Text, p: nat) { exists q: nat :: FailsAt(js, p, q) }

  /** The characters up to where a word would stop are not all printable ASCII. */
  ghost predicate BadWord(js: Text, p: nat) { forall e: nat :: !Worded(js, p, e) }

  /**
   A plain recogniser: a stack of the brackets that are open, and nothing else. A string and a
   word are taken whole.
   */
  ghost predicate EndsAs(js: Text, p: nat, stack: seq<Kind>, v: Verdict)
    decreases |js| - p
  {
    if TextEnds(js, p) then v == if stack == [] then Accepted else Unfinished
    else
      var c := js[p];
      if c == BEGIN_OBJECT then EndsAs(js, p + 1, stack + [Object], v)
      else if c == BEGIN_ARRAY then EndsAs(js, p + 1, stack + [Array], v)
      else if c == END_OBJECT || c == END_ARRAY then
        if stack != [] && stack[|stack| - 1] == (if c == END_OBJECT then Object else Array) then
          EndsAs(js, p + 1, stack[..|stack| - 1], v)
        else v == Wrong
      else if c == QUOTATION_MARK then
        var q := p + 1;
        || (BadBody(js, q) && v == Wrong)
        || (NeverClosed(js, q) && v == Unfinished)
        || exists e: nat :: Quoted(js, q, e) && p < e && EndsAs(js, e + 1, stack, v)
      else if IsWs(c) || c == NAME_SEPARATOR || c == VALUE_SEPARATOR then EndsAs(js, p + 1, stack, v)
      else
        || (BadWord(js, p) && v == Wrong)
        || exists e: nat :: Worded(js, p, e) && p < e && EndsAs(js, e, stack, v)
  }

  /** The brackets of the whole text are balanced by type. */
  ghost predicate Balanced(js: Text) { EndsAs(js, 0, [], Accepted) }

  /** The kinds of the open containers, outermost first. */
  function OpenKinds(ts: seq<Token>): (r: seq<Kind>) {
    if ts == [] then []
    else OpenKinds(ts[..|ts| - 1]) + if ts[|ts| - 1].Open() then [ts[|ts| - 1].kind] else []
  }

  lemma {:induction false} OpenKindsAppend(a: seq<Token>, b: seq<Token>)
    ensures OpenKinds(a + b) == OpenKinds(a) + OpenKinds(b)
  {
    if b == [] {
      assert a + b == a;
    } else {
      assert (a + b)[..|a + b| - 1] == a + b[..|b| - 1];
      OpenKindsAppend(a, b[..|b| - 1]);
    }
  }

  lemma {:induction false} NoneOpen(ts: seq<Token>)
    requires forall j :: 0 <= j < |ts| ==> !ts[j].Open()
    ensures OpenKinds(ts) == []
  {
    if ts != [] {
      NoneOpen(ts[..|ts| - 1]);
    }
  }

  lemma {:induction false} OpenKindsBump(ts: seq<Token>, super: int)
    requires -1 <= super < |ts|
    ensures OpenKinds(Bump(ts, super)) == OpenKinds(ts)
  {
    SameOpen(Bump(ts, super), ts);
  }

  lemma {:induction false} SameOpen(a: seq<Token>, b: seq<Token>)
    requires |a| == |b|
    requires forall j :: 0 <= j < |b| ==> a[j].kind == b[j].kind && a[j].start == b[j].start && a[j].end == b[j].end
    ensures OpenKinds(a) == OpenKinds(b)
  {
    if a != [] {
      SameOpen(a[..|a| - 1], b[..|b| - 1]);
    }
  }

  /** The last open container is the top of the stack; closing it pops the stack. */
  lemma TopOfStack(ts: seq<Token>)
    ensures var i := LastOpen(ts);
            if i == -1 then OpenKinds(ts) == []
            else OpenKinds(ts) == OpenKinds(ts[..i]) + [ts[i].kind]
                 && forall e: int :: e != -1 ==> OpenKinds(ts[i := ts[i].(end := e)]) == OpenKinds(ts[..i])
  {
    hide LastOpen;
    var i := LastOpen(ts);
    if i == -1 {
      NoneOpen(ts);
    } else {
      var rest := ts[i + 1..];
      NoneOpen(rest);
      assert ts == ts[..i] + [ts[i]] + rest;
      OpenKindsAppend(ts[..i] + [ts[i]], rest);
      OpenKindsAppend(ts[..i], [ts[i]]);
      assert OpenKinds([ts[i]]) == [ts[i].kind];
      forall e: int | e != -1
        ensures OpenKinds(ts[i := ts[i].(end := e)]) == OpenKinds(ts[..i])
      {
        var t := ts[i].(end := e);
        assert ts[i := t] == ts[..i] + ([t] + rest);
        NoneOpen([t] + rest);
        OpenKindsAppend(ts[..i], [t] + rest);
      }
    }
  }

  /** How a run ends when there is room enough. */
  function VerdictOf(r: Result): Verdict {
    if r.Done? then Accepted else if r.error == Part then Unfinished else Wrong
  }

  /** With room for all tokens a run ends as the recogniser says: accepted, with Inval, or with Part. */
  lemma {:induction false} AcceptsIffBalanced(js: Text, cap: nat, s: State, v: Verdict)
    requires SuperOk(s) && |s.tokens| + (if s.pos < |js| then |js| - s.pos else 0) <= cap
    requires StartsKnown(s.tokens)
    ensures VerdictOf(Run(js, cap, s)) == v <==> EndsAs(js, s.pos, OpenKinds(s.tokens), v)
    ensures Run(js, cap, s).Fail? ==> Run(js, cap, s).error != NoMem
    decreases |js| - s.pos
  {
    TopOfStack(s.tokens);
    if !AtEnd(js, s.pos) {
      BalancedStep(js, cap, s, v);
      var m := Step(js, cap, s);
      hide Step, LastOpen, EndsAs;
      if m.Go? {
        AcceptsIffBalanced(js, cap, m.next, v);
      }
    }
  }

  predicate StartsKnown(ts: seq<Token>) { forall j :: 0 <= j < |ts| ==> ts[j].start >= 0 }

  lemma BalancedStep(js: Text, cap: nat, s: State, v: Verdict)
    requires SuperOk(s) && !AtEnd(js, s.pos) && |s.tokens| < cap && StartsKnown(s.tokens)
    ensures var m := Step(js, cap, s);
            if m.Stop? then
              && m.error != NoMem
              && (EndsAs(js, s.pos, OpenKinds(s.tokens), v) <==> v == if m.error == Part then Unfinished else Wrong)
            else EndsAs(js, s.pos, OpenKinds(s.tokens), v) == EndsAs(js, m.next.pos, OpenKinds(m.next.tokens), v)
                 && |m.next.tokens| <= |s.tokens| + 1 && StartsKnown(m.next.tokens)
  {
    hide StringEnd, PrimitiveEnd, LastOpen, OpenKinds, EndsAs;
    var ts := s.tokens;
    TopOfStack(ts);
    OpenKindsBump(ts, s.super);
    BalancedLexeme(js, s.pos, OpenKinds(ts), v);
    var m := Step(js, cap, s);
    if m.Go? && |m.next.tokens| > |ts| {
      var t := m.next.tokens[|ts|];
      OpenKindsAppend(Bump(ts, s.super), [t]);
      OneKind(t);
      assert m.next.tokens == Bump(ts, s.super) + [t];
      assert OpenKinds(m.next.tokens) == OpenKinds(ts) + if t.Open() then [t.kind] else [];
      assert !t.Open() ==> OpenKinds(m.next.tokens) == OpenKinds(ts);
    } else if m.Go? && IsClosing(js[s.pos]) {
      assert OpenKinds(m.next.tokens) == OpenKinds(ts[..LastOpen(ts)]);
      assert OpenKinds(ts)[..|OpenKinds(ts)| - 1] == OpenKinds(ts[..LastOpen(ts)]);
    }
  }

  /** One lexeme of the recogniser, found by the scanners. */
  lemma BalancedLexeme(js: Text, p: nat, stack: seq<Kind>, v: Verdict)
    requires !AtEnd(js, p)
    ensures var c := js[p];
            EndsAs(js, p, stack, v) ==
            if IsOpening(c) then EndsAs(js, p + 1, stack + [OpeningKind(c)], v)
            else if IsClosing(c) then
              if stack != [] && stack[|stack| - 1] == ClosingKind(c) then EndsAs(js, p + 1, stack[..|stack| - 1], v)
              else v == Wrong
            else if c == '"' as int then
              var e := StringEnd(js, p + 1);
              if e.Till? then EndsAs(js, e.end + 1, stack, v) else v == if e.error == Part then Unfinished else Wrong
            else if IsSpace(c) || c == ':' as int || c == ',' as int then EndsAs(js, p + 1, stack, v)
            else
              var e := PrimitiveEnd(js, p);
              if e.Till? then EndsAs(js, e.end, stack, v) else v == Wrong
  {
    hide Quoted, Worded, FailsAt, StringEnd, PrimitiveEnd;
    var c := js[p];
    if c == QUOTATION_MARK {
      var q := p + 1;
      StringErrors(js, q);
      forall e: nat
        ensures StringEnd(js, q) == Till(e) <==> Quoted(js, q, e)
      {
        StringEndIff(js, q, e);
      }
    } else if !IsOpening(c) && !EndsWord(c) {
      forall e: nat
        ensures PrimitiveEnd(js, p) == Till(e) <==> Worded(js, p, e)
      {
        PrimitiveEndIff(js, p, e);
      }
      WordNotEmpty(js, p);
    }
  }

  lemma WordNotEmpty(js: Text, p: nat)
    requires p < |js| && !TextEnds(js, p) && !EndsWord(js[p])
    ensures PrimitiveEnd(js, p).Till? ==> PrimitiveEnd(js, p).end > p
  {
    PrimitiveEndIff(js, p, p);
  }

  lemma OneKind(t: Token)
    ensures OpenKinds([t]) == if t.Open() then [t.kind] else []
  {
    assert OpenKinds([t][..0]) == [];
  }

  // ---------------------------------------------------------------- spans

  function OpenChar(k: Kind): Byte { if k == Object then '{' as int else '[' as int }
  function CloseChar(k: Kind): Byte { if k == Object then '}' as int else ']' as int }

  /** A token covers the text of its kind, up to `pos`. */
  predicate Covers(js: Text, pos: nat, t: Token) {
    if IsContainer(t.kind) then
      && 0 <= t.start < pos <= |js| && js[t.start] == OpenChar(t.kind)
      && (t.end == -1 || (t.start + 1 < t.end <= pos && js[t.end - 1] == CloseChar(t.kind)))
    else if t.kind == Kind.String then
      && 1 <= t.start <= t.end < pos <= |js| && js[t.start - 1] == '"' as int && js[t.end] == '"' as int
      && BodyOk(js[t.start..t.end])
    else
      0 <= t.start < t.end <= pos <= |js| && Worded(js, t.start, t.end)
  }

  /** Of two tokens the second begins after the first ends, or lies inside the first, a container. */
  predicate Placed(a: Token, b: Token) {
    && a.start < b.start
    && (a.end == -1 || a.end <= b.start || (IsContainer(a.kind) && b.end != -1 && b.end < a.end))
  }

  predicate Inv(js: Text, s: State) {
    && SuperOk(s) && s.pos <= |js|
    && (forall i :: 0 <= i < |s.tokens| ==> Covers(js, s.pos, s.tokens[i]))
    && (forall i, j :: 0 <= i < j < |s.tokens| ==> Placed(s.tokens[i], s.tokens[j]))
  }

  lemma AddedKeepsInv(js: Text, s: State, ts: seq<Token>, t: Token, pos: nat, super: int)
    requires Inv(js, s) && s.pos <= pos <= |js| && |ts| == |s.tokens|
    requires forall j :: 0 <= j < |ts| ==>
                           ts[j].kind == s.tokens[j].kind && ts[j].start == s.tokens[j].start && ts[j].end == s.tokens[j].end
    requires Covers(js, pos, t) && t.start >= s.pos && -1 <= super <= |ts|
    ensures Inv(js, State(pos, ts + [t], super))
  {
    hide BodyOk, Worded;
  }

  lemma ClosedKeepsInv(js: Text, s: State, i: nat, super: int)
    requires Inv(js, s) && s.pos < |js| && i < |s.tokens| && s.tokens[i].Open()
    requires js[s.pos] == CloseChar(s.tokens[i].kind)
    requires forall j :: i < j < |s.tokens| ==> !s.tokens[j].Open()
    requires -1 <= super < |s.tokens|
    ensures Inv(js, State(s.pos + 1, s.tokens[i := s.tokens[i].(end := s.pos + 1)], super))
  {
    hide BodyOk, Worded;
    var t := s.tokens[i];
    var ts := s.tokens[i := t.(end := s.pos + 1)];
    assert Covers(js, s.pos, t);
    forall a, b | 0 <= a < b < |ts|
      ensures Placed(ts[a], ts[b])
    {
      assert Placed(s.tokens[a], s.tokens[b]);
      if a == i {
        assert Covers(js, s.pos, s.tokens[b]);
      }
    }
    forall a | 0 <= a < |ts|
      ensures Covers(js, s.pos + 1, ts[a])
    {
      assert Covers(js, s.pos, s.tokens[a]);
    }
  }

  lemma StepKeepsInv(js: Text, cap: nat, s: State)
    requires Inv(js, s) && !AtEnd(js, s.pos) && Step(js, cap, s).Go?
    ensures Inv(js, Step(js, cap, s).next)
  {
    hide LastOpen, StringEnd, PrimitiveEnd, Covers, Placed;
    var c := js[s.pos];
    var next := Step(js, cap, s).next;
    if IsClosing(c) {
      StartsKnownByInv(js, s);
      ClosedKeepsInv(js, s, LastOpen(s.tokens), next.super);
    } else if |next.tokens| > |s.tokens| {
      var t := next.tokens[|s.tokens|];
      NewCovers(js, cap, s);
      AddedKeepsInv(js, s, Bump(s.tokens, s.super), t, next.pos, next.super);
    } else {
      forall i | 0 <= i < |s.tokens|
        ensures Covers(js, s.pos + 1, s.tokens[i])
      {
        CoversMore(js, s.pos, s.tokens[i]);
      }
    }
  }

  lemma StartsKnownByInv(js: Text, s: State)
    requires Inv(js, s)
    ensures StartsKnown(s.tokens)
    ensures LastOpen(s.tokens) >= 0 ==> IsContainer(s.tokens[LastOpen(s.tokens)].kind)
  {
    hide LastOpen, BodyOk, Worded;
    forall j | 0 <= j < |s.tokens|
      ensures s.tokens[j].start >= 0 && (s.tokens[j].Open() ==> IsContainer(s.tokens[j].kind))
    {
      assert Covers(js, s.pos, s.tokens[j]);
    }
  }

  lemma CoversMore(js: Text, pos: nat, t: Token)
    requires Covers(js, pos, t) && pos < |js|
    ensures Covers(js, pos + 1, t)
  {
    hide BodyOk, Worded;
  }

  lemma NewCovers(js: Text, cap: nat, s: State)
    requires SuperOk(s) && !AtEnd(js, s.pos) && Step(js, cap, s).Go? && |Step(js, cap, s).next.tokens| > |s.tokens|
    ensures var next := Step(js, cap, s).next;
            var t := next.tokens[|s.tokens|];
            Covers(js, next.pos, t) && t.start >= s.pos && next.tokens == Bump(s.tokens, s.super) + [t]
  {
    hide LastOpen, StringEnd, PrimitiveEnd, BodyOk;
    var c := js[s.pos];
    if c == '"' as int {
      StringEndIff(js, s.pos + 1, StringEnd(js, s.pos + 1).end);
    } else if !IsOpening(c) {
      PrimitiveEndIff(js, s.pos, PrimitiveEnd(js, s.pos).end);
    }
  }

  /**
   On every text, with every array: when a call succeeds, every token covers a string, a word
   or a bracketed stretch closed by its own kind of bracket, and any two tokens are disjoint or
   properly nested in a container, in order of their starts.
   */
  lemma {:induction false} SpansNested(js: Text, cap: nat, s: State)
    requires Inv(js, s)
    ensures var r := Run(js, cap, s);
            && Inv(js, r.last)
            && (r.Done? ==> forall i :: 0 <= i < |r.last.tokens| ==> !r.last.tokens[i].Open())
    decreases |js| - s.pos
  {
    hide Inv, Step;
    InvSuper(js, s);
    if !AtEnd(js, s.pos) {
      var m := Step(js, cap, s);
      if m.Go? {
        StepKeepsInv(js, cap, s);
        SpansNested(js, cap, m.next);
      }
    }
  }

  lemma InvSuper(js: Text, s: State)
    requires Inv(js, s)
    ensures SuperOk(s)
  {
  }

  lemma StartInv(js: Text)
    ensures Inv(js, START)
  {
  }

  /** What the caller gets from one call on a fresh parser. */
  lemma AcceptedText(js: Text, cap: nat)
    ensures Run(js, |js|, START).Done? <==> Balanced(js)
    ensures var r := Run(js, cap, START);
            r.Done? ==>
              && Balanced(js) && |r.last.tokens| == CountFrom(js, 0, 0) <= cap
              && (forall t :: t in r.last.tokens ==> Covers(js, r.last.pos, t) && t.end != -1)
              && (forall i, j :: 0 <= i < j < |r.last.tokens| ==> Placed(r.last.tokens[i], r.last.tokens[j]))
  {
    hide Run, EndsAs, Covers, Placed, CountFrom;
    StartInv(js);
    AcceptsIffBalanced(js, |js|, START, Accepted);
    var r := Run(js, cap, START);
    SpansNested(js, cap, START);
    if r.Done? {
      CountAgrees(js, cap, START);
      ExactlyEnough(js, cap, cap, START);
      var big := |js| + |r.last.tokens|;
      ExactlyEnough(js, cap, big, START);
      AcceptsIffBalanced(js, big, START, Accepted);
      forall t | t in r.last.tokens
        ensures Covers(js, r.last.pos, t) && t.end != -1
      {
        var i :| 0 <= i < |r.last.tokens| && r.last.tokens[i] == t;
        StartsKnownByInv(js, r.last);
      }
    }
  }
}
