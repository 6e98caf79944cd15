/**
 The table-driven parser refines the recursive one: same events, same verdict, same
 error. The proof follows the recursive calls, and shows for each of them that the
 machine, started with the frames of the enclosing calls on its stack, arrives where
 the call returns.
 */
module ParserEquivalence {
  import opened Sax
  import opened Scan
  import opened Recursive
  import opened TableDriven

  /**
   Equal outcomes, except that a refusal by the handler may be reported at another offset:
   the recursive parser steps over a bracket before it reports it, the machine afterwards.
   */
  predicate Same(a: Outcome, b: Outcome) {
    a == b || (a.Err? && b.Err? && a.code == Termination && b.code == Termination && a.out == b.out)
  }

  /** The machine goes on in `state` once the recursive call has returned `r`. */
  function Then(o: Options, t: Text, r: Outcome, state: State, stack: Stack): Outcome
    requires Consistent(state, stack)
    requires r.Ok? ==> r.pos <= |t|
  {
    if r.Err? then r else Resume(o, t, state, stack, r.pos, r.out)
  }

  predicate IsDelimiter(c: Byte) {
    c == ']' as int || c == '}' as int || c == ',' as int || c == ':' as int
  }

  /** The character at `p` closes the array or object that the machine is in. */
  predicate Closes(o: Options, src: State, c: Byte) {
    || (src == ArrayInitial && c == ']' as int)
    || (src == ElementDelimiter && c == ']' as int && o.trailingCommas)
    || (src == ObjectInitial && c == '}' as int)
    || (src == MemberDelimiter && c == '}' as int && o.trailingCommas)
  }

  predicate FrameFits(ret: State, stack: Stack) {
    Consistent(Restore(ret), stack) && (ret == Start || ret == Element || ret == MemberValue)
  }

  lemma PushConsistent(src: State, ret: State, stack: Stack, n: nat)
    requires FrameFits(ret, stack) && IsInside(src)
    ensures Consistent(src, stack + [Frame(ret, n)])
  {
  }

  // ---------------------------------------------------------------- single steps of the machine

  /** Inside a compound value the machine skips white space and goes on. */
  lemma ResumeInside(o: Options, t: Text, state: State, stack: Stack, p: nat, out: seq<Event>)
    requires p <= |t| && Consistent(state, stack) && state != Finish
    ensures var s := Space(o, t, p, out);
            Resume(o, t, state, stack, p, out) == if s.Ok? then Run(o, t, state, stack, s.pos, out) else s
  {
    hide Transit, Run, SkipSpace;
  }

  lemma RunTransit(o: Options, t: Text, state: State, stack: Stack, p: nat, out: seq<Event>)
    requires p < |t| && Consistent(state, stack) && Peek(t, p) != 0
    ensures Run(o, t, state, stack, p, out) ==
            match Transit(o, t, state, stack, p, out)
            case Halt(code, off, out1) => Err(code, off, out1)
            case Go(state1, stack1, p1, out1) => Resume(o, t, state1, stack1, p1, out1)
  {
    hide Transit, Resume;
  }

  lemma RunEnd(o: Options, t: Text, state: State, stack: Stack, p: nat, out: seq<Event>)
    requires p <= |t| && Consistent(state, stack) && Peek(t, p) == 0
    ensures Run(o, t, state, stack, p, out)
            == if state == Finish then Ok(p, out) else Err(StateError(state), p, out)
  {
    hide Transit, Resume;
  }

  /** A scalar, or a character that no value starts with. */
  lemma RunScalar(o: Options, t: Text, src: State, stack: Stack, p: nat, out: seq<Event>)
    requires p <= |t| && Consistent(src, stack) && AwaitsValue(src)
    requires src == Start ==> Peek(t, p) != 0 && !IsDelimiter(Peek(t, p))
    requires !Closes(o, src, Peek(t, p)) && !IsCompound(Peek(t, p))
    ensures FrameFits(ReturnState(src), stack)
    ensures Run(o, t, src, stack, p, out)
            == Then(o, t, Value(o, t, p, out), Restore(ReturnState(src)), stack)
  {
    hide Run, Resume, Str, Literal, ParseNumber, Open, Delimit, WellStacked;
    if Peek(t, p) == 0 || IsDelimiter(Peek(t, p)) {
      NoValue(o, t, p, out);
    }
    if Peek(t, p) == 0 {
      RunEnd(o, t, src, stack, p, out);
    } else {
      RunTransit(o, t, src, stack, p, out);
      if Peek(t, p) == ']' as int && src == ElementDelimiter {
        RefusedClose(o, stack, p, out);
      }
    }
  }

  /** No value starts with a delimiter or at the end of the text. */
  lemma NoValue(o: Options, t: Text, p: nat, out: seq<Event>)
    requires p <= |t| && (Peek(t, p) == 0 || IsDelimiter(Peek(t, p)))
    ensures Value(o, t, p, out) == Err(ValueInvalid, p, out)
  {
    hide Members, Elements;
  }

  /** Without trailing commas a bracket behind a comma is refused. */
  lemma RefusedClose(o: Options, stack: Stack, p: nat, out: seq<Event>)
    requires stack != [] && WellStacked(stack) && !o.trailingCommas
    ensures Delimit(o, ElementDelimiter, ArrayFinish, stack, p, out) == Halt(ValueInvalid, p, out)
  {
  }

  function StartEvent(c: Byte): Event { if c == '{' as int then StartObject else StartArray }
  function InitialState(c: Byte): State { if c == '{' as int then ObjectInitial else ArrayInitial }

  /** An opening bracket pushes a frame. */
  lemma RunOpen(o: Options, t: Text, src: State, stack: Stack, p: nat, out: seq<Event>)
    requires p <= |t| && Consistent(src, stack) && AwaitsValue(src) && IsCompound(Peek(t, p))
    ensures var c := Peek(t, p);
            var full := stack + [Frame(ReturnState(src), 0)];
            && FrameFits(ReturnState(src), stack)
            && Consistent(InitialState(c), full)
            && Run(o, t, src, stack, p, out)
               == Then(o, t, Emit(o, StartEvent(c), p + 1, p, out), InitialState(c), full)
  {
    hide Run, Resume, Value, Delimit, Str;
    RunTransit(o, t, src, stack, p, out);
  }

  /** One value: the machine reads it and arrives in the state that follows a value. */
  lemma {:induction false} RunValue(o: Options, t: Text, src: State, stack: Stack, p: nat, out: seq<Event>)
    requires p <= |t| && Consistent(src, stack) && AwaitsValue(src)
    requires src == Start ==> Peek(t, p) != 0 && !IsDelimiter(Peek(t, p))
    requires !Closes(o, src, Peek(t, p))
    ensures FrameFits(ReturnState(src), stack)
    ensures Same(Run(o, t, src, stack, p, out),
                 Then(o, t, Value(o, t, p, out), Restore(ReturnState(src)), stack))
    decreases |t| - p, 1
  {
    hide Run, Resume, Transit, Members, Elements, Scalar, Space;
    var c := Peek(t, p);
    if IsCompound(c) {
      var ret := ReturnState(src);
      RunOpen(o, t, src, stack, p, out);
      var e := Emit(o, StartEvent(c), p + 1, p + 1, out);
      if e.Ok? {
        ResumeInside(o, t, InitialState(c), stack + [Frame(ret, 0)], p + 1, e.out);
        var s := Space(o, t, p + 1, e.out);
        if s.Ok? {
          if Closes(o, InitialState(c), Peek(t, s.pos)) {
            CloseTop(o, t, InitialState(c), stack, ret, 0, s.pos, e.out);
          } else if c == '{' as int {
            RunMembers(o, t, ObjectInitial, stack, ret, 0, s.pos, e.out);
          } else {
            RunElements(o, t, ArrayInitial, stack, ret, 0, s.pos, e.out);
          }
        }
      }
    } else {
      RunScalar(o, t, src, stack, p, out);
    }
  }

  /** The count that a closing bracket reports in state `src`, the top frame holding `n`. */
  function FinalCount(src: State, n: nat): nat {
    if src == MemberValue || src == Element then n + 1 else n
  }

  /** A closing bracket pops the frame and delivers the count. */
  lemma CloseTop(o: Options, t: Text, src: State, stack: Stack, ret: State, n: nat, p: nat, out: seq<Event>)
    requires p < |t| && FrameFits(ret, stack)
    requires Closes(o, src, Peek(t, p)) || (src == MemberValue && Peek(t, p) == '}' as int)
             || (src == Element && Peek(t, p) == ']' as int)
    ensures IsInside(src) && Consistent(src, stack + [Frame(ret, n)])
    ensures var k := FinalCount(src, n);
            var e := if Peek(t, p) == '}' as int then EndObject(k) else EndArray(k);
            Run(o, t, src, stack + [Frame(ret, n)], p, out)
            == Then(o, t, Emit(o, e, p + 1, p, out), Restore(ret), stack)
  {
    hide Run, Resume, Transit, Emit, Close, WellStacked;
    PushConsistent(src, ret, stack, n);
    var full := stack + [Frame(ret, n)];
    TransitClose(o, t, src, full, p, out);
    RunTransit(o, t, src, full, p, out);
    var k := FinalCount(src, n);
    ClosePushed(o, if Peek(t, p) == '}' as int then EndObject(k) else EndArray(k), stack, Frame(ret, n), p, out);
  }

  lemma ClosePushed(o: Options, e: Event, stack: Stack, f: Frame, p: nat, out: seq<Event>)
    requires WellStacked(stack + [f])
    ensures Close(o, e, stack + [f], p, out) == MoveTo(Emit(o, e, p + 1, p, out), Restore(f.ret), stack)
  {
    var full := stack + [f];
    assert full[|full| - 1] == f && full[..|full| - 1] == stack;
  }

  lemma TransitClose(o: Options, t: Text, src: State, full: Stack, p: nat, out: seq<Event>)
    requires p < |t| && full != [] && Consistent(src, full)
    requires Closes(o, src, Peek(t, p)) || (src == MemberValue && Peek(t, p) == '}' as int)
             || (src == Element && Peek(t, p) == ']' as int)
    ensures var k := FinalCount(src, full[|full| - 1].count);
            var e := if Peek(t, p) == '}' as int then EndObject(k) else EndArray(k);
            Transit(o, t, src, full, p, out) == Close(o, e, full, p, out)
  {
    hide Value, Str, Emit, Close;
  }

  /** The members that follow `n` commas. */
  lemma {:induction false} RunMembers(o: Options, t: Text, src: State, stack: Stack, ret: State, n: nat, p: nat, out: seq<Event>)
    requires p <= |t| && (src == ObjectInitial || src == MemberDelimiter)
    requires FrameFits(ret, stack) && !Closes(o, src, Peek(t, p))
    ensures Consistent(src, stack + [Frame(ret, n)])
    ensures Same(Run(o, t, src, stack + [Frame(ret, n)], p, out),
                 Then(o, t, Members(o, t, p, n, out), Restore(ret), stack))
    decreases |t| - p, 0
  {
    hide Run, Resume, Transit, Str, Space, MemberRest;
    PushConsistent(src, ret, stack, n);
    RunName(o, t, src, stack + [Frame(ret, n)], p, out);
    if Peek(t, p) == '"' as int {
      var k := Str(o, t, p, true, out);
      if k.Ok? {
        var s := Space(o, t, k.pos, k.out);
        if s.Ok? {
          RunMemberRest(o, t, stack, ret, n, s.pos, k.out);
        }
      }
    }
  }

  /** From the colon of a member on. */
  lemma {:induction false} RunMemberRest(o: Options, t: Text, stack: Stack, ret: State, n: nat, p: nat, out: seq<Event>)
    requires p <= |t| && FrameFits(ret, stack)
    ensures Consistent(MemberKey, stack + [Frame(ret, n)])
    ensures Same(Run(o, t, MemberKey, stack + [Frame(ret, n)], p, out),
                 Then(o, t, MemberRest(o, t, p, n, out), Restore(ret), stack))
    decreases |t| - p, 0
  {
    hide Run, Resume, Transit, Value, Space, MemberTail;
    PushConsistent(MemberKey, ret, stack, n);
    var full := stack + [Frame(ret, n)];
    RunColon(o, t, full, p, out);
    if Peek(t, p) == ':' as int {
      var s := Space(o, t, p + 1, out);
      if s.Ok? {
        RunValue(o, t, KeyValueDelimiter, full, s.pos, out);
        var v := Value(o, t, s.pos, out);
        if v.Ok? {
          ResumeInside(o, t, MemberValue, full, v.pos, v.out);
          var s5 := Space(o, t, v.pos, v.out);
          if s5.Ok? {
            AfterMember(o, t, stack, ret, n, s5.pos, v.out);
          }
        }
      }
    }
  }

  /** The machine reads a member's name and the white space behind it. */
  lemma RunName(o: Options, t: Text, src: State, full: Stack, p: nat, out: seq<Event>)
    requires p <= |t| && Consistent(src, full) && (src == ObjectInitial || src == MemberDelimiter)
    requires !Closes(o, src, Peek(t, p))
    ensures Run(o, t, src, full, p, out) ==
            if Peek(t, p) != '"' as int then Err(ObjectMissName, p, out)
            else
              var k := Str(o, t, p, true, out);
              if k.Err? then k
              else
                var s := Space(o, t, k.pos, k.out);
                if s.Err? then s else Run(o, t, MemberKey, full, s.pos, k.out)
  {
    hide Run, Resume, Str, Value, Space, Open, Close, WellStacked;
    if Peek(t, p) == 0 {
      RunEnd(o, t, src, full, p, out);
    } else {
      RunTransit(o, t, src, full, p, out);
      var k := Str(o, t, p, true, out);
      if k.Ok? {
        ResumeInside(o, t, MemberKey, full, k.pos, k.out);
      }
    }
  }

  /** The machine reads the colon after a name and the white space behind it. */
  lemma RunColon(o: Options, t: Text, full: Stack, p: nat, out: seq<Event>)
    requires p <= |t| && Consistent(MemberKey, full)
    ensures Run(o, t, MemberKey, full, p, out) ==
            if Peek(t, p) != ':' as int then Err(ObjectMissColon, p, out)
            else
              var s := Space(o, t, p + 1, out);
              if s.Err? then s else Run(o, t, KeyValueDelimiter, full, s.pos, out)
  {
    hide Run, Resume, Str, Value, Space, Open, Close, WellStacked;
    if Peek(t, p) == 0 {
      RunEnd(o, t, MemberKey, full, p, out);
    } else {
      RunTransit(o, t, MemberKey, full, p, out);
      if Peek(t, p) == ':' as int {
        ResumeInside(o, t, KeyValueDelimiter, full, p + 1, out);
      }
    }
  }

  /** After a value: a comma leads back to a delimiter state with one more in the count. */
  lemma RunComma(o: Options, t: Text, src: State, stack: Stack, ret: State, n: nat, p: nat, out: seq<Event>)
    requires p <= |t| && FrameFits(ret, stack) && (src == MemberValue || src == Element)
    requires src == MemberValue ==> Peek(t, p) != '}' as int
    requires src == Element ==> Peek(t, p) != ']' as int
    ensures var delim := if src == MemberValue then MemberDelimiter else ElementDelimiter;
            && Consistent(src, stack + [Frame(ret, n)])
            && Consistent(delim, stack + [Frame(ret, n + 1)])
            && Run(o, t, src, stack + [Frame(ret, n)], p, out) ==
               if Peek(t, p) != ',' as int then Err(StateError(src), p, out)
               else
                 var s := Space(o, t, p + 1, out);
                 if s.Err? then s else Run(o, t, delim, stack + [Frame(ret, n + 1)], s.pos, out)
  {
    hide Run, Resume, Str, Value, Space, Open, Close, WellStacked, Transit;
    var delim := if src == MemberValue then MemberDelimiter else ElementDelimiter;
    var full := stack + [Frame(ret, n)];
    PushConsistent(src, ret, stack, n);
    PushConsistent(delim, ret, stack, n + 1);
    assert Bump(full) == stack + [Frame(ret, n + 1)];
    if Peek(t, p) == 0 {
      RunEnd(o, t, src, full, p, out);
    } else {
      RunTransit(o, t, src, full, p, out);
      TransitComma(o, t, src, full, p, out);
      if Peek(t, p) == ',' as int {
        ResumeInside(o, t, delim, Bump(full), p + 1, out);
      }
    }
  }

  lemma TransitComma(o: Options, t: Text, src: State, full: Stack, p: nat, out: seq<Event>)
    requires p < |t| && full != [] && Consistent(src, full) && (src == MemberValue || src == Element)
    requires Peek(t, p) != 0 && Peek(t, p) != if src == MemberValue then '}' as int else ']' as int
    ensures var delim := if src == MemberValue then MemberDelimiter else ElementDelimiter;
            Transit(o, t, src, full, p, out) ==
            if Peek(t, p) == ',' as int then Go(delim, Bump(full), p + 1, out) else Halt(StateError(src), p, out)
  {
    hide Str, Value, Open, Close, WellStacked;
  }

  /** What follows a member's value: a comma and more members, or the end of the object. */
  lemma {:induction false} AfterMember(o: Options, t: Text, stack: Stack, ret: State, n: nat, p: nat, out: seq<Event>)
    requires p <= |t| && FrameFits(ret, stack)
    ensures Consistent(MemberValue, stack + [Frame(ret, n)])
    ensures Same(Run(o, t, MemberValue, stack + [Frame(ret, n)], p, out),
                 Then(o, t, MemberTail(o, t, p, n, out), Restore(ret), stack))
    decreases |t| - p, 1
  {
    hide Run, Resume, Transit, Members, Space;
    if Peek(t, p) == '}' as int {
      CloseTop(o, t, MemberValue, stack, ret, n, p, out);
    } else {
      RunComma(o, t, MemberValue, stack, ret, n, p, out);
      if Peek(t, p) == ',' as int && Space(o, t, p + 1, out).Ok? {
        var s := Space(o, t, p + 1, out);
        if o.trailingCommas && Peek(t, s.pos) == '}' as int {
          CloseTop(o, t, MemberDelimiter, stack, ret, n + 1, s.pos, out);
        } else {
          RunMembers(o, t, MemberDelimiter, stack, ret, n + 1, s.pos, out);
        }
      }
    }
  }

  /** The elements that follow `n` commas. */
  lemma {:induction false} RunElements(o: Options, t: Text, src: State, stack: Stack, ret: State, n: nat, p: nat, out: seq<Event>)
    requires p <= |t| && (src == ArrayInitial || src == ElementDelimiter)
    requires FrameFits(ret, stack) && !Closes(o, src, Peek(t, p))
    ensures Consistent(src, stack + [Frame(ret, n)])
    ensures Same(Run(o, t, src, stack + [Frame(ret, n)], p, out),
                 Then(o, t, Elements(o, t, p, n, out), Restore(ret), stack))
    decreases |t| - p, 2
  {
    hide Run, Resume, Transit, Value, Space, ElementTail;
    PushConsistent(src, ret, stack, n);
    var full := stack + [Frame(ret, n)];
    RunValue(o, t, src, full, p, out);
    var v := Value(o, t, p, out);
    if v.Ok? {
      ResumeInside(o, t, Element, full, v.pos, v.out);
      var s := Space(o, t, v.pos, v.out);
      if s.Ok? {
        AfterElement(o, t, stack, ret, n, s.pos, v.out);
      }
    }
  }

  lemma {:induction false} AfterElement(o: Options, t: Text, stack: Stack, ret: State, n: nat, p: nat, out: seq<Event>)
    requires p <= |t| && FrameFits(ret, stack)
    ensures Consistent(Element, stack + [Frame(ret, n)])
    ensures Same(Run(o, t, Element, stack + [Frame(ret, n)], p, out),
                 Then(o, t, ElementTail(o, t, p, n, out), Restore(ret), stack))
    decreases |t| - p, 3
  {
    hide Run, Resume, Transit, Elements, Space;
    if Peek(t, p) == ']' as int {
      CloseTop(o, t, Element, stack, ret, n, p, out);
    } else {
      RunComma(o, t, Element, stack, ret, n, p, out);
      if Peek(t, p) == ',' as int && Space(o, t, p + 1, out).Ok? {
        var s := Space(o, t, p + 1, out);
        if o.trailingCommas && Peek(t, s.pos) == ']' as int {
          CloseTop(o, t, ElementDelimiter, stack, ret, n + 1, s.pos, out);
        } else {
          RunElements(o, t, ElementDelimiter, stack, ret, n + 1, s.pos, out);
        }
      }
    }
  }

  /** The root starts with a closing bracket, a comma or a colon. */
  predicate DelimiterRoot(o: Options, t: Text) {
    var s := Space(o, t, 0, []);
    s.Ok? && IsDelimiter(Peek(t, s.pos))
  }

  /**
   For every text, every flag setting and every handler: unless the root starts with a
   delimiter, both parsers deliver the same events and end the same way.
   */
  lemma TableDrivenRefinesRecursive(o: Options, t: Text)
    requires !DelimiterRoot(o, t)
    ensures Same(TableDriven.Document(o, t), Recursive.Document(o, t))
  {
    hide Run, Resume, Transit, Value, Space;
    var s := Space(o, t, 0, []);
    if s.Ok? {
      if Peek(t, s.pos) == 0 {
        RunEnd(o, t, Start, [], s.pos, []);
      } else {
        RunValue(o, t, Start, [], s.pos, []);
        var v := Value(o, t, s.pos, []);
        if v.Ok? {
          ResumeFinish(o, t, v.pos, v.out);
        }
      }
    }
  }

  /** After the root the machine only looks for trailing text. */
  lemma ResumeFinish(o: Options, t: Text, p: nat, out: seq<Event>)
    requires p <= |t|
    ensures Resume(o, t, Finish, [], p, out) == AfterRoot(o, t, p, out)
  {
    hide Transit, Run, Space;
    var s := Space(o, t, p, out);
    if s.Ok? {
      if Peek(t, s.pos) == 0 {
        RunEnd(o, t, Finish, [], s.pos, out);
      } else {
        RunTransit(o, t, Finish, [], s.pos, out);
        FinishRefuses(o, t, s.pos, out);
      }
    }
  }

  lemma FinishRefuses(o: Options, t: Text, p: nat, out: seq<Event>)
    requires p < |t|
    ensures Transit(o, t, Finish, [], p, out) == Halt(DocumentRootNotSingular, p, out)
  {
  }

  /** In the remaining case both reject at the same place before any event, with different codes. */
  lemma DelimiterRootCodes(o: Options, t: Text)
    requires DelimiterRoot(o, t)
    ensures var p := Space(o, t, 0, []).pos;
            && Recursive.Document(o, t) == Err(ValueInvalid, p, [])
            && TableDriven.Document(o, t) == Err(DocumentEmpty, p, [])
  {
  }

  /** With a handler that never refuses, the outcomes are equal exactly when the root is no delimiter. */
  lemma EqualIffNoDelimiterRoot(o: Options, t: Text)
    requires forall h :: o.accepts(h)
    ensures TableDriven.Document(o, t) == Recursive.Document(o, t) <==> !DelimiterRoot(o, t)
  {
    hide Run, Value, Space;
    if DelimiterRoot(o, t) {
      DelimiterRootCodes(o, t);
    } else {
      TableDrivenRefinesRecursive(o, t);
      var s := Space(o, t, 0, []);
      if s.Ok? && Peek(t, s.pos) != 0 {
        ValueTermination(o, t, s.pos, []);
      }
    }
  }

  // ---------------------------------------------------------------- terminations come from refusals

  /** A reported termination follows a refusal of the last event. */
  predicate Honest(o: Options, r: Outcome) {
    r.Err? && r.code == Termination ==> !o.accepts(r.out)
  }

  lemma {:induction false} StringCodes(t: Text, p: nat, acc: Text)
    ensures var d := StringBody(t, p, acc); d.BadString? ==> d.code != Termination
    decreases |t| - p
  {
    hide Hex4, Utf8;
    var c := Peek(t, p);
    if c == '\\' as int {
      var e := EscapeAt(t, p);
      if e.Chars? {
        StringCodes(t, e.end, acc + e.s);
      }
    } else if c >= 0x20 && c != '"' as int {
      StringCodes(t, p + 1, acc + [c]);
    }
  }

  lemma StrTermination(o: Options, t: Text, p: nat, isKey: bool, out: seq<Event>)
    ensures Honest(o, Str(o, t, p, isKey, out))
  {
    StringCodes(t, p + 1, []);
  }

  lemma NumberTermination(o: Options, t: Text, p: nat, out: seq<Event>)
    requires p <= |t|
    ensures Honest(o, ParseNumber(o, t, p, out))
  {
    hide DigitsEnd, DecimalValue;
  }

  lemma {:induction false} ValueTermination(o: Options, t: Text, p: nat, out: seq<Event>)
    requires p <= |t|
    ensures Honest(o, Value(o, t, p, out))
    decreases |t| - p, 1
  {
    hide Members, Elements, Str, ParseNumber, Space, Matched;
    var c := Peek(t, p);
    if IsCompound(c) {
      var e := Emit(o, StartEvent(c), p + 1, p + 1, out);
      if e.Ok? {
        var s := Space(o, t, p + 1, e.out);
        if s.Ok? {
          MembersTermination(o, t, s.pos, 0, e.out);
          ElementsTermination(o, t, s.pos, 0, e.out);
        }
      }
    } else {
      StrTermination(o, t, p, false, out);
      NumberTermination(o, t, p, out);
    }
  }

  lemma {:induction false} MembersTermination(o: Options, t: Text, p: nat, n: nat, out: seq<Event>)
    requires p <= |t|
    ensures Honest(o, Members(o, t, p, n, out))
    decreases |t| - p, 0
  {
    hide MemberRest, Str, Space;
    StrTermination(o, t, p, true, out);
    var k := Str(o, t, p, true, out);
    if Peek(t, p) == '"' as int && k.Ok? {
      var s := Space(o, t, k.pos, k.out);
      if s.Ok? {
        MemberRestTermination(o, t, s.pos, n, k.out);
      }
    }
  }

  lemma {:induction false} MemberRestTermination(o: Options, t: Text, p: nat, n: nat, out: seq<Event>)
    requires p <= |t|
    ensures Honest(o, MemberRest(o, t, p, n, out))
    decreases |t| - p, 0
  {
    hide Value, MemberTail, Space;
    if Peek(t, p) == ':' as int {
      var s := Space(o, t, p + 1, out);
      if s.Ok? {
        ValueTermination(o, t, s.pos, out);
        var v := Value(o, t, s.pos, out);
        if v.Ok? {
          var s2 := Space(o, t, v.pos, v.out);
          if s2.Ok? {
            MemberTailTermination(o, t, s2.pos, n, v.out);
          }
        }
      }
    }
  }

  lemma {:induction false} MemberTailTermination(o: Options, t: Text, p: nat, n: nat, out: seq<Event>)
    requires p <= |t|
    ensures Honest(o, MemberTail(o, t, p, n, out))
    decreases |t| - p, 0
  {
    hide Members, Space;
    if Peek(t, p) == ',' as int {
      var s := Space(o, t, p + 1, out);
      if s.Ok? {
        MembersTermination(o, t, s.pos, n + 1, out);
      }
    }
  }

  lemma {:induction false} ElementsTermination(o: Options, t: Text, p: nat, n: nat, out: seq<Event>)
    requires p <= |t|
    ensures Honest(o, Elements(o, t, p, n, out))
    decreases |t| - p, 2
  {
    hide Value, ElementTail, Space;
    ValueTermination(o, t, p, out);
    var v := Value(o, t, p, out);
    if v.Ok? {
      var s := Space(o, t, v.pos, v.out);
      if s.Ok? {
        ElementTailTermination(o, t, s.pos, n, v.out);
      }
    }
  }

  lemma {:induction false} ElementTailTermination(o: Options, t: Text, p: nat, n: nat, out: seq<Event>)
    requires p <= |t|
    ensures Honest(o, ElementTail(o, t, p, n, out))
    decreases |t| - p, 0
  {
    hide Elements, Space;
    if Peek(t, p) == ',' as int {
      var s := Space(o, t, p + 1, out);
      if s.Ok? {
        ElementsTermination(o, t, s.pos, n + 1, out);
      }
    }
  }
}
