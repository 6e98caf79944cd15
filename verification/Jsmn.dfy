/**
 The tokenizer that allocates nothing (parsers/jsmn.c) in its default build: not strict and
 without parent links. `Step` and `Run` say on values what one character and a whole call do;
 the class Parser does it in place on the caller's token array.
 */
module Jsmn {
  import opened Sax

  datatype Kind = Object | Array | String | Primitive

  datatype Token = Token(kind: Kind, start: int, end: int, size: nat) {
    /** A container whose closing bracket has not been seen. */
    predicate Open() { start != -1 && end == -1 }
  }

  datatype Error = NoMem | Inval | Part

  /** Parser fields and the tokens allocated so far. */
  datatype State = State(pos: nat, tokens: seq<Token>, super: int)

  datatype Move = Go(next: State) | Stop(error: Error)

  /** Every error leaves the parser where the failing step began. */
  datatype Result = Done(last: State) | Fail(error: Error, last: State)

  predicate IsContainer(k: Kind) { k == Object || k == Array }

  // ---------------------------------------------------------------- lexemes

  datatype Lexeme = Till(end: nat) | Bad(error: Error)

  predicate AtEnd(js: Text, p: nat) { p >= |js| || js[p] == 0 }

  predicate IsSpace(c: Byte) { c in [9, 10, 13, 32] }

  predicate EndsPrimitive(c: Byte) {
    IsSpace(c) || c == ':' as int || c == ',' as int || c == ']' as int || c == '}' as int
  }

  predicate IsHex(c: Byte) { 48 <= c <= 57 || 65 <= c <= 70 || 97 <= c <= 102 }

  predicate IsEscape(c: Byte) {
    c in ['"' as int, '/' as int, '\\' as int, 'b' as int, 'f' as int, 'r' as int, 'n' as int, 't' as int]
  }

  /** Up to `n` hexadecimal digits; fewer only at the end of the text. */
  function HexEnd(js: Text, p: nat, n: nat): (r: Lexeme)
    ensures r.Till? ==> p <= r.end && (p <= |js| ==> r.end <= |js|)
    ensures r.Bad? ==> r.error == Inval
    decreases n
  {
    if n == 0 || AtEnd(js, p) then Till(p) else if IsHex(js[p]) then HexEnd(js, p + 1, n - 1) else Bad(Inval)
  }

  /** The closing quote of the string whose characters begin at `p`. */
  function StringEnd(js: Text, p: nat): (r: Lexeme)
    ensures r.Till? ==> p <= r.end < |js| && js[r.end] == '"' as int
    ensures r.Bad? ==> r.error == Inval || r.error == Part
    decreases |js| - p
  {
    if AtEnd(js, p) then Bad(Part)
    else if js[p] == '"' as int then Till(p)
    else if js[p] == '\\' as int && p + 1 < |js| then
      if IsEscape(js[p + 1]) then StringEnd(js, p + 2)
      else if js[p + 1] == 'u' as int then
        var h := HexEnd(js, p + 2, 4);
        if h.Till? then StringEnd(js, h.end) else h
      else Bad(Inval)
    else StringEnd(js, p + 1)
  }

  /** The end of the unquoted word that begins before `p`. */
  function PrimitiveEnd(js: Text, p: nat): (r: Lexeme)
    ensures r.Till? ==> p <= r.end && (p <= |js| ==> r.end <= |js|)
    ensures r.Till? ==> forall i :: p <= i < r.end && i < |js| ==> !EndsPrimitive(js[i])
    ensures r.Bad? ==> r.error == Inval
    decreases |js| - p
  {
    if AtEnd(js, p) || EndsPrimitive(js[p]) then Till(p)
    else if js[p] < 32 || js[p] >= 127 then Bad(Inval)
    else PrimitiveEnd(js, p + 1)
  }

  // ---------------------------------------------------------------- steps

  /** The last open container, or -1. */
  function LastOpen(ts: seq<Token>): (i: int)
    ensures -1 <= i < |ts|
    ensures i >= 0 ==> ts[i].Open()
    ensures forall j :: i < j < |ts| ==> !ts[j].Open()
  {
    if ts == [] then -1
    else if ts[|ts| - 1].Open() then |ts| - 1
    else LastOpen(ts[..|ts| - 1])
  }

  predicate SuperOk(s: State) { -1 <= s.super < |s.tokens| }

  /** One more child of the token `super`. */
  function Bump(ts: seq<Token>, super: int): (r: seq<Token>)
    requires -1 <= super < |ts|
    ensures |r| == |ts|
    ensures forall j :: 0 <= j < |ts| ==> r[j].kind == ts[j].kind && r[j].start == ts[j].start && r[j].end == ts[j].end
  {
    if super == -1 then ts else ts[super := ts[super].(size := ts[super].size + 1)]
  }

  function OpeningKind(c: Byte): Kind { if c == '{' as int then Object else Array }
  function ClosingKind(c: Byte): Kind { if c == '}' as int then Object else Array }

  predicate IsOpening(c: Byte) { c == '{' as int || c == '[' as int }
  predicate IsClosing(c: Byte) { c == '}' as int || c == ']' as int }

  function AddScalar(cap: nat, s: State, kind: Kind, start: nat, end: nat, pos: nat): Move
    requires SuperOk(s)
  {
    if |s.tokens| >= cap then Stop(NoMem)
    else Go(State(pos, Bump(s.tokens, s.super) + [Token(kind, start, end, 0)], s.super))
  }

  function OpenContainer(cap: nat, s: State, kind: Kind): Move
    requires SuperOk(s)
  {
    if |s.tokens| >= cap then Stop(NoMem)
    else Go(State(s.pos + 1, Bump(s.tokens, s.super) + [Token(kind, s.pos, -1, 0)], |s.tokens|))
  }

  function CloseContainer(s: State, kind: Kind): Move {
    var i := LastOpen(s.tokens);
    if i == -1 || s.tokens[i].kind != kind then Stop(Inval)
    else Go(State(s.pos + 1, s.tokens[i := s.tokens[i].(end := s.pos + 1)], LastOpen(s.tokens[..i])))
  }

  /** After a comma a key or a word is no longer the superior token. */
  function CommaSuper(s: State): int
    requires SuperOk(s)
  {
    if s.super != -1 && !IsContainer(s.tokens[s.super].kind) && LastOpen(s.tokens) != -1 then LastOpen(s.tokens)
    else s.super
  }

  /** One turn of the main loop, with room for `cap` tokens. */
  function Step(js: Text, cap: nat, s: State): (m: Move)
    requires SuperOk(s) && !AtEnd(js, s.pos)
    ensures m.Go? ==> SuperOk(m.next) && s.pos < m.next.pos <= |js|
  {
    var c := js[s.pos];
    if IsOpening(c) then OpenContainer(cap, s, OpeningKind(c))
    else if IsClosing(c) then CloseContainer(s, ClosingKind(c))
    else if c == '"' as int then
      var e := StringEnd(js, s.pos + 1);
      if e.Bad? then Stop(e.error) else AddScalar(cap, s, Kind.String, s.pos + 1, e.end, e.end + 1)
    else if IsSpace(c) then Go(s.(pos := s.pos + 1))
    else if c == ':' as int then Go(s.(pos := s.pos + 1, super := |s.tokens| - 1))
    else if c == ',' as int then Go(s.(pos := s.pos + 1, super := CommaSuper(s)))
    else
      var e := PrimitiveEnd(js, s.pos);
      if e.Bad? then Stop(e.error) else AddScalar(cap, s, Primitive, s.pos, e.end, e.end)
  }

  /** One call, from any state that an earlier call left behind. */
  function Run(js: Text, cap: nat, s: State): (r: Result)
    requires SuperOk(s)
    ensures SuperOk(r.last)
    decreases |js| - s.pos
  {
    if AtEnd(js, s.pos) then (if LastOpen(s.tokens) != -1 then Fail(Part, s) else Done(s))
    else match Step(js, cap, s)
      case Go(next) => Run(js, cap, next)
      case Stop(e) => Fail(e, s)
  }

  const START := State(0, [], -1)

  /** A call without a token array only counts. */
  function CountFrom(js: Text, p: nat, n: nat): (r: int)
    decreases |js| - p
  {
    if AtEnd(js, p) then n
    else
      var c := js[p];
      if IsOpening(c) then CountFrom(js, p + 1, n + 1)
      else if c == '"' as int then
        var e := StringEnd(js, p + 1);
        if e.Bad? then Code(e.error) else CountFrom(js, e.end + 1, n + 1)
      else if IsClosing(c) || IsSpace(c) || c == ':' as int || c == ',' as int then CountFrom(js, p + 1, n)
      else
        var e := PrimitiveEnd(js, p);
        if e.Bad? then Code(e.error) else CountFrom(js, e.end, n + 1)
  }

  function Code(e: Error): int { match e case NoMem => -1 case Inval => -2 case Part => -3 }

  /** What a call returns: the number of tokens, or an error code. */
  function Returned(r: Result): int {
    if r.Done? then |r.last.tokens| else Code(r.error)
  }

  // ---------------------------------------------------------------- the parser in place

  class Parser {
    var pos: nat
    var toknext: nat
    var toksuper: int

    ghost predicate Valid(tokens: array<Token>)
      reads this, tokens
    {
      && toknext <= tokens.Length && -1 <= toksuper < toknext
      && forall j :: 0 <= j < toknext && tokens[j].Open() ==> IsContainer(tokens[j].kind)
    }

    /** The state that the fields and the array stand for. */
    ghost function At(tokens: array<Token>): (s: State)
      requires Valid(tokens)
      reads this, tokens
      ensures SuperOk(s)
    {
      State(pos, tokens[..toknext], toksuper)
    }

    /** jsmn_init */
    constructor ()
      ensures pos == 0 && toknext == 0 && toksuper == -1
    {
      pos, toknext, toksuper := 0, 0, -1;
    }

    /** The index of a fresh token, or -1. */
    method AllocToken(tokens: array<Token>) returns (i: int)
      requires toknext <= tokens.Length
      modifies this`toknext, tokens
      ensures i == (if old(toknext) < tokens.Length then old(toknext) else -1)
      ensures i == -1 ==> toknext == old(toknext) && tokens[..] == old(tokens[..])
      ensures i >= 0 ==> toknext == old(toknext) + 1
      ensures i >= 0 ==> tokens[..] == old(tokens[..])[i := tokens[i]]
      ensures i >= 0 ==> tokens[i].start == tokens[i].end == -1 && tokens[i].size == 0
    {
      if toknext >= tokens.Length {
        return -1;
      }
      i := toknext;
      toknext := toknext + 1;
      tokens[i] := tokens[i].(start := -1, end := -1, size := 0);
    }

    /** Allocate and fill a token, and count it as a child of the superior one. */
    method AddToken(tokens: array<Token>, kind: Kind, start: nat, end: nat) returns (ok: bool)
      requires Valid(tokens)
      modifies this`toknext, tokens
      ensures ok == (old(toknext) < tokens.Length) && Valid(tokens)
      ensures tokens[..toknext] ==
              if ok then Bump(old(tokens[..toknext]), toksuper) + [Token(kind, start, end, 0)] else old(tokens[..toknext])
    {
      var i := AllocToken(tokens);
      if i == -1 {
        return false;
      }
      tokens[i] := Token(kind, start, end, 0);
      assert tokens[..toknext] == old(tokens[..toknext]) + [Token(kind, start, end, 0)];
      CountChild(tokens);
      ok := true;
    }

    method CountChild(tokens: array<Token>)
      requires Valid(tokens)
      modifies tokens
      ensures Valid(tokens) && tokens[..toknext] == Bump(old(tokens[..toknext]), toksuper)
    {
      if toksuper != -1 {
        tokens[toksuper] := tokens[toksuper].(size := tokens[toksuper].size + 1);
      }
    }

    /** Find the end of an unquoted word. */
    method ScanPrimitive(js: Text) returns (r: int)
      modifies this`pos
      ensures match PrimitiveEnd(js, old(pos))
              case Till(end) => r == 0 && pos == end
              case Bad(error) => r == Code(error) && pos == old(pos)
    {
      var start := pos;
      while !AtEnd(js, pos) && !EndsPrimitive(js[pos])
        invariant PrimitiveEnd(js, pos) == PrimitiveEnd(js, start)
        decreases |js| - pos
      {
        if js[pos] < 32 || js[pos] >= 127 {
          pos := start;
          return -2;
        }
        pos := pos + 1;
      }
      r := 0;
    }

    method ParsePrimitive(js: Text, tokens: array<Token>) returns (r: int)
      requires Valid(tokens) && !AtEnd(js, pos) && !EndsPrimitive(js[pos])
      modifies this`pos, this`toknext, tokens
      ensures Valid(tokens)
      ensures var e := PrimitiveEnd(js, old(pos));
              if e.Bad? then r == Code(e.error) && At(tokens) == old(At(tokens))
              else match AddScalar(tokens.Length, old(At(tokens)), Primitive, old(pos), e.end, e.end)
                case Go(next) => r == 0 && At(tokens).(pos := pos + 1) == next
                case Stop(error) => r == Code(error) && At(tokens) == old(At(tokens))
    {
      var start := pos;
      r := ScanPrimitive(js);
      if r < 0 {
        return;
      }
      var ok := AddToken(tokens, Primitive, start, pos);
      if !ok {
        pos := start;
        return -1;
      }
      pos := pos - 1;
    }

    /** The digits after a backslash and u. */
    method SkipHex(js: Text) returns (ok: bool)
      modifies this`pos
      ensures match HexEnd(js, old(pos), 4)
              case Till(end) => ok && pos == end
              case Bad(_) => !ok
    {
      var i := 0;
      while i < 4 && !AtEnd(js, pos)
        invariant 0 <= i <= 4 && HexEnd(js, pos, 4 - i) == HexEnd(js, old(pos), 4)
      {
        if !IsHex(js[pos]) {
          return false;
        }
        pos := pos + 1;
        i := i + 1;
      }
      ok := true;
    }

    /** Find the closing quote of a string. */
    method ScanString(js: Text) returns (r: int)
      modifies this`pos
      ensures match StringEnd(js, old(pos) + 1)
              case Till(end) => r == 0 && pos == end
              case Bad(error) => r == Code(error) && pos == old(pos)
    {
      hide HexEnd;
      var start := pos;
      pos := pos + 1;
      while !AtEnd(js, pos)
        invariant start < pos && StringEnd(js, pos) == StringEnd(js, start + 1)
        decreases |js| - pos
      {
        var c := js[pos];
        if c == '"' as int {
          return 0;
        }
        if c == '\\' as int && pos + 1 < |js| {
          pos := pos + 1;
          if js[pos] == 'u' as int {
            pos := pos + 1;
            var ok := SkipHex(js);
            if !ok {
              pos := start;
              return -2;
            }
            pos := pos - 1;
          } else if !IsEscape(js[pos]) {
            pos := start;
            return -2;
          }
        }
        pos := pos + 1;
      }
      pos := start;
      r := -3;
    }

    method ParseString(js: Text, tokens: array<Token>) returns (r: int)
      requires Valid(tokens)
      modifies this`pos, this`toknext, tokens
      ensures Valid(tokens)
      ensures var e := StringEnd(js, old(pos) + 1);
              if e.Bad? then r == Code(e.error) && At(tokens) == old(At(tokens))
              else match AddScalar(tokens.Length, old(At(tokens)), Kind.String, old(pos) + 1, e.end, e.end + 1)
                case Go(next) => r == 0 && At(tokens).(pos := pos + 1) == next
                case Stop(error) => r == Code(error) && At(tokens) == old(At(tokens))
    {
      var start := pos;
      r := ScanString(js);
      if r < 0 {
        return;
      }
      var ok := AddToken(tokens, Kind.String, start + 1, pos);
      if !ok {
        pos := start;
        return -1;
      }
    }

    /** The last open token below `n`, or -1. */
    method FindOpen(tokens: array<Token>, n: int) returns (i: int)
      requires 0 <= n <= tokens.Length
      ensures i == LastOpen(tokens[..n])
    {
      i := n - 1;
      while i >= 0
        invariant -1 <= i < n && LastOpen(tokens[..n]) == LastOpen(tokens[..i + 1])
      {
        assert tokens[..i + 1][..i] == tokens[..i];
        if tokens[i].start != -1 && tokens[i].end == -1 {
          return;
        }
        i := i - 1;
      }
    }

    method OpenBracket(js: Text, tokens: array<Token>) returns (r: int)
      requires Valid(tokens) && !AtEnd(js, pos) && IsOpening(js[pos])
      modifies this`toknext, this`toksuper, tokens
      ensures Valid(tokens)
      ensures match OpenContainer(tokens.Length, old(At(tokens)), OpeningKind(js[pos]))
              case Go(next) => r == 0 && At(tokens).(pos := pos + 1) == next
              case Stop(error) => r == Code(error) && At(tokens) == old(At(tokens))
    {
      var i := AllocToken(tokens);
      if i == -1 {
        return -1;
      }
      if toksuper != -1 {
        tokens[toksuper] := tokens[toksuper].(size := tokens[toksuper].size + 1);
      }
      tokens[i] := tokens[i].(kind := if js[pos] == '{' as int then Object else Array);
      tokens[i] := tokens[i].(start := pos);
      toksuper := toknext - 1;
      r := 0;
      assert tokens[..toknext] == Bump(old(tokens[..toknext]), old(toksuper)) + [Token(OpeningKind(js[pos]), pos, -1, 0)];
    }

    method CloseBracket(js: Text, tokens: array<Token>) returns (r: int)
      requires Valid(tokens) && !AtEnd(js, pos) && IsClosing(js[pos])
      modifies this`toksuper, tokens
      ensures Valid(tokens)
      ensures match CloseContainer(old(At(tokens)), ClosingKind(js[pos]))
              case Go(next) => r == 0 && At(tokens).(pos := pos + 1) == next
              case Stop(error) => r == Code(error) && At(tokens) == old(At(tokens))
    {
      hide LastOpen;
      var kind := if js[pos] == '}' as int then Object else Array;
      var i := FindOpen(tokens, toknext);
      if i == -1 {
        return -2;
      }
      if tokens[i].kind != kind {
        return -2;
      }
      tokens[i] := tokens[i].(end := pos + 1);
      assert tokens[..i] == old(tokens[..toknext])[..i];
      toksuper := FindOpen(tokens, i);
      r := 0;
    }

    method Comma(tokens: array<Token>)
      requires Valid(tokens)
      modifies this`toksuper
      ensures Valid(tokens) && toksuper == CommaSuper(old(At(tokens)))
    {
      hide LastOpen;
      if toksuper != -1 && tokens[toksuper].kind != Array && tokens[toksuper].kind != Object {
        var i := FindOpen(tokens, toknext);
        if i != -1 {
          toksuper := i;
        }
      }
    }

    /** One turn of the loop of jsmn_parse; `counted` is what it adds to the count. */
    method Turn(js: Text, tokens: array<Token>) returns (r: int, counted: nat)
      requires Valid(tokens) && !AtEnd(js, pos)
      modifies this, tokens
      ensures Valid(tokens)
      ensures match Step(js, tokens.Length, old(At(tokens)))
              case Go(next) => r == 0 && At(tokens) == next && toknext == old(toknext) + counted
              case Stop(error) => r == Code(error) && At(tokens) == old(At(tokens))
    {
      hide LastOpen, StringEnd, PrimitiveEnd, Bump;
      r, counted := 0, 0;
      var c := js[pos];
      if IsOpening(c) {
        counted := 1;
        r := OpenBracket(js, tokens);
      } else if IsClosing(c) {
        r := CloseBracket(js, tokens);
      } else if c == '"' as int {
        r := ParseString(js, tokens);
        counted := 1;
      } else if IsSpace(c) {
      } else if c == ':' as int {
        toksuper := toknext - 1;
      } else if c == ',' as int {
        Comma(tokens);
      } else {
        r := ParsePrimitive(js, tokens);
        counted := 1;
      }
      if r < 0 {
        return;
      }
      pos := pos + 1;
    }

    /** jsmn_parse with a token array. The count that it keeps is the number of tokens allocated. */
    method Parse(js: Text, tokens: array<Token>) returns (r: int)
      requires Valid(tokens)
      modifies this, tokens
      ensures Valid(tokens)
      ensures var result := Run(js, tokens.Length, old(At(tokens)));
              r == Returned(result) && At(tokens) == result.last
    {
      hide Step;
      var count := toknext;
      while !AtEnd(js, pos)
        invariant Valid(tokens) && count == toknext
        invariant Run(js, tokens.Length, At(tokens)) == Run(js, tokens.Length, old(At(tokens)))
        decreases |js| - pos
      {
        var counted;
        r, counted := Turn(js, tokens);
        if r < 0 {
          return;
        }
        count := count + counted;
      }
      var i := FindOpen(tokens, toknext);
      if i >= 0 {
        return -3;
      }
      r := count;
    }

    /** jsmn_parse without a token array. */
    method Count(js: Text) returns (r: int)
      modifies this
      ensures r == CountFrom(js, old(pos), old(toknext)) && toknext == old(toknext)
    {
      hide StringEnd;
      r := toknext;
      while !AtEnd(js, pos)
        invariant r >= 0 && CountFrom(js, pos, r) == CountFrom(js, old(pos), toknext) && toknext == old(toknext)
        decreases |js| - pos
      {
        var c := js[pos];
        if IsOpening(c) {
          r := r + 1;
        } else if IsClosing(c) || IsSpace(c) || c == ',' as int {
        } else if c == '"' as int {
          var e := ScanString(js);
          if e < 0 {
            return e;
          }
          r := r + 1;
        } else if c == ':' as int {
          toksuper := toknext - 1;
        } else {
          var e := ScanPrimitive(js);
          if e < 0 {
            return e;
          }
          pos := pos - 1;
          r := r + 1;
        }
        pos := pos + 1;
      }
    }
  }
}
