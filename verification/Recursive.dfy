/**
 The recursive-descent parser: Parse, ParseValue, ParseObject and ParseArray
 (rapidjson/reader.h) as functions of the text, the position and the events so far.
 */
module Recursive {
  import opened Sax
  import opened Scan

  const NULL_TAIL: Text := ['u' as int, 'l' as int, 'l' as int]
  const TRUE_TAIL: Text := ['r' as int, 'u' as int, 'e' as int]
  const FALSE_TAIL: Text := ['a' as int, 'l' as int, 's' as int, 'e' as int]

  /** Skip white space and comments, then go on at the new position. */
  function Space(o: Options, t: Text, p: nat, out: seq<Event>): (r: Outcome)
    requires p <= |t|
    ensures r.Ok? ==> p <= r.pos <= |t| && r.out == out
    ensures r.Err? ==> r.out == out && r.code == UnspecificSyntaxError
  {
    match SkipSpace(o, t, p)
    case At(q) => Ok(q, out)
    case Bad(off) => Err(UnspecificSyntaxError, off, out)
  }

  /** ParseNull, ParseTrue, ParseFalse: the first letter is at `p`, the others are `w`. */
  function Literal(o: Options, t: Text, p: nat, w: Text, e: Event, out: seq<Event>): (r: Outcome)
    requires p < |t| && 0 !in w
    ensures r.Ok? ==> p < r.pos <= |t|
  {
    var n := Matched(t, p + 1, w);
    if n == |w| then Emit(o, e, p + 1 + n, p + 1 + n, out) else Err(ValueInvalid, p + 1 + n, out)
  }

  function Str(o: Options, t: Text, p: nat, isKey: bool, out: seq<Event>): (r: Outcome)
    ensures r.Ok? ==> p < r.pos <= |t|
  {
    match ParseString(t, p)
    case BadString(code, off) => Err(code, off, out)
    case Chars(s, end) => Emit(o, if isKey then Key(s) else String(s), end, end, out)
  }

  predicate IsCompound(c: Byte) { c == '{' as int || c == '[' as int }

  /** The part of ParseValue that both parsers share: everything but objects and arrays. */
  function Scalar(o: Options, t: Text, p: nat, out: seq<Event>): (r: Outcome)
    requires p <= |t|
    ensures r.Ok? ==> p < r.pos <= |t|
  {
    var c := Peek(t, p);
    if c == 'n' as int then Literal(o, t, p, NULL_TAIL, Null, out)
    else if c == 't' as int then Literal(o, t, p, TRUE_TAIL, Bool(true), out)
    else if c == 'f' as int then Literal(o, t, p, FALSE_TAIL, Bool(false), out)
    else if c == '"' as int then Str(o, t, p, false, out)
    else ParseNumber(o, t, p, out)
  }

  function Value(o: Options, t: Text, p: nat, out: seq<Event>): (r: Outcome)
    requires p <= |t|
    ensures r.Ok? ==> p < r.pos <= |t|
    decreases |t| - p, 1
  {
    var c := Peek(t, p);
    if c == '{' as int then Object(o, t, p, out)
    else if c == '[' as int then Array(o, t, p, out)
    else Scalar(o, t, p, out)
  }

  function Object(o: Options, t: Text, p: nat, out: seq<Event>): (r: Outcome)
    requires p < |t|
    ensures r.Ok? ==> p < r.pos <= |t|
    decreases |t| - p, 0
  {
    var (p1, out1) :- Emit(o, StartObject, p + 1, p + 1, out);
    var (q, _) :- Space(o, t, p1, out1);
    if Peek(t, q) == '}' as int then Emit(o, EndObject(0), q + 1, q + 1, out1)
    else Members(o, t, q, 0, out1)
  }

  /** The members from `p` on, `n` of them being already read. */
  function Members(o: Options, t: Text, p: nat, n: nat, out: seq<Event>): (r: Outcome)
    requires p <= |t|
    ensures r.Ok? ==> p < r.pos <= |t|
    decreases |t| - p, 0
  {
    if Peek(t, p) != '"' as int then Err(ObjectMissName, p, out)
    else
      var (p1, out1) :- Str(o, t, p, true, out);
      var (p2, _) :- Space(o, t, p1, out1);
      MemberRest(o, t, p2, n, out1)
  }

  /** What follows the name of member `n`: a colon, a value, and the other members. */
  function MemberRest(o: Options, t: Text, p: nat, n: nat, out: seq<Event>): (r: Outcome)
    requires p <= |t|
    ensures r.Ok? ==> p < r.pos <= |t|
    decreases |t| - p, 0
  {
    if Peek(t, p) != ':' as int then Err(ObjectMissColon, p, out)
    else
      var (p1, _) :- Space(o, t, p + 1, out);
      var (p2, out2) :- Value(o, t, p1, out);
      var (p3, _) :- Space(o, t, p2, out2);
      MemberTail(o, t, p3, n, out2)
  }

  /** What follows the value of member `n`: a comma and more members, or the end of the object. */
  function MemberTail(o: Options, t: Text, p: nat, n: nat, out: seq<Event>): (r: Outcome)
    requires p <= |t|
    ensures r.Ok? ==> p < r.pos <= |t|
    decreases |t| - p, 0
  {
    if Peek(t, p) == ',' as int then
      var (q, _) :- Space(o, t, p + 1, out);
      if o.trailingCommas && Peek(t, q) == '}' as int then Emit(o, EndObject(n + 1), q + 1, q, out)
      else Members(o, t, q, n + 1, out)
    else if Peek(t, p) == '}' as int then Emit(o, EndObject(n + 1), p + 1, p + 1, out)
    else Err(ObjectMissCommaOrCurlyBracket, p, out)
  }

  function Array(o: Options, t: Text, p: nat, out: seq<Event>): (r: Outcome)
    requires p < |t|
    ensures r.Ok? ==> p < r.pos <= |t|
    decreases |t| - p, 0
  {
    var (p1, out1) :- Emit(o, StartArray, p + 1, p + 1, out);
    var (q, _) :- Space(o, t, p1, out1);
    if Peek(t, q) == ']' as int then Emit(o, EndArray(0), q + 1, q + 1, out1)
    else Elements(o, t, q, 0, out1)
  }

  /** The elements from `p` on, `n` of them being already read. */
  function Elements(o: Options, t: Text, p: nat, n: nat, out: seq<Event>): (r: Outcome)
    requires p <= |t|
    ensures r.Ok? ==> p < r.pos <= |t|
    decreases |t| - p, 2
  {
    var (p1, out1) :- Value(o, t, p, out);
    var (p2, _) :- Space(o, t, p1, out1);
    ElementTail(o, t, p2, n, out1)
  }

  /** What follows element `n`. */
  function ElementTail(o: Options, t: Text, p: nat, n: nat, out: seq<Event>): (r: Outcome)
    requires p <= |t|
    ensures r.Ok? ==> p < r.pos <= |t|
    decreases |t| - p, 0
  {
    if Peek(t, p) == ',' as int then
      var (q, _) :- Space(o, t, p + 1, out);
      if o.trailingCommas && Peek(t, q) == ']' as int then Emit(o, EndArray(n + 1), q + 1, q, out)
      else Elements(o, t, q, n + 1, out)
    else if Peek(t, p) == ']' as int then Emit(o, EndArray(n + 1), p + 1, p + 1, out)
    else Err(ArrayMissCommaOrSquareBracket, p, out)
  }

  /** What is left to do once the root has been read. */
  function AfterRoot(o: Options, t: Text, p: nat, out: seq<Event>): Outcome
    requires p <= |t|
  {
    if o.stopWhenDone then Ok(p, out)
    else
      var (q, _) :- Space(o, t, p, out);
      if Peek(t, q) != 0 then Err(DocumentRootNotSingular, q, out) else Ok(q, out)
  }

  /** Parse without kParseIterativeFlag. */
  function Document(o: Options, t: Text): Outcome {
    var (p, _) :- Space(o, t, 0, []);
    if Peek(t, p) == 0 then Err(DocumentEmpty, p, [])
    else
      var (q, out) :- Value(o, t, p, []);
      AfterRoot(o, t, q, out)
  }
}
