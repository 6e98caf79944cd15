/**
 The table-driven parser: Tokenize, Predict, Transit, HandleError and the loop of
 IterativeParse (rapidjson/reader.h). Nesting lives in an explicit stack of frames.
 */
module TableDriven {
  import opened Sax
  import opened Scan
  import opened Recursive

  datatype State =
    | Finish | Error | Start
    | ObjectInitial | MemberKey | MemberValue | ObjectFinish
    | ArrayInitial | Element | ArrayFinish
    | SingleValue
    | ElementDelimiter | MemberDelimiter | KeyValueDelimiter

  datatype Token =
    | LeftBracket | RightBracket | LeftCurly | RightCurly | Comma | Colon
    | StringToken | FalseToken | TrueToken | NullToken | NumberToken

  function Tokenize(c: Byte): Token {
    if c == '[' as int then LeftBracket
    else if c == ']' as int then RightBracket
    else if c == '{' as int then LeftCurly
    else if c == '}' as int then RightCurly
    else if c == ',' as int then Comma
    else if c == ':' as int then Colon
    else if c == '"' as int then StringToken
    else if c == 'f' as int then FalseToken
    else if c == 't' as int then TrueToken
    else if c == 'n' as int then NullToken
    else NumberToken
  }

  /** The row of a state in which a value may start: `scalar` is where a scalar leads. */
  function ValueRow(token: Token, scalar: State, close: State): State {
    match token
    case LeftBracket => ArrayInitial
    case LeftCurly => ObjectInitial
    case RightBracket => close
    case RightCurly => Error
    case Comma => Error
    case Colon => Error
    case StringToken => scalar
    case FalseToken => scalar
    case TrueToken => scalar
    case NullToken => scalar
    case NumberToken => scalar
  }

  /** The table G. */
  function Predict(state: State, token: Token): State {
    match state
    case Start => ValueRow(token, SingleValue, Error)
    case ObjectInitial =>
      if token == RightCurly then ObjectFinish else if token == StringToken then MemberKey else Error
    case MemberKey => if token == Colon then KeyValueDelimiter else Error
    case MemberValue =>
      if token == RightCurly then ObjectFinish else if token == Comma then MemberDelimiter else Error
    case ArrayInitial => ValueRow(token, Element, ArrayFinish)
    case Element =>
      if token == RightBracket then ArrayFinish else if token == Comma then ElementDelimiter else Error
    case ElementDelimiter => ValueRow(token, Element, ArrayFinish)
    case MemberDelimiter =>
      if token == RightCurly then ObjectFinish else if token == StringToken then MemberKey else Error
    case KeyValueDelimiter => ValueRow(token, MemberValue, Error)
    case _ => Error
  }

  /** One entry of the explicit stack: the state to return to and a member or element count. */
  datatype Frame = Frame(ret: State, count: nat)

  type Stack = seq<Frame>

  /** The states between two iterations: Start and Finish outside, the others inside a compound value. */
  predicate IsInside(state: State) {
    match state
    case ObjectInitial => true
    case MemberKey => true
    case MemberValue => true
    case ArrayInitial => true
    case Element => true
    case ElementDelimiter => true
    case MemberDelimiter => true
    case KeyValueDelimiter => true
    case _ => false
  }

  /**
   The loop invariant of the machine: only the bottom frame returns to the root, every other
   frame returns into an array or an object, and the stack is empty exactly outside the root.
   */
  predicate Consistent(state: State, stack: Stack) {
    && (state == Start || state == Finish || IsInside(state))
    && (stack == [] <==> !IsInside(state))
    && WellStacked(stack)
  }

  predicate WellStacked(stack: Stack) {
    forall i :: 0 <= i < |stack| ==>
      if i == 0 then stack[i].ret == Start else stack[i].ret == Element || stack[i].ret == MemberValue
  }

  predicate AwaitsValue(s: State) {
    s == Start || s == ArrayInitial || s == ElementDelimiter || s == KeyValueDelimiter
  }

  /** The state to return to after a compound value that starts in state `src`. */
  function ReturnState(src: State): State {
    if src == ArrayInitial || src == ElementDelimiter then Element
    else if src == KeyValueDelimiter then MemberValue
    else src
  }

  /** A frame's return state, Start standing for the end of the document. */
  function Restore(ret: State): State {
    if ret == Start then Finish else ret
  }

  datatype Move =
    | Go(state: State, stack: Stack, pos: nat, out: seq<Event>)
    | Halt(code: ErrorCode, off: nat, out: seq<Event>)

  function MoveTo(r: Outcome, state: State, stack: Stack): Move {
    match r
    case Ok(pos, out) => Go(state, stack, pos, out)
    case Err(code, off, out) => Halt(code, off, out)
  }

  /** HandleError when no error has been recorded yet. */
  function StateError(src: State): ErrorCode {
    match src
    case Start => DocumentEmpty
    case Finish => DocumentRootNotSingular
    case ObjectInitial => ObjectMissName
    case MemberDelimiter => ObjectMissName
    case MemberKey => ObjectMissColon
    case MemberValue => ObjectMissCommaOrCurlyBracket
    case KeyValueDelimiter => ValueInvalid
    case ArrayInitial => ValueInvalid
    case ElementDelimiter => ValueInvalid
    case _ => ArrayMissCommaOrSquareBracket
  }

  /** Push a frame and deliver the opening event. */
  function Open(o: Options, e: Event, src: State, dst: State, stack: Stack, p: nat, out: seq<Event>): (m: Move)
    requires Consistent(src, stack) && AwaitsValue(src) && IsInside(dst)
    ensures m.Go? ==> m.pos == p + 1 && Consistent(m.state, m.stack)
  {
    MoveTo(Emit(o, e, p + 1, p, out), dst, stack + [Frame(ReturnState(src), 0)])
  }

  /** Pop a frame and deliver the closing event. */
  function Close(o: Options, e: Event, stack: Stack, p: nat, out: seq<Event>): (m: Move)
    requires stack != [] && WellStacked(stack)
    ensures m.Go? ==> m.pos == p + 1 && Consistent(m.state, m.stack)
  {
    MoveTo(Emit(o, e, p + 1, p, out), Restore(stack[|stack| - 1].ret), stack[..|stack| - 1])
  }

  /** Count one more member or element in the top frame. */
  function Bump(stack: Stack): (r: Stack)
    requires stack != [] && WellStacked(stack)
    ensures r != [] && WellStacked(r)
  {
    var f := stack[|stack| - 1];
    stack[..|stack| - 1] + [f.(count := f.count + 1)]
  }

  /** The transitions into a delimiter state or out of a compound value. */
  function Delimit(o: Options, src: State, dst: State, stack: Stack, p: nat, out: seq<Event>): (m: Move)
    requires stack != [] && WellStacked(stack)
    ensures m.Go? ==> m.pos == p + 1 && (IsInside(dst) || dst == ObjectFinish || dst == ArrayFinish ==> Consistent(m.state, m.stack))
  {
    var c := stack[|stack| - 1].count;
    if dst == ObjectFinish then
      if !o.trailingCommas && src == MemberDelimiter then Halt(ObjectMissName, p, out)
      else Close(o, EndObject(if src == MemberValue then c + 1 else c), stack, p, out)
    else if dst == ArrayFinish then
      if !o.trailingCommas && src == ElementDelimiter then Halt(ValueInvalid, p, out)
      else Close(o, EndArray(if src == Element then c + 1 else c), stack, p, out)
    else Go(dst, if dst == KeyValueDelimiter then stack else Bump(stack), p + 1, out)
  }

  /** Predict, Transit and HandleError in the state `src` with the cursor at `p`. */
  function Transit(o: Options, t: Text, src: State, stack: Stack, p: nat, out: seq<Event>): (m: Move)
    requires p < |t| && Consistent(src, stack)
    ensures m.Go? ==> p < m.pos <= |t|
    ensures m.Go? ==> Consistent(m.state, m.stack)
  {
    var dst := Predict(src, Tokenize(Peek(t, p)));
    if dst == Error then Halt(StateError(src), p, out)
    else if dst == ObjectInitial then Open(o, StartObject, src, dst, stack, p, out)
    else if dst == ArrayInitial then Open(o, StartArray, src, dst, stack, p, out)
    else if dst == MemberKey then MoveTo(Str(o, t, p, true, out), dst, stack)
    else if dst == MemberValue || dst == Element then MoveTo(Value(o, t, p, out), dst, stack)
    else if dst == SingleValue then MoveTo(Value(o, t, p, out), Finish, stack)
    else Delimit(o, src, dst, stack, p, out)
  }

  /** The loop of IterativeParse from its head on. */
  function Run(o: Options, t: Text, state: State, stack: Stack, p: nat, out: seq<Event>): Outcome
    requires p <= |t| && Consistent(state, stack)
    decreases |t| - p, 1
  {
    if Peek(t, p) == 0 then
      if state == Finish then Ok(p, out) else Err(StateError(state), p, out)
    else
      match Transit(o, t, state, stack, p, out)
      case Halt(code, off, out1) => Err(code, off, out1)
      case Go(state1, stack1, p1, out1) => Resume(o, t, state1, stack1, p1, out1)
  }

  /** The rest of the loop after a transition. */
  function Resume(o: Options, t: Text, state: State, stack: Stack, p: nat, out: seq<Event>): Outcome
    requires p <= |t| && Consistent(state, stack)
    decreases |t| - p, 2
  {
    if o.stopWhenDone && state == Finish then Ok(p, out)
    else
      var (q, _) :- Space(o, t, p, out);
      Run(o, t, state, stack, q, out)
  }

  /** Parse with kParseIterativeFlag. */
  function Document(o: Options, t: Text): Outcome {
    var (p, _) :- Space(o, t, 0, []);
    Run(o, t, Start, [], p, [])
  }
}
