/**
 The vocabulary shared by both parsers: bytes, SAX events, error codes, and the
 settings a parse runs under (rapidjson/reader.h, rapidjson/error/error.h).
 */
module Sax {

  type Byte = b: int | 0 <= b < 256

  type Text = seq<Byte>

  type uint32 = x: int | 0 <= x < 0x1_0000_0000
  type uint64 = x: int | 0 <= x < 0x1_0000_0000_0000_0000
  type int32 = x: int | -0x8000_0000 <= x < 0x8000_0000
  type int64 = x: int | -0x8000_0000_0000_0000 <= x < 0x8000_0000_0000_0000

  /** The text `s` stands at position `p` of `t`. */
  predicate Stands(t: Text, p: nat, s: Text) {
    p + |s| <= |t| && forall i :: 0 <= i < |s| ==> t[p + i] == s[i]
  }

  lemma StandsSplit(t: Text, p: nat, a: Text, b: Text)
    requires Stands(t, p, a + b)
    ensures Stands(t, p, a) && Stands(t, p + |a|, b)
  {
    forall i | 0 <= i < |a|
      ensures t[p + i] == a[i]
    {
      assert (a + b)[i] == a[i];
    }
    forall i | 0 <= i < |b|
      ensures t[p + |a| + i] == b[i]
    {
      assert (a + b)[|a| + i] == b[i];
      assert t[p + (|a| + i)] == (a + b)[|a| + i];
    }
  }

  lemma StandsAt(t: Text, p: nat, s: Text, i: nat)
    requires Stands(t, p, s) && i < |s|
    ensures t[p + i] == s[i]
  {
  }

  lemma StandsWithin(t: Text, p: nat, s: Text)
    requires Stands(t, p, s)
    ensures p + |s| <= |t|
  {
  }

  lemma StandsSlice(t: Text, p: nat, s: Text)
    requires Stands(t, p, s)
    ensures t[p..p + |s|] == s
  {
  }

  /** What the handler is told. A double is represented by the number text it is computed from. */
  datatype Event =
    | Null
    | Bool(b: bool)
    | Int(i: int)
    | Uint(u: int)
    | Int64(i64: int)
    | Uint64(u64: int)
    | Double(lexeme: Text)
    | String(s: Text)
    | Key(k: Text)
    | StartObject
    | EndObject(members: nat)
    | StartArray
    | EndArray(elements: nat)

  datatype ErrorCode =
    | DocumentEmpty
    | DocumentRootNotSingular
    | ValueInvalid
    | ObjectMissName
    | ObjectMissColon
    | ObjectMissCommaOrCurlyBracket
    | ArrayMissCommaOrSquareBracket
    | StringUnicodeEscapeInvalidHex
    | StringUnicodeSurrogateInvalid
    | StringEscapeInvalid
    | StringMissQuotationMark
    | StringInvalidEncoding
    | NumberTooBig
    | NumberMissFraction
    | NumberMissExponent
    | Termination
    | UnspecificSyntaxError

  /**
   The parse flags, the handler and the floating-point tests.
   `accepts(h)` is the handler's answer to the last event of the history `h`.
   `intTooBig` and `expTooBig` are the two floating-point overflow tests of ParseNumber,
   as functions of the digits they look at.
   */
  datatype Options = Options(
    comments: bool,
    trailingCommas: bool,
    stopWhenDone: bool,
    accepts: seq<Event> -> bool,
    intTooBig: Text -> bool,
    expTooBig: Text -> bool)

  /** A handler that refuses nothing. */
  ghost predicate AcceptsAll(o: Options) { forall h :: o.accepts(h) }

  /** The outcome of a parsing step: the new stream position, or an error; and all events so far. */
  datatype Outcome = Ok(pos: nat, out: seq<Event>) | Err(code: ErrorCode, off: nat, out: seq<Event>)
  {
    predicate IsFailure() { Err? }
    function PropagateFailure(): Outcome requires Err? { this }
    function Extract(): (nat, seq<Event>) requires Ok? { (pos, out) }
  }

  /** Deliver one event; a refusal ends the parse with an error at offset `off`. */
  function Emit(o: Options, e: Event, pos: nat, off: nat, out: seq<Event>): Outcome {
    if o.accepts(out + [e]) then Ok(pos, out + [e]) else Err(Termination, off, out + [e])
  }

  /** The character under the cursor; the text ends with a NUL. */
  function Peek(t: Text, p: nat): Byte {
    if p < |t| then t[p] else 0
  }
}
