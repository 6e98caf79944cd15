/**
 The document object model (rapidjson/document.h): values with their number storage and
 type flags, the traversal Accept, and the document as a handler that builds a tree on a stack.
 Doubles are left out.
 */
module Dom {
  import opened Sax
  import opened Scan

  datatype NumberFlag = IntFlag | UintFlag | Int64Flag | Uint64Flag

  datatype Value =
    | NullValue
    | BoolValue(b: bool)
    | NumberValue(bits: nat, flags: set<NumberFlag>)
    | StringValue(s: Text)
    | ArrayValue(elements: seq<Value>)
    | ObjectValue(members: seq<Member>)

  datatype Member = Member(name: Text, value: Value)

  const TWO_31 := 0x8000_0000
  const TWO_32 := 0x1_0000_0000
  const TWO_63 := 0x8000_0000_0000_0000
  const TWO_64 := 0x1_0000_0000_0000_0000

  // ---------------------------------------------------------------- numbers

  /** The 64 bits that hold an integer, negative ones in two's complement. */
  function Bits(n: int): nat
    requires -TWO_63 <= n < TWO_64
  {
    if n < 0 then n + TWO_64 else n
  }

  function FromInt(i: int): Value
    requires -TWO_31 <= i < TWO_31
  {
    NumberValue(Bits(i), if i >= 0 then {IntFlag, Int64Flag, UintFlag, Uint64Flag} else {IntFlag, Int64Flag})
  }

  function FromUint(u: int): Value
    requires 0 <= u < TWO_32
  {
    NumberValue(Bits(u), if u >= TWO_31 then {UintFlag, Uint64Flag, Int64Flag} else {UintFlag, Uint64Flag, Int64Flag, IntFlag})
  }

  function FromInt64(i: int): Value
    requires -TWO_63 <= i < TWO_63
  {
    NumberValue(Bits(i),
      {Int64Flag}
      + (if i >= 0 then {Uint64Flag} + (if i < TWO_32 then {UintFlag} else {}) + (if i < TWO_31 then {IntFlag} else {})
         else if i >= -TWO_31 then {IntFlag} else {}))
  }

  function FromUint64(u: int): Value
    requires 0 <= u < TWO_64
  {
    NumberValue(Bits(u),
      {Uint64Flag} + (if u < TWO_63 then {Int64Flag} else {}) + (if u < TWO_32 then {UintFlag} else {})
      + (if u < TWO_31 then {IntFlag} else {}))
  }

  /** A flag is set exactly if the number fits its type. */
  function FlagsOf(n: int): set<NumberFlag> {
    (if -TWO_31 <= n < TWO_31 then {IntFlag} else {})
    + (if 0 <= n < TWO_32 then {UintFlag} else {})
    + (if -TWO_63 <= n < TWO_63 then {Int64Flag} else {})
    + (if 0 <= n < TWO_64 then {Uint64Flag} else {})
  }

  function Number(n: int): Value
    requires -TWO_63 <= n < TWO_64
  {
    NumberValue(Bits(n), FlagsOf(n))
  }

  /** Whichever constructor made it, a number has the same bits and the same flags. */
  lemma ConstructorsAgree(n: int)
    requires -TWO_63 <= n < TWO_64
    ensures -TWO_31 <= n < TWO_31 ==> FromInt(n) == Number(n)
    ensures 0 <= n < TWO_32 ==> FromUint(n) == Number(n)
    ensures n < TWO_63 ==> FromInt64(n) == Number(n)
    ensures 0 <= n ==> FromUint64(n) == Number(n)
  {
  }

  /** The integer that a number value stands for. */
  function IntegerOf(v: Value): int
    requires v.NumberValue?
  {
    if Uint64Flag in v.flags then v.bits else v.bits - TWO_64
  }

  /** A value that was made by the constructors. */
  predicate WellFormed(v: Value) {
    match v
    case NumberValue(bits, flags) => -TWO_63 <= IntegerOf(v) < TWO_64 && v == Number(IntegerOf(v))
    case ArrayValue(elements) => forall i :: 0 <= i < |elements| ==> WellFormed(elements[i])
    case ObjectValue(members) => forall i :: 0 <= i < |members| ==> WellFormed(members[i].value)
    case _ => true
  }

  /** The low half of the storage, read as a signed integer: data_.n.i.i. */
  function LowSigned(bits: nat): int {
    var low := bits % TWO_32;
    if low >= TWO_31 then low - TWO_32 else low
  }

  /** The number case of Accept. */
  function NumberEvent(v: Value): Event
    requires v.NumberValue?
  {
    if IntFlag in v.flags then Int(LowSigned(v.bits))
    else if UintFlag in v.flags then Uint(v.bits % TWO_32)
    else if Int64Flag in v.flags then Int64(if v.bits >= TWO_63 then v.bits - TWO_64 else v.bits)
    else Uint64(v.bits)
  }

  /** Accept reports the number itself, as the first type that it fits. */
  lemma NumberEventValue(n: int)
    requires -TWO_63 <= n < TWO_64
    ensures NumberEvent(Number(n)) ==
            if -TWO_31 <= n < TWO_31 then Int(n)
            else if 0 <= n < TWO_32 then Uint(n)
            else if n < TWO_63 then Int64(n)
            else Uint64(n)
  {
  }

  // ---------------------------------------------------------------- events

  /** The events that the reader delivers for the text of a value. */
  function Events(v: Value): seq<Event>
    requires WellFormed(v)
    decreases v, 0
  {
    match v
    case NullValue => [Null]
    case BoolValue(b) => [Bool(b)]
    case NumberValue(_, _) => [IntegerEvent(IntegerOf(v) < 0, Magnitude(IntegerOf(v)))]
    case StringValue(s) => [String(s)]
    case ArrayValue(es) => [StartArray] + ElementEvents(es) + [EndArray(|es|)]
    case ObjectValue(ms) => [StartObject] + MemberEvents(ms) + [EndObject(|ms|)]
  }

  function Magnitude(n: int): nat { if n < 0 then -n else n }

  predicate AllWellFormed(es: seq<Value>) { forall i :: 0 <= i < |es| ==> WellFormed(es[i]) }
  predicate MembersWellFormed(ms: seq<Member>) { forall i :: 0 <= i < |ms| ==> WellFormed(ms[i].value) }

  function ElementEvents(es: seq<Value>): seq<Event>
    requires AllWellFormed(es)
    decreases es, 1
  {
    if es == [] then [] else Events(es[0]) + ElementEvents(es[1..])
  }

  function MemberEvents(ms: seq<Member>): seq<Event>
    requires MembersWellFormed(ms)
    decreases ms, 1
  {
    if ms == [] then [] else [Key(ms[0].name)] + Events(ms[0].value) + MemberEvents(ms[1..])
  }

  // ---------------------------------------------------------------- the builder

  /** The document as a handler: values under construction lie on one stack. */
  class Document {
    var stack: seq<Value>

    constructor ()
      ensures stack == []
    {
      stack := [];
    }

    method Scalar(e: Event)
      requires IsScalar(e)
      modifies this
      ensures stack == old(stack) + [ScalarValue(e)]
    {
      stack := stack + [ScalarValue(e)];
    }

    method StartCompound(isObject: bool)
      modifies this
      ensures stack == old(stack) + [if isObject then ObjectValue([]) else ArrayValue([])]
    {
      stack := stack + [if isObject then ObjectValue([]) else ArrayValue([])];
    }

    /** Pop the members, two stack entries each, and store them in the object below them. */
    method EndObject(memberCount: nat)
      requires Feedable(stack, Event.EndObject(memberCount))
      modifies this
      ensures stack == Feed(old(stack), Event.EndObject(memberCount))
    {
      var base := |stack| - 2 * memberCount;
      var members := PairUp(stack[base..]);
      stack := stack[..base - 1] + [ObjectValue(members)];
    }

    method EndArray(elementCount: nat)
      requires elementCount < |stack|
      modifies this
      ensures stack == Feed(old(stack), Event.EndArray(elementCount))
    {
      var base := |stack| - elementCount;
      var elements := stack[base..];
      stack := stack[..base - 1] + [ArrayValue(elements)];
    }

    method Handle(e: Event)
      requires Feedable(stack, e)
      modifies this
      ensures stack == Feed(old(stack), e)
    {
      if e.EndObject? {
        EndObject(e.members);
      } else if e.EndArray? {
        EndArray(e.elements);
      } else if e.StartObject? || e.StartArray? {
        StartCompound(e.StartObject?);
      } else {
        Scalar(e);
      }
    }
  }

  predicate IsScalar(e: Event) {
    match e
    case Null => true
    case Bool(_) => true
    case Int(i) => -TWO_31 <= i < TWO_31
    case Uint(u) => 0 <= u < TWO_32
    case Int64(i) => -TWO_63 <= i < TWO_63
    case Uint64(u) => 0 <= u < TWO_64
    case String(_) => true
    case Key(_) => true
    case _ => false
  }

  function ScalarValue(e: Event): Value
    requires IsScalar(e)
  {
    match e
    case Null => NullValue
    case Bool(b) => BoolValue(b)
    case Int(i) => FromInt(i)
    case Uint(u) => FromUint(u)
    case Int64(i) => FromInt64(i)
    case Uint64(u) => FromUint64(u)
    case String(s) => StringValue(s)
    case Key(k) => StringValue(k)
  }

  predicate AreMembers(vs: seq<Value>) {
    |vs| % 2 == 0 && forall i :: 0 <= i < |vs| && i % 2 == 0 ==> vs[i].StringValue?
  }

  /** Stack entries two by two: a name and a value. */
  function PairUp(vs: seq<Value>): seq<Member>
    requires AreMembers(vs)
  {
    if vs == [] then [] else [Member(vs[0].s, vs[1])] + PairUp(vs[2..])
  }

  /** The stack is deep enough for the event, and names are strings. */
  predicate Feedable(stack: seq<Value>, e: Event) {
    if e.EndObject? then
      2 * e.members < |stack| && AreMembers(stack[|stack| - 2 * e.members..])
    else if e.EndArray? then e.elements < |stack|
    else e.StartObject? || e.StartArray? || IsScalar(e)
  }

  function Feed(stack: seq<Value>, e: Event): seq<Value>
    requires Feedable(stack, e)
  {
    if e.EndObject? then
      var base := |stack| - 2 * e.members;
      stack[..base - 1] + [ObjectValue(PairUp(stack[base..]))]
    else if e.EndArray? then
      var base := |stack| - e.elements;
      stack[..base - 1] + [ArrayValue(stack[base..])]
    else if e.StartObject? then stack + [ObjectValue([])]
    else if e.StartArray? then stack + [ArrayValue([])]
    else stack + [ScalarValue(e)]
  }

  /** Feeding a sequence of events, `None` if one of them does not fit. */
  datatype Built = Built(stack: seq<Value>) | Stuck

  function FeedAll(stack: seq<Value>, es: seq<Event>): Built
    decreases |es|
  {
    if es == [] then Built(stack)
    else if Feedable(stack, es[0]) then FeedAll(Feed(stack, es[0]), es[1..])
    else Stuck
  }

  lemma {:induction false} FeedAppend(stack: seq<Value>, es: seq<Event>, fs: seq<Event>)
    requires FeedAll(stack, es).Built?
    ensures FeedAll(stack, es + fs) == FeedAll(FeedAll(stack, es).stack, fs)
    decreases |es|
  {
    if es == [] {
      assert es + fs == fs;
    } else {
      assert (es + fs)[1..] == es[1..] + fs;
      FeedAppend(Feed(stack, es[0]), es[1..], fs);
    }
  }

  lemma FeedOne(stack: seq<Value>, e: Event)
    requires Feedable(stack, e)
    ensures FeedAll(stack, [e]) == Built(Feed(stack, e))
  {
    assert [e][1..] == [];
  }

  /** The builder puts a value's own tree on the stack. */
  lemma {:induction false} BuildValue(stack: seq<Value>, v: Value)
    requires WellFormed(v)
    ensures FeedAll(stack, Events(v)) == Built(stack + [v])
    decreases v, 0
  {
    match v
    case NumberValue(_, _) =>
      NumberRoundTrip(IntegerOf(v));
      FeedOne(stack, Events(v)[0]);
    case ArrayValue(es) =>
      hide ElementEvents;
      BuildElements(stack + [ArrayValue([])], es);
      CloseArray(stack, es);
    case ObjectValue(ms) =>
      hide MemberEvents;
      BuildMembers(stack + [ObjectValue([])], ms);
      CloseObject(stack, ms);
    case _ =>
      FeedOne(stack, Events(v)[0]);
  }

  lemma CloseArray(stack: seq<Value>, es: seq<Value>)
    requires AllWellFormed(es)
    requires FeedAll(stack + [ArrayValue([])], ElementEvents(es)) == Built(stack + [ArrayValue([])] + es)
    ensures FeedAll(stack, [StartArray] + ElementEvents(es) + [EndArray(|es|)]) == Built(stack + [ArrayValue(es)])
  {
    hide ElementEvents;
    FeedOne(stack, StartArray);
    FeedAppend(stack, [StartArray], ElementEvents(es));
    FeedAppend(stack, [StartArray] + ElementEvents(es), [EndArray(|es|)]);
    var full := stack + [ArrayValue([])] + es;
    hide FeedAll;
    assert full[|full| - |es|..] == es && full[..|full| - |es| - 1] == stack;
    FeedOne(full, EndArray(|es|));
  }

  lemma CloseObject(stack: seq<Value>, ms: seq<Member>)
    requires MembersWellFormed(ms)
    requires FeedAll(stack + [ObjectValue([])], MemberEvents(ms)) == Built(stack + [ObjectValue([])] + Flatten(ms))
    ensures FeedAll(stack, [StartObject] + MemberEvents(ms) + [EndObject(|ms|)]) == Built(stack + [ObjectValue(ms)])
  {
    hide MemberEvents;
    FeedOne(stack, StartObject);
    FeedAppend(stack, [StartObject], MemberEvents(ms));
    FeedAppend(stack, [StartObject] + MemberEvents(ms), [EndObject(|ms|)]);
    FlattenPairs(ms);
    var full := stack + [ObjectValue([])] + Flatten(ms);
    hide FeedAll, Flatten, PairUp;
    assert full[|full| - 2 * |ms|..] == Flatten(ms) && full[..|full| - 2 * |ms| - 1] == stack;
    FeedOne(full, EndObject(|ms|));
  }

  /** The event that the reader delivers for a number makes the same number again. */
  lemma NumberRoundTrip(n: int)
    requires -TWO_63 <= n < TWO_64
    ensures IsScalar(IntegerEvent(n < 0, Magnitude(n)))
    ensures ScalarValue(IntegerEvent(n < 0, Magnitude(n))) == Number(n)
  {
    ConstructorsAgree(n);
  }

  lemma {:induction false} BuildElements(stack: seq<Value>, es: seq<Value>)
    requires AllWellFormed(es)
    ensures FeedAll(stack, ElementEvents(es)) == Built(stack + es)
    decreases es, 1
  {
    hide FeedAll, Events;
    if es == [] {
      FeedNone(stack);
      assert stack + es == stack;
    } else {
      BuildValue(stack, es[0]);
      BuildElements(stack + [es[0]], es[1..]);
      FeedAppend(stack, Events(es[0]), ElementEvents(es[1..]));
      assert stack + [es[0]] + es[1..] == stack + es;
    }
  }

  lemma FeedNone(stack: seq<Value>)
    ensures FeedAll(stack, []) == Built(stack)
  {
  }

  /** Members as they lie on the stack. */
  function Flatten(ms: seq<Member>): (vs: seq<Value>)
    ensures |vs| == 2 * |ms|
  {
    if ms == [] then [] else [StringValue(ms[0].name), ms[0].value] + Flatten(ms[1..])
  }

  lemma {:induction false} FlattenPairs(ms: seq<Member>)
    ensures AreMembers(Flatten(ms))
    ensures PairUp(Flatten(ms)) == ms
  {
    if ms != [] {
      FlattenPairs(ms[1..]);
      assert Flatten(ms)[2..] == Flatten(ms[1..]);
      forall i | 0 <= i < 2 * |ms| && i % 2 == 0
        ensures Flatten(ms)[i].StringValue?
      {
        if i >= 2 {
          assert Flatten(ms)[i] == Flatten(ms[1..])[i - 2];
        }
      }
    }
  }

  lemma FeedName(stack: seq<Value>, name: Text)
    ensures FeedAll(stack, [Key(name)]) == Built(stack + [StringValue(name)])
  {
    FeedOne(stack, Key(name));
  }

  lemma {:induction false} BuildMembers(stack: seq<Value>, ms: seq<Member>)
    requires MembersWellFormed(ms)
    ensures FeedAll(stack, MemberEvents(ms)) == Built(stack + Flatten(ms))
    decreases ms, 1
  {
    hide FeedAll, Events, Feed, Feedable;
    if ms == [] {
      FeedNone(stack);
      assert stack + Flatten(ms) == stack;
    } else {
      var named := stack + [StringValue(ms[0].name)];
      FeedName(stack, ms[0].name);
      BuildValue(named, ms[0].value);
      BuildMembers(named + [ms[0].value], ms[1..]);
      FeedAppend(stack, [Key(ms[0].name)], Events(ms[0].value));
      FeedAppend(stack, [Key(ms[0].name)] + Events(ms[0].value), MemberEvents(ms[1..]));
      assert named + [ms[0].value] + Flatten(ms[1..]) == stack + Flatten(ms);
    }
  }
}
