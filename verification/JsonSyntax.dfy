/**
 The texts that the reader accepts (rapidjson/reader.h), as trees of a grammar of their own: every
 text of the grammar is accepted with the events of its tree, and nothing else is.
 */
module JsonSyntax {
  import opened Sax
  import opened Rfc8259
  import opened JsonLexis
  import opened Recursive
  import TableDriven
  import ParserEquivalence
  import JsonReader
  import S = Scan

  // ---------------------------------------------------------------- trees

  /** A value; in arrays and objects `lead` follows the opening bracket, `trailing` tells of a last comma. */
  datatype Node =
    | NullNode
    | TrueNode
    | FalseNode
    | StringNode(units: seq<Unit>)
    | NumberNode(n: Numeral)
    | ArrayNode(lead: Layout, items: seq<Item>, trailing: bool)
    | ObjectNode(lead: Layout, pairs: seq<NamedItem>, trailing: bool)

  /** An element, the layout behind it, and the layout behind its comma if it has one. */
  datatype Item = Item(value: Node, after: Layout, gap: Layout)

  /** A member: name and layouts around the colon, then as an element. */
  datatype NamedItem = NamedItem(name: seq<Unit>, beforeColon: Layout, afterColon: Layout, value: Node, after: Layout, gap: Layout)

  const NULL_WORD: Text := [0x6E, 0x75, 0x6C, 0x6C]
  const TRUE_WORD: Text := [0x74, 0x72, 0x75, 0x65]
  const FALSE_WORD: Text := [0x66, 0x61, 0x6C, 0x73, 0x65]

  predicate NodeOk(o: Options, n: Node)
    decreases n
  {
    match n
    case StringNode(us) => UnitsOk(us)
    case NumberNode(m) => NumeralOk(m)
    case ArrayNode(lead, items, trailing) =>
      && LayoutOk(o.comments, lead) && (trailing ==> o.trailingCommas && items != [])
      && forall i :: 0 <= i < |items| ==>
           NodeOk(o, items[i].value) && LayoutOk(o.comments, items[i].after) && LayoutOk(o.comments, items[i].gap)
    case ObjectNode(lead, pairs, trailing) =>
      && LayoutOk(o.comments, lead) && (trailing ==> o.trailingCommas && pairs != [])
      && forall i :: 0 <= i < |pairs| ==>
           && UnitsOk(pairs[i].name) && LayoutOk(o.comments, pairs[i].beforeColon) && LayoutOk(o.comments, pairs[i].afterColon)
           && NodeOk(o, pairs[i].value) && LayoutOk(o.comments, pairs[i].after) && LayoutOk(o.comments, pairs[i].gap)
    case _ => true
  }

  predicate ItemOk(o: Options, x: Item) {
    NodeOk(o, x.value) && LayoutOk(o.comments, x.after) && LayoutOk(o.comments, x.gap)
  }

  predicate PairOk(o: Options, m: NamedItem) {
    && UnitsOk(m.name) && LayoutOk(o.comments, m.beforeColon) && LayoutOk(o.comments, m.afterColon)
    && NodeOk(o, m.value) && LayoutOk(o.comments, m.after) && LayoutOk(o.comments, m.gap)
  }

  predicate ItemsOk(o: Options, xs: seq<Item>) { forall i :: 0 <= i < |xs| ==> ItemOk(o, xs[i]) }
  predicate PairsOk(o: Options, ms: seq<NamedItem>) { forall i :: 0 <= i < |ms| ==> PairOk(o, ms[i]) }

  function NodeText(n: Node): Text
    decreases n, 0
  {
    match n
    case NullNode => NULL_WORD
    case TrueNode => TRUE_WORD
    case FalseNode => FALSE_WORD
    case StringNode(us) => StringText(us)
    case NumberNode(m) => NumeralText(m)
    case ArrayNode(lead, items, trailing) => [BEGIN_ARRAY] + (LayoutText(lead) + ItemsText(items, trailing))
    case ObjectNode(lead, pairs, trailing) => [BEGIN_OBJECT] + (LayoutText(lead) + PairsText(pairs, trailing))
  }

  /** The elements and the closing bracket. */
  function ItemsText(xs: seq<Item>, trailing: bool): Text
    decreases xs, 1
  {
    if xs == [] then [END_ARRAY]
    else NodeText(xs[0].value) + (LayoutText(xs[0].after) + ItemEnd(xs, trailing))
  }

  /** What stands behind the first element and its layout. */
  function ItemEnd(xs: seq<Item>, trailing: bool): Text
    requires xs != []
    decreases xs, 0
  {
    if |xs| == 1 && !trailing then [END_ARRAY]
    else [VALUE_SEPARATOR] + (LayoutText(xs[0].gap) + ItemsText(xs[1..], trailing))
  }

  function PairsText(ms: seq<NamedItem>, trailing: bool): Text
    decreases ms, 1
  {
    if ms == [] then [END_OBJECT]
    else
      StringText(ms[0].name)
      + (LayoutText(ms[0].beforeColon)
         + ([NAME_SEPARATOR]
            + (LayoutText(ms[0].afterColon)
               + (NodeText(ms[0].value) + (LayoutText(ms[0].after) + PairEnd(ms, trailing))))))
  }

  function PairEnd(ms: seq<NamedItem>, trailing: bool): Text
    requires ms != []
    decreases ms, 0
  {
    if |ms| == 1 && !trailing then [END_OBJECT]
    else [VALUE_SEPARATOR] + (LayoutText(ms[0].gap) + PairsText(ms[1..], trailing))
  }

  /** What the handler is told of a tree. */
  function NodeEvents(o: Options, n: Node): seq<Event>
    requires NodeOk(o, n)
    decreases n, 0
  {
    match n
    case NullNode => [Null]
    case TrueNode => [Bool(true)]
    case FalseNode => [Bool(false)]
    case StringNode(us) => [String(UnitsBytes(us))]
    case NumberNode(m) => [NumeralEvent(m)]
    case ArrayNode(_, items, _) => [StartArray] + ItemEvents(o, items) + [EndArray(|items|)]
    case ObjectNode(_, pairs, _) => [StartObject] + PairEvents(o, pairs) + [EndObject(|pairs|)]
  }

  function ItemEvents(o: Options, xs: seq<Item>): seq<Event>
    requires ItemsOk(o, xs)
    decreases xs, 1
  {
    if xs == [] then [] else NodeEvents(o, xs[0].value) + ItemEvents(o, xs[1..])
  }

  function PairEvents(o: Options, ms: seq<NamedItem>): seq<Event>
    requires PairsOk(o, ms)
    decreases ms, 1
  {
    if ms == [] then []
    else [Key(UnitsBytes(ms[0].name))] + NodeEvents(o, ms[0].value) + PairEvents(o, ms[1..])
  }

  /** No number of the tree is too big. */
  predicate Fits(o: Options, n: Node)
    requires NodeOk(o, n)
    decreases n
  {
    match n
    case NumberNode(m) => !TooBig(o, m)
    case ArrayNode(_, items, _) => forall i :: 0 <= i < |items| ==> Fits(o, items[i].value)
    case ObjectNode(_, pairs, _) => forall i :: 0 <= i < |pairs| ==> Fits(o, pairs[i].value)
    case _ => true
  }

  predicate ItemsFit(o: Options, xs: seq<Item>)
    requires ItemsOk(o, xs)
  {
    forall i :: 0 <= i < |xs| ==> Fits(o, xs[i].value)
  }

  predicate PairsFit(o: Options, ms: seq<NamedItem>)
    requires PairsOk(o, ms)
  {
    forall i :: 0 <= i < |ms| ==> Fits(o, ms[i].value)
  }

  // ---------------------------------------------------------------- between the lexemes

  /** A character that begins no layout. */
  predicate IsMark(c: Byte) { !IsWs(c) && c != SOLIDUS }

  lemma SpaceTaken(o: Options, t: Text, p: nat, l: Layout, out: seq<Event>)
    requires LayoutOk(o.comments, l) && Stands(t, p, LayoutText(l)) && IsMark(Peek(t, p + |LayoutText(l)|))
    ensures p + |LayoutText(l)| <= |t| && Space(o, t, p, out) == Ok(p + |LayoutText(l)|, out)
  {
    hide LayoutText, LayoutOk, S.SkipSpace, Stands;
    StandsWithin(t, p, LayoutText(l));
    LayoutSkipped(o, t, p, l);
  }

  /** A character, layout, and what stands behind it. */
  lemma GapTaken(o: Options, t: Text, q: nat, c: Byte, l: Layout, rest: Text, out: seq<Event>)
    requires LayoutOk(o.comments, l) && Stands(t, q, [c] + (LayoutText(l) + rest)) && rest != [] && IsMark(rest[0])
    ensures var r := q + 1 + |LayoutText(l)|;
            && q < |t| && Peek(t, q) == c && r + |rest| <= |t| && Stands(t, r, rest) && Peek(t, r) == rest[0]
            && Space(o, t, q + 1, out) == Ok(r, out)
  {
    hide Stands, LayoutText, LayoutOk, IsMark, Space;
    StandsSplit(t, q, [c], LayoutText(l) + rest);
    PeekStands(t, q, [c], 0);
    StandsWithin(t, q, [c]);
    StandsSplit(t, q + 1, LayoutText(l), rest);
    PeekStands(t, q + 1 + |LayoutText(l)|, rest, 0);
    StandsWithin(t, q + 1 + |LayoutText(l)|, rest);
    SpaceTaken(o, t, q + 1, l, out);
  }

  /** A number ends before layout and before a comma or a bracket. */
  lemma StopsBefore(o: Options, t: Text, p: nat, l: Layout, rest: Text)
    requires LayoutOk(o.comments, l) && Stands(t, p, LayoutText(l) + rest)
    requires rest != [] && (rest[0] == VALUE_SEPARATOR || rest[0] == END_ARRAY || rest[0] == END_OBJECT)
    ensures forall n: Numeral :: NumberStops(t, p, n)
  {
    PeekStands(t, p, LayoutText(l) + rest, 0);
    if l != [] {
      PieceHead(o, l[0]);
    }
  }

  lemma PieceHead(o: Options, x: Piece)
    requires PieceOk(o.comments, x)
    ensures IsWs(PieceText(x)[0]) || PieceText(x)[0] == SOLIDUS
  {
  }

  /** The character that a value starts with. */
  predicate StartsNode(c: Byte) {
    c == 0x6E || c == 0x74 || c == 0x66 || c == QUOTATION_MARK || c == BEGIN_ARRAY || c == BEGIN_OBJECT || c == MINUS || IsDecDigit(c)
  }

  lemma NodeHead(o: Options, n: Node)
    requires NodeOk(o, n)
    ensures NodeText(n) != [] && StartsNode(NodeText(n)[0])
    ensures NodeText(n)[0] == BEGIN_ARRAY <==> n.ArrayNode?
    ensures NodeText(n)[0] == BEGIN_OBJECT <==> n.ObjectNode?
  {
    hide ItemsText, PairsText, LayoutText, UnitsText, FractionText, ExponentText;
  }

  // ---------------------------------------------------------------- the grammar is accepted

  /** A tree is read with its events, or refused because a number is too big. */
  predicate Taken(fits: bool, r: Outcome, q: nat, out: seq<Event>) {
    if fits then r == Ok(q, out) else r.Err? && r.code == NumberTooBig
  }

  lemma {:induction false} ValueTaken(o: Options, n: Node, t: Text, p: nat, out: seq<Event>)
    requires AcceptsAll(o) && NodeOk(o, n) && Stands(t, p, NodeText(n))
    requires n.NumberNode? ==> NumberStops(t, p + |NodeText(n)|, n.n)
    ensures p < |t| && p + |NodeText(n)| <= |t| && Peek(t, p) == NodeText(n)[0]
    ensures Taken(Fits(o, n), Value(o, t, p, out), p + |NodeText(n)|, out + NodeEvents(o, n))
    decreases n, 2
  {
    hide Stands, Value, NodeText, NodeEvents, Fits;
    NodeHead(o, n);
    StandsWithin(t, p, NodeText(n));
    PeekStands(t, p, NodeText(n), 0);
    match n {
      case ArrayNode(lead, items, trailing) => ArrayTaken(o, lead, items, trailing, t, p, out);
      case ObjectNode(lead, pairs, trailing) => ObjectTaken(o, lead, pairs, trailing, t, p, out);
      case _ => ScalarTaken(o, n, t, p, out);
    }
  }

  lemma ScalarTaken(o: Options, n: Node, t: Text, p: nat, out: seq<Event>)
    requires AcceptsAll(o) && NodeOk(o, n) && Stands(t, p, NodeText(n)) && !n.ArrayNode? && !n.ObjectNode?
    requires n.NumberNode? ==> NumberStops(t, p + |NodeText(n)|, n.n)
    ensures p + |NodeText(n)| <= |t|
    ensures Taken(Fits(o, n), Value(o, t, p, out), p + |NodeText(n)|, out + NodeEvents(o, n))
  {
    hide Stands, S.ParseString, S.ParseNumber, StringText, NumeralText, Literal, TooBig, NumeralEvent, NumeralOk, UnitsOk, UnitsBytes;
    StandsWithin(t, p, NodeText(n));
    NodeHead(o, n);
    PeekStands(t, p, NodeText(n), 0);
    match n {
      case NullNode => LiteralTaken(o, t, p, NULL_WORD, Null, out);
      case TrueNode => LiteralTaken(o, t, p, TRUE_WORD, Bool(true), out);
      case FalseNode => LiteralTaken(o, t, p, FALSE_WORD, Bool(false), out);
      case StringNode(us) => StringTaken(t, p, us);
      case NumberNode(m) =>
        NumberTaken(o, t, p, m, out);
        NumeralHead(m);
      case _ =>
    }
  }

  lemma NumeralHead(m: Numeral)
    requires NumeralOk(m)
    ensures NumeralText(m) != [] && (NumeralText(m)[0] == MINUS || IsDecDigit(NumeralText(m)[0]))
  {
  }

  lemma LiteralTaken(o: Options, t: Text, p: nat, word: Text, e: Event, out: seq<Event>)
    requires AcceptsAll(o) && word != [] && 0 !in word && Stands(t, p, word)
    ensures p < |t| && Literal(o, t, p, word[1..], e, out) == Ok(p + |word|, out + [e])
  {
    hide Stands;
    assert word == [word[0]] + word[1..];
    StandsWithin(t, p, word);
    StandsSplit(t, p, [word[0]], word[1..]);
    S.MatchedAll(t, p + 1, word[1..]);
  }

  lemma ItemsHead(o: Options, xs: seq<Item>, trailing: bool)
    requires ItemsOk(o, xs)
    ensures var s := ItemsText(xs, trailing);
            s != [] && if xs == [] then s[0] == END_ARRAY else StartsNode(s[0])
    ensures xs != [] ==>
      var s := ItemEnd(xs, trailing);
      s != [] && s[0] == if |xs| == 1 && !trailing then END_ARRAY else VALUE_SEPARATOR
  {
    hide NodeText, LayoutText;
    if xs != [] {
      NodeHead(o, xs[0].value);
    }
  }

  lemma StartIsMark(c: Byte)
    requires StartsNode(c) || c == END_ARRAY || c == END_OBJECT || c == VALUE_SEPARATOR || c == NAME_SEPARATOR
    ensures IsMark(c)
    ensures StartsNode(c) ==> c != END_ARRAY && c != END_OBJECT && c != 0
  {
  }

  lemma ItemsSplit(o: Options, xs: seq<Item>)
    requires ItemsOk(o, xs) && xs != []
    ensures ItemOk(o, xs[0]) && ItemsOk(o, xs[1..]) && ItemOk(o, xs[0]) && (ItemsFit(o, xs) <==> Fits(o, xs[0].value) && ItemsFit(o, xs[1..]))
    ensures NodeOk(o, xs[0].value) && LayoutOk(o.comments, xs[0].after) && LayoutOk(o.comments, xs[0].gap)
    ensures ItemEvents(o, xs) == NodeEvents(o, xs[0].value) + ItemEvents(o, xs[1..])
  {
    hide NodeOk, Fits, LayoutOk, NodeEvents;
    assert ItemOk(o, xs[0]);
    if Fits(o, xs[0].value) && ItemsFit(o, xs[1..]) {
      forall i | 0 <= i < |xs|
        ensures Fits(o, xs[i].value)
      {
        if i > 0 {
          assert xs[i] == xs[1..][i - 1];
        }
      }
    }
    if ItemsFit(o, xs) {
      forall i | 0 <= i < |xs[1..]|
        ensures Fits(o, xs[1..][i].value)
      {
        assert xs[1..][i] == xs[i + 1];
      }
    }
  }

  /** The elements from the first of `xs` on, `k` being before them, and the closing bracket. */
  lemma {:induction false} ItemsTaken(o: Options, xs: seq<Item>, trailing: bool, k: nat, t: Text, p: nat, out: seq<Event>)
    requires AcceptsAll(o) && ItemsOk(o, xs) && xs != [] && (trailing ==> o.trailingCommas) && Stands(t, p, ItemsText(xs, trailing))
    ensures p + |ItemsText(xs, trailing)| <= |t|
    ensures Taken(ItemsFit(o, xs), Elements(o, t, p, k, out), p + |ItemsText(xs, trailing)|,
                  out + ItemEvents(o, xs) + [EndArray(k + |xs|)])
    decreases xs, 4
  {
    hide Stands, NodeText, LayoutText, ItemEnd, Value, Space, ElementTail, ItemsOk, NodeOk, LayoutOk, ItemOk, NodeEvents, Fits,
      ItemsFit, ItemEvents, AcceptsAll, IsMark;
    var x, end := xs[0], ItemEnd(xs, trailing);
    ItemsSplit(o, xs);
    ItemsHead(o, xs, trailing);
    StandsWithin(t, p, ItemsText(xs, trailing));
    StandsSplit(t, p, NodeText(x.value), LayoutText(x.after) + end);
    var q := p + |NodeText(x.value)|;
    StopsBefore(o, t, q, x.after, end);
    ValueTaken(o, x.value, t, p, out);
    if Fits(o, x.value) {
      var out1, q1 := out + NodeEvents(o, x.value), q + |LayoutText(x.after)|;
      StandsSplit(t, q, LayoutText(x.after), end);
      PeekStands(t, q1, end, 0);
      StartIsMark(end[0]);
      SpaceTaken(o, t, q, x.after, out1);
      ItemEndTaken(o, xs, trailing, k, t, q1, out1);
      Regroup(out, NodeEvents(o, x.value), ItemEvents(o, xs[1..]), [EndArray(k + |xs|)]);
    }
  }

  lemma Regroup(a: seq<Event>, b: seq<Event>, c: seq<Event>, d: seq<Event>)
    ensures (a + b) + c + d == a + (b + c) + d
  {
  }

  lemma {:induction false} ItemEndTaken(o: Options, xs: seq<Item>, trailing: bool, k: nat, t: Text, q: nat, out: seq<Event>)
    requires AcceptsAll(o) && xs != [] && ItemsOk(o, xs[1..]) && LayoutOk(o.comments, xs[0].gap)
    requires (trailing ==> o.trailingCommas) && Stands(t, q, ItemEnd(xs, trailing))
    ensures q + |ItemEnd(xs, trailing)| <= |t|
    ensures Taken(ItemsFit(o, xs[1..]), ElementTail(o, t, q, k, out), q + |ItemEnd(xs, trailing)|,
                  out + ItemEvents(o, xs[1..]) + [EndArray(k + |xs|)])
    decreases xs, 1
  {
    hide Stands, LayoutText, ItemsText, Elements, Space, ItemsOk, LayoutOk, IsMark, ElementTail, AcceptsAll, ItemEvents, ItemsFit;
    StandsWithin(t, q, ItemEnd(xs, trailing));
    PeekStands(t, q, ItemEnd(xs, trailing), 0);
    var gap, rest := LayoutText(xs[0].gap), ItemsText(xs[1..], trailing);
    if |xs| == 1 && !trailing {
      CloseBracketStep(o, t, q, k, out);
      assert xs[1..] == [];
      NothingTooBig(o);
      NoEvents(o);
      assert out + [] + [EndArray(k + 1)] == out + [EndArray(k + 1)];
    } else {
      var r := q + 1 + |gap|;
      ItemsHead(o, xs[1..], trailing);
      StartIsMark(rest[0]);
      GapTaken(o, t, q, VALUE_SEPARATOR, xs[0].gap, rest, out);
      CommaStep(o, t, q, k, r, out);
      if |xs| == 1 {
        NoItems(trailing);
        assert xs[1..] == [];
        NothingTooBig(o);
        NoEvents(o);
        assert out + [] + [EndArray(k + 1)] == out + [EndArray(k + 1)];
      } else {
        ItemsTaken(o, xs[1..], trailing, k + 1, t, r, out);
      }
    }
  }

  /** The parser behind an opening bracket. */
  lemma OpenBracketStep(o: Options, t: Text, p: nat, q: nat, out: seq<Event>)
    requires AcceptsAll(o) && p < q <= |t|
    ensures Peek(t, p) == BEGIN_ARRAY && Space(o, t, p + 1, out + [StartArray]) == Ok(q, out + [StartArray]) ==>
      Value(o, t, p, out) == if Peek(t, q) == END_ARRAY then Ok(q + 1, out + [StartArray] + [EndArray(0)])
                             else Elements(o, t, q, 0, out + [StartArray])
    ensures Peek(t, p) == BEGIN_OBJECT && Space(o, t, p + 1, out + [StartObject]) == Ok(q, out + [StartObject]) ==>
      Value(o, t, p, out) == if Peek(t, q) == END_OBJECT then Ok(q + 1, out + [StartObject] + [EndObject(0)])
                             else Members(o, t, q, 0, out + [StartObject])
  {
    hide Elements, Members, Space;
  }

  /** The parser behind a comma. */
  lemma CommaStep(o: Options, t: Text, q: nat, k: nat, r: nat, out: seq<Event>)
    requires AcceptsAll(o) && q < r <= |t| && Peek(t, q) == VALUE_SEPARATOR && Space(o, t, q + 1, out) == Ok(r, out)
    ensures ElementTail(o, t, q, k, out)
            == if o.trailingCommas && Peek(t, r) == END_ARRAY then Ok(r + 1, out + [EndArray(k + 1)])
               else Elements(o, t, r, k + 1, out)
    ensures MemberTail(o, t, q, k, out)
            == if o.trailingCommas && Peek(t, r) == END_OBJECT then Ok(r + 1, out + [EndObject(k + 1)])
               else Members(o, t, r, k + 1, out)
  {
    hide Elements, Members, Space;
  }

  /** The parser at a closing bracket behind a value. */
  lemma CloseBracketStep(o: Options, t: Text, q: nat, k: nat, out: seq<Event>)
    requires AcceptsAll(o) && q <= |t|
    ensures Peek(t, q) == END_ARRAY ==> ElementTail(o, t, q, k, out) == Ok(q + 1, out + [EndArray(k + 1)])
    ensures Peek(t, q) == END_OBJECT ==> MemberTail(o, t, q, k, out) == Ok(q + 1, out + [EndObject(k + 1)])
  {
  }

  lemma EventsEnd(out: seq<Event>, begin: Event, inner: seq<Event>, end: Event)
    ensures out + [begin] + inner + [end] == out + ([begin] + inner + [end])
    ensures out + [begin] + [end] == out + ([begin] + [] + [end])
  {
  }

  lemma NoItems(trailing: bool)
    ensures ItemsText([], trailing) == [END_ARRAY] && PairsText([], trailing) == [END_OBJECT]
  {
  }

  lemma {:induction false} ArrayTaken(o: Options, lead: Layout, xs: seq<Item>, trailing: bool, t: Text, p: nat, out: seq<Event>)
    requires var n := ArrayNode(lead, xs, trailing); AcceptsAll(o) && NodeOk(o, n) && Stands(t, p, NodeText(n))
    ensures var n := ArrayNode(lead, xs, trailing);
            Taken(Fits(o, n), Value(o, t, p, out), p + |NodeText(n)|, out + NodeEvents(o, n))
    decreases xs, 5
  {
    hide Stands, LayoutText, ItemsText, Elements, Space, LayoutOk, IsMark, ItemOk, ItemEvents, Value, AcceptsAll, Fits, ItemsFit, ItemsOk;
    var n, rest := ArrayNode(lead, xs, trailing), ItemsText(xs, trailing);
    ArrayParts(o, lead, xs, trailing);
    StandsWithin(t, p, NodeText(n));
    var q, out1 := p + 1 + |LayoutText(lead)|, out + [StartArray];
    ItemsHead(o, xs, trailing);
    StartIsMark(rest[0]);
    GapTaken(o, t, p, BEGIN_ARRAY, lead, rest, out1);
    OpenBracketStep(o, t, p, q, out);
    EventsEnd(out, StartArray, ItemEvents(o, xs), EndArray(|xs|));
    if xs == [] {
      NoItems(trailing);
      NoEvents(o);
      NothingTooBig(o);
    } else {
      ItemsTaken(o, xs, trailing, 0, t, q, out1);
    }
  }

  lemma NothingTooBig(o: Options)
    ensures ItemsOk(o, []) && ItemsFit(o, []) && PairsOk(o, []) && PairsFit(o, [])
  {
  }

  lemma NoEvents(o: Options)
    ensures ItemEvents(o, []) == [] && PairEvents(o, []) == []
  {
  }

  // ---------------------------------------------------------------- objects

  /** The text of a member behind its name. */
  function PairRest(ms: seq<NamedItem>, trailing: bool): Text
    requires ms != []
  {
    LayoutText(ms[0].beforeColon) + ([NAME_SEPARATOR] + (LayoutText(ms[0].afterColon) + PairValue(ms, trailing)))
  }

  /** The text of a member from its value on. */
  function PairValue(ms: seq<NamedItem>, trailing: bool): Text
    requires ms != []
  {
    NodeText(ms[0].value) + (LayoutText(ms[0].after) + PairEnd(ms, trailing))
  }

  lemma PairsHead(o: Options, ms: seq<NamedItem>, trailing: bool)
    requires PairsOk(o, ms)
    ensures var s := PairsText(ms, trailing);
            s != [] && s[0] == if ms == [] then END_OBJECT else QUOTATION_MARK
    ensures ms != [] ==>
      && PairsText(ms, trailing) == StringText(ms[0].name) + PairRest(ms, trailing)
      && var s := PairEnd(ms, trailing);
         s != [] && s[0] == if |ms| == 1 && !trailing then END_OBJECT else VALUE_SEPARATOR
  {
    hide NodeText, LayoutText, UnitsText;
  }

  lemma PairsSplit(o: Options, ms: seq<NamedItem>)
    requires PairsOk(o, ms) && ms != []
    ensures PairOk(o, ms[0]) && PairsOk(o, ms[1..]) && (PairsFit(o, ms) <==> Fits(o, ms[0].value) && PairsFit(o, ms[1..]))
    ensures PairEvents(o, ms) == [Key(UnitsBytes(ms[0].name))] + NodeEvents(o, ms[0].value) + PairEvents(o, ms[1..])
  {
    hide NodeOk, Fits, LayoutOk, NodeEvents, UnitsOk, UnitsBytes;
    assert PairOk(o, ms[0]);
    if Fits(o, ms[0].value) && PairsFit(o, ms[1..]) {
      forall i | 0 <= i < |ms|
        ensures Fits(o, ms[i].value)
      {
        if i > 0 {
          assert ms[i] == ms[1..][i - 1];
        }
      }
    }
    if PairsFit(o, ms) {
      forall i | 0 <= i < |ms[1..]|
        ensures Fits(o, ms[1..][i].value)
      {
        assert ms[1..][i] == ms[i + 1];
      }
    }
  }

  /** The members from the first of `ms` on, `k` being before them, and the closing bracket. */
  lemma {:induction false} PairsTaken(o: Options, ms: seq<NamedItem>, trailing: bool, k: nat, t: Text, p: nat, out: seq<Event>)
    requires AcceptsAll(o) && PairsOk(o, ms) && ms != [] && (trailing ==> o.trailingCommas) && Stands(t, p, PairsText(ms, trailing))
    ensures p + |PairsText(ms, trailing)| <= |t|
    ensures Taken(PairsFit(o, ms), Members(o, t, p, k, out), p + |PairsText(ms, trailing)|,
                  out + PairEvents(o, ms) + [EndObject(k + |ms|)])
    decreases ms, 6
  {
    hide Stands, StringText, PairsText, PairRest, S.ParseString, LayoutText, Value, Space, MemberTail, PairsOk, NodeOk, LayoutOk, UnitsOk,
      NodeEvents, Fits, PairsFit, PairEvents, IsMark, UnitsBytes, Taken, MemberRest;
    var m, rest := ms[0], PairRest(ms, trailing);
    PairsSplit(o, ms);
    PairsHead(o, ms, trailing);
    StandsWithin(t, p, PairsText(ms, trailing));
    StandsSplit(t, p, StringText(m.name), rest);
    StringTaken(t, p, m.name);
    var q, out1 := p + |StringText(m.name)|, out + [Key(UnitsBytes(m.name))];
    PairRestTaken(o, ms, trailing, k, t, q, out1);
    StandsWithin(t, q, LayoutText(m.beforeColon));
    Regroup(out, [Key(UnitsBytes(m.name))], NodeEvents(o, m.value) + PairEvents(o, ms[1..]), [EndObject(k + |ms|)]);
    assert [Key(UnitsBytes(m.name))] + (NodeEvents(o, m.value) + PairEvents(o, ms[1..])) == PairEvents(o, ms);
  }

  lemma {:induction false} PairRestTaken(o: Options, ms: seq<NamedItem>, trailing: bool, k: nat, t: Text, p: nat, out: seq<Event>)
    requires AcceptsAll(o) && PairsOk(o, ms) && ms != [] && (trailing ==> o.trailingCommas) && Stands(t, p, PairRest(ms, trailing))
    requires PairsOk(o, ms[1..]) && PairOk(o, ms[0])
    ensures var q := p + |LayoutText(ms[0].beforeColon)|;
            && Stands(t, p, LayoutText(ms[0].beforeColon)) && q <= |t| && Space(o, t, p, out) == Ok(q, out)
            && Taken(PairsFit(o, ms), MemberRest(o, t, q, k, out), p + |PairRest(ms, trailing)|,
                     out + (NodeEvents(o, ms[0].value) + PairEvents(o, ms[1..])) + [EndObject(k + |ms|)])
    decreases ms, 5
  {
    hide Stands, LayoutText, PairValue, Value, Space, MemberTail, PairsOk, NodeOk, LayoutOk, UnitsOk, NodeText,
      NodeEvents, Fits, PairsFit, PairEvents, IsMark;
    var m, value := ms[0], PairValue(ms, trailing);
    var rest := LayoutText(m.afterColon) + value;
    var q := p + |LayoutText(m.beforeColon)|;
    StandsSplit(t, p, LayoutText(m.beforeColon), [NAME_SEPARATOR] + rest);
    StandsSplit(t, q, [NAME_SEPARATOR], rest);
    PeekStands(t, q, [NAME_SEPARATOR], 0);
    StartIsMark(NAME_SEPARATOR);
    SpaceTaken(o, t, p, m.beforeColon, out);
    var r := q + 1 + |LayoutText(m.afterColon)|;
    PairValueHead(o, ms, trailing);
    StartIsMark(value[0]);
    GapTaken(o, t, q, NAME_SEPARATOR, m.afterColon, value, out);
    PairValueTaken(o, ms, trailing, k, t, r, out);
  }

  lemma PairValueHead(o: Options, ms: seq<NamedItem>, trailing: bool)
    requires ms != [] && PairOk(o, ms[0])
    ensures PairValue(ms, trailing) != [] && StartsNode(PairValue(ms, trailing)[0])
  {
    hide NodeText, LayoutText, PairEnd, NodeOk;
    NodeHead(o, ms[0].value);
  }

  /** What MemberRest does behind the colon. */
  function ValueThenTail(o: Options, t: Text, p: nat, k: nat, out: seq<Event>): Outcome
    requires p <= |t|
  {
    var (p2, out2) :- Value(o, t, p, out);
    var (p3, _) :- Space(o, t, p2, out2);
    MemberTail(o, t, p3, k, out2)
  }

  lemma {:induction false} PairValueTaken(o: Options, ms: seq<NamedItem>, trailing: bool, k: nat, t: Text, p: nat, out: seq<Event>)
    requires AcceptsAll(o) && PairsOk(o, ms) && ms != [] && (trailing ==> o.trailingCommas) && Stands(t, p, PairValue(ms, trailing))
    requires PairsOk(o, ms[1..]) && PairOk(o, ms[0])
    ensures p + |PairValue(ms, trailing)| <= |t|
    ensures Taken(PairsFit(o, ms), ValueThenTail(o, t, p, k, out), p + |PairValue(ms, trailing)|,
                  out + (NodeEvents(o, ms[0].value) + PairEvents(o, ms[1..])) + [EndObject(k + |ms|)])
    decreases ms, 4
  {
    hide Stands, NodeText, LayoutText, PairEnd, Value, Space, MemberTail, PairsOk, UnitsOk, AcceptsAll, NodeOk, LayoutOk, NodeEvents, Fits,
      PairsFit, PairEvents, IsMark;
    var m, end := ms[0], PairEnd(ms, trailing);
    PairsSplit(o, ms);
    PairsHead(o, ms, trailing);
    StandsWithin(t, p, PairValue(ms, trailing));
    StandsSplit(t, p, NodeText(m.value), LayoutText(m.after) + end);
    var q := p + |NodeText(m.value)|;
    StopsBefore(o, t, q, m.after, end);
    ValueTaken(o, m.value, t, p, out);
    if Fits(o, m.value) {
      var out1, q1 := out + NodeEvents(o, m.value), q + |LayoutText(m.after)|;
      StandsSplit(t, q, LayoutText(m.after), end);
      PeekStands(t, q1, end, 0);
      StartIsMark(end[0]);
      SpaceTaken(o, t, q, m.after, out1);
      PairEndTaken(o, ms, trailing, k, t, q1, out1);
      Regroup(out, NodeEvents(o, m.value), PairEvents(o, ms[1..]), [EndObject(k + |ms|)]);
    }
  }

  lemma {:induction false} PairEndTaken(o: Options, ms: seq<NamedItem>, trailing: bool, k: nat, t: Text, q: nat, out: seq<Event>)
    requires AcceptsAll(o) && ms != [] && PairsOk(o, ms[1..]) && LayoutOk(o.comments, ms[0].gap)
    requires (trailing ==> o.trailingCommas) && Stands(t, q, PairEnd(ms, trailing))
    ensures q + |PairEnd(ms, trailing)| <= |t|
    ensures Taken(PairsFit(o, ms[1..]), MemberTail(o, t, q, k, out), q + |PairEnd(ms, trailing)|,
                  out + PairEvents(o, ms[1..]) + [EndObject(k + |ms|)])
    decreases ms, 1
  {
    hide Stands, LayoutText, PairsText, Members, Space, PairsOk, LayoutOk, IsMark, MemberTail, AcceptsAll, PairEvents, PairsFit,
      MemberRest, Value, Elements, ElementTail, NodeOk, NodeText, StringText, Fits, NodeEvents, UnitsOk, UnitsBytes;
    StandsWithin(t, q, PairEnd(ms, trailing));
    PeekStands(t, q, PairEnd(ms, trailing), 0);
    var gap, rest := LayoutText(ms[0].gap), PairsText(ms[1..], trailing);
    if |ms| == 1 && !trailing {
      CloseBracketStep(o, t, q, k, out);
      assert ms[1..] == [];
      NothingTooBig(o);
      NoEvents(o);
      assert out + [] + [EndObject(k + 1)] == out + [EndObject(k + 1)];
    } else {
      var r := q + 1 + |gap|;
      PairsHead(o, ms[1..], trailing);
      StartIsMark(rest[0]);
      GapTaken(o, t, q, VALUE_SEPARATOR, ms[0].gap, rest, out);
      CommaStep(o, t, q, k, r, out);
      if |ms| == 1 {
        NoItems(trailing);
        assert ms[1..] == [];
        NothingTooBig(o);
        NoEvents(o);
        assert out + [] + [EndObject(k + 1)] == out + [EndObject(k + 1)];
      } else {
        PairsTaken(o, ms[1..], trailing, k + 1, t, r, out);
      }
    }
  }

  lemma {:induction false} ObjectTaken(o: Options, lead: Layout, ms: seq<NamedItem>, trailing: bool, t: Text, p: nat, out: seq<Event>)
    requires var n := ObjectNode(lead, ms, trailing); AcceptsAll(o) && NodeOk(o, n) && Stands(t, p, NodeText(n))
    ensures var n := ObjectNode(lead, ms, trailing);
            Taken(Fits(o, n), Value(o, t, p, out), p + |NodeText(n)|, out + NodeEvents(o, n))
    decreases ms, 7
  {
    hide Stands, LayoutText, PairsText, Members, Space, LayoutOk, IsMark, PairOk, PairEvents, Value, AcceptsAll, Fits, PairsFit, PairsOk;
    var n, rest := ObjectNode(lead, ms, trailing), PairsText(ms, trailing);
    ObjectParts(o, lead, ms, trailing);
    StandsWithin(t, p, NodeText(n));
    var q, out1 := p + 1 + |LayoutText(lead)|, out + [StartObject];
    PairsHead(o, ms, trailing);
    StartIsMark(rest[0]);
    GapTaken(o, t, p, BEGIN_OBJECT, lead, rest, out1);
    OpenBracketStep(o, t, p, q, out);
    EventsEnd(out, StartObject, PairEvents(o, ms), EndObject(|ms|));
    if ms == [] {
      NoItems(trailing);
      NoEvents(o);
      NothingTooBig(o);
    } else {
      PairsTaken(o, ms, trailing, 0, t, q, out1);
    }
  }

  lemma ObjectParts(o: Options, lead: Layout, ms: seq<NamedItem>, trailing: bool)
    requires NodeOk(o, ObjectNode(lead, ms, trailing))
    ensures PairsOk(o, ms) && (Fits(o, ObjectNode(lead, ms, trailing)) <==> PairsFit(o, ms))
  {
  }

  lemma ArrayParts(o: Options, lead: Layout, xs: seq<Item>, trailing: bool)
    requires NodeOk(o, ArrayNode(lead, xs, trailing))
    ensures ItemsOk(o, xs) && (Fits(o, ArrayNode(lead, xs, trailing)) <==> ItemsFit(o, xs))
  {
  }

  // ---------------------------------------------------------------- what is accepted is of the grammar

  /** The tree `n` stands between `p` and `q` and has made the events behind `out`. */
  ghost predicate Read(o: Options, t: Text, p: nat, n: Node, out: seq<Event>, r: Outcome) {
    && r.Ok? && NodeOk(o, n) && Fits(o, n)
    && p <= r.pos <= |t| && t[p..r.pos] == NodeText(n) && r.out == out + NodeEvents(o, n)
    && (n.NumberNode? ==> NumberStops(t, r.pos, n.n))
  }

  lemma SpaceFound(o: Options, t: Text, p: nat, out: seq<Event>) returns (l: Layout)
    requires p <= |t| && Space(o, t, p, out).Ok? && Peek(t, Space(o, t, p, out).pos) != 0
    ensures LayoutOk(o.comments, l) && t[p..Space(o, t, p, out).pos] == LayoutText(l)
  {
    hide LayoutText, LayoutOk, S.SkipSpace;
    var rest;
    l, rest := LayoutFound(o, t, p);
    assert LayoutText(l) + [] == LayoutText(l);
  }

  lemma {:induction false} MatchedFound(t: Text, p: nat, w: Text)
    requires 0 !in w && S.Matched(t, p, w) == |w| && p <= |t|
    ensures p + |w| <= |t| && t[p..p + |w|] == w
    decreases |w|
  {
    if w != [] {
      MatchedFound(t, p + 1, w[1..]);
      assert t[p..p + |w|] == [t[p]] + t[p + 1..p + |w|];
    }
  }

  lemma LiteralFound(o: Options, t: Text, p: nat, word: Text, e: Event, out: seq<Event>)
    requires p < |t| && word != [] && 0 !in word && t[p] == word[0] && Literal(o, t, p, word[1..], e, out).Ok?
    ensures var r := Literal(o, t, p, word[1..], e, out);
            r.pos == p + |word| && t[p..r.pos] == word && r.out == out + [e]
  {
    MatchedFound(t, p + 1, word[1..]);
    assert t[p..p + |word|] == [t[p]] + t[p + 1..p + |word|];
  }

  lemma ScalarFound(o: Options, t: Text, p: nat, out: seq<Event>) returns (n: Node)
    requires p <= |t| && Scalar(o, t, p, out).Ok? && !IsCompound(Peek(t, p))
    ensures Read(o, t, p, n, out, Value(o, t, p, out))
  {
    hide S.ParseString, S.ParseNumber, StringText, NumeralText, Literal, TooBig, NumeralEvent, NumeralOk, UnitsOk, UnitsBytes,
      Stands;
    var c := Peek(t, p);
    if c == 0x6E {
      n := NullNode;
      LiteralFound(o, t, p, NULL_WORD, Null, out);
    } else if c == 0x74 {
      n := TrueNode;
      LiteralFound(o, t, p, TRUE_WORD, Bool(true), out);
    } else if c == 0x66 {
      n := FalseNode;
      LiteralFound(o, t, p, FALSE_WORD, Bool(false), out);
    } else if c == QUOTATION_MARK {
      var us := StringFound(t, p);
      n := StringNode(us);
    } else {
      var m := NumberFound(o, t, p, out);
      n := NumberNode(m);
      StandsSlice(t, p, NumeralText(m));
    }
  }

  lemma {:induction false} ValueFound(o: Options, t: Text, p: nat, out: seq<Event>) returns (n: Node)
    requires p <= |t| && Value(o, t, p, out).Ok?
    ensures Read(o, t, p, n, out, Value(o, t, p, out))
    decreases |t| - p, 3
  {
    hide Read, Scalar, Array, Object;
    if Peek(t, p) == BEGIN_ARRAY {
      n := ArrayFound(o, t, p, out);
    } else if Peek(t, p) == BEGIN_OBJECT {
      n := ObjectFound(o, t, p, out);
    } else {
      n := ScalarFound(o, t, p, out);
    }
  }

  /** What a value starts with is not the end of the text. */
  lemma ReadHead(o: Options, t: Text, p: nat, n: Node, out: seq<Event>, r: Outcome)
    requires Read(o, t, p, n, out, r)
    ensures p < r.pos <= |t| && StartsNode(t[p]) && Peek(t, p) == t[p] && t[p] != 0
    ensures t[p] != END_ARRAY && t[p] != END_OBJECT
  {
    NodeHead(o, n);
    hide NodeText, NodeOk;
    assert t[p..r.pos][0] == t[p];
    StartIsMark(t[p]);
  }

  lemma {:induction false} MatchedPrefix(t: Text, p: nat, w: Text)
    requires 0 !in w && p <= |t|
    ensures var n := S.Matched(t, p, w);
            p + n <= |t| && n <= |w| && t[p..p + n] == w[..n] && (n < |w| ==> Peek(t, p + n) != w[n])
    decreases |w|
  {
    if w != [] && Peek(t, p) == w[0] {
      MatchedPrefix(t, p + 1, w[1..]);
      var n := S.Matched(t, p + 1, w[1..]);
      assert t[p..p + 1 + n] == [t[p]] + t[p + 1..p + 1 + n];
      assert w[..n + 1] == [w[0]] + w[1..][..n];
    }
  }

  /** A string is refused for its first bad unit; what the handler refuses has been read whole, up to the place told. */
  lemma StringRefused(o: Options, t: Text, p: nat, isKey: bool, out: seq<Event>) returns (us: seq<Unit>)
    requires p < |t| && t[p] == QUOTATION_MARK && Str(o, t, p, isKey, out).Err?
    ensures UnitsOk(us)
    ensures var r := Str(o, t, p, isKey, out);
            p < r.off <= |t| &&
            if r.code.Termination? then
              && t[p..r.off] == StringText(us) && !o.accepts(r.out)
              && r.out == out + [if isKey then Key(UnitsBytes(us)) else String(UnitsBytes(us))]
            else t[p + 1..r.off] == UnitsText(us) && BadUnit(t, r.off, r.code) && r.out == out
  {
    hide S.ParseString, StringText, UnitsOk, UnitsBytes, UnitsText, BadUnit;
    us := StringFound(t, p);
    match S.ParseString(t, p) {
      case BadString(code, off) => NotTermination(t, off, code);
      case Chars(s, end) =>
    }
  }

  /** A literal is refused where its letters first differ from the word. */
  lemma WordRefused(o: Options, t: Text, p: nat, word: Text, e: Event, out: seq<Event>)
    requires p < |t| && word != [] && 0 !in word && t[p] == word[0] && Literal(o, t, p, word[1..], e, out).Err?
    ensures var r := Literal(o, t, p, word[1..], e, out);
            p < r.off <= |t| &&
            if r.code.Termination? then t[p..r.off] == word && !o.accepts(r.out) && r.out == out + [e]
            else
              && r.code == ValueInvalid && r.out == out && r.off - p < |word|
              && t[p..r.off] == word[..r.off - p] && Peek(t, r.off) != word[r.off - p]
  {
    hide S.Matched;
    var n := S.Matched(t, p + 1, word[1..]);
    MatchedPrefix(t, p + 1, word[1..]);
    assert t[p..p + 1 + n] == [t[p]] + t[p + 1..p + 1 + n];
    assert word[..n + 1] == [word[0]] + word[1..][..n];
  }

  /** Which of these a scalar is follows from its first character. */
  lemma ScalarByLetter(o: Options, t: Text, p: nat, out: seq<Event>)
    requires p < |t|
    ensures t[p] == 0x6E ==> Scalar(o, t, p, out) == Literal(o, t, p, NULL_WORD[1..], Null, out)
    ensures t[p] == 0x74 ==> Scalar(o, t, p, out) == Literal(o, t, p, TRUE_WORD[1..], Bool(true), out)
    ensures t[p] == 0x66 ==> Scalar(o, t, p, out) == Literal(o, t, p, FALSE_WORD[1..], Bool(false), out)
    ensures t[p] == QUOTATION_MARK ==> Scalar(o, t, p, out) == Str(o, t, p, false, out)
    ensures t[p] !in {0x6E, 0x74, 0x66, QUOTATION_MARK} ==> Scalar(o, t, p, out) == S.ParseNumber(o, t, p, out)
  {
    hide Literal, Str, S.ParseNumber;
    assert NULL_WORD[1..] == NULL_TAIL && TRUE_WORD[1..] == TRUE_TAIL && FALSE_WORD[1..] == FALSE_TAIL;
  }

  lemma NotTermination(t: Text, off: nat, code: ErrorCode)
    requires BadUnit(t, off, code)
    ensures !code.Termination?
  {
  }

  // ---------------------------------------------------------------- arrays that are accepted

  /** What stands behind an element whose comma, if there is one, is followed by `gap` and `xs`. */
  function EndText(gap: Layout, xs: seq<Item>, trailing: bool): Text {
    if xs == [] && !trailing then [END_ARRAY] else [VALUE_SEPARATOR] + (LayoutText(gap) + ItemsText(xs, trailing))
  }

  /** Elements and a closing bracket stand between `p` and the end that `r` tells. */
  ghost predicate ReadItems(o: Options, t: Text, p: nat, xs: seq<Item>, trailing: bool, k: nat, out: seq<Event>, r: Outcome) {
    && r.Ok? && ItemsOk(o, xs) && ItemsFit(o, xs) && (trailing ==> o.trailingCommas)
    && p <= r.pos <= |t| && t[p..r.pos] == ItemsText(xs, trailing)
    && r.out == out + ItemEvents(o, xs) + [EndArray(k + |xs|)]
  }

  ghost predicate ReadEnd(o: Options, t: Text, p: nat, gap: Layout, xs: seq<Item>, trailing: bool, k: nat, out: seq<Event>, r: Outcome) {
    && r.Ok? && LayoutOk(o.comments, gap) && ItemsOk(o, xs) && ItemsFit(o, xs) && (trailing ==> o.trailingCommas)
    && p < r.pos <= |t| && t[p..r.pos] == EndText(gap, xs, trailing)
    && r.out == out + ItemEvents(o, xs) + [EndArray(k + 1 + |xs|)]
  }

  /** An element in front of what follows it. */
  lemma ItemInFront(o: Options, t: Text, p: nat, x: Item, q: nat, xs: seq<Item>, trailing: bool, k: nat, out: seq<Event>,
                    v: Outcome, r: Outcome)
    requires Read(o, t, p, x.value, out, v) && LayoutOk(o.comments, x.after) && v.pos <= q <= |t| && t[v.pos..q] == LayoutText(x.after)
    requires ReadEnd(o, t, q, x.gap, xs, trailing, k, v.out, r)
    ensures ReadItems(o, t, p, [x] + xs, trailing, k, out, r)
  {
    hide NodeOk, Fits, NodeText, LayoutText, LayoutOk, NodeEvents, ItemEvents, ItemsFit, ItemsText, ItemEnd, EndText;
    var all := [x] + xs;
    assert all[0] == x && all[1..] == xs;
    assert forall i :: 0 < i < |all| ==> all[i] == xs[i - 1];
    assert ItemsOk(o, all);
    ItemsSplit(o, all);
    assert t[p..r.pos] == t[p..v.pos] + (t[v.pos..q] + t[q..r.pos]);
    FirstItem(x, xs, trailing);
    Regroup(out, NodeEvents(o, x.value), ItemEvents(o, xs), [EndArray(k + 1 + |xs|)]);
  }

  lemma FirstItem(x: Item, xs: seq<Item>, trailing: bool)
    ensures ItemsText([x] + xs, trailing) == NodeText(x.value) + (LayoutText(x.after) + EndText(x.gap, xs, trailing))
  {
    hide NodeText, LayoutText;
    assert ([x] + xs)[0] == x && ([x] + xs)[1..] == xs;
  }

  lemma {:induction false} ElementsFound(o: Options, t: Text, p: nat, k: nat, out: seq<Event>) returns (xs: seq<Item>, trailing: bool)
    requires p <= |t| && Elements(o, t, p, k, out).Ok?
    ensures xs != [] && ReadItems(o, t, p, xs, trailing, k, out, Elements(o, t, p, k, out))
    ensures p < |t| && StartsNode(t[p])
    decreases |t| - p, 4
  {
    hide Read, Value, Space, ElementTail, LayoutOk, LayoutText, ReadEnd, ReadItems;
    var n := ValueFound(o, t, p, out);
    var v := Value(o, t, p, out);
    ReadHead(o, t, p, n, out, v);
    var q := Space(o, t, v.pos, v.out).pos;
    TailHead(o, t, q, k, v.out);
    var after := SpaceFound(o, t, v.pos, v.out);
    var gap;
    gap, xs, trailing := ElementTailFound(o, t, q, k, v.out);
    ItemInFront(o, t, p, Item(n, after, gap), q, xs, trailing, k, out, v, Elements(o, t, p, k, out));
    xs := [Item(n, after, gap)] + xs;
  }

  lemma TailHead(o: Options, t: Text, q: nat, k: nat, out: seq<Event>)
    requires q <= |t|
    ensures ElementTail(o, t, q, k, out).Ok? ==> Peek(t, q) == VALUE_SEPARATOR || Peek(t, q) == END_ARRAY
    ensures MemberTail(o, t, q, k, out).Ok? ==> Peek(t, q) == VALUE_SEPARATOR || Peek(t, q) == END_OBJECT
  {
    hide Elements, Members, Space;
  }

  lemma {:induction false} ElementTailFound(o: Options, t: Text, q: nat, k: nat, out: seq<Event>)
    returns (gap: Layout, xs: seq<Item>, trailing: bool)
    requires q <= |t| && ElementTail(o, t, q, k, out).Ok?
    ensures ReadEnd(o, t, q, gap, xs, trailing, k, out, ElementTail(o, t, q, k, out))
    decreases |t| - q, 0
  {
    hide Elements, Space, LayoutOk, LayoutText, ReadItems, ReadEnd, ItemsText;
    gap, xs, trailing := [], [], false;
    if Peek(t, q) == END_ARRAY {
      NoLayout(o.comments);
      NoMoreItems(o, t, q, [], false, q, k, out);
    } else {
      var s := Space(o, t, q + 1, out);
      if o.trailingCommas && Peek(t, s.pos) == END_ARRAY {
        gap := SpaceFound(o, t, q + 1, out);
        trailing := true;
        NoMoreItems(o, t, q, gap, true, s.pos, k, out);
      } else {
        xs, trailing := ElementsFound(o, t, s.pos, k + 1, out);
        gap := SpaceFound(o, t, q + 1, out);
        MoreItems(o, t, q, gap, xs, trailing, s.pos, k, out, ElementTail(o, t, q, k, out));
      }
    }
  }

  lemma NoMoreItems(o: Options, t: Text, q: nat, gap: Layout, trailing: bool, r: nat, k: nat, out: seq<Event>)
    requires q <= r < |t| && t[r] == END_ARRAY && LayoutOk(o.comments, gap)
    requires if trailing then o.trailingCommas && t[q] == VALUE_SEPARATOR && q < r && t[q + 1..r] == LayoutText(gap) else q == r
    ensures ReadEnd(o, t, q, gap, [], trailing, k, out, Ok(r + 1, out + [EndArray(k + 1)]))
  {
    hide LayoutOk, LayoutText;
    NoItems(trailing);
    assert out + [] + [EndArray(k + 1)] == out + [EndArray(k + 1)];
    assert t[r..r + 1] == [END_ARRAY];
    if trailing {
      assert t[q..r + 1] == [t[q]] + (t[q + 1..r] + t[r..r + 1]);
    }
  }

  lemma MoreItems(o: Options, t: Text, q: nat, gap: Layout, xs: seq<Item>, trailing: bool, p: nat, k: nat, out: seq<Event>, r: Outcome)
    requires q < p && ReadItems(o, t, p, xs, trailing, k + 1, out, r) && xs != []
    requires t[q] == VALUE_SEPARATOR && LayoutOk(o.comments, gap) && t[q + 1..p] == LayoutText(gap)
    ensures ReadEnd(o, t, q, gap, xs, trailing, k, out, r)
  {
    hide LayoutOk, LayoutText, ItemsText, ItemsOk, ItemsFit, ItemEvents;
    assert t[q..r.pos] == [t[q]] + (t[q + 1..p] + t[p..r.pos]);
  }

  lemma {:induction false} ArrayFound(o: Options, t: Text, p: nat, out: seq<Event>) returns (n: Node)
    requires p <= |t| && Value(o, t, p, out).Ok? && Peek(t, p) == BEGIN_ARRAY
    ensures Read(o, t, p, n, out, Value(o, t, p, out))
    decreases |t| - p, 2
  {
    hide Elements, Space, LayoutOk, LayoutText, ReadItems, Read, ItemsText;
    var out1 := out + [StartArray];
    var s := Space(o, t, p + 1, out1);
    var lead, xs, trailing := [], [], false;
    if Peek(t, s.pos) == END_ARRAY {
      NoItemsAtAll(o, t, s.pos, out1);
    } else {
      xs, trailing := ElementsFound(o, t, s.pos, 0, out1);
    }
    lead := SpaceFound(o, t, p + 1, out1);
    n := ArrayNode(lead, xs, trailing);
    ArrayRead(o, t, p, lead, s.pos, xs, trailing, out, Value(o, t, p, out));
  }

  lemma NoItemsAtAll(o: Options, t: Text, q: nat, out: seq<Event>)
    requires q < |t| && t[q] == END_ARRAY
    ensures ReadItems(o, t, q, [], false, 0, out, Ok(q + 1, out + [EndArray(0)]))
  {
    NoItems(false);
    assert out + [] + [EndArray(0)] == out + [EndArray(0)];
  }

  lemma ArrayRead(o: Options, t: Text, p: nat, lead: Layout, q: nat, xs: seq<Item>, trailing: bool, out: seq<Event>, r: Outcome)
    requires p < q && ReadItems(o, t, q, xs, trailing, 0, out + [StartArray], r) && (trailing ==> xs != [])
    requires t[p] == BEGIN_ARRAY && LayoutOk(o.comments, lead) && t[p + 1..q] == LayoutText(lead)
    ensures Read(o, t, p, ArrayNode(lead, xs, trailing), out, r)
  {
    hide LayoutOk, LayoutText, ItemsText, ItemEvents;
    assert t[p..r.pos] == [t[p]] + (t[p + 1..q] + t[q..r.pos]);
    EventsEnd(out, StartArray, ItemEvents(o, xs), EndArray(|xs|));
  }

  lemma NoLayout(comments: bool)
    ensures LayoutOk(comments, [])
  {
  }

  // ---------------------------------------------------------------- objects that are accepted

  function PairEndText(gap: Layout, ms: seq<NamedItem>, trailing: bool): Text {
    if ms == [] && !trailing then [END_OBJECT] else [VALUE_SEPARATOR] + (LayoutText(gap) + PairsText(ms, trailing))
  }

  ghost predicate ReadPairs(o: Options, t: Text, p: nat, ms: seq<NamedItem>, trailing: bool, k: nat, out: seq<Event>, r: Outcome) {
    && r.Ok? && PairsOk(o, ms) && PairsFit(o, ms) && (trailing ==> o.trailingCommas)
    && p <= r.pos <= |t| && t[p..r.pos] == PairsText(ms, trailing)
    && r.out == out + PairEvents(o, ms) + [EndObject(k + |ms|)]
  }

  ghost predicate ReadPairEnd(o: Options, t: Text, p: nat, gap: Layout, ms: seq<NamedItem>, trailing: bool, k: nat, out: seq<Event>, r: Outcome) {
    && r.Ok? && LayoutOk(o.comments, gap) && PairsOk(o, ms) && PairsFit(o, ms) && (trailing ==> o.trailingCommas)
    && p < r.pos <= |t| && t[p..r.pos] == PairEndText(gap, ms, trailing)
    && r.out == out + PairEvents(o, ms) + [EndObject(k + 1 + |ms|)]
  }

  /** The value of a member and what follows it stand from `p` on. */
  ghost predicate ReadValueOf(o: Options, t: Text, p: nat, m: NamedItem, ms: seq<NamedItem>, trailing: bool, k: nat, out: seq<Event>, r: Outcome) {
    && r.Ok? && NodeOk(o, m.value) && Fits(o, m.value) && LayoutOk(o.comments, m.after) && LayoutOk(o.comments, m.gap)
    && PairsOk(o, ms) && PairsFit(o, ms) && (trailing ==> o.trailingCommas)
    && p < r.pos <= |t|
    && t[p..r.pos] == NodeText(m.value) + (LayoutText(m.after) + PairEndText(m.gap, ms, trailing))
    && r.out == out + (NodeEvents(o, m.value) + PairEvents(o, ms)) + [EndObject(k + 1 + |ms|)]
  }

  lemma ValueInFront(o: Options, t: Text, p: nat, m: NamedItem, q: nat, ms: seq<NamedItem>, trailing: bool, k: nat, out: seq<Event>,
                     v: Outcome, r: Outcome)
    requires Read(o, t, p, m.value, out, v) && LayoutOk(o.comments, m.after) && v.pos <= q <= |t| && t[v.pos..q] == LayoutText(m.after)
    requires ReadPairEnd(o, t, q, m.gap, ms, trailing, k, v.out, r)
    ensures ReadValueOf(o, t, p, m, ms, trailing, k, out, r)
  {
    hide NodeOk, Fits, NodeText, LayoutText, LayoutOk, NodeEvents, PairEvents, PairsFit, PairsText, PairEndText, PairsOk;
    assert t[p..r.pos] == t[p..v.pos] + (t[v.pos..q] + t[q..r.pos]);
    Regroup(out, NodeEvents(o, m.value), PairEvents(o, ms), [EndObject(k + 1 + |ms|)]);
  }

  /** The name and the colon in front of that. */
  lemma NameInFront(o: Options, t: Text, p: nat, m: NamedItem, p1: nat, p2: nat, p3: nat, ms: seq<NamedItem>, trailing: bool, k: nat,
                    out: seq<Event>, r: Outcome)
    requires p <= p1 <= p2 < p3 <= |t| && UnitsOk(m.name) && LayoutOk(o.comments, m.beforeColon) && LayoutOk(o.comments, m.afterColon)
    requires t[p..p1] == StringText(m.name) && t[p1..p2] == LayoutText(m.beforeColon) && t[p2] == NAME_SEPARATOR
    requires t[p2 + 1..p3] == LayoutText(m.afterColon)
    requires ReadValueOf(o, t, p3, m, ms, trailing, k, out + [Key(UnitsBytes(m.name))], r)
    ensures ReadPairs(o, t, p, [m] + ms, trailing, k, out, r)
  {
    hide NodeOk, Fits, NodeText, LayoutText, LayoutOk, NodeEvents, PairEvents, PairsFit, PairsText, PairEndText, UnitsOk, UnitsBytes,
      StringText;
    var all := [m] + ms;
    assert all[0] == m && all[1..] == ms;
    assert forall i :: 0 < i < |all| ==> all[i] == ms[i - 1];
    assert PairsOk(o, all);
    PairsSplit(o, all);
    FirstPair(m, ms, trailing);
    Sliced(t, p, p1, p2, p3, r.pos);
    var key, inner := [Key(UnitsBytes(m.name))], NodeEvents(o, m.value) + PairEvents(o, ms);
    Regroup(out, key, inner, [EndObject(k + 1 + |ms|)]);
    assert key + inner == PairEvents(o, all);
  }

  lemma Sliced(t: Text, p: nat, p1: nat, p2: nat, p3: nat, q: nat)
    requires p <= p1 <= p2 < p3 <= q <= |t|
    ensures t[p..q] == t[p..p1] + (t[p1..p2] + ([t[p2]] + (t[p2 + 1..p3] + t[p3..q])))
  {
    assert t[p2..q] == [t[p2]] + (t[p2 + 1..p3] + t[p3..q]);
    assert t[p1..q] == t[p1..p2] + t[p2..q];
    assert t[p..q] == t[p..p1] + t[p1..q];
  }

  lemma FirstPair(m: NamedItem, ms: seq<NamedItem>, trailing: bool)
    ensures PairsText([m] + ms, trailing)
            == StringText(m.name)
               + (LayoutText(m.beforeColon)
                  + ([NAME_SEPARATOR]
                     + (LayoutText(m.afterColon)
                        + (NodeText(m.value) + (LayoutText(m.after) + PairEndText(m.gap, ms, trailing))))))
  {
    hide NodeText, LayoutText, StringText;
    assert ([m] + ms)[0] == m && ([m] + ms)[1..] == ms;
  }

  lemma {:induction false} MembersFound(o: Options, t: Text, p: nat, k: nat, out: seq<Event>) returns (ms: seq<NamedItem>, trailing: bool)
    requires p <= |t| && Members(o, t, p, k, out).Ok?
    ensures ms != [] && ReadPairs(o, t, p, ms, trailing, k, out, Members(o, t, p, k, out))
    ensures p < |t| && t[p] == QUOTATION_MARK
    decreases |t| - p, 4
  {
    hide ReadValueOf, ReadPairs, Value, Space, MemberTail, LayoutOk, LayoutText, UnitsOk, UnitsBytes, UnitsText, S.ParseString,
      ValueThenTail;
    var name := StringFound(t, p);
    var out1 := out + [Key(UnitsBytes(name))];
    var p1 := S.ParseString(t, p).end;
    var p2 := Space(o, t, p1, out1).pos;
    var beforeColon := SpaceFound(o, t, p1, out1);
    var p3 := Space(o, t, p2 + 1, out1).pos;
    BehindColon(o, t, p2, k, out1);
    var m;
    m, ms, trailing := ValueThenTailFound(o, t, p3, k, out1);
    var afterColon := SpaceFound(o, t, p2 + 1, out1);
    m := m.(name := name, beforeColon := beforeColon, afterColon := afterColon);
    SameValueOf(o, t, p3, m, ms, trailing, k, out1);
    NameInFront(o, t, p, m, p1, p2, p3, ms, trailing, k, out, Members(o, t, p, k, out));
    ms := [m] + ms;
  }

  lemma BehindColon(o: Options, t: Text, p: nat, k: nat, out: seq<Event>)
    requires p <= |t| && MemberRest(o, t, p, k, out).Ok?
    ensures p < |t| && t[p] == NAME_SEPARATOR && Space(o, t, p + 1, out).Ok?
    ensures MemberRest(o, t, p, k, out) == ValueThenTail(o, t, Space(o, t, p + 1, out).pos, k, out)
  {
    hide Value, Space, MemberTail;
  }

  /** The name and the layouts around the colon do not matter behind it. */
  lemma SameValueOf(o: Options, t: Text, p: nat, m: NamedItem, ms: seq<NamedItem>, trailing: bool, k: nat, out: seq<Event>)
    requires p <= |t|
    requires ReadValueOf(o, t, p, NamedItem([], [], [], m.value, m.after, m.gap), ms, trailing, k, out, ValueThenTail(o, t, p, k, out))
    ensures ReadValueOf(o, t, p, m, ms, trailing, k, out, ValueThenTail(o, t, p, k, out))
  {
    hide NodeOk, Fits, NodeText, LayoutText, LayoutOk, NodeEvents, PairEvents, PairsFit, PairEndText, PairsOk, ValueThenTail;
  }

  lemma {:induction false} ValueThenTailFound(o: Options, t: Text, p: nat, k: nat, out: seq<Event>)
    returns (m: NamedItem, ms: seq<NamedItem>, trailing: bool)
    requires p <= |t| && ValueThenTail(o, t, p, k, out).Ok?
    ensures m.name == [] && m.beforeColon == [] && m.afterColon == []
    ensures ReadValueOf(o, t, p, m, ms, trailing, k, out, ValueThenTail(o, t, p, k, out))
    ensures p < |t| && Peek(t, p) != 0
    decreases |t| - p, 4
  {
    hide Read, ReadValueOf, ReadPairEnd, Value, Space, MemberTail, LayoutOk, LayoutText;
    var n := ValueFound(o, t, p, out);
    var v := Value(o, t, p, out);
    ReadHead(o, t, p, n, out, v);
    var q := Space(o, t, v.pos, v.out).pos;
    TailHead(o, t, q, k, v.out);
    var after := SpaceFound(o, t, v.pos, v.out);
    var gap;
    gap, ms, trailing := MemberTailFound(o, t, q, k, v.out);
    m := NamedItem([], [], [], n, after, gap);
    ValueInFront(o, t, p, m, q, ms, trailing, k, out, v, ValueThenTail(o, t, p, k, out));
  }

  lemma {:induction false} MemberTailFound(o: Options, t: Text, q: nat, k: nat, out: seq<Event>)
    returns (gap: Layout, ms: seq<NamedItem>, trailing: bool)
    requires q <= |t| && MemberTail(o, t, q, k, out).Ok?
    ensures ReadPairEnd(o, t, q, gap, ms, trailing, k, out, MemberTail(o, t, q, k, out))
    decreases |t| - q, 0
  {
    hide Members, Space, LayoutOk, LayoutText, ReadPairs, ReadPairEnd, PairsText;
    gap, ms, trailing := [], [], false;
    if Peek(t, q) == END_OBJECT {
      NoLayout(o.comments);
      NoMorePairs(o, t, q, [], false, q, k, out);
    } else {
      var s := Space(o, t, q + 1, out);
      if o.trailingCommas && Peek(t, s.pos) == END_OBJECT {
        gap := SpaceFound(o, t, q + 1, out);
        trailing := true;
        NoMorePairs(o, t, q, gap, true, s.pos, k, out);
      } else {
        ms, trailing := MembersFound(o, t, s.pos, k + 1, out);
        gap := SpaceFound(o, t, q + 1, out);
        MorePairs(o, t, q, gap, ms, trailing, s.pos, k, out, MemberTail(o, t, q, k, out));
      }
    }
  }

  lemma NoMorePairs(o: Options, t: Text, q: nat, gap: Layout, trailing: bool, r: nat, k: nat, out: seq<Event>)
    requires q <= r < |t| && t[r] == END_OBJECT && LayoutOk(o.comments, gap)
    requires if trailing then o.trailingCommas && t[q] == VALUE_SEPARATOR && q < r && t[q + 1..r] == LayoutText(gap) else q == r
    ensures ReadPairEnd(o, t, q, gap, [], trailing, k, out, Ok(r + 1, out + [EndObject(k + 1)]))
  {
    hide LayoutOk, LayoutText;
    NoItems(trailing);
    assert out + [] + [EndObject(k + 1)] == out + [EndObject(k + 1)];
    assert t[r..r + 1] == [END_OBJECT];
    if trailing {
      assert t[q..r + 1] == [t[q]] + (t[q + 1..r] + t[r..r + 1]);
    }
  }

  lemma MorePairs(o: Options, t: Text, q: nat, gap: Layout, ms: seq<NamedItem>, trailing: bool, p: nat, k: nat, out: seq<Event>, r: Outcome)
    requires q < p && ReadPairs(o, t, p, ms, trailing, k + 1, out, r) && ms != []
    requires t[q] == VALUE_SEPARATOR && LayoutOk(o.comments, gap) && t[q + 1..p] == LayoutText(gap)
    ensures ReadPairEnd(o, t, q, gap, ms, trailing, k, out, r)
  {
    hide LayoutOk, LayoutText, PairsText, PairsOk, PairsFit, PairEvents;
    assert t[q..r.pos] == [t[q]] + (t[q + 1..p] + t[p..r.pos]);
  }

  lemma {:induction false} ObjectFound(o: Options, t: Text, p: nat, out: seq<Event>) returns (n: Node)
    requires p <= |t| && Value(o, t, p, out).Ok? && Peek(t, p) == BEGIN_OBJECT
    ensures Read(o, t, p, n, out, Value(o, t, p, out))
    decreases |t| - p, 2
  {
    hide Members, Space, LayoutOk, LayoutText, ReadPairs, Read, PairsText;
    var out1 := out + [StartObject];
    var s := Space(o, t, p + 1, out1);
    var lead, ms, trailing := [], [], false;
    if Peek(t, s.pos) == END_OBJECT {
      NoPairsAtAll(o, t, s.pos, out1);
    } else {
      ms, trailing := MembersFound(o, t, s.pos, 0, out1);
    }
    lead := SpaceFound(o, t, p + 1, out1);
    n := ObjectNode(lead, ms, trailing);
    ObjectRead(o, t, p, lead, s.pos, ms, trailing, out, Value(o, t, p, out));
  }

  lemma NoPairsAtAll(o: Options, t: Text, q: nat, out: seq<Event>)
    requires q < |t| && t[q] == END_OBJECT
    ensures ReadPairs(o, t, q, [], false, 0, out, Ok(q + 1, out + [EndObject(0)]))
  {
    NoItems(false);
    assert out + [] + [EndObject(0)] == out + [EndObject(0)];
  }

  lemma ObjectRead(o: Options, t: Text, p: nat, lead: Layout, q: nat, ms: seq<NamedItem>, trailing: bool, out: seq<Event>, r: Outcome)
    requires p < q && ReadPairs(o, t, q, ms, trailing, 0, out + [StartObject], r) && (trailing ==> ms != [])
    requires t[p] == BEGIN_OBJECT && LayoutOk(o.comments, lead) && t[p + 1..q] == LayoutText(lead)
    ensures Read(o, t, p, ObjectNode(lead, ms, trailing), out, r)
  {
    hide LayoutOk, LayoutText, PairsText, PairEvents, UnitsOk;
    assert t[p..r.pos] == [t[p]] + (t[p + 1..q] + t[q..r.pos]);
    EventsEnd(out, StartObject, PairEvents(o, ms), EndObject(|ms|));
  }

  // ---------------------------------------------------------------- documents

  /** A text: layout, the root, layout, and perhaps a comment that the end of the text ends. */
  datatype Doc = Doc(before: Layout, root: Node, after: Layout, rest: Text)

  /** The text up to `q` is such a text; a reader that stops when it is done takes no layout behind the root. */
  predicate DocOk(o: Options, t: Text, q: nat, d: Doc) {
    && q <= |t| && LayoutOk(o.comments, d.before) && NodeOk(o, d.root) && Fits(o, d.root)
    && var head := LayoutText(d.before) + NodeText(d.root);
       if o.stopWhenDone then t[..q] == head && (d.root.NumberNode? ==> NumberStops(t, q, d.root.n))
       else
         && LayoutOk(o.comments, d.after) && t[..q] == head + (LayoutText(d.after) + d.rest)
         && Unended(o.comments, t, q, d.rest) && Peek(t, q) == 0
  }

  /** The text up to `q` is of the grammar, with the events `out`. */
  ghost predicate IsJson(o: Options, t: Text, q: nat, out: seq<Event>) {
    exists d :: DocOk(o, t, q, d) && out == NodeEvents(o, d.root)
  }

  lemma PrefixStands(t: Text, q: nat, a: Text, b: Text)
    requires q <= |t| && t[..q] == a + b
    ensures Stands(t, 0, a) && Stands(t, |a|, b) && |a| + |b| == q
  {
    assert Stands(t, 0, a + b);
    StandsSplit(t, 0, a, b);
  }

  /** The text behind a number in a document ends it. */
  lemma RootStops(o: Options, t: Text, p: nat, q: nat, d: Doc)
    requires LayoutOk(o.comments, d.after) && Stands(t, p, LayoutText(d.after) + d.rest)
    requires q == p + |LayoutText(d.after) + d.rest| && Unended(o.comments, t, q, d.rest) && Peek(t, q) == 0
    ensures forall n: Numeral :: NumberStops(t, p, n)
  {
    var s := LayoutText(d.after) + d.rest;
    if s != [] {
      PeekStands(t, p, s, 0);
      if d.after != [] {
        PieceHead(o, d.after[0]);
      } else {
        assert d.rest[0] == d.rest[..2][0];
      }
    }
  }

  /** Every text of the grammar is accepted with its events. */
  lemma DocumentTaken(o: Options, t: Text, q: nat, d: Doc)
    requires AcceptsAll(o) && DocOk(o, t, q, d)
    ensures Document(o, t) == Ok(q, NodeEvents(o, d.root))
  {
    hide LayoutText, NodeText, LayoutOk, NodeOk, Fits, NodeEvents, Value, Space, Stands, NumberStops, Unended, AcceptsAll, IsMark;
    var before, root := LayoutText(d.before), NodeText(d.root);
    var p, p1, events := |before|, |before| + |root|, NodeEvents(o, d.root);
    var tail := if o.stopWhenDone then [] else LayoutText(d.after) + d.rest;
    assert t[..q] == (before + root) + tail;
    PrefixStands(t, q, before + root, tail);
    StandsSplit(t, 0, before, root);
    NodeHead(o, d.root);
    PeekStands(t, p, root, 0);
    StartIsMark(root[0]);
    SpaceTaken(o, t, 0, d.before, []);
    if !o.stopWhenDone {
      RootStops(o, t, p1, q, d);
    }
    ValueTaken(o, d.root, t, p, []);
    assert [] + events == events;
    if !o.stopWhenDone {
      EndTaken(o, t, p1, q, d, events);
    }
  }

  lemma EndTaken(o: Options, t: Text, p: nat, q: nat, d: Doc, out: seq<Event>)
    requires LayoutOk(o.comments, d.after) && Stands(t, p, LayoutText(d.after) + d.rest)
    requires q == p + |LayoutText(d.after) + d.rest| && Unended(o.comments, t, q, d.rest) && Peek(t, q) == 0
    ensures q <= |t| && p <= |t| && Space(o, t, p, out) == Ok(q, out)
  {
    hide LayoutText, LayoutOk, Stands, Unended, S.SkipSpace;
    StandsWithin(t, p, LayoutText(d.after) + d.rest);
    StandsSplit(t, p, LayoutText(d.after), d.rest);
    LayoutPassed(o, t, p, d.after);
    UnendedSkipped(o, t, p + |LayoutText(d.after)|, d.rest);
  }

  /** What is accepted is a text of the grammar, and the handler has been told its events. */
  lemma DocumentFound(o: Options, t: Text) returns (d: Doc)
    requires Document(o, t).Ok?
    ensures DocOk(o, t, Document(o, t).pos, d) && Document(o, t).out == NodeEvents(o, d.root)
  {
    hide LayoutText, NodeText, LayoutOk, NodeOk, Fits, NodeEvents, Value, Space, NumberStops, Unended, LayoutStops;
    var p := Space(o, t, 0, []).pos;
    var before := SpaceFound(o, t, 0, []);
    var root := ValueFound(o, t, p, []);
    var v := Value(o, t, p, []);
    assert [] + NodeEvents(o, root) == NodeEvents(o, root);
    d := Doc(before, root, [], []);
    assert t[..p] == t[0..p];
    assert t[..v.pos] == t[..p] + t[p..v.pos];
    if !o.stopWhenDone {
      var after, rest := EndFound(o, t, v.pos, v.out);
      var q := Space(o, t, v.pos, v.out).pos;
      d := Doc(before, root, after, rest);
      assert t[..q] == t[..v.pos] + t[v.pos..q];
    }
  }

  lemma EndFound(o: Options, t: Text, p: nat, out: seq<Event>) returns (l: Layout, rest: Text)
    requires p <= |t| && Space(o, t, p, out).Ok?
    ensures var q := Space(o, t, p, out).pos;
            LayoutOk(o.comments, l) && t[p..q] == LayoutText(l) + rest && Unended(o.comments, t, q, rest)
  {
    hide LayoutText, LayoutOk, Unended, LayoutStops, S.SkipSpace;
    l, rest := LayoutFound(o, t, p);
  }

  /** The recursive parser accepts exactly the texts of the grammar, with exactly their events. */
  lemma AcceptsIffJson(o: Options, t: Text, q: nat, out: seq<Event>)
    requires AcceptsAll(o)
    ensures Document(o, t) == Ok(q, out) <==> IsJson(o, t, q, out)
  {
    hide Document, NodeEvents, AcceptsAll;
    if Document(o, t) == Ok(q, out) {
      var d := DocumentFound(o, t);
    }
    if IsJson(o, t, q, out) {
      var d :| DocOk(o, t, q, d) && out == NodeEvents(o, d.root);
      DocumentTaken(o, t, q, d);
    }
  }

  /** So does the table-driven one. */
  lemma TableDrivenAcceptsIffJson(o: Options, t: Text, q: nat, out: seq<Event>)
    requires AcceptsAll(o)
    ensures TableDriven.Document(o, t) == Ok(q, out) <==> IsJson(o, t, q, out)
  {
    AcceptsIffJson(o, t, q, out);
    hide Document, TableDriven.Document, IsJson;
    if ParserEquivalence.DelimiterRoot(o, t) {
      ParserEquivalence.DelimiterRootCodes(o, t);
    } else {
      ParserEquivalence.EqualIffNoDelimiterRoot(o, t);
    }
  }

  /** The reader as it is called, in each of its modes: success means a text of the grammar, and its events. */
  method ReadText(o: Options, text: Text, iterative: bool, insitu: bool) returns (ok: bool, q: nat, events: seq<Event>)
    requires AcceptsAll(o)
    ensures ok ==> IsJson(o, text, q, events)
    ensures !ok ==> forall q: nat, out :: !IsJson(o, text, q, out)
  {
    hide IsJson, Document, TableDriven.Document, AcceptsAll;
    var buf := new Byte[|text|](i requires 0 <= i < |text| => text[i]);
    assert buf[..] == text;
    var reader := new JsonReader.Reader(o, insitu, buf);
    if iterative {
      reader.IterativeParse();
    } else {
      reader.RecursiveParse();
    }
    ok, q, events := reader.result.NoError?, reader.src, reader.out;
    forall q: nat, out: seq<Event>
      ensures Document(o, text) == Ok(q, out) <==> IsJson(o, text, q, out)
      ensures TableDriven.Document(o, text) == Ok(q, out) <==> IsJson(o, text, q, out)
    {
      AcceptsIffJson(o, text, q, out);
      TableDrivenAcceptsIffJson(o, text, q, out);
    }
  }
}
