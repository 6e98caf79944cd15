/**
 JSON Pointer on document trees (rapidjson/pointer.h): Get, Create, Set and Erase. The trees
 are values; what the original changes in place is here a function from tree to tree.
 */
module JsonPointer {
  import opened Sax
  import opened Dom

  /** kPointerInvalidIndex */
  const INVALID := 0xFFFF_FFFF

  datatype Token = Token(name: Text, index: nat)

  type Path = seq<Token>

  const DASH: Text := ['-' as int]

  /** The token "-" is never an index, as Parse makes it. */
  predicate DashIsNoIndex(ts: Path) {
    forall i :: 0 <= i < |ts| ==> ts[i].name == DASH ==> ts[i].index == INVALID
  }

  /** The position of the first member of that name; the number of members if there is none. */
  function FindMember(ms: seq<Member>, name: Text): (i: nat)
    ensures i <= |ms| && (i < |ms| ==> ms[i].name == name)
    ensures forall j :: 0 <= j < i ==> ms[j].name != name
  {
    if ms == [] then 0 else if ms[0].name == name then 0 else 1 + FindMember(ms[1..], name)
  }

  predicate IsContainer(v: Value) { v.ArrayValue? || v.ObjectValue? }

  function Width(v: Value): nat
    requires IsContainer(v)
  {
    if v.ArrayValue? then |v.elements| else |v.members|
  }

  function Child(v: Value, i: nat): Value
    requires IsContainer(v) && i < Width(v)
  {
    if v.ArrayValue? then v.elements[i] else v.members[i].value
  }

  function WithChild(v: Value, i: nat, x: Value): (r: Value)
    requires IsContainer(v) && i < Width(v)
    ensures IsContainer(r) && Width(r) == Width(v) && Child(r, i) == x
  {
    if v.ArrayValue? then ArrayValue(v.elements[i := x]) else ObjectValue(v.members[i := v.members[i].(value := x)])
  }

  // ---------------------------------------------------------------- Get

  /** Whether the token leads from the value to one of its children, and to which. */
  predicate Leads(v: Value, t: Token) {
    match v
    case ObjectValue(ms) => FindMember(ms, t.name) < |ms|
    case ArrayValue(es) => t.index != INVALID && t.index < |es|
    case _ => false
  }

  function Position(v: Value, t: Token): (i: nat)
    requires Leads(v, t)
    ensures IsContainer(v) && i < Width(v)
  {
    if v.ObjectValue? then FindMember(v.members, t.name) else t.index
  }

  datatype Lookup = Found(value: Value) | Unresolved(token: nat)

  function Resolve(v: Value, ts: Path, k: nat): (r: Lookup)
    requires k <= |ts|
    ensures r.Unresolved? ==> k <= r.token < |ts|
    decreases |ts| - k
  {
    if k == |ts| then Found(v)
    else if Leads(v, ts[k]) then Resolve(Child(v, Position(v, ts[k])), ts, k + 1)
    else Unresolved(k)
  }

  method Get(root: Value, ts: Path) returns (r: Lookup)
    ensures r == Resolve(root, ts, 0)
  {
    var v := root;
    for k := 0 to |ts|
      invariant Resolve(v, ts, k) == Resolve(root, ts, 0)
    {
      var t := ts[k];
      match v {
        case ObjectValue(ms) =>
          var i := FindMember(ms, t.name);
          if i == |ms| {
            return Unresolved(k);
          }
          v := ms[i].value;
        case ArrayValue(es) =>
          if t.index == INVALID || t.index >= |es| {
            return Unresolved(k);
          }
          v := es[t.index];
        case _ =>
          return Unresolved(k);
      }
    }
    return Found(v);
  }

  // ---------------------------------------------------------------- Create and Set

  /** A container, one of its children, and whether that child was there before. */
  datatype Place = Place(container: Value, i: nat, existed: bool)

  function Nulls(n: nat): (s: seq<Value>)
    ensures |s| == n && forall i :: 0 <= i < n ==> s[i] == NullValue
  {
    seq(n, _ => NullValue)
  }

  /** The value becomes a container that the token can lead into. */
  function Retyped(v: Value, t: Token): (r: Value)
    ensures IsContainer(r)
  {
    if t.index == INVALID then (if v.ObjectValue? then v else ObjectValue([]))
    else if IsContainer(v) then v else ArrayValue([])
  }

  /** One turn of Create's loop. */
  function Prepared(v: Value, t: Token): (p: Place)
    ensures IsContainer(p.container) && p.i < Width(p.container)
  {
    if v.ArrayValue? && t.name == DASH then Place(ArrayValue(v.elements + [NullValue]), |v.elements|, false)
    else
      match Retyped(v, t)
      case ArrayValue(es) =>
        if t.index >= |es| then Place(ArrayValue(es + Nulls(t.index + 1 - |es|)), t.index, false)
        else Place(ArrayValue(es), t.index, true)
      case ObjectValue(ms) =>
        var i := FindMember(ms, t.name);
        if i == |ms| then Place(ObjectValue(ms + [Member(t.name, NullValue)]), i, false)
        else Place(ObjectValue(ms), i, true)
  }

  datatype Leaf = Keep | Put(value: Value)

  /** Walk down, preparing every container, and keep or replace what is found at the end. */
  function Update(v: Value, ts: Path, leaf: Leaf): (r: Value)
    decreases |ts|
  {
    if ts == [] then (if leaf.Put? then leaf.value else v)
    else
      var p := Prepared(v, ts[0]);
      WithChild(p.container, p.i, Update(Child(p.container, p.i), ts[1..], leaf))
  }

  /** Create's flag: no turn had to make anything. */
  predicate Existed(v: Value, ts: Path)
    decreases |ts|
  {
    ts == [] ||
    var p := Prepared(v, ts[0]);
    p.existed && Existed(Child(p.container, p.i), ts[1..])
  }

  function Create(v: Value, ts: Path): (r: Value) { Update(v, ts, Keep) }

  function Set(v: Value, ts: Path, x: Value): (r: Value) { Update(v, ts, Put(x)) }

  function Find(v: Value, ts: Path): Lookup { Resolve(v, ts, 0) }

  /** Resolving from token `k` on is resolving the rest of the path, with the token numbers moved. */
  lemma {:induction false} ResolveTail(v: Value, t: Token, ts: Path, k: nat)
    requires k <= |ts|
    ensures var r := Resolve(v, ts, k);
            Resolve(v, [t] + ts, k + 1) == if r.Found? then r else Unresolved(r.token + 1)
    decreases |ts| - k
  {
    if k < |ts| && Leads(v, ts[k]) {
      ResolveTail(Child(v, Position(v, ts[k])), t, ts, k + 1);
    }
  }

  lemma GetStep(v: Value, ts: Path)
    requires ts != []
    ensures !Leads(v, ts[0]) ==> Find(v, ts) == Unresolved(0)
    ensures Leads(v, ts[0]) ==>
              var r := Find(Child(v, Position(v, ts[0])), ts[1..]);
              Find(v, ts) == if r.Found? then r else Unresolved(r.token + 1)
  {
    assert ts == [ts[0]] + ts[1..];
    if Leads(v, ts[0]) {
      ResolveTail(Child(v, Position(v, ts[0])), ts[0], ts[1..], 0);
    }
  }

  /** The token "-" meets an array on the way down. */
  predicate AppendsSomewhere(v: Value, ts: Path)
    decreases |ts|
  {
    ts != [] &&
    ((v.ArrayValue? && ts[0].name == DASH) ||
     var p := Prepared(v, ts[0]);
     AppendsSomewhere(Child(p.container, p.i), ts[1..]))
  }

  /** A prepared container leads to the prepared child, whatever is put there. */
  lemma PreparedLeads(v: Value, t: Token, x: Value)
    requires t.name == DASH ==> t.index == INVALID
    ensures var p := Prepared(v, t);
            var c := WithChild(p.container, p.i, x);
            && (Leads(c, t) <==> !(v.ArrayValue? && t.name == DASH))
            && (Leads(c, t) ==> Position(c, t) == p.i)
            && (!(v.ArrayValue? && t.name == DASH) ==> Prepared(c, t) == Place(c, p.i, true))
  {
    var p := Prepared(v, t);
    var c := WithChild(p.container, p.i, x);
    if c.ObjectValue? {
      FindStays(p.container.members, t.name, p.i, x);
    }
  }

  lemma FindStays(ms: seq<Member>, name: Text, i: nat, x: Value)
    requires i < |ms| && ms[i].name == name && forall j :: 0 <= j < i ==> ms[j].name != name
    ensures FindMember(ms[i := ms[i].(value := x)], name) == i
  {
    var r := ms[i := ms[i].(value := x)];
    assert r[i].name == name;
  }

  /** Nothing has to be prepared exactly where Get can go on. */
  lemma ExistedIffLeads(v: Value, t: Token)
    requires t.name == DASH ==> t.index == INVALID
    ensures var p := Prepared(v, t);
            && (p.existed <==> Leads(v, t) && !(v.ArrayValue? && t.name == DASH))
            && (p.existed ==> p.container == v && p.i == Position(v, t))
  {
  }

  // ---------------------------------------------------------------- the laws

  lemma DashTail(ts: Path)
    requires DashIsNoIndex(ts) && ts != []
    ensures DashIsNoIndex(ts[1..]) && (ts[0].name == DASH ==> ts[0].index == INVALID)
  {
  }

  /** Get after Set returns the value exactly if no "-" token met an array. */
  lemma {:induction false} PutGet(v: Value, ts: Path, x: Value)
    requires DashIsNoIndex(ts)
    ensures Find(Set(v, ts, x), ts) == Found(x) <==> !AppendsSomewhere(v, ts)
    ensures Find(Set(v, ts, x), ts).Found? <==> !AppendsSomewhere(v, ts)
    decreases |ts|
  {
    hide Prepared, Leads, WithChild, Position, Child;
    if ts != [] {
      DashTail(ts);
      var p := Prepared(v, ts[0]);
      var below := Set(Child(p.container, p.i), ts[1..], x);
      var c := WithChild(p.container, p.i, below);
      PreparedLeads(v, ts[0], below);
      GetStep(c, ts);
      PutGet(Child(p.container, p.i), ts[1..], x);
    }
  }

  /** Create reports that the value exists exactly if Get finds it, and then changes nothing. */
  lemma {:induction false} ExistedIffFound(v: Value, ts: Path)
    requires DashIsNoIndex(ts)
    ensures Existed(v, ts) <==> Find(v, ts).Found?
    ensures Existed(v, ts) ==> Create(v, ts) == v && Set(v, ts, Find(v, ts).value) == v
    decreases |ts|
  {
    hide Prepared, Leads, WithChild, Position, Child;
    if ts != [] {
      DashTail(ts);
      var p := Prepared(v, ts[0]);
      ExistedIffLeads(v, ts[0]);
      GetStep(v, ts);
      DashNeverLeads(v, ts[0]);
      if p.existed {
        ExistedIffFound(Child(p.container, p.i), ts[1..]);
        SameChild(v, p.i);
      }
    }
  }

  lemma DashNeverLeads(v: Value, t: Token)
    requires t.name == DASH ==> t.index == INVALID
    ensures v.ArrayValue? && t.name == DASH ==> !Leads(v, t)
  {
  }

  lemma SameChild(v: Value, i: nat)
    requires IsContainer(v) && i < Width(v)
    ensures WithChild(v, i, Child(v, i)) == v
  {
  }

  /** What Create makes is null, and Get finds it unless it was appended. */
  lemma CreatedIsNull(v: Value, ts: Path)
    requires DashIsNoIndex(ts) && !AppendsSomewhere(v, ts)
    ensures var r := Find(Create(v, ts), ts);
            r == if Existed(v, ts) then Find(v, ts) else Found(NullValue)
    decreases |ts|
  {
    ExistedIffFound(v, ts);
    if !Existed(v, ts) {
      CreatedNull(v, ts);
    }
  }

  lemma {:induction false} CreatedNull(v: Value, ts: Path)
    requires DashIsNoIndex(ts) && !AppendsSomewhere(v, ts) && !Existed(v, ts)
    ensures Find(Create(v, ts), ts) == Found(NullValue)
    decreases |ts|
  {
    hide Prepared, Leads, WithChild, Position, Child;
    DashTail(ts);
    var p := Prepared(v, ts[0]);
    var below := Create(Child(p.container, p.i), ts[1..]);
    PreparedLeads(v, ts[0], below);
    GetStep(WithChild(p.container, p.i, below), ts);
    if Existed(Child(p.container, p.i), ts[1..]) {
      NewChildIsNull(v, ts[0]);
      ExistedIffFound(NullValue, ts[1..]);
      NullHasNoChildren(ts[1..]);
    } else {
      CreatedNull(Child(p.container, p.i), ts[1..]);
    }
  }

  lemma NewChildIsNull(v: Value, t: Token)
    requires !Prepared(v, t).existed
    ensures Child(Prepared(v, t).container, Prepared(v, t).i) == NullValue
  {
  }

  lemma NullHasNoChildren(ts: Path)
    ensures Find(NullValue, ts).Found? ==> ts == []
  {
  }

  /** A second Set overrides the first. */
  lemma {:induction false} PutPut(v: Value, ts: Path, x: Value, y: Value)
    requires DashIsNoIndex(ts) && !AppendsSomewhere(v, ts)
    ensures Set(Set(v, ts, x), ts, y) == Set(v, ts, y)
    decreases |ts|
  {
    hide Prepared, Leads, WithChild, Position, Child;
    if ts != [] {
      DashTail(ts);
      var p := Prepared(v, ts[0]);
      var child := Child(p.container, p.i);
      PutPut(child, ts[1..], x, y);
      PreparedLeads(v, ts[0], Set(child, ts[1..], x));
      SetTwice(p.container, p.i, Set(child, ts[1..], x), Set(child, ts[1..], y));
    }
  }

  lemma SetTwice(v: Value, i: nat, x: Value, y: Value)
    requires IsContainer(v) && i < Width(v)
    ensures WithChild(WithChild(v, i, x), i, y) == WithChild(v, i, y)
    ensures Child(WithChild(v, i, x), i) == x
  {
  }

  /**
   The two paths part at some container on the way, and the first one does not turn that
   container into another type.
   */
  predicate Apart(v: Value, ts: Path, us: Path)
    decreases |ts|
  {
    && ts != [] && us != [] && Leads(v, us[0])
    && !(v.ArrayValue? && ts[0].index == INVALID && ts[0].name != DASH)
    && (Prepared(v, ts[0]).i != Position(v, us[0])
        || (Leads(v, ts[0]) && Apart(Child(v, Position(v, us[0])), ts[1..], us[1..])))
  }

  /** Set changes nothing that lies off its path. */
  lemma {:induction false} SetKeepsOthers(v: Value, ts: Path, us: Path, x: Value)
    requires DashIsNoIndex(ts) && Apart(v, ts, us)
    ensures Find(Set(v, ts, x), us) == Find(v, us)
    decreases |ts|
  {
    hide Prepared, Leads, WithChild, Position, Child, Resolve;
    DashTail(ts);
    var p := Prepared(v, ts[0]);
    var i := Position(v, us[0]);
    var below := Set(Child(p.container, p.i), ts[1..], x);
    var c := WithChild(p.container, p.i, below);
    GetStep(v, us);
    GetStep(c, us);
    OthersStay(v, ts[0], us[0], below);
    if p.i == i {
      SetKeepsOthers(Child(v, i), ts[1..], us[1..], x);
    }
  }

  lemma OthersStay(v: Value, t: Token, u: Token, x: Value)
    requires Leads(v, u) && !(v.ArrayValue? && t.index == INVALID && t.name != DASH)
    requires t.name == DASH ==> t.index == INVALID
    ensures var p := Prepared(v, t);
            var c := WithChild(p.container, p.i, x);
            var i := Position(v, u);
            && Leads(c, u) && Position(c, u) == i
            && (p.i != i ==> Child(c, i) == Child(v, i))
            && (p.i == i ==> Child(p.container, i) == Child(v, i) && Child(c, i) == x)
  {
    if v.ObjectValue? {
      var p := Prepared(v, t);
      FoundStays(v.members, p.container.members[p.i := p.container.members[p.i].(value := x)], u.name);
    }
  }

  lemma FoundStays(ms: seq<Member>, rs: seq<Member>, name: Text)
    requires |ms| <= |rs| && FindMember(ms, name) < |ms|
    requires forall j :: 0 <= j < |ms| ==> rs[j].name == ms[j].name
    ensures FindMember(rs, name) == FindMember(ms, name)
  {
    var i := FindMember(ms, name);
    assert rs[i].name == name;
    assert forall j :: 0 <= j < i ==> rs[j].name == ms[j].name && ms[j].name != name;
  }

  // ---------------------------------------------------------------- Erase

  datatype Erased = Erased(tree: Value, done: bool)

  /** The container without one child. */
  function Without(v: Value, i: nat): Value
    requires IsContainer(v) && i < Width(v)
  {
    if v.ArrayValue? then ArrayValue(v.elements[..i] + v.elements[i + 1..])
    else ObjectValue(v.members[..i] + v.members[i + 1..])
  }

  function Erase(v: Value, ts: Path): (r: Erased)
    decreases |ts|
  {
    if ts == [] || !Leads(v, ts[0]) then Erased(v, false)
    else
      var i := Position(v, ts[0]);
      if |ts| == 1 then Erased(Without(v, i), true)
      else
        var below := Erase(Child(v, i), ts[1..]);
        Erased(WithChild(v, i, below.tree), below.done)
  }

  /**
   Erase succeeds exactly on the values that Get finds, except the root. It then replaces the
   container of the value by the same one without it, and changes nothing else.
   */
  lemma {:induction false} EraseIsSet(v: Value, ts: Path)
    requires DashIsNoIndex(ts)
    ensures Erase(v, ts).done <==> ts != [] && Find(v, ts).Found?
    ensures !Erase(v, ts).done ==> Erase(v, ts).tree == v
    ensures Erase(v, ts).done ==>
              var up, t := ts[..|ts| - 1], ts[|ts| - 1];
              && Find(v, up).Found? && Leads(Find(v, up).value, t)
              && var parent := Find(v, up).value;
                 Erase(v, ts).tree == Set(v, up, Without(parent, Position(parent, t)))
    decreases |ts|
  {
    hide Prepared, Leads, WithChild, Position, Child;
    if ts != [] {
      GetStep(v, ts);
      DashTail(ts);
      if Leads(v, ts[0]) {
        var i := Position(v, ts[0]);
        var up, rest := ts[..|ts| - 1], ts[1..];
        if |ts| == 1 {
          assert rest == [] && up == [];
        } else {
          EraseIsSet(Child(v, i), rest);
          SameChild(v, i);
          GetStep(v, up);
          assert up[1..] == rest[..|rest| - 1] && rest[|rest| - 1] == ts[|ts| - 1] && up[0] == ts[0];
          ExistedIffLeads(v, ts[0]);
          DashNeverLeads(v, ts[0]);
        }
      }
    }
  }

  // ---------------------------------------------------------------- what the operations do, in terms of Find

  /** `w` is the child that RFC 6901 lets the token reference. */
  ghost predicate Below(v: Value, t: Token, w: Value) {
    || (v.ArrayValue? && t.index != INVALID && t.index < |v.elements| && w == v.elements[t.index])
    || (v.ObjectValue? && exists i: nat :: FirstNamed(v.members, t.name, i) && w == v.members[i].value)
  }

  /** Member `i` is the first one of that name. */
  predicate FirstNamed(ms: seq<Member>, name: Text, i: nat) {
    i < |ms| && ms[i].name == name && forall j :: 0 <= j < i ==> ms[j].name != name
  }

  ghost predicate Walk(v: Value, ts: Path, x: Value)
    decreases |ts|
  {
    if ts == [] then v == x else exists w :: Below(v, ts[0], w) && Walk(w, ts[1..], x)
  }

  lemma BelowIsChild(v: Value, t: Token, w: Value)
    ensures Below(v, t, w) <==> Leads(v, t) && w == Child(v, Position(v, t))
  {
    if v.ObjectValue? {
      var i := FindMember(v.members, t.name);
      if i < |v.members| {
        assert FirstNamed(v.members, t.name, i);
      }
    }
  }

  /** Get finds exactly what the tokens lead to, one after the other. */
  lemma {:induction false} FindIsWalk(v: Value, ts: Path, x: Value)
    ensures Find(v, ts) == Found(x) <==> Walk(v, ts, x)
    decreases |ts|
  {
    hide Leads, Position, Child, Below;
    if ts != [] {
      GetStep(v, ts);
      forall w
        ensures Below(v, ts[0], w) <==> Leads(v, ts[0]) && w == Child(v, Position(v, ts[0]))
      {
        BelowIsChild(v, ts[0], w);
      }
      if Leads(v, ts[0]) {
        FindIsWalk(Child(v, Position(v, ts[0])), ts[1..], x);
      }
    }
  }

  /** An unresolved token is the first that references nothing. */
  lemma {:induction false} UnresolvedIsFirst(v: Value, ts: Path)
    requires Find(v, ts).Unresolved?
    ensures var k := Find(v, ts).token;
            Find(v, ts[..k]).Found? && forall w :: !Below(Find(v, ts[..k]).value, ts[k], w)
    decreases |ts|
  {
    hide Leads, Position, Child, Below;
    GetStep(v, ts);
    var k := Find(v, ts).token;
    if Leads(v, ts[0]) {
      UnresolvedIsFirst(Child(v, Position(v, ts[0])), ts[1..]);
      GetStep(v, ts[..k]);
      assert ts[..k][1..] == ts[1..][..k - 1];
    } else {
      assert ts[..0] == [];
      forall w
        ensures !Below(v, ts[0], w)
      {
        BelowIsChild(v, ts[0], w);
      }
    }
  }

  lemma {:induction false} FoundAppendsNothing(v: Value, ts: Path)
    requires DashIsNoIndex(ts) && Find(v, ts).Found?
    ensures !AppendsSomewhere(v, ts)
    decreases |ts|
  {
    ExistedIffFound(v, ts);
    PutGet(v, ts, Find(v, ts).value);
  }

  /** The container that one Set leaves where `c` was. */
  ghost predicate SetIn(c: Value, t: Token, x: Value, r: Value) {
    match c
    case ArrayValue(es) =>
      if t.name == DASH then r == ArrayValue(es + [x])
      else if t.index == INVALID then r == ObjectValue([Member(t.name, x)])
      else
        && r.ArrayValue? && |r.elements| == (if t.index < |es| then |es| else t.index + 1) && r.elements[t.index] == x
        && forall k :: 0 <= k < |r.elements| && k != t.index ==> r.elements[k] == if k < |es| then es[k] else NullValue
    case ObjectValue(ms) =>
      if exists i: nat :: FirstNamed(ms, t.name, i) then
        r.ObjectValue? && |r.members| == |ms|
        && forall k :: 0 <= k < |ms| ==> r.members[k] == if FirstNamed(ms, t.name, k) then Member(t.name, x) else ms[k]
      else r == ObjectValue(ms + [Member(t.name, x)])
    case _ =>
      if t.index == INVALID then r == ObjectValue([Member(t.name, x)])
      else
        && r.ArrayValue? && |r.elements| == t.index + 1 && r.elements[t.index] == x
        && forall k :: 0 <= k < t.index ==> r.elements[k] == NullValue
  }

  /** Set of a last token: padding with nulls, appending, and changing the type of the container. */
  lemma SetOne(c: Value, t: Token, x: Value)
    requires t.name == DASH ==> t.index == INVALID
    ensures SetIn(c, t, x, Set(c, [t], x))
  {
    var p := Prepared(c, t);
    SetLast(c, t, x);
    hide Update;
    if c.ObjectValue? {
      var i := FindMember(c.members, t.name);
      if i < |c.members| {
        assert FirstNamed(c.members, t.name, i);
      }
    }
  }

  lemma SetLast(c: Value, t: Token, x: Value)
    ensures Set(c, [t], x) == WithChild(Prepared(c, t).container, Prepared(c, t).i, x)
  {
    hide Prepared, WithChild, Child;
    var p := Prepared(c, t);
    assert [t][1..] == [];
    assert Update(Child(p.container, p.i), [], Put(x)) == x;
  }

  /** Where the path up to the last token exists, Set changes its container in just this way. */
  lemma {:induction false} SetContainer(v: Value, up: Path, t: Token, x: Value)
    requires DashIsNoIndex(up) && (t.name == DASH ==> t.index == INVALID) && Find(v, up).Found?
    ensures Find(Set(v, up + [t], x), up).Found?
    ensures SetIn(Find(v, up).value, t, x, Find(Set(v, up + [t], x), up).value)
    decreases |up|
  {
    hide SetIn;
    var c := Find(v, up).value;
    SetOne(c, t, x);
    SetThrough(v, up, t, x);
    FoundAppendsNothing(v, up);
    PutGet(v, up, Set(c, [t], x));
  }

  lemma {:induction false} SetThrough(v: Value, up: Path, t: Token, x: Value)
    requires DashIsNoIndex(up) && Find(v, up).Found?
    ensures Set(v, up + [t], x) == Set(v, up, Set(Find(v, up).value, [t], x))
    decreases |up|
  {
    hide Prepared, Leads, WithChild, Position, Child;
    if up == [] {
      assert up + [t] == [t];
    } else {
      GetStep(v, up);
      DashTail(up);
      ExistedIffLeads(v, up[0]);
      DashNeverLeads(v, up[0]);
      assert (up + [t])[1..] == up[1..] + [t] && (up + [t])[0] == up[0];
      SetThrough(Child(v, Position(v, up[0])), up[1..], t, x);
    }
  }

  /** The sequence `b` is `a` without element `i`; the later elements have moved down by one. */
  predicate Gone<T(==)>(a: seq<T>, b: seq<T>, i: nat) {
    && i < |a| && |b| == |a| - 1
    && (forall k :: 0 <= k < i ==> b[k] == a[k])
    && forall k :: i < k < |a| ==> b[k - 1] == a[k]
  }

  /** The container `r` is `c` without the child that the token references. */
  ghost predicate OneGone(c: Value, t: Token, r: Value) {
    match c
    case ArrayValue(es) => r.ArrayValue? && Gone(es, r.elements, t.index)
    case ObjectValue(ms) =>
      r.ObjectValue? && exists i: nat :: FirstNamed(ms, t.name, i) && Gone(ms, r.members, i)
    case _ => false
  }

  lemma WithoutIsOneGone(c: Value, t: Token)
    requires Leads(c, t)
    ensures OneGone(c, t, Without(c, Position(c, t)))
  {
    if c.ObjectValue? {
      assert FirstNamed(c.members, t.name, Position(c, t));
    }
  }

  /**
   A successful Erase, said by what Get finds: the container of the value has one child fewer.
   In an array the later elements move down; in an object exactly the first member of that name
   is gone. Whatever lies off the path to the container is found as before.
   */
  lemma EraseEffect(v: Value, ts: Path)
    requires DashIsNoIndex(ts) && Erase(v, ts).done
    ensures var up, t := ts[..|ts| - 1], ts[|ts| - 1];
            && Find(v, up).Found? && Find(Erase(v, ts).tree, up).Found?
            && OneGone(Find(v, up).value, t, Find(Erase(v, ts).tree, up).value)
    ensures forall us: Path :: Apart(v, ts[..|ts| - 1], us) ==> Find(Erase(v, ts).tree, us) == Find(v, us)
  {
    hide Leads, Position, Child, Apart, OneGone, Without, Erase;
    EraseIsSet(v, ts);
    var up, t := ts[..|ts| - 1], ts[|ts| - 1];
    var parent := Find(v, up).value;
    WithoutIsOneGone(parent, t);
    FoundAppendsNothing(v, up);
    PutGet(v, up, Without(parent, Position(parent, t)));
    forall us: Path | Apart(v, up, us)
      ensures Find(Erase(v, ts).tree, us) == Find(v, us)
    {
      SetKeepsOthers(v, up, us, Without(parent, Position(parent, t)));
    }
  }

  /** In an object, every other name is found as before. */
  lemma OtherNamesStay(c: Value, t: Token, r: Value, u: Token)
    requires c.ObjectValue? && OneGone(c, t, r) && u.name != t.name
    ensures var a, b := Find(c, [u]), Find(r, [u]);
            a.Found? == b.Found? && (a.Found? ==> a.value == b.value)
  {
    var ms, rs := c.members, r.members;
    var i: nat :| FirstNamed(ms, t.name, i) && Gone(ms, rs, i);
    var j := FindMember(ms, u.name);
    var moved: nat := if j < i then j else if j < |ms| then j - 1 else |rs|;
    MovedFirst(ms, rs, i, u.name, moved);
    hide OneGone, FindMember, Gone;
    GetStep(c, [u]);
    GetStep(r, [u]);
  }

  /** Without member `i`, the first member of another name is the same one, perhaps one place lower. */
  lemma MovedFirst(ms: seq<Member>, rs: seq<Member>, i: nat, name: Text, moved: nat)
    requires Gone(ms, rs, i) && ms[i].name != name
    requires var j := FindMember(ms, name); moved == if j < i then j else if j < |ms| then j - 1 else |rs|
    ensures FindMember(rs, name) == moved
    ensures var j := FindMember(ms, name); (j < |ms| <==> moved < |rs|) && (j < |ms| ==> rs[moved] == ms[j])
  {
    var j := FindMember(ms, name);
    forall k | 0 <= k < moved
      ensures rs[k].name != name
    {
      if k < i {
        assert rs[k] == ms[k];
      } else {
        assert rs[k + 1 - 1] == ms[k + 1];
      }
    }
    FirstIs(rs, name, moved);
  }

  lemma FirstIs(ms: seq<Member>, name: Text, i: nat)
    requires i <= |ms| && (i < |ms| ==> ms[i].name == name) && forall j :: 0 <= j < i ==> ms[j].name != name
    ensures FindMember(ms, name) == i
  {
  }
}
