/**
 The lock-free segmented log buffer (benchmarks/audit_buffer.hpp) as a transition system:
 any number of threads inside segmented_log_buffer::reserve, each with its own program
 counter, and one background thread that runs prep_next_segment. Every atomic operation
 and every critical section is one step, and the steps interleave in any order.
 */
module AuditBuffer {

  datatype Option<T> = None | Some(value: T)

  type Thread = nat

  /** What has become of one fetch_add. */
  datatype Status =
    | Pending(owner: Thread)   // the thread has not looked at the position yet
    | Granted                  // the range has been returned to the caller
    | Crossing(owner: Thread)  // the thread has to switch to the next segment
    | Marked                   // the end-of-media mark is written at this position
    | Beyond                   // past the end: the thread tries again

  datatype Entry = Entry(pos: nat, size: nat, status: Status)

  /** A mapped file: the atomic offset, the mark, and the history of its fetch_adds. */
  datatype Segment = Segment(offset: nat, log: seq<Entry>, mark: Option<nat>)

  /** Where a thread is in reserve. `i` is the index it loaded, `g` the segment it copied. */
  datatype Pc =
    | Idle
    | Top(size: nat)
    | Loaded(size: nat, i: nat)
    | Copied(size: nat, i: nat, g: nat)
    | Reserved(size: nat, i: nat, g: nat, k: nat)   // `k` is the entry of its fetch_add
    | MustReset(size: nat, i: nat, g: nat, k: nat)
    | MustRequest(size: nat, i: nat, g: nat, k: nat)
    | MustMark(size: nat, i: nat, g: nat, k: nat)
    | MustPublish(size: nat, i: nat, g: nat, k: nat)

  datatype State = State(
    filesize: nat,
    segs: seq<Segment>,           // all segments ever created, in order
    slots: seq<Option<nat>>,      // segments_: three slots
    idx: nat,                     // segment_idx_
    queue: nat,                   // preparations posted and not started
    prep: Option<nat>,            // the segment that is made and not yet in its slot
    pcs: map<Thread, Pc>)

  const FRESH_SEGMENT := Segment(0, [], None)

  /** The state that the constructor leaves, with any set of threads. */
  function Initial(filesize: nat, threads: set<Thread>): State {
    State(filesize, [FRESH_SEGMENT, FRESH_SEGMENT], [Some(0), Some(1), None], 0, 0, None,
          map t | t in threads :: Idle)
  }

  datatype Action =
    | Call(t: Thread, size: nat)
    | Load(t: Thread) | Copy(t: Thread) | Add(t: Thread) | Decide(t: Thread)
    | Reset(t: Thread) | Request(t: Thread) | Mark(t: Thread) | Publish(t: Thread)
    | PrepMake | PrepSwap

  /** The position that a request must stay below. */
  function LastPos(s: State): int { s.filesize - 1 }

  predicate Shape(s: State) {
    && |s.slots| == 3 && s.filesize >= 1
    && (forall j :: 0 <= j < 3 && s.slots[j].Some? ==> s.slots[j].value < |s.segs|)
    && (s.prep.Some? ==> s.prep.value < |s.segs|)
    && forall t :: t in s.pcs ==> PcShape(s, s.pcs[t])
  }

  /** A thread refers to an existing segment and to its own entry there. */
  predicate PcShape(s: State, pc: Pc) {
    && (pc.Copied? ==> pc.g < |s.segs|)
    && (HasEntry(pc) ==> pc.g < |s.segs| && pc.k < |s.segs[pc.g].log| && s.segs[pc.g].log[pc.k].size == pc.size)
  }

  predicate HasEntry(pc: Pc) {
    pc.Reserved? || IsCrossing(pc)
  }

  predicate IsCrossing(pc: Pc) {
    pc.MustReset? || pc.MustRequest? || pc.MustMark? || pc.MustPublish?
  }

  function Pos(s: State, pc: Pc): nat
    requires HasEntry(pc) && PcShape(s, pc)
  {
    s.segs[pc.g].log[pc.k].pos
  }

  predicate Enabled(s: State, a: Action) {
    match a
    case PrepMake => s.queue > 0 && s.prep.None?
    case PrepSwap => s.prep.Some?
    case Call(t, size) => t in s.pcs && s.pcs[t].Idle? && size <= s.filesize - 1
    case Load(t) => t in s.pcs && s.pcs[t].Top?
    case Copy(t) => t in s.pcs && s.pcs[t].Loaded?
    case Add(t) => t in s.pcs && s.pcs[t].Copied?
    case Decide(t) => t in s.pcs && s.pcs[t].Reserved?
    case Reset(t) => t in s.pcs && s.pcs[t].MustReset?
    case Request(t) => t in s.pcs && s.pcs[t].MustRequest?
    case Mark(t) => t in s.pcs && s.pcs[t].MustMark?
    case Publish(t) => t in s.pcs && s.pcs[t].MustPublish?
  }

  function SetStatus(g: Segment, k: nat, st: Status): Segment
    requires k < |g.log|
  {
    g.(log := g.log[k := g.log[k].(status := st)])
  }

  /** The branch taken after the fetch_add. */
  datatype Verdict = Return | Cross | Retry

  function Judge(last: int, pos: nat, size: nat): Verdict {
    if pos < last && pos + size >= last then Cross
    else if pos >= last then Retry
    else Return
  }

  /** One step. */
  function Apply(s: State, a: Action): State
    requires Shape(s) && Enabled(s, a)
  {
    match a
    case PrepMake => s.(segs := s.segs + [FRESH_SEGMENT], queue := s.queue - 1, prep := Some(|s.segs|))
    case PrepSwap => s.(slots := s.slots[s.prep.value % 3 := s.prep], prep := None)
    case Call(t, size) => s.(pcs := s.pcs[t := Top(size)])
    case Load(t) => s.(pcs := s.pcs[t := Loaded(s.pcs[t].size, s.idx)])
    case Copy(t) =>
      var pc := s.pcs[t];
      var slot := s.slots[pc.i % 3];
      s.(pcs := s.pcs[t := if slot.None? then Top(pc.size) else Copied(pc.size, pc.i, slot.value)])
    case Add(t) =>
      var pc := s.pcs[t];
      var seg := s.segs[pc.g];
      var seg' := seg.(offset := seg.offset + pc.size, log := seg.log + [Entry(seg.offset, pc.size, Pending(t))]);
      s.(segs := s.segs[pc.g := seg'], pcs := s.pcs[t := Reserved(pc.size, pc.i, pc.g, |seg.log|)])
    case Decide(t) =>
      var pc := s.pcs[t];
      var v := Judge(LastPos(s), Pos(s, pc), pc.size);
      var st := if v == Cross then Crossing(t) else if v == Retry then Beyond else Granted;
      var pc' :=
        if v == Cross then MustReset(pc.size, pc.i, pc.g, pc.k)
        else if v == Retry then Top(pc.size) else Idle;
      s.(segs := s.segs[pc.g := SetStatus(s.segs[pc.g], pc.k, st)], pcs := s.pcs[t := pc'])
    case Reset(t) =>
      var pc := s.pcs[t];
      s.(slots := s.slots[pc.i % 3 := None], pcs := s.pcs[t := MustRequest(pc.size, pc.i, pc.g, pc.k)])
    case Request(t) =>
      var pc := s.pcs[t];
      s.(queue := s.queue + 1, pcs := s.pcs[t := MustMark(pc.size, pc.i, pc.g, pc.k)])
    case Mark(t) =>
      var pc := s.pcs[t];
      var seg := s.segs[pc.g];
      s.(segs := s.segs[pc.g := SetStatus(seg, pc.k, Marked).(mark := Some(Pos(s, pc)))],
         pcs := s.pcs[t := MustPublish(pc.size, pc.i, pc.g, pc.k)])
    case Publish(t) =>
      var pc := s.pcs[t];
      s.(idx := pc.i + 1, pcs := s.pcs[t := Top(pc.size)])
  }

  // ---------------------------------------------------------------- every interleaving

  /** The fetch_adds of a segment hand out consecutive ranges. */
  predicate Contiguous(g: Segment) {
    && (g.log != [] ==> g.log[0].pos == 0)
    && (forall k :: 0 < k < |g.log| ==> g.log[k].pos == g.log[k - 1].pos + g.log[k - 1].size)
    && g.offset == if g.log == [] then 0 else g.log[|g.log| - 1].pos + g.log[|g.log| - 1].size
  }

  /** What a status says about the range. */
  predicate EntryOk(last: int, e: Entry) {
    match e.status
    case Pending(_) => true
    case Granted => Judge(last, e.pos, e.size) == Return
    case Crossing(_) => Judge(last, e.pos, e.size) == Cross
    case Marked => Judge(last, e.pos, e.size) == Cross
    case Beyond => Judge(last, e.pos, e.size) == Retry
  }

  predicate SegmentOk(last: int, g: Segment) {
    && Contiguous(g)
    && (forall k :: 0 <= k < |g.log| ==> EntryOk(last, g.log[k]))
    && (forall k :: 0 <= k < |g.log| && g.log[k].status == Marked ==> g.mark == Some(g.log[k].pos))
    && (g.mark.Some? ==> exists k :: 0 <= k < |g.log| && g.log[k].status == Marked)
  }

  /** The status that the entry of a thread in `pc` has. */
  predicate OwnStatus(pc: Pc, t: Thread, st: Status) {
    if pc.Reserved? then st == Pending(t)
    else if pc.MustPublish? then st == Marked
    else st == Crossing(t)
  }

  /** A thread's counter and the status of its entry agree, in both directions. */
  predicate Owned(s: State, t: Thread)
    requires t in s.pcs && PcShape(s, s.pcs[t])
  {
    var pc := s.pcs[t];
    HasEntry(pc) ==> OwnStatus(pc, t, s.segs[pc.g].log[pc.k].status)
  }

  predicate HasOwner(s: State, g: nat, k: nat)
    requires g < |s.segs| && k < |s.segs[g].log|
  {
    match s.segs[g].log[k].status
    case Pending(t) => t in s.pcs && s.pcs[t].Reserved? && s.pcs[t].g == g && s.pcs[t].k == k
    case Crossing(t) => t in s.pcs && IsCrossing(s.pcs[t]) && !s.pcs[t].MustPublish? && s.pcs[t].g == g && s.pcs[t].k == k
    case _ => true
  }

  predicate Inv(s: State) {
    && Shape(s)
    && (forall g :: 0 <= g < |s.segs| ==> SegmentOk(LastPos(s), s.segs[g]))
    && (forall t :: t in s.pcs ==> Owned(s, t))
    && (forall g, k :: 0 <= g < |s.segs| && 0 <= k < |s.segs[g].log| ==> HasOwner(s, g, k))
  }

  /** The step keeps the references of the threads, as far as the thread `t` itself is concerned. */
  lemma ThreadsKept(s: State, s': State, t: Thread)
    requires Inv(s) && |s.segs| <= |s'.segs|
    requires forall g :: 0 <= g < |s.segs| ==> |s.segs[g].log| <= |s'.segs[g].log|
    requires forall g, k :: 0 <= g < |s.segs| && 0 <= k < |s.segs[g].log| ==> SameEntry(s, s', g, k, t)
    requires s'.pcs.Keys == s.pcs.Keys && forall u :: u in s.pcs && u != t ==> s'.pcs[u] == s.pcs[u]
    ensures forall u :: u in s.pcs && u != t ==> PcShape(s', s'.pcs[u]) && Owned(s', u)
  {
    forall u | u in s.pcs && u != t
      ensures PcShape(s', s'.pcs[u]) && Owned(s', u)
    {
      assert PcShape(s, s.pcs[u]) && Owned(s, u);
      if HasEntry(s.pcs[u]) {
        assert SameEntry(s, s', s.pcs[u].g, s.pcs[u].k, t);
      }
    }
  }

  /** The entry keeps its range, and its status unless the thread `t` owns it. */
  predicate SameEntry(s: State, s': State, g: nat, k: nat, t: Thread)
    requires g < |s.segs| <= |s'.segs| && k < |s.segs[g].log| <= |s'.segs[g].log|
  {
    var e, e' := s.segs[g].log[k], s'.segs[g].log[k];
    e.pos == e'.pos && e.size == e'.size && (e.status == e'.status || e.status == Pending(t) || e.status == Crossing(t))
  }

  lemma InitialInv(filesize: nat, threads: set<Thread>)
    requires filesize >= 1
    ensures Inv(Initial(filesize, threads))
  {
  }

  lemma StepInv(s: State, a: Action)
    requires Inv(s) && Enabled(s, a)
    ensures Inv(Apply(s, a))
  {
    match a
    case Add(t) => AddInv(s, t);
    case Decide(t) => DecideInv(s, t);
    case Mark(t) => MarkInv(s, t);
    case PrepMake => PrepMakeInv(s);
    case PrepSwap => SameSegmentsInv(s, a);
    case Call(_, _) => SameSegmentsInv(s, a);
    case Load(_) => SameSegmentsInv(s, a);
    case Copy(_) => SameSegmentsInv(s, a);
    case Reset(_) => SameSegmentsInv(s, a);
    case Request(_) => SameSegmentsInv(s, a);
    case Publish(_) => SameSegmentsInv(s, a);
  }

  predicate KeepsSegments(a: Action) {
    !a.Add? && !a.Decide? && !a.Mark? && !a.PrepMake?
  }

  lemma SameSegmentsInv(s: State, a: Action)
    requires Inv(s) && Enabled(s, a) && KeepsSegments(a)
    ensures Inv(Apply(s, a))
  {
    hide SegmentOk;
    var s' := Apply(s, a);
    forall u | u in s'.pcs
      ensures PcShape(s', s'.pcs[u]) && Owned(s', u)
    {
      assert PcShape(s, s.pcs[u]) && Owned(s, u);
    }
    forall g, k | 0 <= g < |s'.segs| && 0 <= k < |s'.segs[g].log|
      ensures HasOwner(s', g, k)
    {
      assert HasOwner(s, g, k);
    }
  }

  lemma PrepMakeInv(s: State)
    requires Inv(s) && Enabled(s, PrepMake)
    ensures Inv(Apply(s, PrepMake))
  {
    hide SegmentOk;
    var s' := Apply(s, PrepMake);
    FreshOk(LastPos(s));
    forall u | u in s'.pcs
      ensures PcShape(s', s'.pcs[u]) && Owned(s', u)
    {
      assert PcShape(s, s.pcs[u]) && Owned(s, u);
    }
    forall g, k | 0 <= g < |s'.segs| && 0 <= k < |s'.segs[g].log|
      ensures HasOwner(s', g, k)
    {
      assert HasOwner(s, g, k);
    }
  }

  lemma FreshOk(last: int)
    ensures SegmentOk(last, FRESH_SEGMENT)
  {
  }

  lemma AddInv(s: State, t: Thread)
    requires Inv(s) && Enabled(s, Add(t))
    ensures Inv(Apply(s, Add(t)))
  {
    hide SegmentOk;
    var s' := Apply(s, Add(t));
    var g0 := s.pcs[t].g;
    assert PcShape(s, s.pcs[t]);
    AddSegment(LastPos(s), s.segs[g0], s.pcs[t].size, t);
    ThreadsKept(s, s', t);
    forall g, k | 0 <= g < |s'.segs| && 0 <= k < |s'.segs[g].log|
      ensures HasOwner(s', g, k)
    {
      if k < |s.segs[g].log| {
        assert HasOwner(s, g, k);
      }
    }
  }

  lemma AddSegment(last: int, g: Segment, size: nat, t: Thread)
    requires SegmentOk(last, g)
    ensures SegmentOk(last, g.(offset := g.offset + size, log := g.log + [Entry(g.offset, size, Pending(t))]))
  {
    var g' := g.(offset := g.offset + size, log := g.log + [Entry(g.offset, size, Pending(t))]);
    if g.mark.Some? {
      var k :| 0 <= k < |g.log| && g.log[k].status == Marked;
      assert g'.log[k].status == Marked;
    }
  }

  /** The state after thread `t` has settled its entry with status `st` and gone on to `pc`. */
  function Settle(s: State, t: Thread, seg: Segment, pc: Pc): State
    requires t in s.pcs && HasEntry(s.pcs[t]) && PcShape(s, s.pcs[t])
  {
    s.(segs := s.segs[s.pcs[t].g := seg], pcs := s.pcs[t := pc])
  }

  /** `pc` goes with the status `st` of the entry that `was` refers to. */
  predicate Settles(t: Thread, was: Pc, st: Status, pc: Pc)
    requires HasEntry(was)
  {
    && !pc.Copied?
    && (HasEntry(pc) ==> pc.g == was.g && pc.k == was.k && pc.size == was.size && OwnStatus(pc, t, st))
    && !st.Pending?
    && (st.Crossing? ==> st.owner == t && IsCrossing(pc) && !pc.MustPublish?)
  }

  lemma SettleInv(s: State, t: Thread, st: Status, seg: Segment, pc: Pc)
    requires Inv(s) && t in s.pcs && HasEntry(s.pcs[t]) && !s.pcs[t].MustPublish?
    requires seg.log == SetStatus(s.segs[s.pcs[t].g], s.pcs[t].k, st).log
    requires SegmentOk(LastPos(s), seg) && Settles(t, s.pcs[t], st, pc)
    ensures Inv(Settle(s, t, seg, pc))
  {
    hide SegmentOk;
    var s' := Settle(s, t, seg, pc);
    assert PcShape(s, s.pcs[t]) && Owned(s, t);
    ThreadsKept(s, s', t);
    forall g, k | 0 <= g < |s'.segs| && 0 <= k < |s'.segs[g].log|
      ensures HasOwner(s', g, k)
    {
      assert HasOwner(s, g, k);
    }
  }

  lemma DecideInv(s: State, t: Thread)
    requires Inv(s) && Enabled(s, Decide(t))
    ensures Inv(Apply(s, Decide(t)))
  {
    hide Inv, SegmentOk;
    InvShape(s, t);
    var pc := s.pcs[t];
    var v := Judge(LastPos(s), Pos(s, pc), pc.size);
    var st := if v == Cross then Crossing(t) else if v == Retry then Beyond else Granted;
    StatusSegment(LastPos(s), s.segs[pc.g], pc.k, st);
    SettleInv(s, t, st, SetStatus(s.segs[pc.g], pc.k, st), Apply(s, Decide(t)).pcs[t]);
  }

  lemma InvShape(s: State, t: Thread)
    requires Inv(s) && t in s.pcs
    ensures Shape(s) && PcShape(s, s.pcs[t]) && Owned(s, t)
    ensures HasEntry(s.pcs[t]) ==> SegmentOk(LastPos(s), s.segs[s.pcs[t].g])
  {
    hide SegmentOk;
  }

  lemma StatusSegment(last: int, g: Segment, k: nat, st: Status)
    requires SegmentOk(last, g) && k < |g.log| && st != Marked && g.log[k].status != Marked
    requires EntryOk(last, g.log[k].(status := st))
    ensures SegmentOk(last, SetStatus(g, k, st))
  {
    var g' := SetStatus(g, k, st);
    if g.mark.Some? {
      var m :| 0 <= m < |g.log| && g.log[m].status == Marked;
      assert g'.log[m].status == Marked;
    }
  }

  lemma MarkInv(s: State, t: Thread)
    requires Inv(s) && Enabled(s, Mark(t))
    ensures Inv(Apply(s, Mark(t)))
  {
    hide Inv, SegmentOk;
    InvShape(s, t);
    var pc := s.pcs[t];
    MarkSegment(LastPos(s), s.segs[pc.g], pc.k);
    SettleInv(s, t, Marked, SetStatus(s.segs[pc.g], pc.k, Marked).(mark := Some(Pos(s, pc))),
              MustPublish(pc.size, pc.i, pc.g, pc.k));
  }

  lemma MarkSegment(last: int, g: Segment, k: nat)
    requires SegmentOk(last, g) && k < |g.log| && g.log[k].status.Crossing?
    ensures SegmentOk(last, SetStatus(g, k, Marked).(mark := Some(g.log[k].pos)))
  {
    var g' := SetStatus(g, k, Marked).(mark := Some(g.log[k].pos));
    assert g'.log[k].status == Marked;
    forall m | 0 <= m < |g.log| && g.log[m].status == Marked
      ensures false
    {
      OneCrossing(last, g, m, k);
    }
  }

  /** Ranges of a segment are in the order of their entries. */
  lemma {:induction false} Ordered(g: Segment, j: nat, k: nat)
    requires Contiguous(g) && j < k < |g.log|
    ensures g.log[j].pos + g.log[j].size <= g.log[k].pos
    decreases k
  {
    if j < k - 1 {
      Ordered(g, j, k - 1);
    }
  }

  /** Only one fetch_add of a segment crosses its end. */
  lemma OneCrossing(last: int, g: Segment, j: nat, k: nat)
    requires Contiguous(g) && j < |g.log| && k < |g.log|
    requires Judge(last, g.log[j].pos, g.log[j].size) == Cross
    requires Judge(last, g.log[k].pos, g.log[k].size) == Cross
    ensures j == k
  {
    if j < k {
      Ordered(g, j, k);
    } else if k < j {
      Ordered(g, k, j);
    }
  }

  // ---------------------------------------------------------------- whole runs

  /** A step that is not possible is left out. */
  function Next(s: State, a: Action): State {
    if Shape(s) && Enabled(s, a) then Apply(s, a) else s
  }

  function Exec(s: State, run: seq<Action>): State {
    if run == [] then s else Next(Exec(s, run[..|run| - 1]), run[|run| - 1])
  }

  /** The invariant holds after every run, whatever the threads and the interleaving. */
  lemma {:induction false} ReachableInv(filesize: nat, threads: set<Thread>, run: seq<Action>)
    requires filesize >= 1
    ensures Inv(Exec(Initial(filesize, threads), run))
  {
    hide Inv;
    if run == [] {
      InitialInv(filesize, threads);
    } else {
      ReachableInv(filesize, threads, run[..|run| - 1]);
      var s := Exec(Initial(filesize, threads), run[..|run| - 1]);
      if Shape(s) && Enabled(s, run[|run| - 1]) {
        StepInv(s, run[|run| - 1]);
      }
    }
  }

  /** An entry whose range belongs to a caller: returned already, or as soon as its thread goes on. */
  predicate IsGrant(last: int, e: Entry) {
    e.status == Granted || (e.status.Pending? && Judge(last, e.pos, e.size) == Return)
  }

  predicate Covers(e: Entry, b: int) { e.pos <= b < e.pos + e.size }

  /** What the callers of one segment may rely on. */
  predicate RangesOk(last: int, g: Segment) {
    && (forall k :: 0 <= k < |g.log| && IsGrant(last, g.log[k]) ==> g.log[k].pos + g.log[k].size < last)
    && (forall j, k :: 0 <= j < k < |g.log| && IsGrant(last, g.log[j]) && IsGrant(last, g.log[k]) ==>
          g.log[j].pos + g.log[j].size <= g.log[k].pos)
    && (forall j, k :: 0 <= j < |g.log| && 0 <= k < |g.log| && IsCross(g.log[j]) && IsCross(g.log[k]) ==> j == k)
    && (g.mark.Some? ==> MarkOk(last, g, g.mark.value))
  }

  predicate IsCross(e: Entry) { e.status.Crossing? || e.status.Marked? }

  /** The mark lies behind every range, and the ranges before it leave no byte out. */
  predicate MarkOk(last: int, g: Segment, m: nat) {
    && m < last
    && (forall k :: 0 <= k < |g.log| && IsGrant(last, g.log[k]) ==> g.log[k].pos + g.log[k].size <= m)
    && (forall b :: 0 <= b < m ==> HasByte(last, g, b))
  }

  predicate HasByte(last: int, g: Segment, b: nat) {
    exists k :: 0 <= k < |g.log| && IsGrant(last, g.log[k]) && Covers(g.log[k], b)
  }

  lemma {:induction false} CoveredBefore(g: Segment, k: nat, b: nat) returns (j: nat)
    requires Contiguous(g) && k < |g.log| && b < g.log[k].pos
    ensures j < k && Covers(g.log[j], b)
    decreases k
  {
    if b >= g.log[k - 1].pos {
      j := k - 1;
    } else {
      j := CoveredBefore(g, k - 1, b);
    }
  }

  lemma RangesOfSegment(last: int, g: Segment)
    requires SegmentOk(last, g)
    ensures RangesOk(last, g)
  {
    forall j, k | 0 <= j < k < |g.log|
      ensures g.log[j].pos + g.log[j].size <= g.log[k].pos
    {
      Ordered(g, j, k);
    }
    forall j, k | 0 <= j < |g.log| && 0 <= k < |g.log| && IsCross(g.log[j]) && IsCross(g.log[k])
      ensures j == k
    {
      OneCrossing(last, g, j, k);
    }
    if g.mark.Some? {
      MarkOfSegment(last, g);
    }
  }

  lemma MarkOfSegment(last: int, g: Segment)
    requires SegmentOk(last, g) && g.mark.Some?
    ensures MarkOk(last, g, g.mark.value)
  {
    var c :| 0 <= c < |g.log| && g.log[c].status == Marked;
    forall k | 0 <= k < |g.log| && IsGrant(last, g.log[k])
      ensures g.log[k].pos + g.log[k].size <= g.log[c].pos
    {
      if k < c {
        Ordered(g, k, c);
      } else if c < k {
        Ordered(g, c, k);
      }
    }
    forall b | 0 <= b < g.log[c].pos
      ensures HasByte(last, g, b)
    {
      var j := CoveredBefore(g, c, b);
      Ordered(g, j, c);
      assert EntryOk(last, g.log[j]);
    }
  }

  /**
   In every run, for any number of threads: the ranges returned in a segment are pairwise
   disjoint and end before its last byte, at most one thread crosses its end, and the mark
   lies outside all ranges and right behind them.
   */
  lemma ReturnedRanges(filesize: nat, threads: set<Thread>, run: seq<Action>, g: nat)
    requires filesize >= 1
    requires g < |Exec(Initial(filesize, threads), run).segs|
    ensures RangesOk(filesize - 1, Exec(Initial(filesize, threads), run).segs[g])
  {
    hide SegmentOk, Apply, RangesOk;
    ReachableInv(filesize, threads, run);
    SameFile(filesize, threads, run);
    RangesOfSegment(filesize - 1, Exec(Initial(filesize, threads), run).segs[g]);
  }

  lemma {:induction false} SameFile(filesize: nat, threads: set<Thread>, run: seq<Action>)
    ensures Exec(Initial(filesize, threads), run).filesize == filesize
  {
    if run != [] {
      SameFile(filesize, threads, run[..|run| - 1]);
      NextKeepsFile(Exec(Initial(filesize, threads), run[..|run| - 1]), run[|run| - 1]);
      hide Next;
    }
  }

  lemma NextKeepsFile(s: State, a: Action)
    ensures Next(s, a).filesize == s.filesize
  {
  }

  /** A request for filesize - 1 bytes passes the size check and yet is never granted. */
  lemma LargestRequestNeverGranted(filesize: nat, threads: set<Thread>, run: seq<Action>, g: nat, k: nat)
    requires filesize >= 1
    requires g < |Exec(Initial(filesize, threads), run).segs|
    requires k < |Exec(Initial(filesize, threads), run).segs[g].log|
    requires Exec(Initial(filesize, threads), run).segs[g].log[k].size == filesize - 1
    ensures Exec(Initial(filesize, threads), run).segs[g].log[k].status != Granted
  {
    hide SegmentOk, Apply, RangesOk;
    ReturnedRanges(filesize, threads, run, g);
    NotTheLargest(filesize - 1, Exec(Initial(filesize, threads), run).segs[g], k);
  }

  /** In the run, entry `k` of segment `g` is a returned range of `n` bytes. */
  predicate GrantedAt(filesize: nat, threads: set<Thread>, n: nat, run: seq<Action>, g: nat, k: nat) {
    var s := Exec(Initial(filesize, threads), run);
    g < |s.segs| && k < |s.segs[g].log| && s.segs[g].log[k].size == n && s.segs[g].log[k].status == Granted
  }

  /** Some run of these threads returns a range of `n` bytes. */
  ghost predicate CanBeGranted(filesize: nat, threads: set<Thread>, n: nat) {
    exists run, g, k :: GrantedAt(filesize, threads, n, run, g, k)
  }

  /** Of the requests that pass the size check exactly those below filesize - 1 can be granted. */
  lemma GrantableIffSmaller(filesize: nat, threads: set<Thread>, n: nat)
    requires filesize >= 1 && threads != {} && n <= filesize - 1
    ensures CanBeGranted(filesize, threads, n) <==> n < filesize - 1
  {
    hide Exec;
    if n < filesize - 1 {
      FirstCallGranted(filesize, threads, n);
    } else if run, g, k :| GrantedAt(filesize, threads, n, run, g, k) {
      LargestRequestNeverGranted(filesize, threads, run, g, k);
    }
  }

  /** A thread that runs alone gets its first request. */
  lemma FirstCallGranted(filesize: nat, threads: set<Thread>, n: nat)
    requires threads != {} && n < filesize - 1
    ensures CanBeGranted(filesize, threads, n)
  {
    hide Inv, Exec, Initial;
    var t :| t in threads;
    var run := [Call(t, n), Load(t), Copy(t), Add(t), Decide(t)];
    var s3 := AloneCopies(filesize, threads, t, n, run);
    var s4 := OneStep(Initial(filesize, threads), run[..3], s3, Add(t), run, 3);
    assert s4.segs[0] == Segment(n, [Entry(0, n, Pending(t))], None) && s4.pcs[t] == Reserved(n, 0, 0, 0);
    var s5 := OneStep(Initial(filesize, threads), run[..4], s4, Decide(t), run, 4);
    assert s5.segs[0].log[0] == Entry(0, n, Granted);
    assert run[..5] == run;
    assert GrantedAt(filesize, threads, n, run, 0, 0);
  }

  lemma AloneCopies(filesize: nat, threads: set<Thread>, t: Thread, n: nat, run: seq<Action>) returns (s: State)
    requires t in threads && n < filesize - 1 && |run| >= 3 && run[..3] == [Call(t, n), Load(t), Copy(t)]
    ensures s == Exec(Initial(filesize, threads), run[..3]) && Inv(s)
    ensures s.filesize == filesize && s.segs == [FRESH_SEGMENT, FRESH_SEGMENT]
    ensures t in s.pcs && s.pcs[t] == Copied(n, 0, 0)
  {
    hide Inv, Apply, Enabled, Shape;
    var s0 := Initial(filesize, threads);
    InitialInv(filesize, threads);
    ShapeOfInv(s0);
    assert s0 == Exec(s0, run[..0]);
    assert t in s0.pcs && s0.pcs[t] == Idle;
    hide Exec;
    assert run[0] == run[..3][0] && run[1] == run[..3][1] && run[2] == run[..3][2];
    CallIs(s0, t, n);
    var s1 := OneStep(s0, run[..0], s0, Call(t, n), run, 0);
    ShapeOfInv(s1);
    LoadIs(s0, s1, t, n);
    var s2 := OneStep(s0, run[..1], s1, Load(t), run, 1);
    ShapeOfInv(s2);
    CopyIs(s0, s2, t, n, s0.idx);
    s := OneStep(s0, run[..2], s2, Copy(t), run, 2);
  }

  lemma CallIs(s: State, t: Thread, n: nat)
    requires Shape(s) && t in s.pcs && s.pcs[t].Idle? && n <= s.filesize - 1
    ensures Enabled(s, Call(t, n)) && Apply(s, Call(t, n)) == s.(pcs := s.pcs[t := Top(n)])
  {
  }

  lemma LoadIs(s0: State, s: State, t: Thread, n: nat)
    requires Shape(s) && s == s0.(pcs := s0.pcs[t := Top(n)])
    ensures Enabled(s, Load(t)) && Apply(s, Load(t)) == s0.(pcs := s0.pcs[t := Loaded(n, s0.idx)])
  {
  }

  lemma CopyIs(s0: State, s: State, t: Thread, n: nat, i: nat)
    requires Shape(s) && s == s0.(pcs := s0.pcs[t := Loaded(n, i)]) && s0.slots[i % 3].Some?
    ensures Enabled(s, Copy(t)) && Apply(s, Copy(t)) == s0.(pcs := s0.pcs[t := Copied(n, i, s0.slots[i % 3].value)])
  {
  }

  /** Action `i` of the run, done in the state that the actions before it lead to. */
  lemma OneStep(s0: State, before: seq<Action>, s: State, a: Action, run: seq<Action>, i: nat) returns (s': State)
    requires i < |run| && before == run[..i] && run[i] == a && s == Exec(s0, before) && Inv(s) && Enabled(s, a)
    ensures Shape(s) && s' == Apply(s, a) && s' == Exec(s0, run[..i + 1]) && Inv(s')
  {
    hide Inv;
    ShapeOfInv(s);
    s' := Apply(s, a);
    StepInv(s, a);
    hide Apply, Enabled;
    assert run[..i + 1][..i] == before;
  }

  lemma NotTheLargest(last: int, g: Segment, k: nat)
    requires RangesOk(last, g) && k < |g.log| && g.log[k].size == last
    ensures g.log[k].status != Granted
  {
  }

  // ---------------------------------------------------------------- the ring of slots

  predicate AfterReset(pc: Pc) { pc.MustRequest? || pc.MustMark? || pc.MustPublish? }
  predicate AfterRequest(pc: Pc) { pc.MustMark? || pc.MustPublish? }

  /** Which thread, if any, is switching segments. */
  type Crosser = Option<Thread>

  /** The oldest segment that is still in its slot. */
  function Lo(s: State, c: Crosser): nat {
    if c.Some? && c.value in s.pcs && AfterReset(s.pcs[c.value]) then s.idx + 1 else s.idx
  }

  /** One when the crossing thread has already asked for a new segment. */
  function Requested(s: State, c: Crosser): nat {
    if c.Some? && c.value in s.pcs && AfterRequest(s.pcs[c.value]) then 1 else 0
  }

  /** How many segments have been put into a slot so far. */
  function Placed(s: State): int {
    if s.prep.Some? then |s.segs| - 1 else |s.segs|
  }

  /** A thread works on the segment whose number it loaded. */
  predicate OnCourse(s: State, pc: Pc) {
    && (pc.Loaded? ==> pc.i <= s.idx)
    && (pc.Copied? || pc.Reserved? ==> pc.g == pc.i <= s.idx)
    && (pc.Copied? || HasEntry(pc) ==> pc.g < Placed(s))
    && (IsCrossing(pc) ==> pc.g == pc.i == s.idx)
  }

  predicate SlotsOk(s: State, lo: int, placed: int) {
    && |s.slots| == 3
    && lo <= placed
    && (forall j :: 0 <= j < 3 && s.slots[j].Some? ==>
          lo <= s.slots[j].value < placed && s.slots[j].value % 3 == j)
    && (forall g :: 0 <= g && lo <= g < placed ==> s.slots[g % 3] == Some(g))
  }

  predicate RingAt(s: State, c: Crosser) {
    && Inv(s)
    && (c.Some? ==> c.value in s.pcs && IsCrossing(s.pcs[c.value]))
    && (forall t :: t in s.pcs && IsCrossing(s.pcs[t]) ==> c == Some(t))
    && (forall t :: t in s.pcs ==> OnCourse(s, s.pcs[t]))
    && SlotsOk(s, Lo(s, c), Placed(s))
    && s.queue + |s.segs| == 2 + s.idx + Requested(s, c)
    && (s.prep.Some? ==> s.prep.value == |s.segs| - 1)
    && s.idx <= |s.segs|
    && (forall g :: 0 <= g < s.idx ==> s.segs[g].mark.Some?)
  }

  ghost predicate Ring(s: State) {
    exists c :: RingAt(s, c)
  }

  /** A slot is copied while the index that led to it is current, or the slot is empty. */
  predicate FreshCopy(s: State, a: Action)
    requires Shape(s)
  {
    a.Copy? && Enabled(s, a) ==> s.slots[s.pcs[a.t].i % 3].None? || s.idx == s.pcs[a.t].i
  }

  lemma InitialRing(filesize: nat, threads: set<Thread>)
    requires filesize >= 1
    ensures RingAt(Initial(filesize, threads), None)
  {
    InitialInv(filesize, threads);
  }

  /** Which thread is crossing after the step. */
  function NextCrosser(s: State, a: Action, c: Crosser): Crosser
    requires Shape(s) && Enabled(s, a)
  {
    if a.Decide? && Judge(LastPos(s), Pos(s, s.pcs[a.t]), s.pcs[a.t].size) == Cross then Some(a.t)
    else if a.Publish? then None
    else c
  }

  /** A thread that finds itself crossing is alone and works on the current segment. */
  lemma CrossesCurrent(s: State, t: Thread, c: Crosser)
    requires RingAt(s, c) && t in s.pcs && s.pcs[t].Reserved?
    requires Judge(LastPos(s), Pos(s, s.pcs[t]), s.pcs[t].size) == Cross
    ensures c.None? && s.pcs[t].g == s.idx
  {
    hide SlotsOk;
    var pc := s.pcs[t];
    assert Owned(s, t) && OnCourse(s, pc);
    var seg := s.segs[pc.g];
    if pc.i < s.idx {
      assert seg.mark.Some?;
      var m :| 0 <= m < |seg.log| && seg.log[m].status == Marked;
      assert EntryOk(LastPos(s), seg.log[m]);
      OneCrossing(LastPos(s), seg, m, pc.k);
    } else if c.Some? {
      var u := s.pcs[c.value];
      assert Owned(s, c.value) && OnCourse(s, u) && PcShape(s, u);
      assert EntryOk(LastPos(s), seg.log[u.k]);
      OneCrossing(LastPos(s), seg, u.k, pc.k);
    }
  }

  /** A thread that is not crossing moves on, and leaves slots, index and queue alone. */
  lemma ThreadMove(s: State, s': State, t: Thread, pc: Pc, c: Crosser)
    requires RingAt(s, c) && Inv(s') && t in s.pcs
    requires s'.slots == s.slots && s'.idx == s.idx && s'.queue == s.queue && s'.prep == s.prep
    requires |s'.segs| == |s.segs| && s'.pcs == s.pcs[t := pc]
    requires forall g :: 0 <= g < s.idx ==> s'.segs[g].mark == s.segs[g].mark
    requires !IsCrossing(s.pcs[t]) && !IsCrossing(pc) && OnCourse(s, pc)
    ensures RingAt(s', c)
  {
    hide Inv;
    SlotsKept(s, s', Lo(s, c), Placed(s));
    hide SlotsOk;
    forall u | u in s'.pcs
      ensures OnCourse(s', s'.pcs[u])
    {
      assert OnCourse(s, s.pcs[u]);
    }
  }

  lemma SlotsKept(s: State, s': State, lo: int, placed: int)
    requires SlotsOk(s, lo, placed) && s'.slots == s.slots
    ensures SlotsOk(s', lo, placed)
  {
  }

  lemma CallRing(s: State, t: Thread, size: nat, c: Crosser)
    requires RingAt(s, c) && Enabled(s, Call(t, size))
    ensures RingAt(Apply(s, Call(t, size)), c)
  {
    StepInv(s, Call(t, size));
    ThreadMove(s, Apply(s, Call(t, size)), t, Top(size), c);
  }

  lemma LoadRing(s: State, t: Thread, c: Crosser)
    requires RingAt(s, c) && Enabled(s, Load(t))
    ensures RingAt(Apply(s, Load(t)), c)
  {
    StepInv(s, Load(t));
    ThreadMove(s, Apply(s, Load(t)), t, Loaded(s.pcs[t].size, s.idx), c);
  }

  /** While the index is current, its slot holds the segment of that number or nothing. */
  lemma CurrentSlot(s: State, c: Crosser)
    requires RingAt(s, c)
    ensures s.slots[s.idx % 3].Some? ==> s.slots[s.idx % 3].value == s.idx
  {
    hide Inv;
    var slot := s.slots[s.idx % 3];
    if slot.Some? {
      assert Lo(s, c) <= slot.value < Placed(s) <= Lo(s, c) + 2;
    }
  }

  lemma CopyRing(s: State, t: Thread, c: Crosser)
    requires RingAt(s, c) && Enabled(s, Copy(t)) && FreshCopy(s, Copy(t))
    ensures RingAt(Apply(s, Copy(t)), c)
  {
    StepInv(s, Copy(t));
    CurrentSlot(s, c);
    hide Inv, SlotsOk;
    assert OnCourse(s, s.pcs[t]);
    ThreadMove(s, Apply(s, Copy(t)), t, Apply(s, Copy(t)).pcs[t], c);
  }

  lemma AddRing(s: State, t: Thread, c: Crosser)
    requires RingAt(s, c) && Enabled(s, Add(t))
    ensures RingAt(Apply(s, Add(t)), c)
  {
    StepInv(s, Add(t));
    assert OnCourse(s, s.pcs[t]) && PcShape(s, s.pcs[t]);
    hide Inv, SlotsOk;
    ThreadMove(s, Apply(s, Add(t)), t, Apply(s, Add(t)).pcs[t], c);
  }

  lemma DecideRing(s: State, t: Thread, c: Crosser)
    requires RingAt(s, c) && Enabled(s, Decide(t))
    ensures RingAt(Apply(s, Decide(t)), NextCrosser(s, Decide(t), c))
  {
    hide Inv, SlotsOk;
    ShapeOfInv(s);
    StepInv(s, Decide(t));
    InvShape(s, t);
    var s' := Apply(s, Decide(t));
    assert OnCourse(s, s.pcs[t]);
    if s'.pcs[t].MustReset? {
      CrossesCurrent(s, t, c);
      StartsCrossing(s, s', t);
    } else {
      ThreadMove(s, s', t, s'.pcs[t], c);
    }
  }

  lemma StartsCrossing(s: State, s': State, t: Thread)
    requires RingAt(s, None) && Inv(s') && t in s.pcs && s.pcs[t].Reserved? && s.pcs[t].g == s.idx
    requires s'.slots == s.slots && s'.idx == s.idx && s'.queue == s.queue && s'.prep == s.prep
    requires |s'.segs| == |s.segs| && t in s'.pcs && s'.pcs == s.pcs[t := s'.pcs[t]]
    requires forall g :: 0 <= g < s.idx ==> s'.segs[g].mark == s.segs[g].mark
    requires s'.pcs[t].MustReset? && s'.pcs[t].g == s.pcs[t].g && s'.pcs[t].i == s.pcs[t].i
    ensures RingAt(s', Some(t))
  {
    hide Inv;
    SlotsKept(s, s', Lo(s, None), Placed(s));
    hide SlotsOk;
    forall u | u in s'.pcs
      ensures OnCourse(s', s'.pcs[u])
    {
      assert OnCourse(s, s.pcs[u]);
    }
  }

  /** The crossing thread takes a step: it stays the only one, and the others are not touched. */
  lemma CrosserMove(s: State, s': State, t: Thread)
    requires RingAt(s, Some(t)) && s'.idx == s.idx && s'.pcs.Keys == s.pcs.Keys && Placed(s') == Placed(s)
    requires forall u :: u in s.pcs && u != t ==> s'.pcs[u] == s.pcs[u]
    requires IsCrossing(s'.pcs[t]) && s'.pcs[t].g == s.pcs[t].g && s'.pcs[t].i == s.pcs[t].i
    ensures forall u :: u in s'.pcs && IsCrossing(s'.pcs[u]) ==> u == t
    ensures forall u :: u in s'.pcs ==> OnCourse(s', s'.pcs[u])
  {
    hide Inv, SlotsOk;
    forall u | u in s'.pcs
      ensures OnCourse(s', s'.pcs[u])
    {
      assert OnCourse(s, s.pcs[u]);
    }
  }

  lemma ResetRing(s: State, t: Thread, c: Crosser)
    requires RingAt(s, c) && Enabled(s, Reset(t))
    ensures RingAt(Apply(s, Reset(t)), c)
  {
    hide Inv, SlotsOk;
    ShapeOfInv(s);
    StepInv(s, Reset(t));
    var s' := Apply(s, Reset(t));
    assert c == Some(t) && OnCourse(s, s.pcs[t]) && PcShape(s, s.pcs[t]);
    CrosserMove(s, s', t);
    ResetSlots(s, t);
    SlotsKept(s.(slots := s.slots[s.idx % 3 := None]), s', s.idx + 1, Placed(s));
  }

  lemma ResetSlots(s: State, t: Thread)
    requires RingAt(s, Some(t)) && s.pcs[t].MustReset?
    ensures SlotsOk(s.(slots := s.slots[s.idx % 3 := None]), s.idx + 1, Placed(s))
  {
    assert OnCourse(s, s.pcs[t]);
    hide Inv;
    CurrentSlot(s, Some(t));
    assert Placed(s) <= s.idx + 2;
    var s' := s.(slots := s.slots[s.idx % 3 := None]);
    forall g | 0 <= g && s.idx + 1 <= g < Placed(s)
      ensures s'.slots[g % 3] == Some(g)
    {
      assert g == s.idx + 1;
      assert s.slots[g % 3] == Some(g);
    }
  }

  lemma RequestRing(s: State, t: Thread, c: Crosser)
    requires RingAt(s, c) && Enabled(s, Request(t))
    ensures RingAt(Apply(s, Request(t)), c)
  {
    hide Inv, SlotsOk;
    ShapeOfInv(s);
    StepInv(s, Request(t));
    var s' := Apply(s, Request(t));
    assert c == Some(t);
    SlotsKept(s, s', Lo(s, c), Placed(s));
    CrosserMove(s, s', t);
  }

  lemma MarkRing(s: State, t: Thread, c: Crosser)
    requires RingAt(s, c) && Enabled(s, Mark(t))
    ensures RingAt(Apply(s, Mark(t)), c)
  {
    hide Inv, SlotsOk;
    ShapeOfInv(s);
    StepInv(s, Mark(t));
    InvShape(s, t);
    var s' := Apply(s, Mark(t));
    assert c == Some(t);
    SlotsKept(s, s', Lo(s, c), Placed(s));
    CrosserMove(s, s', t);
  }

  /** Publishing raises the index by exactly one and ends the crossing. */
  lemma PublishRing(s: State, t: Thread, c: Crosser)
    requires RingAt(s, c) && Enabled(s, Publish(t))
    ensures RingAt(Apply(s, Publish(t)), None)
    ensures Apply(s, Publish(t)).idx == s.idx + 1
  {
    hide Inv, SlotsOk;
    ShapeOfInv(s);
    StepInv(s, Publish(t));
    MarkWritten(s, t);
    var s' := Apply(s, Publish(t));
    assert c == Some(t) && OnCourse(s, s.pcs[t]);
    SlotsKept(s, s', Lo(s, c), Placed(s));
    forall u | u in s'.pcs
      ensures OnCourse(s', s'.pcs[u]) && !IsCrossing(s'.pcs[u])
    {
      assert OnCourse(s, s.pcs[u]);
    }
  }

  lemma MarkWritten(s: State, t: Thread)
    requires Inv(s) && t in s.pcs && s.pcs[t].MustPublish?
    ensures PcShape(s, s.pcs[t]) && s.segs[s.pcs[t].g].mark.Some?
  {
    assert PcShape(s, s.pcs[t]) && Owned(s, t);
    assert SegmentOk(LastPos(s), s.segs[s.pcs[t].g]);
  }

  lemma PrepMakeRing(s: State, c: Crosser)
    requires RingAt(s, c) && Enabled(s, PrepMake)
    ensures RingAt(Apply(s, PrepMake), c)
  {
    hide Inv, SlotsOk;
    ShapeOfInv(s);
    StepInv(s, PrepMake);
    var s' := Apply(s, PrepMake);
    SlotsKept(s, s', Lo(s, c), Placed(s));
    forall u | u in s'.pcs
      ensures OnCourse(s', s'.pcs[u])
    {
      assert OnCourse(s, s.pcs[u]);
    }
  }

  /** The segment that was made goes into an empty slot. */
  lemma PreparedSlotEmpty(s: State, c: Crosser)
    requires RingAt(s, c) && s.prep.Some?
    ensures s.slots[s.prep.value % 3].None?
  {
    hide Inv;
    var slot := s.slots[s.prep.value % 3];
    assert Placed(s) + 1 <= Lo(s, c) + 2;
  }

  lemma PrepSwapRing(s: State, c: Crosser)
    requires RingAt(s, c) && Enabled(s, PrepSwap)
    ensures RingAt(Apply(s, PrepSwap), c)
  {
    StepInv(s, PrepSwap);
    PreparedSlotEmpty(s, c);
    hide Inv;
    var s' := Apply(s, PrepSwap);
    SwapSlots(s, c);
    hide SlotsOk;
    forall u | u in s'.pcs
      ensures OnCourse(s', s'.pcs[u])
    {
      assert OnCourse(s, s.pcs[u]);
    }
  }

  lemma SwapSlots(s: State, c: Crosser)
    requires RingAt(s, c) && s.prep.Some?
    ensures SlotsOk(s.(slots := s.slots[s.prep.value % 3 := s.prep], prep := None), Lo(s, c), Placed(s) + 1)
  {
    PreparedSlotEmpty(s, c);
    hide Inv;
    var s' := s.(slots := s.slots[s.prep.value % 3 := s.prep], prep := None);
    forall g | 0 <= g && Lo(s, c) <= g < Placed(s) + 1
      ensures s'.slots[g % 3] == Some(g)
    {
      if g < Placed(s) {
        assert s.slots[g % 3] == Some(g);
      }
    }
  }

  lemma StepRing(s: State, a: Action, c: Crosser)
    requires RingAt(s, c) && Enabled(s, a) && FreshCopy(s, a)
    ensures RingAt(Apply(s, a), NextCrosser(s, a, c))
    ensures Apply(s, a).idx == if a.Publish? then s.idx + 1 else s.idx
  {
    hide RingAt;
    match a
    case Call(t, size) => CallRing(s, t, size, c);
    case Load(t) => LoadRing(s, t, c);
    case Copy(t) => CopyRing(s, t, c);
    case Add(t) => AddRing(s, t, c);
    case Decide(t) => DecideRing(s, t, c);
    case Reset(t) => ResetRing(s, t, c);
    case Request(t) => RequestRing(s, t, c);
    case Mark(t) => MarkRing(s, t, c);
    case Publish(t) => PublishRing(s, t, c);
    case PrepMake => PrepMakeRing(s, c);
    case PrepSwap => PrepSwapRing(s, c);
  }

  /** In every state of the run, slots are copied only while the loaded index is current. */
  predicate FreshRun(s: State, run: seq<Action>) {
    run != [] ==>
      var before := Exec(s, run[..|run| - 1]);
      && FreshRun(s, run[..|run| - 1])
      && (Shape(before) ==> FreshCopy(before, run[|run| - 1]))
  }

  /**
   In every such run the ring holds: at most one thread is crossing, each thread works on
   the segment it loaded, and the slots hold the current segments.
   */
  lemma {:induction false} FreshRunKeepsRing(filesize: nat, threads: set<Thread>, run: seq<Action>)
    requires filesize >= 1 && FreshRun(Initial(filesize, threads), run)
    ensures Ring(Exec(Initial(filesize, threads), run))
  {
    hide RingAt, Apply;
    var init := Initial(filesize, threads);
    if run == [] {
      InitialRing(filesize, threads);
    } else {
      FreshRunKeepsRing(filesize, threads, run[..|run| - 1]);
      var s, a := Exec(init, run[..|run| - 1]), run[|run| - 1];
      if Shape(s) && Enabled(s, a) {
        var c :| RingAt(s, c);
        StepRing(s, a, c);
      }
    }
  }

  /** The index moves only when a crossing is published, and then by one. */
  lemma IndexRisesByOne(s: State, a: Action)
    requires Ring(s) && Shape(s) && Enabled(s, a) && FreshCopy(s, a)
    ensures Ring(Apply(s, a))
    ensures Apply(s, a).idx == if a.Publish? then s.idx + 1 else s.idx
  {
    hide RingAt, Apply;
    var c :| RingAt(s, c);
    StepRing(s, a, c);
  }

  /** At most one thread is between its crossing fetch_add and the publication. */
  lemma OneThreadCrosses(s: State, t: Thread, u: Thread)
    requires Ring(s) && t in s.pcs && u in s.pcs && IsCrossing(s.pcs[t]) && IsCrossing(s.pcs[u])
    ensures t == u
  {
    var c :| RingAt(s, c);
    hide Inv, SlotsOk;
  }

  function Full(s: State): nat
    requires |s.slots| == 3
  {
    (if s.slots[0].Some? then 1 else 0) + (if s.slots[1].Some? then 1 else 0) + (if s.slots[2].Some? then 1 else 0)
  }

  /** A thread has emptied its slot and is about to ask for a new segment. */
  predicate AboutToRequest(s: State) {
    exists t :: t in s.pcs && s.pcs[t].MustRequest?
  }

  /** Full slots and outstanding preparations add up to two. */
  lemma SlotsConserved(s: State)
    requires Ring(s)
    ensures |s.slots| == 3
    ensures Full(s) + s.queue + (if s.prep.Some? then 1 else 0) + (if AboutToRequest(s) then 1 else 0) == 2
  {
    var c :| RingAt(s, c);
    hide Inv;
    FullIsRange(s, Lo(s, c), Placed(s));
    hide SlotsOk;
    if c.Some? && s.pcs[c.value].MustRequest? {
      assert AboutToRequest(s);
    }
  }

  lemma FullIsRange(s: State, lo: int, placed: int)
    requires SlotsOk(s, lo, placed) && 0 <= lo && placed <= lo + 2
    ensures Full(s) == placed - lo
  {
    assert forall g :: 0 <= g && lo <= g < placed ==> s.slots[g % 3] == Some(g);
    assert lo < placed ==> s.slots[lo % 3] == Some(lo);
    assert lo + 1 < placed ==> s.slots[(lo + 1) % 3] == Some(lo + 1);
  }

  /** The assertion in prep_next_segment holds. */
  lemma PreparationFindsSlotEmpty(s: State)
    requires Ring(s) && s.prep.Some?
    ensures |s.slots| == 3 && s.slots[s.prep.value % 3].None?
  {
    var c :| RingAt(s, c);
    PreparedSlotEmpty(s, c);
  }

  /** A copy keeps the ring exactly if it is fresh. */
  lemma RingIffFreshCopy(s: State, t: Thread)
    requires Ring(s) && Shape(s) && Enabled(s, Copy(t))
    ensures Ring(Apply(s, Copy(t))) <==> FreshCopy(s, Copy(t))
  {
    if FreshCopy(s, Copy(t)) {
      IndexRisesByOne(s, Copy(t));
    } else {
      var c :| RingAt(s, c);
      hide Inv;
      var s' := Apply(s, Copy(t));
      assert OnCourse(s, s.pcs[t]);
      assert s'.pcs[t].g >= Lo(s, c) > s.pcs[t].i;
      assert !OnCourse(s', s'.pcs[t]);
    }
  }

  // ---------------------------------------------------------------- load and copy as one step

  /** In the run every load of the index is followed at once by the copy of the slot. */
  predicate Together(run: seq<Action>) {
    && (forall n :: 0 <= n < |run| && run[n].Copy? ==> n > 0 && run[n - 1] == Load(run[n].t))
    && (forall n :: 0 <= n < |run| - 1 && run[n].Load? ==> run[n + 1] == Copy(run[n].t))
  }

  /** Only the thread that has just loaded the index is between load and copy. */
  predicate JustLoaded(s: State, run: seq<Action>) {
    forall t :: t in s.pcs && s.pcs[t].Loaded? ==>
      s.pcs[t].i == s.idx && run != [] && run[|run| - 1] == Load(t)
  }

  /** Taking load and copy as one step is enough for the ring. */
  lemma {:induction false} TogetherIsFresh(filesize: nat, threads: set<Thread>, run: seq<Action>)
    requires filesize >= 1 && Together(run)
    ensures FreshRun(Initial(filesize, threads), run)
    ensures JustLoaded(Exec(Initial(filesize, threads), run), run)
  {
    hide Inv, Apply, FreshCopy;
    var s := Initial(filesize, threads);
    if run != [] {
      var prefix, a := run[..|run| - 1], run[|run| - 1];
      TogetherIsFresh(filesize, threads, prefix);
      ReachableInv(filesize, threads, prefix);
      var before := Exec(s, prefix);
      ShapeOfInv(before);
      assert prefix != [] ==> run[|run| - 2] == prefix[|prefix| - 1];
      assert prefix + [a] == run;
      LoadedStep(before, prefix, a);
    }
  }

  /**
   Every run in which load and copy are one step, with any threads: at most one thread is
   crossing, full slots and outstanding preparations add up to two, a preparation finds its
   slot empty, and the next step moves the index only by publishing, and then by one.
   */
  lemma AtomicRuns(filesize: nat, threads: set<Thread>, run: seq<Action>, a: Action)
    requires filesize >= 1 && Together(run + [a])
    ensures var s := Exec(Initial(filesize, threads), run);
            && Shape(s)
            && (forall t, u :: t in s.pcs && u in s.pcs && IsCrossing(s.pcs[t]) && IsCrossing(s.pcs[u]) ==> t == u)
            && Full(s) + s.queue + (if s.prep.Some? then 1 else 0) + (if AboutToRequest(s) then 1 else 0) == 2
            && (s.prep.Some? ==> s.slots[s.prep.value % 3].None?)
            && Next(s, a).idx == if Enabled(s, a) && a.Publish? then s.idx + 1 else s.idx
  {
    hide Ring, RingAt, Apply, Full, AboutToRequest, FreshCopy;
    assert (run + [a])[..|run|] == run;
    var s := Exec(Initial(filesize, threads), run);
    TogetherIsFresh(filesize, threads, run + [a]);
    FreshPrefix(Initial(filesize, threads), run, a);
    FreshRunKeepsRing(filesize, threads, run);
    ReachableInv(filesize, threads, run);
    ShapeOfInv(s);
    forall t, u | t in s.pcs && u in s.pcs && IsCrossing(s.pcs[t]) && IsCrossing(s.pcs[u])
      ensures t == u
    {
      OneThreadCrosses(s, t, u);
    }
    SlotsConserved(s);
    if s.prep.Some? {
      PreparationFindsSlotEmpty(s);
    }
    if Enabled(s, a) {
      IndexRisesByOne(s, a);
    }
  }

  lemma FreshPrefix(s: State, run: seq<Action>, a: Action)
    requires FreshRun(s, run + [a])
    ensures FreshRun(s, run) && (Shape(Exec(s, run)) ==> FreshCopy(Exec(s, run), a))
  {
    assert (run + [a])[..|run + [a]| - 1] == run;
  }

  lemma ShapeOfInv(s: State)
    requires Inv(s)
    ensures Shape(s)
  {
  }

  lemma LoadedStep(s: State, prefix: seq<Action>, a: Action)
    requires Shape(s) && JustLoaded(s, prefix)
    requires a.Copy? ==> prefix != [] && prefix[|prefix| - 1] == Load(a.t)
    requires prefix != [] && prefix[|prefix| - 1].Load? ==> a == Copy(prefix[|prefix| - 1].t)
    ensures FreshCopy(s, a) && JustLoaded(Next(s, a), prefix + [a])
  {
  }

  // ---------------------------------------------------------------- why the ring needs it

  /** Two threads and segments of two bytes, so that every one-byte request crosses. */
  const TINY := Initial(2, {0, 1})

  /** One more step of a run from the tiny state. */
  lemma Extend(run: seq<Action>, s: State, a: Action) returns (run': seq<Action>, s': State)
    requires s == Exec(TINY, run) && Inv(s) && Enabled(s, a)
    ensures run' == run + [a] && s' == Apply(s, a) && s' == Exec(TINY, run') && Inv(s')
  {
    hide Inv, Apply, Exec, Enabled;
    run' := run + [a];
    assert run'[..|run|] == run && run'[..|run'|] == run';
    s' := OneStep(TINY, run, s, a, run', |run|);
  }

  /** A thread that holds an unused segment adds its byte and finds itself crossing. */
  lemma CrossUnused(run: seq<Action>, s: State, t: Thread) returns (run': seq<Action>, s': State, seg: Segment)
    requires s == Exec(TINY, run) && Inv(s) && s.filesize == 2
    requires t in s.pcs && s.pcs[t].Copied? && s.pcs[t].size == 1
    requires s.pcs[t].g < |s.segs| && s.segs[s.pcs[t].g] == FRESH_SEGMENT
    ensures run <= run' && s' == Exec(TINY, run') && Inv(s')
    ensures s' == s.(segs := s.segs[s.pcs[t].g := seg], pcs := s.pcs[t := MustReset(1, s.pcs[t].i, s.pcs[t].g, 0)])
  {
    hide Inv, Exec;
    var r1, s1 := Extend(run, s, Add(t));
    ShapeOfInv(s1);
    assert s1.pcs[t] == Reserved(1, s.pcs[t].i, s.pcs[t].g, 0);
    run', s' := Extend(r1, s1, Decide(t));
    seg := s'.segs[s.pcs[t].g];
    assert s'.pcs == s.pcs[t := s'.pcs[t]];
  }

  /** The crossing sequence empties the slot of the loaded index and publishes its successor. */
  lemma FinishCrossing(run: seq<Action>, s: State, t: Thread) returns (run': seq<Action>, s': State, seg: Segment)
    requires s == Exec(TINY, run) && Inv(s)
    requires t in s.pcs && s.pcs[t].MustReset? && s.pcs[t].g < |s.segs|
    ensures run <= run' && s' == Exec(TINY, run') && Inv(s')
    ensures s' == s.(segs := s.segs[s.pcs[t].g := seg], slots := s.slots[s.pcs[t].i % 3 := None],
                                   queue := s.queue + 1, idx := s.pcs[t].i + 1, pcs := s.pcs[t := Top(s.pcs[t].size)])
  {
    hide Inv, Exec;
    ShapeOfInv(s);
    var r1, s1 := Extend(run, s, Reset(t));
    var r2, s2 := Extend(r1, s1, Request(t));
    ShapeOfInv(s2);
    var r3, s3 := Extend(r2, s2, Mark(t));
    run', s' := Extend(r3, s3, Publish(t));
    seg := s3.segs[s.pcs[t].g];
    assert s'.pcs == s.pcs[t := Top(s.pcs[t].size)];
  }

  /** A whole lap of thread `t` through the current segment, and the preparation it asks for. */
  lemma Lap(run: seq<Action>, s: State, t: Thread) returns (run': seq<Action>, s': State, seg: Segment)
    requires s == Exec(TINY, run) && Inv(s) && s.filesize == 2 && s.queue == 0 && s.prep == None
    requires t in s.pcs && s.pcs[t] == Top(1) && |s.slots| == 3
    requires s.slots[s.idx % 3] == Some(s.idx) && s.idx < |s.segs| && s.segs[s.idx] == FRESH_SEGMENT
    ensures run <= run' && s' == Exec(TINY, run') && Inv(s')
    ensures s' == s.(segs := s.segs[s.idx := seg] + [FRESH_SEGMENT],
                                   slots := s.slots[s.idx % 3 := None][|s.segs| % 3 := Some(|s.segs|)], idx := s.idx + 1)
  {
    hide Inv, Exec;
    var r1, s1 := Extend(run, s, Load(t));
    ShapeOfInv(s1);
    var r2, s2 := Extend(r1, s1, Copy(t));
    var r3, s3, _ := CrossUnused(r2, s2, t);
    var r4, s4, last := FinishCrossing(r3, s3, t);
    seg := last;
    var r5, s5 := Extend(r4, s4, PrepMake);
    ShapeOfInv(s5);
    run', s' := Extend(r5, s5, PrepSwap);
    assert s'.pcs == s.pcs;
    assert s'.segs == s.segs[s.idx := seg] + [FRESH_SEGMENT];
  }

  /**
   With load and copy as separate steps the ring can break: a thread that loads index 0 and
   sleeps while the index goes to 2 copies segment 3 from slot 0, and sets the index back to 1.
   */
  lemma IndexCanMoveBack() returns (run: seq<Action>, more: seq<Action>)
    ensures run <= more && Exec(TINY, run).idx == 2 && Exec(TINY, more).idx == 1
  {
    hide Inv, Exec;
    InitialInv(2, {0, 1});
    assert Exec(TINY, []) == TINY by { ExecNothing(); }
    var r, s := Extend([], TINY, Call(0, 1));
    r, s := Extend(r, s, Load(0));
    r, s := Extend(r, s, Call(1, 1));
    assert s.pcs == map[0 := Loaded(1, 0), 1 := Top(1)];
    var seg;
    r, s, seg := Lap(r, s, 1);
    assert s.idx == 1 && s.slots == [None, Some(1), Some(2)] && |s.segs| == 3 && s.segs[1] == FRESH_SEGMENT;
    r, s, seg := Lap(r, s, 1);
    assert s.idx == 2 && s.slots == [Some(3), None, Some(2)] && |s.segs| == 4 && s.segs[3] == FRESH_SEGMENT;
    run := r;
    assert s.pcs[0] == Loaded(1, 0);
    r, s := Extend(r, s, Copy(0));
    assert s.pcs[0] == Copied(1, 0, 3);
    r, s, seg := CrossUnused(r, s, 0);
    r, s, seg := FinishCrossing(r, s, 0);
    more := r;
  }

  lemma ExecNothing()
    ensures Exec(TINY, []) == TINY
  {
  }
}
