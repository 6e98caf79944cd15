/**
 What a call of segmented_log_buffer::reserve obtains (benchmarks/audit_buffer.hpp): over every
 run of every set of threads, finished calls and granted ranges correspond one to one.
 */
module AuditCalls {
  import opened AuditBuffer

  // ---------------------------------------------------------------- what has become of a range

  /** The status of an entry that its thread has looked at follows from the range alone. */
  predicate DecidedBy(last: int, e: Entry) {
    !e.status.Pending? ==>
      && (e.status == Granted <==> e.pos + e.size < last)
      && (e.status.Crossing? || e.status == Marked <==> e.pos < last <= e.pos + e.size)
      && (e.status == Beyond <==> e.pos >= last)
  }

  /** In every run: a range is granted, crosses or is beyond the end just as its bytes lie. */
  lemma DecidedByRange(filesize: nat, threads: set<Thread>, run: seq<Action>, g: nat, k: nat)
    requires filesize >= 1
    requires g < |Exec(Initial(filesize, threads), run).segs|
    requires k < |Exec(Initial(filesize, threads), run).segs[g].log|
    ensures var s := Exec(Initial(filesize, threads), run);
            && DecidedBy(filesize - 1, s.segs[g].log[k])
            && (s.segs[g].log[k].status == Marked ==> s.segs[g].mark == Some(s.segs[g].log[k].pos))
  {
    hide Exec;
    ReachableInv(filesize, threads, run);
    SameFile(filesize, threads, run);
    SegmentOfInv(Exec(Initial(filesize, threads), run), g);
  }

  lemma SegmentOfInv(s: State, g: nat)
    requires Inv(s) && g < |s.segs|
    ensures SegmentOk(s.filesize - 1, s.segs[g])
  {
  }

  // ---------------------------------------------------------------- one step

  /** The size that a thread inside reserve has asked for. */
  function Asked(pc: Pc): nat
    requires !pc.Idle?
  {
    pc.size
  }

  /** The step gives thread `t` the range of its own entry: exactly the size it asked for. */
  predicate Grants(s: State, s': State, t: Thread)
    requires t in s.pcs
  {
    var pc := s.pcs[t];
    && HasEntry(pc) && PcShape(s, pc) && |s'.segs| == |s.segs| && |s'.segs[pc.g].log| == |s.segs[pc.g].log|
    && var e, e' := s.segs[pc.g].log[pc.k], s'.segs[pc.g].log[pc.k];
       && e.status == Pending(t) && e' == e.(status := Granted)
       && e.size == pc.size && e.pos + e.size < s.filesize - 1
  }

  /**
   A thread inside reserve stays inside with the same size, whoever takes the step; it leaves
   only by being granted a range of that size.
   */
  lemma StaysInsideOrIsGranted(s: State, a: Action, t: Thread)
    requires Inv(s) && Enabled(s, a) && t in s.pcs && !s.pcs[t].Idle?
    ensures var s' := Apply(s, a);
            && t in s'.pcs
            && (!s'.pcs[t].Idle? ==> Asked(s'.pcs[t]) == Asked(s.pcs[t]))
            && (s'.pcs[t].Idle? ==> a == Decide(t) && Grants(s, s', t))
  {
    hide Inv;
    ShapeOfInv(s);
    InvShape(s, t);
    hide SegmentOk;
  }

  /** A call begins only from outside. */
  lemma BeginsOutside(s: State, a: Action, t: Thread)
    requires Inv(s) && Enabled(s, a) && t in s.pcs && s.pcs[t].Idle?
    ensures t in Apply(s, a).pcs
    ensures Apply(s, a).pcs[t] == if a.Call? && a.t == t then Top(a.size) else Idle
  {
    hide Inv;
    ShapeOfInv(s);
  }

  // ---------------------------------------------------------------- all granted ranges

  /** How many ranges of `n` bytes the log has granted. */
  function GrantedIn(log: seq<Entry>, n: nat): nat {
    if log == [] then 0
    else
      var e := log[|log| - 1];
      GrantedIn(log[..|log| - 1], n) + if e.status == Granted && e.size == n then 1 else 0
  }

  function GrantedRanges(segs: seq<Segment>, n: nat): nat {
    if segs == [] then 0 else GrantedRanges(segs[..|segs| - 1], n) + GrantedIn(segs[|segs| - 1].log, n)
  }

  lemma GrantedInSnoc(log: seq<Entry>, e: Entry, n: nat)
    ensures GrantedIn(log + [e], n) == GrantedIn(log, n) + if e.status == Granted && e.size == n then 1 else 0
  {
    assert (log + [e])[..|log|] == log;
  }

  lemma {:induction false} GrantedInSet(log: seq<Entry>, k: nat, st: Status, n: nat)
    requires k < |log| && log[k].status != Granted
    ensures GrantedIn(log[k := log[k].(status := st)], n)
            == GrantedIn(log, n) + if st == Granted && log[k].size == n then 1 else 0
    decreases |log|
  {
    var last := |log| - 1;
    var init, log' := log[..last], log[k := log[k].(status := st)];
    assert log == init + [log[last]] && log' == log'[..last] + [log'[last]];
    GrantedInSnoc(init, log[last], n);
    GrantedInSnoc(log'[..last], log'[last], n);
    hide GrantedIn;
    if k == last {
      assert log'[..last] == init;
    } else {
      GrantedInSet(init, k, st, n);
      assert log'[..last] == init[k := init[k].(status := st)];
    }
  }

  lemma {:induction false} GrantedRangesSet(segs: seq<Segment>, g: nat, seg: Segment, more: int, n: nat)
    requires g < |segs| && GrantedIn(seg.log, n) == GrantedIn(segs[g].log, n) + more
    ensures GrantedRanges(segs[g := seg], n) == GrantedRanges(segs, n) + more
    decreases |segs|
  {
    hide GrantedIn;
    var last := |segs| - 1;
    if g == last {
      assert segs[g := seg][..last] == segs[..last];
    } else {
      GrantedRangesSet(segs[..last], g, seg, more, n);
      assert segs[g := seg][..last] == segs[..last][g := seg];
    }
  }

  lemma GrantedRangesAdd(segs: seq<Segment>, n: nat)
    ensures GrantedRanges(segs + [FRESH_SEGMENT], n) == GrantedRanges(segs, n)
  {
    assert (segs + [FRESH_SEGMENT])[..|segs|] == segs;
  }

  /** Whether the step finishes a call for `n` bytes. */
  predicate Finishes(s: State, a: Action, n: nat) {
    && Shape(s) && Enabled(s, a) && !a.PrepMake? && !a.PrepSwap?
    && a.t in s.pcs && !s.pcs[a.t].Idle? && Asked(s.pcs[a.t]) == n
    && a.t in Apply(s, a).pcs && Apply(s, a).pcs[a.t].Idle?
  }

  /** A step grants a range exactly if it finishes a call for that many bytes. */
  lemma StepGrants(s: State, a: Action, n: nat)
    requires Inv(s) && Enabled(s, a)
    ensures Shape(s)
    ensures GrantedRanges(Apply(s, a).segs, n) == GrantedRanges(s.segs, n) + if Finishes(s, a, n) then 1 else 0
  {
    hide Inv, GrantedRanges, GrantedIn;
    ShapeOfInv(s);
    match a {
      case Add(t) =>
        InvShape(s, t);
        var pc := s.pcs[t];
        var seg := s.segs[pc.g];
        var e := Entry(seg.offset, pc.size, Pending(t));
        GrantedInSnoc(seg.log, e, n);
        GrantedRangesSet(s.segs, pc.g, seg.(offset := seg.offset + pc.size, log := seg.log + [e]), 0, n);
      case Decide(t) =>
        InvShape(s, t);
        DecideGrants(s, t, n);
      case Mark(t) =>
        InvShape(s, t);
        var pc := s.pcs[t];
        GrantedInSet(s.segs[pc.g].log, pc.k, Marked, n);
        GrantedRangesSet(s.segs, pc.g, Apply(s, a).segs[pc.g], 0, n);
      case PrepMake =>
        GrantedRangesAdd(s.segs, n);
      case _ =>
    }
  }

  lemma DecideGrants(s: State, t: Thread, n: nat)
    requires Inv(s) && Shape(s) && Enabled(s, Decide(t))
    ensures GrantedRanges(Apply(s, Decide(t)).segs, n)
            == GrantedRanges(s.segs, n) + if Finishes(s, Decide(t), n) then 1 else 0
  {
    hide Inv, GrantedRanges, GrantedIn, SegmentOk;
    InvShape(s, t);
    var pc := s.pcs[t];
    var s' := Apply(s, Decide(t));
    var st := s'.segs[pc.g].log[pc.k].status;
    GrantedInSet(s.segs[pc.g].log, pc.k, st, n);
    GrantedRangesSet(s.segs, pc.g, s'.segs[pc.g], if st == Granted && pc.size == n then 1 else 0, n);
  }

  // ---------------------------------------------------------------- whole runs

  /** How many calls for `n` bytes have finished in the run. */
  function FinishedCalls(s: State, run: seq<Action>, n: nat): nat {
    if run == [] then 0
    else
      var prefix := run[..|run| - 1];
      FinishedCalls(s, prefix, n) + if Finishes(Exec(s, prefix), run[|run| - 1], n) then 1 else 0
  }

  /** In every run, for every size, as many calls have finished as ranges of that size are granted. */
  lemma {:induction false} FinishedCallsAreGranted(filesize: nat, threads: set<Thread>, run: seq<Action>, n: nat)
    requires filesize >= 1
    ensures var init := Initial(filesize, threads);
            FinishedCalls(init, run, n) == GrantedRanges(Exec(init, run).segs, n)
    decreases |run|
  {
    hide Inv, Apply, Enabled, Finishes;
    var init := Initial(filesize, threads);
    if run == [] {
      NothingGranted(n);
    } else {
      var prefix, a := run[..|run| - 1], run[|run| - 1];
      FinishedCallsAreGranted(filesize, threads, prefix, n);
      ReachableInv(filesize, threads, prefix);
      var s := Exec(init, prefix);
      ShapeOfInv(s);
      if Enabled(s, a) {
        StepGrants(s, a, n);
      } else {
        NothingFinished(s, a, n);
      }
    }
  }

  lemma NothingFinished(s: State, a: Action, n: nat)
    requires Shape(s) && !Enabled(s, a)
    ensures !Finishes(s, a, n)
  {
  }

  lemma NothingGranted(n: nat)
    ensures GrantedRanges([FRESH_SEGMENT, FRESH_SEGMENT], n) == 0
  {
    assert [FRESH_SEGMENT] == [] + [FRESH_SEGMENT];
    assert [FRESH_SEGMENT, FRESH_SEGMENT] == [FRESH_SEGMENT] + [FRESH_SEGMENT];
    GrantedRangesAdd([], n);
    GrantedRangesAdd([FRESH_SEGMENT], n);
  }

  /** How many calls the thread has begun, and how many it has finished. */
  function Begun(s: State, run: seq<Action>, t: Thread): nat {
    if run == [] then 0
    else
      var before, a := Exec(s, run[..|run| - 1]), run[|run| - 1];
      Begun(s, run[..|run| - 1], t) + if Shape(before) && Enabled(before, a) && a.Call? && a.t == t then 1 else 0
  }

  function Ended(s: State, run: seq<Action>, t: Thread): nat {
    if run == [] then 0
    else
      var before, a := Exec(s, run[..|run| - 1]), run[|run| - 1];
      Ended(s, run[..|run| - 1], t)
      + if t in before.pcs && t in Next(before, a).pcs && !before.pcs[t].Idle? && Next(before, a).pcs[t].Idle? then 1 else 0
  }

  /** Each call of a thread is followed by at most one finish of its own, and is inside until then. */
  lemma {:induction false} OneFinishPerCall(filesize: nat, threads: set<Thread>, run: seq<Action>, t: Thread)
    requires filesize >= 1 && t in threads
    ensures var init := Initial(filesize, threads);
            var s := Exec(init, run);
            t in s.pcs && Begun(init, run, t) == Ended(init, run, t) + if s.pcs[t].Idle? then 0 else 1
    decreases |run|
  {
    hide Inv, Apply, Enabled;
    var init := Initial(filesize, threads);
    if run != [] {
      var prefix, a := run[..|run| - 1], run[|run| - 1];
      OneFinishPerCall(filesize, threads, prefix, t);
      ReachableInv(filesize, threads, prefix);
      var s := Exec(init, prefix);
      ShapeOfInv(s);
      if Enabled(s, a) {
        if s.pcs[t].Idle? {
          BeginsOutside(s, a, t);
          CallsFromOutside(s, a, t);
        } else {
          StaysInsideOrIsGranted(s, a, t);
          CallsFromOutside(s, a, t);
        }
      }
    }
  }

  lemma CallsFromOutside(s: State, a: Action, t: Thread)
    requires Shape(s) && Enabled(s, a) && t in s.pcs
    ensures a.Call? && a.t == t ==> s.pcs[t].Idle?
  {
  }
}
