/**
 * When the log of an entry is in arrival order. A request gets its number and is recorded in two
 * critical sections (pkg/origin/store.go), so the order pkg/protocol/log.go speaks of needs more than
 * the numbers; this module says exactly what.
 */
module LogOrder {
  import opened Wrappers
  import opened Protocol
  import opened OriginStore
  import opened Handlers

  ghost predicate Increasing(log: Log) {
    forall i, k :: 0 <= i < k < |log| ==> log[i].seqno < log[k].seqno
  }

  /** The log of `e`, once there is such an entry, is in the order of the numbers. */
  ghost predicate InOrder(s: State, e: nat) {
    e < |s.entries| ==> Increasing(s.entries[e].log)
  }

  /** Handler `h` holds a number of `e` and has not recorded yet. */
  ghost predicate IsPending(s: State, e: nat, h: int) {
    0 <= h < |s.handlers| && InClass(s.handlers[h], e, Pending)
  }

  /** A logged request that arrived no earlier than the one handler `x` has yet to record. */
  predicate Passes(le: LogEntry, x: Handler)
    requires x.Numbered?
  {
    le.seqno >= x.le.seqno
  }

  /** A number is issued while another handler of the entry is pending and the log can still take both. */
  ghost predicate Overlaps(s: State, st: Step, e: nat)
    requires Shaped(s) && Enabled(s, st)
  {
    && st.Number? && s.handlers[st.h].entry == e
    && |s.entries[e].log| + 2 <= MAX_LOG_ENTRIES
    && exists k :: IsPending(s, e, k)
  }

  ghost predicate NeverOverlaps(s: State, steps: seq<Step>, e: nat)
    requires Shaped(s)
    decreases |steps|
  {
    steps != [] && Enabled(s, steps[0]) ==>
      !Overlaps(s, steps[0], e) && NeverOverlaps(Apply(s, steps[0]), steps[1..], e)
  }

  /** The log is in order, and so far nothing pending can put it out of order. */
  ghost predicate Safe(s: State, e: nat) {
    e < |s.entries| ==>
      var log := s.entries[e].log;
      && Increasing(log)
      && (|log| < MAX_LOG_ENTRIES ==>
            forall h, i :: IsPending(s, e, h) && 0 <= i < |log| ==> !Passes(log[i], s.handlers[h]))
      && (|log| + 2 <= MAX_LOG_ENTRIES ==>
            forall h, k :: IsPending(s, e, h) && IsPending(s, e, k) ==> h == k)
  }

  /** Whatever happens from here on without an overlap, the log stays in order. */
  ghost predicate StaysInOrder(s: State, e: nat)
    requires Shaped(s)
  {
    forall steps, s' :: Run(s, steps, s') && NeverOverlaps(s, steps, e) ==> InOrder(s', e)
  }

  // ---- without overlaps the log stays in order ----

  lemma LoggedWasIssued(s: State, e: nat, i: nat)
    requires Inv(s) && e < |s.entries| && i < |s.entries[e].log|
    ensures s.entries[e].log[i].seqno <= s.entries[e].issued
  {
    assert LogFaithful(s, e) && NumbersOnce(s, e);
    assert Written(s.handlers, e, i, s.entries[e].log[i]);
  }

  lemma NumberKeepsSafe(s: State, h: nat, now: int, e: nat)
    requires Inv(s) && Enabled(s, Number(h, now)) && s.handlers[h].entry == e
    requires Safe(s, e) && !Overlaps(s, Number(h, now), e)
    ensures Safe(Apply(s, Number(h, now)), e)
  {
    assert Shaped(s);
    hide Inv;
    var s' := Apply(s, Number(h, now));
    assert s'.handlers[h].le.seqno == s.entries[e].issued + 1;
    forall i | 0 <= i < |s.entries[e].log| ensures s.entries[e].log[i].seqno <= s.entries[e].issued {
      LoggedWasIssued(s, e, i);
    }
    assert forall k :: IsPending(s', e, k) && k != h ==> IsPending(s, e, k) && s'.handlers[k] == s.handlers[k];
  }

  lemma RecordKeepsSafe(s: State, h: nat, status: int, header: Header, e: nat)
    requires Inv(s) && Enabled(s, Record(h, status, header)) && s.handlers[h].entry == e && Safe(s, e)
    ensures Safe(Apply(s, Record(h, status, header)), e)
  {
    assert Shaped(s);
    hide Inv;
    var s' := Apply(s, Record(h, status, header));
    assert IsPending(s, e, h);
    assert forall k :: IsPending(s', e, k) ==> k != h && IsPending(s, e, k) && s'.handlers[k] == s.handlers[k];
  }

  /** Any other step leaves the entry and its pending handlers as they are. */
  lemma QuietStepKeepsSafe(s: State, st: Step, e: nat)
    requires Shaped(s) && Enabled(s, st) && Target(s, st) != Some(e) && Safe(s, e)
    ensures Safe(Apply(s, st), e)
  {
    hide Swept, Scripted, Completed, NewLogEntry;
    var s' := Apply(s, st);
    if e < |s.entries| {
      StepFrame(s, st, e);
    }
    assert forall h :: IsPending(s', e, h) ==> IsPending(s, e, h) && s'.handlers[h] == s.handlers[h];
  }

  lemma StepKeepsSafe(s: State, st: Step, e: nat)
    requires Inv(s) && Enabled(s, st) && Safe(s, e) && !Overlaps(s, st, e)
    ensures Safe(Apply(s, st), e)
  {
    hide Safe, Overlaps;
    if Target(s, st) != Some(e) {
      QuietStepKeepsSafe(s, st, e);
    } else if st.Number? {
      NumberKeepsSafe(s, st.h, st.now, e);
    } else {
      RecordKeepsSafe(s, st.h, st.status, st.header, e);
    }
  }

  lemma {:induction false} RunKeepsSafe(s: State, steps: seq<Step>, s': State, e: nat)
    requires Inv(s) && Run(s, steps, s') && Safe(s, e) && NeverOverlaps(s, steps, e)
    ensures Safe(s', e)
    decreases |steps|
  {
    if steps != [] {
      StepKeepsInv(s, steps[0]);
      StepKeepsSafe(s, steps[0], e);
      RunKeepsSafe(Apply(s, steps[0]), steps[1..], s', e);
    }
  }

  // ---- an overlap can be carried on to a log out of order ----

  lemma RecordRun(s: State, h: nat) returns (s': State)
    requires Inv(s) && h < |s.handlers| && s.handlers[h].Numbered?
    ensures Run(s, [Record(h, 0, map[])], s') && Inv(s')
    ensures forall e :: NeverOverlaps(s, [Record(h, 0, map[])], e)
    ensures s' == Apply(s, Record(h, 0, map[]))
  {
    var steps := [Record(h, 0, map[])];
    s' := Apply(s, steps[0]);
    assert steps[1..] == [];
    StepKeepsInv(s, steps[0]);
  }

  /** Two records of one entry, `h` before `k`, with room for both. */
  lemma RecordBoth(s: State, h: nat, k: nat) returns (steps: seq<Step>, s': State)
    requires Inv(s) && h < |s.handlers| && k < |s.handlers| && h != k
    requires s.handlers[h].Numbered? && s.handlers[k].Numbered? && s.handlers[h].entry == s.handlers[k].entry
    requires |s.entries[s.handlers[h].entry].log| + 2 <= MAX_LOG_ENTRIES
    ensures Run(s, steps, s') && NeverOverlaps(s, steps, s.handlers[h].entry)
    ensures |s'.entries| == |s.entries|
    ensures var e := s.handlers[h].entry;
      var n := |s.entries[e].log|;
      && |s'.entries[e].log| == n + 2
      && s'.entries[e].log[n].seqno == s.handlers[h].le.seqno
      && s'.entries[e].log[n + 1].seqno == s.handlers[k].le.seqno
      && s'.entries[e].log[n].step == s.handlers[h].le.step
      && s'.entries[e].log[n + 1].step == s.handlers[k].le.step
  {
    assert Shaped(s);
    hide Inv;
    var m := RecordRun(s, h);
    s' := RecordRun(m, k);
    steps := [Record(h, 0, map[]), Record(k, 0, map[])];
    assert steps[1..] == [Record(k, 0, map[])];
  }

  /** A state that is not safe has a continuation without overlaps that ends out of order. */
  lemma UnsafeGoesWrong(s: State, e: nat) returns (steps: seq<Step>, s': State)
    requires Inv(s) && !Safe(s, e)
    ensures Run(s, steps, s') && NeverOverlaps(s, steps, e) && !InOrder(s', e)
  {
    var log := s.entries[e].log;
    if !Increasing(log) {
      steps, s' := [], s;
    } else if h: nat, i: nat :|
      |log| < MAX_LOG_ENTRIES && IsPending(s, e, h) && i < |log| && Passes(log[i], s.handlers[h]) {
      steps := [Record(h, 0, map[])];
      s' := RecordRun(s, h);
      assert s'.entries[e].log[i] == log[i] && s'.entries[e].log[|log|].seqno == s.handlers[h].le.seqno;
    } else {
      var h: nat, k: nat :| IsPending(s, e, h) && IsPending(s, e, k) && h != k;
      if s.handlers[h].le.seqno < s.handlers[k].le.seqno {
        steps, s' := RecordBoth(s, k, h);
      } else {
        steps, s' := RecordBoth(s, h, k);
      }
    }
  }

  // ---- the exact conditions ----

  /** In a reachable state the log stays in order whatever happens without an overlap, if and only if it is safe. */
  lemma SafeIsExact(s: State, e: nat)
    requires Inv(s)
    ensures Safe(s, e) <==> StaysInOrder(s, e)
  {
    if Safe(s, e) {
      forall steps, s' | Run(s, steps, s') && NeverOverlaps(s, steps, e) ensures InOrder(s', e) {
        RunKeepsSafe(s, steps, s', e);
      }
    } else {
      var steps, s' := UnsafeGoesWrong(s, e);
    }
  }

  /** After an overlap two handlers are pending, and the log can take both. */
  lemma OverlapIsUnsafe(s: State, st: Step, e: nat)
    requires Shaped(s) && Enabled(s, st) && Overlaps(s, st, e)
    ensures !Safe(Apply(s, st), e)
  {
    var k :| IsPending(s, e, k);
    assert IsPending(Apply(s, st), e, k) && IsPending(Apply(s, st), e, st.h);
  }

  /** Every state on the way keeps the log in order, whatever else happens without an overlap. */
  ghost predicate InOrderThroughout(s: State, steps: seq<Step>, e: nat)
    requires Shaped(s)
    decreases |steps|
  {
    && StaysInOrder(s, e)
    && (steps != [] && Enabled(s, steps[0]) ==> InOrderThroughout(Apply(s, steps[0]), steps[1..], e))
  }

  lemma {:induction false} OverlapsAreExact(s: State, steps: seq<Step>, s': State, e: nat)
    requires Inv(s) && Safe(s, e) && Run(s, steps, s')
    ensures NeverOverlaps(s, steps, e) <==> InOrderThroughout(s, steps, e)
    decreases |steps|
  {
    assert Shaped(s);
    hide Inv, Safe, StaysInOrder, Overlaps;
    SafeIsExact(s, e);
    if steps != [] {
      var m := Apply(s, steps[0]);
      StepKeepsInv(s, steps[0]);
      SafeIsExact(m, e);
      if Overlaps(s, steps[0], e) {
        OverlapIsUnsafe(s, steps[0], e);
      } else {
        StepKeepsSafe(s, steps[0], e);
        OverlapsAreExact(m, steps[1..], s', e);
      }
    }
  }

  /**
   * The log of an entry is in arrival order exactly as long as numbers are not issued while another
   * handler of the entry is pending: a run without such an overlap leaves it strictly increasing, and
   * a run with one passes a state from which records alone put it out of order.
   */
  lemma LogOrderIsExact(ttl: int, zeroTime: int, steps: seq<Step>, s: State, e: nat)
    requires Run(Init(ttl, zeroTime), steps, s)
    ensures NeverOverlaps(Init(ttl, zeroTime), steps, e) <==> InOrderThroughout(Init(ttl, zeroTime), steps, e)
    ensures NeverOverlaps(Init(ttl, zeroTime), steps, e) ==> InOrder(s, e)
  {
    InitInv(ttl, zeroTime);
    OverlapsAreExact(Init(ttl, zeroTime), steps, s, e);
    if NeverOverlaps(Init(ttl, zeroTime), steps, e) {
      RunKeepsSafe(Init(ttl, zeroTime), steps, s, e);
    }
  }

  // ---- what the order means for judging ----

  lemma {:induction false} OfStepKeepsOrder(log: Log, n: int)
    requires Increasing(log)
    ensures Increasing(OfStep(log, n))
    decreases |log|
  {
    if log != [] {
      var k := |log| - 1;
      OfStepKeepsOrder(log[..k], n);
      forall le | le in OfStep(log[..k], n) ensures le.seqno < log[k].seqno {
        assert le in log[..k];
      }
    }
  }

  /** In an ordered log the entry a step is judged by is the earliest of that step. */
  lemma JudgedEntryIsEarliest(log: Log, n: int, le: LogEntry)
    requires Increasing(log) && le in log && le.step == n
    ensures OfStep(log, n) != [] && OfStep(log, n)[0].seqno <= le.seqno
  {
    OfStepKeepsOrder(log, n);
    var entries := OfStep(log, n);
    assert le in entries;
    var i :| 0 <= i < |entries| && entries[i] == le;
  }

  /** One upload and two requests under its ID, both numbered before either is recorded. */
  function OverlappingArrivals(id: string, script: Script, first: Request, second: Request): seq<Step> {
    [Put(id, script, 0), Arrive(id, first), Arrive(id, second), Lookup(0), Lookup(1), Number(0, 0), Number(1, 0)]
  }

  /**
   * It does happen: from an empty origin, two requests of one step are logged in the reverse of their
   * arrival order, and the step is judged by the later one.
   */
  lemma ArrivalOrderCanBeReversed(ttl: int, zeroTime: int, id: string, script: Script, first: Request, second: Request)
    returns (steps: seq<Step>, s: State)
    requires first.step == second.step
    ensures Run(Init(ttl, zeroTime), steps, s) && |s.entries| == 1
    ensures var log := s.entries[0].log;
      && |log| == 2 && log[0].seqno == 2 && log[1].seqno == 1
      && OfStep(log, first.step) == log
  {
    var arrivals := OverlappingArrivals(id, script, first, second);
    InitInv(ttl, zeroTime);
    var m := NumberedTwice(ttl, zeroTime, id, script, first, second);
    RunKeepsInv(Init(ttl, zeroTime), arrivals, m);
    assert Shaped(m);
    hide Apply, Enabled, Inv, Shaped, OverlappingArrivals, NeverOverlaps, OfStep, Run;
    var records;
    records, s := RecordBoth(m, 1, 0);
    steps := arrivals + records;
    RunConcat(Init(ttl, zeroTime), arrivals, m, records, s);
    BothOfStep(s.entries[0].log, first.step);
  }

  lemma BothOfStep(log: Log, n: int)
    requires |log| == 2 && log[0].step == n && log[1].step == n
    ensures OfStep(log, n) == log
  {
    assert log == [log[0], log[1]];
    assert log[..1] == [log[0]] && log[..1][..0] == [];
    assert OfStep(log[..1], n) == [log[0]];
  }

  lemma NumberedTwice(ttl: int, zeroTime: int, id: string, script: Script, first: Request, second: Request)
    returns (m: State)
    ensures Run(Init(ttl, zeroTime), OverlappingArrivals(id, script, first, second), m)
    ensures |m.entries| == 1 && m.entries[0].log == [] && |m.handlers| == 2
    ensures m.handlers[0].Numbered? && m.handlers[0].entry == 0 && m.handlers[0].le.seqno == 1
    ensures m.handlers[1].Numbered? && m.handlers[1].entry == 0 && m.handlers[1].le.seqno == 2
    ensures m.handlers[0].le.step == first.step && m.handlers[1].le.step == second.step
  {
    hide Scripted;
    var steps := OverlappingArrivals(id, script, first, second);
    var s0 := Init(ttl, zeroTime);
    var s1 := Apply(s0, steps[0]);
    var s2 := Apply(s1, steps[1]);
    var s3 := Apply(s2, steps[2]);
    assert s3.tests[id] == 0 && s3.handlers == [Arrived(id, first), Arrived(id, second)];
    var s4 := Apply(s3, steps[3]);
    var s5 := Apply(s4, steps[4]);
    assert s5.handlers == [Holding(0, first), Holding(0, second)];
    var s6 := Apply(s5, steps[5]);
    m := Apply(s6, steps[6]);
    assert Run(m, steps[7..], m) && Run(s6, steps[6..], m) && Run(s5, steps[5..], m) && Run(s4, steps[4..], m);
    assert Run(s3, steps[3..], m) && Run(s2, steps[2..], m) && Run(s1, steps[1..], m);
  }
}
