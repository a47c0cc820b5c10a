/**
 * The origin's request handlers as a transition system (pkg/origin/respond.go, control.go): handlers,
 * uploads, removals and log readers interleave at the granularity of the store's critical sections.
 */
module Handlers {
  import opened Wrappers
  import opened Protocol
  import opened OriginStore

  /** What is logged of a request: `header` holds its fields, with the host under Host. */
  datatype Request = Request(step: int, httpMethod: string, target: string, proto: string, header: Header)

  datatype Fate = Writing | Replied | Gone

  /**
   * A test request's handler. It looks its entry up once, takes a number, and records the request in
   * a later critical section; `place` is where the record went, or `None` when the log was full.
   */
  datatype Handler =
    | Arrived(id: string, req: Request)
    | NotFound
    | Holding(entry: nat, req: Request)
    | Numbered(entry: nat, le: LogEntry)
    | Recorded(entry: nat, le: LogEntry, place: Option<nat>, fate: Fate)

  /** A log reader: lookup and snapshot are separate critical sections. */
  datatype Reader =
    | Asked(id: string)
    | Unknown(id: string)
    | Found(id: string, entry: nat)
    | Read(id: string, entry: nat, snapshot: Log)

  /** `entries` is the heap: every entry ever stored, which handlers may hold after it is replaced. */
  datatype State = State(
    entries: seq<EntryValue>,
    tests: map<string, nat>,
    ttl: int,
    lastSweep: int,
    handlers: seq<Handler>,
    readers: seq<Reader>)

  datatype Step =
    | Put(id: string, script: Script, now: int)
    | Remove(id: string)
    | Arrive(id: string, req: Request)
    | Lookup(h: nat)
    | Number(h: nat, now: int)
    | Record(h: nat, status: int, header: Header)
    | Reply(h: nat)
    | Leave(h: nat)
    | Ask(id: string)
    | Find(r: nat)
    | Snapshot(r: nat)

  function Init(ttl: int, zeroTime: int): State {
    State([], map[], ttl, zeroTime, [], [])
  }

  predicate Shaped(s: State) {
    && (forall id :: id in s.tests ==> s.tests[id] < |s.entries|)
    && (forall h :: 0 <= h < |s.handlers| ==>
          s.handlers[h].Holding? || s.handlers[h].Numbered? || s.handlers[h].Recorded? ==>
            s.handlers[h].entry < |s.entries|)
    && (forall r :: 0 <= r < |s.readers| ==>
          s.readers[r].Found? || s.readers[r].Read? ==> s.readers[r].entry < |s.entries|)
  }

  function Scripted(s: State, e: nat, step: int): WireResponse
    requires e < |s.entries|
  {
    s.entries[e].script.ResponseFor(step).1
  }

  predicate Enabled(s: State, st: Step)
    requires Shaped(s)
  {
    match st
    case Put(_, _, _) => true
    case Remove(_) => true
    case Arrive(_, _) => true
    case Lookup(h) => h < |s.handlers| && s.handlers[h].Arrived?
    case Number(h, _) => h < |s.handlers| && s.handlers[h].Holding?
    case Record(h, _, _) => h < |s.handlers| && s.handlers[h].Numbered?
    case Reply(h) =>
      && h < |s.handlers| && s.handlers[h].Recorded? && s.handlers[h].fate.Writing?
      && !Scripted(s, s.handlers[h].entry, s.handlers[h].le.step).disconnect
    case Leave(h) =>
      && h < |s.handlers| && s.handlers[h].Recorded? && s.handlers[h].fate.Writing?
      && (var resp := Scripted(s, s.handlers[h].entry, s.handlers[h].le.step); resp.disconnect || resp.delayMS > 0)
    case Ask(_) => true
    case Find(r) => r < |s.readers| && s.readers[r].Asked?
    case Snapshot(r) => r < |s.readers| && s.readers[r].Found?
  }

  function NewLogEntry(s: State, e: nat, req: Request, now: int): LogEntry
    requires e < |s.entries|
  {
    LogEntry(s.entries[e].issued + 1, req.step, s.entries[e].script.ResponseFor(req.step).0, now,
             req.httpMethod, req.target, req.proto, req.header, 0, map[])
  }

  /** A disconnecting response is logged without a status; any other with what was built for it. */
  function Completed(s: State, e: nat, le: LogEntry, status: int, header: Header): LogEntry
    requires e < |s.entries|
  {
    if Scripted(s, e, le.step).disconnect then le else le.(status := status, responseHeader := header)
  }

  function Swept(s: State, now: int): map<string, nat>
    requires Shaped(s)
  {
    if SweepDue(s.ttl, s.lastSweep, now)
    then map k | k in s.tests && !Expired(s.ttl, s.entries[s.tests[k]].created, now) :: s.tests[k]
    else s.tests
  }

  function Apply(s: State, st: Step): (s': State)
    requires Shaped(s) && Enabled(s, st)
    ensures Shaped(s')
  {
    match st
    case Put(id, script, now) =>
      s.(entries := s.entries + [EntryValue(script, now, 0, [])],
         tests := Swept(s, now)[id := |s.entries|],
         lastSweep := if SweepDue(s.ttl, s.lastSweep, now) then now else s.lastSweep)
    case Remove(id) => s.(tests := s.tests - {id})
    case Arrive(id, req) => s.(handlers := s.handlers + [Arrived(id, req)])
    case Lookup(h) =>
      var id := s.handlers[h].id;
      s.(handlers := s.handlers[h := if id in s.tests then Holding(s.tests[id], s.handlers[h].req) else NotFound])
    case Number(h, now) =>
      var e := s.handlers[h].entry;
      s.(handlers := s.handlers[h := Numbered(e, NewLogEntry(s, e, s.handlers[h].req, now))],
         entries := s.entries[e := s.entries[e].Numbered()])
    case Record(h, status, header) =>
      var e := s.handlers[h].entry;
      var le := Completed(s, e, s.handlers[h].le, status, header);
      var place := if |s.entries[e].log| < MAX_LOG_ENTRIES then Some(|s.entries[e].log|) else None;
      s.(handlers := s.handlers[h := Recorded(e, le, place, Writing)],
         entries := s.entries[e := s.entries[e].Recorded(le)])
    case Reply(h) => s.(handlers := s.handlers[h := s.handlers[h].(fate := Replied)])
    case Leave(h) => s.(handlers := s.handlers[h := s.handlers[h].(fate := Gone)])
    case Ask(id) => s.(readers := s.readers + [Asked(id)])
    case Find(r) =>
      var id := s.readers[r].id;
      s.(readers := s.readers[r := if id in s.tests then Found(id, s.tests[id]) else Unknown(id)])
    case Snapshot(r) =>
      var e := s.readers[r].entry;
      s.(readers := s.readers[r := Read(s.readers[r].id, e, s.entries[e].log)])
  }

  ghost predicate Run(s: State, steps: seq<Step>, s': State)
    requires Shaped(s)
    decreases |steps|
  {
    if steps == [] then s == s'
    else Enabled(s, steps[0]) && Run(Apply(s, steps[0]), steps[1..], s')
  }

  // ---- counting handlers ----

  datatype Class = Pending | Logged | Dropped

  predicate InClass(x: Handler, e: nat, c: Class) {
    match c
    case Pending => x.Numbered? && x.entry == e
    case Logged => x.Recorded? && x.entry == e && x.place.Some?
    case Dropped => x.Recorded? && x.entry == e && x.place.None?
  }

  function Count(hs: seq<Handler>, e: nat, c: Class): nat {
    if hs == [] then 0
    else Count(hs[..|hs| - 1], e, c) + if InClass(hs[|hs| - 1], e, c) then 1 else 0
  }

  lemma {:induction false} CountUpdate(hs: seq<Handler>, h: nat, x: Handler, e: nat, c: Class)
    requires h < |hs|
    ensures Count(hs[h := x], e, c)
         == Count(hs, e, c) - (if InClass(hs[h], e, c) then 1 else 0) + (if InClass(x, e, c) then 1 else 0)
    decreases |hs|
  {
    var n := |hs| - 1;
    if h < n {
      CountUpdate(hs[..n], h, x, e, c);
      assert hs[h := x][..n] == hs[..n][h := x];
    } else {
      assert hs[h := x][..n] == hs[..n];
    }
  }

  lemma {:induction false} CountNone(hs: seq<Handler>, e: nat, c: Class)
    requires forall h :: 0 <= h < |hs| ==> !InClass(hs[h], e, c)
    ensures Count(hs, e, c) == 0
    decreases |hs|
  {
    if hs != [] {
      CountNone(hs[..|hs| - 1], e, c);
    }
  }

  lemma {:induction false} CountSome(hs: seq<Handler>, e: nat, c: Class) returns (h: nat)
    requires Count(hs, e, c) > 0
    ensures h < |hs| && InClass(hs[h], e, c)
    decreases |hs|
  {
    h := |hs| - 1;
    if !InClass(hs[h], e, c) {
      h := CountSome(hs[..h], e, c);
    }
  }

  // ---- the invariant ----

  predicate HasNumber(x: Handler, e: nat) {
    (x.Numbered? || x.Recorded?) && x.entry == e
  }

  /** Handler `h` was issued number `n` of entry `e`. */
  predicate Owns(hs: seq<Handler>, h: nat, e: nat, n: nat) {
    h < |hs| && HasNumber(hs[h], e) && hs[h].le.seqno == n
  }

  /** Handler `h` wrote element `i` of entry `e`'s log. */
  predicate Wrote(hs: seq<Handler>, h: nat, e: nat, i: nat, le: LogEntry) {
    h < |hs| && hs[h].Recorded? && hs[h].entry == e && hs[h].place == Some(i) && hs[h].le == le
  }

  ghost predicate Owned(hs: seq<Handler>, e: nat, n: nat) {
    exists h :: Owns(hs, h, e, n)
  }

  ghost predicate Written(hs: seq<Handler>, e: nat, i: nat, le: LogEntry) {
    exists h :: Wrote(hs, h, e, i, le)
  }

  /** The numbers issued by entry `e` are 1 to `issued`, each to exactly one handler. */
  ghost predicate NumbersOnce(s: State, e: nat)
    requires e < |s.entries|
  {
    && (forall h :: 0 <= h < |s.handlers| && HasNumber(s.handlers[h], e) ==>
          1 <= s.handlers[h].le.seqno <= s.entries[e].issued)
    && (forall h, k :: 0 <= h < k < |s.handlers| && HasNumber(s.handlers[h], e) && HasNumber(s.handlers[k], e) ==>
          s.handlers[h].le.seqno != s.handlers[k].le.seqno)
    && (forall n :: 1 <= n <= s.entries[e].issued ==> Owned(s.handlers, e, n))
  }

  /** The log of `e` is exactly what handlers holding `e` recorded, each in its own place. */
  ghost predicate LogFaithful(s: State, e: nat)
    requires e < |s.entries|
  {
    var log := s.entries[e].log;
    && |log| <= MAX_LOG_ENTRIES
    && (forall h :: 0 <= h < |s.handlers| && s.handlers[h].Recorded? && s.handlers[h].entry == e ==>
          match s.handlers[h].place
          case Some(i) => i < |log| && log[i] == s.handlers[h].le
          case None => |log| == MAX_LOG_ENTRIES)
    && (forall i :: 0 <= i < |log| ==> Written(s.handlers, e, i, log[i]))
  }

  /** Every number is accounted for: logged, between the two critical sections, or dropped. */
  ghost predicate Conserved(s: State, e: nat)
    requires e < |s.entries|
  {
    && Count(s.handlers, e, Logged) == |s.entries[e].log|
    && s.entries[e].issued == |s.entries[e].log| + Count(s.handlers, e, Pending) + Count(s.handlers, e, Dropped)
  }

  ghost predicate SnapshotsArePrefixes(s: State)
    requires Shaped(s)
  {
    forall r :: 0 <= r < |s.readers| && s.readers[r].Read? ==>
      s.readers[r].snapshot <= s.entries[s.readers[r].entry].log
  }

  ghost predicate Inv(s: State) {
    && Shaped(s)
    && SnapshotsArePrefixes(s)
    && forall e :: 0 <= e < |s.entries| ==> NumbersOnce(s, e) && LogFaithful(s, e) && Conserved(s, e)
  }

  lemma InitInv(ttl: int, zeroTime: int)
    ensures Inv(Init(ttl, zeroTime))
  {
  }

  /** The entry a step writes to, if any: the one its handler looked up, wherever its ID leads now. */
  function Target(s: State, st: Step): Option<nat>
    requires Shaped(s) && Enabled(s, st)
  {
    match st
    case Number(h, _) => Some(s.handlers[h].entry)
    case Record(h, _, _) => Some(s.handlers[h].entry)
    case _ => None
  }

  /**
   * No step touches an entry other than its handler's own: a handler holding a replaced or removed
   * entry never writes to another entry's log, and uploads and sweeps write to none.
   */
  lemma StepFrame(s: State, st: Step, e: nat)
    requires Shaped(s) && Enabled(s, st) && e < |s.entries|
    ensures e < |Apply(s, st).entries|
    ensures s.entries[e].log <= Apply(s, st).entries[e].log
    ensures s.entries[e].issued <= Apply(s, st).entries[e].issued
    ensures s.entries[e].created == Apply(s, st).entries[e].created
    ensures s.entries[e].script == Apply(s, st).entries[e].script
    ensures Target(s, st) != Some(e) ==> Apply(s, st).entries[e] == s.entries[e]
  {
  }

  // ---- every step keeps the invariant ----

  lemma NumberKeepsNumbers(s: State, h: nat, now: int, e: nat)
    requires Inv(s) && Enabled(s, Number(h, now)) && e < |s.entries|
    ensures NumbersOnce(Apply(s, Number(h, now)), e)
  {
    var s' := Apply(s, Number(h, now));
    assert NumbersOnce(s, e);
    forall n | 1 <= n <= s'.entries[e].issued ensures Owned(s'.handlers, e, n) {
      if n <= s.entries[e].issued {
        assert Owned(s.handlers, e, n);
        var k :| Owns(s.handlers, k, e, n);
        assert Owns(s'.handlers, k, e, n);
      } else {
        assert Owns(s'.handlers, h, e, n);
      }
    }
  }

  lemma NumberKeepsLog(s: State, h: nat, now: int, e: nat)
    requires Inv(s) && Enabled(s, Number(h, now)) && e < |s.entries|
    ensures LogFaithful(Apply(s, Number(h, now)), e)
  {
    var s' := Apply(s, Number(h, now));
    assert LogFaithful(s, e);
    forall i | 0 <= i < |s'.entries[e].log| ensures Written(s'.handlers, e, i, s'.entries[e].log[i]) {
      assert Written(s.handlers, e, i, s.entries[e].log[i]);
      var k :| Wrote(s.handlers, k, e, i, s.entries[e].log[i]);
      assert Wrote(s'.handlers, k, e, i, s'.entries[e].log[i]);
    }
  }

  lemma NumberKeepsCount(s: State, h: nat, now: int, e: nat)
    requires Inv(s) && Enabled(s, Number(h, now)) && e < |s.entries|
    ensures Conserved(Apply(s, Number(h, now)), e)
  {
    var x := Apply(s, Number(h, now)).handlers[h];
    assert Conserved(s, e);
    CountUpdate(s.handlers, h, x, e, Pending);
    CountUpdate(s.handlers, h, x, e, Logged);
    CountUpdate(s.handlers, h, x, e, Dropped);
  }

  lemma RecordKeepsNumbers(s: State, h: nat, status: int, header: Header, e: nat)
    requires Inv(s) && Enabled(s, Record(h, status, header)) && e < |s.entries|
    ensures NumbersOnce(Apply(s, Record(h, status, header)), e)
  {
    var s' := Apply(s, Record(h, status, header));
    assert NumbersOnce(s, e);
    assert forall k :: 0 <= k < |s.handlers| ==>
      (HasNumber(s'.handlers[k], e) <==> HasNumber(s.handlers[k], e))
      && (HasNumber(s.handlers[k], e) ==> s'.handlers[k].le.seqno == s.handlers[k].le.seqno);
    forall n | 1 <= n <= s'.entries[e].issued ensures Owned(s'.handlers, e, n) {
      assert Owned(s.handlers, e, n);
      var k :| Owns(s.handlers, k, e, n);
      assert Owns(s'.handlers, k, e, n);
    }
  }

  lemma RecordKeepsLog(s: State, h: nat, status: int, header: Header, e: nat)
    requires Inv(s) && Enabled(s, Record(h, status, header)) && e < |s.entries|
    ensures LogFaithful(Apply(s, Record(h, status, header)), e)
  {
    var s' := Apply(s, Record(h, status, header));
    assert LogFaithful(s, e);
    forall i | 0 <= i < |s'.entries[e].log| ensures Written(s'.handlers, e, i, s'.entries[e].log[i]) {
      if i < |s.entries[e].log| {
        assert Written(s.handlers, e, i, s.entries[e].log[i]);
        var k :| Wrote(s.handlers, k, e, i, s.entries[e].log[i]);
        assert Wrote(s'.handlers, k, e, i, s'.entries[e].log[i]);
      } else {
        assert Wrote(s'.handlers, h, e, i, s'.entries[e].log[i]);
      }
    }
  }

  lemma RecordKeepsCount(s: State, h: nat, status: int, header: Header, e: nat)
    requires Inv(s) && Enabled(s, Record(h, status, header)) && e < |s.entries|
    ensures Conserved(Apply(s, Record(h, status, header)), e)
  {
    var x := Apply(s, Record(h, status, header)).handlers[h];
    assert Conserved(s, e);
    CountUpdate(s.handlers, h, x, e, Pending);
    CountUpdate(s.handlers, h, x, e, Logged);
    CountUpdate(s.handlers, h, x, e, Dropped);
  }

  /** Steps that change handlers without issuing or recording: numbers and places are carried over. */
  lemma HandlersCarryOver(s: State, s': State, e: nat)
    requires Inv(s) && Shaped(s') && e < |s.entries| && e < |s'.entries| && s'.entries[e] == s.entries[e]
    requires |s.handlers| <= |s'.handlers|
    requires forall h :: 0 <= h < |s.handlers| ==> SameRecord(s.handlers[h], s'.handlers[h])
    requires forall h :: |s.handlers| <= h < |s'.handlers| ==> s'.handlers[h].Arrived?
    requires forall c :: Count(s'.handlers, e, c) == Count(s.handlers, e, c)
    ensures NumbersOnce(s', e) && LogFaithful(s', e) && Conserved(s', e)
  {
    assert NumbersOnce(s, e) && LogFaithful(s, e) && Conserved(s, e);
    forall n | 1 <= n <= s'.entries[e].issued ensures Owned(s'.handlers, e, n) {
      assert Owned(s.handlers, e, n);
      var k :| Owns(s.handlers, k, e, n);
      assert Owns(s'.handlers, k, e, n);
    }
    forall i | 0 <= i < |s'.entries[e].log| ensures Written(s'.handlers, e, i, s'.entries[e].log[i]) {
      assert Written(s.handlers, e, i, s.entries[e].log[i]);
      var k :| Wrote(s.handlers, k, e, i, s.entries[e].log[i]);
      assert Wrote(s'.handlers, k, e, i, s'.entries[e].log[i]);
    }
  }

  predicate SameRecord(x: Handler, y: Handler) {
    && (x.Numbered? <==> y.Numbered?) && (x.Recorded? <==> y.Recorded?)
    && (x.Numbered? || x.Recorded? ==> x.entry == y.entry && x.le == y.le)
    && (x.Recorded? ==> x.place == y.place)
  }

  lemma QuietStepKeepsCount(s: State, st: Step, e: nat, c: Class)
    requires Shaped(s) && Enabled(s, st) && !st.Number? && !st.Record?
    ensures Count(Apply(s, st).handlers, e, c) == Count(s.handlers, e, c)
  {
    hide Scripted, Swept;
    var s' := Apply(s, st);
    if st.Arrive? {
      assert s'.handlers[..|s.handlers|] == s.handlers;
    } else if st.Lookup? || st.Reply? || st.Leave? {
      CountUpdate(s.handlers, st.h, s'.handlers[st.h], e, c);
    }
  }

  lemma QuietStepKeepsEntry(s: State, st: Step, e: nat)
    requires Inv(s) && Enabled(s, st) && e < |s.entries| && !st.Number? && !st.Record?
    ensures NumbersOnce(Apply(s, st), e) && LogFaithful(Apply(s, st), e) && Conserved(Apply(s, st), e)
  {
    hide NumbersOnce, LogFaithful, Conserved, SnapshotsArePrefixes, Scripted, Swept, Count;
    forall c ensures Count(Apply(s, st).handlers, e, c) == Count(s.handlers, e, c) {
      QuietStepKeepsCount(s, st, e, c);
    }
    HandlersCarryOver(s, Apply(s, st), e);
  }

  /** A new entry starts with no numbers, no log and no handler. */
  lemma NewEntryInv(s: State, st: Step)
    requires Inv(s) && st.Put? && Enabled(s, st)
    ensures var e := |s.entries|;
      NumbersOnce(Apply(s, st), e) && LogFaithful(Apply(s, st), e) && Conserved(Apply(s, st), e)
  {
    var e := |s.entries|;
    forall c ensures Count(s.handlers, e, c) == 0 {
      CountNone(s.handlers, e, c);
    }
  }

  lemma StepKeepsInv(s: State, st: Step)
    requires Inv(s) && Enabled(s, st)
    ensures Inv(Apply(s, st))
  {
    var s' := Apply(s, st);
    forall e | 0 <= e < |s'.entries| ensures NumbersOnce(s', e) && LogFaithful(s', e) && Conserved(s', e) {
      if e == |s.entries| {
        NewEntryInv(s, st);
      } else if st.Number? {
        NumberKeepsNumbers(s, st.h, st.now, e);
        NumberKeepsLog(s, st.h, st.now, e);
        NumberKeepsCount(s, st.h, st.now, e);
      } else if st.Record? {
        RecordKeepsNumbers(s, st.h, st.status, st.header, e);
        RecordKeepsLog(s, st.h, st.status, st.header, e);
        RecordKeepsCount(s, st.h, st.status, st.header, e);
      } else {
        QuietStepKeepsEntry(s, st, e);
      }
    }
    forall r | 0 <= r < |s'.readers| && s'.readers[r].Read?
      ensures s'.readers[r].snapshot <= s'.entries[s'.readers[r].entry].log
    {
      if r < |s.readers| && s.readers[r].Read? {
        StepFrame(s, st, s.readers[r].entry);
        PrefixTransitive(s.readers[r].snapshot, s.entries[s.readers[r].entry].log, s'.entries[s.readers[r].entry].log);
      }
    }
  }

  lemma PrefixTransitive(a: Log, b: Log, c: Log)
    requires a <= b <= c
    ensures a <= c
  {
    assert a == c[..|a|] by {
      assert a == b[..|a|] && b == c[..|b|];
    }
  }

  lemma {:induction false} RunKeepsInv(s: State, steps: seq<Step>, s': State)
    requires Inv(s) && Run(s, steps, s')
    ensures Inv(s')
    decreases |steps|
  {
    if steps != [] {
      StepKeepsInv(s, steps[0]);
      RunKeepsInv(Apply(s, steps[0]), steps[1..], s');
    }
  }

  lemma {:induction false} RunConcat(s: State, a: seq<Step>, m: State, b: seq<Step>, s': State)
    requires Shaped(s) && Run(s, a, m) && Shaped(m) && Run(m, b, s')
    ensures Run(s, a + b, s')
    decreases |a|
  {
    hide Apply, Enabled, Shaped;
    if a == [] {
      assert a + b == b;
    } else {
      RunConcat(Apply(s, a[0]), a[1..], m, b, s');
      assert (a + b)[1..] == a[1..] + b;
    }
  }

  /** Logs only grow, so an earlier snapshot of an entry is a prefix of every later one. */
  lemma {:induction false} LogsOnlyGrow(s: State, steps: seq<Step>, s': State, e: nat)
    requires Shaped(s) && Run(s, steps, s') && e < |s.entries|
    ensures Shaped(s') && e < |s'.entries| && s.entries[e].log <= s'.entries[e].log
    ensures s'.entries[e].created == s.entries[e].created && s'.entries[e].script == s.entries[e].script
    decreases |steps|
  {
    if steps != [] {
      var m := Apply(s, steps[0]);
      StepFrame(s, steps[0], e);
      LogsOnlyGrow(m, steps[1..], s', e);
      PrefixTransitive(s.entries[e].log, m.entries[e].log, s'.entries[e].log);
    }
  }

  /** A reader that had not read yet in `s` later reads at least what the log of its entry held in `s`. */
  lemma {:induction false} LaterReadCovers(s: State, steps: seq<Step>, s': State, r: nat, e: nat, log: Log)
    requires Shaped(s) && Run(s, steps, s') && e < |s.entries| && log <= s.entries[e].log
    requires r < |s.readers| ==> !s.readers[r].Read? || s.readers[r].entry != e || log <= s.readers[r].snapshot
    ensures r < |s'.readers| && s'.readers[r].Read? && s'.readers[r].entry == e ==> log <= s'.readers[r].snapshot
    decreases |steps|
  {
    if steps != [] {
      var m := Apply(s, steps[0]);
      StepFrame(s, steps[0], e);
      PrefixTransitive(log, s.entries[e].log, m.entries[e].log);
      LaterReadCovers(m, steps[1..], s', r, e, log);
    }
  }

  /** Each snapshot of an entry is a prefix of every snapshot of that entry taken later. */
  lemma SnapshotsNest(ttl: int, zeroTime: int, steps: seq<Step>, s: State, more: seq<Step>, s': State, a: nat, b: nat)
    requires Run(Init(ttl, zeroTime), steps, s) && Shaped(s) && Run(s, more, s')
    requires a < |s.readers| && s.readers[a].Read?
    requires b < |s.readers| ==> !s.readers[b].Read?
    requires b < |s'.readers| && s'.readers[b].Read? && s'.readers[b].entry == s.readers[a].entry
    ensures s.readers[a].snapshot <= s'.readers[b].snapshot
  {
    InitInv(ttl, zeroTime);
    RunKeepsInv(Init(ttl, zeroTime), steps, s);
    LaterReadCovers(s, more, s', b, s.readers[a].entry, s.readers[a].snapshot);
  }

  // ---- the store of the handlers is the store of the sweep ----

  function AgesOf(s: State): Ages
    requires Shaped(s)
  {
    Ages(map id | id in s.tests :: s.entries[s.tests[id]].created, s.ttl, s.lastSweep)
  }

  lemma PutRefinesStore(s: State, id: string, script: Script, now: int)
    requires Shaped(s)
    ensures AgesOf(Apply(s, Put(id, script, now))) == AfterOp(AgesOf(s), PutOp(id, now))
  {
    var s' := Apply(s, Put(id, script, now));
    var kept := Swept(s, now);
    assert forall k :: k in kept ==> k in s.tests && kept[k] == s.tests[k];
    assert AgesOf(s').created == AfterPut(AgesOf(s), id, now).created;
  }

  /** Seen through creation times, uploads and removals are the store's own and nothing else touches it. */
  lemma StepRefinesStore(s: State, st: Step)
    requires Shaped(s) && Enabled(s, st)
    ensures AgesOf(Apply(s, st)) ==
      match st
      case Put(id, _, now) => AfterOp(AgesOf(s), PutOp(id, now))
      case Remove(id) => AfterOp(AgesOf(s), RemoveOp(id))
      case _ => AgesOf(s)
  {
    hide AfterPut, Swept, Scripted, Sub, NewLogEntry, Completed;
    if st.Put? {
      PutRefinesStore(s, st.id, st.script, st.now);
    } else {
      var s' := Apply(s, st);
      assert forall e :: 0 <= e < |s.entries| ==> s'.entries[e].created == s.entries[e].created;
      assert AgesOf(s').created == if st.Remove? then AgesOf(s).created - {st.id} else AgesOf(s).created;
    }
  }

  ghost predicate TimelyRun(s: State, steps: seq<Step>)
    requires Shaped(s)
    decreases |steps|
  {
    steps != [] && Enabled(s, steps[0]) ==>
      && (steps[0].Put? ==> Timely(AgesOf(s), PutOp(steps[0].id, steps[0].now)))
      && TimelyRun(Apply(s, steps[0]), steps[1..])
  }

  /** However handlers and readers interleave, timely uploads leave no entry older than twice the TTL. */
  lemma {:induction false} SweepBoundOfRuns(s: State, steps: seq<Step>, m: State, last: Step)
    requires Shaped(s) && NoneBehind(AgesOf(s)) && Run(s, steps, m) && TimelyRun(s, steps)
    requires Shaped(m) && last.Put? && Timely(AgesOf(m), PutOp(last.id, last.now))
    ensures NoneBehind(AgesOf(m))
    ensures NoneOlderThan(AgesOf(Apply(m, last)), 2 * m.ttl, last.now)
    decreases |steps|
  {
    if steps == [] {
      StepRefinesStore(m, last);
      OpKeepsBound(AgesOf(m), PutOp(last.id, last.now));
    } else {
      var st := steps[0];
      StepRefinesStore(s, st);
      if st.Put? {
        OpKeepsBound(AgesOf(s), PutOp(st.id, st.now));
      }
      SweepBoundOfRuns(Apply(s, st), steps[1..], m, last);
    }
  }

  lemma {:induction false} TtlStays(s: State, steps: seq<Step>, s': State)
    requires Shaped(s) && Run(s, steps, s')
    ensures s'.ttl == s.ttl
    decreases |steps|
  {
    if steps != [] {
      TtlStays(Apply(s, steps[0]), steps[1..], s');
    }
  }

  /** So it is from the start: with a TTL of `ttl`, every entry is at most twice that old after each upload. */
  lemma SweepBoundFromStart(ttl: int, zeroTime: int, steps: seq<Step>, m: State, last: Step)
    requires 0 <= ttl < MAX_DURATION && Run(Init(ttl, zeroTime), steps, m) && TimelyRun(Init(ttl, zeroTime), steps)
    requires Shaped(m) && last.Put? && last.now >= m.lastSweep - ttl
    ensures var s' := Apply(m, last);
      forall id :: id in s'.tests ==> last.now - s'.entries[s'.tests[id]].created <= 2 * ttl
  {
    TtlStays(Init(ttl, zeroTime), steps, m);
    SweepBoundOfRuns(Init(ttl, zeroTime), steps, m, last);
    var s' := Apply(m, last);
    hide Apply, NoneBehind, TimelyRun, Run;
    assert NoneOlderThan(AgesOf(s'), 2 * ttl, last.now);
    forall id | id in s'.tests ensures last.now - s'.entries[s'.tests[id]].created <= 2 * ttl {
      assert id in AgesOf(s').created && AgesOf(s').created[id] == s'.entries[s'.tests[id]].created;
    }
  }

  /**
   * Conservation over every run: issued numbers are 1..seq without repeats; each is logged, pending or
   * dropped; and nothing is dropped before the log is full.
   */
  lemma HandlerConservation(ttl: int, zeroTime: int, steps: seq<Step>, s: State, e: nat)
    requires Run(Init(ttl, zeroTime), steps, s) && e < |s.entries|
    ensures NumbersOnce(s, e) && LogFaithful(s, e)
    ensures s.entries[e].issued == |s.entries[e].log| + Count(s.handlers, e, Pending) + Count(s.handlers, e, Dropped)
    ensures |s.entries[e].log| <= 1000 && (Count(s.handlers, e, Dropped) > 0 ==> |s.entries[e].log| == 1000)
    ensures forall i, k :: 0 <= i < k < |s.entries[e].log| ==> s.entries[e].log[i].seqno != s.entries[e].log[k].seqno
  {
    InitInv(ttl, zeroTime);
    RunKeepsInv(Init(ttl, zeroTime), steps, s);
    assert NumbersOnce(s, e) && LogFaithful(s, e) && Conserved(s, e);
    if Count(s.handlers, e, Dropped) > 0 {
      var h := CountSome(s.handlers, e, Dropped);
      assert s.handlers[h].place == None;
    }
    forall i, k | 0 <= i < k < |s.entries[e].log| ensures s.entries[e].log[i].seqno != s.entries[e].log[k].seqno {
      assert Written(s.handlers, e, i, s.entries[e].log[i]) && Written(s.handlers, e, k, s.entries[e].log[k]);
      var a :| Wrote(s.handlers, a, e, i, s.entries[e].log[i]);
      var b :| Wrote(s.handlers, b, e, k, s.entries[e].log[k]);
      assert a != b;
    }
  }
}
