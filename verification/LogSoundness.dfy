/**
 * The origin logs a request before it answers it, so a log the client fetches after a response shows
 * the request behind that response, whatever the proxy in between does.
 */
module LogSoundness {
  import opened Wrappers
  import opened TestDef
  import opened Protocol
  import opened OriginStore
  import opened Handlers
  import opened Judge

  /** The client's own script is left alone: no upload or removal under `id`, and no upload so late that it expires. */
  ghost predicate Undisturbed(steps: seq<Handlers.Step>, id: string, created: int, ttl: int) {
    forall st :: st in steps ==>
      && !(st.Remove? && st.id == id)
      && (st.Put? ==> st.id != id && st.now <= created + ttl)
  }

  /** The run's own entry stays stored under its ID. */
  lemma {:induction false} EntryStays(s: State, steps: seq<Handlers.Step>, s': State, id: string)
    requires Shaped(s) && Run(s, steps, s') && id in s.tests && 0 <= s.ttl <= MAX_DURATION
    requires Undisturbed(steps, id, s.entries[s.tests[id]].created, s.ttl)
    ensures Shaped(s') && id in s'.tests && s'.tests[id] == s.tests[id] && s'.ttl == s.ttl
    ensures s'.entries[s.tests[id]].created == s.entries[s.tests[id]].created
    decreases |steps|
  {
    if steps != [] {
      assert steps[0] in steps;
      StepFrame(s, steps[0], s.tests[id]);
      EntryStays(Apply(s, steps[0]), steps[1..], s', id);
    }
  }

  /** Nobody uploads under `id`: a run's ID is its own, and it uploads once. */
  ghost predicate NoUpload(steps: seq<Handlers.Step>, id: string) {
    forall st :: st in steps ==> !(st.Put? && st.id == id)
  }

  /** What `id` leads to, if anything, and what reader `r` found under it, if anything, is entry `e`. */
  ghost predicate LeadsTo(s: State, r: nat, id: string, e: nat) {
    && (id in s.tests ==> s.tests[id] == e)
    && (r < |s.readers| && s.readers[r].id == id && (s.readers[r].Found? || s.readers[r].Read?) ==>
          s.readers[r].entry == e)
  }

  /** Removals and sweeps may take the entry away, but without an upload nothing else takes its place. */
  lemma {:induction false} RunLeadsTo(s: State, steps: seq<Handlers.Step>, s': State, r: nat, id: string, e: nat)
    requires Shaped(s) && Run(s, steps, s') && NoUpload(steps, id) && LeadsTo(s, r, id, e)
    ensures LeadsTo(s', r, id, e)
    decreases |steps|
  {
    if steps != [] {
      assert steps[0] in steps;
      RunLeadsTo(Apply(s, steps[0]), steps[1..], s', r, id, e);
    }
  }

  /** A handler that has recorded keeps its record and its place. */
  lemma {:induction false} RecordStays(s: State, steps: seq<Handlers.Step>, s': State, h: nat)
    requires Shaped(s) && Run(s, steps, s') && h < |s.handlers| && s.handlers[h].Recorded?
    ensures h < |s'.handlers| && s'.handlers[h].Recorded? && SameRecord(s.handlers[h], s'.handlers[h])
    decreases |steps|
  {
    if steps != [] {
      RecordStays(Apply(s, steps[0]), steps[1..], s', h);
    }
  }

  /** What a handler recorded sits in its place in the log, or was dropped and sits nowhere. */
  lemma RecordedIsLogged(s: State, h: nat)
    requires Inv(s) && h < |s.handlers| && s.handlers[h].Recorded?
    ensures s.handlers[h].le in s.entries[s.handlers[h].entry].log <==> s.handlers[h].place.Some?
    ensures s.handlers[h].place.None? ==> |s.entries[s.handlers[h].entry].log| == MAX_LOG_ENTRIES
  {
    var e, le := s.handlers[h].entry, s.handlers[h].le;
    assert LogFaithful(s, e) && NumbersOnce(s, e);
    forall i | 0 <= i < |s.entries[e].log| && s.entries[e].log[i] == le ensures s.handlers[h].place.Some? {
      assert Written(s.handlers, e, i, le);
    }
  }

  /**
   * Log before response. In a reachable state handler `h` has recorded its request, as it does before
   * it writes a byte of the response, on the entry this run stored under `id`. Whatever happens then, a
   * reader that comes later and finds `id` reads a log that holds the request exactly when the record
   * was not dropped, and it is not dropped while fewer than 1000 are logged. An entry lost to a removal
   * or a sweep makes the reader find nothing, never a log without the request.
   */
  lemma LogBeforeResponse(
    ttl: int, zeroTime: int, steps: seq<Handlers.Step>, s: State,
    more: seq<Handlers.Step>, s': State, id: string, h: nat, r: nat)
    requires Run(Init(ttl, zeroTime), steps, s) && Shaped(s) && Run(s, more, s')
    requires h < |s.handlers| && s.handlers[h].Recorded?
    requires id in s.tests ==> s.tests[id] == s.handlers[h].entry
    requires NoUpload(more, id)
    requires |s.readers| <= r < |s'.readers| && s'.readers[r].Read? && s'.readers[r].id == id
    ensures s.handlers[h].le in OfStep(s'.readers[r].snapshot, s.handlers[h].le.step) <==> s.handlers[h].place.Some?
    ensures |s'.readers[r].snapshot| < 1000 ==> s.handlers[h].place.Some?
  {
    hide LogFaithful, NumbersOnce, Conserved;
    InitInv(ttl, zeroTime);
    RunKeepsInv(Init(ttl, zeroTime), steps, s);
    RunKeepsInv(s, more, s');
    var e, le := s.handlers[h].entry, s.handlers[h].le;
    RunLeadsTo(s, more, s', r, id, e);
    LaterReadCovers(s, more, s', r, e, s.entries[e].log);
    RecordStays(s, more, s', h);
    RecordedIsLogged(s, h);
    RecordedIsLogged(s', h);
    InPrefix(s.entries[e].log, s'.readers[r].snapshot, le);
    InPrefix(s'.readers[r].snapshot, s'.entries[e].log, le);
  }

  lemma InPrefix(a: Log, b: Log, le: LogEntry)
    requires a <= b
    ensures le in a ==> le in b
  {
    assert a == b[..|a|];
  }

  /** So such a step is never reported as answered without the origin, nor as never having reached it. */
  lemma AnsweredStepIsNotMisjudged(
    lib: Library, want: Expect, ttl: int, zeroTime: int, steps: seq<Handlers.Step>, s: State,
    more: seq<Handlers.Step>, s': State, id: string, h: nat, r: nat, o: Observation)
    requires Run(Init(ttl, zeroTime), steps, s) && Shaped(s) && Run(s, more, s')
    requires h < |s.handlers| && s.handlers[h].Recorded?
    requires id in s.tests ==> s.tests[id] == s.handlers[h].entry
    requires NoUpload(more, id)
    requires |s.readers| <= r < |s'.readers| && s'.readers[r].Read? && s'.readers[r].id == id
    requires s.handlers[h].place.Some? || |s'.readers[r].snapshot| < 1000
    ensures var forwarded := OfStep(s'.readers[r].snapshot, s.handlers[h].le.step);
      && AnsweredWithoutOrigin !in EvaluateStep(lib, Some(want), o, forwarded)
      && NeverReachedOrigin !in EvaluateStep(lib, Some(want), o, forwarded)
  {
    LogBeforeResponse(ttl, zeroTime, steps, s, more, s', id, h, r);
    NoOriginComplaint(lib, want, o, OfStep(s'.readers[r].snapshot, s.handlers[h].le.step));
  }

  lemma NoOriginComplaint(lib: Library, want: Expect, o: Observation, forwarded: seq<LogEntry>)
    requires forwarded != []
    ensures AnsweredWithoutOrigin !in EvaluateStep(lib, Some(want), o, forwarded)
    ensures NeverReachedOrigin !in EvaluateStep(lib, Some(want), o, forwarded)
  {
    hide EvaluateStep;
    MessagesAreDeserved(lib, Some(want), o, forwarded, AnsweredWithoutOrigin);
    MessagesAreDeserved(lib, Some(want), o, forwarded, NeverReachedOrigin);
  }
}
