/**
 * What the log says about a request, and the way of a request through the origin
 * (`serveTest` and `newLogEntry` in pkg/origin/respond.go).
 */
module Requests {
  import opened Wrappers
  import opened Protocol
  import opened OriginStore
  import opened Handlers

  /** The name of the response a script has for a step: the step's own, or the default. */
  ghost predicate Names(script: Script, step: int, name: string) {
    if step in script.steps then name == script.steps[step] else name == script.fallback
  }

  ghost predicate Disconnects(script: Script, step: int) {
    exists name :: Names(script, step, name) && name in script.responses && script.responses[name].disconnect
  }

  ghost predicate Delays(script: Script, step: int) {
    exists name :: Names(script, step, name) && name in script.responses && script.responses[name].delayMS > 0
  }

  /** The log entry is about this request, with the name of the response the script has for it. */
  ghost predicate IsAbout(le: LogEntry, script: Script, req: Request) {
    && le.step == req.step && le.httpMethod == req.httpMethod && le.target == req.target
    && le.proto == req.proto && le.header == req.header
    && Names(script, req.step, le.response)
  }

  /** Wherever handler `h` is, it is about `req`; and it ended the way the script asks for. */
  ghost predicate Serves(s: State, h: nat, req: Request) {
    && Shaped(s) && h < |s.handlers|
    && match s.handlers[h]
       case Arrived(_, q) => q == req
       case NotFound => true
       case Holding(_, q) => q == req
       case Numbered(e, le) =>
         IsAbout(le, s.entries[e].script, req) && le.status == 0 && le.responseHeader == map[]
       case Recorded(e, le, _, fate) =>
         && IsAbout(le, s.entries[e].script, req)
         && (Disconnects(s.entries[e].script, req.step) ==> le.status == 0 && le.responseHeader == map[])
         && (fate == Replied ==> !Disconnects(s.entries[e].script, req.step))
         && (fate == Gone ==> Disconnects(s.entries[e].script, req.step) || Delays(s.entries[e].script, req.step))
  }

  lemma ScriptedMeaning(s: State, e: nat, step: int)
    requires e < |s.entries|
    ensures Scripted(s, e, step).disconnect <==> Disconnects(s.entries[e].script, step)
    ensures Scripted(s, e, step).delayMS > 0 <==> Delays(s.entries[e].script, step)
    ensures Names(s.entries[e].script, step, s.entries[e].script.ResponseFor(step).0)
  {
    var script := s.entries[e].script;
    var name := script.ResponseFor(step).0;
    assert Names(script, step, name) && forall other :: Names(script, step, other) ==> other == name;
  }

  /** The step is one of handler `h`. */
  predicate Moves(st: Step, h: nat) {
    (st.Lookup? || st.Number? || st.Record? || st.Reply? || st.Leave?) && st.h == h
  }

  lemma MoverServes(s: State, st: Step, h: nat, req: Request)
    requires Serves(s, h, req) && Enabled(s, st) && Moves(st, h)
    ensures Serves(Apply(s, st), h, req)
  {
    var x := s.handlers[h];
    if !x.Arrived? {
      StepFrame(s, st, x.entry);
      ScriptedMeaning(s, x.entry, req.step);
    }
    hide Names, Disconnects, Delays, Swept, Scripted, Script.ResponseFor;
  }

  lemma StepServes(s: State, st: Step, h: nat, req: Request)
    requires Serves(s, h, req) && Enabled(s, st)
    ensures Serves(Apply(s, st), h, req)
  {
    if Moves(st, h) {
      MoverServes(s, st, h, req);
    } else {
      var x, s' := s.handlers[h], Apply(s, st);
      if x.Numbered? || x.Recorded? {
        StepFrame(s, st, x.entry);
      }
      assert s'.handlers[h] == x;
      hide Apply, Enabled, IsAbout, Disconnects, Delays;
    }
  }

  /**
   * The log is faithful to requests: in every run, what a handler logs is the request it was given, its
   * script's response to that step, no status when it disconnects, and it replies only if it does not.
   */
  lemma {:induction false} LogTellsRequests(s: State, steps: seq<Step>, s': State, h: nat, req: Request)
    requires Serves(s, h, req) && Run(s, steps, s')
    ensures Serves(s', h, req)
    decreases |steps|
  {
    assert Shaped(s);
    hide Serves;
    if steps != [] {
      StepServes(s, steps[0], h, req);
      LogTellsRequests(Apply(s, steps[0]), steps[1..], s', h, req);
    }
  }

  /** The handler has a number, and its entry was received at `now`. */
  ghost predicate ReceivedAt(s: State, h: nat, now: int) {
    h < |s.handlers| && (s.handlers[h].Numbered? || s.handlers[h].Recorded?) && s.handlers[h].le.received == now
  }

  /** The time of receipt is that of the step which issued the number. */
  lemma {:induction false} NumberStampsTime(s: State, steps: seq<Step>, s': State, h: nat, now: int)
    requires Shaped(s) && Run(s, steps, s') && (ReceivedAt(s, h, now) || Number(h, now) in steps)
    ensures ReceivedAt(s', h, now)
    decreases |steps|
  {
    if steps != [] {
      assert Number(h, now) in steps ==> steps[0] == Number(h, now) || Number(h, now) in steps[1..];
      NumberStampsTime(Apply(s, steps[0]), steps[1..], s', h, now);
    }
  }

  /** The handler recorded `status` and `header`, unless its script has it disconnect. */
  ghost predicate AnsweredWith(s: State, h: nat, status: int, header: Header) {
    && Shaped(s) && h < |s.handlers| && s.handlers[h].Recorded?
    && (!Disconnects(s.entries[s.handlers[h].entry].script, s.handlers[h].le.step) ==>
          s.handlers[h].le.status == status && s.handlers[h].le.responseHeader == header)
  }

  /** What is logged about the answer is what was built for it. */
  lemma {:induction false} RecordKeepsAnswer(
    s: State, steps: seq<Step>, s': State, h: nat, status: int, header: Header)
    requires Shaped(s) && Run(s, steps, s')
    requires AnsweredWith(s, h, status, header) || Record(h, status, header) in steps
    ensures AnsweredWith(s', h, status, header)
    decreases |steps|
  {
    if steps != [] {
      var st, m := steps[0], Apply(s, steps[0]);
      var answer := Record(h, status, header);
      assert answer in steps ==> st == answer || answer in steps[1..];
      if st == Record(h, status, header) {
        ScriptedMeaning(s, s.handlers[h].entry, s.handlers[h].le.step);
      } else if AnsweredWith(s, h, status, header) {
        StepFrame(s, st, s.handlers[h].entry);
      }
      hide Disconnects, Swept, Scripted;
      assert st == answer || AnsweredWith(s, h, status, header) ==> AnsweredWith(m, h, status, header);
      RecordKeepsAnswer(m, steps[1..], s', h, status, header);
    }
  }

  // ---- a request goes through ----

  /** A request under `id`, from its arrival to its reply, or to its end when it is to be cut off. */
  function Serving(
    s: State, id: string, req: Request, received: int, status: int, header: Header, cut: bool): seq<Step>
  {
    var h := |s.handlers|;
    [Arrive(id, req), Lookup(h), Number(h, received), Record(h, status, header), if cut then Leave(h) else Reply(h)]
  }

  /** The state after a number of steps of a run that are all enabled in turn. */
  lemma FiveSteps(s: State, steps: seq<Step>, a: State, b: State, c: State, d: State, s': State)
    requires |steps| == 5 && Shaped(s) && Enabled(s, steps[0]) && a == Apply(s, steps[0])
    requires Enabled(a, steps[1]) && b == Apply(a, steps[1]) && Enabled(b, steps[2]) && c == Apply(b, steps[2])
    requires Enabled(c, steps[3]) && d == Apply(c, steps[3]) && Enabled(d, steps[4]) && s' == Apply(d, steps[4])
    ensures Run(s, steps, s')
  {
    hide Apply, Enabled, Shaped;
    assert Run(s', steps[5..], s') && Run(d, steps[4..], s') && Run(c, steps[3..], s') && Run(b, steps[2..], s');
    assert Run(a, steps[1..], s');
  }

  /**
   * Whatever state the origin is in, a request under a stored ID can be served, and is then the next of its
   * entry's log while that has room. It is answered unless the script disconnects, or delays and the client
   * leaves; and nothing else changes.
   */
  lemma RequestIsServed(s: State, id: string, req: Request, received: int, status: int, header: Header, cut: bool)
    returns (s': State, le: LogEntry)
    requires Shaped(s) && id in s.tests && |s.entries[s.tests[id]].log| < 1000
    requires var script := s.entries[s.tests[id]].script;
      if cut then Disconnects(script, req.step) || Delays(script, req.step) else !Disconnects(script, req.step)
    ensures Run(s, Serving(s, id, req, received, status, header, cut), s')
    ensures Shaped(s') && s'.tests == s.tests && s'.readers == s.readers && |s'.entries| == |s.entries|
    ensures forall k :: 0 <= k < |s.entries| && k != s.tests[id] ==> s'.entries[k] == s.entries[k]
    ensures var e := s.tests[id];
      && s'.entries[e].log == s.entries[e].log + [le] && s'.entries[e].issued == s.entries[e].issued + 1
      && IsAbout(le, s.entries[e].script, req) && le.seqno == s.entries[e].issued + 1 && le.received == received
      && (if Disconnects(s.entries[e].script, req.step) then le.status == 0 && le.responseHeader == map[]
          else le.status == status && le.responseHeader == header)
    ensures |s'.handlers| == |s.handlers| + 1 && s'.handlers[|s.handlers|].Recorded?
    ensures s'.handlers[|s.handlers|].fate == if cut then Gone else Replied
  {
    var e, h := s.tests[id], |s.handlers|;
    var steps := Serving(s, id, req, received, status, header, cut);
    var a, b, c := RequestGetsNumber(s, id, req, received);
    ScriptedMeaning(s, e, req.step);
    ScriptedMeaning(c, e, req.step);
    le := Completed(c, e, NewLogEntry(s, e, req, received), status, header);
    hide Swept, Disconnects, Delays, Names, Script.ResponseFor, Scripted, Completed;
    var d := Apply(c, steps[3]);
    assert d.handlers[h] == Recorded(e, le, Some(|s.entries[e].log|), Writing);
    ScriptedMeaning(d, e, req.step);
    CompletedMeaning(c, e, NewLogEntry(s, e, req, received), status, header);
    s' := Apply(d, steps[4]);
    FiveSteps(s, steps, a, b, c, d, s');
  }

  lemma RequestGetsNumber(s: State, id: string, req: Request, received: int) returns (a: State, b: State, c: State)
    requires Shaped(s) && id in s.tests
    ensures a == Apply(s, Arrive(id, req))
    ensures Enabled(a, Lookup(|s.handlers|)) && b == Apply(a, Lookup(|s.handlers|))
    ensures Enabled(b, Number(|s.handlers|, received)) && c == Apply(b, Number(|s.handlers|, received))
    ensures var e := s.tests[id];
      c == s.(handlers := s.handlers + [Numbered(e, NewLogEntry(s, e, req, received))],
              entries := s.entries[e := s.entries[e].Numbered()])
  {
    hide Swept, Scripted, NewLogEntry;
    var e := s.tests[id];
    a := Apply(s, Arrive(id, req));
    b := Apply(a, Lookup(|s.handlers|));
    assert b == s.(handlers := s.handlers + [Holding(e, req)]);
    c := Apply(b, Number(|s.handlers|, received));
    NewLogEntryFrame(s, b, e, req, received);
    assert c.handlers == s.handlers + [Numbered(e, NewLogEntry(s, e, req, received))];
  }

  lemma NewLogEntryFrame(s: State, b: State, e: nat, req: Request, received: int)
    requires e < |s.entries| && s.entries == b.entries
    ensures NewLogEntry(s, e, req, received) == NewLogEntry(b, e, req, received)
  {
  }

  lemma CompletedMeaning(s: State, e: nat, le: LogEntry, status: int, header: Header)
    requires e < |s.entries|
    ensures var done := Completed(s, e, le, status, header);
      && done.(status := le.status, responseHeader := le.responseHeader) == le
      && if Scripted(s, e, le.step).disconnect then done == le
         else done.status == status && done.responseHeader == header
  {
  }

  /** A reader that asks for a stored ID can read the log as it is. */
  lemma LogIsFetched(s: State, id: string) returns (s': State)
    requires Shaped(s) && id in s.tests
    ensures Run(s, [Ask(id), Find(|s.readers|), Snapshot(|s.readers|)], s')
    ensures |s'.readers| == |s.readers| + 1
    ensures s'.readers[|s.readers|] == Read(id, s.tests[id], s.entries[s.tests[id]].log)
  {
    var steps := [Ask(id), Find(|s.readers|), Snapshot(|s.readers|)];
    var a := Apply(s, steps[0]);
    var b := Apply(a, steps[1]);
    assert b.readers == s.readers + [Found(id, s.tests[id])];
    s' := Apply(b, steps[2]);
    assert Run(s', steps[3..], s') && Run(b, steps[2..], s') && Run(a, steps[1..], s');
  }

  /** After a removal a request under the ID finds nothing to answer it, a reader finds no log, and no entry changes. */
  lemma RemovedIdIsUnknown(s: State, id: string, req: Request) returns (s': State)
    requires Shaped(s)
    ensures Run(s, [Remove(id), Arrive(id, req), Lookup(|s.handlers|), Ask(id), Find(|s.readers|)], s')
    ensures s'.entries == s.entries && s'.tests == map k | k in s.tests && k != id :: s.tests[k]
    ensures s'.handlers == s.handlers + [NotFound] && s'.readers == s.readers + [Unknown(id)]
  {
    var steps := [Remove(id), Arrive(id, req), Lookup(|s.handlers|), Ask(id), Find(|s.readers|)];
    hide Swept, Scripted;
    var a := Apply(s, steps[0]);
    var b := Apply(a, steps[1]);
    var c := Apply(b, steps[2]);
    assert c.handlers == s.handlers + [NotFound];
    var d := Apply(c, steps[3]);
    s' := Apply(d, steps[4]);
    FiveSteps(s, steps, a, b, c, d, s');
  }

  /** An uploaded script answers the next request under its ID, and the log fetched then is that one request. */
  lemma UploadedScriptAnswers(
    s: State, id: string, script: Script, req: Request, uploaded: int, received: int, status: int, header: Header)
    returns (steps: seq<Step>, s': State, le: LogEntry)
    requires Shaped(s)
    ensures Run(s, steps, s') && steps != [] && steps[0] == Put(id, script, uploaded) && Arrive(id, req) in steps
    ensures |s'.readers| > |s.readers| && s'.readers[|s.readers|].Read? && s'.readers[|s.readers|].snapshot == [le]
    ensures IsAbout(le, script, req) && le.seqno == 1 && le.received == received
    ensures if Disconnects(script, req.step) then le.status == 0 else le.status == status && le.responseHeader == header
  {
    hide Swept, Disconnects, IsAbout;
    var put := Put(id, script, uploaded);
    var a := Apply(s, put);
    assert a.tests[id] == |s.entries| && a.entries[|s.entries|] == EntryValue(script, uploaded, 0, []);
    assert a.readers == s.readers;
    assert Run(s, [put], a) by {
      assert [put][1..] == [];
    }
    var b;
    b, le := RequestIsServed(a, id, req, received, status, header, Disconnects(script, req.step));
    s' := LogIsFetched(b, id);
    var serving := Serving(a, id, req, received, status, header, Disconnects(script, req.step));
    var fetching := [Ask(id), Find(|b.readers|), Snapshot(|b.readers|)];
    hide Apply, Enabled, Run, Shaped;
    RunConcat(s, [put], a, serving, b);
    RunConcat(s, [put] + serving, b, fetching, s');
    steps := [put] + serving + fetching;
    assert steps[1] == Arrive(id, req);
  }
}
