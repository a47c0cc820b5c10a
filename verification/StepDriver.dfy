/**
 * Sending a test's steps (`sendSteps` in pkg/client/runner.go) as a transition system: steps go in
 * groups, the requests of a parallel group overlap, and a cancelled wait abandons the rest.
 */
module StepDriver {
  import opened Wrappers
  import opened TestDef
  import opened Judge

  predicate IsParallel(s: TestDef.Step) {
    s.IsRequest() && s.parallel
  }

  /** The end of the run of adjacent parallel requests that starts at `start`. */
  function RunEnd(steps: seq<TestDef.Step>, start: nat): (end: nat)
    requires start <= |steps|
    ensures start <= end <= |steps|
    ensures forall k :: start <= k < end ==> IsParallel(steps[k])
    ensures end < |steps| ==> !IsParallel(steps[end])
    decreases |steps| - start
  {
    if start < |steps| && IsParallel(steps[start]) then RunEnd(steps, start + 1) else start
  }

  /** The run end is the only place where parallel requests stop. */
  lemma {:induction false} RunEndIsUnique(steps: seq<TestDef.Step>, start: nat, end: nat)
    requires start <= end <= |steps| && forall k :: start <= k < end ==> IsParallel(steps[k])
    requires end < |steps| ==> !IsParallel(steps[end])
    ensures RunEnd(steps, start) == end
    decreases end - start
  {
    if start < end {
      RunEndIsUnique(steps, start + 1, end);
    }
  }

  method ParallelEnd(steps: seq<TestDef.Step>, start: nat) returns (end: nat)
    requires start <= |steps| && NoNil(steps)
    ensures end == RunEnd(steps, start)
  {
    end := start;
    while end < |steps| && !steps[end].IsWait() && steps[end].parallel
      invariant start <= end <= |steps|
      invariant forall k :: start <= k < end ==> IsParallel(steps[k])
    {
      end := end + 1;
    }
    RunEndIsUnique(steps, start, end);
  }

  /** Where a request is; `Landed` is the slot of the observation slice once written. */
  datatype Progress = Unsent | InFlight | Landed(obs: Observation)

  /** The current group is `[at, end)`; `at == end` between groups. `sent` lists step numbers as sent. */
  datatype State = State(at: nat, end: nat, progress: seq<Progress>, sent: seq<nat>, cancelled: bool)

  datatype Move =
    | Open
    | Send(n: nat)
    | Land(n: nat, obs: Observation)
    | CloseGroup
    | Waited
    | Interrupted
    | Cancel

  function Init(steps: seq<TestDef.Step>): State {
    State(0, 0, seq(|steps|, _ => Unsent), [], false)
  }

  predicate Shaped(steps: seq<TestDef.Step>, s: State) {
    |s.progress| == |steps| && s.at <= s.end <= |steps|
  }

  predicate Between(s: State) {
    s.at == s.end
  }

  predicate GroupLanded(steps: seq<TestDef.Step>, s: State)
    requires Shaped(steps, s)
  {
    forall k :: s.at <= k < s.end ==> s.progress[k].Landed?
  }

  predicate Enabled(steps: seq<TestDef.Step>, s: State, m: Move)
    requires Shaped(steps, s)
  {
    match m
    case Open => Between(s) && s.at < |steps| && steps[s.at].IsRequest()
    case Send(n) => s.at <= n < s.end && s.progress[n].Unsent?
    case Land(n, _) => n < |steps| && s.progress[n].InFlight?
    case CloseGroup => !Between(s) && GroupLanded(steps, s)
    case Waited => Between(s) && s.at < |steps| && steps[s.at].Step? && steps[s.at].IsWait()
    case Interrupted => Between(s) && s.at < |steps| && steps[s.at].Step? && steps[s.at].IsWait() && s.cancelled
    case Cancel => !s.cancelled
  }

  function Apply(steps: seq<TestDef.Step>, s: State, m: Move): (s': State)
    requires Shaped(steps, s) && Enabled(steps, s, m)
    ensures Shaped(steps, s')
  {
    match m
    case Open => s.(end := if IsParallel(steps[s.at]) then RunEnd(steps, s.at) else s.at + 1)
    case Send(n) => s.(progress := s.progress[n := InFlight], sent := s.sent + [n + 1])
    case Land(n, obs) => s.(progress := s.progress[n := Landed(obs)])
    case CloseGroup => s.(at := s.end)
    case Waited => s.(at := s.at + 1, end := s.at + 1)
    case Interrupted => s.(at := |steps|, end := |steps|)
    case Cancel => s.(cancelled := true)
  }

  ghost predicate Run(steps: seq<TestDef.Step>, s: State, moves: seq<Move>, s': State)
    requires Shaped(steps, s)
    decreases |moves|
  {
    if moves == [] then s == s'
    else Enabled(steps, s, moves[0]) && Run(steps, Apply(steps, s, moves[0]), moves[1..], s')
  }

  predicate Finished(steps: seq<TestDef.Step>, s: State) {
    Between(s) && s.at == |steps|
  }

  // ---- the invariant ----

  /** A group is one lone request or a maximal run of parallel ones. */
  ghost predicate IsGroup(steps: seq<TestDef.Step>, at: nat, end: nat)
    requires at < end <= |steps|
  {
    && (forall k :: at <= k < end ==> steps[k].IsRequest())
    && if IsParallel(steps[at])
       then
         && (forall k :: at <= k < end ==> IsParallel(steps[k]))
         && (end < |steps| ==> !IsParallel(steps[end]))
         && (at > 0 ==> !IsParallel(steps[at - 1]))
       else end == at + 1
  }

  /** Every request before the group has landed, unless an interrupted wait skipped it. */
  ghost predicate EarlierLanded(steps: seq<TestDef.Step>, s: State)
    requires Shaped(steps, s)
  {
    forall k :: 0 <= k < s.at && steps[k].IsRequest() ==> s.progress[k].Landed? || s.cancelled
  }

  ghost predicate LaterUnsent(steps: seq<TestDef.Step>, s: State)
    requires Shaped(steps, s)
  {
    && (forall k :: s.end <= k < |steps| ==> s.progress[k].Unsent?)
    && (forall k :: 0 <= k < |steps| && !steps[k].IsRequest() ==> s.progress[k].Unsent?)
    && (forall k :: 0 <= k < s.at ==> !s.progress[k].InFlight?)
  }

  /** Each number sent is that of a started request, and each started request was sent once. */
  ghost predicate SentOnce(steps: seq<TestDef.Step>, s: State)
    requires Shaped(steps, s)
  {
    && (forall i :: 0 <= i < |s.sent| ==> 1 <= s.sent[i] <= |steps| && !s.progress[s.sent[i] - 1].Unsent?)
    && (forall i, k :: 0 <= i < k < |s.sent| ==> s.sent[i] != s.sent[k])
    && (forall n :: 0 <= n < |steps| && !s.progress[n].Unsent? ==> n + 1 in s.sent)
  }

  ghost predicate Inv(steps: seq<TestDef.Step>, s: State) {
    && Shaped(steps, s)
    && (!Between(s) ==> IsGroup(steps, s.at, s.end))
    && (Between(s) && 0 < s.at < |steps| && IsParallel(steps[s.at]) ==> !IsParallel(steps[s.at - 1]))
    && EarlierLanded(steps, s) && LaterUnsent(steps, s) && SentOnce(steps, s)
  }

  lemma MoveKeepsGroups(steps: seq<TestDef.Step>, s: State, m: Move)
    requires Inv(steps, s) && Enabled(steps, s, m)
    ensures var s' := Apply(steps, s, m);
      && (!Between(s') ==> IsGroup(steps, s'.at, s'.end))
      && (Between(s') && 0 < s'.at < |steps| && IsParallel(steps[s'.at]) ==> !IsParallel(steps[s'.at - 1]))
  {
    hide EarlierLanded, LaterUnsent, SentOnce;
  }

  lemma MoveKeepsLanded(steps: seq<TestDef.Step>, s: State, m: Move)
    requires Inv(steps, s) && Enabled(steps, s, m)
    ensures EarlierLanded(steps, Apply(steps, s, m)) && LaterUnsent(steps, Apply(steps, s, m))
  {
    hide SentOnce;
  }

  lemma MoveKeepsSent(steps: seq<TestDef.Step>, s: State, m: Move)
    requires Shaped(steps, s) && SentOnce(steps, s) && Enabled(steps, s, m)
    ensures SentOnce(steps, Apply(steps, s, m))
  {
    hide RunEnd, IsParallel, GroupLanded;
    var s' := Apply(steps, s, m);
    if m.Send? {
      assert m.n + 1 !in s.sent;
      assert s'.sent[|s.sent|] == m.n + 1;
      forall n | 0 <= n < |steps| && !s'.progress[n].Unsent? ensures n + 1 in s'.sent {
        assert n != m.n ==> n + 1 in s.sent;
      }
    }
  }

  lemma MoveKeepsInv(steps: seq<TestDef.Step>, s: State, m: Move)
    requires Inv(steps, s) && Enabled(steps, s, m)
    ensures Inv(steps, Apply(steps, s, m))
  {
    hide IsGroup, EarlierLanded, LaterUnsent, SentOnce, RunEnd;
    MoveKeepsGroups(steps, s, m);
    MoveKeepsLanded(steps, s, m);
    MoveKeepsSent(steps, s, m);
  }

  lemma {:induction false} RunKeepsInv(steps: seq<TestDef.Step>, s: State, moves: seq<Move>, s': State)
    requires Inv(steps, s) && Run(steps, s, moves, s')
    ensures Inv(steps, s')
    decreases |moves|
  {
    if moves != [] {
      MoveKeepsInv(steps, s, moves[0]);
      RunKeepsInv(steps, Apply(steps, s, moves[0]), moves[1..], s');
    }
  }

  /**
   * No request starts before every request of the earlier groups has landed: whenever one is about to
   * be sent, it is in the current group, which is a lone request or a maximal parallel run, and every
   * request before the group is done. An interrupted wait sends nothing more.
   */
  lemma GroupsAreOrdered(steps: seq<TestDef.Step>, moves: seq<Move>, s: State, n: nat)
    requires Run(steps, Init(steps), moves, s) && Shaped(steps, s) && Enabled(steps, s, Send(n))
    ensures s.at <= n < s.end && IsGroup(steps, s.at, s.end)
    ensures forall k :: 0 <= k < s.at && steps[k].IsRequest() ==> s.progress[k].Landed?
  {
    RunKeepsInv(steps, Init(steps), moves, s);
    ActiveMeansComplete(steps, Init(steps), moves, s);
  }

  /** While the driver has not reached the end, nothing has been skipped, cancelled or not. */
  ghost predicate NothingSkipped(steps: seq<TestDef.Step>, s: State)
    requires Shaped(steps, s)
  {
    s.at < |steps| ==> forall k :: 0 <= k < s.at && steps[k].IsRequest() ==> s.progress[k].Landed?
  }

  lemma {:induction false} ActiveMeansComplete(steps: seq<TestDef.Step>, s: State, moves: seq<Move>, s': State)
    requires Inv(steps, s) && NothingSkipped(steps, s) && Run(steps, s, moves, s')
    ensures Inv(steps, s') && NothingSkipped(steps, s')
    decreases |moves|
  {
    if moves != [] {
      MoveKeepsInv(steps, s, moves[0]);
      ActiveMeansComplete(steps, Apply(steps, s, moves[0]), moves[1..], s');
    }
  }

  /**
   * When the driver returns and the context is not cancelled, which is the only way to judging, every
   * request step has its observation and was sent exactly once, under its own number.
   */
  lemma EvaluatedMeansAllSent(steps: seq<TestDef.Step>, moves: seq<Move>, s: State)
    requires Run(steps, Init(steps), moves, s) && Finished(steps, s) && !s.cancelled
    ensures |s.progress| == |steps|
    ensures forall n :: 0 <= n < |steps| && steps[n].IsRequest() ==> s.progress[n].Landed? && n + 1 in s.sent
    ensures forall i :: 0 <= i < |s.sent| ==> 1 <= s.sent[i] <= |steps| && steps[s.sent[i] - 1].IsRequest()
    ensures forall i, k :: 0 <= i < k < |s.sent| ==> s.sent[i] != s.sent[k]
  {
    RunKeepsInv(steps, Init(steps), moves, s);
  }

  /** The observation of a request is the one that landed for it, and stays. */
  lemma {:induction false} LandedStays(
    steps: seq<TestDef.Step>, s: State, moves: seq<Move>, s': State, n: nat, obs: Observation)
    requires Shaped(steps, s) && Run(steps, s, moves, s') && n < |steps|
    requires s.progress[n] == Landed(obs) || Land(n, obs) in moves
    ensures n < |s'.progress| && s'.progress[n] == Landed(obs)
    decreases |moves|
  {
    if moves != [] {
      assert Land(n, obs) in moves ==> moves[0] == Land(n, obs) || Land(n, obs) in moves[1..];
      LandedStays(steps, Apply(steps, s, moves[0]), moves[1..], s', n, obs);
    }
  }

  lemma {:induction false} FinishedSendsNothing(steps: seq<TestDef.Step>, s: State, moves: seq<Move>, s': State)
    requires Inv(steps, s) && Finished(steps, s) && Run(steps, s, moves, s')
    ensures s'.sent == s.sent && s'.progress == s.progress
    decreases |moves|
  {
    if moves != [] {
      MoveKeepsInv(steps, s, moves[0]);
      FinishedSendsNothing(steps, Apply(steps, s, moves[0]), moves[1..], s');
    }
  }

  /** A wait that a cancellation interrupts ends the sending: no later step is sent. */
  lemma InterruptedWaitAbandons(steps: seq<TestDef.Step>, s: State, moves: seq<Move>, s': State)
    requires Inv(steps, s) && Between(s) && s.cancelled
    requires s.at < |steps| && steps[s.at].Step? && steps[s.at].wait.Some?
    ensures Enabled(steps, s, Interrupted) && Finished(steps, Apply(steps, s, Interrupted))
    ensures Run(steps, Apply(steps, s, Interrupted), moves, s') ==> s'.sent == s.sent && s'.progress == s.progress
  {
    MoveKeepsInv(steps, s, Interrupted);
    if Run(steps, Apply(steps, s, Interrupted), moves, s') {
      FinishedSendsNothing(steps, Apply(steps, s, Interrupted), moves, s');
    }
  }

  // ---- progress and termination ----

  /** Until the driver returns it can always move on without a cancellation. */
  lemma CanMove(steps: seq<TestDef.Step>, s: State, answer: Observation) returns (m: Move)
    requires NoNil(steps) && Inv(steps, s) && !Finished(steps, s)
    ensures Enabled(steps, s, m) && !m.Cancel?
  {
    if Between(s) {
      m := if steps[s.at].IsWait() then Waited else Open;
    } else if GroupLanded(steps, s) {
      m := CloseGroup;
    } else {
      var k :| s.at <= k < s.end && !s.progress[k].Landed?;
      m := if s.progress[k].Unsent? then Send(k) else Land(k, answer);
    }
  }

  function Left(progress: seq<Progress>): nat {
    if progress == [] then 0
    else
      Left(progress[..|progress| - 1])
      + match progress[|progress| - 1] case Unsent => 2 case InFlight => 1 case Landed(_) => 0
  }

  lemma {:induction false} LeftUpdate(progress: seq<Progress>, n: nat, p: Progress)
    requires n < |progress|
    requires (progress[n].Unsent? && p.InFlight?) || (progress[n].InFlight? && p.Landed?)
    ensures Left(progress[n := p]) + 1 == Left(progress)
    decreases |progress|
  {
    var k := |progress| - 1;
    if n < k {
      LeftUpdate(progress[..k], n, p);
      assert progress[n := p][..k] == progress[..k][n := p];
    } else {
      assert progress[n := p][..k] == progress[..k];
    }
  }

  function Measure(steps: seq<TestDef.Step>, s: State): nat
    requires Shaped(steps, s)
  {
    Left(s.progress) + 2 * (|steps| - s.at) + (if Between(s) then 1 else 0) + (if s.cancelled then 0 else 1)
  }

  lemma MoveLowersMeasure(steps: seq<TestDef.Step>, s: State, m: Move)
    requires Inv(steps, s) && Enabled(steps, s, m)
    ensures Measure(steps, Apply(steps, s, m)) < Measure(steps, s)
  {
    if m.Send? || m.Land? {
      LeftUpdate(s.progress, m.n, Apply(steps, s, m).progress[m.n]);
    }
  }

  lemma {:induction false} RunLowersMeasure(steps: seq<TestDef.Step>, s: State, moves: seq<Move>, s': State)
    requires Inv(steps, s) && Run(steps, s, moves, s')
    ensures Shaped(steps, s') && |moves| + Measure(steps, s') <= Measure(steps, s)
    decreases |moves|
  {
    if moves != [] {
      MoveLowersMeasure(steps, s, moves[0]);
      MoveKeepsInv(steps, s, moves[0]);
      RunLowersMeasure(steps, Apply(steps, s, moves[0]), moves[1..], s');
    }
  }

  lemma {:induction false} LeftAtStart(progress: seq<Progress>)
    requires forall k :: 0 <= k < |progress| ==> progress[k].Unsent?
    ensures Left(progress) == 2 * |progress|
    decreases |progress|
  {
    if progress != [] {
      LeftAtStart(progress[..|progress| - 1]);
    }
  }

  /** Sending always terminates: no run has more moves than four per step and two. */
  lemma SendingTerminates(steps: seq<TestDef.Step>, moves: seq<Move>, s: State)
    requires Run(steps, Init(steps), moves, s)
    ensures |moves| <= 4 * |steps| + 2
  {
    LeftAtStart(Init(steps).progress);
    RunLowersMeasure(steps, Init(steps), moves, s);
  }

  /** Without a cancellation every test's steps can all be sent: judging is within reach of every run. */
  lemma {:induction false} SendingCompletes(steps: seq<TestDef.Step>, s: State, answer: Observation)
    returns (moves: seq<Move>, s': State)
    requires NoNil(steps) && Inv(steps, s)
    ensures Run(steps, s, moves, s') && Finished(steps, s') && Cancel !in moves
    ensures !s.cancelled ==> !s'.cancelled
    decreases Measure(steps, s)
  {
    if Finished(steps, s) {
      moves, s' := [], s;
    } else {
      var m := CanMove(steps, s, answer);
      MoveLowersMeasure(steps, s, m);
      MoveKeepsInv(steps, s, m);
      moves, s' := SendingCompletes(steps, Apply(steps, s, m), answer);
      moves := [m] + moves;
    }
  }

  /** From the start, then, some run sends everything, with whatever answers. */
  lemma AllStepsCanBeSent(steps: seq<TestDef.Step>, answer: Observation) returns (moves: seq<Move>, s: State)
    requires NoNil(steps)
    ensures Run(steps, Init(steps), moves, s) && Finished(steps, s) && !s.cancelled
  {
    moves, s := SendingCompletes(steps, Init(steps), answer);
  }
}
