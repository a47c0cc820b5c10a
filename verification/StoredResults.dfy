/** What a job's stored result says (`schedule` in pkg/client/runner.go), field by field. */
module StoredResults {
  import opened Wrappers
  import opened TestDef
  import opened Scheduler
  import opened SchedulerTheorems

  /** The job has ended with `res`, whether or not it is stored yet. */
  ghost predicate EndsWith(s: State, j: nat, res: TestResult) {
    && j < |s.phase| && j < |s.result|
    && match s.phase[j]
       case Returning(r) => r == res
       case Stored => s.result[j] == res
       case Closed => s.result[j] == res
       case _ => false
  }

  lemma {:induction false} EndStays(p: Plan, s: State, steps: seq<Scheduler.Step>, s': State, j: nat, res: TestResult)
    requires Shaped(p, s) && Run(p, s, steps, s') && EndsWith(s, j, res)
    ensures EndsWith(s', j, res)
    decreases |steps|
  {
    if steps != [] {
      EndStays(p, Apply(p, s, steps[0]), steps[1..], s', j, res);
    }
  }

  /** The identity of a result is its job's. */
  ghost predicate Identifies(job: Job, res: TestResult) {
    && res.id == job.test.id && res.suite == job.test.suite && res.group == job.test.group
    && res.level == job.test.level && res.refs == job.test.refs && res.clientProto == job.proto
  }

  /** A job's result is exactly what its exercise ended with. */
  lemma {:induction false} FinishedJobReportsExercise(
    p: Plan, s: State, steps: seq<Scheduler.Step>, s': State, j: nat, x: Exercise)
    requires Shaped(p, s) && Run(p, s, steps, s') && Finish(j, x) in steps
    ensures j < |p.jobs| && exists res ::
      && EndsWith(s', j, res) && Identifies(p.jobs[j], res)
      && res.outcome == x.outcome && res.messages == x.messages && res.originProto == x.originProto
    decreases |steps|
  {
    var m := Apply(p, s, steps[0]);
    if steps[0] == Finish(j, x) {
      var res := m.phase[j].res;
      EndStays(p, m, steps[1..], s', j, res);
    } else {
      assert Finish(j, x) in steps[1..];
      FinishedJobReportsExercise(p, m, steps[1..], s', j, x);
    }
  }

  lemma {:induction false} GivenUpJobReportsCancellation(
    p: Plan, s: State, steps: seq<Scheduler.Step>, s': State, j: nat)
    requires Shaped(p, s) && Run(p, s, steps, s') && GiveUp(j) in steps
    ensures j < |p.jobs| && exists res ::
      && EndsWith(s', j, res) && Identifies(p.jobs[j], res)
      && res.outcome == Error && res.messages == ["canceled before start"] && res.originProto == ""
    decreases |steps|
  {
    var m := Apply(p, s, steps[0]);
    if steps[0] == GiveUp(j) {
      var res := m.phase[j].res;
      EndStays(p, m, steps[1..], s', j, res);
    } else {
      assert GiveUp(j) in steps[1..];
      GivenUpJobReportsCancellation(p, m, steps[1..], s', j);
    }
  }

  /** The test names protocols, and `proto` is none of them. */
  ghost predicate Inapplicable(t: Test, proto: Proto) {
    t.protocols != [] && forall i :: 0 <= i < |t.protocols| ==> t.protocols[i] != proto
  }

  /** The job of requirement `m` finished with outcome `o`. */
  ghost predicate RequirementEnded(p: Plan, s: State, j: nat, m: nat, o: Outcome)
    requires Shaped(p, s) && j < |p.jobs| && m < |p.jobs[j].test.deps|
  {
    var key := p.jobs[j].test.deps[m] + "|" + p.jobs[j].proto;
    key in p.byKey && s.phase[p.byKey[key]].Closed? && s.result[p.byKey[key]].outcome == o
  }

  /** How an outcome reads in a message. */
  ghost predicate Reads(o: Outcome, text: string) {
    || (o == Fail && text == "fail") || (o == Inconclusive && text == "inconclusive")
    || (o == Skipped && text == "skipped") || (o == Error && text == "error")
  }

  /** Every requirement before number `m` passed. */
  ghost predicate EarlierPassed(p: Plan, s: State, j: nat, m: nat)
    requires Shaped(p, s) && j < |p.jobs| && m <= |p.jobs[j].test.deps|
  {
    forall i :: 0 <= i < m ==> RequirementEnded(p, s, j, i, Pass)
  }

  /** Requirement `m` is the first that was not selected or did not pass, and `why` says so. */
  ghost predicate UnmetRequirement(p: Plan, s: State, j: nat, m: nat, why: string)
    requires Shaped(p, s) && j < |p.jobs|
  {
    && m < |p.jobs[j].test.deps| && EarlierPassed(p, s, j, m)
    && (var dep := p.jobs[j].test.deps[m];
        || (dep + "|" + p.jobs[j].proto !in p.byKey && why == "requires " + dep + ", which was not selected")
        || (exists o, text ::
              && RequirementEnded(p, s, j, m, o) && Reads(o, text)
              && why == "requires " + dep + ", which did not pass (" + text + ")"))
  }

  /** Why a job was skipped: its test does not apply, or its first unmet requirement. */
  ghost predicate SkippedBecause(p: Plan, s: State, j: nat, why: string)
    requires Shaped(p, s) && j < |p.jobs|
  {
    if Inapplicable(p.jobs[j].test, p.jobs[j].proto)
    then why == "not applicable over " + p.jobs[j].proto
    else exists m :: UnmetRequirement(p, s, j, m, why)
  }

  /** The ended job was skipped for a reason that holds, or attempted because nothing stood in its way. */
  ghost predicate EndedForReason(p: Plan, s: State, j: nat, res: TestResult)
    requires Shaped(p, s) && j < |p.jobs|
  {
    && Identifies(p.jobs[j], res)
    && if res.outcome == Skipped
       then res.originProto == "" && exists why :: res.messages == [why] && SkippedBecause(p, s, j, why)
       else !Inapplicable(p.jobs[j].test, p.jobs[j].proto) && EarlierPassed(p, s, j, |p.jobs[j].test.deps|)
  }

  ghost predicate JobExplained(p: Plan, s: State, j: nat)
    requires Shaped(p, s) && j < |p.jobs|
  {
    var n := |p.jobs[j].test.deps|;
    match s.phase[j]
    case NotStarted => true
    case Waiting(k) => !Inapplicable(p.jobs[j].test, p.jobs[j].proto) && k <= n && EarlierPassed(p, s, j, k)
    case WantSlot => !Inapplicable(p.jobs[j].test, p.jobs[j].proto) && EarlierPassed(p, s, j, n)
    case Running => !Inapplicable(p.jobs[j].test, p.jobs[j].proto) && EarlierPassed(p, s, j, n)
    case Returning(res) => EndedForReason(p, s, j, res)
    case Stored => EndedForReason(p, s, j, s.result[j])
    case Closed => EndedForReason(p, s, j, s.result[j])
  }

  lemma RequirementStaysEnded(p: Plan, s: State, st: Scheduler.Step, j: nat)
    requires Inv(p, s) && Enabled(p, s, st) && j < |p.jobs|
    ensures forall m, o :: 0 <= m < |p.jobs[j].test.deps| && RequirementEnded(p, s, j, m, o) ==>
      RequirementEnded(p, Apply(p, s, st), j, m, o)
  {
    StepFrame(p, s, st);
    hide Apply, Enabled;
  }

  lemma ExplanationStays(p: Plan, s: State, s': State, j: nat)
    requires Shaped(p, s) && Shaped(p, s') && j < |p.jobs| && JobExplained(p, s, j)
    requires s'.phase[j] == s.phase[j] && s'.result[j] == s.result[j]
    requires forall m, o :: 0 <= m < |p.jobs[j].test.deps| && RequirementEnded(p, s, j, m, o) ==>
      RequirementEnded(p, s', j, m, o)
    ensures JobExplained(p, s', j)
  {
    ReasonStays(p, s, s', j);
    hide EndedForReason, RequirementEnded;
  }

  lemma ReasonStays(p: Plan, s: State, s': State, j: nat)
    requires Shaped(p, s) && Shaped(p, s') && j < |p.jobs|
    requires forall m, o :: 0 <= m < |p.jobs[j].test.deps| && RequirementEnded(p, s, j, m, o) ==>
      RequirementEnded(p, s', j, m, o)
    ensures forall k :: 0 <= k <= |p.jobs[j].test.deps| && EarlierPassed(p, s, j, k) ==> EarlierPassed(p, s', j, k)
    ensures forall res :: EndedForReason(p, s, j, res) ==> EndedForReason(p, s', j, res)
  {
    hide RequirementEnded, Inapplicable, Identifies;
    forall why | SkippedBecause(p, s, j, why) ensures SkippedBecause(p, s', j, why) {
      if !Inapplicable(p.jobs[j].test, p.jobs[j].proto) {
        var m :| UnmetRequirement(p, s, j, m, why);
        assert UnmetRequirement(p, s', j, m, why);
      }
    }
  }

  /** The rule of the loop over requirements, with the reason it gives. */
  lemma AwaitExplains(p: Plan, s: State, j: nat)
    requires Inv(p, s) && Enabled(p, s, Await(j)) && JobExplained(p, s, j)
    ensures match AfterAwait(p, s, j)
      case Waiting(k) => k <= |p.jobs[j].test.deps| && EarlierPassed(p, s, j, k)
      case WantSlot => EarlierPassed(p, s, j, |p.jobs[j].test.deps|)
      case Returning(res) => EndedForReason(p, s, j, res)
      case _ => false
  {
    var k, deps := s.phase[j].next, p.jobs[j].test.deps;
    if k < |deps| && DepKey(p, j, k) in p.byKey {
      var d := p.byKey[DepKey(p, j, k)];
      var o := s.result[d].outcome;
      assert JobInv(p, s, d);
      assert RequirementEnded(p, s, j, k, o);
      if o != Pass {
        assert Reads(o, o.Text());
        assert UnmetRequirement(p, s, j, k, AfterAwait(p, s, j).res.messages[0]);
      }
    } else if k < |deps| {
      assert UnmetRequirement(p, s, j, k, AfterAwait(p, s, j).res.messages[0]);
    }
  }

  lemma MoverIsExplained(p: Plan, s: State, st: Scheduler.Step)
    requires Inv(p, s) && Enabled(p, s, st) && !st.Cancel? && JobExplained(p, s, st.j)
    ensures JobExplained(p, Apply(p, s, st), st.j)
  {
    var s' := Apply(p, s, st);
    RequirementStaysEnded(p, s, st, st.j);
    if st.Await? {
      AwaitExplains(p, s, st.j);
    }
    ReasonStays(p, s, s', st.j);
    hide RequirementEnded, EarlierPassed, UnmetRequirement;
  }

  lemma StepKeepsExplained(p: Plan, s: State, st: Scheduler.Step)
    requires Inv(p, s) && Enabled(p, s, st) && forall j :: 0 <= j < |p.jobs| ==> JobExplained(p, s, j)
    ensures forall j :: 0 <= j < |p.jobs| ==> JobExplained(p, Apply(p, s, st), j)
  {
    forall j | 0 <= j < |p.jobs| ensures JobExplained(p, Apply(p, s, st), j) {
      if !st.Cancel? && st.j == j {
        MoverIsExplained(p, s, st);
      } else {
        StepFrame(p, s, st);
        RequirementStaysEnded(p, s, st, j);
        hide Apply, Enabled, JobExplained, RequirementEnded;
        ExplanationStays(p, s, Apply(p, s, st), j);
      }
    }
  }

  lemma {:induction false} RunKeepsExplained(p: Plan, s: State, steps: seq<Scheduler.Step>, s': State)
    requires Inv(p, s) && Run(p, s, steps, s') && forall j :: 0 <= j < |p.jobs| ==> JobExplained(p, s, j)
    ensures Inv(p, s') && forall j :: 0 <= j < |p.jobs| ==> JobExplained(p, s', j)
    decreases |steps|
  {
    assert Shaped(p, s);
    hide Inv, JobExplained;
    if steps != [] {
      StepKeepsExplained(p, s, steps[0]);
      StepKeepsInv(p, s, steps[0]);
      RunKeepsExplained(p, Apply(p, s, steps[0]), steps[1..], s');
    }
  }

  /** A job that ended other than by a skip was exercised or given up. */
  lemma {:induction false} EndedJobWasAttempted(
    p: Plan, s: State, steps: seq<Scheduler.Step>, s': State, j: nat, res: TestResult)
    requires Inv(p, s) && Run(p, s, steps, s') && j < |p.jobs|
    requires EndsWith(s', j, res) && res.outcome != Skipped && !EndsWith(s, j, res)
    ensures GiveUp(j) in steps || exists x :: Finish(j, x) in steps
    decreases |steps|
  {
    var m := Apply(p, s, steps[0]);
    StepKeepsInv(p, s, steps[0]);
    if EndsWith(m, j, res) {
      var st := steps[0];
      assert st in steps;
      assert st.GiveUp? || st.Finish?;
    } else {
      EndedJobWasAttempted(p, m, steps[1..], s', j, res);
      if x :| Finish(j, x) in steps[1..] {
        assert Finish(j, x) in steps;
      }
    }
  }

  /**
   * Every stored result is explained. In every run, cancelled or not, a stored result carries its job's
   * identity. Either it is a skip, for the one reason that applies: the test does not run over the
   * protocol, or its first requirement that is missing or did not pass, which the message names; or
   * nothing stood in the way of the job, and the result is the exercise's that ended it, or says that it
   * was given up.
   */
  lemma StoredResultIsExplained(p: Plan, steps: seq<Scheduler.Step>, s: State, j: nat)
    requires WellFormed(p) && Run(p, Init(p), steps, s)
    requires j < |p.jobs| && j < |s.phase| && (s.phase[j].Stored? || s.phase[j].Closed?) && j < |s.result|
    ensures Shaped(p, s) && Identifies(p.jobs[j], s.result[j])
    ensures var res := s.result[j];
      if res.outcome == Skipped then
        res.originProto == "" && exists why :: res.messages == [why] && SkippedBecause(p, s, j, why)
      else
        && !Inapplicable(p.jobs[j].test, p.jobs[j].proto) && EarlierPassed(p, s, j, |p.jobs[j].test.deps|)
        && (|| (exists x :: Finish(j, x) in steps && res.outcome == x.outcome && res.messages == x.messages
                            && res.originProto == x.originProto)
            || (GiveUp(j) in steps && res.outcome == Error && res.messages == ["canceled before start"]
                && res.originProto == ""))
  {
    InitInv(p);
    RunKeepsExplained(p, Init(p), steps, s);
    assert JobExplained(p, s, j);
    var res := s.result[j];
    if res.outcome != Skipped {
      EndedJobWasAttempted(p, Init(p), steps, s, j, res);
      if x :| Finish(j, x) in steps {
        FinishedJobReportsExercise(p, Init(p), steps, s, j, x);
      } else {
        GivenUpJobReportsCancellation(p, Init(p), steps, s, j);
      }
    }
  }

  /** Conversely an exercise that ended is what its job reports, whatever else happens. */
  lemma ExerciseIsReported(p: Plan, steps: seq<Scheduler.Step>, s: State, j: nat, x: Exercise)
    requires WellFormed(p) && Run(p, Init(p), steps, s) && Finish(j, x) in steps
    requires j < |s.phase| && (s.phase[j].Stored? || s.phase[j].Closed?) && j < |s.result|
    ensures s.result[j].outcome == x.outcome && s.result[j].messages == x.messages
    ensures s.result[j].originProto == x.originProto
    ensures j < |p.jobs| && Identifies(p.jobs[j], s.result[j])
  {
    InitInv(p);
    FinishedJobReportsExercise(p, Init(p), steps, s, j, x);
  }

  /** A cancelled run drains: a job that wants a slot need not wait for one, and says why it was not run. */
  lemma CancellationReleases(p: Plan, s: State, j: nat) returns (steps: seq<Scheduler.Step>, s': State)
    requires Inv(p, s) && j < |p.jobs| && s.phase[j].WantSlot?
    ensures Run(p, s, steps, s') && Shaped(p, s')
    ensures s'.phase[j].Closed? && s'.slots == s.slots
    ensures s'.result[j].outcome == Error && s'.result[j].messages == ["canceled before start"]
  {
    var a := if s.cancelled then s else Apply(p, s, Cancel);
    var b := Apply(p, a, GiveUp(j));
    var c := Apply(p, b, Store(j));
    s' := Apply(p, c, Close(j));
    assert s'.result[j] == Exercised(p.jobs[j], GIVEN_UP);
    var drain := [GiveUp(j), Store(j), Close(j)];
    assert Run(p, s', drain[3..], s') && Run(p, c, drain[2..], s') && Run(p, b, drain[1..], s');
    assert Run(p, a, drain, s');
    if s.cancelled {
      steps := drain;
    } else {
      steps := [Cancel] + drain;
      assert steps[1..] == drain;
    }
  }
}
