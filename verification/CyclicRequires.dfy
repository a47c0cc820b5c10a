/** Why the corpus refuses cycles: what the scheduler does with tests that require each other. */
module CyclicRequires {
  import opened Wrappers
  import opened TestDef
  import opened RequiresGraph
  import opened Scheduler
  import opened SchedulerTheorems

  /** Job `j` requires, at index `m` of its list, a job of `circle`. */
  ghost predicate LeadsInto(p: Plan, circle: set<nat>, j: nat, m: nat) {
    && j < |p.jobs| && m < |p.jobs[j].test.deps|
    && DepKey(p, j, m) in p.byKey && p.byKey[DepKey(p, j, m)] in circle
  }

  /** Jobs each of which requires, at index `at[j]` of its list, another of them. */
  ghost predicate InCircle(p: Plan, at: map<nat, nat>) {
    forall j :: j in at ==> LeadsInto(p, at.Keys, j, at[j])
  }

  /** A job of the circle waits for it, or something else before made it end with a skip. */
  ghost predicate HeldUp(s: State, j: nat, k: nat)
    requires j < |s.phase| && j < |s.result|
  {
    match s.phase[j]
    case NotStarted => true
    case Waiting(next) => next <= k
    case Returning(res) => res.outcome == Skipped
    case Stored => s.result[j].outcome == Skipped
    case Closed => s.result[j].outcome == Skipped
    case _ => false
  }

  /** While the job it requires is held up, so is the job itself. */
  lemma StepKeepsHeldUp(p: Plan, s: State, st: Scheduler.Step, j: nat, m: nat, n: nat)
    requires Shaped(p, s) && Enabled(p, s, st)
    requires j < |p.jobs| && m < |p.jobs[j].test.deps| && DepKey(p, j, m) in p.byKey
    requires HeldUp(s, j, m) && HeldUp(s, p.byKey[DepKey(p, j, m)], n)
    ensures HeldUp(Apply(p, s, st), j, m)
  {
  }

  ghost predicate CircleHeldUp(p: Plan, at: map<nat, nat>, s: State) {
    && Shaped(p, s)
    && forall j :: j in at ==> j < |p.jobs| && HeldUp(s, j, at[j])
  }

  lemma StepKeepsCircle(p: Plan, at: map<nat, nat>, s: State, st: Scheduler.Step)
    requires InCircle(p, at) && CircleHeldUp(p, at, s) && Enabled(p, s, st)
    ensures CircleHeldUp(p, at, Apply(p, s, st))
  {
    hide HeldUp, Apply, Enabled, LeadsInto;
    forall j | j in at ensures HeldUp(Apply(p, s, st), j, at[j]) {
      var d := RequiredInCircle(p, at, j);
      StepKeepsHeldUp(p, s, st, j, at[j], at[d]);
    }
  }

  lemma RequiredInCircle(p: Plan, at: map<nat, nat>, j: nat) returns (d: nat)
    requires InCircle(p, at) && j in at
    ensures j < |p.jobs| && at[j] < |p.jobs[j].test.deps| && DepKey(p, j, at[j]) in p.byKey
    ensures d == p.byKey[DepKey(p, j, at[j])] && d in at
  {
    assert LeadsInto(p, at.Keys, j, at[j]);
    d := p.byKey[DepKey(p, j, at[j])];
  }

  /** In every run, cancelled or not, no job of a circle ever gets as far as wanting a slot. */
  lemma {:induction false} CircleIsNeverExercised(
    p: Plan, at: map<nat, nat>, s: State, steps: seq<Scheduler.Step>, s': State)
    requires InCircle(p, at) && CircleHeldUp(p, at, s) && Run(p, s, steps, s')
    ensures CircleHeldUp(p, at, s')
    decreases |steps|
  {
    hide InCircle;
    if steps != [] {
      StepKeepsCircle(p, at, s, steps[0]);
      CircleIsNeverExercised(p, at, Apply(p, s, steps[0]), steps[1..], s');
    }
  }

  lemma CircleStartsHeldUp(p: Plan, at: map<nat, nat>)
    requires WellFormed(p) && InCircle(p, at)
    ensures CircleHeldUp(p, at, Init(p))
  {
    hide LeadsInto;
    forall j | j in at ensures j < |p.jobs| && HeldUp(Init(p), j, at[j]) {
      var d := RequiredInCircle(p, at, j);
    }
  }

  /** Every job runs over its protocol and finds all it requires. */
  ghost predicate NothingToSkip(p: Plan) {
    forall j :: 0 <= j < |p.jobs| ==>
      && p.jobs[j].test.RunsOver(p.jobs[j].proto)
      && forall m :: 0 <= m < |p.jobs[j].test.deps| ==> DepKey(p, j, m) in p.byKey
  }

  /** Every exercise of the run passed, and it was not cancelled. */
  ghost predicate AllPass(steps: seq<Scheduler.Step>) {
    forall i :: 0 <= i < |steps| ==> steps[i] != Cancel && (steps[i].Finish? ==> steps[i].exercise.outcome == Pass)
  }

  ghost predicate OnlyPasses(p: Plan, s: State)
    requires Shaped(p, s)
  {
    && !s.cancelled
    && forall j :: 0 <= j < |p.jobs| ==>
         match s.phase[j]
         case Returning(res) => res.outcome == Pass
         case Stored => s.result[j].outcome == Pass
         case Closed => s.result[j].outcome == Pass
         case _ => true
  }

  lemma {:induction false} RunOnlyPasses(p: Plan, s: State, steps: seq<Scheduler.Step>, s': State)
    requires NothingToSkip(p) && Shaped(p, s) && OnlyPasses(p, s) && Run(p, s, steps, s') && AllPass(steps)
    ensures Shaped(p, s') && OnlyPasses(p, s')
    decreases |steps|
  {
    if steps != [] {
      assert steps[0] != Cancel && (steps[0].Finish? ==> steps[0].exercise.outcome == Pass);
      assert forall i :: 0 <= i < |steps[1..]| ==> steps[1..][i] == steps[i + 1];
      RunOnlyPasses(p, Apply(p, s, steps[0]), steps[1..], s');
    }
  }

  /** Job `j` has not got past its requirement number `k`. */
  ghost predicate StillWaits(s: State, j: nat, k: nat) {
    j < |s.phase| && (s.phase[j].NotStarted? || (s.phase[j].Waiting? && s.phase[j].next <= k))
  }

  /** When nothing else makes it skip, a job of a circle never gets past its requirement in the circle. */
  lemma CircleNeverFinishes(p: Plan, at: map<nat, nat>, steps: seq<Scheduler.Step>, s: State)
    requires WellFormed(p) && NothingToSkip(p) && InCircle(p, at)
    requires Run(p, Init(p), steps, s) && AllPass(steps)
    ensures forall j :: j in at ==> StillWaits(s, j, at[j])
    ensures at != map[] ==> !Complete(s)
  {
    hide InCircle, LeadsInto, NothingToSkip, IsIndex, Run;
    CircleStartsHeldUp(p, at);
    CircleIsNeverExercised(p, at, Init(p), steps, s);
    RunOnlyPasses(p, Init(p), steps, s);
    forall j | j in at ensures StillWaits(s, j, at[j]) {
      assert HeldUp(s, j, at[j]);
    }
    if j :| j in at {
      assert StillWaits(s, j, at[j]);
    }
  }

  // ---- a cycle of tests is a circle of jobs ----

  lemma NextOnCycle(tests: seq<Test>, cycle: seq<string>, n: string) returns (d: string)
    requires IsPath(tests, cycle) && |cycle| >= 2 && cycle[0] == cycle[|cycle| - 1] && n in cycle
    ensures d in cycle && Edge(tests, n, d)
  {
    var i :| 0 <= i < |cycle| && cycle[i] == n;
    d := if i < |cycle| - 1 then cycle[i + 1] else cycle[1];
    assert i == |cycle| - 1 ==> Edge(tests, cycle[0], cycle[0 + 1]);
  }

  /** The jobs over `proto` of the tests on a cycle. */
  ghost function JobsOf(p: Plan, cycle: seq<string>, proto: Proto): set<nat> {
    set j: nat | j < |p.jobs| && p.jobs[j].proto == proto && p.jobs[j].test.id in cycle
  }

  /** A job over `proto` of a test on the cycle has a requirement whose job is another such job. */
  lemma NextInCircle(
    p: Plan, tests: seq<Test>, protocols: seq<Proto>, cycle: seq<string>, proto: Proto, j: nat)
    returns (m: nat)
    requires PlanOf(p, tests, protocols) && DistinctIds(tests) && proto in protocols
    requires IsPath(tests, cycle) && |cycle| >= 2 && cycle[0] == cycle[|cycle| - 1]
    requires j in JobsOf(p, cycle, proto)
    ensures LeadsInto(p, JobsOf(p, cycle, proto), j, m)
  {
    LayoutMember(tests, protocols, j);
    var test := p.jobs[j].test;
    var d := NextOnCycle(tests, cycle, test.id);
    var t :| t in tests && t.id == test.id && d in t.deps;
    assert t == test;
    m :| 0 <= m < |test.deps| && test.deps[m] == d;
    var after := NextOnCycle(tests, cycle, d);
    var u :| u in tests && u.id == d && after in u.deps;
    var k := LayoutCovers(tests, protocols, u, proto);
    assert JobKey(p.jobs[k].test.id, p.jobs[k].proto) in p.byKey;
    DepJob(p, tests, protocols, j, m);
  }

  lemma SomeJobOf(p: Plan, tests: seq<Test>, protocols: seq<Proto>, cycle: seq<string>, proto: Proto)
    requires PlanOf(p, tests, protocols) && proto in protocols
    requires IsPath(tests, cycle) && |cycle| >= 2
    ensures JobsOf(p, cycle, proto) != {}
  {
    assert Edge(tests, cycle[0], cycle[0 + 1]);
    var t :| t in tests && t.id == cycle[0] && cycle[1] in t.deps;
    var j := LayoutCovers(tests, protocols, t, proto);
    assert j in JobsOf(p, cycle, proto);
  }

  lemma CycleGivesCircle(p: Plan, tests: seq<Test>, protocols: seq<Proto>, a: string) returns (at: map<nat, nat>)
    requires PlanOf(p, tests, protocols) && DistinctIds(tests) && OnCycle(tests, a) && protocols != []
    ensures InCircle(p, at) && at != map[]
  {
    hide PlanOf, LeadsInto, JobsOf, IsPath, DistinctIds;
    var cycle :| IsPath(tests, cycle) && |cycle| >= 2 && cycle[0] == a && cycle[|cycle| - 1] == a;
    var js := JobsOf(p, cycle, protocols[0]);
    SomeJobOf(p, tests, protocols, cycle, protocols[0]);
    forall j | j in js ensures exists m :: LeadsInto(p, js, j, m) {
      var m := NextInCircle(p, tests, protocols, cycle, protocols[0], j);
    }
    at := map j | j in js :: var m :| LeadsInto(p, js, j, m); m;
    assert at.Keys == js;
  }

  // ---- acyclicity is exactly what running needs ----

  ghost predicate CanMove(p: Plan, s: State) {
    Shaped(p, s) && exists st :: Enabled(p, s, st) && !st.Cancel?
  }

  /** An uncancelled run in which every exercise passes stops only when all jobs are done. */
  ghost predicate NeverStuck(p: Plan)
    requires WellFormed(p)
  {
    forall steps, s :: Run(p, Init(p), steps, s) && AllPass(steps) && !Complete(s) ==> CanMove(p, s)
  }

  lemma {:induction false} RunUntilStuck(p: Plan, s: State) returns (steps: seq<Scheduler.Step>, s': State)
    requires Inv(p, s)
    ensures Run(p, s, steps, s') && AllPass(steps) && !CanMove(p, s')
    decreases Measure(p, s)
  {
    if !CanMove(p, s) {
      steps, s' := [], s;
    } else {
      var st :| Enabled(p, s, st) && !st.Cancel?;
      if st.Finish? {
        st := st.(exercise := Exercise(Pass, "", []));
      }
      StepLowersMeasure(p, s, st);
      StepKeepsInv(p, s, st);
      steps, s' := RunUntilStuck(p, Apply(p, s, st));
      steps := [st] + steps;
    }
  }

  lemma ClosedTestsSkipNothing(p: Plan, tests: seq<Test>, protocols: seq<Proto>)
    requires PlanOf(p, tests, protocols) && RequiresGraph.Closed(tests)
    requires forall t, proto :: t in tests && proto in protocols ==> t.RunsOver(proto)
    ensures NothingToSkip(p)
  {
    forall j | 0 <= j < |p.jobs| ensures p.jobs[j].test.RunsOver(p.jobs[j].proto) {
      LayoutMember(tests, protocols, j);
    }
    forall j, m | 0 <= j < |p.jobs| && 0 <= m < |p.jobs[j].test.deps| ensures DepKey(p, j, m) in p.byKey {
      ClosedTestsFindEveryDependency(p, tests, protocols, j, m);
    }
  }

  /**
   * For tests that all run over every protocol and find what they require, running never gets stuck if
   * and only if no test is on a cycle: the check for cycles is what deadlock freedom needs, and all of it.
   */
  lemma AcyclicityIsExact(p: Plan, tests: seq<Test>, protocols: seq<Proto>)
    requires PlanOf(p, tests, protocols) && DistinctIds(tests) && RequiresGraph.Closed(tests) && protocols != []
    requires forall t, proto :: t in tests && proto in protocols ==> t.RunsOver(proto)
    ensures Acyclic(tests) <==> NeverStuck(p)
  {
    hide InCircle, NothingToSkip, IsIndex, Layout, RequiresGraph.Closed;
    InitInv(p);
    if Acyclic(tests) {
      forall steps, s | Run(p, Init(p), steps, s) && AllPass(steps) && !Complete(s) ensures CanMove(p, s) {
        var st := DeadlockFree(p, tests, protocols, steps, s, Exercise(Pass, "", []));
      }
    } else {
      var a :| OnCycle(tests, a);
      var at := CycleGivesCircle(p, tests, protocols, a);
      ClosedTestsSkipNothing(p, tests, protocols);
      var steps, s := RunUntilStuck(p, Init(p));
      CircleNeverFinishes(p, at, steps, s);
    }
  }
}
