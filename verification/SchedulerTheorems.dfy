/** What holds of every run of the scheduler. */
module SchedulerTheorems {
  import opened Wrappers
  import opened TestDef
  import opened RequiresGraph
  import opened Scheduler
  import Corpus

  // ---- from test IDs to jobs ----

  lemma JobKeyInjective(a: string, p: Proto, b: string, q: Proto)
    requires '|' !in a && '|' !in b && JobKey(a, p) == JobKey(b, q)
    ensures a == b && p == q
  {
    var x, y := JobKey(a, p), JobKey(b, q);
    assert x[|a|] == '|' && y[|b|] == '|';
    assert (forall i :: 0 <= i < |a| ==> x[i] == a[i]) && (forall i :: 0 <= i < |b| ==> y[i] == b[i]);
    assert |a| == |b|;
    assert x[..|a|] == a && y[..|b|] == b;
    assert x[|a| + 1..] == p && y[|b| + 1..] == q;
  }

  ghost predicate NoSeparators(tests: seq<Test>) {
    forall t :: t in tests ==> '|' !in t.id && forall d :: d in t.deps ==> '|' !in d
  }

  /** `p` is the plan of `tests` over `protocols`. */
  ghost predicate PlanOf(p: Plan, tests: seq<Test>, protocols: seq<Proto>) {
    && WellFormed(p)
    && p.jobs == Layout(tests, protocols)
    && NoSeparators(tests)
  }

  /** `rank` strictly decreases from a job to each job it waits for. */
  ghost predicate JobRanked(p: Plan, rank: seq<nat>) {
    && |rank| == |p.jobs|
    && (forall k :: k in p.byKey ==> p.byKey[k] < |p.jobs|)
    && forall j, m :: 0 <= j < |p.jobs| && 0 <= m < |p.jobs[j].test.deps| && DepKey(p, j, m) in p.byKey ==>
         rank[p.byKey[DepKey(p, j, m)]] < rank[j]
  }

  /** The job a key leads to is that very test over that very protocol. */
  lemma DepJob(p: Plan, tests: seq<Test>, protocols: seq<Proto>, j: nat, m: nat)
    requires PlanOf(p, tests, protocols)
    requires j < |p.jobs| && m < |p.jobs[j].test.deps| && DepKey(p, j, m) in p.byKey
    ensures var d := p.jobs[p.byKey[DepKey(p, j, m)]];
      d.test in tests && d.test.id == p.jobs[j].test.deps[m] && d.proto == p.jobs[j].proto
  {
    LayoutMember(tests, protocols, j);
    LayoutMember(tests, protocols, p.byKey[DepKey(p, j, m)]);
    var d := p.jobs[p.byKey[DepKey(p, j, m)]];
    JobKeyInjective(d.test.id, d.proto, p.jobs[j].test.deps[m], p.jobs[j].proto);
  }

  lemma AcyclicTestsRankJobs(p: Plan, tests: seq<Test>, protocols: seq<Proto>) returns (rank: seq<nat>)
    requires PlanOf(p, tests, protocols) && Acyclic(tests)
    ensures JobRanked(p, rank)
  {
    var byId := AcyclicHasRank(tests);
    forall j | 0 <= j < |p.jobs| ensures p.jobs[j].test in tests {
      LayoutMember(tests, protocols, j);
    }
    rank := seq(|p.jobs|, j requires 0 <= j < |p.jobs| => byId[p.jobs[j].test.id]);
    forall j, m | 0 <= j < |p.jobs| && 0 <= m < |p.jobs[j].test.deps| && DepKey(p, j, m) in p.byKey
      ensures rank[p.byKey[DepKey(p, j, m)]] < rank[j]
    {
      DepJob(p, tests, protocols, j, m);
    }
  }

  /** On a closed list no job ever reports a requirement that was not selected. */
  lemma ClosedTestsFindEveryDependency(p: Plan, tests: seq<Test>, protocols: seq<Proto>, j: nat, m: nat)
    requires PlanOf(p, tests, protocols) && RequiresGraph.Closed(tests)
    requires j < |p.jobs| && m < |p.jobs[j].test.deps|
    ensures DepKey(p, j, m) in p.byKey
  {
    LayoutMember(tests, protocols, j);
    var dep := p.jobs[j].test.deps[m];
    assert dep in Ids(tests);
    var t :| t in tests && t.id == dep;
    var d := LayoutCovers(tests, protocols, t, p.jobs[j].proto);
    assert p.jobs[d] == Job(t, p.jobs[j].proto);
  }

  // ---- deadlock freedom ----

  /** Following unfinished dependencies leads, by falling rank, to a job that can move. */
  lemma WaiterLeadsToStep(p: Plan, s: State, rank: seq<nat>, j: nat, x: Exercise) returns (st: Scheduler.Step)
    requires WellFormed(p) && Inv(p, s) && JobRanked(p, rank) && CanEnd(x)
    requires j < |p.jobs| && !s.phase[j].Closed?
    ensures Enabled(p, s, st) && !st.Cancel? && !st.GiveUp?
    ensures st.Finish? ==> st.exercise == x
    decreases rank[j]
  {
    match s.phase[j]
    case NotStarted => st := Start(j);
    case Returning(_) => st := Store(j);
    case Stored => st := Close(j);
    case Running =>
      if s.slots == 0 {
        RunningHoldsSlot(s.phase, j);
      }
      st := Finish(j, x);
    case WantSlot =>
      if s.slots < p.concurrency {
        st := Acquire(j);
      } else {
        var r := SomeRunning(s.phase);
        st := Finish(r, x);
      }
    case Waiting(k) =>
      assert JobInv(p, s, j);
      if k < |p.jobs[j].test.deps| && DepKey(p, j, k) in p.byKey && !s.phase[p.byKey[DepKey(p, j, k)]].Closed? {
        st := WaiterLeadsToStep(p, s, rank, p.byKey[DepKey(p, j, k)], x);
      } else {
        st := Await(j);
      }
  }

  lemma {:induction false} RunningHoldsSlot(phases: seq<Phase>, j: nat)
    requires j < |phases| && phases[j].Running?
    ensures RunningCount(phases) > 0
    decreases |phases|
  {
    if j < |phases| - 1 {
      RunningHoldsSlot(phases[..|phases| - 1], j);
    }
  }

  /**
   * Deadlock freedom: for any acyclic tests, any protocols and any concurrency of at least one,
   * every reachable state with an unfinished job has an enabled step other than a cancellation.
   * `x` is whatever the next exercise to end happens to yield.
   */
  lemma DeadlockFree(
    p: Plan, tests: seq<Test>, protocols: seq<Proto>, steps: seq<Scheduler.Step>, s: State, x: Exercise)
    returns (st: Scheduler.Step)
    requires PlanOf(p, tests, protocols) && Acyclic(tests) && CanEnd(x)
    requires Run(p, Init(p), steps, s) && !Complete(s)
    ensures Inv(p, s) && Enabled(p, s, st) && !st.Cancel?
  {
    InitInv(p);
    RunKeepsInv(p, Init(p), steps, s);
    var rank := AcyclicTestsRankJobs(p, tests, protocols);
    var j :| 0 <= j < |s.phase| && !s.phase[j].Closed?;
    st := WaiterLeadsToStep(p, s, rank, j, x);
  }

  // ---- termination ----

  /** How many more steps a goroutine can take. */
  function Remaining(job: Job, ph: Phase): nat {
    match ph
    case NotStarted => |job.test.deps| + 6
    case Waiting(k) => (if k <= |job.test.deps| then |job.test.deps| - k else 0) + 5
    case WantSlot => 4
    case Running => 3
    case Returning(_) => 2
    case Stored => 1
    case Closed => 0
  }

  function TotalRemaining(jobs: seq<Job>, phases: seq<Phase>): nat
    requires |jobs| == |phases|
  {
    if jobs == [] then 0
    else
      var n := |jobs| - 1;
      TotalRemaining(jobs[..n], phases[..n]) + Remaining(jobs[n], phases[n])
  }

  lemma {:induction false} TotalRemainingUpdate(jobs: seq<Job>, phases: seq<Phase>, j: nat, ph: Phase)
    requires |jobs| == |phases| && j < |jobs|
    ensures TotalRemaining(jobs, phases[j := ph])
         == TotalRemaining(jobs, phases) - Remaining(jobs[j], phases[j]) + Remaining(jobs[j], ph)
    decreases |jobs|
  {
    var n := |jobs| - 1;
    if j < n {
      TotalRemainingUpdate(jobs[..n], phases[..n], j, ph);
      assert phases[j := ph][..n] == phases[..n][j := ph];
    } else {
      assert phases[j := ph][..n] == phases[..n];
    }
  }

  function Measure(p: Plan, s: State): nat
    requires Shaped(p, s)
  {
    TotalRemaining(p.jobs, s.phase) + if s.cancelled then 0 else 1
  }

  lemma StepLowersMeasure(p: Plan, s: State, st: Scheduler.Step)
    requires Inv(p, s) && Enabled(p, s, st)
    ensures Measure(p, Apply(p, s, st)) < Measure(p, s)
  {
    if !st.Cancel? {
      var s' := Apply(p, s, st);
      assert JobInv(p, s, st.j);
      assert s'.phase == s.phase[st.j := s'.phase[st.j]];
      TotalRemainingUpdate(p.jobs, s.phase, st.j, s'.phase[st.j]);
    }
  }

  lemma {:induction false} RunLowersMeasure(p: Plan, s: State, steps: seq<Scheduler.Step>, s': State)
    requires Inv(p, s) && Run(p, s, steps, s')
    ensures Inv(p, s') && |steps| + Measure(p, s') <= Measure(p, s)
    decreases |steps|
  {
    if steps != [] {
      StepLowersMeasure(p, s, steps[0]);
      StepKeepsInv(p, s, steps[0]);
      RunLowersMeasure(p, Apply(p, s, steps[0]), steps[1..], s');
    }
  }

  function DependencyCount(jobs: seq<Job>): nat {
    if jobs == [] then 0 else DependencyCount(jobs[..|jobs| - 1]) + |jobs[|jobs| - 1].test.deps|
  }

  lemma {:induction false} InitialMeasure(jobs: seq<Job>, phases: seq<Phase>)
    requires |jobs| == |phases| && forall j :: 0 <= j < |phases| ==> phases[j].NotStarted?
    ensures TotalRemaining(jobs, phases) == DependencyCount(jobs) + 6 * |jobs|
    decreases |jobs|
  {
    if jobs != [] {
      InitialMeasure(jobs[..|jobs| - 1], phases[..|jobs| - 1]);
    }
  }

  /** Every run, cancelled or not, over cyclic tests or not, is this short. */
  lemma RunsAreBounded(p: Plan, steps: seq<Scheduler.Step>, s: State)
    requires WellFormed(p) && Run(p, Init(p), steps, s)
    ensures |steps| <= DependencyCount(p.jobs) + 6 * |p.jobs| + 1
  {
    InitInv(p);
    RunLowersMeasure(p, Init(p), steps, s);
    InitialMeasure(p.jobs, Init(p).phase);
  }

  lemma {:induction false} RunConcat(
    p: Plan, s: State, a: seq<Scheduler.Step>, m: State, b: seq<Scheduler.Step>, s': State)
    requires Shaped(p, s) && Run(p, s, a, m) && Shaped(p, m) && Run(p, m, b, s')
    ensures Run(p, s, a + b, s')
    decreases |a|
  {
    if a == [] {
      assert a + b == b;
    } else {
      RunConcat(p, Apply(p, s, a[0]), a[1..], m, b, s');
      assert (a + b)[1..] == a[1..] + b;
    }
  }

  /** Every run can be carried on to the end, and without a cancellation if it had none. */
  lemma {:induction false} RunCompletes(p: Plan, s: State, rank: seq<nat>, oracle: nat -> Exercise)
    returns (steps: seq<Scheduler.Step>, s': State)
    requires WellFormed(p) && Inv(p, s) && JobRanked(p, rank) && forall j :: CanEnd(oracle(j))
    ensures Run(p, s, steps, s') && Complete(s') && Follows(steps, oracle) && Cancel !in steps
    decreases Measure(p, s)
  {
    if Complete(s) {
      steps, s' := [], s;
    } else {
      var j :| 0 <= j < |s.phase| && !s.phase[j].Closed?;
      var st := WaiterLeadsToStep(p, s, rank, j, oracle(0));
      if st.Finish? {
        st := st.(exercise := oracle(st.j));
      }
      StepLowersMeasure(p, s, st);
      StepKeepsInv(p, s, st);
      steps, s' := RunCompletes(p, Apply(p, s, st), rank, oracle);
      steps := [st] + steps;
    }
  }

  /** So `execute` always returns: every run of acyclic tests extends to a complete one within the bound. */
  lemma EveryRunFinishes(
    p: Plan, tests: seq<Test>, protocols: seq<Proto>, steps: seq<Scheduler.Step>, s: State, oracle: nat -> Exercise)
    returns (more: seq<Scheduler.Step>, s': State)
    requires PlanOf(p, tests, protocols) && Acyclic(tests)
    requires Run(p, Init(p), steps, s) && forall j :: CanEnd(oracle(j))
    ensures Run(p, Init(p), steps + more, s') && Complete(s')
    ensures Follows(more, oracle) && Cancel !in more
    ensures |steps| + |more| <= DependencyCount(p.jobs) + 6 * |p.jobs| + 1
  {
    InitInv(p);
    RunKeepsInv(p, Init(p), steps, s);
    var rank := AcyclicTestsRankJobs(p, tests, protocols);
    more, s' := RunCompletes(p, s, rank, oracle);
    RunConcat(p, Init(p), steps, s, more, s');
    RunsAreBounded(p, steps + more, s');
  }

  // ---- schedule independence ----

  /** The exercises of the run ended as `oracle` says, which calls a job given up just that. */
  ghost predicate Follows(steps: seq<Scheduler.Step>, oracle: nat -> Exercise) {
    forall i :: 0 <= i < |steps| ==>
      && (steps[i].Finish? ==> steps[i].exercise == oracle(steps[i].j))
      && (steps[i].GiveUp? ==> oracle(steps[i].j) == GIVEN_UP)
  }

  /** The first requirement that is missing or did not pass; the length when all passed. */
  function FirstUnmet(outs: seq<Option<Outcome>>): (m: nat)
    ensures m <= |outs|
    ensures forall i :: 0 <= i < m ==> outs[i] == Some(Pass)
    ensures m < |outs| ==> outs[m] != Some(Pass)
  {
    if outs == [] || outs[0] != Some(Pass) then 0 else 1 + FirstUnmet(outs[1..])
  }

  /** The result of a job from the outcomes of its requirements alone. */
  function Rule(job: Job, x: Exercise, outs: seq<Option<Outcome>>): TestResult
    requires |outs| == |job.test.deps|
  {
    var m := FirstUnmet(outs);
    if !job.test.RunsOver(job.proto) then NotApplicable(job)
    else if m == |outs| then Exercised(job, x)
    else if outs[m].None? then NotSelected(job, job.test.deps[m])
    else NotPassed(job, job.test.deps[m], outs[m].value)
  }

  /** The sequential meaning of a plan: run a job's requirements first, then apply the rule. */
  ghost function Expected(p: Plan, oracle: nat -> Exercise, rank: seq<nat>, j: nat): TestResult
    requires JobRanked(p, rank) && j < |p.jobs|
    decreases rank[j]
  {
    Rule(p.jobs[j], oracle(j), seq(|p.jobs[j].test.deps|, m requires 0 <= m < |p.jobs[j].test.deps| =>
      if DepKey(p, j, m) in p.byKey
      then Some(Expected(p, oracle, rank, p.byKey[DepKey(p, j, m)]).outcome)
      else None))
  }

  ghost function ExpectedOuts(p: Plan, oracle: nat -> Exercise, rank: seq<nat>, j: nat): (outs: seq<Option<Outcome>>)
    requires JobRanked(p, rank) && j < |p.jobs|
    ensures |outs| == |p.jobs[j].test.deps|
  {
    seq(|p.jobs[j].test.deps|, m requires 0 <= m < |p.jobs[j].test.deps| =>
      if DepKey(p, j, m) in p.byKey
      then Some(Expected(p, oracle, rank, p.byKey[DepKey(p, j, m)]).outcome)
      else None)
  }

  lemma ExpectedUnfolds(p: Plan, oracle: nat -> Exercise, rank: seq<nat>, j: nat)
    requires JobRanked(p, rank) && j < |p.jobs|
    ensures Expected(p, oracle, rank, j) == Rule(p.jobs[j], oracle(j), ExpectedOuts(p, oracle, rank, j))
  {
    var outs := seq(|p.jobs[j].test.deps|, m requires 0 <= m < |p.jobs[j].test.deps| =>
      if DepKey(p, j, m) in p.byKey
      then Some(Expected(p, oracle, rank, p.byKey[DepKey(p, j, m)]).outcome)
      else None);
    assert outs == ExpectedOuts(p, oracle, rank, j);
  }

  ghost predicate JobOnTrack(p: Plan, oracle: nat -> Exercise, rank: seq<nat>, s: State, j: nat)
    requires Shaped(p, s) && JobRanked(p, rank) && j < |p.jobs|
  {
    var outs := ExpectedOuts(p, oracle, rank, j);
    match s.phase[j]
    case NotStarted => true
    case Waiting(k) => k <= |outs| && forall m :: 0 <= m < k ==> outs[m] == Some(Pass)
    case WantSlot => forall m :: 0 <= m < |outs| ==> outs[m] == Some(Pass)
    case Running => forall m :: 0 <= m < |outs| ==> outs[m] == Some(Pass)
    case Returning(res) => res == Expected(p, oracle, rank, j)
    case Stored => s.result[j] == Expected(p, oracle, rank, j)
    case Closed => s.result[j] == Expected(p, oracle, rank, j)
  }

  ghost predicate OnTrack(p: Plan, oracle: nat -> Exercise, rank: seq<nat>, s: State) {
    && Inv(p, s) && JobRanked(p, rank)
    && forall j :: 0 <= j < |p.jobs| ==> JobOnTrack(p, oracle, rank, s, j)
  }

  /** The sequential result of a job whose first unmet requirement is number `k`. */
  lemma ExpectedWhenUnmet(p: Plan, oracle: nat -> Exercise, rank: seq<nat>, j: nat, k: nat)
    requires JobRanked(p, rank) && j < |p.jobs| && k < |p.jobs[j].test.deps|
    requires p.jobs[j].test.RunsOver(p.jobs[j].proto)
    requires forall m :: 0 <= m < k ==> ExpectedOuts(p, oracle, rank, j)[m] == Some(Pass)
    requires ExpectedOuts(p, oracle, rank, j)[k] != Some(Pass)
    ensures Expected(p, oracle, rank, j) ==
      if DepKey(p, j, k) in p.byKey
      then NotPassed(p.jobs[j], p.jobs[j].test.deps[k], Expected(p, oracle, rank, p.byKey[DepKey(p, j, k)]).outcome)
      else NotSelected(p.jobs[j], p.jobs[j].test.deps[k])
  {
    ExpectedUnfolds(p, oracle, rank, j);
    assert FirstUnmet(ExpectedOuts(p, oracle, rank, j)) == k;
  }

  lemma AwaitStaysOnTrack(p: Plan, oracle: nat -> Exercise, rank: seq<nat>, s: State, j: nat)
    requires OnTrack(p, oracle, rank, s) && Enabled(p, s, Await(j))
    ensures JobOnTrack(p, oracle, rank, Apply(p, s, Await(j)), j)
  {
    hide Rule, JobKey, NotPassed, NotSelected, Base;
    var k := s.phase[j].next;
    assert JobOnTrack(p, oracle, rank, s, j) && JobInv(p, s, j);
    if k < |p.jobs[j].test.deps| {
      var out := ExpectedOuts(p, oracle, rank, j)[k];
      if DepKey(p, j, k) in p.byKey {
        var d := p.byKey[DepKey(p, j, k)];
        assert JobOnTrack(p, oracle, rank, s, d);
        assert out == Some(s.result[d].outcome);
      }
      if out != Some(Pass) {
        ExpectedWhenUnmet(p, oracle, rank, j, k);
      }
    }
  }

  /** The sequential result of a job whose requirements all passed. */
  lemma ExpectedWhenMet(p: Plan, oracle: nat -> Exercise, rank: seq<nat>, s: State, j: nat)
    requires OnTrack(p, oracle, rank, s) && j < |p.jobs| && (s.phase[j].WantSlot? || s.phase[j].Running?)
    ensures Expected(p, oracle, rank, j) == Exercised(p.jobs[j], oracle(j))
  {
    assert JobInv(p, s, j) && JobOnTrack(p, oracle, rank, s, j);
    assert FirstUnmet(ExpectedOuts(p, oracle, rank, j)) == |p.jobs[j].test.deps|;
    ExpectedUnfolds(p, oracle, rank, j);
  }

  lemma MoverStaysOnTrack(p: Plan, oracle: nat -> Exercise, rank: seq<nat>, s: State, st: Scheduler.Step)
    requires OnTrack(p, oracle, rank, s) && Enabled(p, s, st) && !st.Cancel?
    requires Follows([st], oracle)
    ensures JobOnTrack(p, oracle, rank, Apply(p, s, st), st.j)
  {
    assert JobOnTrack(p, oracle, rank, s, st.j);
    assert [st][0] == st;
    match st
    case Await(j) => AwaitStaysOnTrack(p, oracle, rank, s, j);
    case Start(j) => ExpectedUnfolds(p, oracle, rank, j);
    case Finish(j, x) => ExpectedWhenMet(p, oracle, rank, s, j);
    case GiveUp(j) => ExpectedWhenMet(p, oracle, rank, s, j);
    case _ =>
  }

  lemma StepStaysOnTrack(p: Plan, oracle: nat -> Exercise, rank: seq<nat>, s: State, st: Scheduler.Step)
    requires OnTrack(p, oracle, rank, s) && Enabled(p, s, st) && Follows([st], oracle)
    ensures OnTrack(p, oracle, rank, Apply(p, s, st))
  {
    StepKeepsInv(p, s, st);
    if !st.Cancel? {
      MoverStaysOnTrack(p, oracle, rank, s, st);
    }
    forall i | 0 <= i < |p.jobs| ensures JobOnTrack(p, oracle, rank, Apply(p, s, st), i) {
      assert JobOnTrack(p, oracle, rank, s, i);
    }
  }

  lemma {:induction false} RunStaysOnTrack(
    p: Plan, oracle: nat -> Exercise, rank: seq<nat>, s: State, steps: seq<Scheduler.Step>, s': State)
    requires OnTrack(p, oracle, rank, s) && Run(p, s, steps, s') && Follows(steps, oracle)
    ensures OnTrack(p, oracle, rank, s')
    decreases |steps|
  {
    if steps != [] {
      StepStaysOnTrack(p, oracle, rank, s, steps[0]);
      assert forall i :: 0 <= i < |steps[1..]| ==> steps[1..][i] == steps[i + 1];
      RunStaysOnTrack(p, oracle, rank, Apply(p, s, steps[0]), steps[1..], s');
    }
  }

  /**
   * Schedule independence: however the goroutines interleave and whether or not the run is cancelled, a
   * complete run leaves the result vector of the sequential definition.
   */
  lemma ScheduleIndependence(
    p: Plan, rank: seq<nat>, oracle: nat -> Exercise, steps: seq<Scheduler.Step>, s: State)
    requires WellFormed(p) && JobRanked(p, rank)
    requires Run(p, Init(p), steps, s) && Complete(s) && Follows(steps, oracle)
    ensures |s.result| == |p.jobs|
    ensures forall j :: 0 <= j < |p.jobs| ==> s.result[j] == Expected(p, oracle, rank, j)
  {
    InitInv(p);
    RunStaysOnTrack(p, oracle, rank, Init(p), steps, s);
    forall j | 0 <= j < |p.jobs| ensures s.result[j] == Expected(p, oracle, rank, j) {
      assert JobOnTrack(p, oracle, rank, s, j);
    }
  }

  /** The step ends job `j`'s attempt to be exercised. */
  predicate Settles(st: Scheduler.Step, j: nat) {
    (st.Finish? || st.GiveUp?) && st.j == j
  }

  lemma {:induction false} SettledOnce(p: Plan, s: State, steps: seq<Scheduler.Step>, s': State, j: nat)
    requires Shaped(p, s) && Run(p, s, steps, s') && j < |p.jobs|
    requires s.phase[j].Returning? || s.phase[j].Stored? || s.phase[j].Closed?
    ensures forall i :: 0 <= i < |steps| ==> !Settles(steps[i], j)
    decreases |steps|
  {
    if steps != [] {
      SettledOnce(p, Apply(p, s, steps[0]), steps[1..], s', j);
      assert forall i :: 0 < i < |steps| ==> steps[i] == steps[1..][i - 1];
    }
  }

  /** Every run has an oracle it follows, since each job is exercised or given up at most once. */
  lemma {:induction false} RunHasOracle(p: Plan, s: State, steps: seq<Scheduler.Step>, s': State)
    returns (oracle: nat -> Exercise)
    requires Shaped(p, s) && Run(p, s, steps, s')
    ensures Follows(steps, oracle) && forall j :: CanEnd(oracle(j))
    decreases |steps|
  {
    if steps == [] {
      oracle := (j: nat) => GIVEN_UP;
    } else {
      var st, m := steps[0], Apply(p, s, steps[0]);
      oracle := RunHasOracle(p, m, steps[1..], s');
      if st.Finish? || st.GiveUp? {
        SettledOnce(p, m, steps[1..], s', st.j);
        var rest, x := oracle, if st.Finish? then st.exercise else GIVEN_UP;
        oracle := (j: nat) => if j == st.j then x else rest(j);
      }
      assert forall i :: 0 < i < |steps| ==> steps[i] == steps[1..][i - 1];
    }
  }

  /**
   * So every complete run, cancelled at any moment or not, is a sequential one: some oracle, which agrees
   * with each exercise that ended and calls each job given up just that, has the run's results.
   */
  lemma EveryRunIsSequential(
    p: Plan, rank: seq<nat>, steps: seq<Scheduler.Step>, s: State)
    returns (oracle: nat -> Exercise)
    requires WellFormed(p) && JobRanked(p, rank)
    requires Run(p, Init(p), steps, s) && Complete(s)
    ensures Follows(steps, oracle) && forall j :: CanEnd(oracle(j))
    ensures |s.result| == |p.jobs|
    ensures forall j :: 0 <= j < |p.jobs| ==> s.result[j] == Expected(p, oracle, rank, j)
  {
    oracle := RunHasOracle(p, Init(p), steps, s);
    ScheduleIndependence(p, rank, oracle, steps, s);
  }

  /** Only a cancellation makes a job give up; without one, following an oracle is about exercises alone. */
  lemma {:induction false} UncancelledNeverGivesUp(p: Plan, s: State, steps: seq<Scheduler.Step>, s': State)
    requires Shaped(p, s) && Run(p, s, steps, s') && !s.cancelled && Cancel !in steps
    ensures !s'.cancelled && forall i :: 0 <= i < |steps| ==> !steps[i].GiveUp?
    decreases |steps|
  {
    if steps != [] {
      assert steps[0] != Cancel;
      UncancelledNeverGivesUp(p, Apply(p, s, steps[0]), steps[1..], s');
      assert forall i :: 0 < i < |steps| ==> steps[i] == steps[1..][i - 1];
    }
  }

  /** Two schedules of the same exercises cannot be told apart by their results. */
  lemma SchedulesAgree(
    p: Plan, tests: seq<Test>, protocols: seq<Proto>, oracle: nat -> Exercise,
    steps1: seq<Scheduler.Step>, s1: State, steps2: seq<Scheduler.Step>, s2: State)
    requires PlanOf(p, tests, protocols) && Acyclic(tests)
    requires Run(p, Init(p), steps1, s1) && Complete(s1) && Follows(steps1, oracle)
    requires Run(p, Init(p), steps2, s2) && Complete(s2) && Follows(steps2, oracle)
    ensures s1.result == s2.result
  {
    var rank := AcyclicTestsRankJobs(p, tests, protocols);
    ScheduleIndependence(p, rank, oracle, steps1, s1);
    ScheduleIndependence(p, rank, oracle, steps2, s2);
  }

  // ---- safety of every run, cancelled or not ----

  /** No more jobs are ever exercising than the semaphore has slots. */
  lemma ConcurrencyBound(p: Plan, steps: seq<Scheduler.Step>, s: State)
    requires WellFormed(p) && Run(p, Init(p), steps, s)
    ensures |set j: nat | j < |s.phase| && s.phase[j].Running?| <= p.concurrency
  {
    InitInv(p);
    RunKeepsInv(p, Init(p), steps, s);
    RunningCountIsCardinality(s.phase);
  }

  /** Once `done` is closed the stored result never changes. */
  lemma {:induction false} ClosedResultIsFinal(p: Plan, s: State, steps: seq<Scheduler.Step>, s': State, j: nat)
    requires Inv(p, s) && Run(p, s, steps, s') && j < |p.jobs| && s.phase[j].Closed?
    ensures Inv(p, s') && s'.phase[j].Closed? && s'.result[j] == s.result[j]
    decreases |steps|
  {
    if steps != [] {
      StepFrame(p, s, steps[0]);
      StepKeepsInv(p, s, steps[0]);
      ClosedResultIsFinal(p, Apply(p, s, steps[0]), steps[1..], s', j);
    }
  }

  /** The job of test `id` over `proto` exists, is finished, and passed. */
  ghost predicate PassedOver(p: Plan, s: State, id: string, proto: Proto)
    requires Shaped(p, s)
  {
    var key := JobKey(id, proto);
    && key in p.byKey
    && s.phase[p.byKey[key]].Closed? && s.result[p.byKey[key]].outcome == Pass
    && p.jobs[p.byKey[key]].test.id == id && p.jobs[p.byKey[key]].proto == proto
  }

  lemma {:induction false} PassReachesAlongPath(
    p: Plan, tests: seq<Test>, protocols: seq<Proto>, s: State, j: nat, path: seq<string>)
    requires PlanOf(p, tests, protocols) && DistinctIds(tests) && Inv(p, s)
    requires j < |p.jobs| && DepsPassed(p, s, j, |p.jobs[j].test.deps|)
    requires IsPath(tests, path) && |path| >= 2 && path[0] == p.jobs[j].test.id
    ensures PassedOver(p, s, path[|path| - 1], p.jobs[j].proto)
    decreases |path|
  {
    LayoutMember(tests, protocols, j);
    assert Edge(tests, path[0], path[1]);
    var t :| t in tests && t.id == path[0] && path[1] in t.deps;
    assert t == p.jobs[j].test;
    var m :| 0 <= m < |t.deps| && t.deps[m] == path[1];
    assert DepPassed(p, s, j, m);
    DepJob(p, tests, protocols, j, m);
    var d := p.byKey[DepKey(p, j, m)];
    if |path| > 2 {
      assert JobInv(p, s, d);
      PathSuffix(tests, path, 1);
      PassReachesAlongPath(p, tests, protocols, s, d, path[1..]);
    }
  }

  /**
   * A verdict is only ever given on firm ground: in every reachable state, a job whose stored
   * outcome is pass, fail or inconclusive has every transitive requirement finished with a pass on
   * the same protocol.
   */
  lemma VerdictNeedsTransitivePass(
    p: Plan, tests: seq<Test>, protocols: seq<Proto>, steps: seq<Scheduler.Step>, s: State, j: nat, path: seq<string>)
    requires PlanOf(p, tests, protocols) && DistinctIds(tests)
    requires Run(p, Init(p), steps, s)
    requires j < |p.jobs| && j < |s.phase| && (s.phase[j].Stored? || s.phase[j].Closed?) && j < |s.result|
    requires Judged(s.result[j].outcome)
    requires IsPath(tests, path) && |path| >= 2 && path[0] == p.jobs[j].test.id
    ensures Shaped(p, s) && PassedOver(p, s, path[|path| - 1], p.jobs[j].proto)
  {
    InitInv(p);
    RunKeepsInv(p, Init(p), steps, s);
    assert JobInv(p, s, j);
    PassReachesAlongPath(p, tests, protocols, s, j, path);
  }

  /** Results come out in a stable order: protocol `pi` and test `ti` at place `pi * |tests| + ti`. */
  lemma ResultOrder(
    p: Plan, tests: seq<Test>, protocols: seq<Proto>, steps: seq<Scheduler.Step>, s: State, pi: nat, ti: nat)
    requires PlanOf(p, tests, protocols) && Run(p, Init(p), steps, s) && Complete(s)
    requires pi < |protocols| && ti < |tests|
    ensures |s.result| == |protocols| * |tests| && pi * |tests| + ti < |s.result|
    ensures var r := s.result[pi * |tests| + ti];
      && r.id == tests[ti].id && r.suite == tests[ti].suite && r.level == tests[ti].level
      && r.clientProto == protocols[pi]
      && r.outcome in {Pass, Fail, Inconclusive, Skipped, Error}
  {
    hide Layout, IsIndex, DepsPassed, JobKey;
    InitInv(p);
    RunKeepsInv(p, Init(p), steps, s);
    LayoutAt(tests, protocols, pi, ti);
    assert JobInv(p, s, pi * |tests| + ti);
    assert Base(p.jobs[pi * |tests| + ti]).id == tests[ti].id;
  }

  /**
   * What loading and selection establish is exactly what the scheduler relies on: over a corpus whose
   * requirements were checked, any selection closed under `requires` runs without deadlock and
   * without a missing requirement.
   */
  lemma SelectedTestsRun(
    tests: seq<Test>, chosen: set<string>, protocols: seq<Proto>, p: Plan,
    steps: seq<Scheduler.Step>, s: State, x: Exercise)
    requires DistinctIds(tests) && RequiresGraph.Closed(tests) && Acyclic(tests)
    requires Corpus.IdsValid(tests)
    requires Corpus.ClosedUnderRequires(tests, chosen)
    requires WellFormed(p) && p.jobs == Layout(Corpus.Keep(tests, chosen), protocols)
    requires Run(p, Init(p), steps, s) && CanEnd(x)
    ensures Shaped(p, s)
    ensures Complete(s) || exists st :: Enabled(p, s, st) && !st.Cancel?
    ensures forall j, m :: 0 <= j < |p.jobs| && 0 <= m < |p.jobs[j].test.deps| ==> DepKey(p, j, m) in p.byKey
  {
    var selected := Corpus.Keep(tests, chosen);
    Corpus.SelectionIsRunnable(tests, chosen);
    forall t | t in selected ensures '|' !in t.id && forall d :: d in t.deps ==> '|' !in d {
      assert t in tests;
    }
    assert PlanOf(p, selected, protocols);
    InitInv(p);
    RunKeepsInv(p, Init(p), steps, s);
    if !Complete(s) {
      var st := DeadlockFree(p, selected, protocols, steps, s, x);
    }
    forall j, m | 0 <= j < |p.jobs| && 0 <= m < |p.jobs[j].test.deps| ensures DepKey(p, j, m) in p.byKey {
      ClosedTestsFindEveryDependency(p, selected, protocols, j, m);
    }
  }
}
