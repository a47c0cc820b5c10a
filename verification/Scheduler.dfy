/**
 * The concurrent job scheduler (pkg/client/runner.go) as a transition system: one goroutine per
 * (test, protocol) job, a counting semaphore, and a context that may be cancelled at any moment.
 */
module Scheduler {
  import opened Wrappers
  import opened TestDef
  import opened RequiresGraph

  const H1: Proto := "h1"
  const DEFAULT_CONCURRENCY := 8

  datatype Job = Job(test: Test, proto: Proto)

  datatype Plan = Plan(jobs: seq<Job>, byKey: map<string, nat>, concurrency: nat)

  /** What exercising a test against the proxy yields; the scheduler does not look inside. */
  datatype Exercise = Exercise(outcome: Outcome, originProto: string, messages: seq<string>)

  function JobKey(id: string, p: Proto): string {
    id + "|" + p
  }

  datatype Options = Options(protocols: seq<Proto>, concurrency: int)

  /** There is a protocol and a slot to run with, and what the caller chose is kept. */
  function WithDefaults(o: Options): (r: Options)
    ensures r.protocols != [] && r.concurrency >= 1
    ensures r.protocols == o.protocols || (o.protocols == [] && r.protocols == ["h1"])
    ensures r.concurrency == o.concurrency || (o.concurrency <= 0 && r.concurrency == 8)
  {
    Options(if o.protocols == [] then [H1] else o.protocols,
            if o.concurrency <= 0 then DEFAULT_CONCURRENCY else o.concurrency)
  }

  // ---- planning ----

  /** Protocol-major, test-minor. */
  function Layout(tests: seq<Test>, protocols: seq<Proto>): seq<Job> {
    if protocols == [] then []
    else Layout(tests, protocols[..|protocols| - 1]) + Row(tests, protocols[|protocols| - 1])
  }

  function Row(tests: seq<Test>, p: Proto): seq<Job> {
    seq(|tests|, i requires 0 <= i < |tests| => Job(tests[i], p))
  }

  /** The index holds, for each key of a job, the last job with that key. */
  ghost predicate IsIndex(jobs: seq<Job>, byKey: map<string, nat>) {
    && (forall j :: 0 <= j < |jobs| ==> JobKey(jobs[j].test.id, jobs[j].proto) in byKey)
    && (forall k :: k in byKey ==> byKey[k] < |jobs| && JobKey(jobs[byKey[k]].test.id, jobs[byKey[k]].proto) == k)
    && (forall k, j :: k in byKey && byKey[k] < j < |jobs| ==> JobKey(jobs[j].test.id, jobs[j].proto) != k)
  }

  method MakePlan(tests: seq<Test>, protocols: seq<Proto>) returns (jobs: seq<Job>, byKey: map<string, nat>)
    ensures jobs == Layout(tests, protocols)
    ensures IsIndex(jobs, byKey)
  {
    hide JobKey;
    jobs, byKey := [], map[];
    for pi := 0 to |protocols|
      invariant jobs == Layout(tests, protocols[..pi]) && IsIndex(jobs, byKey)
    {
      var p := protocols[pi];
      ghost var done := jobs;
      for ti := 0 to |tests|
        invariant jobs == done + Row(tests[..ti], p) && IsIndex(jobs, byKey)
      {
        assert Row(tests[..ti + 1], p) == Row(tests[..ti], p) + [Job(tests[ti], p)];
        byKey := byKey[JobKey(tests[ti].id, p) := |jobs|];
        jobs := jobs + [Job(tests[ti], p)];
      }
      assert tests[..|tests|] == tests;
      assert protocols[..pi + 1][..pi] == protocols[..pi];
    }
    assert protocols[..|protocols|] == protocols;
  }

  /** What `execute` starts from, whatever the options: the jobs, their index and a semaphore with a slot. */
  method Prepare(tests: seq<Test>, options: Options) returns (p: Plan)
    ensures WellFormed(p) && p.jobs == Layout(tests, WithDefaults(options).protocols)
    ensures p.concurrency == options.concurrency || (options.concurrency <= 0 && p.concurrency == 8)
  {
    var o := WithDefaults(options);
    var jobs, byKey := MakePlan(tests, o.protocols);
    p := Plan(jobs, byKey, o.concurrency);
  }

  /** The result vector's order: protocol `pi` and test `ti` sit at `pi * |tests| + ti`. */
  lemma {:induction false} LayoutAt(tests: seq<Test>, protocols: seq<Proto>, pi: nat, ti: nat)
    requires pi < |protocols| && ti < |tests|
    ensures |Layout(tests, protocols)| == |protocols| * |tests|
    ensures pi * |tests| + ti < |Layout(tests, protocols)|
    ensures Layout(tests, protocols)[pi * |tests| + ti] == Job(tests[ti], protocols[pi])
    decreases |protocols|
  {
    LayoutSize(tests, protocols);
    var shorter := protocols[..|protocols| - 1];
    LayoutSize(tests, shorter);
    if pi < |shorter| {
      LayoutAt(tests, shorter, pi, ti);
    }
  }

  lemma {:induction false} LayoutSize(tests: seq<Test>, protocols: seq<Proto>)
    ensures |Layout(tests, protocols)| == |protocols| * |tests|
    decreases |protocols|
  {
    if protocols != [] {
      var n := |protocols| - 1;
      LayoutSize(tests, protocols[..n]);
      assert (n + 1) * |tests| == n * |tests| + |tests|;
    }
  }

  /** Conversely every job is a test of the list over a protocol of the list. */
  lemma {:induction false} LayoutMember(tests: seq<Test>, protocols: seq<Proto>, j: nat)
    requires j < |Layout(tests, protocols)|
    ensures Layout(tests, protocols)[j].test in tests && Layout(tests, protocols)[j].proto in protocols
    decreases |protocols|
  {
    var shorter := protocols[..|protocols| - 1];
    if j < |Layout(tests, shorter)| {
      LayoutMember(tests, shorter, j);
    }
  }

  lemma {:induction false} LayoutCovers(tests: seq<Test>, protocols: seq<Proto>, t: Test, p: Proto) returns (j: nat)
    requires t in tests && p in protocols
    ensures j < |Layout(tests, protocols)| && Layout(tests, protocols)[j] == Job(t, p)
    decreases |protocols|
  {
    var shorter := protocols[..|protocols| - 1];
    if p in shorter {
      j := LayoutCovers(tests, shorter, t, p);
    } else {
      var ti :| 0 <= ti < |tests| && tests[ti] == t;
      j := |Layout(tests, shorter)| + ti;
    }
  }

  // ---- the transition system ----

  /** Where a job's goroutine is. `Waiting(k)` blocks on dependency number `k`. */
  datatype Phase =
    | NotStarted
    | Waiting(next: nat)
    | WantSlot
    | Running
    | Returning(res: TestResult)
    | Stored
    | Closed

  /** `result[j]` is the job's result field, zero until stored; `slots` counts semaphore tokens taken. */
  datatype State = State(phase: seq<Phase>, result: seq<TestResult>, slots: nat, cancelled: bool)

  datatype Step =
    | Start(j: nat)
    | Await(j: nat)
    | Acquire(j: nat)
    | GiveUp(j: nat)
    | Finish(j: nat, exercise: Exercise)
    | Store(j: nat)
    | Close(j: nat)
    | Cancel

  /** How a job that was cancelled before it got a slot ends: as if it had been exercised with this outcome. */
  const GIVEN_UP := Exercise(Error, "", ["canceled before start"])

  const ZERO_RESULT := TestResult("", "", "", "", [], "", "", Other(""), [])

  function Base(job: Job): TestResult {
    TestResult(job.test.id, job.test.suite, job.test.group, job.test.level, job.test.refs, job.proto, "", Other(""), [])
  }

  function NotApplicable(job: Job): TestResult {
    Base(job).With(Skipped, ["not applicable over " + job.proto])
  }

  function NotSelected(job: Job, dep: string): TestResult {
    Base(job).With(Skipped, ["requires " + dep + ", which was not selected"])
  }

  function NotPassed(job: Job, dep: string, o: Outcome): TestResult {
    Base(job).With(Skipped, ["requires " + dep + ", which did not pass (" + o.Text() + ")"])
  }

  function Exercised(job: Job, x: Exercise): TestResult {
    Base(job).(originProto := x.originProto).With(x.outcome, x.messages)
  }

  /** Exercising ends in a verdict or a harness error, never in a skip. */
  predicate CanEnd(x: Exercise) {
    x.outcome in {Pass, Fail, Inconclusive, Error}
  }

  function DepKey(p: Plan, j: nat, m: nat): string
    requires j < |p.jobs| && m < |p.jobs[j].test.deps|
  {
    JobKey(p.jobs[j].test.deps[m], p.jobs[j].proto)
  }

  ghost predicate WellFormed(p: Plan) {
    IsIndex(p.jobs, p.byKey) && p.concurrency >= 1
  }

  predicate Shaped(p: Plan, s: State) {
    && |s.phase| == |s.result| == |p.jobs|
    && forall k :: k in p.byKey ==> p.byKey[k] < |p.jobs|
  }

  function Init(p: Plan): State {
    State(seq(|p.jobs|, _ => NotStarted), seq(|p.jobs|, _ => ZERO_RESULT), 0, false)
  }

  predicate Enabled(p: Plan, s: State, st: Step)
    requires Shaped(p, s)
  {
    match st
    case Start(j) => j < |p.jobs| && s.phase[j].NotStarted?
    case Await(j) =>
      && j < |p.jobs| && s.phase[j].Waiting?
      && (s.phase[j].next < |p.jobs[j].test.deps| ==>
            var key := DepKey(p, j, s.phase[j].next);
            key in p.byKey ==> s.phase[p.byKey[key]].Closed?)
    case Acquire(j) => j < |p.jobs| && s.phase[j].WantSlot? && s.slots < p.concurrency
    case GiveUp(j) => j < |p.jobs| && s.phase[j].WantSlot? && s.cancelled
    case Finish(j, x) => j < |p.jobs| && s.phase[j].Running? && s.slots > 0 && CanEnd(x)
    case Store(j) => j < |p.jobs| && s.phase[j].Returning?
    case Close(j) => j < |p.jobs| && s.phase[j].Stored?
    case Cancel => !s.cancelled
  }

  /** One turn of the loop over `requires`, or leaving it. */
  function AfterAwait(p: Plan, s: State, j: nat): Phase
    requires Shaped(p, s) && Enabled(p, s, Await(j))
  {
    var job, k := p.jobs[j], s.phase[j].next;
    if k >= |job.test.deps| then WantSlot
    else if DepKey(p, j, k) !in p.byKey then Returning(NotSelected(job, job.test.deps[k]))
    else
      var o := s.result[p.byKey[DepKey(p, j, k)]].outcome;
      if o != Pass then Returning(NotPassed(job, job.test.deps[k], o)) else Waiting(k + 1)
  }

  function Apply(p: Plan, s: State, st: Step): (s': State)
    requires Shaped(p, s) && Enabled(p, s, st)
    ensures Shaped(p, s')
  {
    match st
    case Start(j) =>
      s.(phase := s.phase[j := if p.jobs[j].test.RunsOver(p.jobs[j].proto)
                               then Waiting(0) else Returning(NotApplicable(p.jobs[j]))])
    case Await(j) => s.(phase := s.phase[j := AfterAwait(p, s, j)])
    case Acquire(j) => s.(phase := s.phase[j := Running], slots := s.slots + 1)
    case GiveUp(j) =>
      s.(phase := s.phase[j := Returning(Base(p.jobs[j]).With(Error, ["canceled before start"]))])
    case Finish(j, x) =>
      s.(phase := s.phase[j := Returning(Exercised(p.jobs[j], x))], slots := s.slots - 1)
    case Store(j) => s.(phase := s.phase[j := Stored], result := s.result[j := s.phase[j].res])
    case Close(j) => s.(phase := s.phase[j := Closed])
    case Cancel => s.(cancelled := true)
  }

  ghost predicate Run(p: Plan, s: State, steps: seq<Step>, s': State)
    requires Shaped(p, s)
    decreases |steps|
  {
    if steps == [] then s == s'
    else Enabled(p, s, steps[0]) && Run(p, Apply(p, s, steps[0]), steps[1..], s')
  }

  ghost predicate Complete(s: State) {
    forall j :: 0 <= j < |s.phase| ==> s.phase[j].Closed?
  }

  // ---- the invariant ----

  function RunningCount(phases: seq<Phase>): nat {
    if phases == [] then 0
    else RunningCount(phases[..|phases| - 1]) + (if phases[|phases| - 1].Running? then 1 else 0)
  }

  lemma {:induction false} RunningCountUpdate(phases: seq<Phase>, j: nat, ph: Phase)
    requires j < |phases|
    ensures RunningCount(phases[j := ph])
         == RunningCount(phases) - (if phases[j].Running? then 1 else 0) + (if ph.Running? then 1 else 0)
    decreases |phases|
  {
    var n := |phases| - 1;
    if j < n {
      RunningCountUpdate(phases[..n], j, ph);
      assert phases[j := ph][..n] == phases[..n][j := ph];
    } else {
      assert phases[j := ph][..n] == phases[..n];
    }
  }

  lemma {:induction false} SomeRunning(phases: seq<Phase>) returns (j: nat)
    requires RunningCount(phases) > 0
    ensures j < |phases| && phases[j].Running?
    decreases |phases|
  {
    j := |phases| - 1;
    if !phases[j].Running? {
      j := SomeRunning(phases[..j]);
    }
  }

  lemma {:induction false} RunningCountIsCardinality(phases: seq<Phase>)
    ensures |set j: nat | j < |phases| && phases[j].Running?| == RunningCount(phases)
    decreases |phases|
  {
    if phases != [] {
      var n := |phases| - 1;
      RunningCountIsCardinality(phases[..n]);
      var before := set j: nat | j < |phases[..n]| && phases[..n][j].Running?;
      var all := set j: nat | j < |phases| && phases[j].Running?;
      assert all == before + (if phases[n].Running? then {n} else {});
    }
  }

  /** Dependency `m` of job `j` was selected, has finished, and passed. */
  ghost predicate DepPassed(p: Plan, s: State, j: nat, m: nat)
    requires Shaped(p, s) && j < |p.jobs| && m < |p.jobs[j].test.deps|
  {
    var key := DepKey(p, j, m);
    key in p.byKey && s.phase[p.byKey[key]].Closed? && s.result[p.byKey[key]].outcome == Pass
  }

  ghost predicate DepsPassed(p: Plan, s: State, j: nat, k: nat)
    requires Shaped(p, s) && j < |p.jobs| && k <= |p.jobs[j].test.deps|
  {
    forall m :: 0 <= m < k ==> DepPassed(p, s, j, m)
  }

  /** A judged outcome means the proxy was really exercised. */
  predicate Judged(o: Outcome) {
    o in {Pass, Fail, Inconclusive}
  }

  ghost predicate Justified(p: Plan, s: State, j: nat, res: TestResult)
    requires Shaped(p, s) && j < |p.jobs|
  {
    && res.(originProto := "", outcome := Other(""), messages := []) == Base(p.jobs[j])
    && res.outcome in {Pass, Fail, Inconclusive, Skipped, Error}
    && (Judged(res.outcome) ==>
          p.jobs[j].test.RunsOver(p.jobs[j].proto) && DepsPassed(p, s, j, |p.jobs[j].test.deps|))
  }

  ghost predicate JobInv(p: Plan, s: State, j: nat)
    requires Shaped(p, s) && j < |p.jobs|
  {
    match s.phase[j]
    case NotStarted => true
    case Waiting(k) =>
      && p.jobs[j].test.RunsOver(p.jobs[j].proto)
      && k <= |p.jobs[j].test.deps| && DepsPassed(p, s, j, k)
    case WantSlot =>
      p.jobs[j].test.RunsOver(p.jobs[j].proto) && DepsPassed(p, s, j, |p.jobs[j].test.deps|)
    case Running =>
      p.jobs[j].test.RunsOver(p.jobs[j].proto) && DepsPassed(p, s, j, |p.jobs[j].test.deps|)
    case Returning(res) => Justified(p, s, j, res)
    case Stored => Justified(p, s, j, s.result[j])
    case Closed => Justified(p, s, j, s.result[j])
  }

  ghost predicate Inv(p: Plan, s: State) {
    && Shaped(p, s)
    && s.slots == RunningCount(s.phase) <= p.concurrency
    && forall j :: 0 <= j < |p.jobs| ==> JobInv(p, s, j)
  }

  lemma InitInv(p: Plan)
    requires WellFormed(p)
    ensures Inv(p, Init(p))
  {
    NoneRunning(Init(p).phase);
  }

  lemma {:induction false} NoneRunning(phases: seq<Phase>)
    requires forall j :: 0 <= j < |phases| ==> !phases[j].Running?
    ensures RunningCount(phases) == 0
    decreases |phases|
  {
    if phases != [] {
      NoneRunning(phases[..|phases| - 1]);
    }
  }

  /** A job's step leaves the other goroutines and the results of closed jobs alone. */
  lemma StepFrame(p: Plan, s: State, st: Step)
    requires Inv(p, s) && Enabled(p, s, st)
    ensures var s' := Apply(p, s, st);
      && (s.cancelled ==> s'.cancelled)
      && (forall i :: 0 <= i < |p.jobs| && s.phase[i].Closed? ==> s'.phase[i].Closed? && s'.result[i] == s.result[i])
      && (forall i :: 0 <= i < |p.jobs| && !(!st.Cancel? && st.j == i) ==>
            s'.phase[i] == s.phase[i] && s'.result[i] == s.result[i])
  {
  }

  lemma OtherJobKeepsInv(p: Plan, s: State, s': State, i: nat)
    requires Shaped(p, s) && Shaped(p, s') && i < |p.jobs| && JobInv(p, s, i)
    requires s'.phase[i] == s.phase[i] && s'.result[i] == s.result[i]
    requires forall d :: 0 <= d < |p.jobs| && s.phase[d].Closed? ==> s'.phase[d].Closed? && s'.result[d] == s.result[d]
    ensures JobInv(p, s', i)
  {
    assert forall m :: 0 <= m < |p.jobs[i].test.deps| && DepPassed(p, s, i, m) ==> DepPassed(p, s', i, m);
  }

  lemma StepKeepsInv(p: Plan, s: State, st: Step)
    requires Inv(p, s) && Enabled(p, s, st)
    ensures Inv(p, Apply(p, s, st))
  {
    var s' := Apply(p, s, st);
    StepFrame(p, s, st);
    if !st.Cancel? {
      RunningCountUpdate(s.phase, st.j, s'.phase[st.j]);
      assert JobInv(p, s, st.j);
      MoverKeepsInv(p, s, st);
    }
    forall i | 0 <= i < |p.jobs| ensures JobInv(p, s', i) {
      assert JobInv(p, s, i);
      if st.Cancel? || st.j != i {
        OtherJobKeepsInv(p, s, s', i);
      }
    }
  }

  lemma MoverKeepsInv(p: Plan, s: State, st: Step)
    requires Shaped(p, s) && Enabled(p, s, st) && !st.Cancel? && JobInv(p, s, st.j)
    requires forall i :: 0 <= i < |p.jobs| && s.phase[i].Closed? ==>
      Apply(p, s, st).phase[i].Closed? && Apply(p, s, st).result[i] == s.result[i]
    ensures JobInv(p, Apply(p, s, st), st.j)
  {
    var s' := Apply(p, s, st);
    assert forall m :: 0 <= m < |p.jobs[st.j].test.deps| && DepPassed(p, s, st.j, m) ==> DepPassed(p, s', st.j, m);
  }

  lemma {:induction false} RunKeepsInv(p: Plan, s: State, steps: seq<Step>, s': State)
    requires Inv(p, s) && Run(p, s, steps, s')
    ensures Inv(p, s')
    decreases |steps|
  {
    if steps != [] {
      StepKeepsInv(p, s, steps[0]);
      RunKeepsInv(p, Apply(p, s, steps[0]), steps[1..], s');
    }
  }
}
