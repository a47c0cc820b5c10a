/** Exercising one test (`exercise` in pkg/client/runner.go): upload, send, fetch the log, judge. */
module Exercising {
  import opened Wrappers
  import opened TestDef
  import opened Protocol
  import opened Judge
  import Scheduler
  import StepDriver

  /** What a step that sent nothing leaves in its slot. */
  const NO_OBSERVATION := Observation(0, map[], map[], [], "", "", None, 0, 0, false)

  function Observations(progress: seq<StepDriver.Progress>): (obs: seq<Observation>)
    ensures |obs| == |progress|
    ensures forall i :: 0 <= i < |obs| && progress[i].Landed? ==> obs[i] == progress[i].obs
  {
    seq(|progress|, i requires 0 <= i < |progress| =>
      if progress[i].Landed? then progress[i].obs else NO_OBSERVATION)
  }

  function HarnessError(msg: string): Scheduler.Exercise {
    Scheduler.Exercise(Error, "", [msg])
  }

  function Describe(describe: Failure -> string, fails: seq<Failure>): seq<string> {
    seq(|fails|, i requires 0 <= i < |fails| => describe(fails[i]))
  }

  /** `s` is where sending the steps ended; the upload and the log request may fail. */
  function Exercise(
    lib: Library, describe: Failure -> string, t: Test,
    uploaded: Option<string>, s: StepDriver.State, fetched: Result<Log, string>): Scheduler.Exercise
  {
    if uploaded.Some? then HarnessError("uploading script: " + uploaded.value)
    else if s.cancelled then HarnessError("canceled")
    else
      match fetched
      case Err(e) => HarnessError("fetching origin log: " + e)
      case Ok(log) =>
        var obs := Observations(s.progress);
        var fails := Failures(lib, t.steps, obs, log, Judgeable(t.steps, obs));
        Scheduler.Exercise(VerdictOf(fails), if log == [] then "" else log[0].proto, Describe(describe, fails))
  }

  /** Every request step was sent exactly once, under its own number, and answered. */
  ghost predicate SentInFull(steps: seq<TestDef.Step>, s: StepDriver.State) {
    && |s.progress| == |steps|
    && (forall n :: 0 <= n < |steps| && steps[n].IsRequest() ==> s.progress[n].Landed? && n + 1 in s.sent)
    && (forall i, k :: 0 <= i < k < |s.sent| ==> s.sent[i] != s.sent[k])
    && (forall i :: 0 <= i < |s.sent| ==> 1 <= s.sent[i] <= |steps| && steps[s.sent[i] - 1].IsRequest())
  }

  /** Request step `n` met its expectations, judged on its own observation and its own log entries. */
  ghost predicate StepMet(lib: Library, steps: seq<TestDef.Step>, s: StepDriver.State, log: Log, n: nat)
    requires n < |steps| && |s.progress| == |steps| && steps[n].Step? && s.progress[n].Landed?
  {
    Meets(lib, steps[n].expectation, s.progress[n].obs, OfStep(log, n + 1))
  }

  /** What an exercise reports when it could not be judged: the first thing that went wrong. */
  ghost predicate IsHarnessError(
    x: Scheduler.Exercise, uploaded: Option<string>, cancelled: bool, fetched: Result<Log, string>)
  {
    && x.outcome == Error && x.originProto == "" && |x.messages| == 1
    && x.messages[0] ==
       match uploaded
       case Some(e) => "uploading script: " + e
       case None =>
         if cancelled then "canceled"
         else if fetched.Err? then "fetching origin log: " + fetched.error
         else ""
  }

  /** The messages describe the failures one by one, which are the deserved messages of the request steps in order. */
  ghost predicate DescribesFailures(
    lib: Library, describe: Failure -> string, steps: seq<TestDef.Step>, s: StepDriver.State, log: Log,
    messages: seq<string>, fails: seq<Failure>)
    requires SentInFull(steps, s)
  {
    && |messages| == |fails|
    && (forall i :: 0 <= i < |fails| ==> messages[i] == describe(fails[i]))
    && (forall i, k :: 0 <= i < k < |fails| ==> fails[i].step <= fails[k].step)
    && (forall f :: f in fails <==> IsDeserved(lib, steps, s, log, f))
  }

  ghost predicate IsDeserved(
    lib: Library, steps: seq<TestDef.Step>, s: StepDriver.State, log: Log, f: Failure)
    requires SentInFull(steps, s)
  {
    && 1 <= f.step <= |steps| && steps[f.step - 1].IsRequest()
    && f.arrange == steps[f.step - 1].arrange
    && Deserved(lib, steps[f.step - 1].expectation, s.progress[f.step - 1].obs, OfStep(log, f.step), f.message)
  }

  /** What an exercise reports besides its outcome: the protocol the origin saw first, and every failure or error. */
  lemma ReportIsExact(
    lib: Library, describe: Failure -> string, t: Test, uploaded: Option<string>,
    moves: seq<StepDriver.Move>, s: StepDriver.State, fetched: Result<Log, string>) returns (fails: seq<Failure>)
    requires StepDriver.Run(t.steps, StepDriver.Init(t.steps), moves, s) && StepDriver.Finished(t.steps, s)
    ensures var x := Exercise(lib, describe, t, uploaded, s, fetched);
      if uploaded.Some? || s.cancelled || fetched.Err? then IsHarnessError(x, uploaded, s.cancelled, fetched)
      else
        && SentInFull(t.steps, s)
        && DescribesFailures(lib, describe, t.steps, s, fetched.value, x.messages, fails)
        && (fetched.value == [] ==> x.originProto == "")
        && (fetched.value != [] ==> x.originProto == fetched.value[0].proto)
  {
    fails := [];
    if uploaded.None? && !s.cancelled && fetched.Ok? {
      StepDriver.EvaluatedMeansAllSent(t.steps, moves, s);
      var obs := Observations(s.progress);
      fails := Failures(lib, t.steps, obs, fetched.value, |t.steps|);
      FailuresAreDeserved(lib, t.steps, obs, fetched.value, |t.steps|);
      hide Deserved, Failures;
    }
  }

  /**
   * A verdict is earned: whatever the interleaving of the sends and whatever the proxy answers, an
   * exercise ends in pass, fail, inconclusive or error, and in one of the first three only after the
   * script was uploaded, every request step was sent once and answered, and the log was fetched. It is
   * then a pass exactly when every request step met its expectations, and inconclusive exactly when
   * some arrange step did not.
   */
  lemma VerdictIsEarned(
    lib: Library, describe: Failure -> string, t: Test, uploaded: Option<string>,
    moves: seq<StepDriver.Move>, s: StepDriver.State, fetched: Result<Log, string>)
    requires StepDriver.Run(t.steps, StepDriver.Init(t.steps), moves, s) && StepDriver.Finished(t.steps, s)
    ensures var x := Exercise(lib, describe, t, uploaded, s, fetched);
      && Scheduler.CanEnd(x)
      && (Scheduler.Judged(x.outcome) <==> uploaded.None? && !s.cancelled && fetched.Ok?)
      && (Scheduler.Judged(x.outcome) ==>
            && SentInFull(t.steps, s)
            && (x.outcome == Pass <==>
                  forall n :: 0 <= n < |t.steps| && t.steps[n].IsRequest() ==>
                    StepMet(lib, t.steps, s, fetched.value, n))
            && (x.outcome == Inconclusive <==>
                  exists n :: 0 <= n < |t.steps| && t.steps[n].IsRequest() && t.steps[n].arrange
                              && !StepMet(lib, t.steps, s, fetched.value, n)))
  {
    hide Meets, EvaluateStep, VerdictOf;
    if uploaded.None? && !s.cancelled && fetched.Ok? {
      StepDriver.EvaluatedMeansAllSent(t.steps, moves, s);
      var obs := Observations(s.progress);
      JudgingIsExact(lib, t.steps, obs, fetched.value);
      forall n | 0 <= n < |t.steps| && t.steps[n].IsRequest()
        ensures Unmet(lib, t.steps, obs, fetched.value, n) <==> !StepMet(lib, t.steps, s, fetched.value, n)
      {
      }
    }
  }
}
