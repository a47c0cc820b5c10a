/** The schema of test definitions (pkg/testdef) and of the record of a run (pkg/results). */
module TestDef {
  import opened Wrappers

  type Proto = string

  const LEVEL_MUST := "must"
  const LEVEL_SHOULD := "should"
  const LEVEL_MAY := "may"
  const LEVEL_INFO := "info"

  datatype Interim = Interim(status: int, headers: seq<string>)

  datatype Response = Response(
    status: int,
    headers: seq<string>,
    body: string,
    bodySize: int,
    interim: seq<Interim>,
    trailers: seq<string>,
    ignoreConditionals: bool,
    ranges: bool,
    delay: int,
    disconnect: bool)

  datatype Expect = Expect(
    status: seq<int>,
    headers: seq<string>,
    headersAbsent: seq<string>,
    body: Option<string>,
    interim: seq<int>,
    trailers: seq<string>,
    forwarded: Option<bool>,
    forwardedHeaders: seq<string>,
    forwardedHeadersAbsent: seq<string>)

  /** A step is a pause (`wait`) or a request; an empty YAML entry decodes to a nil step. */
  datatype Step = NilStep | Step(
      wait: Option<int>,
      parallel: bool,
      httpMethod: string,
      path: string,
      query: string,
      headers: seq<string>,
      body: string,
      respondWith: string,
      arrange: bool,
      expectation: Option<Expect>)
  {
    predicate IsWait()
      requires Step?
    {
      wait.Some?
    }

    predicate IsRequest() {
      Step? && !IsWait()
    }
  }

  ghost predicate NoNil(steps: seq<Step>) {
    forall i :: 0 <= i < |steps| ==> steps[i].Step?
  }

  /** `deps` is the definition's `requires` list. */
  datatype Test = Test(
    id: string,
    title: string,
    level: string,
    refs: seq<string>,
    protocols: seq<Proto>,
    deps: seq<string>,
    responses: map<string, Option<Response>>,
    steps: seq<Step>,
    suite: string,
    group: string)
  {
    predicate RunsOver(p: Proto) {
      protocols == [] || p in protocols
    }
  }

  predicate IsIdChar(c: char) {
    'a' <= c <= 'z' || '0' <= c <= '9'
  }

  /** Lowercase kebab-case: runs of letters and digits separated by single hyphens. */
  predicate ValidID(id: string) {
    && id != ""
    && (forall i :: 0 <= i < |id| ==> IsIdChar(id[i]) || id[i] == '-')
    && id[0] != '-' && id[|id| - 1] != '-'
    && (forall i :: 0 <= i < |id| - 1 && id[i] == '-' ==> id[i + 1] != '-')
  }

  /** `Other("")` is the zero outcome of a result that was never set. */
  datatype Outcome = Pass | Fail | Inconclusive | Skipped | Error | Other(text: string)
  {
    function Text(): string {
      match this
      case Pass => "pass"
      case Fail => "fail"
      case Inconclusive => "inconclusive"
      case Skipped => "skipped"
      case Error => "error"
      case Other(text) => text
    }
  }

  /** One test over one client protocol. Timings and per-step records are not part of this model. */
  datatype TestResult = TestResult(
    id: string,
    suite: string,
    group: string,
    level: string,
    refs: seq<string>,
    clientProto: Proto,
    originProto: string,
    outcome: Outcome,
    messages: seq<string>)
  {
    function With(o: Outcome, msgs: seq<string>): TestResult {
      this.(outcome := o, messages := msgs)
    }
  }
}
