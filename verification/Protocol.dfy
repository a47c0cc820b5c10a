/** The wire contract between client and origin (pkg/protocol): scripts and request logs. */
module Protocol {
  import opened TestDef

  /** Field values by canonical field name. */
  type Header = map<string, seq<string>>

  datatype WireResponse = WireResponse(
    status: int,
    headers: seq<string>,
    body: string,
    bodySize: int,
    interim: seq<Interim>,
    trailers: seq<string>,
    ignoreConditionals: bool,
    ranges: bool,
    delayMS: int,
    disconnect: bool)

  const ZERO_RESPONSE := WireResponse(0, [], "", 0, [], [], false, false, 0, false)

  datatype Script = Script(responses: map<string, WireResponse>, steps: map<int, string>, fallback: string)
  {
    /** The name and definition of the response for a step; an unknown name has the zero response. */
    function ResponseFor(step: int): (string, WireResponse) {
      var name := if step in steps then steps[step] else fallback;
      (name, if name in responses then responses[name] else ZERO_RESPONSE)
    }
  }

  datatype LogEntry = LogEntry(
    seqno: nat,
    step: int,
    response: string,
    received: int,
    httpMethod: string,
    target: string,
    proto: string,
    header: Header,
    status: int,
    responseHeader: Header)

  type Log = seq<LogEntry>

  /** The entries of one step, in log order. */
  function OfStep(log: Log, n: int): (out: seq<LogEntry>)
    ensures forall le :: le in out <==> le in log && le.step == n
  {
    if log == [] then []
    else
      var rest := OfStep(log[..|log| - 1], n);
      var last := log[|log| - 1];
      if last.step == n then rest + [last] else rest
  }

  /** Each entry of the step once and in log order: `at` is where they are in the log. */
  lemma {:induction false} OfStepInLogOrder(log: Log, n: int) returns (at: seq<nat>)
    ensures |at| == |OfStep(log, n)| && forall i, k :: 0 <= i < k < |at| ==> at[i] < at[k]
    ensures forall k :: 0 <= k < |at| ==> at[k] < |log| && log[at[k]] == OfStep(log, n)[k]
    ensures forall i :: 0 <= i < |log| ==> (i in at <==> log[i].step == n)
    decreases |log|
  {
    if log == [] {
      at := [];
    } else {
      var m := |log| - 1;
      at := OfStepInLogOrder(log[..m], n);
      if log[m].step == n {
        at := at + [m];
      }
    }
  }

  method StepEntries(log: Log, n: int) returns (out: seq<LogEntry>)
    ensures out == OfStep(log, n)
  {
    out := [];
    for i := 0 to |log|
      invariant out == OfStep(log[..i], n)
    {
      assert log[..i + 1][..i] == log[..i];
      if log[i].step == n {
        out := out + [log[i]];
      }
    }
    assert log[..|log|] == log;
  }
}
