/** Translating a test into the origin's script (pkg/testdef/script.go). */
module Scripting {
  import opened Wrappers
  import opened TestDef
  import opened Protocol
  import opened Validation

  const NANOSECONDS_PER_MS := 1000000

  /** The same response, with its delay in whole milliseconds, truncated. */
  ghost predicate Carries(w: WireResponse, r: Response) {
    && w.status == r.status && w.headers == r.headers && w.body == r.body && w.bodySize == r.bodySize
    && w.interim == r.interim && w.trailers == r.trailers
    && w.ignoreConditionals == r.ignoreConditionals && w.ranges == r.ranges && w.disconnect == r.disconnect
    && (r.delay >= 0 ==> w.delayMS * 1_000_000 <= r.delay < (w.delayMS + 1) * 1_000_000)
    && (r.delay < 0 ==> (w.delayMS - 1) * 1_000_000 < r.delay <= w.delayMS * 1_000_000)
  }

  function Wire(r: Response): (w: WireResponse)
    ensures Carries(w, r)
  {
    WireResponse(r.status, r.headers, r.body, r.bodySize, r.interim, r.trailers, r.ignoreConditionals, r.ranges,
                 if r.delay >= 0 then r.delay / NANOSECONDS_PER_MS else -(-r.delay / NANOSECONDS_PER_MS), r.disconnect)
  }

  /** No step and no response is nil, which the translation takes for granted. */
  ghost predicate NoNils(t: Test) {
    NoNil(t.steps) && forall name :: name in t.responses ==> t.responses[name].Some?
  }

  lemma OnlyKey<T>(m: map<string, T>, a: string, b: string)
    requires |m| == 1 && a in m && b in m
    ensures a == b
  {
    if a != b {
      assert {a, b} <= m.Keys && |{a, b}| == 2;
      SubsetSize({a, b}, m.Keys);
    }
  }

  lemma {:induction false} SubsetSize<T>(a: set<T>, b: set<T>)
    requires a <= b
    ensures |a| <= |b|
    decreases a
  {
    if a != {} {
      var x :| x in a;
      SubsetSize(a - {x}, b - {x});
    }
  }

  /** The response a test chose for a request: the named one, or its only one; "" is the origin default. */
  ghost function ChosenName(t: Test, s: Step): (name: string)
    requires s.Step?
    ensures s.respondWith != "" ==> name == s.respondWith
    ensures s.respondWith == "" && |t.responses| == 1 ==> name in t.responses
    ensures s.respondWith == "" && |t.responses| != 1 ==> name == ""
  {
    if s.respondWith != "" || |t.responses| != 1 then s.respondWith
    else
      assert t.responses.Keys != {};
      var name :| name in t.responses; name
  }

  method ResponseFor(t: Test, s: Step) returns (name: string)
    requires s.Step?
    ensures name == ChosenName(t, s)
  {
    if s.respondWith != "" || |t.responses| != 1 {
      return s.respondWith;
    }
    assert t.responses.Keys != {};
    name :| name in t.responses.Keys;
    OnlyKey(t.responses, name, ChosenName(t, s));
  }

  method WireResponses(t: Test) returns (out: map<string, WireResponse>)
    requires NoNils(t)
    ensures out.Keys == t.responses.Keys
    ensures forall name :: name in t.responses ==> out[name] == Wire(t.responses[name].value)
  {
    out := map[];
    var todo := t.responses.Keys;
    while todo != {}
      invariant todo <= t.responses.Keys && out.Keys == t.responses.Keys - todo
      invariant forall name :: name in out ==> out[name] == Wire(t.responses[name].value)
      decreases todo
    {
      var name :| name in todo;
      out := out[name := Wire(t.responses[name].value)];
      todo := todo - {name};
    }
  }

  ghost predicate NamesStep(t: Test, i: nat)
    requires i < |t.steps| && NoNils(t)
  {
    t.steps[i].IsRequest() && ChosenName(t, t.steps[i]) != ""
  }

  /** The script names the response of each request step that has one, and defaults to the last. */
  ghost predicate IsScript(t: Test, sc: Script, n: nat)
    requires n <= |t.steps| && NoNils(t)
  {
    && (forall k :: k in sc.steps <==> 1 <= k <= n && NamesStep(t, k - 1))
    && (forall k :: k in sc.steps ==> sc.steps[k] == ChosenName(t, t.steps[k - 1]))
    && (sc.fallback == "" ==> forall i :: 0 <= i < n ==> !NamesStep(t, i))
    && (sc.fallback != "" ==> exists i :: 0 <= i < n && LastNamed(t, n, i) && sc.fallback == ChosenName(t, t.steps[i]))
  }

  ghost predicate LastNamed(t: Test, n: nat, i: nat)
    requires i < n <= |t.steps| && NoNils(t)
  {
    NamesStep(t, i) && forall k :: i < k < n ==> !NamesStep(t, k)
  }

  ghost predicate HasResponses(t: Test, sc: Script)
    requires NoNils(t)
  {
    && sc.responses.Keys == t.responses.Keys
    && forall name :: name in t.responses ==> sc.responses[name] == Wire(t.responses[name].value)
  }

  method MakeScript(t: Test) returns (sc: Script)
    requires NoNils(t)
    ensures HasResponses(t, sc) && IsScript(t, sc, |t.steps|)
  {
    hide IsScript;
    var responses := WireResponses(t);
    EmptyScript(t, responses);
    sc := Script(responses, map[], "");
    for i := 0 to |t.steps|
      invariant HasResponses(t, sc) && IsScript(t, sc, i)
    {
      var name := "";
      if !t.steps[i].IsWait() {
        name := ResponseFor(t, t.steps[i]);
      }
      assert NamesStep(t, i) <==> name != "";
      if name == "" {
        ScriptSkips(t, sc, i);
      } else {
        ScriptSnoc(t, sc, i, name);
        sc := sc.(steps := sc.steps[i + 1 := name], fallback := name);
      }
    }
  }

  lemma EmptyScript(t: Test, responses: map<string, WireResponse>)
    requires NoNils(t)
    ensures IsScript(t, Script(responses, map[], ""), 0)
  {
  }

  /** One step more: anything but a named request changes nothing. */
  lemma ScriptSkips(t: Test, sc: Script, i: nat)
    requires NoNils(t) && i < |t.steps| && IsScript(t, sc, i) && !NamesStep(t, i)
    ensures IsScript(t, sc, i + 1)
  {
    LastNamedSnoc(t, i);
    hide NamesStep, ChosenName, LastNamed, NoNils;
    if sc.fallback != "" {
      var k :| 0 <= k < i && LastNamed(t, i, k) && sc.fallback == ChosenName(t, t.steps[k]);
      assert LastNamed(t, i + 1, k);
    }
  }

  /** One step more: a named request is added and becomes the default. */
  lemma ScriptSnoc(t: Test, sc: Script, i: nat, name: string)
    requires NoNils(t) && i < |t.steps| && IsScript(t, sc, i)
    requires NamesStep(t, i) && name == ChosenName(t, t.steps[i])
    ensures IsScript(t, sc.(steps := sc.steps[i + 1 := name], fallback := name), i + 1)
  {
    LastNamedSnoc(t, i);
    assert name != "";
    hide NamesStep, ChosenName, LastNamed, NoNils;
  }

  lemma LastNamedSnoc(t: Test, i: nat)
    requires NoNils(t) && i < |t.steps|
    ensures NamesStep(t, i) ==> LastNamed(t, i + 1, i)
    ensures !NamesStep(t, i) ==> forall k :: 0 <= k < i && LastNamed(t, i, k) ==> LastNamed(t, i + 1, k)
  {
    hide NamesStep;
  }

  ghost predicate IsLastRequest(t: Test, i: nat) {
    && i < |t.steps| && t.steps[i].IsRequest()
    && forall k :: i < k < |t.steps| ==> !t.steps[k].IsRequest()
  }

  /** A response as the test defines it, or the zero response when it defines none. */
  ghost function Defined(t: Test, name: string): WireResponse
    requires NoNils(t)
  {
    if name in t.responses then Wire(t.responses[name].value) else ZERO_RESPONSE
  }

  /** Step `s` is answered with the response it names, or the test's only one; with nothing when there is none. */
  ghost predicate IsAnswerOf(t: Test, s: Step, answer: (string, WireResponse))
    requires s.Step?
  {
    if t.responses == map[] then answer == ("", WireResponse(0, [], "", 0, [], [], false, false, 0, false))
    else
      && answer.0 in t.responses && t.responses[answer.0].Some? && Carries(answer.1, t.responses[answer.0].value)
      && if s.respondWith != "" then answer.0 == s.respondWith else t.responses.Keys == {answer.0}
  }

  lemma ChoiceIsAnswer(t: Test, i: nat)
    requires Translatable(t) && i < |t.steps| && t.steps[i].IsRequest()
    ensures IsAnswerOf(t, t.steps[i], (ChosenName(t, t.steps[i]), Defined(t, ChosenName(t, t.steps[i]))))
  {
    AllOrNoneNamed(t, i);
    hide Carries, Wire;
    var name := ChosenName(t, t.steps[i]);
    if |t.responses| != 0 {
      assert Carries(Wire(t.responses[name].value), t.responses[name].value);
      if t.steps[i].respondWith == "" {
        forall key | key in t.responses ensures key == name {
          OnlyKey(t.responses, key, name);
        }
      }
    }
  }

  /** What the translation relies on: nothing is nil, and each request's choice of a response is in order. */
  ghost predicate Translatable(t: Test) {
    && NoNils(t) && "" !in t.responses
    && forall i :: 0 <= i < |t.steps| && t.steps[i].IsRequest() ==> RespondWithOk(t, t.steps[i])
  }

  /** Validation establishes it. */
  lemma ValidTestsAreTranslatable(checks: Checks, t: Test)
    requires ValidTest(checks, t)
    ensures Translatable(t)
  {
    hide ResponseOk, LinesOk, ExpectOk, ValidToken, ValidPath, ContainsAny, IdentityOk, PrerequisitesOk;
    assert !ValidID("");
    hide ValidID;
    forall i | 0 <= i < |t.steps|
      ensures t.steps[i].Step? && (t.steps[i].IsRequest() ==> RespondWithOk(t, t.steps[i]))
    {
      assert StepOk(checks, t, t.steps[i]);
    }
  }

  /** Then either no request has a response or every request has a known one. */
  lemma AllOrNoneNamed(t: Test, i: nat)
    requires Translatable(t) && i < |t.steps| && t.steps[i].IsRequest()
    ensures if |t.responses| == 0 then ChosenName(t, t.steps[i]) == ""
            else ChosenName(t, t.steps[i]) != "" && ChosenName(t, t.steps[i]) in t.responses
  {
    assert RespondWithOk(t, t.steps[i]);
  }

  /**
   * The translation is faithful: the origin answers a request step's number with the response the test
   * chose for it, or with the zero response when the test defines none.
   */
  lemma RequestStepsAnswered(checks: Checks, t: Test, sc: Script, i: nat)
    requires ValidTest(checks, t)
    requires HasResponses(t, sc) && IsScript(t, sc, |t.steps|)
    requires i < |t.steps| && t.steps[i].IsRequest()
    ensures IsAnswerOf(t, t.steps[i], sc.ResponseFor(i + 1))
    ensures sc.ResponseFor(i + 1) == (ChosenName(t, t.steps[i]), Defined(t, ChosenName(t, t.steps[i])))
  {
    ValidTestsAreTranslatable(checks, t);
    hide ValidTest;
    ChoiceIsAnswer(t, i);
    AllOrNoneNamed(t, i);
    if |t.responses| == 0 {
      NothingNamed(t, sc);
    }
  }

  lemma NothingNamed(t: Test, sc: Script)
    requires Translatable(t) && |t.responses| == 0
    requires IsScript(t, sc, |t.steps|)
    ensures sc.steps == map[] && sc.fallback == ""
  {
    forall i | 0 <= i < |t.steps| ensures !NamesStep(t, i) {
      if t.steps[i].IsRequest() {
        AllOrNoneNamed(t, i);
      }
    }
    forall k ensures k !in sc.steps {
      if 1 <= k <= |t.steps| {
        assert !NamesStep(t, k - 1);
      }
    }
    assert sc.steps.Keys == {};
  }

  lemma DefaultIsLastNamed(t: Test, sc: Script, last: nat)
    requires NoNils(t) && IsScript(t, sc, |t.steps|)
    requires IsLastRequest(t, last) && NamesStep(t, last)
    ensures sc.fallback == ChosenName(t, t.steps[last])
  {
    assert forall k :: last < k < |t.steps| ==> !NamesStep(t, k);
    hide NamesStep, ChosenName, NoNils;
    var i :| 0 <= i < |t.steps| && LastNamed(t, |t.steps|, i) && sc.fallback == ChosenName(t, t.steps[i]);
    assert i == last;
  }

  /** Requests without a known step number, such as a wait step's, get the last request step's response. */
  lemma OtherNumbersGetLastResponse(checks: Checks, t: Test, sc: Script, n: int, last: nat)
    requires ValidTest(checks, t)
    requires HasResponses(t, sc) && IsScript(t, sc, |t.steps|)
    requires !(1 <= n <= |t.steps| && t.steps[n - 1].IsRequest())
    requires IsLastRequest(t, last)
    ensures IsAnswerOf(t, t.steps[last], sc.ResponseFor(n))
    ensures sc.ResponseFor(n) == (ChosenName(t, t.steps[last]), Defined(t, ChosenName(t, t.steps[last])))
  {
    ValidTestsAreTranslatable(checks, t);
    assert n !in sc.steps;
    ChoiceIsAnswer(t, last);
    AllOrNoneNamed(t, last);
    hide ValidTest, IsScript, Translatable;
    if |t.responses| == 0 {
      NothingNamed(t, sc);
    } else {
      DefaultIsLastNamed(t, sc, last);
    }
  }

  /** Validation matters: without it a step that names nothing is answered as the last named one. */
  lemma UnvalidatedStepIsMisanswered(t: Test, sc: Script, i: nat)
    requires NoNils(t) && HasResponses(t, sc) && IsScript(t, sc, |t.steps|)
    requires i < |t.steps| && t.steps[i].IsRequest()
    ensures sc.ResponseFor(i + 1).0 == ChosenName(t, t.steps[i]) <==>
      ChosenName(t, t.steps[i]) != "" || forall k :: 0 <= k < |t.steps| ==> !NamesStep(t, k)
  {
  }
}
