/** Comparing a run with a baseline (`Compare` in pkg/report/report.go). */
module Baseline {
  import opened TestDef
  import Scheduler
  import RequiresGraph

  datatype Change = Change(key: string, before: Outcome, after: Outcome)
  {
    function Mirrored(): Change {
      Change(key, after, before)
    }
  }

  /** Identifies a result across runs. */
  function Key(r: TestResult): string {
    r.id + " [" + r.clientProto + "]"
  }

  // ---- the order of keys ----

  predicate Less(a: string, b: string) {
    b != "" && (a == "" || a[0] < b[0] || (a[0] == b[0] && Less(a[1..], b[1..])))
  }

  /** The order of characters decides where the strings first differ, and a proper prefix comes first. */
  lemma {:induction false} LessIsLexicographic(a: string, b: string)
    ensures Less(a, b) <==>
      exists k: nat :: k <= |a| && k < |b| && a[..k] == b[..k] && (k == |a| || a[k] < b[k])
    decreases |a|
  {
    if a != "" && b != "" && a[0] == b[0] {
      LessIsLexicographic(a[1..], b[1..]);
      var a', b' := a[1..], b[1..];
      if k: nat :| k <= |a'| && k < |b'| && a'[..k] == b'[..k] && (k == |a'| || a'[k] < b'[k]) {
        assert a[..k + 1] == [a[0]] + a[1..][..k] && b[..k + 1] == [b[0]] + b[1..][..k];
      }
      if k: nat :| k <= |a| && k < |b| && a[..k] == b[..k] && (k == |a| || a[k] < b[k]) {
        assert k > 0;
        assert a[1..][..k - 1] == a[..k][1..] && b[1..][..k - 1] == b[..k][1..];
      }
    } else if Less(a, b) {
      assert a[..0] == b[..0];
    }
  }

  lemma {:induction false} LessIsTotal(a: string, b: string)
    ensures Less(a, b) || a == b || Less(b, a)
  {
    if a != "" && b != "" && a[0] == b[0] {
      LessIsTotal(a[1..], b[1..]);
      assert a == [a[0]] + a[1..] && b == [b[0]] + b[1..];
    }
  }

  lemma {:induction false} LessIsAsymmetric(a: string, b: string)
    requires Less(a, b)
    ensures !Less(b, a) && a != b
  {
    if a != "" && a[0] == b[0] {
      LessIsAsymmetric(a[1..], b[1..]);
    }
  }

  lemma {:induction false} LessIsTransitive(a: string, b: string, c: string)
    requires Less(a, b) && Less(b, c)
    ensures Less(a, c)
  {
    if a != "" && a[0] == b[0] == c[0] {
      LessIsTransitive(a[1..], b[1..], c[1..]);
    }
  }

  ghost predicate Sorted(cs: seq<Change>) {
    forall i, j :: 0 <= i < j < |cs| ==> !Less(cs[j].key, cs[i].key)
  }

  ghost predicate StrictlySorted(cs: seq<Change>) {
    forall i, j :: 0 <= i < j < |cs| ==> Less(cs[i].key, cs[j].key)
  }

  /** The library's sort, of which only the order and the permutation are used. */
  function Sort(cs: seq<Change>): (out: seq<Change>)
    ensures multiset(out) == multiset(cs)
  {
    if cs == [] then []
    else
      assert cs == cs[..|cs| - 1] + [cs[|cs| - 1]];
      Insert(Sort(cs[..|cs| - 1]), cs[|cs| - 1])
  }

  function Insert(cs: seq<Change>, c: Change): (out: seq<Change>)
    ensures multiset(out) == multiset(cs) + multiset{c}
  {
    if cs == [] || Less(c.key, cs[0].key) then [c] + cs
    else
      assert cs == [cs[0]] + cs[1..];
      [cs[0]] + Insert(cs[1..], c)
  }

  lemma {:induction false} InsertKeepsSorted(cs: seq<Change>, c: Change)
    requires Sorted(cs)
    ensures Sorted(Insert(cs, c))
    decreases |cs|
  {
    if cs == [] {
    } else if Less(c.key, cs[0].key) {
      LessIsAsymmetric(c.key, cs[0].key);
      forall j | 0 <= j < |cs| ensures !Less(cs[j].key, c.key) {
        if Less(cs[j].key, c.key) {
          LessIsTransitive(cs[j].key, c.key, cs[0].key);
        }
      }
    } else {
      InsertKeepsSorted(cs[1..], c);
      var rest := Insert(cs[1..], c);
      forall j | 0 <= j < |rest| ensures !Less(rest[j].key, cs[0].key) {
        assert rest[j] in multiset(rest);
        assert rest[j] in cs[1..] || rest[j] == c;
      }
    }
  }

  lemma {:induction false} SortSorts(cs: seq<Change>)
    ensures Sorted(Sort(cs))
    decreases |cs|
  {
    if cs != [] {
      SortSorts(cs[..|cs| - 1]);
      InsertKeepsSorted(Sort(cs[..|cs| - 1]), cs[|cs| - 1]);
    }
  }

  // ---- comparing ----

  /** The outcome each key last had. */
  function Outcomes(rs: seq<TestResult>): (m: map<string, Outcome>)
    ensures forall k :: k in m <==> exists r :: r in rs && Key(r) == k
  {
    if rs == [] then map[]
    else
      var last := rs[|rs| - 1];
      assert rs == rs[..|rs| - 1] + [last];
      Outcomes(rs[..|rs| - 1])[Key(last) := last.outcome]
  }

  function Changes(before: map<string, Outcome>, rs: seq<TestResult>): seq<Change> {
    if rs == [] then []
    else
      var rest := Changes(before, rs[..|rs| - 1]);
      var r := rs[|rs| - 1];
      if Key(r) in before && before[Key(r)] != r.outcome
      then rest + [Change(Key(r), before[Key(r)], r.outcome)]
      else rest
  }

  function Compared(base: seq<TestResult>, cur: seq<TestResult>): seq<Change> {
    Sort(Changes(Outcomes(base), cur))
  }

  method Compare(base: seq<TestResult>, cur: seq<TestResult>) returns (out: seq<Change>)
    ensures out == Compared(base, cur)
  {
    var before: map<string, Outcome> := map[];
    for i := 0 to |base|
      invariant before == Outcomes(base[..i])
    {
      assert base[..i + 1][..i] == base[..i];
      before := before[Key(base[i]) := base[i].outcome];
    }
    assert base[..|base|] == base;
    out := [];
    for i := 0 to |cur|
      invariant out == Changes(before, cur[..i])
    {
      assert cur[..i + 1][..i] == cur[..i];
      var key := Key(cur[i]);
      if key in before && before[key] != cur[i].outcome {
        out := out + [Change(key, before[key], cur[i].outcome)];
      }
    }
    assert cur[..|cur|] == cur;
    out := Sort(out);
  }

  // ---- runs whose keys are distinct ----

  ghost predicate DistinctKeys(rs: seq<TestResult>) {
    forall i, j :: 0 <= i < j < |rs| ==> Key(rs[i]) != Key(rs[j])
  }

  lemma DistinctPrefix(rs: seq<TestResult>, n: nat)
    requires DistinctKeys(rs) && n <= |rs|
    ensures DistinctKeys(rs[..n])
    ensures forall i :: 0 <= i < n < |rs| ==> Key(rs[i]) != Key(rs[n])
  {
    hide Key;
  }

  lemma OutcomesSnoc(rs: seq<TestResult>)
    requires rs != []
    ensures Outcomes(rs) == Outcomes(rs[..|rs| - 1])[Key(rs[|rs| - 1]) := rs[|rs| - 1].outcome]
  {
  }

  lemma {:induction false} OutcomesAt(rs: seq<TestResult>, i: nat)
    requires DistinctKeys(rs) && i < |rs|
    ensures Key(rs[i]) in Outcomes(rs) && Outcomes(rs)[Key(rs[i])] == rs[i].outcome
    decreases |rs|
  {
    hide Key, Outcomes, DistinctKeys;
    var n := |rs| - 1;
    OutcomesSnoc(rs);
    if i < n {
      DistinctPrefix(rs, n);
      OutcomesAt(rs[..n], i);
    }
  }

  ghost predicate HasOutcome(rs: seq<TestResult>, key: string, o: Outcome) {
    exists r :: r in rs && Key(r) == key && r.outcome == o
  }

  /** The two runs share the key of `c`, with the outcomes `c` gives. */
  ghost predicate IsChange(base: seq<TestResult>, cur: seq<TestResult>, c: Change) {
    && HasOutcome(base, c.key, c.before)
    && HasOutcome(cur, c.key, c.after)
    && c.before != c.after
  }

  lemma {:induction false} ChangesExact(base: seq<TestResult>, rs: seq<TestResult>, c: Change)
    requires DistinctKeys(base)
    ensures c in Changes(Outcomes(base), rs) <==> IsChange(base, rs, c)
    decreases |rs|
  {
    hide Key, Outcomes;
    if rs != [] {
      var n := |rs| - 1;
      ChangesExact(base, rs[..n], c);
      assert rs == rs[..n] + [rs[n]];
      OutcomeOf(base, Key(rs[n]));
    }
  }

  /** With distinct keys the index holds the outcome of the one result with the key. */
  lemma OutcomeOf(base: seq<TestResult>, k: string)
    requires DistinctKeys(base)
    ensures k !in Outcomes(base) ==> forall o :: !HasOutcome(base, k, o)
    ensures forall o :: k in Outcomes(base) ==>
      (Outcomes(base)[k] == o <==> HasOutcome(base, k, o))
  {
    hide Key;
    if k in Outcomes(base) {
      var b :| b in base && Key(b) == k;
      forall b | b in base && Key(b) == k ensures Outcomes(base)[k] == b.outcome {
        var i :| 0 <= i < |base| && base[i] == b;
        OutcomesAt(base, i);
      }
    }
  }

  lemma {:induction false} ChangesHaveDistinctKeys(before: map<string, Outcome>, rs: seq<TestResult>)
    requires DistinctKeys(rs)
    ensures forall i, j :: 0 <= i < j < |Changes(before, rs)| ==>
      Changes(before, rs)[i].key != Changes(before, rs)[j].key
    ensures forall c :: c in Changes(before, rs) ==> exists i :: 0 <= i < |rs| && Key(rs[i]) == c.key
    decreases |rs|
  {
    hide Key;
    if rs != [] {
      var n := |rs| - 1;
      ChangesHaveDistinctKeys(before, rs[..n]);
      var rest := Changes(before, rs[..n]);
      forall c | c in rest ensures c.key != Key(rs[n]) && exists i :: 0 <= i < |rs| && Key(rs[i]) == c.key {
        var i :| 0 <= i < n && Key(rs[..n][i]) == c.key;
        assert Key(rs[i]) == c.key;
      }
      forall i | 0 <= i < |rest| ensures rest[i].key != Key(rs[n]) {
        assert rest[i] in rest;
      }
    }
  }

  lemma {:induction false} DistinctKeysOfMultiset(a: seq<Change>, b: seq<Change>)
    requires multiset(a) == multiset(b)
    requires forall i, j :: 0 <= i < j < |a| ==> a[i].key != a[j].key
    ensures forall i, j :: 0 <= i < j < |b| ==> b[i].key != b[j].key
  {
    forall i, j | 0 <= i < j < |b| ensures b[i].key != b[j].key {
      assert b[i] in multiset(b) && b[j] in multiset(b);
      assert b[i] in a && b[j] in a;
      if b[i] == b[j] {
        TwiceInMultiset(b, i, j);
        OnceInMultiset(a, b[i]);
      }
    }
  }

  lemma TwiceInMultiset(b: seq<Change>, i: nat, j: nat)
    requires i < j < |b| && b[i] == b[j]
    ensures multiset(b)[b[i]] >= 2
  {
    assert b == b[..j] + [b[j]] + b[j + 1..];
    assert b[..j][i] in multiset(b[..j]);
  }

  lemma {:induction false} OnceInMultiset(a: seq<Change>, c: Change)
    requires forall i, j :: 0 <= i < j < |a| ==> a[i].key != a[j].key
    ensures multiset(a)[c] <= 1
    decreases |a|
  {
    if a != [] {
      var n := |a| - 1;
      OnceInMultiset(a[..n], c);
      assert a == a[..n] + [a[n]];
      if a[n] == c {
        assert c !in a[..n];
      }
    }
  }

  /**
   * For runs with distinct keys the comparison is in strictly increasing key order and lists exactly
   * the shared keys whose outcomes differ, with the outcome each run gave.
   */
  lemma CompareIsExact(base: seq<TestResult>, cur: seq<TestResult>)
    requires DistinctKeys(base) && DistinctKeys(cur)
    ensures StrictlySorted(Compared(base, cur))
    ensures forall c :: c in Compared(base, cur) <==> IsChange(base, cur, c)
  {
    hide Key, Outcomes;
    var cs, out := Changes(Outcomes(base), cur), Compared(base, cur);
    ChangesHaveDistinctKeys(Outcomes(base), cur);
    DistinctKeysOfMultiset(cs, out);
    SortSorts(cs);
    forall i, j | 0 <= i < j < |out| ensures Less(out[i].key, out[j].key) {
      LessIsTotal(out[i].key, out[j].key);
    }
    forall c ensures c in out <==> IsChange(base, cur, c) {
      ChangesExact(base, cur, c);
      assert c in multiset(out) <==> c in multiset(cs);
    }
  }

  /** Told without keys: a change is a result of each run, under one ID and protocol, with different outcomes. */
  lemma ChangeIsTwoResults(base: seq<TestResult>, cur: seq<TestResult>, c: Change)
    requires DistinctKeys(base) && DistinctKeys(cur)
    ensures c in Compared(base, cur) <==>
      exists b, r :: b in base && r in cur
                     && c.key == b.id + " [" + b.clientProto + "]" && c.key == r.id + " [" + r.clientProto + "]"
                     && c == Change(c.key, b.outcome, r.outcome) && b.outcome != r.outcome
  {
    hide Compared;
    CompareIsExact(base, cur);
    if c in Compared(base, cur) {
      var b :| b in base && Key(b) == c.key && b.outcome == c.before;
      var r :| r in cur && Key(r) == c.key && r.outcome == c.after;
    }
  }

  /** No change is reported exactly when all shared keys agree. */
  lemma NoChangeMeansAgreement(base: seq<TestResult>, cur: seq<TestResult>)
    requires DistinctKeys(base) && DistinctKeys(cur)
    ensures Compared(base, cur) == [] <==>
      forall b, r :: b in base && r in cur && Key(b) == Key(r) ==> b.outcome == r.outcome
  {
    hide Key;
    CompareIsExact(base, cur);
    var out := Compared(base, cur);
    if out != [] {
      assert out[0] in out && IsChange(base, cur, out[0]);
    } else {
      forall b, r | b in base && r in cur && Key(b) == Key(r) ensures b.outcome == r.outcome {
        assert !IsChange(base, cur, Change(Key(b), b.outcome, r.outcome));
        assert HasOutcome(base, Key(b), b.outcome) && HasOutcome(cur, Key(b), r.outcome);
      }
    }
  }

  /** Strictly sorted lists with the same elements are the same list. */
  lemma {:induction false} SortedListsAreUnique(a: seq<Change>, b: seq<Change>)
    requires StrictlySorted(a) && StrictlySorted(b)
    requires forall c :: c in a <==> c in b
    ensures a == b
    decreases |a|
  {
    assert b != [] ==> b[0] in b && b[0] in a;
    if a != [] {
      assert a[0] in a;
      var k :| 0 <= k < |b| && b[k] == a[0];
      assert b[0] in b;
      var m :| 0 <= m < |a| && a[m] == b[0];
      if k > 0 && m > 0 {
        LessIsAsymmetric(a[0].key, a[m].key);
      }
      assert a[0] == b[0];
      TailMembers(a, b);
      SortedListsAreUnique(a[1..], b[1..]);
      assert a == [a[0]] + a[1..] && b == [b[0]] + b[1..];
    }
  }

  lemma TailMembers(a: seq<Change>, b: seq<Change>)
    requires StrictlySorted(a) && StrictlySorted(b) && a != [] && b != [] && a[0] == b[0]
    requires forall c :: c in a <==> c in b
    ensures forall c :: c in a[1..] <==> c in b[1..]
  {
    forall c ensures (c in a[1..] <==> c in a && c != a[0]) && (c in b[1..] <==> c in b && c != b[0]) {
      NotInTail(a);
      NotInTail(b);
      assert a == [a[0]] + a[1..] && b == [b[0]] + b[1..];
    }
  }

  lemma NotInTail(a: seq<Change>)
    requires StrictlySorted(a) && a != []
    ensures a[0] !in a[1..]
  {
    forall i | 0 < i < |a| ensures a[i] != a[0] {
      LessIsAsymmetric(a[0].key, a[i].key);
    }
  }

  function Mirror(cs: seq<Change>): (out: seq<Change>)
    ensures |out| == |cs| && forall i :: 0 <= i < |cs| ==> out[i] == cs[i].Mirrored()
  {
    seq(|cs|, i requires 0 <= i < |cs| => cs[i].Mirrored())
  }

  /** Swapping the runs gives the same list with the two outcomes of each change exchanged. */
  lemma CompareMirrors(base: seq<TestResult>, cur: seq<TestResult>)
    requires DistinctKeys(base) && DistinctKeys(cur)
    ensures Compared(cur, base) == Mirror(Compared(base, cur))
  {
    hide Key;
    CompareIsExact(base, cur);
    CompareIsExact(cur, base);
    var out, swapped := Compared(base, cur), Compared(cur, base);
    forall c ensures c in swapped <==> c in Mirror(out) {
      assert IsChange(cur, base, c) <==> IsChange(base, cur, c.Mirrored());
      if c.Mirrored() in out {
        var i :| 0 <= i < |out| && out[i] == c.Mirrored();
        assert Mirror(out)[i] == c;
      }
      if c in Mirror(out) {
        var i :| 0 <= i < |out| && Mirror(out)[i] == c;
        assert out[i].Mirrored().Mirrored() == out[i];
        assert c.Mirrored() in out;
      }
    }
    SortedListsAreUnique(swapped, Mirror(out));
  }

  // ---- keys of real runs are distinct ----

  /** IDs hold no space, so a key determines the test and the protocol. */
  lemma KeyInjective(a: TestResult, b: TestResult)
    requires ' ' !in a.id && ' ' !in b.id && Key(a) == Key(b)
    ensures a.id == b.id && a.clientProto == b.clientProto
  {
    var x, y := Key(a), Key(b);
    assert x[|a.id|] == ' ' && y[|b.id|] == ' ';
    assert (forall i :: 0 <= i < |a.id| ==> x[i] == a.id[i]) && (forall i :: 0 <= i < |b.id| ==> y[i] == b.id[i]);
    assert |a.id| == |b.id|;
    assert x[..|a.id|] == a.id && y[..|b.id|] == b.id;
    assert x[|a.id| + 2..|x| - 1] == a.clientProto && y[|b.id| + 2..|y| - 1] == b.clientProto;
  }

  lemma {:induction false} JobsAreDistinct(tests: seq<Test>, protocols: seq<Proto>, i: nat, j: nat)
    requires RequiresGraph.DistinctIds(tests)
    requires forall p, q :: 0 <= p < q < |protocols| ==> protocols[p] != protocols[q]
    requires i < j < |Scheduler.Layout(tests, protocols)|
    ensures var jobs := Scheduler.Layout(tests, protocols);
      jobs[i].test.id != jobs[j].test.id || jobs[i].proto != jobs[j].proto
    decreases |protocols|
  {
    var n := |protocols| - 1;
    var earlier := Scheduler.Layout(tests, protocols[..n]);
    if j < |earlier| {
      JobsAreDistinct(tests, protocols[..n], i, j);
    } else if i < |earlier| {
      Scheduler.LayoutMember(tests, protocols[..n], i);
    }
  }

  /** The results of a plan over distinct valid IDs and distinct protocols have distinct keys. */
  lemma RunsHaveDistinctKeys(tests: seq<Test>, protocols: seq<Proto>, rs: seq<TestResult>)
    requires RequiresGraph.DistinctIds(tests) && forall t :: t in tests ==> ValidID(t.id)
    requires forall p, q :: 0 <= p < q < |protocols| ==> protocols[p] != protocols[q]
    requires |rs| == |Scheduler.Layout(tests, protocols)|
    requires forall j :: 0 <= j < |rs| ==>
      && rs[j].id == Scheduler.Layout(tests, protocols)[j].test.id
      && rs[j].clientProto == Scheduler.Layout(tests, protocols)[j].proto
    ensures DistinctKeys(rs)
  {
    forall i, j | 0 <= i < j < |rs| ensures Key(rs[i]) != Key(rs[j]) {
      JobsAreDistinct(tests, protocols, i, j);
      Scheduler.LayoutMember(tests, protocols, i);
      Scheduler.LayoutMember(tests, protocols, j);
      if Key(rs[i]) == Key(rs[j]) {
        KeyInjective(rs[i], rs[j]);
      }
    }
  }
}
