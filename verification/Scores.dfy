/** Counting and scoring the results of a run (pkg/report/report.go). */
module Scores {
  import opened Wrappers
  import opened TestDef

  const MAY_WEIGHT := 1
  const SHOULD_WEIGHT := 4
  const MUST_WEIGHT := 10
  const PERCENT := 100
  const OVERALL := "overall"

  datatype Tally = Tally(passed: nat, total: nat)
  {
    function Counted(pass: bool): Tally {
      Tally(passed + (if pass then 1 else 0), total + 1)
    }

    function Plus(t: Tally): Tally {
      Tally(passed + t.passed, total + t.total)
    }
  }

  datatype Summary = Summary(
    name: string,
    must: Tally,
    should: Tally,
    may: Tally,
    info: nat,
    inconclusive: nat,
    skipped: nat,
    errors: nat)
  {
    function Add(r: TestResult): Summary {
      if r.outcome == Skipped then this.(skipped := skipped + 1)
      else if r.outcome == Error then this.(errors := errors + 1)
      else if r.outcome == Inconclusive then this.(inconclusive := inconclusive + 1)
      else if r.level == LEVEL_MUST then this.(must := must.Counted(r.outcome == Pass))
      else if r.level == LEVEL_SHOULD then this.(should := should.Counted(r.outcome == Pass))
      else if r.level == LEVEL_MAY then this.(may := may.Counted(r.outcome == Pass))
      else this.(info := info + 1)
    }

    /** Componentwise sum, keeping this summary's name. */
    function Plus(s: Summary): Summary {
      Summary(name, must.Plus(s.must), should.Plus(s.should), may.Plus(s.may), info + s.info,
              inconclusive + s.inconclusive, skipped + s.skipped, errors + s.errors)
    }

    predicate Consistent() {
      must.passed <= must.total && should.passed <= should.total && may.passed <= may.total
    }

    predicate Scored() {
      must.total + should.total + may.total > 0
    }

    function Score(): int {
      WeightedScore(must, should, may)
    }
  }

  function Empty(name: string): Summary {
    Summary(name, Tally(0, 0), Tally(0, 0), Tally(0, 0), 0, 0, 0, 0)
  }

  function Weighted(must: nat, should: nat, may: nat): nat {
    MUST_WEIGHT * must + SHOULD_WEIGHT * should + MAY_WEIGHT * may
  }

  function WeightedScore(must: Tally, should: Tally, may: Tally): int {
    var passed := Weighted(must.passed, should.passed, may.passed);
    var tested := Weighted(must.total, should.total, may.total);
    if tested == 0 then 0 else PERCENT * passed / tested
  }

  // ---- summarizing ----

  function Tallied(name: string, rs: seq<TestResult>): Summary {
    if rs == [] then Empty(name) else Tallied(name, rs[..|rs| - 1]).Add(rs[|rs| - 1])
  }

  function OfSuite(rs: seq<TestResult>, suite: string): (out: seq<TestResult>)
    ensures forall r :: r in out <==> r in rs && r.suite == suite
  {
    if rs == [] then []
    else
      var rest := OfSuite(rs[..|rs| - 1], suite);
      var last := rs[|rs| - 1];
      if last.suite == suite then rest + [last] else rest
  }

  /** The suites in order of first appearance. */
  function FirstSeen(rs: seq<TestResult>): (names: seq<string>)
    ensures forall n :: n in names <==> exists r :: r in rs && r.suite == n
    ensures forall i, j :: 0 <= i < j < |names| ==> names[i] != names[j]
  {
    if rs == [] then []
    else
      var rest := FirstSeen(rs[..|rs| - 1]);
      var last := rs[|rs| - 1];
      assert rs == rs[..|rs| - 1] + [last];
      if last.suite in rest then rest else rest + [last.suite]
  }

  /** Where a suite first appears. */
  ghost function Debut(rs: seq<TestResult>, name: string): (i: nat)
    requires exists r :: r in rs && r.suite == name
    ensures i < |rs| && rs[i].suite == name && forall k :: 0 <= k < i ==> rs[k].suite != name
  {
    if rs[0].suite == name then 0
    else
      assert forall r :: r in rs && r.suite == name ==> r in rs[1..];
      1 + Debut(rs[1..], name)
  }

  lemma {:induction false} FirstSeenInOrder(rs: seq<TestResult>, i: nat, j: nat)
    requires i < j < |FirstSeen(rs)|
    ensures exists r :: r in rs && r.suite == FirstSeen(rs)[i]
    ensures exists r :: r in rs && r.suite == FirstSeen(rs)[j]
    ensures Debut(rs, FirstSeen(rs)[i]) < Debut(rs, FirstSeen(rs)[j])
    decreases |rs|
  {
    hide Debut;
    var names, n := FirstSeen(rs), |rs| - 1;
    var earlier := FirstSeen(rs[..n]);
    assert names[i] in names && names[j] in names && names[i] in earlier;
    var a, b := Debut(rs, names[i]), Debut(rs, names[j]);
    var r :| r in rs[..n] && r.suite == names[i];
    var k :| 0 <= k < n && rs[..n][k] == r;
    assert a <= k < n;
    if j < |earlier| {
      FirstSeenInOrder(rs[..n], i, j);
      SameDebut(rs, names[i]);
      SameDebut(rs, names[j]);
    } else {
      assert names[j] !in earlier;
      assert forall m :: 0 <= m < n ==> rs[..n][m] in rs[..n] && rs[m].suite in earlier;
    }
  }

  lemma SameDebut(rs: seq<TestResult>, name: string)
    requires rs != [] && exists r :: r in rs[..|rs| - 1] && r.suite == name
    ensures exists r :: r in rs && r.suite == name
    ensures Debut(rs, name) == Debut(rs[..|rs| - 1], name)
  {
    var n := |rs| - 1;
    var i := Debut(rs[..n], name);
    assert rs[i] in rs && rs[i].suite == name;
    var k := Debut(rs, name);
    assert forall m :: 0 <= m < n ==> rs[..n][m] == rs[m];
    assert i == k;
  }

  function SuitesOf(rs: seq<TestResult>): (out: seq<Summary>)
    ensures |out| == |FirstSeen(rs)|
    ensures forall i :: 0 <= i < |out| ==> out[i] == Tallied(FirstSeen(rs)[i], OfSuite(rs, FirstSeen(rs)[i]))
  {
    var names := FirstSeen(rs);
    seq(|names|, i requires 0 <= i < |names| => Tallied(names[i], OfSuite(rs, names[i])))
  }

  ghost predicate Indexes(index: map<string, nat>, names: seq<string>) {
    && (forall i :: 0 <= i < |names| ==> names[i] in index && index[names[i]] == i)
    && (forall n :: n in index ==> index[n] < |names| && names[index[n]] == n)
  }

  /** Overall counts, and a summary per suite whose counts are those of the suite's own results. */
  method Summarize(rs: seq<TestResult>) returns (overall: Summary, suites: seq<Summary>)
    ensures overall == Tallied("overall", rs)
    ensures suites == SuitesOf(rs)
  {
    hide Summary.Add, OfSuite, SuitesOf, FirstSeen;
    EmptyRun();
    overall, suites := Empty(OVERALL), [];
    var index: map<string, nat> := map[];
    for n := 0 to |rs|
      invariant overall == Tallied(OVERALL, rs[..n])
      invariant suites == SuitesOf(rs[..n])
      invariant Indexes(index, FirstSeen(rs[..n]))
    {
      var r := rs[n];
      assert rs[..n + 1][..n] == rs[..n];
      overall := overall.Add(r);
      SuitesSnoc(rs[..n + 1]);
      if r.suite !in index {
        index := index[r.suite := |suites|];
        suites := suites + [Empty(r.suite)];
      }
      var i := index[r.suite];
      suites := suites[i := suites[i].Add(r)];
    }
    assert rs[..|rs|] == rs;
  }

  lemma EmptyRun()
    ensures FirstSeen([]) == [] && SuitesOf([]) == [] && Tallied(OVERALL, []) == Empty(OVERALL)
  {
  }

  lemma {:induction false} NoneOfSuite(rs: seq<TestResult>, suite: string)
    requires suite !in FirstSeen(rs)
    ensures OfSuite(rs, suite) == []
    decreases |rs|
  {
    if rs != [] {
      assert rs[|rs| - 1] in rs;
      NoneOfSuite(rs[..|rs| - 1], suite);
    }
  }

  /** One more result changes exactly its own suite's summary, which is new when the suite is. */
  lemma SuitesSnoc(rs: seq<TestResult>)
    requires rs != []
    ensures var r, before, names := rs[|rs| - 1], SuitesOf(rs[..|rs| - 1]), FirstSeen(rs[..|rs| - 1]);
      if r.suite in names
      then
        && FirstSeen(rs) == names
        && forall i :: 0 <= i < |names| && names[i] == r.suite ==> SuitesOf(rs) == before[i := before[i].Add(r)]
      else
        && FirstSeen(rs) == names + [r.suite]
        && SuitesOf(rs) == before + [Empty(r.suite).Add(r)]
  {
    hide Summary.Add;
    var n := |rs| - 1;
    var r, before, names := rs[n], SuitesOf(rs[..n]), FirstSeen(rs[..n]);
    forall i | 0 <= i < |names|
      ensures Tallied(names[i], OfSuite(rs, names[i])) == if names[i] == r.suite then before[i].Add(r) else before[i]
    {
      OfSuiteSnoc(rs, names[i]);
    }
    OfSuiteSnoc(rs, r.suite);
    hide OfSuite, Tallied;
    if r.suite !in names {
      NoneOfSuite(rs[..n], r.suite);
    }
  }

  lemma OfSuiteSnoc(rs: seq<TestResult>, suite: string)
    requires rs != []
    ensures var r, own := rs[|rs| - 1], OfSuite(rs[..|rs| - 1], suite);
      && Tallied(suite, []) == Empty(suite)
      && Tallied(suite, OfSuite(rs, suite))
         == if r.suite == suite then Tallied(suite, own).Add(r) else Tallied(suite, own)
  {
    hide Summary.Add;
    var r, own := rs[|rs| - 1], OfSuite(rs[..|rs| - 1], suite);
    if r.suite == suite {
      assert OfSuite(rs, suite) == own + [r];
      assert (own + [r])[..|own|] == own;
    }
  }

  // ---- nothing is lost, nothing is counted twice ----

  function SumOf(suites: seq<Summary>, name: string): Summary {
    if suites == [] then Empty(name) else SumOf(suites[..|suites| - 1], name).Plus(suites[|suites| - 1])
  }

  /** Counting a result commutes with adding summaries. */
  lemma AddCommutes(a: Summary, b: Summary, r: TestResult)
    ensures a.Plus(b.Add(r)) == a.Plus(b).Add(r) == a.Add(r).Plus(b)
    ensures a.Plus(Empty(b.name)) == a
  {
  }

  lemma {:induction false} SumUpdate(suites: seq<Summary>, name: string, i: nat, r: TestResult)
    requires i < |suites|
    ensures SumOf(suites[i := suites[i].Add(r)], name) == SumOf(suites, name).Add(r)
    decreases |suites|
  {
    hide Summary.Add, Summary.Plus;
    var n := |suites| - 1;
    AddCommutes(SumOf(suites[..n], name), suites[n], r);
    if i < n {
      SumUpdate(suites[..n], name, i, r);
      assert suites[i := suites[i].Add(r)][..n] == suites[..n][i := suites[i].Add(r)];
    } else {
      assert suites[i := suites[i].Add(r)][..n] == suites[..n];
    }
  }

  /** The suite summaries add up componentwise to the overall one. */
  lemma {:induction false} SuitesAddUp(rs: seq<TestResult>)
    ensures SumOf(SuitesOf(rs), OVERALL) == Tallied(OVERALL, rs)
    decreases |rs|
  {
    hide Summary.Add, Summary.Plus, OfSuite;
    if rs != [] {
      var n := |rs| - 1;
      var before, names := SuitesOf(rs[..n]), FirstSeen(rs[..n]);
      SuitesAddUp(rs[..n]);
      SuitesSnoc(rs);
      if rs[n].suite in names {
        var i :| 0 <= i < |names| && names[i] == rs[n].suite;
        SumUpdate(before, OVERALL, i, rs[n]);
      } else {
        assert SuitesOf(rs)[..|before|] == before;
        AddCommutes(SumOf(before, OVERALL), Empty(rs[n].suite), rs[n]);
      }
    } else {
      assert SuitesOf(rs) == [];
    }
  }

  ghost predicate IsScored(r: TestResult) {
    r.outcome !in {Skipped, Error, Inconclusive} && r.level in {"must", "should", "may"}
  }

  ghost predicate ScoredAt(r: TestResult, level: string) {
    r.outcome !in {Skipped, Error, Inconclusive} && r.level == level
  }

  /** The places of the scored results at a level; with `passing` only of those that passed. */
  ghost function Places(rs: seq<TestResult>, level: string, passing: bool): set<nat> {
    set i: nat | i < |rs| && ScoredAt(rs[i], level) && (passing ==> rs[i].outcome == Pass)
  }

  lemma PlacesSnoc(rs: seq<TestResult>, level: string, passing: bool)
    requires rs != []
    ensures var n := |rs| - 1;
      |Places(rs, level, passing)| == |Places(rs[..n], level, passing)|
        + if ScoredAt(rs[n], level) && (passing ==> rs[n].outcome == Pass) then 1 else 0
  {
    var n := |rs| - 1;
    hide ScoredAt;
    var added: set<nat> := if ScoredAt(rs[n], level) && (passing ==> rs[n].outcome == Pass) then {n} else {};
    var before := Places(rs[..n], level, passing);
    assert n !in before;
    assert Places(rs, level, passing) == before + added;
  }

  /** What each tally counts: the conclusive results at its level, and those of them that passed. */
  lemma {:induction false} TalliesCount(name: string, rs: seq<TestResult>)
    ensures var s := Tallied(name, rs);
      && s.must == Tally(|Places(rs, "must", true)|, |Places(rs, "must", false)|)
      && s.should == Tally(|Places(rs, "should", true)|, |Places(rs, "should", false)|)
      && s.may == Tally(|Places(rs, "may", true)|, |Places(rs, "may", false)|)
    decreases |rs|
  {
    if rs != [] {
      TalliesCount(name, rs[..|rs| - 1]);
      PlacesSnoc(rs, LEVEL_MUST, true);
      PlacesSnoc(rs, LEVEL_MUST, false);
      PlacesSnoc(rs, LEVEL_SHOULD, true);
      PlacesSnoc(rs, LEVEL_SHOULD, false);
      PlacesSnoc(rs, LEVEL_MAY, true);
      PlacesSnoc(rs, LEVEL_MAY, false);
    } else {
      assert forall level, passing :: Places(rs, level, passing) == {};
    }
  }

  /** The categories account for every result exactly once, and passes never exceed totals. */
  lemma {:induction false} EveryResultCountedOnce(name: string, rs: seq<TestResult>)
    ensures var s := Tallied(name, rs);
      && s.Consistent()
      && s.must.total + s.should.total + s.may.total + s.info + s.inconclusive + s.skipped + s.errors == |rs|
    decreases |rs|
  {
    if rs != [] {
      EveryResultCountedOnce(name, rs[..|rs| - 1]);
    }
  }

  /** The places of the results with an outcome. */
  ghost function PlacesOf(rs: seq<TestResult>, o: Outcome): set<nat> {
    set i: nat | i < |rs| && rs[i].outcome == o
  }

  /** The places of the conclusive results at no level that is scored. */
  ghost function Unscored(rs: seq<TestResult>): set<nat> {
    set i: nat | i < |rs| && rs[i].outcome !in {Skipped, Error, Inconclusive}
                 && rs[i].level !in {"must", "should", "may"}
  }

  lemma CountSnoc(before: set<nat>, all: set<nat>, n: nat)
    requires n !in before && (all == before || all == before + {n})
    ensures |all| == |before| + if n in all then 1 else 0
  {
  }

  lemma PlacesOfSnoc(rs: seq<TestResult>, o: Outcome)
    requires rs != []
    ensures |PlacesOf(rs, o)| == |PlacesOf(rs[..|rs| - 1], o)| + if rs[|rs| - 1].outcome == o then 1 else 0
  {
    var n := |rs| - 1;
    var before, all := PlacesOf(rs[..n], o), PlacesOf(rs, o);
    assert if rs[n].outcome == o then all == before + {n} else all == before;
    CountSnoc(before, all, n);
  }

  lemma UnscoredSnoc(rs: seq<TestResult>)
    requires rs != []
    ensures var n := |rs| - 1;
      |Unscored(rs)| == |Unscored(rs[..n])| + if n in Unscored(rs) then 1 else 0
  {
    var n := |rs| - 1;
    var before, all := Unscored(rs[..n]), Unscored(rs);
    assert if n in all then all == before + {n} else all == before;
    CountSnoc(before, all, n);
  }

  /** What the other counters count: the results with each inconclusive outcome, and the conclusive ones not scored. */
  lemma {:induction false} CountersCount(name: string, rs: seq<TestResult>)
    ensures var s := Tallied(name, rs);
      && s.name == name
      && s.skipped == |PlacesOf(rs, Skipped)|
      && s.errors == |PlacesOf(rs, Error)|
      && s.inconclusive == |PlacesOf(rs, Inconclusive)|
      && s.info == |Unscored(rs)|
    decreases |rs|
  {
    if rs != [] {
      var n := |rs| - 1;
      CountersCount(name, rs[..n]);
      PlacesOfSnoc(rs, Skipped);
      PlacesOfSnoc(rs, Error);
      PlacesOfSnoc(rs, Inconclusive);
      UnscoredSnoc(rs);
      assert n in Unscored(rs) <==>
        rs[n].outcome !in {Skipped, Error, Inconclusive} && rs[n].level !in {"must", "should", "may"};
      hide PlacesOf, Unscored;
    } else {
      assert Unscored(rs) == {} && forall o :: PlacesOf(rs, o) == {};
    }
  }

  // ---- the score ----

  lemma DivisionBounds(a: nat, b: nat)
    requires b > 0
    ensures (a / b) * b <= a < (a / b + 1) * b
  {
  }

  lemma CancelLess(x: int, y: int, b: nat)
    requires x * b < y * b
    ensures x < y
  {
    assert (x - y) * b < 0;
  }

  lemma DivisionAtLeast(a: nat, b: nat, m: int)
    requires b > 0 && m * b <= a
    ensures m <= a / b
  {
    DivisionBounds(a, b);
    CancelLess(m, a / b + 1, b);
  }

  lemma DivisionAtMost(a: nat, b: nat, m: int)
    requires b > 0 && a < (m + 1) * b
    ensures a / b <= m
  {
    DivisionBounds(a, b);
    CancelLess(a / b, m + 1, b);
  }

  function Passed(s: Summary): nat {
    Weighted(s.must.passed, s.should.passed, s.may.passed)
  }

  function Tested(s: Summary): nat {
    Weighted(s.must.total, s.should.total, s.may.total)
  }

  /** A score lies in 0..100 and is 100 exactly when something was scored and nothing scored failed. */
  lemma ScoreRange(s: Summary)
    requires s.Consistent()
    ensures 0 <= s.Score() <= 100
    ensures s.Score() == 100 <==>
      s.Scored() && s.must.passed == s.must.total && s.should.passed == s.should.total && s.may.passed == s.may.total
  {
    var p, t := Passed(s), Tested(s);
    if t > 0 {
      DivisionAtLeast(PERCENT * p, t, 0);
      DivisionAtMost(PERCENT * p, t, 100);
      if p < t {
        DivisionAtMost(PERCENT * p, t, 99);
      } else {
        DivisionAtLeast(PERCENT * p, t, 100);
      }
    }
  }

  /** The score is the percentage of passes, truncated, where a must counts ten, a should four and a may one. */
  lemma ScoreIsWeighted(s: Summary)
    ensures var passed := 10 * s.must.passed + 4 * s.should.passed + s.may.passed;
      var total := 10 * s.must.total + 4 * s.should.total + s.may.total;
      && (total == 0 ==> s.Score() == 0)
      && (total > 0 ==> s.Score() * total <= 100 * passed < (s.Score() + 1) * total)
  {
    var passed, total := Passed(s), Tested(s);
    if total > 0 {
      DivisionBounds(100 * passed, total);
    }
  }

  /** In terms of the results: a perfect score means every scored result passed, and there was one. */
  lemma {:induction false} PerfectScoreMeaning(name: string, rs: seq<TestResult>)
    ensures var s := Tallied(name, rs);
      s.Score() == 100 <==>
        (exists r :: r in rs && IsScored(r)) && forall r :: r in rs && IsScored(r) ==> r.outcome == Pass
  {
    EveryResultCountedOnce(name, rs);
    ScoreRange(Tallied(name, rs));
    ScoredMeaning(name, rs);
  }

  lemma LevelMeaning(rs: seq<TestResult>, level: string)
    ensures |Places(rs, level, true)| <= |Places(rs, level, false)|
    ensures |Places(rs, level, false)| > 0 <==> exists r :: r in rs && ScoredAt(r, level)
    ensures |Places(rs, level, true)| == |Places(rs, level, false)| <==>
      forall r :: r in rs && ScoredAt(r, level) ==> r.outcome == Pass
  {
    hide ScoredAt;
    var some, all := Places(rs, level, true), Places(rs, level, false);
    SubsetSize(some, all);
    if r :| r in rs && ScoredAt(r, level) {
      var i :| 0 <= i < |rs| && rs[i] == r;
      assert i in all;
    }
    if i :| i in all {
      assert rs[i] in rs;
    }
    if i :| i in all && i !in some {
      assert rs[i] in rs && rs[i].outcome != Pass;
      SubsetSize(some, all - {i});
    } else {
      assert some == all;
      forall r | r in rs && ScoredAt(r, level) ensures r.outcome == Pass {
        var i :| 0 <= i < |rs| && rs[i] == r;
        assert i in some;
      }
    }
  }

  lemma {:induction false} SubsetSize(a: set<nat>, b: set<nat>)
    requires a <= b
    ensures |a| <= |b|
    decreases a
  {
    if x :| x in a {
      SubsetSize(a - {x}, b - {x});
    }
  }

  lemma ScoredMeaning(name: string, rs: seq<TestResult>)
    ensures var s := Tallied(name, rs);
      && s.Consistent()
      && (s.Scored() <==> exists r :: r in rs && IsScored(r))
      && (s.must.passed == s.must.total && s.should.passed == s.should.total && s.may.passed == s.may.total <==>
            forall r :: r in rs && IsScored(r) ==> r.outcome == Pass)
  {
    TalliesCount(name, rs);
    LevelMeaning(rs, "must");
    LevelMeaning(rs, "should");
    LevelMeaning(rs, "may");
    hide Places, Tallied;
    assert forall r :: IsScored(r) <==> ScoredAt(r, "must") || ScoredAt(r, "should") || ScoredAt(r, "may");
    hide IsScored, ScoredAt;
  }

  /** Weighted passes and totals add up over suites. */
  lemma {:induction false} SumBounds(suites: seq<Summary>, name: string, low: int, high: int)
    requires forall i :: 0 <= i < |suites| ==> suites[i].Consistent()
    requires forall i :: 0 <= i < |suites| && suites[i].Scored() ==> low <= suites[i].Score() <= high
    ensures var s := SumOf(suites, name);
      && low * Tested(s) <= PERCENT * Passed(s)
      && (s.Scored() ==> PERCENT * Passed(s) < (high + 1) * Tested(s))
      && (!s.Scored() ==> Tested(s) == 0 && Passed(s) == 0)
    decreases |suites|
  {
    hide Summary.Score, Summary.Plus, Tested, Passed, Summary.Scored;
    if suites == [] {
      EmptyCounts(name);
    } else {
      var n := |suites| - 1;
      SumBounds(suites[..n], name, low, high);
      var s, last := SumOf(suites[..n], name), suites[n];
      OneSuiteBounds(last, low, high);
      CountsAdd(s, last);
      Distribute(low, Tested(s), Tested(last));
      Distribute(high + 1, Tested(s), Tested(last));
    }
  }

  lemma EmptyCounts(name: string)
    ensures Tested(Empty(name)) == 0 && Passed(Empty(name)) == 0 && !Empty(name).Scored()
  {
  }

  lemma CountsAdd(a: Summary, b: Summary)
    ensures Tested(a.Plus(b)) == Tested(a) + Tested(b) && Passed(a.Plus(b)) == Passed(a) + Passed(b)
    ensures a.Plus(b).Scored() <==> a.Scored() || b.Scored()
  {
  }

  lemma Distribute(m: int, a: int, b: int)
    ensures m * (a + b) == m * a + m * b
  {
  }

  lemma OneSuiteBounds(s: Summary, low: int, high: int)
    requires s.Consistent() && (s.Scored() ==> low <= s.Score() <= high)
    ensures low * Tested(s) <= PERCENT * Passed(s)
    ensures s.Scored() ==> PERCENT * Passed(s) < (high + 1) * Tested(s)
    ensures !s.Scored() ==> Tested(s) == 0 && Passed(s) == 0
  {
    var p, t := Passed(s), Tested(s);
    if s.Scored() {
      var q := PERCENT * p / t;
      DivisionBounds(PERCENT * p, t);
      assert low * t <= q * t;
      assert (q + 1) * t <= (high + 1) * t;
    }
  }

  /** The truncated overall score lies between the least and the greatest scored suite score. */
  lemma OverallScoreBetween(rs: seq<TestResult>, low: int, high: int)
    requires Tallied(OVERALL, rs).Scored()
    requires forall i :: 0 <= i < |SuitesOf(rs)| && SuitesOf(rs)[i].Scored() ==> low <= SuitesOf(rs)[i].Score() <= high
    ensures low <= Tallied(OVERALL, rs).Score() <= high
  {
    var suites := SuitesOf(rs);
    forall i | 0 <= i < |suites| ensures suites[i].Consistent() {
      EveryResultCountedOnce(FirstSeen(rs)[i], OfSuite(rs, FirstSeen(rs)[i]));
    }
    SuitesAddUp(rs);
    SumBounds(suites, OVERALL, low, high);
    var s := Tallied(OVERALL, rs);
    DivisionAtLeast(PERCENT * Passed(s), Tested(s), low);
    DivisionAtMost(PERCENT * Passed(s), Tested(s), high);
  }
}
