/** The loaded corpus (pkg/corpus): its index, the check of `requires`, and selection. */
module Corpus {
  import opened Wrappers
  import opened TestDef
  import opened RequiresGraph
  import Validation

  datatype VisitState = Visiting | Visited

  datatype RequiresError = UnknownTest(test: string, dep: string) | CyclePart(test: string)

  datatype Filter = Filter(suites: seq<string>, ids: seq<string>, levels: seq<string>)

  /** `path.Match`, left uninterpreted: whether a pattern matches a name, and whether it is well formed. */
  datatype Glob = Glob(matches: (string, string) -> bool, wellFormed: string -> bool)

  datatype SelectError = UnknownSuite(id: string) | BadPattern(pattern: string) | NothingSelected

  datatype AddError =
    | EmptyEntry
    | Invalid(errs: seq<Validation.Error>)
    | NoRefs(id: string)
    | DuplicateId(id: string, suite: string, group: string)

  /** Every test ID, and every ID it requires, is well formed. */
  ghost predicate IdsValid(tests: seq<Test>) {
    forall t :: t in tests ==> ValidID(t.id) && forall d :: d in t.deps ==> ValidID(d)
  }

  /** IDs are unique and `byID` finds each test under its own. */
  ghost predicate Indexed(tests: seq<Test>, byID: map<string, Test>) {
    && DistinctIds(tests)
    && byID.Keys == Ids(tests)
    && forall t :: t in tests ==> byID[t.id] == t
  }

  lemma IndexedSnoc(tests: seq<Test>, byID: map<string, Test>, t: Test)
    requires Indexed(tests, byID) && t.id !in byID
    ensures Indexed(tests + [t], byID[t.id := t])
    ensures IdsValid(tests) && ValidID(t.id) && (forall d :: d in t.deps ==> ValidID(d)) ==> IdsValid(tests + [t])
  {
    hide ValidID;
    forall u | u in tests ensures u.id in byID && u.id != t.id {
      assert u.id in Ids(tests);
    }
    assert forall u :: u in tests + [t] <==> u in tests || u == t;
  }

  /** A test with its group's refs if it cites none of its own. */
  function Cited(t: Test, groupRefs: seq<string>): Test {
    t.(refs := if t.refs == [] then groupRefs else t.refs)
  }

  /** A test as it enters the corpus: in its suite and group, cited, and otherwise as it was. */
  ghost predicate IsPlaced(t: Test, suite: string, group: string, groupRefs: seq<string>, placed: Test) {
    && placed.suite == suite && placed.group == group
    && placed.refs == (if |t.refs| > 0 then t.refs else groupRefs)
    && placed.(suite := t.suite, group := t.group, refs := t.refs) == t
  }

  /** Why a test is refused: the first of these that applies, with the details it is reported with. */
  ghost predicate Refused(
    checks: Validation.Checks, byID: map<string, Test>, suite: string, group: string, groupRefs: seq<string>,
    t: Option<Test>, err: AddError)
  {
    match t
    case None => err == EmptyEntry
    case Some(test) =>
      var named := test.(suite := suite, group := group);
      match err
      case EmptyEntry => false
      case Invalid(errs) => errs != [] && forall e :: e in errs <==> Validation.Defect(checks, named, e)
      case NoRefs(id) =>
        && Validation.ValidTest(checks, named)
        && id == test.id && test.refs == [] && groupRefs == []
      case DuplicateId(id, otherSuite, otherGroup) =>
        && Validation.ValidTest(checks, named) && (test.refs != [] || groupRefs != [])
        && id == test.id && id in byID && otherSuite == byID[id].suite && otherGroup == byID[id].group
  }

  /** Each field that is not empty has an element for the test: its suite, its level, or a pattern of its ID. */
  ghost predicate FilterMatches(f: Filter, glob: Glob, t: Test) {
    && (f.suites != [] ==> exists i :: 0 <= i < |f.suites| && f.suites[i] == t.suite)
    && (f.levels != [] ==> exists i :: 0 <= i < |f.levels| && f.levels[i] == t.level)
    && (f.ids != [] ==> exists i :: 0 <= i < |f.ids| && glob.matches(f.ids[i], t.id))
  }

  predicate Matches(f: Filter, glob: Glob, t: Test)
    ensures Matches(f, glob, t) <==> FilterMatches(f, glob, t)
  {
    if |f.suites| > 0 && t.suite !in f.suites then false
    else if |f.levels| > 0 && t.level !in f.levels then false
    else |f.ids| == 0 || exists p :: p in f.ids && glob.matches(p, t.id)
  }

  /** `order` lists finished tests so that each comes after everything it requires. */
  ghost predicate PostOrder(tests: seq<Test>, order: seq<string>) {
    && (forall i, j :: 0 <= i < j < |order| ==> order[i] != order[j])
    && (forall i, d :: 0 <= i < |order| && Edge(tests, order[i], d) ==> d in order[..i])
  }

  /** The search state between calls: visiting tests are the stack, visited ones are in `order`. */
  ghost predicate Searching(tests: seq<Test>, state: map<string, VisitState>, stack: seq<string>, order: seq<string>) {
    && state.Keys <= Ids(tests)
    && (forall n :: n in stack <==> n in state && state[n] == Visiting)
    && (forall n :: n in order <==> n in state && state[n] == Visited)
    && (stack != [] ==> IsPath(tests, stack))
    && PostOrder(tests, order)
  }

  lemma PostOrderSnoc(tests: seq<Test>, order: seq<string>, t: Test)
    requires PostOrder(tests, order) && DistinctIds(tests) && t in tests
    requires t.id !in order && forall d :: d in t.deps ==> d in order
    ensures PostOrder(tests, order + [t.id])
  {
    var longer := order + [t.id];
    forall i, d | 0 <= i < |longer| && Edge(tests, longer[i], d) ensures d in longer[..i] {
      if i < |order| {
        assert longer[..i] == order[..i];
      } else {
        var u :| u in tests && u.id == t.id && d in u.deps;
        assert u == t;
        assert longer[..i] == order;
      }
    }
  }

  /** A coloured test is on the stack or finished, and nothing else is coloured. */
  lemma ColouredTests(tests: seq<Test>, state: map<string, VisitState>, stack: seq<string>, order: seq<string>)
    requires Searching(tests, state, stack, order)
    ensures state.Keys <= Ids(tests)
    ensures forall n :: n in state <==> n in stack || n in order
    ensures forall n :: n in state ==> (n in stack <==> state[n] == Visiting) && (n in order <==> state[n] == Visited)
    ensures stack != [] ==> IsPath(tests, stack)
    ensures PostOrder(tests, order)
  {
  }

  lemma NothingVisited(tests: seq<Test>)
    ensures Searching(tests, map[], [], [])
  {
  }

  /** Colouring an unseen test grey pushes it on the stack. */
  lemma EnterTest(tests: seq<Test>, state: map<string, VisitState>, stack: seq<string>, order: seq<string>, id: string)
    requires Searching(tests, state, stack, order)
    requires id in Ids(tests) && id !in state
    requires stack != [] ==> Edge(tests, stack[|stack| - 1], id)
    ensures Searching(tests, state[id := Visiting], stack + [id], order)
  {
    if stack != [] {
      PathSnoc(tests, stack, id);
    }
  }

  /** Colouring the top of the stack black appends it to the finished order. */
  lemma LeaveTest(tests: seq<Test>, state: map<string, VisitState>, stack: seq<string>, order: seq<string>, t: Test)
    requires Searching(tests, state, stack + [t.id], order)
    requires DistinctIds(tests) && t in tests && t.id !in stack
    requires forall d :: d in t.deps ==> d in order
    ensures Searching(tests, state[t.id := Visited], stack, order + [t.id])
  {
    var deeper := stack + [t.id];
    assert t.id in deeper;
    PostOrderSnoc(tests, order, t);
    forall n ensures n in deeper <==> n in stack || n == t.id {}
    if stack != [] {
      PathPrefix(tests, deeper, |stack| - 1);
      assert deeper[..|stack|] == stack;
    }
  }

  lemma PostOrderRank(tests: seq<Test>, order: seq<string>) returns (rank: map<string, nat>)
    requires PostOrder(tests, order) && forall t :: t in tests ==> t.id in order
    ensures Ranked(tests, rank)
  {
    rank := map n | n in order :: Position(order, n);
    forall t, d | t in tests && d in t.deps && d in Ids(tests) ensures rank[d] < rank[t.id] {
      var i := Position(order, t.id);
      assert Edge(tests, order[i], d);
      var j :| 0 <= j < i && order[..i][j] == d;
      assert Position(order, d) == j;
    }
  }

  ghost function Position(order: seq<string>, n: string): (i: nat)
    requires n in order
    ensures i < |order| && order[i] == n
  {
    var i :| 0 <= i < |order| && order[i] == n;
    i
  }

  /** The stack from where `t` first appears, closed by the edge back to `t`, is a cycle. */
  lemma BackEdgeClosesCycle(tests: seq<Test>, stack: seq<string>, a: string)
    requires IsPath(tests, stack) && a in stack && Edge(tests, stack[|stack| - 1], a)
    ensures OnCycle(tests, a)
  {
    var k :| 0 <= k < |stack| && stack[k] == a;
    PathSuffix(tests, stack, k);
    PathSnoc(tests, stack[k..], a);
    var cycle := stack[k..] + [a];
    assert cycle[0] == a && cycle[|cycle| - 1] == a;
  }

  /** `out` is what remains of `tests`, in the same order, when only IDs in `chosen` are kept. */
  function Keep(tests: seq<Test>, chosen: set<string>): (out: seq<Test>)
    ensures forall t :: t in out <==> t in tests && t.id in chosen
  {
    if tests == [] then []
    else
      var rest := Keep(tests[..|tests| - 1], chosen);
      var last := tests[|tests| - 1];
      if last.id in chosen then rest + [last] else rest
  }

  lemma KeepSnoc(tests: seq<Test>, chosen: set<string>)
    requires tests != []
    ensures var rest, last := Keep(tests[..|tests| - 1], chosen), tests[|tests| - 1];
      Keep(tests, chosen) == if last.id in chosen then rest + [last] else rest
  {
  }

  lemma {:induction false} KeptFrom(tests: seq<Test>, chosen: set<string>) returns (from: seq<nat>)
    ensures |from| == |Keep(tests, chosen)|
    ensures forall i :: 0 <= i < |from| ==> from[i] < |tests| && tests[from[i]] == Keep(tests, chosen)[i]
    ensures forall i, j :: 0 <= i < j < |from| ==> from[i] < from[j]
    decreases |tests|
  {
    if tests == [] {
      from := [];
    } else {
      var n := |tests| - 1;
      hide Keep;
      from := KeptFrom(tests[..n], chosen);
      KeepSnoc(tests, chosen);
      if tests[n].id in chosen {
        from := from + [n];
      }
    }
  }

  /** Load order: the places the kept tests came from strictly increase. */
  lemma KeepInLoadOrder(tests: seq<Test>, chosen: set<string>) returns (from: seq<nat>)
    ensures |from| == |Keep(tests, chosen)|
    ensures forall i :: 0 <= i < |from| ==> from[i] < |tests| && tests[from[i]] == Keep(tests, chosen)[i]
    ensures forall i, j :: 0 <= i < j < |from| ==> from[i] < from[j]
    ensures DistinctIds(tests) ==> DistinctIds(Keep(tests, chosen))
  {
    hide Keep;
    from := KeptFrom(tests, chosen);
  }

  /** An ID is wanted when some matching test reaches it through `requires`. */
  ghost predicate Wanted(tests: seq<Test>, f: Filter, glob: Glob, id: string) {
    exists t :: t in tests && FilterMatches(f, glob, t) && Reachable(tests, t.id, id)
  }

  /** Contains the matching tests and everything its members require. */
  ghost predicate ClosedUnderRequires(tests: seq<Test>, ids: set<string>) {
    forall a, b :: a in ids && Edge(tests, a, b) ==> b in ids
  }

  lemma ReachableRefl(tests: seq<Test>, a: string)
    ensures Reachable(tests, a, a)
  {
    assert IsPath(tests, [a]);
  }

  lemma ReachableConcat(tests: seq<Test>, a: string, b: string, c: string)
    requires Edge(tests, a, b) && Reachable(tests, b, c)
    ensures Reachable(tests, a, c)
  {
    var p :| IsPath(tests, p) && p[0] == b && p[|p| - 1] == c;
    PathCons(tests, a, p);
    assert ([a] + p)[0] == a && ([a] + p)[|[a] + p| - 1] == c;
  }

  /** A set closed under `requires` contains every node of a path that starts inside it. */
  lemma {:induction false} ClosedContainsPath(tests: seq<Test>, ids: set<string>, p: seq<string>)
    requires ClosedUnderRequires(tests, ids) && IsPath(tests, p) && p[0] in ids
    ensures p[|p| - 1] in ids
    decreases |p|
  {
    if |p| > 1 {
      assert Edge(tests, p[0], p[1]);
      PathSuffix(tests, p, 1);
      ClosedContainsPath(tests, ids, p[1..]);
    }
  }

  lemma ClosedContainsReachable(tests: seq<Test>, ids: set<string>, a: string, b: string)
    requires ClosedUnderRequires(tests, ids) && a in ids && Reachable(tests, a, b)
    ensures b in ids
  {
    var p :| IsPath(tests, p) && p[0] == a && p[|p| - 1] == b;
    ClosedContainsPath(tests, ids, p);
  }

  /**
   * The wanted IDs are the least set that holds every matching test and is closed under `requires`:
   * any other such set contains them.
   */
  lemma WantedIsLeast(tests: seq<Test>, f: Filter, glob: Glob, ids: set<string>, id: string)
    requires ClosedUnderRequires(tests, ids)
    requires forall t :: t in tests && FilterMatches(f, glob, t) ==> t.id in ids
    requires Wanted(tests, f, glob, id)
    ensures id in ids
  {
    var t :| t in tests && FilterMatches(f, glob, t) && Reachable(tests, t.id, id);
    ClosedContainsReachable(tests, ids, t.id, id);
  }

  /** Selected tests stay acyclic, distinct and closed, which is what running them relies on. */
  lemma SelectionIsRunnable(tests: seq<Test>, chosen: set<string>)
    requires DistinctIds(tests) && Closed(tests) && Acyclic(tests)
    requires ClosedUnderRequires(tests, chosen)
    ensures DistinctIds(Keep(tests, chosen)) && Closed(Keep(tests, chosen)) && Acyclic(Keep(tests, chosen))
  {
    var out := Keep(tests, chosen);
    var _ := KeepInLoadOrder(tests, chosen);
    forall t, d | t in out && d in t.deps ensures d in Ids(out) {
      assert t in tests && d in Ids(tests) && Edge(tests, t.id, d);
      var u :| u in tests && u.id == d;
      assert u in out;
    }
    var rank := AcyclicHasRank(tests);
    assert Ranked(out, rank);
    RankedIsAcyclic(out, rank);
  }

  /** A selection is empty exactly when nothing matches, since each member is wanted for some match. */
  lemma SelectionMembers(tests: seq<Test>, f: Filter, glob: Glob, chosen: set<string>)
    requires forall id :: id in chosen <==> Wanted(tests, f, glob, id)
    ensures forall t :: t in Keep(tests, chosen) <==> t in tests && Wanted(tests, f, glob, t.id)
    ensures Keep(tests, chosen) != [] <==> exists t :: t in tests && FilterMatches(f, glob, t)
  {
    var out := Keep(tests, chosen);
    forall t | t in tests && FilterMatches(f, glob, t) ensures t in out {
      ReachableRefl(tests, t.id);
      assert Wanted(tests, f, glob, t.id);
    }
    if out != [] {
      assert out[0] in out && Wanted(tests, f, glob, out[0].id);
    }
  }

  lemma NothingChosen(tests: seq<Test>)
    ensures ClosedUnderRequires(tests, {})
  {
  }

  /** Marking a matching test and what it requires keeps the marked set closed and wanted. */
  lemma IncludedIsWanted(
    tests: seq<Test>, f: Filter, glob: Glob, t: Test, before: set<string>, chosen: set<string>)
    requires ClosedUnderRequires(tests, before) && before <= chosen
    requires t in tests && FilterMatches(f, glob, t)
    requires forall n, d :: n in chosen - before && Edge(tests, n, d) ==> d in chosen
    requires forall n :: n in chosen - before ==> Reachable(tests, t.id, n)
    ensures ClosedUnderRequires(tests, chosen)
    ensures forall n :: n in chosen - before ==> Wanted(tests, f, glob, n)
  {
    hide Edge, Reachable, FilterMatches;
  }

  class Corpus {
    var suites: seq<string>
    var tests: seq<Test>
    var byID: map<string, Test>

    ghost predicate Valid()
      reads this
    {
      Indexed(tests, byID)
    }

    constructor ()
      ensures Valid() && tests == [] && suites == []
    {
      suites, tests, byID := [], [], map[];
    }

    /** A rejected test leaves the corpus as it was; an accepted one is valid, cited and has a new ID. */
    method AddTest(checks: Validation.Checks, suite: string, group: string, groupRefs: seq<string>, t: Option<Test>)
      returns (err: Option<AddError>)
      requires Valid()
      modifies this`tests, this`byID
      ensures Valid() && (old(IdsValid(tests)) ==> IdsValid(tests))
      ensures err.None? <==>
        && t.Some? && Validation.ValidTest(checks, t.value.(suite := suite, group := group))
        && (t.value.refs != [] || groupRefs != [])
        && t.value.id !in old(byID)
      ensures err.None? ==> |tests| == |old(tests)| + 1 && tests[..|old(tests)|] == old(tests)
      ensures err.None? ==> IsPlaced(t.value, suite, group, groupRefs, tests[|old(tests)|])
      ensures err.Some? ==> tests == old(tests) && byID == old(byID)
      ensures err.Some? ==> Refused(checks, old(byID), suite, group, groupRefs, t, err.value)
    {
      hide Validation.ValidTest, Validation.Defect, ValidID, Indexed, IdsValid;
      if t.None? {
        return Some(EmptyEntry);
      }
      var named := t.value.(suite := suite, group := group);
      var errs := Validation.Validate(checks, named);
      if errs != [] {
        return Some(Invalid(errs));
      }
      if named.refs == [] && groupRefs == [] {
        return Some(NoRefs(named.id));
      }
      if named.id in byID {
        return Some(DuplicateId(named.id, byID[named.id].suite, byID[named.id].group));
      }
      Validation.ValidTestHasValidIds(checks, named);
      var placed := Cited(named, groupRefs);
      IndexedSnoc(tests, byID, placed);
      byID := byID[placed.id := placed];
      tests := tests + [placed];
      return None;
    }

    /** Lists each requirement that names no test, in the order of the tests and of their lists. */
    method UnknownRequires() returns (errs: seq<RequiresError>)
      requires Valid()
      ensures forall t, d :: t in tests && d in t.deps && d !in byID ==> UnknownTest(t.id, d) in errs
      ensures forall e :: e in errs ==>
        e.UnknownTest? && e.dep !in byID && Edge(tests, e.test, e.dep)
      ensures errs == [] <==> Closed(tests)
    {
      errs := [];
      for i := 0 to |tests|
        invariant forall t, d :: t in tests[..i] && d in t.deps && d !in byID ==> UnknownTest(t.id, d) in errs
        invariant forall e :: e in errs ==> e.UnknownTest? && e.dep !in byID && Edge(tests, e.test, e.dep)
      {
        var t := tests[i];
        for k := 0 to |t.deps|
          invariant forall u, d :: u in tests[..i] && d in u.deps && d !in byID ==> UnknownTest(u.id, d) in errs
          invariant forall d :: d in t.deps[..k] && d !in byID ==> UnknownTest(t.id, d) in errs
          invariant forall e :: e in errs ==> e.UnknownTest? && e.dep !in byID && Edge(tests, e.test, e.dep)
        {
          if t.deps[k] !in byID {
            assert Edge(tests, t.id, t.deps[k]);
            errs := errs + [UnknownTest(t.id, t.deps[k])];
          }
        }
      }
      if errs != [] {
        assert errs[0] in errs;
      }
    }

    /**
     * The three-colour depth-first search. `stack` and `order` are the tests being visited and the
     * tests already visited, oldest first.
     */
    method Visit(t: Test, state: map<string, VisitState>, ghost stack: seq<string>, ghost order: seq<string>)
      returns (err: Option<RequiresError>, state': map<string, VisitState>, ghost order': seq<string>)
      requires Valid() && Closed(tests) && t in tests
      requires Searching(tests, state, stack, order)
      requires stack != [] ==> Edge(tests, stack[|stack| - 1], t.id)
      ensures err.None? ==> Searching(tests, state', stack, order') && order <= order' && t.id in order'
      ensures err.Some? ==> err.value.CyclePart? && OnCycle(tests, err.value.test)
      decreases Ids(tests) - state.Keys
    {
      hide Searching, PostOrder, IsPath, OnCycle;
      err, state', order' := None, state, order;
      ColouredTests(tests, state, stack, order);
      if t.id in state {
        if state[t.id] == Visiting {
          BackEdgeClosesCycle(tests, stack, t.id);
          err := Some(CyclePart(t.id));
        }
        return;
      }
      EnterTest(tests, state, stack, order, t.id);
      state' := state'[t.id := Visiting];
      ghost var deeper := stack + [t.id];
      for k := 0 to |t.deps|
        invariant err.None? && Searching(tests, state', deeper, order')
        invariant order <= order' && state.Keys + {t.id} <= state'.Keys
        invariant forall m :: 0 <= m < k ==> t.deps[m] in order'
      {
        assert Edge(tests, t.id, t.deps[k]);
        ColouredTests(tests, state', deeper, order');
        err, state', order' := Visit(byID[t.deps[k]], state', deeper, order');
        if err.Some? {
          return;
        }
        ColouredTests(tests, state', deeper, order');
      }
      LeaveTest(tests, state', stack, order', t);
      state', order' := state'[t.id := Visited], order' + [t.id];
    }

    method CheckRequires() returns (errs: seq<RequiresError>)
      requires Valid()
      ensures errs == [] <==> Closed(tests) && Acyclic(tests)
      ensures errs == [] ==> exists rank :: Ranked(tests, rank)
      ensures forall e :: e in errs ==>
        match e
        case UnknownTest(id, dep) => dep !in byID && Edge(tests, id, dep)
        case CyclePart(id) => OnCycle(tests, id)
    {
      hide Searching, Indexed, OnCycle, PostOrder, Ranked;
      errs := UnknownRequires();
      if errs != [] {
        return;
      }
      NothingVisited(tests);
      var state: map<string, VisitState> := map[];
      ghost var order: seq<string> := [];
      for i := 0 to |tests|
        invariant Searching(tests, state, [], order)
        invariant forall t :: t in tests[..i] ==> t.id in order
      {
        var err;
        ghost var before := order;
        err, state, order := Visit(tests[i], state, [], order);
        if err.Some? {
          return [err.value];
        }
        assert forall n :: n in before ==> n in order;
      }
      ColouredTests(tests, state, [], order);
      ghost var rank := PostOrderRank(tests, order);
      RankedIsAcyclic(tests, rank);
    }

    /** Marks `t` and everything it requires; marked tests higher on the stack are still incomplete. */
    method Include(t: Test, chosen: set<string>) returns (chosen': set<string>)
      requires Valid() && Closed(tests) && t in tests && chosen <= Ids(tests)
      ensures chosen <= chosen' <= Ids(tests) && t.id in chosen'
      ensures forall n, d :: n in chosen' - chosen && Edge(tests, n, d) ==> d in chosen'
      ensures forall n :: n in chosen' - chosen ==> Reachable(tests, t.id, n)
      decreases Ids(tests) - chosen
    {
      chosen' := chosen;
      if t.id in chosen {
        return;
      }
      chosen' := chosen' + {t.id};
      ReachableRefl(tests, t.id);
      for k := 0 to |t.deps|
        invariant chosen + {t.id} <= chosen' <= Ids(tests)
        invariant forall m :: 0 <= m < k ==> t.deps[m] in chosen'
        invariant forall n, d :: n in chosen' - chosen - {t.id} && Edge(tests, n, d) ==> d in chosen'
        invariant forall n :: n in chosen' - chosen ==> Reachable(tests, t.id, n)
      {
        var dep := byID[t.deps[k]];
        assert Edge(tests, t.id, dep.id);
        var before := chosen';
        chosen' := Include(dep, chosen');
        forall n | n in chosen' - before ensures Reachable(tests, t.id, n) {
          ReachableConcat(tests, t.id, dep.id, n);
        }
      }
      forall d | Edge(tests, t.id, d) ensures d in chosen' {
        var u :| u in tests && u.id == t.id && d in u.deps;
        assert u == t;
      }
    }

    method Choose(f: Filter, glob: Glob) returns (chosen: set<string>)
      requires Valid() && Closed(tests)
      ensures chosen <= Ids(tests) && ClosedUnderRequires(tests, chosen)
      ensures forall id :: id in chosen <==> Wanted(tests, f, glob, id)
    {
      hide FilterMatches, Wanted, Reachable, Edge, ClosedUnderRequires, Indexed;
      chosen := {};
      NothingChosen(tests);
      for i := 0 to |tests|
        invariant chosen <= Ids(tests) && ClosedUnderRequires(tests, chosen)
        invariant forall t :: t in tests[..i] && FilterMatches(f, glob, t) ==> t.id in chosen
        invariant forall id :: id in chosen ==> Wanted(tests, f, glob, id)
      {
        if Matches(f, glob, tests[i]) {
          ghost var before := chosen;
          chosen := Include(tests[i], chosen);
          IncludedIsWanted(tests, f, glob, tests[i], before, chosen);
        }
      }
      forall id | Wanted(tests, f, glob, id) ensures id in chosen {
        WantedIsLeast(tests, f, glob, chosen, id);
      }
    }

    method CheckFilter(f: Filter, glob: Glob) returns (err: Option<SelectError>)
      ensures err.None? <==> FilterUsable(f, glob)
      ensures err.Some? ==> FilterProblem(f, glob, err.value)
    {
      for i := 0 to |f.suites|
        invariant forall j :: 0 <= j < i ==> f.suites[j] in suites
      {
        if f.suites[i] !in suites {
          return Some(UnknownSuite(f.suites[i]));
        }
      }
      for i := 0 to |f.ids|
        invariant forall j :: 0 <= j < i ==> glob.wellFormed(f.ids[j])
      {
        if !glob.wellFormed(f.ids[i]) {
          return Some(BadPattern(f.ids[i]));
        }
      }
      return None;
    }

    /** The tests matching `f` and every test they require, in load order. */
    method Select(f: Filter, glob: Glob) returns (r: Result<seq<Test>, SelectError>)
      requires Valid() && Closed(tests)
      ensures r.Ok? <==> FilterUsable(f, glob) && exists t :: t in tests && FilterMatches(f, glob, t)
      ensures r.Ok? ==> exists chosen :: SelectedBy(f, glob, chosen) && r.value == Keep(tests, chosen)
      ensures r.Err? ==>
        if r.error == NothingSelected
        then FilterUsable(f, glob) && forall t :: t in tests ==> !FilterMatches(f, glob, t)
        else FilterProblem(f, glob, r.error)
    {
      hide Wanted, FilterMatches, FilterUsable, FilterProblem, Indexed, ClosedUnderRequires;
      var err := CheckFilter(f, glob);
      if err.Some? {
        return Err(err.value);
      }
      var chosen := Choose(f, glob);
      var out: seq<Test> := [];
      for i := 0 to |tests|
        invariant out == Keep(tests[..i], chosen)
      {
        assert tests[..i + 1][..i] == tests[..i];
        if tests[i].id in chosen {
          out := out + [tests[i]];
        }
      }
      assert tests[..|tests|] == tests;
      SelectionMembers(tests, f, glob, chosen);
      if out == [] {
        return Err(NothingSelected);
      }
      assert SelectedBy(f, glob, chosen);
      return Ok(out);
    }

    predicate FilterUsable(f: Filter, glob: Glob)
      reads this
    {
      && (forall id :: id in f.suites ==> id in suites)
      && (forall p :: p in f.ids ==> glob.wellFormed(p))
    }

    /** The first unknown suite, or, when every suite is known, the first malformed pattern. */
    ghost predicate FilterProblem(f: Filter, glob: Glob, err: SelectError)
      reads this
    {
      match err
      case UnknownSuite(id) =>
        exists i :: 0 <= i < |f.suites| && f.suites[i] == id && id !in suites
                    && forall j :: 0 <= j < i ==> f.suites[j] in suites
      case BadPattern(p) =>
        && (forall id :: id in f.suites ==> id in suites)
        && exists i :: 0 <= i < |f.ids| && f.ids[i] == p && !glob.wellFormed(p)
                       && forall j :: 0 <= j < i ==> glob.wellFormed(f.ids[j])
      case NothingSelected => false
    }

    ghost predicate SelectedBy(f: Filter, glob: Glob, chosen: set<string>)
      reads this
    {
      && ClosedUnderRequires(tests, chosen)
      && forall id :: id in chosen <==> Wanted(tests, f, glob, id)
    }
  }
}
