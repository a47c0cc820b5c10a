/** The directed graph that `requires` lists draw between test IDs. */
module RequiresGraph {
  import opened TestDef

  ghost function Ids(tests: seq<Test>): set<string> {
    set t | t in tests :: t.id
  }

  ghost predicate DistinctIds(tests: seq<Test>) {
    forall i, j :: 0 <= i < j < |tests| ==> tests[i].id != tests[j].id
  }

  ghost predicate Edge(tests: seq<Test>, a: string, b: string) {
    exists t :: t in tests && t.id == a && b in t.deps
  }

  ghost predicate IsPath(tests: seq<Test>, p: seq<string>) {
    && p != []
    && forall i :: 0 <= i < |p| - 1 ==> Edge(tests, p[i], p[i + 1])
  }

  ghost predicate Reachable(tests: seq<Test>, a: string, b: string) {
    exists p :: IsPath(tests, p) && p[0] == a && p[|p| - 1] == b
  }

  ghost predicate OnCycle(tests: seq<Test>, a: string) {
    exists p :: IsPath(tests, p) && |p| >= 2 && p[0] == a && p[|p| - 1] == a
  }

  ghost predicate Acyclic(tests: seq<Test>) {
    forall a :: !OnCycle(tests, a)
  }

  /** Every required ID names a test of the list. */
  ghost predicate Closed(tests: seq<Test>) {
    forall t, d :: t in tests && d in t.deps ==> d in Ids(tests)
  }

  /** `rank` strictly decreases along every edge between tests of the list. */
  ghost predicate Ranked(tests: seq<Test>, rank: map<string, nat>) {
    && Ids(tests) <= rank.Keys
    && forall t, d :: t in tests && d in t.deps && d in Ids(tests) ==> rank[d] < rank[t.id]
  }

  lemma {:induction false} RankDropsAlongPath(tests: seq<Test>, rank: map<string, nat>, p: seq<string>)
    requires Ranked(tests, rank) && IsPath(tests, p)
    requires p[|p| - 1] in Ids(tests)
    ensures p[0] in Ids(tests)
    ensures rank[p[|p| - 1]] + |p| - 1 <= rank[p[0]]
    decreases |p|
  {
    if |p| > 1 {
      assert Edge(tests, p[0], p[1]);
      PathSuffix(tests, p, 1);
      RankDropsAlongPath(tests, rank, p[1..]);
    }
  }

  lemma RankedIsAcyclic(tests: seq<Test>, rank: map<string, nat>)
    requires Ranked(tests, rank)
    ensures Acyclic(tests)
  {
    forall a ensures !OnCycle(tests, a) {
      if OnCycle(tests, a) {
        var p :| IsPath(tests, p) && |p| >= 2 && p[0] == a && p[|p| - 1] == a;
        assert Edge(tests, p[0], p[1]);
        RankDropsAlongPath(tests, rank, p);
      }
    }
  }

  lemma PathPrefix(tests: seq<Test>, p: seq<string>, k: nat)
    requires IsPath(tests, p) && k < |p|
    ensures IsPath(tests, p[..k + 1])
  {
    var q := p[..k + 1];
    forall i | 0 <= i < |q| - 1 ensures Edge(tests, q[i], q[i + 1]) {
      assert Edge(tests, p[i], p[i + 1]);
    }
  }

  lemma PathSuffix(tests: seq<Test>, p: seq<string>, k: nat)
    requires IsPath(tests, p) && k < |p|
    ensures IsPath(tests, p[k..])
  {
    var q := p[k..];
    forall i | 0 <= i < |q| - 1 ensures Edge(tests, q[i], q[i + 1]) {
      assert Edge(tests, p[k + i], p[k + i + 1]);
    }
  }

  lemma PathSnoc(tests: seq<Test>, p: seq<string>, b: string)
    requires IsPath(tests, p) && Edge(tests, p[|p| - 1], b)
    ensures IsPath(tests, p + [b])
  {
    var q := p + [b];
    forall i | 0 <= i < |q| - 1 ensures Edge(tests, q[i], q[i + 1]) {
      if i < |p| - 1 {
        assert Edge(tests, p[i], p[i + 1]);
      }
    }
  }

  lemma PathCons(tests: seq<Test>, a: string, p: seq<string>)
    requires IsPath(tests, p) && Edge(tests, a, p[0])
    ensures IsPath(tests, [a] + p)
  {
    var q := [a] + p;
    forall i | 0 <= i < |q| - 1 ensures Edge(tests, q[i], q[i + 1]) {
      if i > 0 {
        assert Edge(tests, p[i - 1], p[i - 1 + 1]);
      }
    }
  }

  /** Walking edges backwards inside `nodes` reaches a node no other node of `nodes` requires. */
  lemma FindSource(tests: seq<Test>, nodes: set<string>, walk: seq<string>) returns (source: string)
    requires Acyclic(tests)
    requires IsPath(tests, walk) && forall n :: n in walk ==> n in nodes
    ensures source in nodes
    ensures forall a :: a in nodes ==> !Edge(tests, a, source)
    decreases nodes - (set n | n in walk)
  {
    source := walk[0];
    if a :| a in nodes && Edge(tests, a, source) {
      PathCons(tests, a, walk);
      if a in walk {
        var k :| 0 <= k < |walk| && walk[k] == a;
        PathPrefix(tests, walk, k);
        PathCons(tests, a, walk[..k + 1]);
        var cycle := [a] + walk[..k + 1];
        assert cycle[|cycle| - 1] == a;
        assert OnCycle(tests, a);
      } else {
        assert a in nodes - (set n | n in walk);
        source := FindSource(tests, nodes, [a] + walk);
      }
    }
  }

  lemma RankWithin(tests: seq<Test>, nodes: set<string>) returns (rank: map<string, nat>)
    requires Acyclic(tests)
    ensures rank.Keys == nodes
    ensures forall a :: a in nodes ==> rank[a] < |nodes|
    ensures forall a, b :: a in nodes && b in nodes && Edge(tests, a, b) ==> rank[b] < rank[a]
    decreases nodes
  {
    if nodes == {} {
      rank := map[];
    } else {
      var n :| n in nodes;
      var source := FindSource(tests, nodes, [n]);
      rank := RankWithin(tests, nodes - {source});
      assert |nodes - {source}| == |nodes| - 1;
      rank := rank[source := |nodes| - 1];
    }
  }

  /** A finite acyclic graph has a rank, so acyclicity and having a rank are the same thing. */
  lemma AcyclicHasRank(tests: seq<Test>) returns (rank: map<string, nat>)
    requires Acyclic(tests)
    ensures Ranked(tests, rank)
  {
    rank := RankWithin(tests, Ids(tests));
    forall t, d | t in tests && d in t.deps && d in Ids(tests) ensures rank[d] < rank[t.id] {
      assert Edge(tests, t.id, d);
    }
  }
}
