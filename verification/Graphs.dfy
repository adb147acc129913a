// Walks in a graph through the nodes that can carry a label.
module Graphs {

  // Nodes 1..n; edges[i] are the possible successors of i; capable are the nodes a walk may enter.
  datatype Graph = Graph(n: nat, edges: seq<set<int>>, capable: set<int>)

  ghost predicate IsGraph(g: Graph) {
    |g.edges| == g.n + 1 && forall i, j :: 1 <= i <= g.n && j in g.edges[i] ==> 1 <= j <= g.n
  }

  ghost predicate Step(g: Graph, u: int, v: int) {
    1 <= u < |g.edges| && v in g.edges[u] && v in g.capable
  }

  ghost predicate Walk(g: Graph, p: seq<int>) {
    |p| > 0 && forall k :: 0 <= k < |p| - 1 ==> Step(g, p[k], p[k + 1])
  }

  ghost predicate Reach(g: Graph, start: int, v: int) {
    exists p :: Walk(g, p) && p[0] == start && p[|p| - 1] == v
  }

  lemma ReachStart(g: Graph, start: int)
    ensures Reach(g, start, start)
  {
    assert Walk(g, [start]);
    assert [start][|[start]| - 1] == start;
  }

  lemma ReachStep(g: Graph, start: int, u: int, v: int)
    requires Reach(g, start, u) && Step(g, u, v)
    ensures Reach(g, start, v)
  {
    var p :| Walk(g, p) && p[0] == start && p[|p| - 1] == u;
    var q := p + [v];
    forall k | 0 <= k < |q| - 1 ensures Step(g, q[k], q[k + 1]) {
      if k < |p| - 1 {
        assert Step(g, p[k], p[k + 1]);
      }
    }
    assert Walk(g, q) && q[0] == start && q[|q| - 1] == v;
  }

  // A set that holds the start and everything a step away from its members holds all that is reachable.
  lemma {:induction false} ClosedWalk(g: Graph, vs: set<int>, p: seq<int>)
    requires Walk(g, p) && p[0] in vs && forall u, v :: u in vs && Step(g, u, v) ==> v in vs
    ensures p[|p| - 1] in vs
    decreases |p|
  {
    if |p| > 1 {
      assert Step(g, p[0], p[1]);
      forall k | 0 <= k < |p| - 2 ensures Step(g, p[1..][k], p[1..][k + 1]) {
        assert Step(g, p[k + 1], p[k + 2]);
      }
      ClosedWalk(g, vs, p[1..]);
    }
  }

  lemma ClosedReach(g: Graph, vs: set<int>, start: int, v: int)
    requires start in vs && (forall u, w :: u in vs && Step(g, u, w) ==> w in vs) && Reach(g, start, v)
    ensures v in vs
  {
    var p :| Walk(g, p) && p[0] == start && p[|p| - 1] == v;
    ClosedWalk(g, vs, p);
  }

  // More capable nodes, more reach.
  lemma ReachMono(g: Graph, h: Graph, start: int, v: int)
    requires g.edges == h.edges && g.capable <= h.capable && Reach(g, start, v)
    ensures Reach(h, start, v)
  {
    var p :| Walk(g, p) && p[0] == start && p[|p| - 1] == v;
    forall k | 0 <= k < |p| - 1 ensures Step(h, p[k], p[k + 1]) {
      assert Step(g, p[k], p[k + 1]);
    }
    assert Walk(h, p);
  }
}
