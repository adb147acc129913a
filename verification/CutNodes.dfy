// check_reach_cuts_in_one_connection: which nodes cannot, and which must, lie on the labelled path.
module CutNodes {
  import opened Layout
  import opened Sets
  import opened Stores
  import opened BitScan
  import opened Region
  import opened DomainPairs
  import opened LinearTerms
  import opened Graphs

  // Label and successor variables of nodes 1..n; index 0 is not used.
  datatype Net = Net(n: nat, lab: seq<nat>, succ: seq<nat>)

  ghost predicate IsNet(views: map<nat, View>, net: Net) {
    && |net.lab| == |net.succ| == net.n + 1
    && (forall i :: 1 <= i <= net.n ==> net.lab[i] in views && net.succ[i] in views)
    && (forall i, v :: 1 <= i <= net.n && v in Domain(views[net.succ[i]]) ==> 1 <= v <= net.n)
  }

  // No variable is both a label and a successor.
  ghost predicate Separate(net: Net) {
    && |net.lab| == |net.succ| == net.n + 1
    && forall i, j :: 1 <= i <= net.n && 1 <= j <= net.n ==> net.lab[i] != net.succ[j]
  }

  ghost function Edges(views: map<nat, View>, net: Net): (e: seq<set<int>>)
    requires IsNet(views, net)
    ensures |e| == net.n + 1
  {
    seq(net.n + 1, i requires 0 <= i < net.n + 1 => if i == 0 then {} else Domain(views[net.succ[i]]))
  }

  // The nodes that can carry the color, but for the cut node (0 for none).
  ghost function Capable(views: map<nat, View>, net: Net, color: int, cut: int): set<int>
    requires IsNet(views, net)
  {
    set v: int | 1 <= v <= net.n && v != cut && CanCarry(views, net, color, v)
  }

  ghost predicate CanCarry(views: map<nat, View>, net: Net, color: int, v: int)
    requires IsNet(views, net)
  {
    1 <= v <= net.n && color in Domain(views[net.lab[v]])
  }

  ghost function GraphOf(views: map<nat, View>, net: Net, color: int, cut: int): (g: Graph)
    requires IsNet(views, net)
    ensures IsGraph(g)
  {
    Graph(net.n, Edges(views, net), Capable(views, net, color, cut))
  }

  // ---- The search ----

  // The label test on node v.
  method LabelTest(s: Store, ghost net: Net, d: nat, color: int, ghost v: int) returns (r: bool)
    requires s.Valid() && IsNet(s.views, net) && 1 <= v <= net.n && d == net.lab[v]
    ensures r <==> CanCarry(s.views, net, color, v)
  {
    VarBounds(s, d);
    if Bound(s.mem, d) {
      r := s.mem[d].n == color;
    } else {
      assert Shape(s.mem, s.owner, d);
      r := DmTrue(s.mem, s.owner, d, color);
    }
  }

  // The nodes marked so far, in the order in which they entered the queue.
  ghost predicate Marked(visited: seq<int>, queue: seq<int>, rear: int, n: int) {
    && |visited| == n + 1 && 0 <= rear <= |queue| == n
    && (forall k :: 0 <= k < rear ==> 1 <= queue[k] <= n && visited[queue[k]] == 1)
    && (forall j, k :: 0 <= j < k < rear ==> queue[j] != queue[k])
    && (forall v :: 1 <= v <= n && visited[v] != 0 ==> v in queue[..rear])
  }

  ghost predicate AllReached(g: Graph, start: int, queue: seq<int>, rear: int) {
    0 <= rear <= |queue| && forall k :: 0 <= k < rear ==> Reach(g, start, queue[k])
  }

  // All capable successors of u are marked.
  ghost predicate Spread(g: Graph, visited: seq<int>, u: int) {
    forall v :: Step(g, u, v) ==> 0 <= v < |visited| && visited[v] == 1
  }

  ghost predicate Expanded(g: Graph, visited: seq<int>, queue: seq<int>, front: int) {
    0 <= front <= |queue| && forall k :: 0 <= k < front ==> Spread(g, visited, queue[k])
  }

  // Marking more keeps what is marked.
  ghost predicate MoreMarked(visited: seq<int>, visited': seq<int>) {
    |visited'| == |visited| && forall u :: 0 <= u < |visited| && visited[u] == 1 ==> visited'[u] == 1
  }

  lemma SpreadMore(g: Graph, visited: seq<int>, visited': seq<int>, u: int)
    requires Spread(g, visited, u) && MoreMarked(visited, visited')
    ensures Spread(g, visited', u)
  {
    forall v | Step(g, u, v) ensures 0 <= v < |visited'| && visited'[v] == 1 {
      assert visited[v] == 1;
    }
  }

  ghost predicate Searching(g: Graph, start: int, visited: seq<int>, queue: seq<int>, front: int, rear: int) {
    && IsGraph(g) && Marked(visited, queue, rear, g.n) && AllReached(g, start, queue, rear)
    && Expanded(g, visited, queue, front) && front <= rear
  }

  ghost function Elems(q: seq<int>): set<int> {
    set v | v in q
  }

  lemma {:induction false} ElemsSize(q: seq<int>)
    requires forall j, k :: 0 <= j < k < |q| ==> q[j] != q[k]
    ensures |Elems(q)| == |q|
    decreases |q|
  {
    if q != [] {
      var m := |q| - 1;
      ElemsSize(q[..m]);
      assert q[m] !in q[..m];
      assert q == q[..m] + [q[m]];
      assert Elems(q) == Elems(q[..m]) + {q[m]};
    }
  }

  // There is room for an unmarked node.
  lemma Room(visited: seq<int>, queue: seq<int>, rear: int, n: nat, v: int)
    requires Marked(visited, queue, rear, n) && 1 <= v <= n && visited[v] == 0
    ensures rear < n
  {
    var q := queue[..rear];
    ElemsSize(q);
    forall u | u in Elems(q) + {v} ensures u in Range(1, n) {
      assert InRange(1, u, n);
    }
    SubsetSize(Elems(q) + {v}, Range(1, n));
    RangeSize(1, n);
  }

  // Marking node v and putting it at the end of the queue.
  lemma MarkStep(g: Graph, start: int, visited: seq<int>, queue: seq<int>, front: int, rear: int, v: int)
    requires Searching(g, start, visited, queue, front, rear) && 1 <= v <= g.n && visited[v] == 0 && Reach(g, start, v)
    requires rear < g.n
    ensures Searching(g, start, visited[v := 1], queue[rear := v], front, rear + 1)
  {
    var visited', queue' := visited[v := 1], queue[rear := v];
    assert queue'[..rear + 1] == queue[..rear] + [v];
    forall k | 0 <= k < front ensures Spread(g, visited', queue'[k]) {
      SpreadMore(g, visited, visited', queue[k]);
    }
  }

  // When the queue is used up, the marked nodes are those reachable.
  lemma SearchDone(g: Graph, start: int, visited: seq<int>, queue: seq<int>, rear: int)
    requires Searching(g, start, visited, queue, rear, rear) && 1 <= start <= g.n && visited[start] == 1
    ensures forall v :: 1 <= v <= g.n ==> (visited[v] != 0 <==> Reach(g, start, v))
  {
    var vs := Elems(queue[..rear]);
    forall u, w | u in vs && Step(g, u, w) ensures w in vs {
      var k :| 0 <= k < rear && queue[..rear][k] == u;
      assert Step(g, queue[k], w);
      assert 1 <= w <= g.n;
    }
    forall v | 1 <= v <= g.n ensures visited[v] != 0 <==> Reach(g, start, v) {
      if visited[v] != 0 {
        var k :| 0 <= k < rear && queue[..rear][k] == v;
      } else if Reach(g, start, v) {
        ClosedReach(g, vs, start, v);
      }
    }
  }

  // One possible successor of the current node: mark it unless it is marked, cut, or cannot carry the label.
  method Visit(s: Store, net: Net, color: int, cut: int, ghost g: Graph, ghost start: int, visited: array<int>,
      queue: array<int>, ghost front: int, rear0: int, ghost cur: int, v: int)
    returns (rear: int)
    requires s.Valid() && IsNet(s.views, net) && g == GraphOf(s.views, net, color, cut) && visited != queue
    requires Searching(g, start, visited[..], queue[..], front, rear0) && Reach(g, start, cur) && 1 <= cur <= net.n
    requires v in g.edges[cur]
    modifies visited, queue
    ensures Searching(g, start, visited[..], queue[..], front, rear) && rear >= rear0
    ensures SamePrefix(old(queue[..]), queue[..], rear0)
    ensures (Step(g, cur, v) ==> visited[v] == 1) && MoreMarked(old(visited[..]), visited[..])
  {
    rear := rear0;
    MarkedOnes(visited[..], queue[..], rear, g.n, v);
    if visited[v] == 0 && v != cut {
      var ok := LabelTest(s, net, net.lab[v], color, v);
      if ok {
        Room(visited[..], queue[..], rear, g.n, v);
        ReachStep(g, start, cur, v);
        MarkStep(g, start, visited[..], queue[..], front, rear, v);
        ghost var vs, qs := visited[..], queue[..];
        visited[v] := 1;
        queue[rear] := v;
        assert visited[..] == vs[v := 1] && queue[..] == qs[rear := v];
        rear := rear + 1;
      }
    }
  }

  lemma MarkedOnes(visited: seq<int>, queue: seq<int>, rear: int, n: int, v: int)
    requires Marked(visited, queue, rear, n) && 1 <= v <= n
    ensures visited[v] != 0 ==> visited[v] == 1
  {
    if visited[v] != 0 {
      var k :| 0 <= k < rear && queue[..rear][k] == v;
    }
  }

  // The capable successors of u below v are marked.
  ghost predicate SpreadTo(g: Graph, visited: seq<int>, u: int, v: int) {
    forall w :: w < v && Step(g, u, w) ==> 0 <= w < |visited| && visited[w] == 1
  }

  lemma SpreadNext(g: Graph, visited: seq<int>, visited': seq<int>, u: int, v: int, next: int, dom: set<int>)
    requires SpreadTo(g, visited, u, v) && MoreMarked(visited, visited') && 1 <= u < |g.edges| && g.edges[u] == dom
    requires 0 <= v < |visited'| && (Step(g, u, v) ==> visited'[v] == 1) && forall w :: v < w < next ==> w !in dom
    ensures SpreadTo(g, visited', u, next)
  {
    forall w | w < next && Step(g, u, w) ensures 0 <= w < |visited'| && visited'[w] == 1 {
      assert w < v ==> visited[w] == 1;
    }
  }

  lemma SpreadLast(g: Graph, visited: seq<int>, visited': seq<int>, u: int, last: int, dom: set<int>)
    requires SpreadTo(g, visited, u, last) && MoreMarked(visited, visited') && 1 <= u < |g.edges| && g.edges[u] == dom
    requires 0 <= last < |visited'| && (Step(g, u, last) ==> visited'[last] == 1) && forall w :: w in dom ==> w <= last
    ensures Spread(g, visited', u)
  {
    forall w | Step(g, u, w) ensures 0 <= w < |visited'| && visited'[w] == 1 {
      assert w < last ==> visited[w] == 1;
    }
  }

  // What the visits for the current node keep and add.
  ghost predicate Visiting(g: Graph, start: int, visited0: seq<int>, visited: seq<int>, queue0: seq<int>,
      queue: seq<int>, front: int, rear0: int, rear: int) {
    && Searching(g, start, visited, queue, front, rear) && rear0 <= rear
    && SamePrefix(queue0, queue, rear0) && MoreMarked(visited0, visited)
  }

  ghost predicate SamePrefix(q: seq<int>, q': seq<int>, n: int) {
    0 <= n <= |q| && n <= |q'| && forall k :: 0 <= k < n ==> q'[k] == q[k]
  }

  lemma VisitingStep(g: Graph, start: int, visited0: seq<int>, visited1: seq<int>, visited2: seq<int>, queue0: seq<int>,
      queue1: seq<int>, queue2: seq<int>, front: int, rear0: int, rear1: int, rear2: int)
    requires Visiting(g, start, visited0, visited1, queue0, queue1, front, rear0, rear1)
    requires MoreMarked(visited1, visited2)
    requires Searching(g, start, visited2, queue2, front, rear2) && rear1 <= rear2 && SamePrefix(queue1, queue2, rear1)
    ensures Visiting(g, start, visited0, visited2, queue0, queue2, front, rear0, rear2)
  {
  }

  // The successors of the current node, one after the other.
  method VisitAll(s: Store, net: Net, color: int, cut: int, ghost g: Graph, ghost start: int, visited: array<int>,
      queue: array<int>, ghost front: int, rear0: int, cur: int)
    returns (rear: int)
    requires s.Valid() && IsNet(s.views, net) && g == GraphOf(s.views, net, color, cut) && visited != queue
    requires Searching(g, start, visited[..], queue[..], front, rear0) && Reach(g, start, cur) && 1 <= cur <= net.n
    modifies visited, queue
    ensures Visiting(g, start, old(visited[..]), visited[..], old(queue[..]), queue[..], front, rear0, rear)
    ensures Spread(g, visited[..], cur)
  {
    var d := net.succ[cur];
    VarBounds(s, d);
    if Bound(s.mem, d) {
      ghost var before, dom := visited[..], Domain(s.views[d]);
      rear := Visit(s, net, color, cut, g, start, visited, queue, front, rear0, cur, s.mem[d].n);
      assert SpreadTo(g, before, cur, s.mem[d].n);
      SpreadLast(g, before, visited[..], cur, s.mem[d].n, dom);
    } else {
      rear := VisitEach(s, net, color, cut, g, start, visited, queue, front, rear0, cur, d);
    }
  }

  method VisitEach(s: Store, net: Net, color: int, cut: int, ghost g: Graph, ghost start: int, visited: array<int>,
      queue: array<int>, ghost front: int, rear0: int, ghost cur: int, d: nat)
    returns (rear: int)
    requires s.Valid() && IsNet(s.views, net) && g == GraphOf(s.views, net, color, cut) && visited != queue
    requires Searching(g, start, visited[..], queue[..], front, rear0) && Reach(g, start, cur) && 1 <= cur <= net.n
    requires d == net.succ[cur] && !Bound(s.mem, d)
    modifies visited, queue
    ensures Visiting(g, start, old(visited[..]), visited[..], old(queue[..]), queue[..], front, rear0, rear)
    ensures Spread(g, visited[..], cur)
  {
    ghost var dom := Domain(s.views[d]);
    rear := rear0;
    var v, last := FirstLast(s, d);
    while true
      invariant Visiting(g, start, old(visited[..]), visited[..], old(queue[..]), queue[..], front, rear0, rear)
      invariant v in dom && v <= last && SpreadTo(g, visited[..], cur, v)
      decreases last - v
    {
      ghost var visited1, queue1, rear1 := visited[..], queue[..], rear;
      rear := Visit(s, net, color, cut, g, start, visited, queue, front, rear, cur, v);
      VisitingStep(g, start, old(visited[..]), visited1, visited[..], old(queue[..]), queue1, queue[..], front, rear0,
        rear1, rear);
      if v == last {
        SpreadLast(g, visited1, visited[..], cur, v, dom);
        return;
      }
      ghost var v0 := v;
      v := NextSucc(s, d, v, last);
      SpreadNext(g, visited1, visited[..], cur, v0, v, dom);
    }
  }

  method FirstLast(s: Store, d: nat) returns (first: int, last: int)
    requires s.Valid() && d in s.views && !Bound(s.mem, d)
    ensures Bounds(Domain(s.views[d]), first, last)
    ensures forall v :: v < first ==> v !in Domain(s.views[d])
  {
    FreeSucc(s, d);
    first, last := First(s.mem, d), Last(s.mem, d);
  }

  method NextSucc(s: Store, d: nat, v: int, last: int) returns (next: int)
    requires s.Valid() && d in s.views && !Bound(s.mem, d) && v in Domain(s.views[d]) && v < last
    requires last in Domain(s.views[d]) && forall u :: u in Domain(s.views[d]) ==> u <= last
    ensures v < next <= last && next in Domain(s.views[d])
    ensures forall u :: v < u < next ==> u !in Domain(s.views[d])
  {
    FreeSucc(s, d);
    next := StepIn(s.mem, s.owner, d, v, last);
  }

  lemma FreeSucc(s: Store, d: nat)
    requires s.Valid() && d in s.views && !Bound(s.mem, d)
    ensures Shape(s.mem, s.owner, d) && Stale(s.mem, d) == Domain(s.views[d])
    ensures Bounds(Stale(s.mem, d), First(s.mem, d), Last(s.mem, d))
    ensures Domain(s.views[d]) == s.views[d].described
  {
    assert Shape(s.mem, s.owner, d);
    StaleBounds(s.mem, s.owner, d);
  }

  // check_reach_withno_cut (cut is 0) and check_reach_with_one_cut: exactly the nodes reachable
  // from start through nodes that can carry the label, not entering the cut node, are marked.
  method CheckReach(s: Store, net: Net, start: int, color: int, cut: int, visited: array<int>)
    requires s.Valid() && IsNet(s.views, net) && 1 <= start <= net.n && visited.Length == net.n + 1
    requires forall v :: 1 <= v <= net.n ==> visited[v] == 0
    modifies visited
    ensures forall v :: 1 <= v <= net.n ==> (visited[v] != 0 <==> Reach(GraphOf(s.views, net, color, cut), start, v))
  {
    ghost var g := GraphOf(s.views, net, color, cut);
    var queue := new int[net.n];
    var front, rear := 0, 0;
    queue[rear] := start;
    rear := rear + 1;
    visited[start] := 1;
    ReachStart(g, start);
    assert queue[..rear] == [start];
    while front < rear
      invariant Searching(g, start, visited[..], queue[..], front, rear) && visited[start] == 1
      decreases net.n - front
    {
      var cur := queue[front];
      assert queue[..][front] == cur;
      ghost var visited0, queue0, rear0 := visited[..], queue[..], rear;
      rear := VisitAll(s, net, color, cut, g, start, visited, queue, front, rear, cur);
      front := front + 1;
      ExpandOne(g, visited0, visited[..], queue0, queue[..], rear0, front, cur);
    }
    SearchDone(g, start, visited[..], queue[..], rear);
  }

  lemma ExpandOne(g: Graph, visited0: seq<int>, visited: seq<int>, queue0: seq<int>, queue: seq<int>, rear0: int,
      front: int, cur: int)
    requires 0 < front <= rear0 <= |queue| == |queue0| && SamePrefix(queue0, queue, rear0) && queue0[front - 1] == cur
    requires Expanded(g, visited0, queue0, front - 1) && MoreMarked(visited0, visited) && Spread(g, visited, cur)
    ensures Expanded(g, visited, queue, front)
  {
    forall k | 0 <= k < front ensures Spread(g, visited, queue[k]) {
      if k < front - 1 {
        SpreadMore(g, visited0, visited, queue0[k]);
      }
    }
  }
}