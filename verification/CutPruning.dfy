// check_reach_cuts_in_one_connection: the two prunings and why they lose no labelling.
module CutPruning {
  import opened Trail
  import opened Layout
  import opened Stores
  import opened Region
  import opened Holes
  import opened Domains
  import opened LinearTerms
  import opened Graphs
  import opened CutNodes

  // One connection: from start to end by a path of nodes labelled color.
  datatype Connection = Connection(start: int, end: int, color: int)

  // The nodes that carry the color in a labelling.
  ghost function Carriers(w: seq<int>, n: nat, color: int): set<int> {
    set v: int | 0 < v <= n && v < |w| && w[v] == color
  }

  ghost function Coloured(views: map<nat, View>, net: Net, c: Connection, w: seq<int>): Graph
    requires IsNet(views, net)
  {
    Graph(net.n, Edges(views, net), Carriers(w, net.n, c.color))
  }

  // Nodes that share their label variable have the same label.
  ghost predicate LabelsAgree(net: Net, w: seq<int>)
    requires |net.lab| == |w| == net.n + 1
  {
    forall i, j :: 1 <= i <= net.n && 1 <= j <= net.n && net.lab[i] == net.lab[j] ==> w[i] == w[j]
  }

  // A labelling with a path of the color from start to end, whose other nodes of the color are reachable from start by
  // the color too.
  ghost predicate Good(views: map<nat, View>, net: Net, c: Connection, w: seq<int>)
    requires IsNet(views, net)
  {
    && |w| == net.n + 1 && (forall i :: 1 <= i <= net.n ==> w[i] in Domain(views[net.lab[i]])) && LabelsAgree(net, w)
    && Reach(Coloured(views, net, c, w), c.start, c.end)
    && forall v :: 1 <= v <= net.n && w[v] == c.color ==> Reach(Coloured(views, net, c, w), c.start, v)
  }

  ghost predicate NoneGood(views: map<nat, View>, net: Net, c: Connection)
    requires IsNet(views, net)
  {
    forall w :: !Good(views, net, c, w)
  }

  ghost predicate OnNet(net: Net, c: Connection) {
    1 <= c.start <= net.n && 1 <= c.end <= net.n
  }

  // Nothing but labels changed since views0, and every good labelling is still possible.
  ghost predicate Pruned(views0: map<nat, View>, views: map<nat, View>, net: Net, c: Connection)
    requires IsNet(views0, net)
  {
    && IsNet(views, net) && Separate(net) && views.Keys == views0.Keys
    && (forall e :: e in views0 && e !in net.lab[1..] ==> views[e] == views0[e])
    && (forall i :: 1 <= i <= net.n ==> Domain(views[net.lab[i]]) <= Domain(views0[net.lab[i]]))
    && forall w :: Good(views0, net, c, w) ==> Good(views, net, c, w)
  }

  // Changing one label leaves a net with the same edges.
  lemma NetStep(v1: map<nat, View>, v2: map<nat, View>, net: Net, i: int)
    requires IsNet(v1, net) && Separate(net) && 1 <= i <= net.n && Changed(v1, v2, net.lab[i])
    ensures IsNet(v2, net) && Edges(v2, net) == Edges(v1, net)
  {
    forall k | 1 <= k <= net.n ensures net.succ[k] in v2 && v2[net.succ[k]] == v1[net.succ[k]] {
      assert net.lab[i] != net.succ[k];
    }
  }

  lemma GoodStep(v1: map<nat, View>, v2: map<nat, View>, net: Net, c: Connection, i: int, w: seq<int>)
    requires IsNet(v1, net) && IsNet(v2, net) && Edges(v2, net) == Edges(v1, net)
    requires 1 <= i <= net.n && Changed(v1, v2, net.lab[i])
    requires Good(v1, net, c, w) && w[i] in Domain(v2[net.lab[i]])
    ensures Good(v2, net, c, w)
  {
    assert Coloured(v2, net, c, w) == Coloured(v1, net, c, w);
  }

  // What lies outside the labels, and how the label domains shrink.
  lemma ShrinkStep(views0: map<nat, View>, v1: map<nat, View>, v2: map<nat, View>, net: Net, c: Connection, i: int)
    requires IsNet(views0, net) && Pruned(views0, v1, net, c) && 1 <= i <= net.n && Changed(v1, v2, net.lab[i])
    requires Domain(v2[net.lab[i]]) <= Domain(v1[net.lab[i]])
    ensures v2.Keys == views0.Keys
    ensures forall e :: e in views0 && e !in net.lab[1..] ==> v2[e] == views0[e]
    ensures forall k :: 1 <= k <= net.n ==> Domain(v2[net.lab[k]]) <= Domain(views0[net.lab[k]])
  {
    assert net.lab[1..][i - 1] == net.lab[i];
    forall k | 1 <= k <= net.n ensures Domain(v2[net.lab[k]]) <= Domain(views0[net.lab[k]]) {
      assert Domain(v1[net.lab[k]]) <= Domain(views0[net.lab[k]]);
    }
  }

  // A label domain cut to r keeps the good labellings when they all have their label of i in r.
  lemma PruneStep(views0: map<nat, View>, v1: map<nat, View>, v2: map<nat, View>, net: Net, c: Connection, i: int,
      r: set<int>)
    requires IsNet(views0, net) && Pruned(views0, v1, net, c) && 1 <= i <= net.n && Changed(v1, v2, net.lab[i])
    requires Domain(v2[net.lab[i]]) == r && r <= Domain(v1[net.lab[i]])
    requires forall w :: Good(views0, net, c, w) ==> w[i] in r
    ensures Pruned(views0, v2, net, c)
  {
    NetStep(v1, v2, net, i);
    ShrinkStep(views0, v1, v2, net, c, i);
    forall w | Good(views0, net, c, w) ensures Good(v2, net, c, w) {
      GoodStep(v1, v2, net, c, i, w);
    }
  }

  // An unmarked node does not carry the color in a good labelling.
  lemma UnmarkedNot(views: map<nat, View>, net: Net, c: Connection, i: int, w: seq<int>)
    requires IsNet(views, net) && Good(views, net, c, w) && 1 <= i <= net.n
    requires !Reach(GraphOf(views, net, c.color, 0), c.start, i)
    ensures w[i] != c.color
  {
    if w[i] == c.color {
      CarriersCapable(views, net, c, w, 0);
      ReachMono(Coloured(views, net, c, w), GraphOf(views, net, c.color, 0), c.start, i);
    }
  }

  lemma CarriersCapable(views: map<nat, View>, net: Net, c: Connection, w: seq<int>, cut: int)
    requires IsNet(views, net) && Good(views, net, c, w) && (1 <= cut <= net.n ==> w[cut] != c.color)
    ensures Carriers(w, net.n, c.color) <= Capable(views, net, c.color, cut)
  {
    forall v | v in Carriers(w, net.n, c.color) ensures v in Capable(views, net, c.color, cut) {
      assert CanCarry(views, net, c.color, v);
    }
  }

  // A node whose removal cuts start off from end carries the color in every good labelling.
  lemma CutMust(views: map<nat, View>, net: Net, c: Connection, i: int, w: seq<int>)
    requires IsNet(views, net) && Good(views, net, c, w) && 1 <= i <= net.n
    requires !Reach(GraphOf(views, net, c.color, i), c.start, c.end)
    ensures w[i] == c.color
  {
    if w[i] != c.color {
      CarriersCapable(views, net, c, w, i);
      ReachMono(Coloured(views, net, c, w), GraphOf(views, net, c.color, i), c.start, c.end);
    }
  }

  // No good labelling gives node i the color.
  ghost predicate Never(views0: map<nat, View>, net: Net, c: Connection, i: int)
    requires IsNet(views0, net)
  {
    1 <= i <= net.n && forall w :: Good(views0, net, c, w) ==> w[i] != c.color
  }

  // One unmarked node: its label must not be the color.
  method PruneUnmarked(s: Store, ghost views0: map<nat, View>, net: Net, c: Connection, i: int) returns (ok: bool)
    requires s.Valid() && IsNet(views0, net) && Pruned(views0, s.views, net, c) && 1 <= i <= net.n
    requires Never(views0, net, c, i)
    modifies s`mem, s`owner, s`trail, s`views
    ensures s.Valid() && (ok ==> Pruned(views0, s.views, net, c)) && (!ok ==> NoneGood(views0, net, c))
    ensures !ok ==> Domain(old(s.views)[net.lab[i]]) == {c.color}
    ensures Changed(old(s.views), s.views, net.lab[i])
    ensures ok ==> Domain(s.views[net.lab[i]]) == Outside(Domain(old(s.views)[net.lab[i]]), c.color, c.color)
  {
    var d := net.lab[i];
    VarBounds(s, d);
    if Bound(s.mem, d) {
      ok := s.mem[d].n != c.color;
      if !ok {
        FixedNone(views0, s.views, net, c, i);
      }
      return;
    }
    ghost var dom := Domain(s.views[d]);
    SomeOther(s, d, c.color);
    var done := SetFalse(s, d, c.color);
    ok := true;
    PruneStep(views0, old(s.views), s.views, net, c, i, Outside(dom, c.color, c.color));
  }

  lemma FixedNone(views0: map<nat, View>, views: map<nat, View>, net: Net, c: Connection, i: int)
    requires IsNet(views0, net) && Pruned(views0, views, net, c) && 1 <= i <= net.n && Never(views0, net, c, i)
    requires Domain(views[net.lab[i]]) == {c.color}
    ensures NoneGood(views0, net, c)
  {
    forall w ensures !Good(views0, net, c, w) {
      if Good(views0, net, c, w) {
        GoodLabel(views, net, c, w, i);
      }
    }
  }

  lemma GoodLabel(views: map<nat, View>, net: Net, c: Connection, w: seq<int>, i: int)
    requires IsNet(views, net) && 1 <= i <= net.n && Good(views, net, c, w)
    ensures w[i] in Domain(views[net.lab[i]])
  {
  }

  // A node before i with the label d is not marked.
  ghost predicate Gone(net: Net, visited: seq<int>, d: nat, i: int)
    requires |visited| == |net.lab| == net.n + 1
  {
    exists k :: 1 <= k < i && k <= net.n && net.lab[k] == d && visited[k] == 0
  }

  // The nodes before i are done: the color is gone from the labels of those not marked, and nothing else is.
  ghost predicate TrimmedTo(v0: map<nat, View>, v1: map<nat, View>, net: Net, c: Connection, visited: seq<int>, i: int)
    requires IsNet(v0, net) && IsNet(v1, net) && |visited| == net.n + 1
  {
    forall k :: 1 <= k <= net.n ==>
      Domain(v1[net.lab[k]]) == if Gone(net, visited, net.lab[k], i)
        then Outside(Domain(v0[net.lab[k]]), c.color, c.color) else Domain(v0[net.lab[k]])
  }

  lemma TrimStep(v0: map<nat, View>, v1: map<nat, View>, v2: map<nat, View>, net: Net, c: Connection, visited: seq<int>,
      i: int)
    requires IsNet(v0, net) && IsNet(v1, net) && IsNet(v2, net) && |visited| == net.n + 1 && 1 <= i <= net.n
    requires TrimmedTo(v0, v1, net, c, visited, i) && Changed(v1, v2, net.lab[i])
    requires Domain(v2[net.lab[i]]) == if visited[i] == 0 then Outside(Domain(v1[net.lab[i]]), c.color, c.color)
        else Domain(v1[net.lab[i]])
    ensures TrimmedTo(v0, v2, net, c, visited, i + 1)
  {
    forall k | 1 <= k <= net.n
      ensures Domain(v2[net.lab[k]]) == if Gone(net, visited, net.lab[k], i + 1)
        then Outside(Domain(v0[net.lab[k]]), c.color, c.color) else Domain(v0[net.lab[k]]) {
      GoneStep(net, visited, net.lab[k], i);
    }
  }

  lemma GoneStep(net: Net, visited: seq<int>, d: nat, i: int)
    requires |visited| == |net.lab| == net.n + 1 && 1 <= i <= net.n
    ensures Gone(net, visited, d, i + 1) <==> Gone(net, visited, d, i) || (net.lab[i] == d && visited[i] == 0)
  {
  }

  // A node is bound to the color but was not marked.
  ghost predicate Stranded(views: map<nat, View>, net: Net, c: Connection, visited: seq<int>)
    requires IsNet(views, net) && |visited| == net.n + 1
  {
    exists k :: 1 <= k <= net.n && visited[k] == 0 && Domain(views[net.lab[k]]) == {c.color}
  }

  // The turn of node i.
  method TrimNode(s: Store, ghost views0: map<nat, View>, net: Net, c: Connection, i: int, mark: int,
      ghost visited: seq<int>)
    returns (ok: bool)
    requires s.Valid() && IsNet(views0, net) && Pruned(views0, s.views, net, c) && 1 <= i <= net.n
    requires |visited| == net.n + 1 && mark == visited[i]
    requires mark == 0 ==> Never(views0, net, c, i)
    requires TrimmedTo(views0, s.views, net, c, visited, i)
    modifies s`mem, s`owner, s`trail, s`views
    ensures s.Valid() && (!ok ==> NoneGood(views0, net, c) && Stranded(views0, net, c, visited))
    ensures ok ==> Pruned(views0, s.views, net, c) && TrimmedTo(views0, s.views, net, c, visited, i + 1)
  {
    ghost var v1 := s.views;
    ok := true;
    if mark == 0 {
      ok := PruneUnmarked(s, views0, net, c, i);
      if !ok {
        StrandedNow(views0, v1, net, c, visited, i);
        return;
      }
    }
    TrimStep(views0, v1, s.views, net, c, visited, i);
  }

  // A label that is left with the color alone was bound to it from the start.
  lemma StrandedNow(v0: map<nat, View>, v1: map<nat, View>, net: Net, c: Connection, visited: seq<int>, i: int)
    requires IsNet(v0, net) && IsNet(v1, net) && |visited| == net.n + 1 && 1 <= i <= net.n && visited[i] == 0
    requires TrimmedTo(v0, v1, net, c, visited, i) && Domain(v1[net.lab[i]]) == {c.color}
    ensures Stranded(v0, net, c, visited)
  {
    assert c.color in Domain(v1[net.lab[i]]);
  }

  // No node that is unreachable can carry the color.
  method PruneAllUnmarked(s: Store, ghost views0: map<nat, View>, net: Net, c: Connection, visited: array<int>)
    returns (ok: bool)
    requires s.Valid() && IsNet(views0, net) && views0 == s.views && Pruned(views0, s.views, net, c)
    requires visited.Length == net.n + 1
    requires forall i :: 1 <= i <= net.n && visited[i] == 0 ==> Never(views0, net, c, i)
    modifies s`mem, s`owner, s`trail, s`views
    ensures s.Valid() && (!ok ==> NoneGood(views0, net, c) && Stranded(views0, net, c, visited[..]))
    ensures ok ==> Pruned(views0, s.views, net, c) && TrimmedTo(views0, s.views, net, c, visited[..], net.n + 1)
  {
    var i := 1;
    while i <= net.n
      invariant 1 <= i <= net.n + 1 && s.Valid() && Pruned(views0, s.views, net, c)
      invariant TrimmedTo(views0, s.views, net, c, visited[..], i)
    {
      ok := TrimNode(s, views0, net, c, i, visited[i], visited[..]);
      if !ok {
        return;
      }
      i := i + 1;
    }
    ok := true;
  }

  // path_from_to_node_degree: how many successors of a node can carry the color.
  method NodeDegree(s: Store, net: Net, i: int, color: int) returns (degree: nat)
    requires s.Valid() && IsNet(s.views, net) && 1 <= i <= net.n
    ensures degree == |CapableSucc(s.views, net, i, color, net.n)|
  {
    var d := net.succ[i];
    VarBounds(s, d);
    if Bound(s.mem, d) {
      var v := s.mem[d].n;
      var yes := LabelTest(s, net, net.lab[v], color, v);
      degree := if yes then 1 else 0;
      assert CapableSucc(s.views, net, i, color, net.n) == if yes then {v} else {};
      return;
    }
    degree := 0;
    var cur, last := FirstLast(s, d);
    assert CapableSucc(s.views, net, i, color, cur - 1) == {};
    while true
      invariant cur in Domain(s.views[d]) && cur <= last && degree == |CapableSucc(s.views, net, i, color, cur - 1)|
      decreases last - cur
    {
      var yes := LabelTest(s, net, net.lab[cur], color, cur);
      DegreeStep(s.views, net, i, color, cur);
      if yes {
        degree := degree + 1;
      }
      if cur == last {
        assert CapableSucc(s.views, net, i, color, cur) == CapableSucc(s.views, net, i, color, net.n);
        return;
      }
      ghost var cur0 := cur;
      cur := NextSucc(s, d, cur, last);
      assert CapableSucc(s.views, net, i, color, cur0) == CapableSucc(s.views, net, i, color, cur - 1);
    }
  }

  // The successors up to m that can carry the color.
  ghost function CapableSucc(views: map<nat, View>, net: Net, i: int, color: int, m: int): set<int>
    requires IsNet(views, net) && 1 <= i <= net.n
  {
    set v: int | v in Domain(views[net.succ[i]]) && v <= m && CanCarry(views, net, color, v)
  }

  lemma DegreeStep(views: map<nat, View>, net: Net, i: int, color: int, v: int)
    requires IsNet(views, net) && 1 <= i <= net.n && v in Domain(views[net.succ[i]])
    ensures |CapableSucc(views, net, i, color, v)|
      == |CapableSucc(views, net, i, color, v - 1)| + if CanCarry(views, net, color, v) then 1 else 0
  {
    var r0, r1, can := CapableSucc(views, net, i, color, v - 1), CapableSucc(views, net, i, color, v),
        CanCarry(views, net, color, v);
    forall u ensures u in r1 <==> u in r0 || (can && u == v) {
    }
    OneMore(r0, r1, v, can);
  }

  lemma OneMore<T>(r0: set<T>, r1: set<T>, v: T, can: bool)
    requires v !in r0 && forall u :: u in r1 <==> u in r0 || (can && u == v)
    ensures |r1| == |r0| + if can then 1 else 0
  {
    if can {
      assert r1 == r0 + {v};
    } else {
      assert r1 == r0;
    }
  }

  method ClearVisited(visited: array<int>, n: nat)
    requires visited.Length == n + 1
    modifies visited
    ensures forall v :: 1 <= v <= n ==> visited[v] == 0
  {
    var i := 1;
    while i <= n
      invariant 1 <= i <= n + 1 && forall v :: 1 <= v < i ==> visited[v] == 0
    {
      visited[i] := 0;
      i := i + 1;
    }
  }

  // The node must carry the color: it may, it has two ways on, and start is cut off from end without it.
  ghost predicate Cutting(views: map<nat, View>, net: Net, c: Connection, i: int)
    requires IsNet(views, net) && 1 <= i <= net.n
  {
    && i != c.start && i != c.end && |CapableSucc(views, net, i, c.color, net.n)| == 2
    && views[net.lab[i]].cell == Ref && c.color in Domain(views[net.lab[i]])
    && !Reach(GraphOf(views, net, c.color, i), c.start, c.end)
  }

  method IsCutting(s: Store, net: Net, c: Connection, i: int, visited: array<int>) returns (r: bool)
    requires s.Valid() && IsNet(s.views, net) && OnNet(net, c) && 1 <= i <= net.n && visited.Length == net.n + 1
    modifies visited
    ensures r <==> Cutting(s.views, net, c, i)
  {
    var d := net.lab[i];
    if i == c.start || i == c.end {
      return false;
    }
    var degree := NodeDegree(s, net, i, c.color);
    VarBounds(s, d);
    r := false;
    if degree == 2 && !Bound(s.mem, d) {
      var can := LabelTest(s, net, d, c.color, i);
      if can {
        ClearVisited(visited, net.n);
        CheckReach(s, net, c.start, c.color, i, visited);
        r := visited[c.end] == 0;
      }
    }
  }

  // One candidate for a cutting node.
  method TryCut(s: Store, ghost views0: map<nat, View>, net: Net, c: Connection, i: int, visited: array<int>)
    requires s.Valid() && IsNet(views0, net) && Pruned(views0, s.views, net, c) && OnNet(net, c)
    requires 1 <= i <= net.n && visited.Length == net.n + 1
    modifies s`mem, s`trail, s`views, visited
    ensures s.Valid() && Pruned(views0, s.views, net, c) && Changed(old(s.views), s.views, net.lab[i])
    ensures Cutting(old(s.views), net, c, i) ==> Domain(s.views[net.lab[i]]) == {c.color}
    ensures !Cutting(old(s.views), net, c, i) ==> s.views == old(s.views)
  {
    var cutting := IsCutting(s, net, c, i, visited);
    if cutting {
      MustCarry(views0, s.views, net, c, i);
      Assign(s, net.lab[i], c.color);
      PruneStep(views0, old(s.views), s.views, net, c, i, {c.color});
    }
  }

  lemma MustCarry(views0: map<nat, View>, views: map<nat, View>, net: Net, c: Connection, i: int)
    requires IsNet(views0, net) && Pruned(views0, views, net, c) && 1 <= i <= net.n
    requires !Reach(GraphOf(views, net, c.color, i), c.start, c.end)
    ensures forall w :: Good(views0, net, c, w) ==> w[i] in {c.color}
  {
    forall w | Good(views0, net, c, w) ensures w[i] in {c.color} {
      CutMust(views, net, c, i, w);
    }
  }

  // A node before i with the label d is cutting.
  ghost predicate Forced(v1: map<nat, View>, net: Net, c: Connection, d: nat, i: int)
    requires IsNet(v1, net)
  {
    exists k :: 1 <= k < i && k <= net.n && net.lab[k] == d && Cutting(v1, net, c, k)
  }

  // The nodes before i are done: exactly the labels of the cutting ones are bound to the color.
  ghost predicate ForcedTo(v1: map<nat, View>, v2: map<nat, View>, net: Net, c: Connection, i: int)
    requires IsNet(v1, net) && IsNet(v2, net)
  {
    && (forall k :: 1 <= k <= net.n ==>
         if Forced(v1, net, c, net.lab[k], i) then Domain(v2[net.lab[k]]) == {c.color}
         else v2[net.lab[k]] == v1[net.lab[k]])
    && (forall k :: 1 <= k <= net.n ==> v2[net.succ[k]] == v1[net.succ[k]])
  }

  // Forcing a node that can carry the color does not change which nodes can: the searches still to come see the same
  // graph.
  lemma SameSearch(v1: map<nat, View>, v2: map<nat, View>, net: Net, c: Connection, i: int)
    requires IsNet(v1, net) && IsNet(v2, net) && ForcedTo(v1, v2, net, c, i) && 1 <= i <= net.n
    ensures !Forced(v1, net, c, net.lab[i], i) ==> (Cutting(v2, net, c, i) <==> Cutting(v1, net, c, i))
  {
    forall v ensures CanCarry(v2, net, c.color, v) <==> CanCarry(v1, net, c.color, v) {
      if 1 <= v <= net.n && Forced(v1, net, c, net.lab[v], i) {
        var k :| 1 <= k < i && k <= net.n && net.lab[k] == net.lab[v] && Cutting(v1, net, c, k);
        assert c.color in Domain(v1[net.lab[v]]);
      }
    }
    assert Capable(v2, net, c.color, i) == Capable(v1, net, c.color, i);
    assert Edges(v2, net) == Edges(v1, net);
    assert CapableSucc(v2, net, i, c.color, net.n) == CapableSucc(v1, net, i, c.color, net.n);
  }

  lemma ForcedStep(v1: map<nat, View>, net: Net, c: Connection, d: nat, i: int)
    requires IsNet(v1, net) && 1 <= i <= net.n
    ensures Forced(v1, net, c, d, i + 1) <==> Forced(v1, net, c, d, i) || (net.lab[i] == d && Cutting(v1, net, c, i))
  {
  }

  lemma ForceStep(v1: map<nat, View>, v2: map<nat, View>, v3: map<nat, View>, net: Net, c: Connection, i: int)
    requires IsNet(v1, net) && IsNet(v2, net) && IsNet(v3, net) && ForcedTo(v1, v2, net, c, i) && 1 <= i <= net.n
    requires Separate(net) && Changed(v2, v3, net.lab[i])
    requires !Forced(v1, net, c, net.lab[i], i) ==> (Cutting(v2, net, c, i) <==> Cutting(v1, net, c, i))
    requires if Cutting(v2, net, c, i) then Domain(v3[net.lab[i]]) == {c.color} else v3[net.lab[i]] == v2[net.lab[i]]
    ensures ForcedTo(v1, v3, net, c, i + 1)
  {
    forall k | 1 <= k <= net.n
      ensures if Forced(v1, net, c, net.lab[k], i + 1) then Domain(v3[net.lab[k]]) == {c.color}
        else v3[net.lab[k]] == v1[net.lab[k]] {
      ForcedStep(v1, net, c, net.lab[k], i);
    }
    forall k | 1 <= k <= net.n ensures v3[net.succ[k]] == v2[net.succ[k]] {
      assert net.lab[i] != net.succ[k];
    }
  }

  // The loop over all candidates.
  method ForceCuts(s: Store, ghost views0: map<nat, View>, net: Net, c: Connection, visited: array<int>)
    requires s.Valid() && IsNet(views0, net) && Pruned(views0, s.views, net, c) && OnNet(net, c) && Separate(net)
    requires visited.Length == net.n + 1
    modifies s`mem, s`trail, s`views, visited
    ensures s.Valid() && Pruned(views0, s.views, net, c) && IsNet(old(s.views), net)
    ensures ForcedTo(old(s.views), s.views, net, c, net.n + 1)
  {
    ghost var v1 := s.views;
    var i := 1;
    while i <= net.n
      invariant 1 <= i <= net.n + 1 && s.Valid() && Pruned(views0, s.views, net, c)
      invariant ForcedTo(v1, s.views, net, c, i)
    {
      ghost var v2 := s.views;
      TryCut(s, views0, net, c, i, visited);
      SameSearch(v1, v2, net, c, i);
      ForceStep(v1, v2, s.views, net, c, i);
      i := i + 1;
    }
  }

  // A node with the label d that start cannot reach.
  ghost predicate OutOfReach(v0: map<nat, View>, net: Net, c: Connection, d: nat)
    requires IsNet(v0, net)
  {
    exists k :: 1 <= k <= net.n && net.lab[k] == d && !Reach(GraphOf(v0, net, c.color, 0), c.start, k)
  }

  // Exactly the labels of nodes that are not reachable lose the color.
  ghost predicate Trimmed(v0: map<nat, View>, v1: map<nat, View>, net: Net, c: Connection)
    requires IsNet(v0, net) && IsNet(v1, net)
  {
    forall k :: 1 <= k <= net.n ==>
      Domain(v1[net.lab[k]]) == if OutOfReach(v0, net, c, net.lab[k])
        then Outside(Domain(v0[net.lab[k]]), c.color, c.color) else Domain(v0[net.lab[k]])
  }

  // Both prunings, one after the other, and nothing else.
  ghost predicate Propagated(v0: map<nat, View>, v2: map<nat, View>, net: Net, c: Connection)
    requires IsNet(v0, net) && IsNet(v2, net)
  {
    exists v1 :: IsNet(v1, net) && Trimmed(v0, v1, net, c) && ForcedTo(v1, v2, net, c, net.n + 1)
  }

  lemma MarksTrim(v0: map<nat, View>, v1: map<nat, View>, net: Net, c: Connection, visited: seq<int>)
    requires IsNet(v0, net) && IsNet(v1, net) && |visited| == net.n + 1 && TrimmedTo(v0, v1, net, c, visited, net.n + 1)
    requires forall v :: 1 <= v <= net.n ==> (visited[v] != 0 <==> Reach(GraphOf(v0, net, c.color, 0), c.start, v))
    ensures Trimmed(v0, v1, net, c)
  {
    forall k | 1 <= k <= net.n
      ensures OutOfReach(v0, net, c, net.lab[k]) <==> Gone(net, visited, net.lab[k], net.n + 1) {
    }
  }

  // A node bound to the color that start cannot reach.
  ghost predicate Unreachable(views: map<nat, View>, net: Net, c: Connection)
    requires IsNet(views, net)
  {
    exists k :: 1 <= k <= net.n && Domain(views[net.lab[k]]) ==
        {c.color} && !Reach(GraphOf(views, net, c.color, 0), c.start, k)
  }

  lemma MarksStrand(views: map<nat, View>, net: Net, c: Connection, visited: seq<int>)
    requires IsNet(views, net) && |visited| == net.n + 1 && Stranded(views, net, c, visited)
    requires forall v :: 1 <= v <= net.n ==> (visited[v] != 0 <==> Reach(GraphOf(views, net, c.color, 0), c.start, v))
    ensures Unreachable(views, net, c)
  {
    var k :| 1 <= k <= net.n && visited[k] == 0 && Domain(views[net.lab[k]]) == {c.color};
    assert !Reach(GraphOf(views, net, c.color, 0), c.start, k);
  }

  lemma UnmarkedNever(views: map<nat, View>, net: Net, c: Connection, i: int)
    requires IsNet(views, net) && 1 <= i <= net.n && !Reach(GraphOf(views, net, c.color, 0), c.start, i)
    ensures Never(views, net, c, i)
  {
    forall w | Good(views, net, c, w) ensures w[i] != c.color {
      UnmarkedNot(views, net, c, i, w);
    }
  }

  // The first search and what follows from it.
  method TrimUnreachable(s: Store, net: Net, c: Connection, visited: array<int>) returns (ok: bool)
    requires s.Valid() && IsNet(s.views, net) && Separate(net) && OnNet(net, c) && visited.Length == net.n + 1
    modifies s`mem, s`owner, s`trail, s`views, visited
    ensures s.Valid() && (!ok ==> NoneGood(old(s.views), net, c) && Unreachable(old(s.views), net, c))
    ensures ok ==> Pruned(old(s.views), s.views, net, c) && Trimmed(old(s.views), s.views, net, c)
  {
    ghost var views0 := s.views;
    ClearVisited(visited, net.n);
    CheckReach(s, net, c.start, c.color, 0, visited);
    forall i | 1 <= i <= net.n && visited[i] == 0 ensures Never(views0, net, c, i) {
      UnmarkedNever(views0, net, c, i);
    }
    ok := PruneAllUnmarked(s, views0, net, c, visited);
    if ok {
      MarksTrim(views0, s.views, net, c, visited[..]);
    } else {
      MarksStrand(views0, net, c, visited[..]);
    }
  }

  // check_reach_cuts_in_one_connection: every good labelling survives; failure means there is none. What is pruned is
  // exactly what the two searches say, also when nodes share their labels.
  method CheckReachCuts(s: Store, net: Net, c: Connection) returns (ok: bool)
    requires s.Valid() && IsNet(s.views, net) && Separate(net) && OnNet(net, c)
    modifies s`mem, s`owner, s`trail, s`views
    ensures s.Valid() && (!ok ==> NoneGood(old(s.views), net, c)) && (ok ==> Pruned(old(s.views), s.views, net, c))
    ensures if ok then Propagated(old(s.views), s.views, net, c) else Unreachable(old(s.views), net, c)
  {
    ghost var views0 := s.views;
    var visited := new int[net.n + 1];
    ok := TrimUnreachable(s, net, c, visited);
    if ok {
      ghost var v1 := s.views;
      ForceCuts(s, views0, net, c, visited);
      assert Trimmed(views0, v1, net, c) && ForcedTo(v1, s.views, net, c, net.n + 1);
    }
  }
}
