// b_DISJUNCTIVE_TASKS_EF: the pass over the tasks in six orders.
module EdgeFinding {
  import opened Trail
  import opened Layout
  import opened Stores
  import opened Region
  import opened Linear
  import opened LinearTerms
  import opened Schedules
  import opened Descents
  import opened Disjunctive

  lemma DescribedBounds(s: Store, d: nat)
    requires s.Valid() && d in s.views
    ensures Bounds(s.views[d].described, First(s.mem, d), Last(s.mem, d))
  {
    assert Shape(s.mem, s.owner, d);
    StaleBounds(s.mem, s.owner, d);
  }

  // EDGE_FINDER01 took the start x of task k from v0 to v1.
  ghost predicate PairMade(p: Pass, k: int, x: nat, v0: map<nat, View>, v1: map<nat, View>, mem0: seq<Cell>, start: Arg,
      a: Acc) {
    && 1 < k < |p.dur| && k <= |p.st| && p.st[k - 1] == x && x in v0 && start == ArgOf(v0[x], x) && Changed(v0, v1, x)
    && Bounds(v0[x].described, First(mem0, x), Last(mem0, x))
    && var e, l, w := Lower(p.est0, a.est), Upper(p.lct0, a.lct), p.dur[0] + p.dur[k - 1];
    match start
    case Int(n) => v1 == v0 && w + p.dur[k] <= Upper(l, n + p.dur[k]) - Lower(e, n)
    case Susp(_) => CutByGroup(v0[x], v1[x], mem0, x, e, l, w, p.dur[k], l - w, true)
  }

  // EDGE_FINDER took it from v1 to v2.
  ghost predicate PrefixMade(p: Pass, k: int, x: nat, v1: map<nat, View>, v2: map<nat, View>, mem1: seq<Cell>,
      start: Arg, a: Acc, a': Acc) {
    && 1 < k < |p.dur| && x in v1 && Changed(v1, v2, x) && Bounds(v1[x].described, First(mem1, x), Last(mem1, x))
    && a'.accDuration <= a'.accLct - a'.accEst
    && match start
    case Int(n) => v2 == v1 && a' == FixedAcc(a.accEst, a.accLct, a.accDuration, n, p.dur[k])
    case Susp(_) =>
      && CutByGroup(v1[x], v2[x], mem1, x, a.accEst, a.accLct, a.accDuration, p.dur[k],
           a.accLct - a.accDuration - p.dur[k], true)
      && a' == FreeAcc(a.accEst, a.accLct, a.accDuration, First(mem1, x), Last(mem1, x) + p.dur[k], p.dur[k])
  }

  lemma TurnIsMade(p: Pass, k: int, x: nat, v0: map<nat, View>, v1: map<nat, View>, v2: map<nat, View>, mem0: seq<Cell>,
      mem1: seq<Cell>, start: Arg, a: Acc, a': Acc)
    requires PairMade(p, k, x, v0, v1, mem0, start, a) && PrefixMade(p, k, x, v1, v2, mem1, start, a, a')
    ensures TurnMade(p, k, v0, v2, a, a')
  {
    var e, l, w := Lower(p.est0, a.est), Upper(p.lct0, a.lct), p.dur[0] + p.dur[k - 1];
    if start.Susp? {
      assert CutTwice(v0[x], v1[x], v2[x], e, l, w, a, p.dur[k], First(mem0, x), Last(mem0, x), First(mem1, x),
        Last(mem1, x));
    }
  }

  // EDGE_FINDER01 in the loop.
  method PairStep(s: Store, ghost p: Pass, ghost views0: map<nat, View>, ghost i: int, d: nat, est0: int, lct0: int,
      duration0: int, est1: int, lct1: int, duration1: int, start: Arg, duration: int, ghost a: Acc)
    returns (ok: bool)
    requires Running(s, p, views0) && 1 <= i < |p.st| && d == p.st[i] && est0 == p.est0 && lct0 == p.lct0
    requires duration0 == p.dur[0] && TaskIn(p, views0, i, est1, lct1)
    requires duration1 == p.dur[i] && duration == p.dur[i + 1] && a.est == est1 && a.lct == lct1
    requires start == ArgOf(s.views[d], d)
    modifies s`mem, s`trail, s`views
    ensures s.Valid() && AreVars(s.views, p.st) && OnlyVars(views0, s.views, p.st)
    ensures if ok then Running(s, p, views0) else NonePlans(p, views0)
    ensures ok ==> PairMade(p, i + 1, d, old(s.views), s.views, old(s.mem), start, a)
  {
    DescribedBounds(s, d);
    ok := EdgeFinder01(s, p, views0, i, est0, lct0, duration0, est1, lct1, duration1, start, duration);
  }

  // EDGE_FINDER in the loop.
  method PrefixStep(s: Store, ghost p: Pass, ghost views0: map<nat, View>, ghost i: int, ghost d: nat, accEst: int,
      accLct: int, accDuration: int, start: Arg, duration: int, ghost a: Acc)
    returns (ok: bool, est: int, lct: int, accEst': int, accLct': int, accDuration': int)
    requires Running(s, p, views0) && 1 <= i < |p.st| && duration == p.dur[i + 1] && d == p.st[i]
    requires Accumulated(p, views0, i + 1, accEst, accLct, accDuration) && Loose(p, views0, i + 1, accEst, accLct)
    requires start.Int? ==> s.views[d].cell == Num(start.n)
    requires start.Susp? ==> start.d == d && views0[d].cell == Ref
    requires a.accEst == accEst && a.accLct == accLct && a.accDuration == accDuration
    modifies s`mem, s`trail, s`views
    ensures s.Valid() && AreVars(s.views, p.st) && OnlyVars(views0, s.views, p.st)
    ensures !ok ==> NonePlans(p, views0)
    ensures ok ==> Running(s, p, views0) && TaskIn(p, views0, i + 1, est, lct) && Seen(p, views0, i + 1, est, lct)
    ensures ok ==> Accumulated(p, views0, i + 2, accEst', accLct', accDuration')
    ensures ok ==> Accounted(p, views0, i + 2, accEst', accLct', accDuration')
    ensures ok ==> PrefixMade(p, i + 1, d, old(s.views), s.views, old(s.mem), start, a,
        Acc(est, lct, accEst', accLct', accDuration'))
  {
    DescribedBounds(s, d);
    ReadWindow(s, p, views0, i);
    SeenStart(s, p, views0, i);
    ok, est, lct, accEst', accLct', accDuration' := EdgeFinder(s, p, views0, i, accEst, accLct, accDuration, start,
      duration);
  }

  // The body of the loop of FORWARD_EDGE_FINDER.
  method ForwardTurn(s: Store, ghost p: Pass, ghost views0: map<nat, View>, i: int, d: nat, est0: int, lct0: int,
      duration0: int, est1: int, lct1: int, duration1: int, duration: int, accEst: int, accLct: int, accDuration: int)
    returns (ok: bool, est: int, lct: int, accEst': int, accLct': int, accDuration': int)
    requires Running(s, p, views0) && 1 <= i < |p.st| && d == p.st[i] && est0 == p.est0 && lct0 == p.lct0
    requires duration0 == p.dur[0]
    requires TaskIn(p, views0, i, est1, lct1) && duration1 == p.dur[i] && duration == p.dur[i + 1]
    requires Accumulated(p, views0, i + 1, accEst, accLct, accDuration) && Loose(p, views0, i + 1, accEst, accLct)
    modifies s`mem, s`trail, s`views
    ensures s.Valid() && AreVars(s.views, p.st) && OnlyVars(views0, s.views, p.st)
    ensures !ok ==> NonePlans(p, views0)
    ensures ok ==> Running(s, p, views0) && TaskIn(p, views0, i + 1, est, lct)
    ensures ok ==> Accumulated(p, views0, i + 2, accEst', accLct', accDuration')
    ensures ok ==> Accounted(p, views0, i + 2, accEst', accLct', accDuration') && Seen(p, views0, i + 1, est, lct)
    ensures ok ==> TurnMade(p, i + 1, old(s.views), s.views, Acc(est1, lct1, accEst, accLct, accDuration),
        Acc(est, lct, accEst', accLct', accDuration'))
  {
    est, lct, accEst', accLct', accDuration' := est1, lct1, accEst, accLct, accDuration;
    DerefView(s, d);
    var start := Deref(s.mem, d);
    assert Descends(views0[d], s.views[d]);
    ghost var v0, mem0, a := s.views, s.mem, Acc(est1, lct1, accEst, accLct, accDuration);
    ok := PairStep(s, p, views0, i, d, est0, lct0, duration0, est1, lct1, duration1, start, duration, a);
    if ok {
      ghost var v1, mem1 := s.views, s.mem;
      ok, est, lct, accEst', accLct', accDuration' := PrefixStep(s, p, views0, i, d, accEst, accLct, accDuration,
        start, duration, a);
      if ok {
        TurnIsMade(p, i + 1, d, v0, v1, s.views, mem0, mem1, start, a, Acc(est, lct, accEst', accLct', accDuration'));
      }
    }
  }

  // What FORWARD_EDGE_FINDER knows after the seed and the first task.
  method FirstTwo(s: Store, ghost p: Pass, ghost views0: map<nat, View>, d: nat, est0: int, lct0: int, duration0: int,
      duration1: int)
    returns (est1: int, lct1: int, accEst: int, accLct: int, accDuration: int)
    requires Running(s, p, views0) && |p.st| > 0 && d == p.st[0]
    requires est0 == p.est0 && lct0 == p.lct0 && duration0 == p.dur[0] && duration1 == p.dur[1]
    ensures TaskIn(p, views0, 1, est1, lct1) && Accumulated(p, views0, 2, accEst, accLct, accDuration)
    ensures Loose(p, views0, 2, accEst, accLct) && Seen(p, views0, 1, est1, lct1)
    ensures StartAcc(p, s.views, Acc(est1, lct1, accEst, accLct, accDuration))
  {
    DerefView(s, d);
    ReadWindow(s, p, views0, 0);
    SeenStart(s, p, views0, 0);
    assert Descends(views0[d], s.views[d]);
    VarBounds(s, d);
    if Bound(s.mem, d) {
      est1 := s.mem[d].n;
      lct1 := est1 + duration1;
    } else {
      est1, lct1 := First(s.mem, d), Last(s.mem, d) + duration1;
    }
    accEst, accLct := Lower(est1, est0), Upper(lct1, lct0);
    accDuration := duration0 + duration1;
    SumPrefix(p.dur, 0);
    assert p.dur[..0] == [];
    assert Accumulated(p, views0, 1, est0, lct0, duration0);
    AccumulateStep(p, views0, 1, est0, lct0, duration0, est1, lct1, accEst, accLct);
    LooseStep(p, views0, 1, 2, est0, lct0, est1, lct1, accEst, accLct);
  }

  // The first n tasks (n > 2) fit every window that covers their values, and each of them from the second on agrees
  // with the seed and the one before it, and with all before it.
  ghost predicate PassDone(p: Pass, views0: map<nat, View>, views: map<nat, View>, n: int) {
    AllFit(p, views0, n) && TurnsDone(p, views0, views, n)
  }

  // The loop stands before task n.
  ghost predicate PassSoFar(p: Pass, views0: map<nat, View>, views: map<nat, View>, n: nat, a: Acc) {
    PassDone(p, views0, views, n) && PassMade(p, views0, views, n, a)
  }

  // The pass was made task by task, and left what it should.
  ghost predicate WholePass(p: Pass, views0: map<nat, View>, views: map<nat, View>) {
    exists a :: PassSoFar(p, views0, views, |p.dur|, a)
  }

  lemma PassStep(p: Pass, views0: map<nat, View>, v1: map<nat, View>, v2: map<nat, View>, n: nat, a: Acc, a': Acc)
    requires WellPosed(p) && PassSoFar(p, views0, v1, n, a) && 1 < n <= |p.st| && TurnMade(p, n, v1, v2, a, a')
    requires AllDescend(views0, v1, p.st) && Seen(p, views0, n - 1, a.est, a.lct)
    requires Loose(p, views0, n, a.accEst, a.accLct) && a.accDuration == Sum(p.dur[..n])
    requires Accounted(p, views0, n + 1, a'.accEst, a'.accLct, a'.accDuration)
    requires Accumulated(p, views0, n + 1, a'.accEst, a'.accLct, a'.accDuration)
    ensures PassSoFar(p, views0, v2, n + 1, a')
  {
    assert Descends(views0[p.st[n - 1]], v1[p.st[n - 1]]);
    TurnLeaves(p, views0, v1, v2, n, a, a');
    AccountedFits(p, views0, n + 1, a'.accEst, a'.accLct, a'.accDuration);
    TurnsStep(p, views0, v1, v2, n);
    PassMadeStep(p, views0, v1, v2, n, a, a');
  }

  // FORWARD_EDGE_FINDER
  method ForwardEdgeFinder(s: Store, ghost p: Pass, est0: int, lct0: int, duration0: int, starts: seq<nat>,
      durations: seq<int>, m: nat)
    returns (ok: bool)
    requires s.Valid() && WellPosed(p) && AreVars(s.views, p.st) && 0 < m <= |starts| && m <= |durations|
    requires p == Pass(est0, lct0, [duration0] + durations[..m], starts[..m])
    modifies s`mem, s`trail, s`views
    ensures s.Valid() && AreVars(s.views, p.st) && OnlyVars(old(s.views), s.views, p.st)
    ensures !ok ==> NonePlans(p, old(s.views))
    ensures ok ==> KeepsPlans(p, old(s.views), s.views) && AllDescend(old(s.views), s.views, p.st)
    ensures ok ==> WholePass(p, old(s.views), s.views)
  {
    ghost var views0 := s.views;
    var duration1 := durations[0];
    var est1, lct1, accEst, accLct, accDuration := FirstTwo(s, p, views0, starts[0], est0, lct0, duration0, duration1);
    var i := 1;
    while i < m
      invariant 1 <= i <= m && Running(s, p, views0)
      invariant TaskIn(p, views0, i, est1, lct1) && duration1 == p.dur[i]
      invariant Accumulated(p, views0, i + 1, accEst, accLct, accDuration) && Loose(p, views0, i + 1, accEst, accLct)
      invariant Seen(p, views0, i, est1, lct1)
      invariant PassSoFar(p, views0, s.views, i + 1, Acc(est1, lct1, accEst, accLct, accDuration))
    {
      var duration := durations[i];
      ghost var v1, a := s.views, Acc(est1, lct1, accEst, accLct, accDuration);
      ok, est1, lct1, accEst, accLct, accDuration :=
        ForwardTurn(s, p, views0, i, starts[i], est0, lct0, duration0, est1, lct1, duration1, duration, accEst, accLct,
          accDuration);
      if !ok {
        return;
      }
      PassStep(p, views0, v1, s.views, i + 1, a, Acc(est1, lct1, accEst, accLct, accDuration));
      duration1 := duration;
      i := i + 1;
    }
    assert WholePass(p, views0, s.views);
    ok := true;
  }

  // ---- The six orders ----

  datatype Order = Forward | Backward | InOut1 | InOut2 | Merge1 | Merge2

  // The task at position h.
  function Nth(o: Order, m: int, h: int): int
    requires m > 0
  {
    match o
    case Forward => h
    case Backward => m - 1 - h
    case InOut1 => if h <= m / 2 then m / 2 - h else h
    case InOut2 => if h < m - 1 - m / 2 then m / 2 + 1 + h else m - 1 - h
    case Merge1 => if h % 2 == 0 then h / 2 else m - 1 - h / 2
    case Merge2 =>
      if h < 2 * (m - 1 - m / 2) then (if h % 2 == 0 then m / 2 - h / 2 else m / 2 + 1 + h / 2) else m - 1 - h
  }

  // Every order visits each task at most once.
  lemma NthDistinct(o: Order, m: int, a: int, b: int)
    requires 0 <= a < b < m
    ensures 0 <= Nth(o, m, a) < m && 0 <= Nth(o, m, b) < m && Nth(o, m, a) != Nth(o, m, b)
  {
  }

  lemma NthIn(o: Order, m: int, a: int)
    requires 0 <= a < m
    ensures 0 <= Nth(o, m, a) < m
  {
  }

  // Positions up to h of the arrays hold the tasks in the given order.
  ghost predicate ArrangedTo(o: Order, ts: seq<nat>, td: seq<int>, starts: seq<nat>, durations: seq<int>, h: int)
    requires |ts| == |td| > 0
  {
    && 0 <= h <= |ts| && h <= |starts| == |durations|
    && forall k :: 0 <= k < h ==>
         0 <= Nth(o, |ts|, k) < |ts| && starts[k] == ts[Nth(o, |ts|, k)] && durations[k] == td[Nth(o, |ts|, k)]
  }

  const MAX_TASKS: nat := 20

  // The two local arrays and the arguments they are filled from.
  ghost predicate Arrays(ts: seq<nat>, td: seq<int>, starts: array<nat>, durations: array<int>) {
    0 < |ts| == |td| < MAX_TASKS && starts.Length == MAX_TASKS && durations.Length == MAX_TASKS
  }

  // Appends task i to the order in the arrays.
  method Put(ts: seq<nat>, td: seq<int>, starts: array<nat>, durations: array<int>, h: int, i: int, ghost o: Order)
    requires Arrays(ts, td, starts, durations) && 0 <= h < |ts| && 0 <= i < |ts| && i == Nth(o, |ts|, h)
    requires ArrangedTo(o, ts, td, starts[..], durations[..], h)
    modifies starts, durations
    ensures ArrangedTo(o, ts, td, starts[..], durations[..], h + 1)
  {
    starts[h], durations[h] := ts[i], td[i];
  }

  method ArrangeForward(ts: seq<nat>, td: seq<int>, starts: array<nat>, durations: array<int>)
    requires Arrays(ts, td, starts, durations)
    modifies starts, durations
    ensures ArrangedTo(Forward, ts, td, starts[..], durations[..], |ts|)
  {
    var i := 0;
    while i < |ts|
      invariant 0 <= i <= |ts| && ArrangedTo(Forward, ts, td, starts[..], durations[..], i)
    {
      starts[i], durations[i] := ts[i], td[i];
      i := i + 1;
    }
  }

  method ArrangeBackward(ts: seq<nat>, td: seq<int>, starts: array<nat>, durations: array<int>)
    requires Arrays(ts, td, starts, durations)
    modifies starts, durations
    ensures ArrangedTo(Backward, ts, td, starts[..], durations[..], |ts|)
  {
    var m := |ts|;
    var i := m - 1;
    while i >= 0
      invariant -1 <= i < m && ArrangedTo(Backward, ts, td, starts[..], durations[..], m - 1 - i)
    {
      starts[m - i - 1], durations[m - i - 1] := ts[i], td[i];
      i := i - 1;
    }
  }

  // in-out 1: from the middle down to the first, then from the middle up.
  method ArrangeInOut1(ts: seq<nat>, td: seq<int>, starts: array<nat>, durations: array<int>)
    requires Arrays(ts, td, starts, durations)
    modifies starts, durations
    ensures ArrangedTo(InOut1, ts, td, starts[..], durations[..], |ts|)
  {
    var m := |ts|;
    var h, j := m / 2, 0;
    var i := h;
    while i >= 0
      invariant -1 <= i <= h && j == h - i && ArrangedTo(InOut1, ts, td, starts[..], durations[..], j)
    {
      starts[j], durations[j] := ts[i], td[i];
      j := j + 1;
      i := i - 1;
    }
    i := h + 1;
    while i < m
      invariant h < i <= m && j == i && ArrangedTo(InOut1, ts, td, starts[..], durations[..], j)
    {
      starts[j], durations[j] := ts[i], td[i];
      j := j + 1;
      i := i + 1;
    }
  }

  // in-out 2: from the middle up, then from the middle down.
  method ArrangeInOut2(ts: seq<nat>, td: seq<int>, starts: array<nat>, durations: array<int>)
    requires Arrays(ts, td, starts, durations)
    modifies starts, durations
    ensures ArrangedTo(InOut2, ts, td, starts[..], durations[..], |ts|)
  {
    var m := |ts|;
    var h, j := m / 2, 0;
    var i := h + 1;
    while i < m
      invariant h < i <= m && j == i - h - 1 && ArrangedTo(InOut2, ts, td, starts[..], durations[..], j)
    {
      starts[j], durations[j] := ts[i], td[i];
      j := j + 1;
      i := i + 1;
    }
    i := h;
    while i >= 0
      invariant -1 <= i <= h && j == m - 1 - i && ArrangedTo(InOut2, ts, td, starts[..], durations[..], j)
    {
      starts[j], durations[j] := ts[i], td[i];
      j := j + 1;
      i := i - 1;
    }
  }

  // merge 1: first, last, second, last but one, ...; with an even number of tasks the final
  // statement writes one position past the tasks.
  method ArrangeMerge1(ts: seq<nat>, td: seq<int>, starts: array<nat>, durations: array<int>)
    requires Arrays(ts, td, starts, durations)
    modifies starts, durations
    ensures ArrangedTo(Merge1, ts, td, starts[..], durations[..], |ts|)
  {
    var m := |ts|;
    var i, j, h := 0, m - 1, 0;
    while i < j
      invariant 0 <= i && h == 2 * i && i + j == m - 1 && h <= m
      invariant ArrangedTo(Merge1, ts, td, starts[..], durations[..], h)
      decreases j - i
    {
      Put(ts, td, starts, durations, h, i, Merge1);
      h := h + 1;
      Put(ts, td, starts, durations, h, j, Merge1);
      h := h + 1;
      i := i + 1;
      j := j - 1;
    }
    starts[h], durations[h] := ts[i], td[i];
  }

  // merge 2: outward from the middle, then what is left on either side.
  method ArrangeMerge2(ts: seq<nat>, td: seq<int>, starts: array<nat>, durations: array<int>)
    requires Arrays(ts, td, starts, durations)
    modifies starts, durations
    ensures ArrangedTo(Merge2, ts, td, starts[..], durations[..], |ts|)
  {
    var m := |ts|;
    var i := m / 2;
    var j, h := i + 1, 0;
    while i >= 0 && j < m
      invariant -1 <= i <= m / 2 && i + j == 2 * (m / 2) + 1 && h == 2 * (m / 2 - i) && j <= m
      invariant ArrangedTo(Merge2, ts, td, starts[..], durations[..], h)
      decreases m - j
    {
      Put(ts, td, starts, durations, h, i, Merge2);
      h := h + 1;
      Put(ts, td, starts, durations, h, j, Merge2);
      h := h + 1;
      i := i - 1;
      j := j + 1;
    }
    while i >= 0
      invariant -1 <= i && j == m && h == m - 1 - i && ArrangedTo(Merge2, ts, td, starts[..], durations[..], h)
    {
      Put(ts, td, starts, durations, h, i, Merge2);
      h := h + 1;
      i := i - 1;
    }
    // The upper side is used up: the loop over the rest of it never runs.
    assert j == m;
  }

  // ---- Passes over one and the same problem ----

  // The tasks of p0 in order o.
  ghost predicate Reordered(p0: Pass, p: Pass, o: Order) {
    && WellPosed(p0) && |p0.st| > 0 && |p.st| == |p0.st| && |p.dur| == |p0.dur|
    && p.est0 == p0.est0 && p.lct0 == p0.lct0 && p.dur[0] == p0.dur[0]
    && forall k :: 0 <= k < |p0.st| ==>
      (0 <= Nth(o, |p0.st|, k) < |p0.st| && p.st[k] == p0.st[Nth(o, |p0.st|, k)] && p.dur[k + 1] ==
          p0.dur[Nth(o, |p0.st|, k) + 1])
  }

  // Position k of the reordered tasks, the seed staying at 0.
  ghost function Source(o: Order, m: int, k: int): int
    requires m > 0
  {
    if k <= 0 then 0 else Nth(o, m, k - 1) + 1
  }

  ghost predicate SourcesDiffer(o: Order, m: int, a: int, b: int)
    requires m > 0
  {
    0 <= Source(o, m, a) <= m && 0 <= Source(o, m, b) <= m && Source(o, m, a) != Source(o, m, b)
  }

  lemma InOutDistinct(m: int, a: int, b: int)
    requires m > 0 && 0 <= a < b <= m
    ensures SourcesDiffer(InOut1, m, a, b) && SourcesDiffer(InOut2, m, a, b)
  {
  }

  lemma Merge1Distinct(m: int, a: int, b: int)
    requires m > 0 && 0 <= a < b <= m
    ensures SourcesDiffer(Merge1, m, a, b)
  {
  }

  lemma Merge2Distinct(m: int, a: int, b: int)
    requires m > 0 && 0 <= a < b <= m
    ensures SourcesDiffer(Merge2, m, a, b)
  {
  }

  lemma SourceDistinct(o: Order, m: int, a: int, b: int)
    requires m > 0 && 0 <= a < b <= m
    ensures SourcesDiffer(o, m, a, b)
  {
    match o
    case Forward =>
    case Backward =>
    case InOut1 => InOutDistinct(m, a, b);
    case InOut2 => InOutDistinct(m, a, b);
    case Merge1 => Merge1Distinct(m, a, b);
    case Merge2 => Merge2Distinct(m, a, b);
  }

  lemma SourceIn(o: Order, m: int, a: int)
    requires m > 0 && 0 <= a <= m
    ensures 0 <= Source(o, m, a) <= m
  {
    if a > 0 {
      NthIn(o, m, a - 1);
    }
  }

  ghost function Shuffle(o: Order, w: seq<int>): (r: seq<int>)
    requires |w| > 1
    ensures |r| == |w|
  {
    seq(|w|, k requires 0 <= k < |w| => (SourceIn(o, |w| - 1, k); w[Source(o, |w| - 1, k)]))
  }

  lemma ReorderedPosed(p0: Pass, p: Pass, o: Order)
    requires Reordered(p0, p, o)
    ensures WellPosed(p)
  {
    forall a, b | 0 <= a < b < |p.st| ensures p.st[a] != p.st[b] {
      NthDistinct(o, |p.st|, a, b);
    }
    forall k | 0 <= k < |p.dur| ensures p.dur[k] > 0 {
      if k > 0 {
        assert p.dur[(k - 1) + 1] == p0.dur[Nth(o, |p0.st|, k - 1) + 1];
      }
    }
  }

  // A plan shuffled is a plan of the shuffled tasks.
  lemma ShufflePlan(p0: Pass, p: Pass, o: Order, views0: map<nat, View>, views: map<nat, View>, w: seq<int>)
    requires Reordered(p0, p, o) && Plan(p0, views0, w) && Fits(views, p0.st, w)
    ensures Plan(p, views, Shuffle(o, w))
  {
    var m, r := |p0.st|, Shuffle(o, w);
    forall k | 0 <= k <= m ensures r[k] == w[Source(o, m, k)] && p.dur[k] == p0.dur[Source(o, m, k)] {
      if k > 0 {
        assert p.dur[(k - 1) + 1] == p0.dur[Nth(o, m, k - 1) + 1];
      }
    }
    forall a, b | 0 <= a < b <= m ensures Apart(r[a], p.dur[a], r[b], p.dur[b]) {
      SourceDistinct(o, m, a, b);
      PlanApart(p0, w, Source(o, m, a), Source(o, m, b));
    }
    forall k | 0 <= k < m ensures p.st[k] in views && Keeps(views[p.st[k]], r[k + 1]) {
      assert Keeps(views[p0.st[Nth(o, m, k)]], w[Nth(o, m, k) + 1]);
    }
  }

  lemma UnshuffleOne(p0: Pass, p: Pass, o: Order, v2: map<nat, View>, w: seq<int>, j: int, k: int)
    requires Reordered(p0, p, o) && |w| == |p0.st| + 1 && Fits(v2, p.st, Shuffle(o, w))
    requires 0 <= j < |p0.st| && 0 <= k < |p0.st| && p.st[k] == p0.st[j]
    ensures p0.st[j] in v2 && Keeps(v2[p0.st[j]], w[j + 1])
  {
    NthIn(o, |p0.st|, k);
    assert Nth(o, |p0.st|, k) == j;
    assert Keeps(v2[p.st[k]], Shuffle(o, w)[k + 1]);
  }

  // What fits the shuffled tasks after a pass fits the tasks.
  lemma UnshuffleFits(p0: Pass, p: Pass, o: Order, v1: map<nat, View>, v2: map<nat, View>, w: seq<int>)
    requires Reordered(p0, p, o) && Fits(v1, p0.st, w) && |w| > 1 && OnlyVars(v1, v2, p.st)
    requires Fits(v2, p.st, Shuffle(o, w))
    ensures Fits(v2, p0.st, w)
  {
    var m := |p0.st|;
    forall j | 0 <= j < m ensures p0.st[j] in v2 && Keeps(v2[p0.st[j]], w[j + 1]) {
      assert Keeps(v1[p0.st[j]], w[j + 1]);
      if p0.st[j] in p.st {
        var k :| 0 <= k < m && p.st[k] == p0.st[j];
        UnshuffleOne(p0, p, o, v2, w, j, k);
      }
    }
  }

  // The tasks in order o, the seed first.
  ghost function InOrder(p0: Pass, o: Order): (p: Pass)
    requires |p0.dur| == |p0.st| + 1 && |p0.st| > 0
    ensures |p.dur| == |p.st| + 1 == |p0.dur|
  {
    var m := |p0.st|;
    Pass(p0.est0, p0.lct0,
      [p0.dur[0]] + seq(m, k requires 0 <= k < m => (NthIn(o, m, k); p0.dur[Nth(o, m, k) + 1])),
      seq(m, k requires 0 <= k < m => (NthIn(o, m, k); p0.st[Nth(o, m, k)])))
  }

  lemma ArrangedInOrder(p0: Pass, o: Order, starts: seq<nat>, durations: seq<int>)
    requires |p0.dur| == |p0.st| + 1 && |p0.st| > 0 && ArrangedTo(o, p0.st, p0.dur[1..], starts, durations, |p0.st|)
    ensures InOrder(p0, o) == Pass(p0.est0, p0.lct0, [p0.dur[0]] + durations[..|p0.st|], starts[..|p0.st|])
  {
    var m := |p0.st|;
    assert durations[..m] == InOrder(p0, o).dur[1..];
    assert starts[..m] == InOrder(p0, o).st;
  }

  // A pass in order o was made, and nothing of it undone.
  ghost predicate OrderDone(p0: Pass, views0: map<nat, View>, views: map<nat, View>, o: Order)
    requires |p0.dur| == |p0.st| + 1 && |p0.st| > 0
  {
    PassDone(InOrder(p0, o), views0, views, |p0.dur|)
  }

  // A pass in order o takes the variables from v1 to v2. What it achieves is said of the values at its own start.
  ghost predicate MadePass(p0: Pass, v1: map<nat, View>, v2: map<nat, View>, o: Order)
    requires |p0.dur| == |p0.st| + 1 && |p0.st| > 0
  {
    WholePass(InOrder(p0, o), v1, v2)
  }

  ghost predicate MadeThree(p0: Pass, v0: map<nat, View>, v3: map<nat, View>, o1: Order, o2: Order, o3: Order)
    requires |p0.dur| == |p0.st| + 1 && |p0.st| > 0
  {
    exists v1, v2 :: MadePass(p0, v0, v1, o1) && MadePass(p0, v1, v2, o2) && MadePass(p0, v2, v3, o3)
  }

  // The six passes, one after the other.
  ghost predicate MadeSix(p0: Pass, v0: map<nat, View>, v6: map<nat, View>)
    requires |p0.dur| == |p0.st| + 1 && |p0.st| > 0
  {
    exists v3 :: MadeThree(p0, v0, v3, Forward, Backward, InOut1) && MadeThree(p0, v3, v6, InOut2, Merge1, Merge2)
  }

  // Later passes undo nothing.
  lemma OrderLater(p0: Pass, views0: map<nat, View>, v1: map<nat, View>, v2: map<nat, View>, o: Order)
    requires |p0.dur| == |p0.st| + 1 && |p0.st| > 0 && AllDescend(v1, v2, p0.st) && OrderDone(p0, views0, v1, o)
    ensures OrderDone(p0, views0, v2, o)
  {
    var p, m := InOrder(p0, o), |p0.st|;
    forall k | 0 <= k < |p.st| ensures p.st[k] in v1 && p.st[k] in v2 && Descends(v1[p.st[k]], v2[p.st[k]]) {
      NthIn(o, m, k);
      assert p.st[k] == p0.st[Nth(o, m, k)];
    }
    TurnsLater(p, views0, v1, v2, |p.dur|);
  }

  // One pass keeps every plan of the original problem.
  method RunPass(s: Store, ghost p0: Pass, ghost views0: map<nat, View>, ghost o: Order, est0: int, lct0: int,
      duration0: int, ghost ts: seq<nat>, ghost td: seq<int>, starts: array<nat>, durations: array<int>, m: nat)
    returns (ok: bool)
    requires Running(s, p0, views0) && m == |ts| && Arrays(ts, td, starts, durations)
    requires p0 == Pass(est0, lct0, [duration0] + td, ts) && ArrangedTo(o, ts, td, starts[..], durations[..], m)
    modifies s`mem, s`trail, s`views
    ensures s.Valid() && AreVars(s.views, p0.st) && OnlyVars(views0, s.views, p0.st)
    ensures !ok ==> NonePlans(p0, views0)
    ensures ok ==> Running(s, p0, views0) && OrderDone(p0, views0, s.views, o)
    ensures ok ==> AllDescend(old(s.views), s.views, p0.st) && MadePass(p0, old(s.views), s.views, o)
  {
    ghost var p := InOrder(p0, o);
    ghost var views1 := s.views;
    ArrangedPass(p0, o, ts, td, starts[..], durations[..], duration0);
    ok := ForwardEdgeFinder(s, p, est0, lct0, duration0, starts[..], durations[..], m);
    PassKeeps(p0, p, o, views0, views1, s.views, ok);
  }

  // The arrays hold the tasks in order o.
  lemma ArrangedPass(p0: Pass, o: Order, ts: seq<nat>, td: seq<int>, starts: seq<nat>, durations: seq<int>,
      duration0: int)
    requires 0 < |ts| == |td| && p0.st == ts && p0.dur == [duration0] + td && WellPosed(p0)
    requires ArrangedTo(o, ts, td, starts, durations, |ts|)
    ensures Reordered(p0, InOrder(p0, o), o) && WellPosed(InOrder(p0, o))
    ensures InOrder(p0, o) == Pass(p0.est0, p0.lct0, [duration0] + durations[..|ts|], starts[..|ts|])
  {
    assert p0.dur[1..] == td;
    ArrangedInOrder(p0, o, starts, durations);
    assert Reordered(p0, InOrder(p0, o), o);
    ReorderedPosed(p0, InOrder(p0, o), o);
  }

  lemma PassKeeps(p0: Pass, p: Pass, o: Order, views0: map<nat, View>, v1: map<nat, View>, v2: map<nat, View>, ok: bool)
    requires Reordered(p0, p, o) && KeepsPlans(p0, views0, v1) && OnlyVars(views0, v1, p0.st) && OnlyVars(v1, v2, p.st)
    requires AllDescend(views0, v1, p0.st)
    requires !ok ==> NonePlans(p, v1)
    requires ok ==> KeepsPlans(p, v1, v2) && AllDescend(v1, v2, p.st) && PassDone(p, v1, v2, |p.dur|)
    ensures OnlyVars(views0, v2, p0.st)
    ensures ok ==> KeepsPlans(p0, views0, v2) && AllDescend(views0, v2, p0.st) && AllFit(p, views0, |p.dur|)
    ensures ok ==> AllDescend(v1, v2, p0.st) && TurnsDone(p, views0, v2, |p.dur|)
    ensures !ok ==> NonePlans(p0, views0)
  {
    forall e | e in p.st ensures e in p0.st {
      var k :| 0 <= k < |p.st| && p.st[k] == e;
      assert p0.st[Nth(o, |p0.st|, k)] == e;
    }
    forall w | Plan(p0, views0, w) ensures ok && Fits(v2, p0.st, w) {
      ShufflePlan(p0, p, o, views0, v1, w);
      UnshuffleFits(p0, p, o, v1, v2, w);
    }
    if ok {
      PassDescends(p0, p, o, views0, v1, v2);
    }
  }

  lemma PassDescends(p0: Pass, p: Pass, o: Order, views0: map<nat, View>, v1: map<nat, View>, v2: map<nat, View>)
    requires Reordered(p0, p, o) && OnlyVars(views0, v1, p0.st) && OnlyVars(v1, v2, p.st)
    requires AllDescend(views0, v1, p0.st) && AllDescend(v1, v2, p.st) && AllFit(p, v1, |p.dur|)
    requires TurnsDone(p, v1, v2, |p.dur|)
    ensures AllDescend(v1, v2, p0.st) && AllDescend(views0, v2, p0.st) && AllFit(p, views0, |p.dur|)
    ensures TurnsDone(p, views0, v2, |p.dur|)
  {
    forall k | 0 <= k < |p0.st| ensures p0.st[k] in v2 && Descends(v1[p0.st[k]], v2[p0.st[k]]) {
      assert Descends(views0[p0.st[k]], v1[p0.st[k]]);
      if p0.st[k] in p.st {
        var j :| 0 <= j < |p.st| && p.st[j] == p0.st[k];
        assert Descends(v1[p.st[j]], v2[p.st[j]]);
      }
    }
    DescendsOn(views0, v1, v2, p0.st);
    forall k | 0 <= k < |p.st| ensures p.st[k] in views0 && p.st[k] in v1 && Descends(views0[p.st[k]], v1[p.st[k]]) {
      assert p.st[k] == p0.st[Nth(o, |p0.st|, k)];
    }
    forall n | 3 <= n <= |p.dur| ensures WorkFits(p, views0, n) {
      FitsEarlier(p, views0, v1, n);
    }
    TurnsEarlier(p, views0, v1, v2, |p.dur|);
  }

  // Windows, tasks and start times of the whole constraint: the seed first.
  ghost predicate Disjoint(views: map<nat, View>, s0: nat, ts: seq<nat>, dur: seq<int>, w: seq<int>)
    requires s0 in views
  {
    |w| == |dur| == |ts| + 1 && AllApart(w, dur) && Keeps(views[s0], w[0]) && Fits(views, ts, w)
  }

  // The first three orders.
  method FirstPasses(s: Store, ghost p0: Pass, ghost views0: map<nat, View>, est0: int, lct0: int, duration0: int,
      ts: seq<nat>, td: seq<int>, starts: array<nat>, durations: array<int>)
    returns (ok: bool)
    requires Running(s, p0, views0) && Arrays(ts, td, starts, durations) && p0 == Pass(est0, lct0, [duration0] + td, ts)
    modifies s`mem, s`trail, s`views, starts, durations
    ensures s.Valid() && AreVars(s.views, p0.st) && OnlyVars(views0, s.views, p0.st)
    ensures !ok ==> NonePlans(p0, views0)
    ensures ok ==> Running(s, p0, views0) && OrderDone(p0, views0, s.views, InOut1)
    ensures ok ==> OrderDone(p0, views0, s.views, Forward) && OrderDone(p0, views0, s.views, Backward)
    ensures ok ==> MadeThree(p0, old(s.views), s.views, Forward, Backward, InOut1)
  {
    ArrangeForward(ts, td, starts, durations);
    ok := RunPass(s, p0, views0, Forward, est0, lct0, duration0, ts, td, starts, durations, |ts|);
    if ok {
      ArrangeBackward(ts, td, starts, durations);
      ghost var v1 := s.views;
      ok := RunPass(s, p0, views0, Backward, est0, lct0, duration0, ts, td, starts, durations, |ts|);
      if ok {
        OrderLater(p0, views0, v1, s.views, Forward);
      }
    }
    if ok {
      ArrangeInOut1(ts, td, starts, durations);
      ghost var v1 := s.views;
      ok := RunPass(s, p0, views0, InOut1, est0, lct0, duration0, ts, td, starts, durations, |ts|);
      if ok {
        OrderLater(p0, views0, v1, s.views, Forward);
        OrderLater(p0, views0, v1, s.views, Backward);
      }
    }
  }

  // The other three.
  method LastPasses(s: Store, ghost p0: Pass, ghost views0: map<nat, View>, est0: int, lct0: int, duration0: int,
      ts: seq<nat>, td: seq<int>, starts: array<nat>, durations: array<int>)
    returns (ok: bool)
    requires Running(s, p0, views0) && Arrays(ts, td, starts, durations) && p0 == Pass(est0, lct0, [duration0] + td, ts)
    modifies s`mem, s`trail, s`views, starts, durations
    ensures s.Valid() && AreVars(s.views, p0.st) && OnlyVars(views0, s.views, p0.st)
    ensures !ok ==> NonePlans(p0, views0)
    ensures ok ==> Running(s, p0, views0) && OrderDone(p0, views0, s.views, Merge2)
    ensures ok ==> OrderDone(p0, views0, s.views, InOut2) && OrderDone(p0, views0, s.views, Merge1)
    ensures ok ==> AllDescend(old(s.views), s.views, p0.st)
    ensures ok ==> MadeThree(p0, old(s.views), s.views, InOut2, Merge1, Merge2)
  {
    ArrangeInOut2(ts, td, starts, durations);
    ok := RunPass(s, p0, views0, InOut2, est0, lct0, duration0, ts, td, starts, durations, |ts|);
    if ok {
      ArrangeMerge1(ts, td, starts, durations);
      ghost var v1 := s.views;
      ok := RunPass(s, p0, views0, Merge1, est0, lct0, duration0, ts, td, starts, durations, |ts|);
      if ok {
        OrderLater(p0, views0, v1, s.views, InOut2);
      }
    }
    if ok {
      ArrangeMerge2(ts, td, starts, durations);
      ghost var v1 := s.views;
      ok := RunPass(s, p0, views0, Merge2, est0, lct0, duration0, ts, td, starts, durations, |ts|);
      if ok {
        OrderLater(p0, views0, v1, s.views, InOut2);
        OrderLater(p0, views0, v1, s.views, Merge1);
      }
    }
  }

  method SixPasses(s: Store, ghost p0: Pass, ghost views0: map<nat, View>, est0: int, lct0: int, duration0: int,
      ts: seq<nat>, td: seq<int>)
    returns (ok: bool)
    requires Running(s, p0, views0) && 0 < |ts| == |td| < MAX_TASKS && p0 == Pass(est0, lct0, [duration0] + td, ts)
    modifies s`mem, s`trail, s`views
    ensures s.Valid() && AreVars(s.views, p0.st) && OnlyVars(views0, s.views, p0.st)
    ensures !ok ==> NonePlans(p0, views0)
    ensures ok ==> KeepsPlans(p0, views0, s.views) && forall o :: OrderDone(p0, views0, s.views, o)
    ensures ok ==> MadeSix(p0, old(s.views), s.views)
  {
    var starts, durations := new nat[MAX_TASKS], new int[MAX_TASKS];
    ok := FirstPasses(s, p0, views0, est0, lct0, duration0, ts, td, starts, durations);
    if ok {
      ghost var v1 := s.views;
      ok := LastPasses(s, p0, views0, est0, lct0, duration0, ts, td, starts, durations);
      if ok {
        OrderLater(p0, views0, v1, s.views, Forward);
        OrderLater(p0, views0, v1, s.views, Backward);
        OrderLater(p0, views0, v1, s.views, InOut1);
      }
    }
    forall o | ok ensures OrderDone(p0, views0, s.views, o) {
      match o
      case Forward =>
      case Backward =>
      case InOut1 =>
      case InOut2 =>
      case Merge1 =>
      case Merge2 =>
    }
  }

  // Every schedule of the constraint survives, or there is none.
  lemma SchedulesKept(views0: map<nat, View>, views: map<nat, View>, s0: nat, ts: seq<nat>, p: Pass, ok: bool)
    requires s0 in views0 && s0 !in ts && OnlyVars(views0, views, ts) && p.st == ts
    requires forall w :: Disjoint(views0, s0, ts, p.dur, w) ==> Plan(p, views0, w)
    requires if ok then KeepsPlans(p, views0, views) else NonePlans(p, views0)
    ensures s0 in views && forall w :: Disjoint(views0, s0, ts, p.dur, w) ==> ok && Disjoint(views, s0, ts, p.dur, w)
  {
  }

  // b_DISJUNCTIVE_TASKS_EF: all schedules survive, and failure means there was none. When it succeeds, the passes in
  // all six orders have been made.
  method DisjunctiveTasksEf(s: Store, s0: nat, duration0: int, ts: seq<nat>, td: seq<int>) returns (ok: bool)
    requires s.Valid() && s0 in s.views && AreVars(s.views, ts) && Distinct(ts) && s0 !in ts
    requires 0 < |ts| == |td| < MAX_TASKS && duration0 > 0 && Positive(td)
    modifies s`mem, s`trail, s`views
    ensures s.Valid() && AreVars(s.views, ts) && OnlyVars(old(s.views), s.views, ts)
    ensures forall w :: Disjoint(old(s.views), s0, ts, [duration0] + td, w) ==>
      ok && s0 in s.views && Disjoint(s.views, s0, ts, [duration0] + td, w)
    ensures var p0 := Pass(LoOf(old(s.mem), s0), HiOf(old(s.mem), s0) + duration0, [duration0] + td, ts);
      ok ==> MadeSix(p0, old(s.views), s.views) && forall o :: OrderDone(p0, old(s.views), s.views, o)
  {
    DerefView(s, s0);
    var est0, lst0 := LoOf(s.mem, s0), HiOf(s.mem, s0);
    var lct0 := lst0 + duration0;
    ghost var views0 := s.views;
    ghost var p0 := Pass(est0, lct0, [duration0] + td, ts);
    SeedWindow(s, s0, ts, p0);
    ok := SixPasses(s, p0, views0, est0, lct0, duration0, ts, td);
    SchedulesKept(views0, s.views, s0, ts, p0, ok);
  }

  // The seed's bounds contain its start in every schedule.
  lemma SeedWindow(s: Store, s0: nat, ts: seq<nat>, p: Pass)
    requires s.Valid() && s0 in s.views && p.st == ts && |p.dur| == |ts| + 1
    requires p.est0 == LoOf(s.mem, s0) && p.lct0 == HiOf(s.mem, s0) + p.dur[0]
    ensures forall w :: Disjoint(s.views, s0, ts, p.dur, w) ==> Plan(p, s.views, w)
  {
    VarBounds(s, s0);
    forall w | Disjoint(s.views, s0, ts, p.dur, w) ensures Plan(p, s.views, w) {
      assert w[0] in Domain(s.views[s0]);
    }
  }
}
