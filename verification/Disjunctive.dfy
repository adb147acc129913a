// Edge finding for disjunctive tasks: the two macros and one forward pass.
module Disjunctive {
  import opened Trail
  import opened Layout
  import opened Sets
  import opened Stores
  import opened Region
  import opened Linear
  import opened LinearTerms
  import opened Descents
  import opened Schedules

  // One pass: the window of the seed task, the durations (the seed's first), the start variables of the others in
  // order.
  datatype Pass = Pass(est0: int, lct0: int, dur: seq<int>, st: seq<nat>)

  ghost predicate Fits(views: map<nat, View>, st: seq<nat>, s: seq<int>) {
    |s| == |st| + 1 && forall k :: 0 <= k < |st| ==> st[k] in views && Keeps(views[st[k]], s[k + 1])
  }

  // Start times that respect the windows and keep all tasks apart; s[0] is the seed's.
  ghost predicate Plan(p: Pass, views: map<nat, View>, s: seq<int>) {
    && |s| == |p.dur| == |p.st| + 1 && AllApart(s, p.dur)
    && p.est0 <= s[0] && s[0] + p.dur[0] <= p.lct0 && Fits(views, p.st, s)
  }

  ghost predicate NonePlans(p: Pass, views0: map<nat, View>) {
    forall s :: !Plan(p, views0, s)
  }

  ghost predicate KeepsPlans(p: Pass, views0: map<nat, View>, views: map<nat, View>) {
    forall s :: Plan(p, views0, s) ==> Fits(views, p.st, s)
  }

  // In every plan the k-th task runs between e and l.
  ghost predicate TaskIn(p: Pass, views0: map<nat, View>, k: int, e: int, l: int) {
    0 <= k < |p.dur| && forall s :: Plan(p, views0, s) ==> e <= s[k] && s[k] + p.dur[k] <= l
  }

  ghost predicate WellPosed(p: Pass) {
    |p.dur| == |p.st| + 1 && Positive(p.dur) && Distinct(p.st)
  }

  // The variables are those of the pass, and every plan is still possible.
  ghost predicate Running(s: Store, p: Pass, views0: map<nat, View>)
    reads s
  {
    && s.Valid() && WellPosed(p) && AreVars(s.views, p.st)
    && OnlyVars(views0, s.views, p.st) && KeepsPlans(p, views0, s.views) && AllDescend(views0, s.views, p.st)
  }

  // Cutting a start to a range that all plans respect loses no plan.
  method Tighten(s: Store, ghost p: Pass, ghost views0: map<nat, View>, ghost k: int, d: nat, lo: int, hi: int)
    returns (ok: bool)
    requires Running(s, p, views0) && 0 <= k < |p.st| && d == p.st[k] && views0[d].cell == Ref
    requires TaskIn(p, views0, k + 1, lo, hi + p.dur[k + 1])
    modifies s`mem, s`trail, s`views
    ensures s.Valid() && AreVars(s.views, p.st) && OnlyVars(views0, s.views, p.st)
    ensures !ok ==> NonePlans(p, views0)
    ensures ok ==> Running(s, p, views0)
    ensures Changed(old(s.views), s.views, d) && CutTo(old(s.views[d]), s.views[d], lo, hi, ok)
  {
    ghost var v, r := s.views[d], Between(s.views[d].described, lo, hi);
    var first, last;
    ok, first, last := DomainRegion(s, d, lo, hi);
    OnlyVarsStep(views0, old(s.views), s.views, p.st, d);
    DescendsStep(views0, old(s.views), s.views, p.st, k, r);
    forall w | Plan(p, views0, w) ensures w[k + 1] in r && (ok ==> Fits(s.views, p.st, w)) {
      assert Fits(old(s.views), p.st, w);
      if ok {
        FitsStep(p, old(s.views), s.views, k, lo, hi, w);
      }
    }
  }

  // Exactly the described values from lo to hi stay.
  ghost predicate CutTo(v: View, v': View, lo: int, hi: int, ok: bool) {
    Narrows(v, Between(v.described, lo, hi), v') && (ok <==> Between(v.described, lo, hi) != {})
  }

  // A view nobody cuts is cut to its own bounds.
  lemma UncutView(s: Store, d: nat)
    requires s.Valid() && d in s.views
    ensures CutTo(s.views[d], s.views[d], First(s.mem, d), Last(s.mem, d), true)
  {
    assert Shape(s.mem, s.owner, d);
    StaleBounds(s.mem, s.owner, d);
    assert Between(s.views[d].described, First(s.mem, d), Last(s.mem, d)) == s.views[d].described;
  }

  lemma FitsStep(p: Pass, v1: map<nat, View>, v2: map<nat, View>, k: int, lo: int, hi: int, w: seq<int>)
    requires AreVars(v1, p.st) && Distinct(p.st) && Fits(v1, p.st, w) && 0 <= k < |p.st| && lo <= w[k + 1] <= hi
    requires Changed(v1, v2, p.st[k]) && Narrows(v1[p.st[k]], Between(v1[p.st[k]].described, lo, hi), v2[p.st[k]])
    ensures Fits(v2, p.st, w)
  {
    DomsStep(v1, v2, p.st, k);
    forall j | 0 <= j < |p.st| ensures Keeps(v2[p.st[j]], w[j + 1]) {
      assert Keeps(v1[p.st[j]], w[j + 1]);
      if j == k {
        assert w[k + 1] in Between(v1[p.st[k]].described, lo, hi);
      }
    }
  }

  // The window of a task as its variable shows it.
  lemma ReadWindow(s: Store, p: Pass, views0: map<nat, View>, k: int)
    requires Running(s, p, views0) && 0 <= k < |p.st|
    ensures TaskIn(p, views0, k + 1, First(s.mem, p.st[k]), Last(s.mem, p.st[k]) + p.dur[k + 1])
    ensures s.views[p.st[k]].cell.Num? ==>
      TaskIn(p, views0, k + 1, s.views[p.st[k]].cell.n, s.views[p.st[k]].cell.n + p.dur[k + 1])
  {
    var d := p.st[k];
    assert Shape(s.mem, s.owner, d);
    StaleBounds(s.mem, s.owner, d);
    forall w | Plan(p, views0, w)
      ensures First(s.mem, d) <= w[k + 1] <= Last(s.mem, d)
      ensures s.views[d].cell.Num? ==> w[k + 1] == s.views[d].cell.n {
      assert Fits(s.views, p.st, w);
      assert Keeps(s.views[d], w[k + 1]);
    }
  }

  // ---- What a group Q of tasks says about the task k ----

  // The tasks at positions q, in a plan.
  ghost function Pick(s: seq<int>, q: seq<int>): (r: seq<int>)
    requires forall i :: 0 <= i < |q| ==> 0 <= q[i] < |s|
    ensures |r| == |q|
  {
    seq(|q|, i requires 0 <= i < |q| => s[q[i]])
  }

  // Positions of a group, all different and different from k.
  ghost predicate Group(p: Pass, q: seq<int>, k: int) {
    && |q| > 0 && 0 <= k < |p.dur|
    && (forall i :: 0 <= i < |q| ==> 0 <= q[i] < |p.dur| && q[i] != k)
    && (forall i, j :: 0 <= i < j < |q| ==> q[i] != q[j])
  }

  ghost predicate GroupIn(p: Pass, views0: map<nat, View>, q: seq<int>, e: int, l: int) {
    forall i :: 0 <= i < |q| ==> TaskIn(p, views0, q[i], e, l)
  }

  lemma GroupFacts(p: Pass, views0: map<nat, View>, q: seq<int>, k: int, e: int, l: int, w: seq<int>)
    requires WellPosed(p) && Group(p, q, k) && GroupIn(p, views0, q, e, l) && Plan(p, views0, w)
    ensures AllApart(Pick(w, q), Pick(p.dur, q)) && Positive(Pick(p.dur, q)) && Inside(Pick(w, q), Pick(p.dur, q), e, l)
    ensures ApartFrom(Pick(w, q), Pick(p.dur, q), w[k], p.dur[k])
  {
    forall i, j | 0 <= i < j < |q| ensures Apart(Pick(w, q)[i], Pick(p.dur, q)[i], Pick(w, q)[j], Pick(p.dur, q)[j]) {
      PlanApart(p, w, q[i], q[j]);
    }
    forall i | 0 <= i < |q| ensures Apart(Pick(w, q)[i], Pick(p.dur, q)[i], w[k], p.dur[k]) {
      PlanApart(p, w, q[i], k);
    }
    forall i | 0 <= i < |q| ensures e <= Pick(w, q)[i] && Pick(w, q)[i] + Pick(p.dur, q)[i] <= l {
      assert TaskIn(p, views0, q[i], e, l);
    }
  }

  lemma PlanApart(p: Pass, w: seq<int>, i: int, j: int)
    requires AllApart(w, p.dur) && 0 <= i < |w| && 0 <= j < |w| && i != j
    ensures Apart(w[i], p.dur[i], w[j], p.dur[j])
  {
    assert i < j ==> Apart(w[i], p.dur[i], w[j], p.dur[j]);
    assert j < i ==> Apart(w[j], p.dur[j], w[i], p.dur[i]);
  }

  // Too little room for the group and the task: no plan.
  lemma Overloaded(p: Pass, views0: map<nat, View>, q: seq<int>, k: int, e: int, l: int)
    requires WellPosed(p) && Group(p, q, k) && GroupIn(p, views0, q, e, l) && TaskIn(p, views0, k, e, l)
    requires l - e < Sum(Pick(p.dur, q)) + p.dur[k]
    ensures NonePlans(p, views0)
  {
    forall w ensures !Plan(p, views0, w) {
      if Plan(p, views0, w) {
        GroupFacts(p, views0, q, k, e, l, w);
        WithTask(Pick(w, q), Pick(p.dur, q), w[k], p.dur[k], e, l);
      }
    }
  }

  // T << Q
  lemma GroupAfter(p: Pass, views0: map<nat, View>, q: seq<int>, k: int, e: int, l: int, e1: int, l1: int)
    requires WellPosed(p) && Group(p, q, k) && GroupIn(p, views0, q, e, l) && TaskIn(p, views0, k, e1, l1) && l <= l1
    requires e + (Sum(Pick(p.dur, q)) + p.dur[k]) > l1
    ensures TaskIn(p, views0, k, e1, l - Sum(Pick(p.dur, q)))
  {
    forall w | Plan(p, views0, w) ensures w[k] + p.dur[k] + Sum(Pick(p.dur, q)) <= l {
      GroupFacts(p, views0, q, k, e, l, w);
      MustBeFirst(Pick(w, q), Pick(p.dur, q), w[k], p.dur[k], e, l, l1);
    }
  }

  // Q << T
  lemma GroupBefore(p: Pass, views0: map<nat, View>, q: seq<int>, k: int, e: int, l: int, e1: int, l1: int)
    requires WellPosed(p) && Group(p, q, k) && GroupIn(p, views0, q, e, l) && TaskIn(p, views0, k, e1, l1) && e1 <= e
    requires e1 + (Sum(Pick(p.dur, q)) + p.dur[k]) > l
    ensures TaskIn(p, views0, k, e + Sum(Pick(p.dur, q)), l1)
  {
    forall w | Plan(p, views0, w) ensures e + Sum(Pick(p.dur, q)) <= w[k] {
      GroupFacts(p, views0, q, k, e, l, w);
      MustBeLast(Pick(w, q), Pick(p.dur, q), w[k], p.dur[k], e, l, e1);
    }
  }

  // The cut made for T << Q, and the one for Q << T.
  lemma AfterCut(p: Pass, views0: map<nat, View>, q: seq<int>, k: int, e: int, l: int, est: int, lct: int, l1: int,
      newLst: int)
    requires WellPosed(p) && Group(p, q, k) && GroupIn(p, views0, q, e, l) && TaskIn(p, views0, k, est, lct)
    requires lct <= l1 && l <= l1
    requires e + (Sum(Pick(p.dur, q)) + p.dur[k]) > l1 && newLst + p.dur[k] >= l - Sum(Pick(p.dur, q))
    ensures TaskIn(p, views0, k, est, newLst + p.dur[k])
  {
    Wider(p, views0, k, est, lct, est, l1);
    GroupAfter(p, views0, q, k, e, l, est, l1);
    Wider(p, views0, k, est, l - Sum(Pick(p.dur, q)), est, newLst + p.dur[k]);
  }

  lemma BeforeCut(p: Pass, views0: map<nat, View>, q: seq<int>, k: int, e: int, l: int, est: int, lct: int, e1: int,
      newEst: int)
    requires WellPosed(p) && Group(p, q, k) && GroupIn(p, views0, q, e, l) && TaskIn(p, views0, k, est, lct)
    requires e1 <= est && e1 <= e
    requires e1 + (Sum(Pick(p.dur, q)) + p.dur[k]) > l && newEst == e + Sum(Pick(p.dur, q))
    ensures TaskIn(p, views0, k, newEst, lct)
  {
    Wider(p, views0, k, est, lct, e1, lct);
    GroupBefore(p, views0, q, k, e, l, e1, lct);
  }

  lemma {:induction false} SumPositive(d: seq<int>)
    requires Positive(d)
    ensures Sum(d) >= 0
    decreases |d|
  {
    if |d| > 0 {
      SumPositive(d[..|d| - 1]);
    }
  }

  lemma Wider(p: Pass, views0: map<nat, View>, k: int, e: int, l: int, e': int, l': int)
    requires TaskIn(p, views0, k, e, l) && e' <= e && l <= l'
    ensures TaskIn(p, views0, k, e', l')
  {
  }

  // ---- EDGE_FINDER01: the seed, the previous task and this one ----

  function Lower(a: int, b: int): int { if a < b then a else b }
  function Upper(a: int, b: int): int { if a > b then a else b }

  lemma PairGroup(p: Pass, views0: map<nat, View>, k: int, est1: int, lct1: int)
    requires WellPosed(p) && 1 <= k < |p.st| && TaskIn(p, views0, k, est1, lct1)
    ensures Group(p, [0, k], k + 1) && GroupIn(p, views0, [0, k], Lower(p.est0, est1), Upper(p.lct0, lct1))
    ensures Sum(Pick(p.dur, [0, k])) == p.dur[0] + p.dur[k]
  {
    var q := [0, k];
    assert TaskIn(p, views0, 0, p.est0, p.lct0);
    Wider(p, views0, 0, p.est0, p.lct0, Lower(p.est0, est1), Upper(p.lct0, lct1));
    Wider(p, views0, k, est1, lct1, Lower(p.est0, est1), Upper(p.lct0, lct1));
    var t := Pick(p.dur, q);
    SumPrefix(t, 0);
    SumPrefix(t, 1);
    assert t[..0] == [] && t[..2] == t;
  }

  // The rules for a task of duration d in the window est..lct and a group of total duration w in the window e..l:
  // T << Q, when with the task after it the group would overrun; otherwise Q << T, when with the task first it would.
  predicate MustPrecede(e: int, l: int, w: int, lct: int, d: int) {
    e + w + d > Upper(l, lct)
  }

  predicate MustFollow(e: int, l: int, w: int, est: int, lct: int, d: int) {
    !MustPrecede(e, l, w, lct, d) && Lower(e, est) + w + d > l
  }

  // The starts that the rules leave: up to newLst, or from the end of the group on.
  function RuleLo(e: int, l: int, w: int, est: int, lct: int, d: int): int {
    if MustFollow(e, l, w, est, lct, d) then Upper(est, e + w) else est
  }

  function RuleHi(e: int, l: int, w: int, lct: int, d: int, newLst: int): int {
    if MustPrecede(e, l, w, lct, d) then Lower(lct - d, newLst) else lct - d
  }

  // start is the argument as dereferenced at the head of the loop; k is the index of the task.
  method EdgeFinder01(s: Store, ghost p: Pass, ghost views0: map<nat, View>, ghost k: int, est0: int, lct0: int,
      duration0: int, est1: int, lct1: int, duration1: int, start: Arg, duration: int)
    returns (ok: bool)
    requires Running(s, p, views0) && 1 <= k < |p.st| && est0 == p.est0 && lct0 == p.lct0 && duration0 == p.dur[0]
    requires TaskIn(p, views0, k, est1, lct1) && duration1 == p.dur[k] && duration == p.dur[k + 1]
    requires start == ArgOf(s.views[p.st[k]], p.st[k])
    modifies s`mem, s`trail, s`views
    ensures s.Valid() && AreVars(s.views, p.st) && OnlyVars(views0, s.views, p.st)
    ensures !ok ==> NonePlans(p, views0)
    ensures ok ==> Running(s, p, views0)
    ensures Changed(old(s.views), s.views, p.st[k])
    ensures var e, l, w := Lower(est0, est1), Upper(lct0, lct1), duration0 + duration1;
      match start
      case Int(n) => s.views == old(s.views) && (ok <==> w + duration <= Upper(l, n + duration) - Lower(e, n))
      case Susp(d) => CutByGroup(old(s.views)[d], s.views[d], old(s.mem), d, e, l, w, duration, l - w, ok)
  {
    ghost var q := [0, k];
    PairGroup(p, views0, k, est1, lct1);
    ReadWindow(s, p, views0, k);
    var accDuration1 := duration0 + duration1;
    var accDuration2 := accDuration1 + duration;
    var accEst1, accLct1 := Lower(est0, est1), Upper(lct0, lct1);
    match start
    case Int(n) =>
      var est, lct := n, n + duration;
      ok := PairFixed(p, views0, k, accEst1, accLct1, accDuration2, est, lct);
    case Susp(d) =>
      assert Descends(views0[d], s.views[d]);
      var rule;
      ok, rule := ApplyRules(s, p, views0, k, q, accEst1, accLct1, accDuration1, d, duration, accLct1 - accDuration1);
  }

  // Which rule cut the start.
  datatype Rule = Neither | Before | After

  function RuleUsed(e: int, l: int, w: int, est: int, lct: int, d: int, newLst: int): Rule {
    if MustPrecede(e, l, w, lct, d) then (if newLst < lct - d then Before else Neither)
    else if MustFollow(e, l, w, est, lct, d) && e + w > est then After
    else Neither
  }

  // The rules for a free start and the group q. The two macros differ in newLst, the cut they make for T << Q.
  method ApplyRules(s: Store, ghost p: Pass, ghost views0: map<nat, View>, ghost k: int, ghost q: seq<int>, e: int,
      l: int, w: int, d: nat, duration: int, newLst: int)
    returns (ok: bool, rule: Rule)
    requires Running(s, p, views0) && 1 <= k < |p.st| && d == p.st[k] && duration == p.dur[k + 1]
    requires views0[d].cell == Ref
    requires Group(p, q, k + 1) && GroupIn(p, views0, q, e, l) && w == Sum(Pick(p.dur, q)) && newLst + duration >= l - w
    requires TaskIn(p, views0, k + 1, First(s.mem, d), Last(s.mem, d) + duration)
    modifies s`mem, s`trail, s`views
    ensures s.Valid() && AreVars(s.views, p.st) && OnlyVars(views0, s.views, p.st)
    ensures !ok ==> NonePlans(p, views0)
    ensures ok ==> Running(s, p, views0)
    ensures rule == RuleUsed(e, l, w, First(old(s.mem), d), Last(old(s.mem), d) + duration, duration, newLst)
    ensures rule == Before ==> TaskIn(p, views0, k + 1, First(old(s.mem), d), newLst + duration)
    ensures rule == After ==> TaskIn(p, views0, k + 1, e + w, Last(old(s.mem), d) + duration)
    ensures CutByGroup(old(s.views)[d], s.views[d], old(s.mem), d, e, l, w, duration, newLst, ok)
    ensures Changed(old(s.views), s.views, d)
  {
    var est, lct := First(s.mem, d), Last(s.mem, d) + duration;
    ok, rule := true, Neither;
    if e + (w + duration) > Upper(lct, l) {
      if newLst < Last(s.mem, d) {
        ok := CutBefore(s, p, views0, k, q, e, l, w, d, duration, est, lct, newLst);
        rule := Before;
        return;
      }
    } else if Lower(est, e) + (w + duration) > l {
      var newEst := e + w;
      if newEst > est {
        ok := CutAfter(s, p, views0, k, q, e, l, w, d, duration, est, lct, newEst, newLst);
        rule := After;
        return;
      }
    }
    NoRule(s, d, e, l, w, duration, newLst);
  }

  // The start is cut as the rules say for a group with the window e..l and the duration w; mem is the memory before.
  ghost predicate CutByGroup(v: View, v': View, mem: seq<Cell>, d: nat, e: int, l: int, w: int, duration: int,
      newLst: int, ok: bool) {
    var est, lct := First(mem, d), Last(mem, d) + duration;
    CutTo(v, v', RuleLo(e, l, w, est, lct, duration), RuleHi(e, l, w, lct, duration, newLst), ok)
  }

  // Neither rule cuts anything.
  lemma NoRule(s: Store, d: nat, e: int, l: int, w: int, duration: int, newLst: int)
    requires s.Valid() && d in s.views
    requires MustPrecede(e, l, w, Last(s.mem, d) + duration, duration) ==> newLst >= Last(s.mem, d)
    requires MustFollow(e, l, w, First(s.mem, d), Last(s.mem, d) + duration, duration) ==> e + w <= First(s.mem, d)
    ensures CutByGroup(s.views[d], s.views[d], s.mem, d, e, l, w, duration, newLst, true)
  {
    UncutView(s, d);
  }

  // T << Q: the start is cut off at newLst.
  method CutBefore(s: Store, ghost p: Pass, ghost views0: map<nat, View>, ghost k: int, ghost q: seq<int>, ghost e: int,
      ghost l: int, ghost w: int, d: nat, ghost duration: int, est: int, ghost lct: int, newLst: int)
    returns (ok: bool)
    requires Running(s, p, views0) && 1 <= k < |p.st| && duration == p.dur[k + 1] && d == p.st[k]
    requires views0[d].cell == Ref
    requires Group(p, q, k + 1) && GroupIn(p, views0, q, e, l) && w == Sum(Pick(p.dur, q))
    requires TaskIn(p, views0, k + 1, est, lct)
    requires est == First(s.mem, d) && lct == Last(s.mem, d) + duration
    requires MustPrecede(e, l, w, lct, duration) && newLst + duration >= l - w && newLst < lct - duration
    modifies s`mem, s`trail, s`views
    ensures s.Valid() && AreVars(s.views, p.st) && OnlyVars(views0, s.views, p.st)
    ensures !ok ==> NonePlans(p, views0)
    ensures ok ==> Running(s, p, views0)
    ensures TaskIn(p, views0, k + 1, est, newLst + duration)
    ensures CutByGroup(old(s.views[d]), s.views[d], old(s.mem), d, e, l, w, duration, newLst, ok)
    ensures Changed(old(s.views), s.views, d)
  {
    AfterCut(p, views0, q, k + 1, e, l, est, lct, Upper(lct, l), newLst);
    ok := Tighten(s, p, views0, k, d, est, newLst);
  }

  // Q << T: the start is cut below newEst.
  method CutAfter(s: Store, ghost p: Pass, ghost views0: map<nat, View>, ghost k: int, ghost q: seq<int>, ghost e: int,
      ghost l: int, ghost w: int, d: nat, ghost duration: int, ghost est: int, ghost lct: int, newEst: int,
      ghost newLst: int)
    returns (ok: bool)
    requires Running(s, p, views0) && 1 <= k < |p.st| && duration == p.dur[k + 1] && d == p.st[k]
    requires views0[d].cell == Ref
    requires Group(p, q, k + 1) && GroupIn(p, views0, q, e, l) && w == Sum(Pick(p.dur, q))
    requires TaskIn(p, views0, k + 1, est, lct)
    requires est == First(s.mem, d) && lct == Last(s.mem, d) + duration
    requires MustFollow(e, l, w, est, lct, duration) && newEst == e + w && newEst > est
    modifies s`mem, s`trail, s`views
    ensures s.Valid() && AreVars(s.views, p.st) && OnlyVars(views0, s.views, p.st)
    ensures !ok ==> NonePlans(p, views0)
    ensures ok ==> Running(s, p, views0)
    ensures TaskIn(p, views0, k + 1, newEst, lct)
    ensures CutByGroup(old(s.views[d]), s.views[d], old(s.mem), d, e, l, w, duration, newLst, ok)
    ensures Changed(old(s.views), s.views, d)
  {
    BeforeCut(p, views0, q, k + 1, e, l, est, lct, Lower(est, e), newEst);
    ok := Tighten(s, p, views0, k, d, newEst, Last(s.mem, d));
  }

  // The test of EDGE_FINDER01 for a fixed start.
  method PairFixed(ghost p: Pass, ghost views0: map<nat, View>, ghost k: int, accEst1: int, accLct1: int,
      accDuration2: int, est: int, lct: int)
    returns (ok: bool)
    requires WellPosed(p) && 1 <= k < |p.st| && Group(p, [0, k], k + 1) && GroupIn(p, views0, [0, k], accEst1, accLct1)
    requires TaskIn(p, views0, k + 1, est, lct) && accDuration2 == Sum(Pick(p.dur, [0, k])) + p.dur[k + 1]
    ensures !ok ==> NonePlans(p, views0)
    ensures ok <==> accDuration2 <= Upper(accLct1, lct) - Lower(accEst1, est)
  {
    var e, l := accEst1, accLct1;
    if est < e {
      e := est;
    }
    if lct > l {
      l := lct;
    }
    if l - e < accDuration2 {
      Wider(p, views0, 0, accEst1, accLct1, e, l) by {
        assert TaskIn(p, views0, [0, k][0], accEst1, accLct1);
      }
      Wider(p, views0, k, accEst1, accLct1, e, l) by {
        assert TaskIn(p, views0, [0, k][1], accEst1, accLct1);
      }
      Wider(p, views0, k + 1, est, lct, e, l);
      Overloaded(p, views0, [0, k], k + 1, e, l);
      return false;
    }
    return true;
  }

  // ---- EDGE_FINDER: all tasks so far and this one ----

  ghost function UpTo(n: nat): (q: seq<int>)
    ensures |q| == n
  {
    seq(n, i => i)
  }

  // The accumulated window and duration cover the first n tasks (the seed included).
  ghost predicate Accumulated(p: Pass, views0: map<nat, View>, n: nat, accEst: int, accLct: int, accDuration: int) {
    && 0 < n <= |p.dur| && accDuration == Sum(p.dur[..n])
    && GroupIn(p, views0, UpTo(n), accEst, accLct)
  }

  lemma UpToGroup(p: Pass, views0: map<nat, View>, n: nat, accEst: int, accLct: int, accDuration: int)
    requires WellPosed(p) && Accumulated(p, views0, n, accEst, accLct, accDuration) && n < |p.dur|
    ensures Group(p, UpTo(n), n) && Sum(Pick(p.dur, UpTo(n))) == accDuration
  {
    assert Pick(p.dur, UpTo(n)) == p.dur[..n];
  }

  lemma AccumulateStep(p: Pass, views0: map<nat, View>, n: nat, accEst: int, accLct: int, accDuration: int, e: int,
      l: int, e': int, l': int)
    requires WellPosed(p) && Accumulated(p, views0, n, accEst, accLct, accDuration) && n < |p.dur|
    requires TaskIn(p, views0, n, e, l)
    requires e' <= e && e' <= accEst && l <= l' && accLct <= l'
    ensures Accumulated(p, views0, n + 1, e', l', accDuration + p.dur[n])
  {
    SumPrefix(p.dur, n);
    var q := UpTo(n + 1);
    forall i | 0 <= i < n + 1 ensures TaskIn(p, views0, q[i], e', l') {
      if i < n {
        assert TaskIn(p, views0, UpTo(n)[i], accEst, accLct);
        Wider(p, views0, i, accEst, accLct, e', l');
      }
    }
  }

  // All values of the first n tasks, the seed included, keep the task in the window e..l.
  ghost predicate Covers(p: Pass, views0: map<nat, View>, n: int, e: int, l: int) {
    && 0 < n <= |p.dur| && n <= |p.st| + 1 && e <= p.est0 && p.lct0 <= l
    && forall k :: 0 <= k < n - 1 ==> p.st[k] in views0 && Within(Domain(views0[p.st[k]]), p.dur[k + 1], e, l)
  }

  ghost predicate Within(dom: set<int>, d: int, e: int, l: int) {
    forall t :: t in dom ==> e <= t && t + d <= l
  }

  // The accumulated window lies in every window that covers the tasks.
  ghost predicate Loose(p: Pass, views0: map<nat, View>, n: int, accEst: int, accLct: int) {
    forall e, l :: Covers(p, views0, n, e, l) ==> e <= accEst && accLct <= l
  }

  // All values of task k keep it in the window est..lct.
  ghost predicate TaskWindow(p: Pass, views0: map<nat, View>, k: int, est: int, lct: int) {
    && 0 < k < |p.dur| && k <= |p.st| && p.st[k - 1] in views0
    && Within(Domain(views0[p.st[k - 1]]), p.dur[k], est, lct)
  }

  // The window est..lct comes from values of task k.
  ghost predicate Seen(p: Pass, views0: map<nat, View>, k: int, est: int, lct: int) {
    forall e, l :: TaskWindow(p, views0, k, e, l) ==> e <= est && lct <= l
  }

  lemma LooseStep(p: Pass, views0: map<nat, View>, n: int, n': int, accEst: int, accLct: int, est: int, lct: int,
      accEst': int, accLct': int)
    requires WellPosed(p) && 0 < n < n' <= |p.dur| && Loose(p, views0, n, accEst, accLct)
    requires Seen(p, views0, n' - 1, est, lct)
    requires Lower(est, accEst) <= accEst' && accLct' <= Upper(lct, accLct)
    ensures Loose(p, views0, n', accEst', accLct')
  {
    forall e, l | Covers(p, views0, n', e, l) ensures e <= accEst' && accLct' <= l {
      assert Covers(p, views0, n, e, l) && TaskWindow(p, views0, n' - 1, e, l);
    }
  }

  // The bounds of a start that is or was unbound, or the value of one that is fixed.
  lemma SeenStart(s: Store, p: Pass, views0: map<nat, View>, k: int)
    requires Running(s, p, views0) && 0 <= k < |p.st|
    ensures views0[p.st[k]].cell == Ref ==>
      Seen(p, views0, k + 1, First(s.mem, p.st[k]), Last(s.mem, p.st[k]) + p.dur[k + 1])
    ensures s.views[p.st[k]].cell.Num? ==>
      Seen(p, views0, k + 1, s.views[p.st[k]].cell.n, s.views[p.st[k]].cell.n + p.dur[k + 1])
  {
    var d := p.st[k];
    assert Shape(s.mem, s.owner, d) && Descends(views0[d], s.views[d]);
    StaleBounds(s.mem, s.owner, d);
  }

  // No window that covers the first n tasks is too short for their work.
  ghost predicate WorkFits(p: Pass, views0: map<nat, View>, n: int) {
    0 < n <= |p.dur| && forall e, l :: Covers(p, views0, n, e, l) ==> Sum(p.dur[..n]) <= l - e
  }

  ghost predicate AllFit(p: Pass, views0: map<nat, View>, n: int) {
    forall i :: 3 <= i <= n ==> WorkFits(p, views0, i)
  }

  // A window shorter than the work in it: no plan.
  lemma TooMuchWork(p: Pass, views0: map<nat, View>, n: nat, accEst: int, accLct: int, accDuration: int)
    requires WellPosed(p) && Accumulated(p, views0, n, accEst, accLct, accDuration) && accLct - accEst < accDuration
    ensures NonePlans(p, views0)
  {
    forall w ensures !Plan(p, views0, w) {
      if Plan(p, views0, w) {
        forall i | 0 <= i < n ensures accEst <= w[i] && w[i] + p.dur[i] <= accLct {
          assert TaskIn(p, views0, UpTo(n)[i], accEst, accLct);
        }
        WindowHolds(w[..n], p.dur[..n], accEst, accLct);
      }
    }
  }

  // What accumulating one more task comes to: its work is counted, its window included, and the work fits.
  ghost predicate Accounted(p: Pass, views0: map<nat, View>, n: int, accEst: int, accLct: int, accDuration: int) {
    && n <= |p.dur| && Loose(p, views0, n, accEst, accLct) && accDuration <= accLct - accEst
  }

  // What the variables est, lct, acc_est, acc_lct and acc_duration hold between two tasks.
  datatype Acc = Acc(est: int, lct: int, accEst: int, accLct: int, accDuration: int)

  function FixedAcc(accEst: int, accLct: int, accDuration: int, n: int, d: int): Acc {
    Acc(n, n + d, Lower(n, accEst), Upper(n + d, accLct), accDuration + d)
  }

  function FreeAcc(accEst: int, accLct: int, accDuration: int, est: int, lct: int, d: int): Acc {
    var rule := RuleUsed(accEst, accLct, accDuration, est, lct, d, accLct - accDuration - d);
    Acc(est, lct, NextEst(rule, accEst, est), NextLct(rule, accLct, lct), accDuration + d)
  }

  // est and lct are what the macro leaves in the variables of those names.
  method EdgeFinder(s: Store, ghost p: Pass, ghost views0: map<nat, View>, ghost k: int, accEst: int, accLct: int,
      accDuration: int, start: Arg, duration: int)
    returns (ok: bool, est: int, lct: int, accEst': int, accLct': int, accDuration': int)
    requires Running(s, p, views0) && 1 <= k < |p.st| && duration == p.dur[k + 1]
    requires Accumulated(p, views0, k + 1, accEst, accLct, accDuration) && Loose(p, views0, k + 1, accEst, accLct)
    requires start.Int? ==>
      TaskIn(p, views0, k + 1, start.n, start.n + duration) && Seen(p, views0, k + 1, start.n, start.n + duration)
    requires start.Susp? ==> start.d == p.st[k] && views0[p.st[k]].cell == Ref
    modifies s`mem, s`trail, s`views
    ensures s.Valid() && AreVars(s.views, p.st) && OnlyVars(views0, s.views, p.st)
    ensures !ok ==> NonePlans(p, views0)
    ensures ok ==> Running(s, p, views0) && TaskIn(p, views0, k + 1, est, lct)
    ensures ok ==> Accumulated(p, views0, k + 2, accEst', accLct', accDuration')
    ensures ok ==> Accounted(p, views0, k + 2, accEst', accLct', accDuration')
    ensures ok ==> Seen(p, views0, k + 1, est, lct)
    ensures Changed(old(s.views), s.views, p.st[k])
    ensures start.Int? ==> s.views == old(s.views)
    ensures var a := Acc(est, lct, accEst', accLct', accDuration');
      match start
      case Int(n) => a == FixedAcc(accEst, accLct, accDuration, n, duration)
      case Susp(d) => ok ==> a == FreeAcc(accEst, accLct, accDuration, First(old(s.mem), d), Last(old(s.mem), d) +
        duration, duration)
    ensures start.Susp? && ok ==>
        CutByGroup(old(s.views)[start.d], s.views[start.d], old(s.mem), start.d, accEst, accLct, accDuration, duration,
            accLct - accDuration - duration, true)
  {
    accEst', accLct', accDuration' := accEst, accLct, accDuration + duration;
    match start {
      case Int(n) =>
        est, lct := n, n + duration;
        accEst', accLct' := Lower(est, accEst), Upper(lct, accLct);
        AccumulateStep(p, views0, k + 1, accEst, accLct, accDuration, est, lct, accEst', accLct');
        ok := true;
      case Susp(d) =>
        SeenStart(s, p, views0, k);
        ok, est, lct, accEst', accLct' := EdgeFinderVar(s, p, views0, k, accEst, accLct, accDuration, d, duration);
        if !ok {
          return;
        }
    }
    ok := WorkTest(p, views0, k + 1, accEst, accLct, est, lct, accEst', accLct', accDuration');
  }

  // Does the work accumulated fit the window accumulated?
  method WorkTest(ghost p: Pass, ghost views0: map<nat, View>, ghost n: nat, ghost accEst: int, ghost accLct: int,
      ghost est: int, ghost lct: int, accEst': int, accLct': int, accDuration': int)
    returns (ok: bool)
    requires WellPosed(p) && 0 < n < |p.dur| && Loose(p, views0, n, accEst, accLct) && Seen(p, views0, n, est, lct)
    requires Lower(est, accEst) <= accEst' && accLct' <= Upper(lct, accLct)
    requires Accumulated(p, views0, n + 1, accEst', accLct', accDuration')
    ensures ok ==> Accounted(p, views0, n + 1, accEst', accLct', accDuration')
    ensures !ok ==> NonePlans(p, views0)
  {
    LooseStep(p, views0, n, n + 1, accEst, accLct, est, lct, accEst', accLct');
    ok := accLct' - accEst' >= accDuration';
    if !ok {
      TooMuchWork(p, views0, n + 1, accEst', accLct', accDuration');
    }
  }

  method EdgeFinderVar(s: Store, ghost p: Pass, ghost views0: map<nat, View>, ghost k: int, accEst: int, accLct: int,
      accDuration: int, d: nat, duration: int)
    returns (ok: bool, est: int, lct: int, accEst1: int, accLct1: int)
    requires Running(s, p, views0) && 1 <= k < |p.st| && duration == p.dur[k + 1] && d == p.st[k]
    requires views0[d].cell == Ref
    requires Accumulated(p, views0, k + 1, accEst, accLct, accDuration)
    modifies s`mem, s`trail, s`views
    ensures s.Valid() && AreVars(s.views, p.st) && OnlyVars(views0, s.views, p.st)
    ensures !ok ==> NonePlans(p, views0)
    ensures ok ==> Running(s, p, views0) && Accumulated(p, views0, k + 2, accEst1, accLct1, accDuration + duration)
    ensures TaskIn(p, views0, k + 1, est, lct)
    ensures Acc(est, lct, accEst1, accLct1, accDuration + duration) ==
      FreeAcc(accEst, accLct, accDuration, First(old(s.mem), d), Last(old(s.mem), d) + duration, duration)
    ensures CutByGroup(old(s.views)[d], s.views[d], old(s.mem), d, accEst, accLct, accDuration, duration,
        accLct - accDuration - duration, ok)
    ensures Changed(old(s.views), s.views, d)
  {
    ReadWindow(s, p, views0, k);
    est, lct := First(s.mem, d), Last(s.mem, d) + duration;
    var rule;
    ok, rule := AccRules(s, p, views0, k, accEst, accLct, accDuration, d, duration);
    accEst1, accLct1 := NextWindow(p, views0, k + 1, accEst, accLct, accDuration, est, lct, duration, rule);
  }

  // The rules for all tasks so far.
  method AccRules(s: Store, ghost p: Pass, ghost views0: map<nat, View>, ghost k: int, accEst: int, accLct: int,
      accDuration: int, d: nat, duration: int)
    returns (ok: bool, rule: Rule)
    requires Running(s, p, views0) && 1 <= k < |p.st| && duration == p.dur[k + 1] && d == p.st[k]
    requires views0[d].cell == Ref && Accumulated(p, views0, k + 1, accEst, accLct, accDuration)
    requires TaskIn(p, views0, k + 1, First(s.mem, d), Last(s.mem, d) + duration)
    modifies s`mem, s`trail, s`views
    ensures s.Valid() && AreVars(s.views, p.st) && OnlyVars(views0, s.views, p.st)
    ensures if ok then Running(s, p, views0) else NonePlans(p, views0)
    ensures rule == RuleUsed(accEst, accLct, accDuration, First(old(s.mem), d), Last(old(s.mem), d) + duration,
        duration, accLct - accDuration - duration)
    ensures rule == Before ==> TaskIn(p, views0, k + 1, First(old(s.mem), d), accLct - accDuration)
    ensures rule == After ==> TaskIn(p, views0, k + 1, accEst + accDuration, Last(old(s.mem), d) + duration)
    ensures CutByGroup(old(s.views)[d], s.views[d], old(s.mem), d, accEst, accLct, accDuration, duration,
        accLct - accDuration - duration, ok)
    ensures Changed(old(s.views), s.views, d)
  {
    UpToGroup(p, views0, k + 1, accEst, accLct, accDuration);
    var newLst := accLct - accDuration - duration;
    ok, rule := ApplyRules(s, p, views0, k, UpTo(k + 1), accEst, accLct, accDuration, d, duration, newLst);
  }

  // The window goes on with the old end when the task was cut to come first, and with the old beginning when it was cut
  // to come last.
  function NextEst(rule: Rule, accEst: int, est: int): int {
    if rule == After then accEst else Lower(est, accEst)
  }

  function NextLct(rule: Rule, accLct: int, lct: int): int {
    if rule == Before then accLct else Upper(lct, accLct)
  }

  // acc_est1 and acc_lct1
  method NextWindow(ghost p: Pass, ghost views0: map<nat, View>, ghost n: nat, accEst: int, accLct: int,
      ghost accDuration: int, est: int, lct: int, ghost duration: int, rule: Rule)
    returns (accEst1: int, accLct1: int)
    requires WellPosed(p) && Accumulated(p, views0, n, accEst, accLct, accDuration) && n < |p.dur|
    requires duration == p.dur[n]
    requires TaskIn(p, views0, n, est, lct)
    requires rule == Before ==> TaskIn(p, views0, n, est, accLct - accDuration)
    requires rule == After ==> TaskIn(p, views0, n, accEst + accDuration, lct)
    requires rule == RuleUsed(accEst, accLct, accDuration, est, lct, duration, accLct - accDuration - duration)
    ensures Acc(est, lct, accEst1, accLct1, accDuration + duration) ==
      FreeAcc(accEst, accLct, accDuration, est, lct, duration)
    ensures Accumulated(p, views0, n + 1, accEst1, accLct1, accDuration + duration)
  {
    accEst1, accLct1 := Lower(est, accEst), Upper(lct, accLct);
    if rule == Before {
      accLct1 := accLct;
    } else if rule == After {
      accEst1 := accEst;
    }
    SumPositive(p.dur[..n]);
    AccumulateRule(p, views0, n, accEst, accLct, accDuration, est, lct, duration, rule, accEst1, accLct1);
  }

  lemma AccumulateRule(p: Pass, views0: map<nat, View>, n: nat, accEst: int, accLct: int, accDuration: int, est: int,
      lct: int, duration: int, rule: Rule, accEst1: int, accLct1: int)
    requires WellPosed(p) && Accumulated(p, views0, n, accEst, accLct, accDuration) && n < |p.dur|
    requires duration == p.dur[n] && accDuration >= 0
    requires TaskIn(p, views0, n, est, lct)
    requires rule == Before ==> TaskIn(p, views0, n, est, accLct - accDuration)
    requires rule == After ==> TaskIn(p, views0, n, accEst + accDuration, lct)
    requires accEst1 == NextEst(rule, accEst, est) && accLct1 == NextLct(rule, accLct, lct)
    ensures Accumulated(p, views0, n + 1, accEst1, accLct1, accDuration + duration)
  {
    match rule
    case Neither => AccumulateStep(p, views0, n, accEst, accLct, accDuration, est, lct, accEst1, accLct1);
    case Before => AccumulateStep(p, views0, n, accEst, accLct, accDuration, est, accLct - accDuration, accEst1,
      accLct1);
    case After => AccumulateStep(p, views0, n, accEst, accLct, accDuration, accEst + accDuration, lct, accEst1,
      accLct1);
  }

  // ---- What a pass does, task by task ----

  // Both cuts of a free start: first by the seed and the task before, then by all tasks so far.
  ghost predicate CutTwice(v: View, mid: View, v': View, e: int, l: int, w: int, a: Acc, d: int, first: int, last: int,
      est: int, lst: int) {
    && Bounds(v.described, first, last) && Bounds(mid.described, est, lst)
    && CutTo(v, mid, RuleLo(e, l, w, first, last + d, d), RuleHi(e, l, w, last + d, d, l - w), true)
    && CutTo(mid, v', RuleLo(a.accEst, a.accLct, a.accDuration, est, lst + d, d),
         RuleHi(a.accEst, a.accLct, a.accDuration, lst + d, d, a.accLct - a.accDuration - d), true)
  }

  ghost predicate FreeTurn(v: View, v': View, e: int, l: int, w: int, a: Acc, a': Acc, d: int) {
    exists mid, first, last, est, lst ::
      && CutTwice(v, mid, v', e, l, w, a, d, first, last, est, lst)
      && a' == FreeAcc(a.accEst, a.accLct, a.accDuration, est, lst + d, d)
  }

  // The turn of task k, with the program's variables at a before and at a' after.
  ghost predicate TurnMade(p: Pass, k: int, v1: map<nat, View>, v2: map<nat, View>, a: Acc, a': Acc) {
    && 1 < k < |p.dur| && k <= |p.st| && p.st[k - 1] in v1 && Changed(v1, v2, p.st[k - 1])
    && a'.accDuration <= a'.accLct - a'.accEst
    && var x, d, e, l, w := p.st[k - 1], p.dur[k], Lower(p.est0, a.est), Upper(p.lct0, a.lct), p.dur[0] + p.dur[k - 1];
    match v1[x].cell
    case Num(n) =>
      && v2 == v1 && w + d <= Upper(l, n + d) - Lower(e, n)
      && a' == FixedAcc(a.accEst, a.accLct, a.accDuration, n, d)
    case Ref => FreeTurn(v1[x], v2[x], e, l, w, a, a', d)
  }

  // What the variables hold after the seed and the first task.
  ghost predicate StartAcc(p: Pass, v: map<nat, View>, a: Acc) {
    && |p.dur| > 1 && |p.st| > 0 && p.st[0] in v
    && exists est, lst ::
      && Bounds(Domain(v[p.st[0]]), est, lst)
      && a == Acc(est, lst + p.dur[1], Lower(est, p.est0), Upper(lst + p.dur[1], p.lct0), p.dur[0] + p.dur[1])
  }

  // A pass over the first n tasks.
  ghost predicate PassMade(p: Pass, v0: map<nat, View>, v: map<nat, View>, n: nat, a: Acc)
    decreases n, 1
  {
    if n <= 2 then v == v0 && StartAcc(p, v0, a) else exists u, b :: PassMadeBy(p, v0, v, n, a, u, b)
  }

  // The last turn went from u and b to v and a.
  ghost predicate PassMadeBy(p: Pass, v0: map<nat, View>, v: map<nat, View>, n: nat, a: Acc, u: map<nat, View>, b: Acc)
    decreases n, 0
  {
    n > 0 && PassMade(p, v0, u, n - 1, b) && TurnMade(p, n - 1, u, v, b, a)
  }

  lemma PassMadeStep(p: Pass, v0: map<nat, View>, u: map<nat, View>, v: map<nat, View>, n: nat, b: Acc, a: Acc)
    requires n >= 2 && PassMade(p, v0, u, n, b) && TurnMade(p, n, u, v, b, a)
    ensures PassMade(p, v0, v, n + 1, a)
  {
    assert PassMadeBy(p, v0, v, n + 1, a, u, b);
  }

  // ---- What the turns leave, in terms of the values at the start ----

  // The start t respects both rules for a group with the window e..l and the duration w.
  ghost predicate Allowed(t: int, e: int, l: int, w: int, est: int, lct: int, d: int, newLst: int) {
    && (MustPrecede(e, l, w, lct, d) ==> t <= newLst)
    && (Lower(e, est) + w + d > l ==> e + w <= t || t <= newLst)
  }

  // No value of a free start is left that the rules exclude.
  ghost predicate LeavesAllowed(v: View, e: int, l: int, w: int, est: int, lct: int, d: int, newLst: int) {
    v.cell == Ref ==> forall t :: t in v.described ==> Allowed(t, e, l, w, est, lct, d, newLst)
  }

  // Cutting by narrower windows excludes at least as much.
  lemma CutAllowed(v: View, v': View, e0: int, l0: int, w: int, est0: int, lct0: int, d: int, newLst0: int, e: int,
      l: int, est: int, lct: int, newLst: int)
    requires CutTo(v, v', RuleLo(e0, l0, w, est0, lct0, d), RuleHi(e0, l0, w, lct0, d, newLst0), true)
    requires e <= e0 && l0 <= l && est <= est0 && lct0 <= lct && newLst - l == newLst0 - l0
    ensures LeavesAllowed(v', e, l, w, est, lct, d, newLst)
  {
  }

  // Fewer values are described, and what was bound is bound.
  ghost predicate Narrower(v: View, v': View) {
    v'.described <= v.described && (v.cell.Num? ==> v'.cell.Num?)
  }

  lemma StillAllowed(v: View, v': View, e: int, l: int, w: int, est: int, lct: int, d: int, newLst: int)
    requires LeavesAllowed(v, e, l, w, est, lct, d, newLst) && Narrower(v, v')
    ensures LeavesAllowed(v', e, l, w, est, lct, d, newLst)
  {
  }

  // All values of the seed and of the task before k keep them in the window e..l.
  ghost predicate PairWindow(p: Pass, views0: map<nat, View>, k: int, e: int, l: int) {
    e <= p.est0 && p.lct0 <= l && TaskWindow(p, views0, k - 1, e, l)
  }

  // The seed and task k - 1 have had their say about task k: a fixed start leaves room for all three, a free one has
  // only values that the rules allow.
  ghost predicate PairDone(p: Pass, views0: map<nat, View>, views: map<nat, View>, k: int) {
    && 1 < k < |p.dur| && k <= |p.st| && p.st[k - 1] in views0 && p.st[k - 1] in views
    && forall e, l, est, lct :: PairWindow(p, views0, k, e, l) && TaskWindow(p, views0, k, est, lct) ==>
        var w := p.dur[0] + p.dur[k - 1];
        && (views0[p.st[k - 1]].cell.Num? ==> w + p.dur[k] <= Upper(l, lct) - Lower(e, est))
        && LeavesAllowed(views[p.st[k - 1]], e, l, w, est, lct, p.dur[k], l - w)
  }

  // So have all tasks before task k together.
  ghost predicate PrefixDone(p: Pass, views0: map<nat, View>, views: map<nat, View>, k: int) {
    && 0 < k < |p.dur| && k <= |p.st| && p.st[k - 1] in views
    && forall e, l, est, lct :: Covers(p, views0, k, e, l) && TaskWindow(p, views0, k, est, lct) ==>
        var w := Sum(p.dur[..k]);
        LeavesAllowed(views[p.st[k - 1]], e, l, w, est, lct, p.dur[k], l - w - p.dur[k])
  }

  ghost predicate TurnsDone(p: Pass, views0: map<nat, View>, views: map<nat, View>, n: int) {
    forall k :: 1 < k < n ==> PairDone(p, views0, views, k) && PrefixDone(p, views0, views, k)
  }

  // What one turn leaves.
  lemma TurnLeaves(p: Pass, views0: map<nat, View>, v1: map<nat, View>, v2: map<nat, View>, k: int, a: Acc, a': Acc)
    requires WellPosed(p) && TurnMade(p, k, v1, v2, a, a')
    requires p.st[k - 1] in views0 && Descends(views0[p.st[k - 1]], v1[p.st[k - 1]])
    requires Seen(p, views0, k - 1, a.est, a.lct) && Loose(p, views0, k, a.accEst, a.accLct)
    requires a.accDuration == Sum(p.dur[..k])
    ensures PairDone(p, views0, v2, k) && PrefixDone(p, views0, v2, k)
  {
    var x, d, e, l, w := p.st[k - 1], p.dur[k], Lower(p.est0, a.est), Upper(p.lct0, a.lct), p.dur[0] + p.dur[k - 1];
    match v1[x].cell
    case Num(n) => PairFixedTurn(p, views0, v2, k, a.est, a.lct, n);
    case Ref =>
      var mid, first, last, est, lst :| CutTwice(v1[x], mid, v2[x], e, l, w, a, d, first, last, est, lst);
      PairFreeTurn(p, views0, v1[x], mid, v2, k, a, first, last, est, lst);
      PrefixFreeTurn(p, views0, v1[x], mid, v2, k, a, first, last, est, lst);
  }

  // Narrower values lie in the windows of the values at the start.
  lemma WindowsHold(p: Pass, views0: map<nat, View>, v: View, mid: View, k: int, lo: int, hi: int, est: int, lct: int)
    requires TaskWindow(p, views0, k, est, lct) && Descends(views0[p.st[k - 1]], v) && v.cell == Ref
    requires mid.described <= v.described && Bounds(mid.described, lo, hi)
    ensures est <= lo && hi + p.dur[k] <= lct
  {
    assert lo in Domain(views0[p.st[k - 1]]) && hi in Domain(views0[p.st[k - 1]]);
  }

  lemma PairFreeTurn(p: Pass, views0: map<nat, View>, v: View, mid: View, v2: map<nat, View>, k: int, a: Acc,
      first: int, last: int, est: int, lst: int)
    requires WellPosed(p) && 1 < k <= |p.st| && p.st[k - 1] in views0 && p.st[k - 1] in v2 && v.cell == Ref
    requires Descends(views0[p.st[k - 1]], v) && Seen(p, views0, k - 1, a.est, a.lct)
    requires CutTwice(v, mid, v2[p.st[k - 1]], Lower(p.est0, a.est), Upper(p.lct0, a.lct), p.dur[0] + p.dur[k - 1], a,
        p.dur[k], first, last, est, lst)
    ensures PairDone(p, views0, v2, k)
  {
    var x, e0, l0, w, d := p.st[k - 1], Lower(p.est0, a.est), Upper(p.lct0, a.lct), p.dur[0] + p.dur[k - 1], p.dur[k];
    forall e, l, est0, lct0 | PairWindow(p, views0, k, e, l) && TaskWindow(p, views0, k, est0, lct0)
      ensures LeavesAllowed(v2[x], e, l, w, est0, lct0, d, l - w) {
      WindowsHold(p, views0, v, v, k, first, last, est0, lct0);
      CutAllowed(v, mid, e0, l0, w, first, last + d, d, l0 - w, e, l, est0, lct0, l - w);
      StillAllowed(mid, v2[x], e, l, w, est0, lct0, d, l - w);
    }
  }

  lemma PrefixFreeTurn(p: Pass, views0: map<nat, View>, v: View, mid: View, v2: map<nat, View>, k: int, a: Acc,
      first: int, last: int, est: int, lst: int)
    requires WellPosed(p) && 1 < k <= |p.st| && p.st[k - 1] in views0 && p.st[k - 1] in v2 && v.cell == Ref
    requires Descends(views0[p.st[k - 1]], v) && Loose(p, views0, k, a.accEst, a.accLct)
    requires a.accDuration == Sum(p.dur[..k])
    requires CutTwice(v, mid, v2[p.st[k - 1]], Lower(p.est0, a.est), Upper(p.lct0, a.lct), p.dur[0] + p.dur[k - 1], a,
        p.dur[k], first, last, est, lst)
    ensures PrefixDone(p, views0, v2, k)
  {
    var x, w, d := p.st[k - 1], a.accDuration, p.dur[k];
    forall e, l, est0, lct0 | Covers(p, views0, k, e, l) && TaskWindow(p, views0, k, est0, lct0)
      ensures LeavesAllowed(v2[x], e, l, w, est0, lct0, d, l - w - d) {
      WindowsHold(p, views0, v, mid, k, est, lst, est0, lct0);
      CutAllowed(mid, v2[x], a.accEst, a.accLct, w, est, lst + d, d, a.accLct - w - d, e, l, est0, lct0, l - w - d);
    }
  }

  lemma PairFixedTurn(p: Pass, views0: map<nat, View>, v: map<nat, View>, k: int, est1: int, lct1: int, n: int)
    requires WellPosed(p) && 1 < k <= |p.st| && p.st[k - 1] in views0 && p.st[k - 1] in v
    requires Descends(views0[p.st[k - 1]], v[p.st[k - 1]]) && v[p.st[k - 1]].cell == Num(n)
    requires Seen(p, views0, k - 1, est1, lct1)
    requires p.dur[0] + p.dur[k - 1] + p.dur[k] <=
      Upper(Upper(p.lct0, lct1), n + p.dur[k]) - Lower(Lower(p.est0, est1), n)
    ensures PairDone(p, views0, v, k)
  {
    var x := p.st[k - 1];
    forall e, l, est, lct | PairWindow(p, views0, k, e, l) && TaskWindow(p, views0, k, est, lct)
      ensures views0[x].cell.Num? ==> p.dur[0] + p.dur[k - 1] + p.dur[k] <= Upper(l, lct) - Lower(e, est) {
      if views0[x].cell.Num? {
        assert n in Domain(views0[x]);
      }
    }
  }

  // What was excluded stays excluded.
  lemma PairLater(p: Pass, views0: map<nat, View>, v1: map<nat, View>, v2: map<nat, View>, k: int)
    requires PairDone(p, views0, v1, k) && p.st[k - 1] in v2
    requires Narrower(v1[p.st[k - 1]], v2[p.st[k - 1]])
    ensures PairDone(p, views0, v2, k)
  {
    var x, w := p.st[k - 1], p.dur[0] + p.dur[k - 1];
    forall e, l, est, lct | PairWindow(p, views0, k, e, l) && TaskWindow(p, views0, k, est, lct)
      ensures LeavesAllowed(v2[x], e, l, w, est, lct, p.dur[k], l - w) {
      StillAllowed(v1[x], v2[x], e, l, w, est, lct, p.dur[k], l - w);
    }
  }

  lemma PrefixLater(p: Pass, views0: map<nat, View>, v1: map<nat, View>, v2: map<nat, View>, k: int)
    requires PrefixDone(p, views0, v1, k) && p.st[k - 1] in v2
    requires Narrower(v1[p.st[k - 1]], v2[p.st[k - 1]])
    ensures PrefixDone(p, views0, v2, k)
  {
    var x, w, d := p.st[k - 1], Sum(p.dur[..k]), p.dur[k];
    forall e, l, est, lct | Covers(p, views0, k, e, l) && TaskWindow(p, views0, k, est, lct)
      ensures LeavesAllowed(v2[x], e, l, w, est, lct, d, l - w - d) {
      StillAllowed(v1[x], v2[x], e, l, w, est, lct, d, l - w - d);
    }
  }

  lemma TurnsLater(p: Pass, views0: map<nat, View>, v1: map<nat, View>, v2: map<nat, View>, n: int)
    requires TurnsDone(p, views0, v1, n) && AllDescend(v1, v2, p.st)
    ensures TurnsDone(p, views0, v2, n)
  {
    forall k | 1 < k < n ensures PairDone(p, views0, v2, k) && PrefixDone(p, views0, v2, k) {
      assert PairDone(p, views0, v1, k);
      assert Descends(v1[p.st[k - 1]], v2[p.st[k - 1]]);
      PairLater(p, views0, v1, v2, k);
      PrefixLater(p, views0, v1, v2, k);
    }
  }

  // One more task is dealt with.
  lemma TurnsStep(p: Pass, views0: map<nat, View>, v1: map<nat, View>, v2: map<nat, View>, n: int)
    requires WellPosed(p) && TurnsDone(p, views0, v1, n) && 1 < n <= |p.st| && Changed(v1, v2, p.st[n - 1])
    requires PairDone(p, views0, v2, n) && PrefixDone(p, views0, v2, n)
    ensures TurnsDone(p, views0, v2, n + 1)
  {
    forall k | 1 < k < n ensures PairDone(p, views0, v2, k) && PrefixDone(p, views0, v2, k) {
      assert PairDone(p, views0, v1, k) && p.st[k - 1] != p.st[n - 1];
      PairLater(p, views0, v1, v2, k);
      PrefixLater(p, views0, v1, v2, k);
    }
  }

  // Windows that hold the values at the start hold those at a later time.
  lemma TaskWindowLater(p: Pass, views0: map<nat, View>, v1: map<nat, View>, k: int, e: int, l: int)
    requires AllDescend(views0, v1, p.st) && TaskWindow(p, views0, k, e, l)
    ensures TaskWindow(p, v1, k, e, l)
  {
    assert Descends(views0[p.st[k - 1]], v1[p.st[k - 1]]);
  }

  lemma CoversLater(p: Pass, views0: map<nat, View>, v1: map<nat, View>, n: int, e: int, l: int)
    requires AllDescend(views0, v1, p.st) && Covers(p, views0, n, e, l)
    ensures Covers(p, v1, n, e, l)
  {
    forall k | 0 <= k < n - 1 ensures p.st[k] in v1 && Within(Domain(v1[p.st[k]]), p.dur[k + 1], e, l) {
      assert Descends(views0[p.st[k]], v1[p.st[k]]);
    }
  }

  lemma TurnsEarlier(p: Pass, views0: map<nat, View>, v1: map<nat, View>, views: map<nat, View>, n: int)
    requires TurnsDone(p, v1, views, n) && AllDescend(views0, v1, p.st) && n <= |p.st| + 1
    ensures TurnsDone(p, views0, views, n)
  {
    forall k | 1 < k < n ensures PairDone(p, views0, views, k) && PrefixDone(p, views0, views, k) {
      assert PairDone(p, v1, views, k) && PrefixDone(p, v1, views, k);
      assert Descends(views0[p.st[k - 1]], v1[p.st[k - 1]]);
      PairEarlier(p, views0, v1, views, k);
      PrefixEarlier(p, views0, v1, views, k);
    }
  }

  lemma PairEarlier(p: Pass, views0: map<nat, View>, v1: map<nat, View>, views: map<nat, View>, k: int)
    requires PairDone(p, v1, views, k) && AllDescend(views0, v1, p.st)
    ensures PairDone(p, views0, views, k)
  {
    var x, w := p.st[k - 1], p.dur[0] + p.dur[k - 1];
    assert Descends(views0[x], v1[x]);
    forall e, l, est, lct | PairWindow(p, views0, k, e, l) && TaskWindow(p, views0, k, est, lct)
      ensures views0[x].cell.Num? ==> w + p.dur[k] <= Upper(l, lct) - Lower(e, est)
      ensures LeavesAllowed(views[x], e, l, w, est, lct, p.dur[k], l - w) {
      TaskWindowLater(p, views0, v1, k - 1, e, l);
      TaskWindowLater(p, views0, v1, k, est, lct);
      assert PairWindow(p, v1, k, e, l);
    }
  }

  lemma PrefixEarlier(p: Pass, views0: map<nat, View>, v1: map<nat, View>, views: map<nat, View>, k: int)
    requires PrefixDone(p, v1, views, k) && AllDescend(views0, v1, p.st)
    ensures PrefixDone(p, views0, views, k)
  {
    var x, w, d := p.st[k - 1], Sum(p.dur[..k]), p.dur[k];
    forall e, l, est, lct | Covers(p, views0, k, e, l) && TaskWindow(p, views0, k, est, lct)
      ensures LeavesAllowed(views[x], e, l, w, est, lct, d, l - w - d) {
      CoversLater(p, views0, v1, k, e, l);
      TaskWindowLater(p, views0, v1, k, est, lct);
    }
  }

  // ---- A free start and a window that is too short for the three ----

  // The pair's rules fail only when no value leaves the other two their time; they do not ask for the task's own.
  lemma ShortWindow(v: View, v': View, e: int, l: int, w: int, est: int, lct: int, d: int, ok: bool)
    requires forall t :: t in v.described ==> est <= t && t + d <= lct
    requires Upper(l, lct) - Lower(e, est) < w + d
    requires CutTo(v, v', RuleLo(e, l, w, est, lct, d), RuleHi(e, l, w, lct, d, l - w), ok)
    ensures ok <==> exists t :: t in v.described && t <= l - w
  {
    var r := Between(v.described, RuleLo(e, l, w, est, lct, d), RuleHi(e, l, w, lct, d, l - w));
    forall t ensures t in r <==> t in v.described && t <= l - w {
    }
    if ok {
      var t := SomeMember(r);
      assert t in v.described && t <= l - w;
    }
  }

  // A seed, a task before and a free task, three time units each, all from 0 to 8: the free start keeps 0, 1 and 2.
  lemma ShortWindowExample(v: View, v': View, ok: bool)
    requires v.described == {0, 1, 2, 3, 4, 5} && v.cell == Ref
    requires CutTo(v, v', RuleLo(0, 8, 6, 0, 8, 3), RuleHi(0, 8, 6, 8, 3, 2), ok)
    ensures ok && v'.described == {0, 1, 2}
  {
    assert Between(v.described, 0, 2) == {0, 1, 2};
    SizeTwo({0, 1, 2}, 0, 1);
  }

  lemma AccountedFits(p: Pass, views0: map<nat, View>, n: nat, accEst: int, accLct: int, accDuration: int)
    requires Accounted(p, views0, n, accEst, accLct, accDuration)
    requires Accumulated(p, views0, n, accEst, accLct, accDuration)
    ensures WorkFits(p, views0, n)
  {
  }

  // Fewer values left: what covers the old ones covers the new ones.
  lemma FitsEarlier(p: Pass, views0: map<nat, View>, v1: map<nat, View>, n: int)
    requires AllDescend(views0, v1, p.st) && WorkFits(p, v1, n) && n <= |p.st| + 1
    ensures WorkFits(p, views0, n)
  {
    forall e, l | Covers(p, views0, n, e, l) ensures Covers(p, v1, n, e, l) {
      CoversLater(p, views0, v1, n, e, l);
    }
  }
}
