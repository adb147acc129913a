// Propagation of c + a1*x1 + ... + an*xn >= 0: one forward pass over the bounds, one backward pass over the domains.
module LinearGe {
  import opened Layout
  import opened Sets
  import opened Stores
  import opened Region
  import opened Linear
  import opened LinearTerms

  // ---- What the propagator is for ----

  // x can be chosen for the k-th variable in some solution.
  ghost predicate Supported(c: int, a: seq<int>, doms: seq<set<int>>, k: int, x: int)
    requires 0 <= k < |doms|
  {
    exists v :: InDoms(v, doms) && SolvesGe(c, a, v) && v[k] == x
  }

  ghost predicate Satisfiable(c: int, a: seq<int>, doms: seq<set<int>>) {
    exists v :: InDoms(v, doms) && SolvesGe(c, a, v)
  }

  // Exactly the values that take part in a solution are left; failure means there is none;
  // a propagator that retires is satisfied by whatever its variables become.
  ghost predicate PropagatedGe(c: int, a: seq<int>, d0: seq<set<int>>, d1: seq<set<int>>, ok: bool, killed: bool) {
    && |d0| == |d1| == |a|
    && (ok <==> Satisfiable(c, a, d0))
    && (ok ==>
      && (forall k :: 0 <= k < |a| ==> d1[k] <= d0[k])
      && (forall v :: InDoms(v, d0) && SolvesGe(c, a, v) ==> InDoms(v, d1))
      && (forall k, x :: 0 <= k < |a| && x in d1[k] ==> Supported(c, a, d1, k, x)))
    && (ok && killed ==> forall v :: InDoms(v, d1) ==> SolvesGe(c, a, v))
  }

  ghost predicate Enough(a: int, v: int, slack: int) {
    a * v + slack >= 0
  }

  // The values that reach 0 when the other terms contribute slack.
  ghost function Kept(dom: set<int>, a: int, slack: int): set<int> {
    set v | v in dom && Enough(a, v, slack)
  }

  // The others' greatest contribution to the k-th value.
  ghost function Slack(c: int, a: seq<int>, lo: seq<int>, hi: seq<int>, k: int): int
    requires |a| == |lo| == |hi| && 0 <= k < |a|
  {
    c + Sum(Tops(a, lo, hi)) - Tops(a, lo, hi)[k]
  }

  ghost predicate KeptUpTo(c: int, a: seq<int>, lo: seq<int>, hi: seq<int>, d0: seq<set<int>>, d1: seq<set<int>>,
      from: int)
    requires |a| == |lo| == |hi| == |d0| == |d1|
  {
    forall k :: 0 <= from <= k < |a| ==> d1[k] == Kept(d0[k], a[k], Slack(c, a, lo, hi, k))
  }

  // Keeping the values with enough slack is exactly what the propagator is for.
  lemma KeptMeaning(c: int, a: seq<int>, lo: seq<int>, hi: seq<int>, d0: seq<set<int>>, d1: seq<set<int>>)
    requires |a| == |d0| == |d1| && AllBounds(d0, lo, hi) && c + Sum(Tops(a, lo, hi)) >= 0
    requires KeptUpTo(c, a, lo, hi, d0, d1, 0)
    ensures PropagatedGe(c, a, d0, d1, true, false)
  {
    BestReaches(a, d0, lo, hi);
    assert SolvesGe(c, a, Best(a, lo, hi));
    forall v | InDoms(v, d0) && SolvesGe(c, a, v) ensures InDoms(v, d1) {
      SolutionKept(c, a, lo, hi, d0, d1, v);
    }
    forall k, x | 0 <= k < |a| && x in d1[k] ensures Supported(c, a, d1, k, x) {
      BestWith(a, d0, lo, hi, k, x);
      assert Enough(a[k], x, Slack(c, a, lo, hi, k));
      var v := Best(a, lo, hi)[k := x];
      assert SolvesGe(c, a, v) && v[k] == x;
      assert InDoms(v, d1);
    }
  }

  lemma SolutionKept(c: int, a: seq<int>, lo: seq<int>, hi: seq<int>, d0: seq<set<int>>, d1: seq<set<int>>, v: seq<int>)
    requires |a| == |d0| == |d1| && AllBounds(d0, lo, hi) && KeptUpTo(c, a, lo, hi, d0, d1, 0)
    requires InDoms(v, d0) && SolvesGe(c, a, v)
    ensures InDoms(v, d1)
  {
    forall k | 0 <= k < |a| ensures v[k] in d1[k] {
      SolutionIn(c, a, lo, hi, d0, v, k);
    }
  }

  lemma SolutionIn(c: int, a: seq<int>, lo: seq<int>, hi: seq<int>, d0: seq<set<int>>, v: seq<int>, k: int)
    requires |a| == |d0| && AllBounds(d0, lo, hi) && InDoms(v, d0) && SolvesGe(c, a, v) && 0 <= k < |a|
    ensures v[k] in Kept(d0[k], a[k], Slack(c, a, lo, hi, k))
  {
    DotWithout(a, v, d0, lo, hi, k);
    assert Enough(a[k], v[k], Slack(c, a, lo, hi, k));
  }

  // Below 0 even at best: no solution.
  lemma NoSolution(c: int, a: seq<int>, lo: seq<int>, hi: seq<int>, d0: seq<set<int>>, d1: seq<set<int>>)
    requires |a| == |d0| == |d1| && AllBounds(d0, lo, hi) && c + Sum(Tops(a, lo, hi)) < 0
    ensures PropagatedGe(c, a, d0, d1, false, false)
  {
    forall v | InDoms(v, d0) ensures !SolvesGe(c, a, v) {
      DotBounds(a, v, d0, lo, hi);
    }
  }

  // Whatever values the variables take, the inequality holds.
  ghost predicate Entails(c: int, a: seq<int>, d: seq<set<int>>) {
    forall v :: InDoms(v, d) ==> SolvesGe(c, a, v)
  }

  // Each variable at the value that is worst for its term.
  ghost function Worst(a: seq<int>, lo: seq<int>, hi: seq<int>): (v: seq<int>)
    requires |a| == |lo| == |hi|
    ensures |v| == |a|
  {
    seq(|a|, k requires 0 <= k < |a| => if a[k] > 0 then lo[k] else hi[k])
  }

  lemma WorstReaches(a: seq<int>, d: seq<set<int>>, lo: seq<int>, hi: seq<int>)
    requires |a| == |d| && AllBounds(d, lo, hi)
    ensures InDoms(Worst(a, lo, hi), d) && Dot(a, Worst(a, lo, hi)) == Sum(Bots(a, lo, hi))
  {
    var w := Worst(a, lo, hi);
    forall k | 0 <= k < |a| ensures w[k] in d[k] {
      assert Bounds(d[k], lo[k], hi[k]);
    }
    DotIsSum(a, w);
    assert Terms(a, w) == Bots(a, lo, hi);
  }

  // The least value decides.
  lemma WorstDecides(c: int, a: seq<int>, d: seq<set<int>>, lo: seq<int>, hi: seq<int>)
    requires |a| == |d| && AllBounds(d, lo, hi)
    ensures Entails(c, a, d) <==> c + Sum(Bots(a, lo, hi)) >= 0
  {
    WorstReaches(a, d, lo, hi);
    forall v | InDoms(v, d) && c + Sum(Bots(a, lo, hi)) >= 0 ensures SolvesGe(c, a, v) {
      DotBounds(a, v, d, lo, hi);
    }
    if Entails(c, a, d) {
      assert SolvesGe(c, a, Worst(a, lo, hi));
    }
  }

  // At least 0 even at worst: everything is a solution.
  lemma Entailed(c: int, a: seq<int>, lo: seq<int>, hi: seq<int>, d0: seq<set<int>>)
    requires |a| == |d0| && AllBounds(d0, lo, hi) && c + Sum(Bots(a, lo, hi)) >= 0
    ensures PropagatedGe(c, a, d0, d0, true, true)
  {
    forall v | InDoms(v, d0) ensures SolvesGe(c, a, v) {
      DotBounds(a, v, d0, lo, hi);
    }
    BestReaches(a, d0, lo, hi);
    assert Satisfiable(c, a, d0);
    forall k, x | 0 <= k < |a| && x in d0[k] ensures Supported(c, a, d0, k, x) {
      BestWith(a, d0, lo, hi, k, x);
      assert Best(a, lo, hi)[k := x][k] == x;
    }
  }

  // The early return: when the terms before i at their worst and the rest at their best reach 0,
  // nothing is to be taken from the variables before i.
  lemma EarlyKept(c: int, a: seq<int>, lo: seq<int>, hi: seq<int>, doms: seq<set<int>>, i: int, k: int)
    requires |a| == |doms| && AllBounds(doms, lo, hi) && 0 <= k < i <= |a|
    requires c + Sum(Bots(a, lo, hi)[..i]) + Sum(Tops(a, lo, hi)[i..]) >= 0
    ensures Kept(doms[k], a[k], Slack(c, a, lo, hi, k)) == doms[k]
  {
    var b, t := Bots(a, lo, hi), Tops(a, lo, hi);
    SumSplit(t, i);
    var mixed := t[..i][k := b[k]];
    forall j | 0 <= j < i ensures b[..i][j] <= mixed[j] {
      assert Bounds(doms[j], lo[j], hi[j]);
      TermBounds(a[j], lo[j], hi[j], lo[j]);
    }
    SumLe(b[..i], mixed);
    SumUpdate(t[..i], k, b[k]);
    forall v | v in doms[k] ensures Enough(a[k], v, Slack(c, a, lo, hi, k)) {
      TermBounds(a[k], lo[k], hi[k], v);
    }
  }

  // ---- The backward pass ----

  // With one bound test deciding what is kept, a cut at the bound keeps it.
  lemma KeptAbove(dom: set<int>, a: int, slack: int, lo: int, hi: int, cut: int)
    requires Bounds(dom, lo, hi) && forall v :: Enough(a, v, slack) <==> v >= cut
    ensures Kept(dom, a, slack) == Between(dom, cut, hi)
    ensures cut <= lo ==> Kept(dom, a, slack) == dom
    ensures Kept(dom, a, slack) != {} <==> cut <= hi
    ensures cut <= hi ==> hi in Kept(dom, a, slack)
  {
    assert hi in Kept(dom, a, slack) <==> hi >= cut;
    if Kept(dom, a, slack) != {} {
      var v :| v in Kept(dom, a, slack);
    }
  }

  lemma KeptBelow(dom: set<int>, a: int, slack: int, lo: int, hi: int, cut: int)
    requires Bounds(dom, lo, hi) && forall v :: Enough(a, v, slack) <==> v <= cut
    ensures Kept(dom, a, slack) == Between(dom, lo, cut)
    ensures hi <= cut ==> Kept(dom, a, slack) == dom
    ensures Kept(dom, a, slack) != {} <==> lo <= cut
    ensures lo <= cut ==> lo in Kept(dom, a, slack)
  {
    assert lo in Kept(dom, a, slack) <==> lo <= cut;
    if Kept(dom, a, slack) != {} {
      var v :| v in Kept(dom, a, slack);
    }
  }

  lemma KeptSingle(n: int, a: int, slack: int)
    ensures Kept({n}, a, slack) == if Enough(a, n, slack) then {n} else {}
  {
  }

  // REDUCE_DOMAIN_GE_nooverflow_p and _p1: first is what the terms before must reach.
  method ReduceGePos(s: Store, a: int, arg: Arg, ghost d: nat, u1: int, l2: int) returns (ok: bool, first: int)
    requires s.Valid() && d in s.views && a > 0 && arg == Deref(s.mem, d)
    modifies s`mem, s`trail, s`views
    ensures s.Valid() && Changed(old(s.views), s.views, d)
    ensures ok <==> Kept(Domain(old(s.views[d])), a, u1 - l2) != {}
    ensures ok ==> Domain(s.views[d]) == Kept(Domain(old(s.views[d])), a, u1 - l2)
    ensures ok ==> first == l2 - a * old(HiOf(s.mem, d))
  {
    VarBounds(s, d);
    ghost var dom, lo, hi := Domain(s.views[d]), LoOf(s.mem, d), HiOf(s.mem, d);
    first := l2 - u1;
    match arg
    case Susp(dv) =>
      var dvFirst, dvLast := First(s.mem, dv), Last(s.mem, dv);
      var first0 := first;
      if a != 1 {
        first0 := UpDiv(first, a);
      }
      ghost var slack := u1 - l2;
      forall v ensures Enough(a, v, slack) <==> v >= first0 {
      }
      KeptAbove(dom, a, slack, lo, hi, first0);
      ok := true;
      if first0 > dvFirst {
        ok, dvFirst, dvLast := RegionMin(s, dv, first0);
      }
      first := l2 - a * dvLast;
    case Int(n) =>
      KeptSingle(n, a, u1 - l2);
      var t := a * n;
      if t < first {
        return false, first;
      }
      return true, l2 - t;
  }

  // REDUCE_DOMAIN_GE_nooverflow_m and _m1; b is minus the coefficient.
  method ReduceGeNeg(s: Store, b: int, arg: Arg, ghost d: nat, u1: int, l2: int) returns (ok: bool, first: int)
    requires s.Valid() && d in s.views && b > 0 && arg == Deref(s.mem, d)
    modifies s`mem, s`trail, s`views
    ensures s.Valid() && Changed(old(s.views), s.views, d)
    ensures ok <==> Kept(Domain(old(s.views[d])), -b, u1 - l2) != {}
    ensures ok ==> Domain(s.views[d]) == Kept(Domain(old(s.views[d])), -b, u1 - l2)
    ensures ok ==> first == l2 + b * old(LoOf(s.mem, d))
  {
    VarBounds(s, d);
    ghost var dom, lo, hi := Domain(s.views[d]), LoOf(s.mem, d), HiOf(s.mem, d);
    var last := u1 - l2;
    match arg
    case Susp(dv) =>
      var dvFirst, dvLast := First(s.mem, dv), Last(s.mem, dv);
      var last0 := last;
      if b != 1 {
        last0 := LowDiv(last, b);
      }
      ghost var a, slack := -b, u1 - l2;
      forall v ensures Enough(a, v, slack) <==> v <= last0 {
        MinusProduct(b, v);
      }
      KeptBelow(dom, a, slack, lo, hi, last0);
      ok := true;
      if last0 < dvLast {
        ok, dvFirst, dvLast := RegionMax(s, dv, last0);
      }
      first := l2 + b * dvFirst;
    case Int(n) =>
      KeptSingle(n, -b, u1 - l2);
      var t := b * n;
      MinusProduct(b, n);
      if t > last {
        return false, last;
      }
      return true, t + l2;
  }

  // No value of the k-th variable has enough slack: no solution.
  lemma NoneKept(c: int, a: seq<int>, lo: seq<int>, hi: seq<int>, d0: seq<set<int>>, d1: seq<set<int>>, k: int)
    requires |a| == |d0| == |d1| && AllBounds(d0, lo, hi) && 0 <= k < |a|
    requires Kept(d0[k], a[k], Slack(c, a, lo, hi, k)) == {}
    ensures PropagatedGe(c, a, d0, d1, false, false)
  {
    forall v | InDoms(v, d0) ensures !SolvesGe(c, a, v) {
      if SolvesGe(c, a, v) {
        SolutionIn(c, a, lo, hi, d0, v, k);
      }
    }
  }

  // The variables from i on are done, those before are untouched.
  ghost predicate DoneFrom(views0: map<nat, View>, views: map<nat, View>, c: int, a: seq<int>, x: seq<nat>,
      lo: seq<int>, hi: seq<int>, i: int)
    requires |a| == |x| == |lo| == |hi| && AreVars(views0, x)
  {
    && AreVars(views, x) && OnlyVars(views0, views, x)
    && KeptUpTo(c, a, lo, hi, DomsOf(views0, x), DomsOf(views, x), i)
    && (forall k :: 0 <= k < i <= |x| ==> views[x[k]] == views0[x[k]])
  }

  lemma DoneStep(views0: map<nat, View>, v1: map<nat, View>, v2: map<nat, View>, c: int, a: seq<int>, x: seq<nat>,
      lo: seq<int>, hi: seq<int>, i: int)
    requires |a| == |x| == |lo| == |hi| && AreVars(views0, x) && Distinct(x) && 0 < i <= |x|
    requires DoneFrom(views0, v1, c, a, x, lo, hi, i) && Changed(v1, v2, x[i - 1])
    requires Domain(v2[x[i - 1]]) == Kept(Domain(v1[x[i - 1]]), a[i - 1], Slack(c, a, lo, hi, i - 1))
    ensures DoneFrom(views0, v2, c, a, x, lo, hi, i - 1)
  {
    DomsStep(v1, v2, x, i - 1);
    OnlyVarsStep(views0, v1, v2, x, x[i - 1]);
  }

  // One turn of the backward loop.
  method ReduceTurn(s: Store, ghost views0: map<nat, View>, ghost c: int, a: seq<int>, ghost x: seq<nat>,
      ghost lo: seq<int>, ghost hi: seq<int>, i: int, arg: Arg, u1: int, l2: int)
    returns (ok: bool, first: int)
    requires s.Valid() && |a| == |x| == |lo| == |hi| && AreVars(views0, x) && Distinct(x) && 0 < i <= |x|
    requires a[i - 1] != 0
    requires AllBounds(DomsOf(views0, x), lo, hi) && DoneFrom(views0, s.views, c, a, x, lo, hi, i)
    requires arg == ArgOf(views0[x[i - 1]], x[i - 1]) && u1 - l2 == Slack(c, a, lo, hi, i - 1)
    modifies s`mem, s`trail, s`views
    ensures s.Valid() && AreVars(s.views, x) && OnlyVars(views0, s.views, x)
    ensures ok ==> DoneFrom(views0, s.views, c, a, x, lo, hi, i - 1) && first == l2 - Tops(a, lo, hi)[i - 1]
    ensures !ok ==> Kept(DomsOf(views0, x)[i - 1], a[i - 1], Slack(c, a, lo, hi, i - 1)) == {}
  {
    ghost var d := x[i - 1];
    VarBounds(s, d);
    DerefView(s, d);
    BoundsUnique(Domain(s.views[d]), LoOf(s.mem, d), HiOf(s.mem, d), lo[i - 1], hi[i - 1]) by {
      assert Domain(s.views[d]) == DomsOf(views0, x)[i - 1];
    }
    if a[i - 1] > 0 {
      ok, first := ReduceGePos(s, a[i - 1], arg, d, u1, l2);
    } else {
      var b := -a[i - 1];
      MinusProduct(a[i - 1], lo[i - 1]);
      ok, first := ReduceGeNeg(s, b, arg, d, u1, l2);
    }
    OnlyVarsStep(views0, old(s.views), s.views, x, d);
    if ok {
      DoneStep(views0, old(s.views), s.views, c, a, x, lo, hi, i);
    }
  }

  lemma SlackSplit(c: int, a: seq<int>, lo: seq<int>, hi: seq<int>, t: seq<int>, i: int)
    requires |a| == |lo| == |hi| && t == Tops(a, lo, hi) && 0 < i <= |a|
    ensures c + Sum(t[..i - 1]) + Sum(t[i..]) == Slack(c, a, lo, hi, i - 1)
    ensures Sum(t[i - 1..]) == t[i - 1] + Sum(t[i..])
  {
    SumSplit(t, i);
    SumSplit(t, i - 1);
    SumPrefix(t, i - 1);
  }

  // Leaving the loop early is as good as finishing it.
  lemma EarlyDone(views0: map<nat, View>, views: map<nat, View>, c: int, a: seq<int>, x: seq<nat>, lo: seq<int>,
      hi: seq<int>, i: int)
    requires |a| == |x| == |lo| == |hi| && AreVars(views0, x) && AllBounds(DomsOf(views0, x), lo, hi)
    requires 0 <= i <= |x| && DoneFrom(views0, views, c, a, x, lo, hi, i)
    requires c + Sum(Bots(a, lo, hi)[..i]) + Sum(Tops(a, lo, hi)[i..]) >= 0
    ensures KeptUpTo(c, a, lo, hi, DomsOf(views0, x), DomsOf(views, x), 0)
  {
    var d0 := DomsOf(views0, x);
    forall k | 0 <= k < i ensures DomsOf(views, x)[k] == Kept(d0[k], a[k], Slack(c, a, lo, hi, k)) {
      EarlyKept(c, a, lo, hi, d0, i, k);
    }
  }

  // One turn of the backward loop and the ways out of it.
  method GeTurn(s: Store, ghost views0: map<nat, View>, ghost c: int, a: seq<int>, ghost x: seq<nat>,
      ghost lo: seq<int>, ghost hi: seq<int>, i: int, arg: Arg, l1: int, u1: int, l2: int)
    returns (done: bool, ok: bool, first: int)
    requires s.Valid() && |a| == |x| == |lo| == |hi| && AreVars(views0, x) && Distinct(x) && 0 < i <= |x|
    requires a[i - 1] != 0
    requires AllBounds(DomsOf(views0, x), lo, hi) && DoneFrom(views0, s.views, c, a, x, lo, hi, i)
    requires arg == ArgOf(views0[x[i - 1]], x[i - 1]) && c + Sum(Tops(a, lo, hi)) >= 0
    requires l1 == c + Sum(Bots(a, lo, hi)[..i - 1]) && u1 == c + Sum(Tops(a, lo, hi)[..i - 1])
    requires l2 == -Sum(Tops(a, lo, hi)[i..])
    modifies s`mem, s`trail, s`views
    ensures s.Valid() && AreVars(s.views, x) && OnlyVars(views0, s.views, x)
    ensures done ==> PropagatedGe(c, a, DomsOf(views0, x), DomsOf(s.views, x), ok, false)
    ensures !done ==> DoneFrom(views0, s.views, c, a, x, lo, hi, i - 1) && first == -Sum(Tops(a, lo, hi)[i - 1..])
  {
    SlackSplit(c, a, lo, hi, Tops(a, lo, hi), i);
    ok, first := ReduceTurn(s, views0, c, a, x, lo, hi, i, arg, u1, l2);
    done := true;
    if !ok {
      NoneKept(c, a, lo, hi, DomsOf(views0, x), DomsOf(s.views, x), i - 1);
      return;
    }
    if first < l1 {
      EarlyDone(views0, s.views, c, a, x, lo, hi, i - 1);
      KeptMeaning(c, a, lo, hi, DomsOf(views0, x), DomsOf(s.views, x));
      return;
    }
    done := false;
  }

  // The backward loop. tl[i] holds what c + a1*x1 + ... + ai*xi must reach.
  method ReduceAll(s: Store, ghost c: int, a: seq<int>, ghost x: seq<nat>, ghost lo: seq<int>, ghost hi: seq<int>,
      ghost b: seq<int>, ghost t: seq<int>, tl: array<int>, tu: array<int>, xx: array<Arg>)
    returns (ok: bool)
    requires s.Valid() && |a| == |x| == |lo| == |hi| && AreVars(s.views, x) && Distinct(x)
    requires forall i :: 0 <= i < |a| ==> a[i] != 0
    requires AllBounds(DomsOf(s.views, x), lo, hi) && tl != tu && b == Bots(a, lo, hi) && t == Tops(a, lo, hi)
    requires tl.Length == |a| + 1 && tu.Length == |a| + 1 && xx.Length == |a| + 1
    requires Prefixes(tl[..], c, b, |a|) && Prefixes(tu[..], c, t, |a|) && c + Sum(t) >= 0
    requires forall k :: 0 < k <= |a| ==> xx[k] == ArgOf(s.views[x[k - 1]], x[k - 1])
    modifies s`mem, s`trail, s`views, tl
    ensures s.Valid() && AreVars(s.views, x) && OnlyVars(old(s.views), s.views, x)
    ensures PropagatedGe(c, a, DomsOf(old(s.views), x), DomsOf(s.views, x), ok, false)
  {
    ghost var views0 := s.views;
    assert t[|a|..] == [];
    tl[|a|] := 0;
    var i := |a|;
    while i >= 1
      invariant 0 <= i <= |a| && s.Valid() && DoneFrom(views0, s.views, c, a, x, lo, hi, i)
      invariant forall k :: 0 <= k < i ==> tl[k] == c + Sum(b[..k])
      invariant tl[i] == -Sum(t[i..])
    {
      var done, first;
      done, ok, first := GeTurn(s, views0, c, a, x, lo, hi, i, xx[i], tl[i - 1], tu[i - 1], tl[i]);
      if done {
        return;
      }
      tl[i - 1] := first;
      i := i - 1;
    }
    KeptMeaning(c, a, lo, hi, DomsOf(views0, x), DomsOf(s.views, x));
    ok := true;
  }

  // nary_interval_consistent_ge with exact arithmetic (every type but the 0/1 ones).
  method NaryGe(s: Store, c: int, a: seq<int>, x: seq<nat>) returns (ok: bool, killed: bool)
    requires s.Valid() && |a| == |x| && AreVars(s.views, x) && Distinct(x) && (forall i :: 0 <= i < |a| ==> a[i] != 0)
    modifies s`mem, s`trail, s`views
    ensures s.Valid() && AreVars(s.views, x) && OnlyVars(old(s.views), s.views, x)
    ensures PropagatedGe(c, a, DomsOf(old(s.views), x), DomsOf(s.views, x), ok, killed)
    ensures killed <==> Entails(c, a, DomsOf(old(s.views), x))
  {
    var n := |a|;
    var tl, tu, xx := new int[n + 1], new int[n + 1], new Arg[n + 1];
    ghost var lo, hi, d0 := Los(s.mem, x), His(s.mem, x), DomsOf(s.views, x);
    ViewsBounds(s, x);
    ghost var b, t;
    b, t := ComputeBounds(s.mem, c, a, x, tl, tu, xx);
    assert b[..n] == b && t[..n] == t;
    assert tl[n] == c + Sum(b) && tu[n] == c + Sum(t);
    WorstDecides(c, a, d0, lo, hi);
    if tl[n] >= 0 {
      Entailed(c, a, lo, hi, d0);
      return true, true;
    }
    if tu[n] < 0 {
      NoSolution(c, a, lo, hi, d0, d0);
      return false, false;
    }
    forall k | 0 < k <= n ensures xx[k] == ArgOf(s.views[x[k - 1]], x[k - 1]) {
      DerefView(s, x[k - 1]);
    }
    ok := ReduceAll(s, c, a, x, lo, hi, b, t, tl, tu, xx);
    killed := false;
  }
}
