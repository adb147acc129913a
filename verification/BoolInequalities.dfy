// The 0/1 branches of nary_interval_consistent_ge, and the mixed-sign 0/1 equation.
module BoolInequalities {
  import opened Trail
  import opened Stores
  import opened Region
  import opened Linear
  import opened LinearTerms
  import opened LinearGe
  import opened LinearBool
  import opened BoolPropagators

  // Reaching more than 0 at best, no 0/1 variable is forced.
  lemma LooseGe(c: int, a: seq<int>, d0: seq<set<int>>, lo: seq<int>, hi: seq<int>)
    requires |a| == |d0| && AllBounds(d0, lo, hi) && UnitBool(a, lo, hi) && c + Sum(Tops(a, lo, hi)) > 0
    ensures PropagatedGe(c, a, d0, d0, true, false)
  {
    forall k | 0 <= k < |a| ensures d0[k] == Kept(d0[k], a[k], Slack(c, a, lo, hi, k)) {
      UnitStep(a, lo, hi, k);
      forall v | v in d0[k] ensures Enough(a[k], v, Slack(c, a, lo, hi, k)) {
        assert Bounds(d0[k], lo[k], hi[k]);
        TermBounds(a[k], lo[k], hi[k], v);
      }
    }
    KeptMeaning(c, a, lo, hi, d0, d0);
  }

  // What the counts decide of c + x1 + ... + xn >= 0.
  lemma GeOneCounts(s: Store, c: int, x: seq<nat>)
    requires s.Valid() && AreVars(s.views, x) && AreBool(s.views, x)
    ensures var lo, hi, a, d := Los(s.mem, x), His(s.mem, x), Ones(|x|), DomsOf(s.views, x);
      && (c + Sum(lo) >= 0 ==> PropagatedGe(c, a, d, d, true, true)) && (Entails(c, a, d) <==> c + Sum(lo) >= 0)
      && (c + Sum(hi) < 0 ==> PropagatedGe(c, a, d, d, false, false))
      && (c + Sum(hi) > 0 ==> PropagatedGe(c, a, d, d, true, false))
  {
    var lo, hi, a, d := Los(s.mem, x), His(s.mem, x), Ones(|x|), DomsOf(s.views, x);
    ViewsBounds(s, x);
    BoolsAreUnit(s, x);
    OneSums(a, lo, hi);
    WorstDecides(c, a, d, lo, hi);
    if c + Sum(lo) >= 0 {
      Entailed(c, a, lo, hi, d);
    }
    if c + Sum(hi) < 0 {
      LinearGe.NoSolution(c, a, lo, hi, d, d);
    }
    if c + Sum(hi) > 0 {
      LooseGe(c, a, d, lo, hi);
    }
  }

  // The branch coes_all_one_bool: c + x1 + ... + xn >= 0.
  method GeAllOneBool(s: Store, c0: int, x: seq<nat>) returns (ok: bool, killed: bool)
    requires s.Valid() && AreVars(s.views, x) && AreBool(s.views, x)
    modifies s`mem, s`trail, s`views
    ensures s.Valid() && AreVars(s.views, x) && OnlyVars(old(s.views), s.views, x)
    ensures PropagatedGe(c0, Ones(|x|), DomsOf(old(s.views), x), DomsOf(s.views, x), ok, killed)
    ensures ok ==> (killed <==> Entails(c0, Ones(|x|), DomsOf(s.views, x)))
  {
    var xx := new nat[|x|];
    GeOneCounts(s, c0, x);
    var c, nvs := CountVars(s, -c0, x, xx);
    ok, killed := true, false;
    if c <= 0 {
      killed := true;
    } else if nvs <= c {
      if nvs < c {
        return false, false;
      }
      ghost var lo, hi, views0, d0 := Los(s.mem, x), His(s.mem, x), s.views, DomsOf(s.views, x);
      ViewsBounds(s, x);
      BoolsBounded(s, x);
      BindAll(s, x, xx, nvs, 1);
      BoundBest(views0, s.views, x, 1, lo, hi);
      GeForcedOne(c0, Ones(|x|), d0, DomsOf(s.views, x), lo, hi);
      killed := true;
    }
  }

  lemma GeForcedOne(c: int, a: seq<int>, d0: seq<set<int>>, d1: seq<set<int>>, lo: seq<int>, hi: seq<int>)
    requires |d0| == |d1| && AllBounds(d0, lo, hi) && AllAt(d1, hi) && c + Sum(hi) == 0 && a == Ones(|d0|)
    ensures PropagatedGe(c, a, d0, d1, true, true)
  {
    OneSums(a, lo, hi);
    TightGe(c, a, d0, d1, lo, hi);
  }

  lemma GeForcedZero(c: int, a: seq<int>, d0: seq<set<int>>, d1: seq<set<int>>, lo: seq<int>, hi: seq<int>)
    requires |d0| == |d1| && AllBounds(d0, lo, hi) && AllAt(d1, lo) && c - Sum(lo) == 0 && a == Neg(Ones(|d0|))
    ensures PropagatedGe(c, a, d0, d1, true, true)
  {
    MinusSums(a, lo, hi);
    TightGe(c, a, d0, d1, lo, hi);
  }

  // What the counts decide of c - x1 - ... - xn >= 0.
  lemma GeMinusCounts(s: Store, c: int, x: seq<nat>)
    requires s.Valid() && AreVars(s.views, x) && AreBool(s.views, x)
    ensures var lo, hi, a, d := Los(s.mem, x), His(s.mem, x), Neg(Ones(|x|)), DomsOf(s.views, x);
      && (c - Sum(hi) >= 0 ==> PropagatedGe(c, a, d, d, true, true)) && (Entails(c, a, d) <==> c - Sum(hi) >= 0)
      && (c - Sum(lo) < 0 ==> PropagatedGe(c, a, d, d, false, false))
      && (c - Sum(lo) > 0 ==> PropagatedGe(c, a, d, d, true, false))
  {
    var lo, hi, a, d := Los(s.mem, x), His(s.mem, x), Neg(Ones(|x|)), DomsOf(s.views, x);
    ViewsBounds(s, x);
    BoolsAreUnit(s, x);
    MinusSums(a, lo, hi);
    WorstDecides(c, a, d, lo, hi);
    if c - Sum(hi) >= 0 {
      Entailed(c, a, lo, hi, d);
    }
    if c - Sum(lo) < 0 {
      LinearGe.NoSolution(c, a, lo, hi, d, d);
    }
    if c - Sum(lo) > 0 {
      LooseGe(c, a, d, lo, hi);
    }
  }

  // The branch coes_all_mone_bool: c - x1 - ... - xn >= 0.
  method GeAllMinusOneBool(s: Store, c0: int, x: seq<nat>) returns (ok: bool, killed: bool)
    requires s.Valid() && AreVars(s.views, x) && AreBool(s.views, x)
    modifies s`mem, s`trail, s`views
    ensures s.Valid() && AreVars(s.views, x) && OnlyVars(old(s.views), s.views, x)
    ensures PropagatedGe(c0, Neg(Ones(|x|)), DomsOf(old(s.views), x), DomsOf(s.views, x), ok, killed)
    ensures ok ==> (killed <==> Entails(c0, Neg(Ones(|x|)), DomsOf(s.views, x)))
  {
    var xx := new nat[|x|];
    GeMinusCounts(s, c0, x);
    var c, nvs := CountVars(s, c0, x, xx);
    ok, killed := true, false;
    if c <= 0 {
      if c < 0 {
        return false, false;
      }
      ghost var lo, hi, views0, d0 := Los(s.mem, x), His(s.mem, x), s.views, DomsOf(s.views, x);
      ViewsBounds(s, x);
      BoolsBounded(s, x);
      BindAll(s, x, xx, nvs, 0);
      BoundBest(views0, s.views, x, 0, lo, hi);
      GeForcedZero(c0, Neg(Ones(|x|)), d0, DomsOf(s.views, x), lo, hi);
      killed := true;
    } else if c >= nvs {
      killed := true;
    }
  }

  // ---- c + a1*B1 + ... + an*Bn >= 0 with negative coefficients: a capacity ----

  lemma CapTerm(s: Store, a: seq<int>, x: seq<nat>, i: int, t: seq<int>)
    requires s.Valid() && |a| == |x| && AreVars(s.views, x) && AreBool(s.views, x) && 0 <= i < |x| && a[i] < 0
    requires t == Tops(a, Los(s.mem, x), His(s.mem, x))
    ensures t[i] == if Deref(s.mem, x[i]) == Int(1) then a[i] else 0
  {
    BoolVar(s, x[i]);
  }

  // The capacity left by the variables that are already 1; t lists what each takes.
  method Capacity(mem: seq<Cell>, c0: int, a: seq<int>, x: seq<nat>, xx: array<Arg>, ghost t: seq<int>) returns (c: int)
    requires |a| == |x| == |t| && xx.Length == |x| + 1
    requires forall i :: 0 <= i < |x| ==> t[i] == if Deref(mem, x[i]) == Int(1) then a[i] else 0
    modifies xx
    ensures c == c0 + Sum(t)
    ensures forall k :: 0 < k <= |x| ==> xx[k] == Deref(mem, x[k - 1])
  {
    c := c0;
    var i := 1;
    while i <= |x|
      invariant 1 <= i <= |x| + 1 && c == c0 + Sum(t[..i - 1])
      invariant forall k :: 0 < k < i ==> xx[k] == Deref(mem, x[k - 1])
    {
      SumPrefix(t, i - 1);
      xx[i] := Deref(mem, x[i - 1]);
      if xx[i] == Int(1) {
        c := c + a[i - 1];
      }
      i := i + 1;
    }
    assert t[..|x|] == t;
  }

  // Variables before i are done, the others untouched.
  ghost predicate CapDone(views0: map<nat, View>, views: map<nat, View>, c: int, a: seq<int>, x: seq<nat>, i: int)
    requires |a| == |x| && AreVars(views0, x)
  {
    && AreVars(views, x) && OnlyVars(views0, views, x)
    && (forall k :: 0 <= k < i && k < |x| ==>
         Domain(views[x[k]]) == if views0[x[k]].cell == Ref && c + a[k] < 0 then {0} else Domain(views0[x[k]]))
    && (forall k :: i <= k < |x| && 0 <= k ==> views[x[k]] == views0[x[k]])
  }

  lemma CapStep(views0: map<nat, View>, v1: map<nat, View>, v2: map<nat, View>, c: int, a: seq<int>, x: seq<nat>,
      i: int)
    requires |a| == |x| && AreVars(views0, x) && Distinct(x) && 0 <= i < |x| && CapDone(views0, v1, c, a, x, i)
    requires Changed(v1, v2, x[i])
    requires Domain(v2[x[i]]) == if views0[x[i]].cell == Ref && c + a[i] < 0 then {0} else Domain(views0[x[i]])
    ensures CapDone(views0, v2, c, a, x, i + 1)
  {
    DomsStep(v1, v2, x, i);
    OnlyVarsStep(views0, v1, v2, x, x[i]);
  }

  // Exactly the variables that no longer fit are bound to 0.
  lemma CapMeaning(views0: map<nat, View>, views: map<nat, View>, c0: int, a: seq<int>, x: seq<nat>, lo: seq<int>,
      hi: seq<int>)
    requires |a| == |x| && AreVars(views0, x) && BoolBounds(views0, x, lo, hi)
    requires forall k :: 0 <= k < |a| ==> a[k] < 0
    requires AllBounds(DomsOf(views0, x), lo, hi) && AreBool(views0, x)
    requires c0 + Sum(Tops(a, lo, hi)) >= 0 && CapDone(views0, views, c0 + Sum(Tops(a, lo, hi)), a, x, |x|)
    ensures PropagatedGe(c0, a, DomsOf(views0, x), DomsOf(views, x), true, false)
  {
    var c := c0 + Sum(Tops(a, lo, hi));
    forall k | 0 <= k < |x| ensures DomsOf(views, x)[k] == Kept(DomsOf(views0, x)[k], a[k], Slack(c0, a, lo, hi, k)) {
      CapKept(DomsOf(views0, x)[k], a[k], lo[k], hi[k], c, views0[x[k]].cell == Ref);
    }
    KeptMeaning(c0, a, lo, hi, DomsOf(views0, x), DomsOf(views, x));
  }

  lemma CapKept(dom: set<int>, a: int, lo: int, hi: int, c: int, free: bool)
    requires a < 0 && c >= 0 && Bounds(dom, lo, hi)
    requires if free then lo == 0 && hi == 1 else dom == {lo} && lo == hi
    ensures Kept(dom, a, c - Top(a, lo, hi)) == if free && c + a < 0 then {0} else dom
  {
    var slack := c - Top(a, lo, hi);
    assert Enough(a, lo, slack);
    assert free ==> (Enough(a, 1, slack) <==> c + a >= 0);
    forall v | v in dom ensures v == lo || v == hi {
    }
  }

  // A variable that no longer fits is bound to 0.
  method CapTurn(s: Store, ghost views0: map<nat, View>, c: int, a: seq<int>, ghost x: seq<nat>, i: int, arg: Arg)
    requires s.Valid() && |a| == |x| && AreVars(views0, x) && Distinct(x) && 0 < i <= |x|
    requires CapDone(views0, s.views, c, a, x, i - 1) && arg == ArgOf(views0[x[i - 1]], x[i - 1])
    modifies s`mem, s`trail, s`views
    ensures s.Valid() && CapDone(views0, s.views, c, a, x, i)
  {
    if arg.Susp? && c + a[i - 1] < 0 {
      Assign(s, arg.d, 0);
    }
    CapStep(views0, old(s.views), s.views, c, a, x, i - 1);
  }

  // The branch coes_all_neg_bool.
  method GeAllNegBool(s: Store, c0: int, a: seq<int>, x: seq<nat>) returns (ok: bool)
    requires s.Valid() && |a| == |x| && AreVars(s.views, x) && AreBool(s.views, x) && Distinct(x)
    requires forall k :: 0 <= k < |a| ==> a[k] < 0
    modifies s`mem, s`trail, s`views
    ensures s.Valid() && AreVars(s.views, x) && OnlyVars(old(s.views), s.views, x)
    ensures PropagatedGe(c0, a, DomsOf(old(s.views), x), DomsOf(s.views, x), ok, false)
  {
    var xx := new Arg[|x| + 1];
    ghost var lo, hi, views0 := Los(s.mem, x), His(s.mem, x), s.views;
    ViewsBounds(s, x);
    BoolsBounded(s, x);
    ghost var t := Tops(a, lo, hi);
    forall k | 0 <= k < |x| ensures t[k] == if Deref(s.mem, x[k]) == Int(1) then a[k] else 0 {
      CapTerm(s, a, x, k, t);
    }
    var c := Capacity(s.mem, c0, a, x, xx, t);
    if c < 0 {
      LinearGe.NoSolution(c0, a, lo, hi, DomsOf(s.views, x), DomsOf(s.views, x));
      return false;
    }
    forall k | 0 < k <= |x| ensures xx[k] == ArgOf(views0[x[k - 1]], x[k - 1]) {
      DerefView(s, x[k - 1]);
    }
    var i := 1;
    while i <= |x|
      invariant 1 <= i <= |x| + 1 && s.Valid() && CapDone(views0, s.views, c, a, x, i - 1)
      invariant forall k :: 0 < k <= |x| ==> xx[k] == ArgOf(views0[x[k - 1]], x[k - 1])
    {
      CapTurn(s, views0, c, a, x, i, xx[i]);
      i := i + 1;
    }
    CapMeaning(views0, s.views, c0, a, x, lo, hi);
    ok := true;
  }
}
