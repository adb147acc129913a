// nary_interval_consistent_eq and _ge on 0/1 variables.
module BoolPropagators {
  import opened Trail
  import opened Layout
  import opened Stores
  import opened Region
  import opened Linear
  import opened LinearTerms
  import opened LinearSweep
  import opened LinearEq
  import opened LinearBool

  function Ones(n: nat): (a: seq<int>)
    ensures |a| == n
  {
    seq(n, i => 1)
  }

  ghost predicate AreBool(views: map<nat, View>, x: seq<nat>)
    requires AreVars(views, x)
  {
    forall i :: 0 <= i < |x| ==> Domain(views[x[i]]) <= {0, 1}
  }

  lemma BoolVar(s: Store, d: nat)
    requires s.Valid() && d in s.views && Domain(s.views[d]) <= {0, 1}
    ensures !Bound(s.mem, d) ==> LoOf(s.mem, d) == 0 && HiOf(s.mem, d) == 1
    ensures Bound(s.mem, d) ==> s.mem[d].n == 0 || s.mem[d].n == 1
    ensures Bound(s.mem, d) <==> s.views[d].cell.Num?
    ensures Bound(s.mem, d) ==> LoOf(s.mem, d) == HiOf(s.mem, d) == s.mem[d].n
  {
    VarBounds(s, d);
    assert Shape(s.mem, s.owner, d);
    if !Bound(s.mem, d) {
      StaleBounds(s.mem, s.owner, d);
      assert LoOf(s.mem, d) in {0, 1} && HiOf(s.mem, d) in {0, 1};
    }
  }

  lemma BoolsAreUnit(s: Store, x: seq<nat>)
    requires s.Valid() && AreVars(s.views, x) && AreBool(s.views, x)
    ensures UnitBool(Ones(|x|), Los(s.mem, x), His(s.mem, x)) && UnitBool(Neg(Ones(|x|)), Los(s.mem, x), His(s.mem, x))
  {
    forall k | 0 <= k < |x| ensures Los(s.mem, x)[k] <= His(s.mem, x)[k] <= Los(s.mem, x)[k] + 1 {
      BoolVar(s, x[k]);
    }
  }

  // With all coefficients 1 the extremes are the sums of the bounds; with all -1 their negatives.
  lemma OneSums(a: seq<int>, lo: seq<int>, hi: seq<int>)
    requires |lo| == |hi| && a == Ones(|lo|)
    ensures Tops(a, lo, hi) == hi && Bots(a, lo, hi) == lo && Best(a, lo, hi) == hi
  {
  }

  lemma MinusSums(a: seq<int>, lo: seq<int>, hi: seq<int>)
    requires |lo| == |hi| && a == Neg(Ones(|lo|))
    ensures Sum(Tops(a, lo, hi)) == -Sum(lo) && Sum(Bots(a, lo, hi)) == -Sum(hi) && Best(a, lo, hi) == lo
  {
    assert Tops(a, lo, hi) == Neg(lo);
    assert Bots(a, lo, hi) == Neg(hi);
    SumNeg(lo);
    SumNeg(hi);
  }

  // xx lists exactly the unbound variables among the first i of x.
  ghost predicate Lists(views: map<nat, View>, x: seq<nat>, i: int, xx: seq<nat>) {
    && 0 <= i <= |x|
    && (forall k :: 0 <= k < i && x[k] in views && views[x[k]].cell == Ref ==> x[k] in xx)
    && (forall e :: e in xx ==> e in views && e in x && views[e].cell == Ref)
  }

  lemma ListsStep(views: map<nat, View>, x: seq<nat>, i: int, xx: seq<nat>)
    requires Lists(views, x, i, xx) && i < |x| && x[i] in views
    ensures views[x[i]].cell == Ref ==> Lists(views, x, i + 1, xx + [x[i]])
    ensures views[x[i]].cell.Num? ==> Lists(views, x, i + 1, xx)
  {
  }

  // Counting: each 1 lowers c, each unbound variable is listed.
  method CountVars(s: Store, c0: int, x: seq<nat>, xx: array<nat>) returns (c: int, nvs: nat)
    requires s.Valid() && AreVars(s.views, x) && AreBool(s.views, x) && xx.Length >= |x|
    modifies xx
    ensures c == c0 - Sum(Los(s.mem, x)) && nvs == Sum(His(s.mem, x)) - Sum(Los(s.mem, x))
    ensures nvs <= xx.Length && Lists(s.views, x, |x|, xx[..nvs])
  {
    ghost var lo, hi := Los(s.mem, x), His(s.mem, x);
    c, nvs := c0, 0;
    var i := 0;
    while i < |x|
      invariant 0 <= i <= |x| && nvs <= i
      invariant c == c0 - Sum(lo[..i]) && nvs == Sum(hi[..i]) - Sum(lo[..i])
      invariant Lists(s.views, x, i, xx[..nvs])
    {
      SumPrefix(lo, i);
      SumPrefix(hi, i);
      BoolVar(s, x[i]);
      var arg := Deref(s.mem, x[i]);
      ListsStep(s.views, x, i, xx[..nvs]);
      if arg == Int(1) {
        c := c - 1;
      } else if arg != Int(0) {
        ghost var before := xx[..nvs];
        xx[nvs] := x[i];
        nvs := nvs + 1;
        assert xx[..nvs] == before + [x[i]];
      }
      i := i + 1;
    }
    assert lo[..|x|] == lo && hi[..|x|] == hi;
  }

  // Every unbound variable of x is bound to val, the others keep their value.
  ghost predicate BoundTo(views0: map<nat, View>, views: map<nat, View>, x: seq<nat>, val: int)
    requires AreVars(views0, x) && AreVars(views, x)
  {
    forall k :: 0 <= k < |x| ==> Domain(views[x[k]]) == if views0[x[k]].cell == Ref then {val} else Domain(views0[x[k]])
  }

  // Binding the listed variables.
  method BindAll(s: Store, ghost x: seq<nat>, xx: array<nat>, nvs: nat, val: int)
    requires s.Valid() && AreVars(s.views, x) && nvs <= xx.Length && Lists(s.views, x, |x|, xx[..nvs])
    modifies s`mem, s`trail, s`views
    ensures s.Valid() && AreVars(s.views, x) && OnlyVars(old(s.views), s.views, x)
    ensures BoundTo(old(s.views), s.views, x, val)
  {
    ghost var views0, listed := s.views, xx[..nvs];
    var i := 0;
    while i < nvs
      invariant 0 <= i <= nvs && s.Valid() && s.views.Keys == views0.Keys
      invariant forall e :: e in listed[..i] ==> e in s.views && Domain(s.views[e]) == {val}
      invariant forall e :: e in views0 && e !in listed[..i] ==> s.views[e] == views0[e]
    {
      assert listed[i] in listed && listed[i] == xx[i];
      assert listed[..i + 1] == listed[..i] + [xx[i]];
      Assign(s, xx[i], val);
      i := i + 1;
    }
    assert listed[..nvs] == listed;
  }

  // Unbound variables range from 0 to 1, bound ones are fixed.
  ghost predicate BoolBounds(views: map<nat, View>, x: seq<nat>, lo: seq<int>, hi: seq<int>)
    requires AreVars(views, x)
  {
    && |lo| == |hi| == |x|
    && forall k :: 0 <= k < |x| ==>
      if views[x[k]].cell == Ref then lo[k] == 0 && hi[k] == 1 else Domain(views[x[k]]) == {lo[k]} && lo[k] == hi[k]
  }

  lemma BoolsBounded(s: Store, x: seq<nat>)
    requires s.Valid() && AreVars(s.views, x) && AreBool(s.views, x)
    ensures BoolBounds(s.views, x, Los(s.mem, x), His(s.mem, x))
  {
    forall k | 0 <= k < |x|
      ensures if s.views[x[k]].cell == Ref then Los(s.mem, x)[k] == 0 && His(s.mem, x)[k] == 1
        else Domain(s.views[x[k]]) == {Los(s.mem, x)[k]} && Los(s.mem, x)[k] == His(s.mem, x)[k] {
      BoolVar(s, x[k]);
      VarBounds(s, x[k]);
    }
  }

  // Variables bound to their only good value.
  lemma BoundBest(views0: map<nat, View>, views: map<nat, View>, x: seq<nat>, val: int, lo: seq<int>, hi: seq<int>)
    requires AreVars(views0, x) && AreVars(views, x) && BoolBounds(views0, x, lo, hi) && BoundTo(views0, views, x, val)
    ensures val == 0 ==> AllAt(DomsOf(views, x), lo)
    ensures val == 1 ==> AllAt(DomsOf(views, x), hi)
  {
  }

  // What the counts decide of an equation with coefficients -1.
  lemma EqCounts(s: Store, c: int, x: seq<nat>)
    requires s.Valid() && AreVars(s.views, x) && AreBool(s.views, x)
    ensures var lo, hi, a, d := Los(s.mem, x), His(s.mem, x), Neg(Ones(|x|)), DomsOf(s.views, x);
      && ((c < Sum(lo) || c > Sum(hi)) ==> ExactEq(c, a, d, d, false, false))
      && (Sum(lo) < c < Sum(hi) ==> ExactEq(c, a, d, d, true, false))
  {
    var lo, hi, a, d := Los(s.mem, x), His(s.mem, x), Neg(Ones(|x|)), DomsOf(s.views, x);
    ViewsBounds(s, x);
    BoolsAreUnit(s, x);
    MinusSums(a, lo, hi);
    if c < Sum(lo) || c > Sum(hi) {
      OutOfReach(c, a, d, d, lo, hi);
    }
    if Sum(lo) < c < Sum(hi) {
      FreeEq(c, a, d, lo, hi);
    }
  }

  lemma ForcedLow(c: int, d0: seq<set<int>>, d1: seq<set<int>>, lo: seq<int>, hi: seq<int>, a: seq<int>)
    requires |d0| == |d1| == |lo| && AllBounds(d0, lo, hi) && AllAt(d1, lo) && c == Sum(lo) && a == Neg(Ones(|d0|))
    ensures ExactEq(c, a, d0, d1, true, true)
  {
    MinusSums(a, lo, hi);
    TightEq(c, a, d0, d1, lo, hi);
  }

  lemma ForcedHigh(c: int, d0: seq<set<int>>, d1: seq<set<int>>, lo: seq<int>, hi: seq<int>, a: seq<int>)
    requires |d0| == |d1| == |lo| && AllBounds(d0, lo, hi) && AllAt(d1, hi) && c == Sum(hi) && a == Neg(Ones(|d0|))
    ensures ExactEq(c, a, d0, d1, true, true)
  {
    OneSums(Ones(|d0|), lo, hi);
    assert Neg(a) == Ones(|d0|);
    TightEq(-c, Ones(|d0|), d0, d1, lo, hi);
    ExactNeg(c, a, d0, d1, true, true);
  }

  // The branch coes_all_mone_bool of nary_interval_consistent_eq: c - x1 - ... - xn = 0.
  method EqAllMinusOneBool(s: Store, c0: int, x: seq<nat>) returns (ok: bool, killed: bool)
    requires s.Valid() && AreVars(s.views, x) && AreBool(s.views, x)
    modifies s`mem, s`trail, s`views
    ensures s.Valid() && AreVars(s.views, x) && OnlyVars(old(s.views), s.views, x)
    ensures ExactEq(c0, Neg(Ones(|x|)), DomsOf(old(s.views), x), DomsOf(s.views, x), ok, killed)
  {
    var xx := new nat[|x|];
    EqCounts(s, c0, x);
    var c, nvs := CountVars(s, c0, x, xx);
    ok, killed := true, false;
    if c <= 0 {
      if c < 0 {
        return false, false;
      }
      BindForced(s, c0, x, xx, nvs, 0);
      killed := true;
    } else if c >= nvs {
      if c > nvs {
        return false, false;
      }
      BindForced(s, c0, x, xx, nvs, 1);
      killed := true;
    }
  }

  method BindForced(s: Store, ghost c0: int, ghost x: seq<nat>, xx: array<nat>, nvs: nat, val: int)
    requires s.Valid() && AreVars(s.views, x) && AreBool(s.views, x) && nvs <= xx.Length
    requires Lists(s.views, x, |x|, xx[..nvs])
    requires (val == 0 && c0 == Sum(Los(s.mem, x))) || (val == 1 && c0 == Sum(His(s.mem, x)))
    modifies s`mem, s`trail, s`views
    ensures s.Valid() && AreVars(s.views, x) && OnlyVars(old(s.views), s.views, x)
    ensures ExactEq(c0, Neg(Ones(|x|)), DomsOf(old(s.views), x), DomsOf(s.views, x), true, true)
  {
    ghost var lo, hi, views0, d0 := Los(s.mem, x), His(s.mem, x), s.views, DomsOf(s.views, x);
    ViewsBounds(s, x);
    BoolsBounded(s, x);
    BindAll(s, x, xx, nvs, val);
    BoundBest(views0, s.views, x, val, lo, hi);
    if val == 0 {
      ForcedLow(c0, d0, DomsOf(s.views, x), lo, hi, Neg(Ones(|x|)));
    } else {
      ForcedHigh(c0, d0, DomsOf(s.views, x), lo, hi, Neg(Ones(|x|)));
    }
  }

  // The branch coes_all_one_bool turns c round and falls through: c + x1 + ... + xn = 0.
  method EqAllOneBool(s: Store, c: int, x: seq<nat>) returns (ok: bool, killed: bool)
    requires s.Valid() && AreVars(s.views, x) && AreBool(s.views, x)
    modifies s`mem, s`trail, s`views
    ensures s.Valid() && AreVars(s.views, x) && OnlyVars(old(s.views), s.views, x)
    ensures ExactEq(c, Ones(|x|), DomsOf(old(s.views), x), DomsOf(s.views, x), ok, killed)
  {
    ok, killed := EqAllMinusOneBool(s, -c, x);
    ExactNeg(c, Ones(|x|), DomsOf(old(s.views), x), DomsOf(s.views, x), ok, killed);
  }

  // The branch coes_all_mone turns c round and falls through to coes_all_one: c - x1 - ... - xn = 0.
  method EqAllMinusOne(s: Store, c: int, x: seq<nat>) returns (ok: bool)
    requires s.Valid() && |x| > 0 && AreVars(s.views, x)
    modifies s`mem, s`trail, s`views
    ensures s.Valid() && AreVars(s.views, x) && OnlyVars(old(s.views), s.views, x)
    ensures SoundEq(c, Neg(Ones(|x|)), x, DomsOf(old(s.views), x), DomsOf(s.views, x), ok)
    ensures DecidesEq(c, Neg(Ones(|x|)), DomsOf(old(s.views), x), ok)
    ensures ok && Distinct(x) ==> Swept(c, Neg(Ones(|x|)), DomsOf(old(s.views), x), DomsOf(s.views, x))
    ensures ok ==> FreeLeft(Problem(old(s.views), c, Neg(Ones(|x|)), x), s.views)
  {
    ok := NaryEq(s, -c, Ones(|x|), x);
    AllNeg(Problem(old(s.views), -c, Ones(|x|), x), c, s.views, ok);
  }

  lemma AllNeg(p: Problem, c: int, views: map<nat, View>, ok: bool)
    requires Posed(p) && AreVars(views, p.x) && p.c == -c && (ok ==> FreeLeft(p, views))
    requires SoundEq(p.c, p.a, p.x, Doms0(p), DomsOf(views, p.x), ok) && DecidesEq(p.c, p.a, Doms0(p), ok)
    requires ok && Distinct(p.x) ==> Swept(p.c, p.a, Doms0(p), DomsOf(views, p.x))
    ensures SoundEq(c, Neg(p.a), p.x, Doms0(p), DomsOf(views, p.x), ok) && DecidesEq(c, Neg(p.a), Doms0(p), ok)
    ensures ok && Distinct(p.x) ==> Swept(c, Neg(p.a), Doms0(p), DomsOf(views, p.x))
    ensures ok ==> FreeLeft(Problem(p.v0, c, Neg(p.a), p.x), views)
  {
    SoundNeg(c, p.a, p.x, Doms0(p), DomsOf(views, p.x), ok);
    if ok {
      FreeNeg(p, c, views);
      if Distinct(p.x) {
        SweptNeg(c, p.a, Doms0(p), DomsOf(views, p.x));
      }
    }
  }

  lemma FreeNeg(p: Problem, c: int, views: map<nat, View>)
    requires Posed(p) && AreVars(views, p.x) && p.c == -c && FreeLeft(p, views)
    ensures FreeLeft(Problem(p.v0, c, Neg(p.a), p.x), views)
  {
    var b, t :| Extremes(p.a, Doms0(p), b, t) && FreeFrom(p, views, b, t, 0);
    var q := Problem(p.v0, c, Neg(p.a), p.x);
    ExtremesNeg(p.a, Doms0(p), b, t);
    assert Doms0(q) == Doms0(p);
    forall k | 0 <= k < |p.x| ensures FreeFits(q, views, Neg(t), Neg(b), k) {
      assert FreeFits(p, views, b, t, k);
      forall v | views[p.x[k]].cell == Ref && v in views[p.x[k]].described
        ensures FitsOthers(q.c, q.a, Neg(t), Neg(b), k, v) {
        FitsNeg(c, p.a, b, t, k, v);
      }
    }
    assert FreeFrom(q, views, Neg(t), Neg(b), 0);
  }

  lemma FitsNeg(c: int, a: seq<int>, b: seq<int>, t: seq<int>, k: int, v: int)
    requires |a| == |b| == |t| && 0 <= k < |a| && FitsOthers(-c, a, b, t, k, v)
    ensures FitsOthers(c, Neg(a), Neg(t), Neg(b), k, v)
  {
    SumsNeg(c, t, k);
    SumsNeg(c, b, k);
    SumsNeg(c, t, k + 1);
    SumsNeg(c, b, k + 1);
    MinusProduct(a[k], v);
  }

  // The extremes of the terms with all signs turned round.
  lemma ExtremesNeg(a: seq<int>, d: seq<set<int>>, b: seq<int>, t: seq<int>)
    requires Extremes(a, d, b, t)
    ensures Extremes(Neg(a), d, Neg(t), Neg(b))
  {
    var lo, hi :| AllBounds(d, lo, hi) && b == Bots(a, lo, hi) && t == Tops(a, lo, hi);
    forall k | 0 <= k < |a|
      ensures Neg(t)[k] == Bots(Neg(a), lo, hi)[k] && Neg(b)[k] == Tops(Neg(a), lo, hi)[k] {
      MinusProduct(a[k], lo[k]);
      MinusProduct(a[k], hi[k]);
    }
    assert Neg(t) == Bots(Neg(a), lo, hi) && Neg(b) == Tops(Neg(a), lo, hi);
  }

  lemma SumsNeg(c: int, b: seq<int>, k: int)
    requires 0 <= k <= |b|
    ensures Before(c, Neg(b), k) == -Before(-c, b, k) && From(Neg(b), k) == -From(b, k)
  {
    assert Neg(b)[..k] == Neg(b[..k]) && Neg(b)[k..] == Neg(b[k..]);
    SumNeg(b[..k]);
    SumNeg(b[k..]);
  }

  lemma FittingNeg(dom: set<int>, a: int, l: int, u: int)
    ensures Fitting(dom, -a, -u, -l) == Fitting(dom, a, l, u)
  {
    forall v ensures Fits(-a, v, -u, -l) <==> Fits(a, v, l, u) {
      MinusProduct(a, v);
    }
  }

  // Turning all signs round, the constant's too, is the same sweep.
  lemma SweptNeg(c: int, a: seq<int>, d0: seq<set<int>>, d1: seq<set<int>>)
    requires Swept(-c, a, d0, d1)
    ensures Swept(c, Neg(a), d0, d1)
  {
    var b0, t0, b1, t1 :| Extremes(a, d0, b0, t0) && Extremes(a, d1, b1, t1) && SweptFrom(-c, a, d0, d1, b0, t0, b1,
        t1, 0);
    ExtremesNeg(a, d0, b0, t0);
    ExtremesNeg(a, d1, b1, t1);
    forall k | 0 <= k < |a| ensures SweptAt(c, Neg(a), d0, d1, Neg(t0), Neg(b0), Neg(t1), Neg(b1), k) {
      assert SweptAt(-c, a, d0, d1, b0, t0, b1, t1, k);
      SweptAtNeg(c, a, d0, d1, b0, t0, b1, t1, k);
    }
    assert SweptFrom(c, Neg(a), d0, d1, Neg(t0), Neg(b0), Neg(t1), Neg(b1), 0);
  }

  lemma SweptAtNeg(c: int, a: seq<int>, d0: seq<set<int>>, d1: seq<set<int>>, b0: seq<int>, t0: seq<int>,
      b1: seq<int>, t1: seq<int>, k: int)
    requires |a| == |d0| == |d1| == |b0| == |t0| == |b1| == |t1| && 0 <= k < |a|
    requires SweptAt(-c, a, d0, d1, b0, t0, b1, t1, k)
    ensures SweptAt(c, Neg(a), d0, d1, Neg(t0), Neg(b0), Neg(t1), Neg(b1), k)
  {
    SumsNeg(c, t0, k);
    SumsNeg(c, b0, k);
    SumsNeg(c, t1, k + 1);
    SumsNeg(c, b1, k + 1);
    FittingNeg(d0[k], a[k], -From(t1, k + 1) - Before(-c, t0, k), -From(b1, k + 1) - Before(-c, b0, k));
  }

  lemma SoundNeg(c: int, a: seq<int>, x: seq<nat>, d0: seq<set<int>>, d1: seq<set<int>>, ok: bool)
    requires |a| == |d0| && SoundEq(-c, a, x, d0, d1, ok) && DecidesEq(-c, a, d0, ok)
    ensures SoundEq(c, Neg(a), x, d0, d1, ok) && DecidesEq(c, Neg(a), d0, ok)
  {
    assert Neg(Neg(a)) == a;
    forall v ensures SolvesEq(-c, a, v) <==> SolvesEq(c, Neg(a), v) {
      EqNeg(c, Neg(a), v);
    }
    forall v | Root(c, Neg(a), x, d0, v) ensures Root(-c, a, x, d0, v) {
    }
  }

  // What is exact for the positions is sound for the variables; killed, nothing is left to decide.
  lemma ExactSound(c: int, a: seq<int>, x: seq<nat>, d0: seq<set<int>>, d1: seq<set<int>>, ok: bool, killed: bool)
    requires ExactEq(c, a, d0, d1, ok, killed)
    ensures SoundEq(c, a, x, d0, d1, ok)
    ensures ok && killed ==> Settled(c, a, x, d1)
  {
  }

  // Whatever values the variables still take solve the equation.
  ghost predicate Settled(c: int, a: seq<int>, x: seq<nat>, d1: seq<set<int>>) {
    forall v :: InDoms(v, d1) && Agree(x, v) ==> SolvesEq(c, a, v)
  }
}
