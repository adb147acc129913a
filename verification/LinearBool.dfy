// The 0/1 branches of the linear propagators: counting replaces interval arithmetic.
module LinearBool {
  import opened Region
  import opened Linear
  import opened LinearTerms
  import opened LinearGe
  import opened LinearEq

  // ---- Theory ----

  ghost predicate SupportedEq(c: int, a: seq<int>, doms: seq<set<int>>, k: int, x: int)
    requires 0 <= k < |doms|
  {
    exists v :: Solution(c, a, doms, v) && v[k] == x
  }

  ghost predicate SatisfiableEq(c: int, a: seq<int>, doms: seq<set<int>>) {
    exists v :: Solution(c, a, doms, v)
  }

  // Exactly the values that take part in a solution are left; failure means there is none. The propagator retires
  // exactly when whatever the variables become is a solution.
  ghost predicate ExactEq(c: int, a: seq<int>, d0: seq<set<int>>, d1: seq<set<int>>, ok: bool, killed: bool) {
    && |d0| == |d1| == |a|
    && (ok <==> SatisfiableEq(c, a, d0))
    && (ok ==>
      && (forall k :: 0 <= k < |a| ==> d1[k] <= d0[k])
      && (forall v :: Solution(c, a, d0, v) ==> InDoms(v, d1))
      && (forall k, x :: 0 <= k < |a| && x in d1[k] ==> SupportedEq(c, a, d1, k, x)))
    && (ok ==> (killed <==> forall v :: InDoms(v, d1) ==> SolvesEq(c, a, v)))
  }

  ghost function Neg(a: seq<int>): (n: seq<int>)
    ensures |n| == |a|
  {
    seq(|a|, i requires 0 <= i < |a| => -a[i])
  }

  lemma {:induction false} SumNeg(s: seq<int>)
    ensures Sum(Neg(s)) == -Sum(s)
    decreases |s|
  {
    if |s| > 0 {
      SumNeg(s[..|s| - 1]);
      assert Neg(s)[..|s| - 1] == Neg(s[..|s| - 1]);
    }
  }

  lemma DotNeg(a: seq<int>, v: seq<int>)
    requires |a| == |v|
    ensures Dot(Neg(a), v) == -Dot(a, v)
  {
    DotIsSum(a, v);
    DotIsSum(Neg(a), v);
    TermsNeg(a, v, Neg(a));
    SumNeg(Terms(a, v));
  }

  lemma TermsNeg(a: seq<int>, v: seq<int>, n: seq<int>)
    requires |a| == |v| && n == Neg(a)
    ensures Terms(n, v) == Neg(Terms(a, v))
  {
    forall i | 0 <= i < |a| ensures Terms(n, v)[i] == Neg(Terms(a, v))[i] {
      MinusProduct(a[i], v[i]);
    }
  }

  // Turning all signs round is the same equation.
  lemma EqNeg(c: int, a: seq<int>, v: seq<int>)
    ensures SolvesEq(-c, Neg(a), v) <==> SolvesEq(c, a, v)
  {
    if |a| == |v| {
      DotNeg(a, v);
    }
  }

  lemma ExactNeg(c: int, a: seq<int>, d0: seq<set<int>>, d1: seq<set<int>>, ok: bool, killed: bool)
    requires ExactEq(-c, Neg(a), d0, d1, ok, killed)
    ensures ExactEq(c, a, d0, d1, ok, killed)
  {
    forall v, d ensures Solution(-c, Neg(a), d, v) <==> Solution(c, a, d, v) {
      EqNeg(c, a, v);
    }
    forall v ensures SolvesEq(-c, Neg(a), v) <==> SolvesEq(c, a, v) {
      EqNeg(c, a, v);
    }
    if ok {
      var v :| Solution(-c, Neg(a), d0, v);
      assert Solution(c, a, d0, v);
    }
    forall k, x | ok && 0 <= k < |a| && x in d1[k] ensures SupportedEq(c, a, d1, k, x) {
      assert SupportedEq(-c, Neg(a), d1, k, x);
      var v :| Solution(-c, Neg(a), d1, v) && v[k] == x;
      assert Solution(c, a, d1, v);
    }
  }

  // Each variable at the value that maximises its term.
  ghost predicate AllAt(d1: seq<set<int>>, v: seq<int>) {
    |d1| == |v| && forall k :: 0 <= k < |v| ==> d1[k] == {v[k]}
  }

  lemma AtOnly(d1: seq<set<int>>, v: seq<int>, w: seq<int>)
    requires AllAt(d1, v)
    ensures InDoms(w, d1) <==> w == v
  {
    if InDoms(w, d1) {
      forall k | 0 <= k < |v| ensures w[k] == v[k] {
        assert w[k] in d1[k];
      }
    }
  }

  // Only the best vector reaches the greatest value.
  lemma OnlyBest(a: seq<int>, doms: seq<set<int>>, lo: seq<int>, hi: seq<int>, v: seq<int>)
    requires |a| == |doms| && AllBounds(doms, lo, hi) && InDoms(v, doms) && (forall k :: 0 <= k < |a| ==> a[k] != 0)
    requires Dot(a, v) >= Sum(Tops(a, lo, hi))
    ensures v == Best(a, lo, hi)
  {
    forall k | 0 <= k < |a| ensures v[k] == Best(a, lo, hi)[k] {
      DotWithout(a, v, doms, lo, hi, k);
      assert Bounds(doms[k], lo[k], hi[k]);
      TopOnly(a[k], lo[k], hi[k], v[k]);
    }
  }

  lemma TopOnly(a: int, lo: int, hi: int, v: int)
    requires lo <= v <= hi && a * v >= Top(a, lo, hi) && a != 0
    ensures v == if a > 0 then hi else lo
  {
    if a > 0 {
      Scaled(a, hi, v);
    } else {
      MinusProduct(a, v);
      MinusProduct(a, lo);
      Scaled(-a, v, lo);
    }
  }

  // 0 is the greatest reachable value: everything is forced to it.
  lemma TightEq(c: int, a: seq<int>, d0: seq<set<int>>, d1: seq<set<int>>, lo: seq<int>, hi: seq<int>)
    requires |a| == |d0| == |d1| && AllBounds(d0, lo, hi) && (forall k :: 0 <= k < |a| ==> a[k] != 0)
    requires c + Sum(Tops(a, lo, hi)) == 0 && AllAt(d1, Best(a, lo, hi))
    ensures ExactEq(c, a, d0, d1, true, true)
  {
    var b := Best(a, lo, hi);
    BestReaches(a, d0, lo, hi);
    assert Solution(c, a, d0, b);
    AtOnly(d1, b, b);
    assert Solution(c, a, d1, b);
    forall v | Solution(c, a, d0, v) ensures v == b {
      OnlyBest(a, d0, lo, hi, v);
    }
    forall v | InDoms(v, d1) ensures v == b {
      AtOnly(d1, b, v);
    }
  }

  lemma TightGe(c: int, a: seq<int>, d0: seq<set<int>>, d1: seq<set<int>>, lo: seq<int>, hi: seq<int>)
    requires |a| == |d0| == |d1| && AllBounds(d0, lo, hi) && (forall k :: 0 <= k < |a| ==> a[k] != 0)
    requires c + Sum(Tops(a, lo, hi)) == 0 && AllAt(d1, Best(a, lo, hi))
    ensures PropagatedGe(c, a, d0, d1, true, true)
  {
    var b := Best(a, lo, hi);
    BestReaches(a, d0, lo, hi);
    assert SolvesGe(c, a, b);
    AtOnly(d1, b, b);
    forall v | InDoms(v, d0) && SolvesGe(c, a, v) ensures v == b {
      OnlyBest(a, d0, lo, hi, v);
    }
    forall v | InDoms(v, d1) ensures v == b {
      AtOnly(d1, b, v);
    }
    forall k, x | 0 <= k < |a| && x in d1[k] ensures Supported(c, a, d1, k, x) {
      assert InDoms(b, d1) && b[k] == x;
    }
  }

  // Out of reach on either side.
  lemma OutOfReach(c: int, a: seq<int>, d0: seq<set<int>>, d1: seq<set<int>>, lo: seq<int>, hi: seq<int>)
    requires |a| == |d0| == |d1| && AllBounds(d0, lo, hi)
    requires c + Sum(Tops(a, lo, hi)) < 0 || c + Sum(Bots(a, lo, hi)) > 0
    ensures ExactEq(c, a, d0, d1, false, false)
  {
    forall v | InDoms(v, d0) ensures !SolvesEq(c, a, v) {
      DotBounds(a, v, d0, lo, hi);
    }
  }

  // Unit coefficients over 0/1 domains.
  ghost predicate UnitBool(a: seq<int>, lo: seq<int>, hi: seq<int>) {
    |a| == |lo| == |hi| && forall k :: 0 <= k < |a| ==> (a[k] == 1 || a[k] == -1) && lo[k] <= hi[k] <= lo[k] + 1
  }

  lemma UnitStep(a: seq<int>, lo: seq<int>, hi: seq<int>, m: int)
    requires UnitBool(a, lo, hi) && 0 <= m < |a|
    ensures a[m] * (if a[m] > 0 then lo[m] else hi[m]) ==
        Bots(a, lo, hi)[m] <= Tops(a, lo, hi)[m] <= Bots(a, lo, hi)[m] + 1
    ensures a[m] * (if a[m] > 0 then hi[m] else lo[m]) == Tops(a, lo, hi)[m]
    ensures Sum(Bots(a[..m], lo[..m], hi[..m])) <= Sum(Tops(a[..m], lo[..m], hi[..m]))
  {
    var b, t := Bots(a[..m], lo[..m], hi[..m]), Tops(a[..m], lo[..m], hi[..m]);
    forall k | 0 <= k < m ensures b[k] <= t[k] {
      assert a[..m][k] == a[k] && lo[..m][k] == lo[k] && hi[..m][k] == hi[k];
      TermBounds(a[k], lo[k], hi[k], lo[k]);
    }
    SumLe(b, t);
    TermBounds(a[m], lo[m], hi[m], lo[m]);
  }

  // Every value between the extremes is reached.
  lemma {:induction false} Reach(a: seq<int>, doms: seq<set<int>>, lo: seq<int>, hi: seq<int>, t: int)
    returns (v: seq<int>)
    requires |a| == |doms| && AllBounds(doms, lo, hi) && UnitBool(a, lo, hi)
    requires Sum(Bots(a, lo, hi)) <= t <= Sum(Tops(a, lo, hi))
    ensures InDoms(v, doms) && Dot(a, v) == t
    decreases |a|
  {
    if |a| == 0 {
      return [];
    }
    var m := |a| - 1;
    assert Bots(a, lo, hi)[..m] == Bots(a[..m], lo[..m], hi[..m]);
    assert Tops(a, lo, hi)[..m] == Tops(a[..m], lo[..m], hi[..m]);
    var x := if t - Bots(a, lo, hi)[m] <= Sum(Tops(a[..m], lo[..m], hi[..m]))
      then (if a[m] > 0 then lo[m] else hi[m]) else (if a[m] > 0 then hi[m] else lo[m]);
    UnitStep(a, lo, hi, m);
    var w := Reach(a[..m], doms[..m], lo[..m], hi[..m], t - a[m] * x);
    v := w + [x];
    assert v[..m] == w;
    assert Bounds(doms[m], lo[m], hi[m]);
  }

  // Strictly between the extremes both values of every variable can be completed.
  lemma FreeEq(c: int, a: seq<int>, d0: seq<set<int>>, lo: seq<int>, hi: seq<int>)
    requires |a| == |d0| && AllBounds(d0, lo, hi) && UnitBool(a, lo, hi)
    requires c + Sum(Bots(a, lo, hi)) < 0 < c + Sum(Tops(a, lo, hi))
    ensures ExactEq(c, a, d0, d0, true, false)
  {
    WorstReaches(a, d0, lo, hi);
    assert !SolvesEq(c, a, Worst(a, lo, hi));
    var v := Reach(a, d0, lo, hi, -c);
    assert Solution(c, a, d0, v);
    forall k, x | 0 <= k < |a| && x in d0[k] ensures SupportedEq(c, a, d0, k, x) {
      FreeValue(c, a, d0, lo, hi, k, x);
    }
  }

  lemma FixOne(a: seq<int>, lo: seq<int>, hi: seq<int>, k: int, x: int, l: seq<int>, h: seq<int>, p: int)
    requires UnitBool(a, lo, hi) && 0 <= k < |a| && l == lo[k := x] && h == hi[k := x] && lo[k] <= x <= hi[k]
    requires p == a[k] * x
    ensures Sum(Bots(a, l, h)) <= Sum(Bots(a, lo, hi)) + 1 && Sum(Tops(a, l, h)) >= Sum(Tops(a, lo, hi)) - 1
  {
    UnitStep(a, lo, hi, k);
    TermBounds(a[k], lo[k], hi[k], x);
    assert Bots(a, l, h) == Bots(a, lo, hi)[k := p];
    assert Tops(a, l, h) == Tops(a, lo, hi)[k := p];
    SumUpdate(Bots(a, lo, hi), k, p);
    SumUpdate(Tops(a, lo, hi), k, p);
  }

  lemma FreeValue(c: int, a: seq<int>, d0: seq<set<int>>, lo: seq<int>, hi: seq<int>, k: int, x: int)
    requires |a| == |d0| && AllBounds(d0, lo, hi) && UnitBool(a, lo, hi) && 0 <= k < |a| && x in d0[k]
    requires c + Sum(Bots(a, lo, hi)) < 0 < c + Sum(Tops(a, lo, hi))
    ensures SupportedEq(c, a, d0, k, x)
  {
    var d, l, h := d0[k := {x}], lo[k := x], hi[k := x];
    assert AllBounds(d, l, h);
    assert Bounds(d0[k], lo[k], hi[k]);
    FixOne(a, lo, hi, k, x, l, h, a[k] * x);
    var v := Reach(a, d, l, h, -c);
    assert v[k] in d[k];
    assert InDoms(v, d0) by {
      forall i | 0 <= i < |v| ensures v[i] in d0[i] {
        assert v[i] in d[i];
      }
    }
    assert Solution(c, a, d0, v) && v[k] == x;
  }
}
