// The branch coes_one_mone_bool of nary_interval_consistent_eq: 0/1 variables with coefficients 1 and -1.
module BoolMixed {
  import opened Trail
  import opened Stores
  import opened Region
  import opened Linear
  import opened LinearTerms
  import opened LinearEq
  import opened LinearBool
  import opened BoolPropagators

  ghost predicate Signs(a: seq<int>) {
    forall k :: 0 <= k < |a| ==> a[k] == 1 || a[k] == -1
  }

  // The least and greatest term of each argument.
  ghost predicate SignTerms(mem: seq<Cell>, a: seq<int>, x: seq<nat>, b: seq<int>, t: seq<int>) {
    && |a| == |x| == |b| == |t|
    && forall k :: 0 <= k < |a| ==>
      match Deref(mem, x[k])
      case Int(n) => b[k] == t[k] == a[k] * n && (n == 0 || n == 1)
      case Susp(d) => b[k] == (if a[k] == 1 then 0 else -1) && t[k] == (if a[k] == 1 then 1 else 0)
  }

  lemma HaveSignTerms(s: Store, a: seq<int>, x: seq<nat>)
    requires s.Valid() && |a| == |x| && AreVars(s.views, x) && AreBool(s.views, x) && Signs(a)
    ensures SignTerms(s.mem, a, x, Bots(a, Los(s.mem, x), His(s.mem, x)), Tops(a, Los(s.mem, x), His(s.mem, x)))
    ensures UnitBool(a, Los(s.mem, x), His(s.mem, x))
  {
    forall k | 0 <= k < |a| {
      BoolVar(s, x[k]);
    }
  }

  // Counting the contribution of the ones and the free variables of either sign.
  method CountSigns(mem: seq<Cell>, c0: int, a: seq<int>, x: seq<nat>, ghost b: seq<int>, ghost t: seq<int>)
    returns (c: int, npvs: nat, nnvs: nat)
    requires SignTerms(mem, a, x, b, t) && Signs(a)
    ensures c + npvs == c0 + Sum(t) && c - nnvs == c0 + Sum(b)
  {
    c, npvs, nnvs := c0, 0, 0;
    var i := 1;
    while i <= |x|
      invariant 1 <= i <= |x| + 1
      invariant c + npvs == c0 + Sum(t[..i - 1]) && c - nnvs == c0 + Sum(b[..i - 1])
    {
      SumPrefix(t, i - 1);
      SumPrefix(b, i - 1);
      var arg := Deref(mem, x[i - 1]);
      if arg == Int(1) {
        if a[i - 1] == 1 {
          c := c + 1;
        } else {
          c := c - 1;
        }
      } else if arg != Int(0) {
        if a[i - 1] == 1 {
          npvs := npvs + 1;
        } else {
          nnvs := nnvs + 1;
        }
      }
      i := i + 1;
    }
    assert t[..|x|] == t && b[..|x|] == b;
  }

  // ---- Binding by sign ----

  // A free variable occurs with both signs.
  ghost predicate Mixed(views: map<nat, View>, a: seq<int>, x: seq<nat>)
    requires |a| == |x| && AreVars(views, x)
  {
    exists i, j :: 0 <= i < j < |x| && x[i] == x[j] && views[x[i]].cell == Ref && a[i] != a[j]
  }

  // Where d stands first.
  ghost function FirstAt(x: seq<nat>, d: nat): (k: nat)
    requires d in x
    ensures k < |x| && x[k] == d && forall j :: 0 <= j < k ==> x[j] != d
  {
    if x[0] == d then 0 else FirstAt(x[1..], d) + 1
  }

  function BySign(a: int, vp: int, vn: int): int {
    if a == 1 then vp else vn
  }

  // Free variables that stand before i are bound by the sign of their first coefficient.
  ghost predicate SignDone(views0: map<nat, View>, views: map<nat, View>, a: seq<int>, x: seq<nat>, vp: int, vn: int,
      i: int)
    requires |a| == |x| && AreVars(views0, x)
  {
    && AreVars(views, x) && OnlyVars(views0, views, x)
    && forall k :: 0 <= k < |x| ==>
      if views0[x[k]].cell == Ref && FirstAt(x, x[k]) < i
      then Domain(views[x[k]]) == {BySign(a[FirstAt(x, x[k])], vp, vn)} && views[x[k]].cell.Num?
      else views[x[k]] == views0[x[k]]
  }

  lemma SignStep(views0: map<nat, View>, v1: map<nat, View>, v2: map<nat, View>, a: seq<int>, x: seq<nat>, vp: int,
      vn: int, i: int)
    requires |a| == |x| && AreVars(views0, x) && 0 <= i < |x| && SignDone(views0, v1, a, x, vp, vn, i)
    requires Changed(v1, v2, x[i])
    requires if v1[x[i]].cell == Ref then Domain(v2[x[i]]) == {BySign(a[i], vp, vn)} && v2[x[i]].cell.Num? else v2 == v1
    ensures SignDone(views0, v2, a, x, vp, vn, i + 1)
  {
    OnlyVarsStep(views0, v1, v2, x, x[i]);
    assert FirstAt(x, x[i]) <= i;
  }

  method SignTurn(s: Store, ghost views0: map<nat, View>, a: seq<int>, x: seq<nat>, vp: int, vn: int, i: int)
    requires s.Valid() && |a| == |x| && AreVars(views0, x) && 0 < i <= |x|
    requires SignDone(views0, s.views, a, x, vp, vn, i - 1)
    modifies s`mem, s`trail, s`views
    ensures s.Valid() && SignDone(views0, s.views, a, x, vp, vn, i)
  {
    DerefView(s, x[i - 1]);
    var arg := Deref(s.mem, x[i - 1]);
    if arg.Susp? {
      if a[i - 1] == 1 {
        Assign(s, arg.d, vp);
      } else {
        Assign(s, arg.d, vn);
      }
    }
    SignStep(views0, old(s.views), s.views, a, x, vp, vn, i - 1);
  }

  method BindBySign(s: Store, a: seq<int>, x: seq<nat>, vp: int, vn: int)
    requires s.Valid() && |a| == |x| && AreVars(s.views, x)
    modifies s`mem, s`trail, s`views
    ensures s.Valid() && SignDone(old(s.views), s.views, a, x, vp, vn, |x|)
  {
    ghost var views0 := s.views;
    var i := 1;
    while i <= |x|
      invariant 1 <= i <= |x| + 1 && s.Valid() && SignDone(views0, s.views, a, x, vp, vn, i - 1)
    {
      SignTurn(s, views0, a, x, vp, vn, i);
      i := i + 1;
    }
  }

  // ---- What binding by sign is worth ----

  // The terms are all at their best, or all at their worst, and that is what the equation needs.
  ghost predicate Forced(c: int, a: seq<int>, lo: seq<int>, hi: seq<int>, vp: int, vn: int)
    requires |a| == |lo| == |hi|
  {
    || (vp == 1 && vn == 0 && c + Sum(Tops(a, lo, hi)) == 0)
    || (vp == 0 && vn == 1 && c + Sum(Bots(a, lo, hi)) == 0)
  }

  // Without mixed signs everything is forced: exactly the one solution is left.
  lemma SignForced(c: int, a: seq<int>, views0: map<nat, View>, views: map<nat, View>, x: seq<nat>, lo: seq<int>,
      hi: seq<int>, vp: int, vn: int)
    requires |a| == |x| && AreVars(views0, x) && BoolBounds(views0, x, lo, hi) && Signs(a)
    requires AllBounds(DomsOf(views0, x), lo, hi)
    requires SignDone(views0, views, a, x, vp, vn, |x|) && Forced(c, a, lo, hi, vp, vn) && !Mixed(views0, a, x)
    ensures ExactEq(c, a, DomsOf(views0, x), DomsOf(views, x), true, true)
  {
    SignedAt(a, views0, views, x, lo, hi, vp, vn);
    if vp == 1 {
      TightEq(c, a, DomsOf(views0, x), DomsOf(views, x), lo, hi);
    } else {
      SignLow(c, a, DomsOf(views0, x), DomsOf(views, x), lo, hi);
    }
  }

  lemma SignedAt(a: seq<int>, views0: map<nat, View>, views: map<nat, View>, x: seq<nat>, lo: seq<int>, hi: seq<int>,
      vp: int, vn: int)
    requires |a| == |x| && AreVars(views0, x) && BoolBounds(views0, x, lo, hi) && Signs(a) && !Mixed(views0, a, x)
    requires SignDone(views0, views, a, x, vp, vn, |x|) && ((vp == 1 && vn == 0) || (vp == 0 && vn == 1))
    ensures AllAt(DomsOf(views, x), if vp == 1 then Best(a, lo, hi) else Best(Neg(a), lo, hi))
  {
    forall k | 0 <= k < |x| && views0[x[k]].cell == Ref ensures a[FirstAt(x, x[k])] == a[k] {
      assert FirstAt(x, x[k]) <= k;
    }
  }

  lemma SignLow(c: int, a: seq<int>, d0: seq<set<int>>, d1: seq<set<int>>, lo: seq<int>, hi: seq<int>)
    requires |a| == |d0| == |d1| && Signs(a) && AllBounds(d0, lo, hi) && c + Sum(Bots(a, lo, hi)) == 0
    requires AllAt(d1, Best(Neg(a), lo, hi))
    ensures ExactEq(c, a, d0, d1, true, true)
  {
    LowSums(a, lo, hi);
    TightEq(-c, Neg(a), d0, d1, lo, hi);
    ExactNeg(c, a, d0, d1, true, true);
  }

  lemma LowSums(a: seq<int>, lo: seq<int>, hi: seq<int>)
    requires |a| == |lo| == |hi| && Signs(a)
    ensures Sum(Tops(Neg(a), lo, hi)) == -Sum(Bots(a, lo, hi))
  {
    forall k | 0 <= k < |a| ensures Tops(Neg(a), lo, hi)[k] == Neg(Bots(a, lo, hi))[k] {
    }
    assert Tops(Neg(a), lo, hi) == Neg(Bots(a, lo, hi));
    SumNeg(Bots(a, lo, hi));
  }

  // In the forced case every solution has its positions where the signs say.
  lemma ForcedRoot(c: int, a: seq<int>, d0: seq<set<int>>, lo: seq<int>, hi: seq<int>, vp: int, vn: int, v: seq<int>,
      k: int)
    requires |a| == |d0| && Signs(a) && AllBounds(d0, lo, hi) && Forced(c, a, lo, hi, vp, vn) && Solution(c, a, d0, v)
    requires 0 <= k < |a| && lo[k] == 0 && hi[k] == 1
    ensures v[k] == BySign(a[k], vp, vn)
  {
    if vp == 1 {
      OnlyBest(a, d0, lo, hi, v);
    } else {
      LowSums(a, lo, hi);
      EqNeg(c, a, v);
      OnlyBest(Neg(a), d0, lo, hi, v);
    }
  }

  // With a free variable of both signs nothing can be right.
  lemma MixedNone(c: int, a: seq<int>, views0: map<nat, View>, x: seq<nat>, lo: seq<int>, hi: seq<int>, vp: int,
      vn: int)
    requires |a| == |x| && AreVars(views0, x) && BoolBounds(views0, x, lo, hi) && Signs(a)
    requires AllBounds(DomsOf(views0, x), lo, hi)
    requires Forced(c, a, lo, hi, vp, vn) && Mixed(views0, a, x)
    ensures forall v :: !Root(c, a, x, DomsOf(views0, x), v)
  {
    var i, j :| 0 <= i < j < |x| && x[i] == x[j] && views0[x[i]].cell == Ref && a[i] != a[j];
    forall v ensures !Root(c, a, x, DomsOf(views0, x), v) {
      if Root(c, a, x, DomsOf(views0, x), v) {
        ForcedRoot(c, a, DomsOf(views0, x), lo, hi, vp, vn, v, i);
        ForcedRoot(c, a, DomsOf(views0, x), lo, hi, vp, vn, v, j);
      }
    }
  }

  // Yet all variables are bound, and the propagator is done: what it leaves does not solve the equation.
  lemma MixedUnsettled(c: int, a: seq<int>, views0: map<nat, View>, views: map<nat, View>, x: seq<nat>, lo: seq<int>,
      hi: seq<int>, vp: int, vn: int)
    requires |a| == |x| && AreVars(views0, x) && BoolBounds(views0, x, lo, hi) && Signs(a)
    requires AllBounds(DomsOf(views0, x), lo, hi)
    requires SignDone(views0, views, a, x, vp, vn, |x|) && Forced(c, a, lo, hi, vp, vn) && Mixed(views0, a, x)
    ensures SoundEq(c, a, x, DomsOf(views0, x), DomsOf(views, x), true) && !Settled(c, a, x, DomsOf(views, x))
  {
    var d0, d1 := DomsOf(views0, x), DomsOf(views, x);
    MixedNone(c, a, views0, x, lo, hi, vp, vn);
    SignShrinks(a, views0, views, x, lo, hi, vp, vn);
    var v := seq(|x|, k requires 0 <= k < |x| => if views[x[k]].cell.Num? then views[x[k]].cell.n else 0);
    assert Agree(x, v);
    assert InDoms(v, d1);
    assert InDoms(v, d0);
    assert !Root(c, a, x, d0, v);
  }

  // Binding takes values away only, and leaves no variable free.
  lemma SignShrinks(a: seq<int>, views0: map<nat, View>, views: map<nat, View>, x: seq<nat>, lo: seq<int>, hi: seq<int>,
      vp: int, vn: int)
    requires |a| == |x| && AreVars(views0, x) && BoolBounds(views0, x, lo, hi) && AllBounds(DomsOf(views0, x), lo, hi)
    requires SignDone(views0, views, a, x, vp, vn, |x|) && vp in {0, 1} && vn in {0, 1}
    ensures forall k :: 0 <= k < |x| ==> DomsOf(views, x)[k] <= DomsOf(views0, x)[k] && views[x[k]].cell.Num?
  {
    forall k | 0 <= k < |x| ensures DomsOf(views, x)[k] <= DomsOf(views0, x)[k] && views[x[k]].cell.Num? {
      assert Bounds(DomsOf(views0, x)[k], lo[k], hi[k]);
    }
  }

  // A forced call: binding is right exactly when no free variable occurs with both signs.
  ghost predicate BoundRightly(c: int, a: seq<int>, v0: map<nat, View>, v1: map<nat, View>, x: seq<nat>)
    requires |a| == |x| && AreVars(v0, x) && AreVars(v1, x)
  {
    && SoundEq(c, a, x, DomsOf(v0, x), DomsOf(v1, x), true)
    && (!Mixed(v0, a, x) ==> ExactEq(c, a, DomsOf(v0, x), DomsOf(v1, x), true, true))
    && (Settled(c, a, x, DomsOf(v1, x)) <==> !Mixed(v0, a, x))
  }

  method BindForcedSigns(s: Store, ghost c: int, a: seq<int>, x: seq<nat>, ghost lo: seq<int>, ghost hi: seq<int>,
      vp: int, vn: int)
    requires s.Valid() && |a| == |x| && AreVars(s.views, x) && Signs(a) && AllBounds(DomsOf(s.views, x), lo, hi)
    requires BoolBounds(s.views, x, lo, hi) && Forced(c, a, lo, hi, vp, vn)
    modifies s`mem, s`trail, s`views
    ensures s.Valid() && AreVars(s.views, x) && OnlyVars(old(s.views), s.views, x)
    ensures BoundRightly(c, a, old(s.views), s.views, x) && SignDone(old(s.views), s.views, a, x, vp, vn, |x|)
  {
    ghost var views0 := s.views;
    BindBySign(s, a, x, vp, vn);
    if Mixed(views0, a, x) {
      MixedUnsettled(c, a, views0, s.views, x, lo, hi, vp, vn);
    } else {
      SignForced(c, a, views0, s.views, x, lo, hi, vp, vn);
      ExactSound(c, a, x, DomsOf(views0, x), DomsOf(s.views, x), true, true);
    }
  }

  // The branch coes_one_mone_bool: all free variables are forced, none is, or there is no solution.
  method EqSignsBool(s: Store, c0: int, a: seq<int>, x: seq<nat>) returns (ok: bool, killed: bool)
    requires s.Valid() && |a| == |x| && AreVars(s.views, x) && AreBool(s.views, x) && Signs(a)
    modifies s`mem, s`trail, s`views
    ensures s.Valid() && AreVars(s.views, x) && OnlyVars(old(s.views), s.views, x)
    ensures var b, t := Sum(Bots(a, Los(old(s.mem), x), His(old(s.mem), x))),
        Sum(Tops(a, Los(old(s.mem), x), His(old(s.mem), x)));
      (ok <==> c0 + b <= 0 <= c0 + t) && (killed <==> ok && (c0 + b == 0 || c0 + t == 0))
    ensures var low := c0 + Sum(Bots(a, Los(old(s.mem), x), His(old(s.mem), x))) == 0;
      if killed then SignDone(old(s.views), s.views, a, x, if low then 0 else 1, if low then 1 else 0, |x|)
      else s.views == old(s.views)
    ensures SoundEq(c0, a, x, DomsOf(old(s.views), x), DomsOf(s.views, x), ok)
    ensures !Mixed(old(s.views), a, x) ==> ExactEq(c0, a, DomsOf(old(s.views), x), DomsOf(s.views, x), ok, killed)
    ensures killed ==> (Settled(c0, a, x, DomsOf(s.views, x)) <==> !Mixed(old(s.views), a, x))
  {
    ghost var lo, hi, d0 := Los(s.mem, x), His(s.mem, x), DomsOf(s.views, x);
    ViewsBounds(s, x);
    BoolsBounded(s, x);
    HaveSignTerms(s, a, x);
    var c, npvs, nnvs := CountSigns(s.mem, c0, a, x, Bots(a, lo, hi), Tops(a, lo, hi));
    ok, killed := true, true;
    if c >= nnvs {
      if c > nnvs {
        OutOfReach(c0, a, d0, d0, lo, hi);
        ExactSound(c0, a, x, d0, d0, false, false);
        return false, false;
      }
      BindForcedSigns(s, c0, a, x, lo, hi, 0, 1);
    } else if c <= -(npvs as int) {
      if c < -(npvs as int) {
        OutOfReach(c0, a, d0, d0, lo, hi);
        ExactSound(c0, a, x, d0, d0, false, false);
        return false, false;
      }
      BindForcedSigns(s, c0, a, x, lo, hi, 1, 0);
    } else {
      FreeEq(c0, a, d0, lo, hi);
      ExactSound(c0, a, x, d0, d0, true, false);
      killed := false;
    }
  }

  // ---- An equation that is accepted although it has no solution: 1 + X + U - X - V = 0 with U = 1 ----

  ghost predicate ExampleVars(views: map<nat, View>, x: nat, u: nat, v: nat) {
    && x in views && u in views && v in views && x != u && x != v && u != v
    && views[x].cell == views[v].cell == Ref && views[x].described == views[v].described == {0, 1}
    && views[u].cell == Num(1)
  }

  // X stands with both signs, and whatever X and V are, 2 - V is not 0.
  lemma ExampleHasNone(views: map<nat, View>, x: nat, u: nat, v: nat)
    requires ExampleVars(views, x, u, v)
    ensures var xs, a := [x, u, x, v], [1, 1, -1, -1];
      Mixed(views, a, xs) && forall w :: !Root(1, a, xs, DomsOf(views, xs), w)
  {
    var xs, a := [x, u, x, v], [1, 1, -1, -1];
    assert xs[0] == xs[2] && a[0] != a[2];
    forall w ensures !Root(1, a, xs, DomsOf(views, xs), w) {
      if Root(1, a, xs, DomsOf(views, xs), w) {
        AgreeAt(xs, w, 0, 2);
        assert w[1] in DomsOf(views, xs)[1] && w[3] in DomsOf(views, xs)[3];
        DotFour(a, w);
      }
    }
  }

  lemma DotFour(a: seq<int>, w: seq<int>)
    requires |a| == |w| == 4
    ensures Dot(a, w) == a[0] * w[0] + a[1] * w[1] + a[2] * w[2] + a[3] * w[3]
  {
    var t := Terms(a, w);
    DotIsSum(a, w);
    SumFour(t);
  }

  lemma SumFour(t: seq<int>)
    requires |t| == 4
    ensures Sum(t) == t[0] + t[1] + t[2] + t[3]
  {
    assert t[..4] == t && t[..0] == [];
    SumPrefix(t, 0);
    SumPrefix(t, 1);
    SumPrefix(t, 2);
    SumPrefix(t, 3);
  }

  // The propagator reports success, and that it has nothing left to do.
  method AcceptExample(s: Store, x: nat, u: nat, v: nat) returns (ok: bool, killed: bool)
    requires s.Valid() && ExampleVars(s.views, x, u, v)
    modifies s`mem, s`trail, s`views
    ensures ok && killed && forall w :: !Root(1, [1, 1, -1, -1], [x, u, x, v], DomsOf(old(s.views), [x, u, x, v]), w)
    ensures s.Valid() && AreVars(s.views, [x, u, x, v])
    ensures !Settled(1, [1, 1, -1, -1], [x, u, x, v], DomsOf(s.views, [x, u, x, v]))
  {
    var xs, a := [x, u, x, v], [1, 1, -1, -1];
    ExampleHasNone(s.views, x, u, v);
    ExampleSums(s, x, u, v);
    ok, killed := EqSignsBool(s, 1, a, xs);
  }

  lemma ExampleSums(s: Store, x: nat, u: nat, v: nat)
    requires s.Valid() && ExampleVars(s.views, x, u, v)
    ensures var xs, a := [x, u, x, v], [1, 1, -1, -1];
      && Sum(Bots(a, Los(s.mem, xs), His(s.mem, xs))) == -1 && Sum(Tops(a, Los(s.mem, xs), His(s.mem, xs))) == 2
      && AreBool(s.views, xs)
  {
    var xs, a := [x, u, x, v], [1, 1, -1, -1];
    BoolVar(s, x);
    BoolVar(s, u);
    BoolVar(s, v);
    DerefView(s, u);
    SumFour(Bots(a, Los(s.mem, xs), His(s.mem, xs)));
    SumFour(Tops(a, Los(s.mem, xs), His(s.mem, xs)));
  }
}
