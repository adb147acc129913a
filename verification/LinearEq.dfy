// Propagation of c + a1*x1 + ... + an*xn = 0 over bounds. A variable may stand at several positions.
module LinearEq {
  import opened Descents
  import opened Linear
  import opened LinearSweep
  import opened LinearTerms
  import opened Region
  import opened Sets
  import opened Stores
  import opened Trail

  // ---- What the propagator is for ----

  // A value for each position.
  ghost predicate Solution(c: int, a: seq<int>, d0: seq<set<int>>, v: seq<int>) {
    InDoms(v, d0) && SolvesEq(c, a, v)
  }

  // A solution: a value for each variable.
  ghost predicate Root(c: int, a: seq<int>, x: seq<nat>, d0: seq<set<int>>, v: seq<int>) {
    Solution(c, a, d0, v) && Agree(x, v)
  }

  // No solution is lost, failure means there is none, and domains only shrink.
  ghost predicate SoundEq(c: int, a: seq<int>, x: seq<nat>, d0: seq<set<int>>, d1: seq<set<int>>, ok: bool) {
    && |d0| == |d1| == |a|
    && (forall k :: 0 <= k < |a| && ok ==> d1[k] <= d0[k])
    && (forall v :: Root(c, a, x, d0, v) ==> ok && InDoms(v, d1))
  }

  // On fixed values the propagator is a test.
  ghost predicate DecidesEq(c: int, a: seq<int>, d0: seq<set<int>>, ok: bool) {
    forall v :: InDoms(v, d0) && |v| == |a| && (forall k :: 0 <= k < |d0| ==> d0[k] == {v[k]}) && ok ==>
        SolvesEq(c, a, v)
  }

  // ---- One call ----

  // The variables at the start of the call, and the equation.
  datatype Problem = Problem(v0: map<nat, View>, c: int, a: seq<int>, x: seq<nat>)

  ghost predicate Posed(p: Problem) {
    |p.a| == |p.x| && AreVars(p.v0, p.x)
  }

  ghost function Doms0(p: Problem): (doms: seq<set<int>>)
    requires Posed(p)
    ensures |doms| == |p.a|
  {
    DomsOf(p.v0, p.x)
  }

  ghost predicate Solves(p: Problem, v: seq<int>)
    requires Posed(p)
  {
    Root(p.c, p.a, p.x, Doms0(p), v)
  }

  ghost predicate NoRoot(p: Problem)
    requires Posed(p)
  {
    forall v :: !Solves(p, v)
  }

  // c + a1*v1 + ... + ai*vi
  ghost function Partial(c: int, a: seq<int>, v: seq<int>, i: int): int
    requires |a| == |v| && 0 <= i <= |a|
  {
    c + Dot(a[..i], v[..i])
  }

  // The i-th partial sum of every solution lies between l and u.
  ghost predicate PartialIn(p: Problem, i: int, l: int, u: int)
    requires Posed(p) && 0 <= i <= |p.a|
  {
    forall v :: Solves(p, v) ==> l <= Partial(p.c, p.a, v, i) <= u
  }

  lemma PartialStep(c: int, a: seq<int>, v: seq<int>, i: int)
    requires |a| == |v| && 0 < i <= |a|
    ensures Partial(c, a, v, i) == Partial(c, a, v, i - 1) + a[i - 1] * v[i - 1]
  {
    assert a[..i][..i - 1] == a[..i - 1] && v[..i][..i - 1] == v[..i - 1];
  }

  lemma PartialLast(c: int, a: seq<int>, v: seq<int>)
    requires |a| == |v|
    ensures Partial(c, a, v, |a|) == c + Dot(a, v)
  {
    assert a[..|a|] == a && v[..|a|] == v;
  }

  // The bounds of the forward pass hold of every assignment.
  lemma ForwardBounds(c: int, a: seq<int>, doms: seq<set<int>>, lo: seq<int>, hi: seq<int>, v: seq<int>, i: int)
    requires |a| == |doms| && AllBounds(doms, lo, hi) && InDoms(v, doms) && 0 <= i <= |a|
    ensures c + Sum(Bots(a, lo, hi)[..i]) <= Partial(c, a, v, i) <= c + Sum(Tops(a, lo, hi)[..i])
  {
    DotBounds(a[..i], v[..i], doms[..i], lo[..i], hi[..i]);
    assert Bots(a, lo, hi)[..i] == Bots(a[..i], lo[..i], hi[..i]);
    assert Tops(a, lo, hi)[..i] == Tops(a[..i], lo[..i], hi[..i]);
  }

  // Cutting to a range is keeping the values that fit.
  lemma FittingCut(dom: set<int>, a: int, l: int, u: int, from: int, to: int)
    requires forall v :: Fits(a, v, l, u) <==> from <= v <= to
    ensures Fitting(dom, a, l, u) == Between(dom, from, to)
  {
  }

  // ---- One term ----

  // The values a position offers: those described, also when the variable was bound since it was looked up.
  ghost function Offers(arg: Arg, v: View): set<int> {
    match arg
    case Int(n) => {n}
    case Susp(_) => v.described
  }

  // The argument was looked up earlier in the call.
  ghost predicate ArgFor(arg: Arg, d: nat, v: View) {
    arg == Susp(d) || (arg.Int? && v.cell == Num(arg.n))
  }

  // What the reduction leaves of the values that fit between l and u.
  ghost predicate ReducedTo(arg: Arg, v: View, v': View, a: int, l: int, u: int, ok: bool) {
    var r := Fitting(Offers(arg, v), a, l, u);
    (ok <==> r != {}) && if arg.Int? then v' == v else Narrows(v, r, v')
  }

  // The bounds handed on: what remains of l2..u2 with the term at either end of what is left.
  ghost predicate HandsOn(r: set<int>, a: int, l2: int, u2: int, first: int, last: int, lo: int, hi: int) {
    Bounds(r, lo, hi) && first == l2 - Top(a, lo, hi) && last == u2 - Bot(a, lo, hi)
  }

  // REDUCE_DOMAIN_nooverflow_p and _p1; with l2 = u2 = 0 also REDUCE_LAST_TERM_DOMAIN_nooverflow_p and _p1.
  method ReduceEqPos(s: Store, a: int, arg: Arg, ghost d: nat, l1: int, u1: int, l2: int, u2: int)
    returns (ok: bool, first: int, last: int, ghost lo: int, ghost hi: int)
    requires s.Valid() && d in s.views && a > 0 && ArgFor(arg, d, s.views[d])
    modifies s`mem, s`trail, s`views
    ensures s.Valid() && Changed(old(s.views), s.views, d)
    ensures ReducedTo(arg, old(s.views[d]), s.views[d], a, l2 - u1, u2 - l1, ok)
    ensures ok ==> HandsOn(Fitting(Offers(arg, old(s.views[d])), a, l2 - u1, u2 - l1), a, l2, u2, first, last, lo, hi)
  {
    first, last, lo, hi := l2 - u1, u2 - l1, 0, 0;
    match arg
    case Susp(dv) =>
      var first0, last0 := first, last;
      if a != 1 {
        first0 := UpDiv(first, a);
        last0 := LowDiv(last, a);
      }
      ghost var l, u := first, last;
      forall v ensures Fits(a, v, l, u) <==> first0 <= v <= last0 {
      }
      FittingCut(s.views[d].described, a, l, u, first0, last0);
      var dvFirst, dvLast;
      ok, dvFirst, dvLast := DomainRegion(s, dv, first0, last0);
      lo, hi := dvFirst, dvLast;
      first, last := l2 - a * dvLast, u2 - a * dvFirst;
    case Int(n) =>
      var t := a * n;
      lo, hi := n, n;
      assert n in Fitting({n}, a, first, last) <==> first <= t <= last;
      if t < first || t > last {
        assert Fitting({n}, a, first, last) == {};
        return false, first, last, n, n;
      }
      assert Fitting({n}, a, first, last) == {n};
      return true, l2 - t, u2 - t, n, n;
  }

  // REDUCE_DOMAIN_nooverflow_m and _m1; b is minus the coefficient.
  method ReduceEqNeg(s: Store, b: int, arg: Arg, ghost d: nat, l1: int, u1: int, l2: int, u2: int)
    returns (ok: bool, first: int, last: int, ghost lo: int, ghost hi: int)
    requires s.Valid() && d in s.views && b > 0 && ArgFor(arg, d, s.views[d])
    modifies s`mem, s`trail, s`views
    ensures s.Valid() && Changed(old(s.views), s.views, d)
    ensures ReducedTo(arg, old(s.views[d]), s.views[d], -b, l2 - u1, u2 - l1, ok)
    ensures ok ==> HandsOn(Fitting(Offers(arg, old(s.views[d])), -b, l2 - u1, u2 - l1), -b, l2, u2, first, last, lo, hi)
  {
    ghost var a, l, u := -b, l2 - u1, u2 - l1;
    first, last, lo, hi := l1 - u2, u1 - l2, 0, 0;
    match arg
    case Susp(dv) =>
      var first0, last0 := first, last;
      if b != 1 {
        first0 := UpDiv(first, b);
        last0 := LowDiv(last, b);
      }
      forall v ensures Fits(a, v, l, u) <==> first0 <= v <= last0 {
        MinusProduct(b, v);
      }
      FittingCut(s.views[d].described, a, l, u, first0, last0);
      var dvFirst, dvLast;
      ok, dvFirst, dvLast := DomainRegion(s, dv, first0, last0);
      lo, hi := dvFirst, dvLast;
      MinusProduct(b, dvFirst);
      MinusProduct(b, dvLast);
      first, last := l2 + b * dvFirst, u2 + b * dvLast;
    case Int(n) =>
      var t := b * n;
      lo, hi := n, n;
      MinusProduct(b, n);
      assert n in Fitting({n}, a, l, u) <==> first <= t <= last;
      if t < first || t > last {
        assert Fitting({n}, a, l, u) == {};
        return false, first, last, n, n;
      }
      assert Fitting({n}, a, l, u) == {n};
      return true, t + l2, t + u2, n, n;
  }

  // ---- What a reduction keeps ----

  // Every solution is still possible: bound variables have their value in it.
  ghost predicate Held(p: Problem, views: map<nat, View>, v: seq<int>)
    requires Posed(p)
  {
    |v| == |p.x| && forall k :: 0 <= k < |p.x| && p.v0[p.x[k]].cell == Ref ==>
      p.x[k] in views && Keeps(views[p.x[k]], v[k])
  }

  ghost predicate Surviving(p: Problem, views: map<nat, View>) {
    && Posed(p) && AreVars(views, p.x) && OnlyVars(p.v0, views, p.x) && AllDescend(p.v0, views, p.x)
    && forall v :: Solves(p, v) ==> Held(p, views, v)
  }

  lemma SurvivingStart(p: Problem)
    requires Posed(p)
    ensures Surviving(p, p.v0)
  {
  }

  // What the value of position i - 1 in a solution is offered, and fits.
  lemma RootFits(p: Problem, views: map<nat, View>, v: seq<int>, i: int, l1: int, u1: int, l2: int, u2: int)
    requires Surviving(p, views) && 0 < i <= |p.a| && Solves(p, v)
    requires PartialIn(p, i - 1, l1, u1) && PartialIn(p, i, l2, u2)
    ensures v[i - 1] in Fitting(Offers(ArgOf(p.v0[p.x[i - 1]], p.x[i - 1]), views[p.x[i - 1]]), p.a[i - 1], l2 - u1,
        u2 - l1)
  {
    PartialStep(p.c, p.a, v, i);
    assert Fits(p.a[i - 1], v[i - 1], l2 - u1, u2 - l1);
    assert Held(p, views, v) && v[i - 1] in Doms0(p)[i - 1];
  }

  lemma NoneFits(p: Problem, views: map<nat, View>, i: int, l1: int, u1: int, l2: int, u2: int)
    requires Surviving(p, views) && 0 < i <= |p.a|
    requires PartialIn(p, i - 1, l1, u1) && PartialIn(p, i, l2, u2)
    requires Fitting(Offers(ArgOf(p.v0[p.x[i - 1]], p.x[i - 1]), views[p.x[i - 1]]), p.a[i - 1], l2 - u1, u2 - l1) == {}
    ensures NoRoot(p)
  {
    forall v ensures !Solves(p, v) {
      if Solves(p, v) {
        RootFits(p, views, v, i, l1, u1, l2, u2);
      }
    }
  }

  // The variable of position k was narrowed to r, which the solution respects at that position and so at all that share
  // it.
  lemma HeldStep(p: Problem, v1: map<nat, View>, v2: map<nat, View>, v: seq<int>, k: int, r: set<int>)
    requires Posed(p) && AreVars(v1, p.x) && AreVars(v2, p.x) && Held(p, v1, v) && Agree(p.x, v) && 0 <= k < |p.x|
    requires Changed(v1, v2, p.x[k]) && Narrows(v1[p.x[k]], r, v2[p.x[k]]) && v[k] in r
    ensures Held(p, v2, v)
  {
    forall j | 0 <= j < |p.x| && p.v0[p.x[j]].cell == Ref ensures Keeps(v2[p.x[j]], v[j]) {
      assert Keeps(v1[p.x[j]], v[j]);
      if p.x[j] == p.x[k] {
        AgreeAt(p.x, v, j, k);
        assert |r| == 1 ==> v2[p.x[k]].cell.n in r;
        assert |r| != 0 by {
          assert v[k] in r;
        }
      }
    }
  }

  lemma SurvivingStep(p: Problem, v1: map<nat, View>, v2: map<nat, View>, i: int, l1: int, u1: int, l2: int, u2: int)
    requires Surviving(p, v1) && 0 < i <= |p.a| && Changed(v1, v2, p.x[i - 1])
    requires PartialIn(p, i - 1, l1, u1) && PartialIn(p, i, l2, u2)
    requires ReducedTo(ArgOf(p.v0[p.x[i - 1]], p.x[i - 1]), v1[p.x[i - 1]], v2[p.x[i - 1]], p.a[i - 1], l2 - u1,
        u2 - l1, true)
    ensures Surviving(p, v2)
  {
    var d := p.x[i - 1];
    var arg := ArgOf(p.v0[d], d);
    var r := Fitting(Offers(arg, v1[d]), p.a[i - 1], l2 - u1, u2 - l1);
    OnlyVarsStep(p.v0, v1, v2, p.x, d);
    if arg.Int? {
      assert v2 == v1;
    } else {
      DescendsStep(p.v0, v1, v2, p.x, i - 1, r);
      forall v | Solves(p, v) ensures Held(p, v2, v) {
        RootFits(p, v1, v, i, l1, u1, l2, u2);
        HeldStep(p, v1, v2, v, i - 1, r);
      }
    }
  }

  // The bounds handed on hold of the partial sum before.
  lemma HandedOn(p: Problem, views: map<nat, View>, i: int, l1: int, u1: int, l2: int, u2: int, first: int, last: int,
      lo: int, hi: int)
    requires Surviving(p, views) && 0 < i <= |p.a| && PartialIn(p, i - 1, l1, u1) && PartialIn(p, i, l2, u2)
    requires HandsOn(Fitting(Offers(ArgOf(p.v0[p.x[i - 1]], p.x[i - 1]), views[p.x[i - 1]]), p.a[i - 1], l2 - u1,
        u2 - l1),
                     p.a[i - 1], l2, u2, first, last, lo, hi)
    ensures PartialIn(p, i - 1, first, last)
  {
    forall v | Solves(p, v) ensures first <= Partial(p.c, p.a, v, i - 1) <= last {
      RootFits(p, views, v, i, l1, u1, l2, u2);
      TermBounds(p.a[i - 1], lo, hi, v[i - 1]);
      PartialStep(p.c, p.a, v, i);
    }
  }

  // In the end every solution has its values in the domains, and these have only shrunk.
  lemma SurvivingSound(p: Problem, views: map<nat, View>, ok: bool)
    requires Posed(p) && AreVars(views, p.x) && if ok then Surviving(p, views) else NoRoot(p)
    ensures SoundEq(p.c, p.a, p.x, Doms0(p), DomsOf(views, p.x), ok)
  {
    var d0, d1 := Doms0(p), DomsOf(views, p.x);
    forall k | ok && 0 <= k < |p.a| ensures d1[k] <= d0[k] {
      assert Descends(p.v0[p.x[k]], views[p.x[k]]);
    }
    forall v | Root(p.c, p.a, p.x, d0, v) ensures ok && InDoms(v, d1) {
      assert Solves(p, v);
      assert Held(p, views, v);
      forall k | 0 <= k < |v| ensures v[k] in d1[k] {
        assert v[k] in d0[k] && Descends(p.v0[p.x[k]], views[p.x[k]]);
      }
    }
  }

  // ---- Exactly what a sweep does when no variable is repeated ----

  // The extremes of the terms: over the domains at the start, and over the present ones.
  datatype Ends = Ends(b0: seq<int>, t0: seq<int>, b1: seq<int>, t1: seq<int>)

  // The sweep has dealt with the terms from i on and left the others alone.
  ghost predicate Sweeping(p: Problem, views: map<nat, View>, e: Ends, i: int) {
    && Posed(p) && AreVars(views, p.x) && 0 <= i <= |p.a|
    && (forall k :: 0 <= k < i ==> views[p.x[k]] == p.v0[p.x[k]])
    && Extremes(p.a, Doms0(p), e.b0, e.t0) && Extremes(p.a, DomsOf(views, p.x), e.b1, e.t1)
    && SweptFrom(p.c, p.a, Doms0(p), DomsOf(views, p.x), e.b0, e.t0, e.b1, e.t1, i)
  }

  ghost predicate Tight(c: int, e: Ends, i: int, l: int, u: int) {
    && |e.b0| == |e.t0| == |e.b1| == |e.t1| && 0 <= i <= |e.b0|
    && Squeezed(c, e.b0, e.t0, e.b1, e.t1, i, l, u)
  }

  ghost predicate Done(c: int, e: Ends, i: int) {
    && |e.b0| == |e.t0| == |e.b1| == |e.t1| && 0 <= i <= |e.b0|
    && Idle(c, e.b0, e.t0, e.b1, e.t1, i)
  }

  ghost predicate ExactAt(p: Problem, views: map<nat, View>, e: Ends, i: int, l: int, u: int) {
    && FreeAt(p, views, e, i, l, u)
    && (Distinct(p.x) ==> Sweeping(p, views, e, i) && Tight(p.c, e, i, l, u))
  }

  // ---- What holds of free variables, repeated or not ----

  // While the variable at position k is free, its values fit between the extremes of the other terms.
  ghost predicate FreeFits(p: Problem, views: map<nat, View>, b: seq<int>, t: seq<int>, k: int)
    requires AreVars(views, p.x) && |p.x| == |p.a| == |b| == |t| && 0 <= k < |p.x|
  {
    views[p.x[k]].cell == Ref ==> forall v :: v in views[p.x[k]].described ==> FitsOthers(p.c, p.a, b, t, k, v)
  }

  ghost predicate FreeFrom(p: Problem, views: map<nat, View>, b: seq<int>, t: seq<int>, i: int)
    requires AreVars(views, p.x) && |p.x| == |p.a| == |b| == |t| && 0 <= i
  {
    forall k :: i <= k < |p.x| ==> FreeFits(p, views, b, t, k)
  }

  // The positions from i on are dealt with; l and u are no tighter than the terms there allow.
  ghost predicate FreeAt(p: Problem, views: map<nat, View>, e: Ends, i: int, l: int, u: int) {
    && Posed(p) && AreVars(views, p.x) && 0 <= i <= |p.a| && Extremes(p.a, Doms0(p), e.b0, e.t0)
    && -From(e.t0, i) <= l && u <= -From(e.b0, i) && FreeFrom(p, views, e.b0, e.t0, i)
  }

  // The values left of a free variable fit at each of its positions.
  ghost predicate FreeLeft(p: Problem, views: map<nat, View>)
    requires Posed(p) && AreVars(views, p.x)
  {
    exists b, t :: Extremes(p.a, Doms0(p), b, t) && FreeFrom(p, views, b, t, 0)
  }

  lemma OffersIn(p: Problem, v1: map<nat, View>, k: int)
    requires Posed(p) && AreVars(v1, p.x) && 0 <= k < |p.x| && Descends(p.v0[p.x[k]], v1[p.x[k]])
    ensures Offers(ArgOf(p.v0[p.x[k]], p.x[k]), v1[p.x[k]]) <= Doms0(p)[k]
  {
  }

  // A turn narrows its variable wherever it stands.
  lemma FreeLater(p: Problem, v1: map<nat, View>, v2: map<nat, View>, b: seq<int>, t: seq<int>, d: nat, k: int)
    requires AreVars(v1, p.x) && AreVars(v2, p.x) && |p.x| == |p.a| == |b| == |t| && 0 <= k < |p.x|
    requires FreeFits(p, v1, b, t, k) && Changed(v1, v2, d) && d in v1
    requires v2[d].cell == Ref ==> v1[d].cell == Ref && v2[d].described <= v1[d].described
    ensures FreeFits(p, v2, b, t, k)
  {
  }

  // The bounds handed on stay outside those of the forward pass.
  lemma FirstOutside(p: Problem, e: Ends, i: int, l2: int, u2: int, r: set<int>, first: int, last: int, lo: int,
      hi: int)
    requires Posed(p) && 0 < i <= |p.a| && Extremes(p.a, Doms0(p), e.b0, e.t0) && r <= Doms0(p)[i - 1]
    requires -From(e.t0, i) <= l2 && u2 <= -From(e.b0, i) && HandsOn(r, p.a[i - 1], l2, u2, first, last, lo, hi)
    ensures -From(e.t0, i - 1) <= first && last <= -From(e.b0, i - 1)
  {
    ExtremeFacts(p.a, Doms0(p), e.b0, e.t0);
    FromStep(e.t0, i - 1);
    FromStep(e.b0, i - 1);
    assert lo in Doms0(p)[i - 1] && hi in Doms0(p)[i - 1];
  }

  lemma FreeTurn(p: Problem, v1: map<nat, View>, v2: map<nat, View>, e: Ends, i: int, l2: int, u2: int, first: int,
      last: int, lo: int, hi: int)
    requires 0 < i && FreeAt(p, v1, e, i, l2, u2) && Descends(p.v0[p.x[i - 1]], v1[p.x[i - 1]])
    requires Turned(p, v1, v2, i, Before(p.c, e.b0, i - 1), Before(p.c, e.t0, i - 1), l2, u2, first, last, lo, hi)
    ensures -From(e.t0, i - 1) <= first && last <= -From(e.b0, i - 1) && FreeFrom(p, v2, e.b0, e.t0, i - 1)
  {
    var d, l1, u1 := p.x[i - 1], Before(p.c, e.b0, i - 1), Before(p.c, e.t0, i - 1);
    var arg := ArgOf(p.v0[d], d);
    OffersIn(p, v1, i - 1);
    FirstOutside(p, e, i, l2, u2, Fitting(Offers(arg, v1[d]), p.a[i - 1], l2 - u1, u2 - l1), first, last, lo, hi);
    forall k | i - 1 <= k < |p.x| ensures FreeFits(p, v2, e.b0, e.t0, k) {
      if k >= i {
        FreeLater(p, v1, v2, e.b0, e.t0, d, k);
      }
    }
  }

  // After an early exit the positions before fit anyway.
  lemma FreeIdle(p: Problem, views: map<nat, View>, e: Ends, i: int)
    requires Surviving(p, views) && 0 <= i <= |p.a| && Extremes(p.a, Doms0(p), e.b0, e.t0)
    requires FreeFrom(p, views, e.b0, e.t0, i) && (i > 0 ==> Idle(p.c, e.b0, e.t0, e.b0, e.t0, i))
    ensures FreeLeft(p, views)
  {
    forall k | 0 <= k < i ensures FreeFits(p, views, e.b0, e.t0, k) {
      assert Descends(p.v0[p.x[k]], views[p.x[k]]);
      forall v | views[p.x[k]].cell == Ref && v in views[p.x[k]].described
        ensures FitsOthers(p.c, p.a, e.b0, e.t0, k, v) {
        IdleFits(p.c, p.a, Doms0(p), e.b0, e.t0, i, k, v);
      }
    }
    assert FreeFrom(p, views, e.b0, e.t0, 0);
  }

  // ---- The sweep, term by term ----

  // The reduced term has new extremes; the sweep has gone one term further.
  lemma SweepDoms(c: int, a: seq<int>, d0: seq<set<int>>, d1: seq<set<int>>, d2: seq<set<int>>, e: Ends, e': Ends,
      i: int, l2: int, u2: int, lo: int, hi: int)
    requires |a| == |d0| == |d1| == |d2| && 0 < i <= |a|
    requires Extremes(a, d0, e.b0, e.t0) && Extremes(a, d1, e.b1, e.t1) && Tight(c, e, i, l2, u2)
    requires SweptFrom(c, a, d0, d1, e.b0, e.t0, e.b1, e.t1, i) && d2 == d1[i - 1 := d2[i - 1]]
    requires Bounds(d2[i - 1], lo, hi)
    requires d2[i - 1] == Fitting(d0[i - 1], a[i - 1], l2 - Before(c, e.t0, i - 1), u2 - Before(c, e.b0, i - 1))
    requires e' == e.(b1 := e.b1[i - 1 := Bot(a[i - 1], lo, hi)], t1 := e.t1[i - 1 := Top(a[i - 1], lo, hi)])
    ensures Extremes(a, d2, e'.b1, e'.t1) && SweptFrom(c, a, d0, d2, e.b0, e.t0, e'.b1, e'.t1, i - 1)
    ensures Tight(c, e', i, l2, u2)
  {
    ExtremesUpdate(a, d1, e.b1, e.t1, i - 1, d2[i - 1], lo, hi);
    ExtremeFacts(a, d0, e.b0, e.t0);
    SameFit(c, d0[i - 1], a[i - 1], e.b0, e.t0, e.b1, e.t1, i, l2, u2);
    assert e'.b1[i..] == e.b1[i..] && e'.t1[i..] == e.t1[i..] && d2[i..] == d1[i..];
    SweptSame(c, a, d0, d1, d2, e.b0, e.t0, e.b1, e.t1, e'.b1, e'.t1, i);
    assert SweptAt(c, a, d0, d2, e.b0, e.t0, e'.b1, e'.t1, i - 1);
  }

  // A variable that is as it was looked up has its domain cut to the values that fit.
  lemma ReducedFresh(arg: Arg, d: nat, v: View, v': View, a: int, l: int, u: int)
    requires arg == ArgOf(v, d) && ReducedTo(arg, v, v', a, l, u, true)
    ensures Domain(v') == Fitting(Domain(v), a, l, u) == Fitting(Offers(arg, v), a, l, u)
  {
    var r := Fitting(Offers(arg, v), a, l, u);
    if arg.Int? {
      var n :| n in r;
      assert r == {arg.n};
    }
  }

  // What reducing term i - 1 did to its variable d, with the bounds it hands on.
  ghost predicate Turned(p: Problem, v1: map<nat, View>, v2: map<nat, View>, i: int, l1: int, u1: int, l2: int, u2: int,
      first: int, last: int, lo: int, hi: int) {
    && Posed(p) && AreVars(v1, p.x) && AreVars(v2, p.x) && 0 < i <= |p.x|
    && var d, a := p.x[i - 1], p.a[i - 1];
    var arg := ArgOf(p.v0[d], d);
    && Changed(v1, v2, d) && ReducedTo(arg, v1[d], v2[d], a, l2 - u1, u2 - l1, true)
    && HandsOn(Fitting(Offers(arg, v1[d]), a, l2 - u1, u2 - l1), a, l2, u2, first, last, lo, hi)
  }

  lemma SweepStep(p: Problem, v1: map<nat, View>, v2: map<nat, View>, e: Ends, e': Ends, i: int, l2: int, u2: int,
      first: int, last: int, lo: int, hi: int)
    requires Distinct(p.x) && 0 < i && Sweeping(p, v1, e, i) && Tight(p.c, e, i, l2, u2)
    requires Turned(p, v1, v2, i, Before(p.c, e.b0, i - 1), Before(p.c, e.t0, i - 1), l2, u2, first, last, lo, hi)
    requires e' == e.(b1 := e.b1[i - 1 := Bot(p.a[i - 1], lo, hi)], t1 := e.t1[i - 1 := Top(p.a[i - 1], lo, hi)])
    ensures Sweeping(p, v2, e', i - 1) && Tight(p.c, e', i, l2, u2)
  {
    var d := p.x[i - 1];
    var l, u := l2 - Before(p.c, e.t0, i - 1), u2 - Before(p.c, e.b0, i - 1);
    DomsStep(v1, v2, p.x, i - 1);
    ReducedFresh(ArgOf(p.v0[d], d), d, v1[d], v2[d], p.a[i - 1], l, u);
    SweepDoms(p.c, p.a, Doms0(p), DomsOf(v1, p.x), DomsOf(v2, p.x), e, e', i, l2, u2, lo, hi);
  }

  // The bounds that go on to the terms before.
  lemma TurnBounds(p: Problem, views: map<nat, View>, e: Ends, i: int, l2: int, u2: int, first: int, last: int)
    requires 0 < i && Sweeping(p, views, e, i - 1) && i <= |p.a| && Tight(p.c, e, i, l2, u2)
    requires Domain(views[p.x[i - 1]]) <= Domain(p.v0[p.x[i - 1]])
    requires first == l2 - e.t1[i - 1] && last == u2 - e.b1[i - 1]
    ensures first <= Before(p.c, e.b0, i - 1) && Before(p.c, e.t0, i - 1) <= last ==> Done(p.c, e, i - 1)
    ensures Tight(p.c, e, i - 1, if first > Before(p.c, e.b0, i - 1) then first else Before(p.c, e.b0, i - 1),
                                 if last < Before(p.c, e.t0, i - 1) then last else Before(p.c, e.t0, i - 1))
  {
    ExtremesShrink(p.a, Doms0(p), e.b0, e.t0, DomsOf(views, p.x), e.b1, e.t1, i - 1);
    SqueezeStep(p.c, e.b0, e.t0, e.b1, e.t1, i, l2, u2, first, last);
  }

  // The extremes once term j is reduced to the values from lo to hi.
  ghost function EndsAfter(e: Ends, j: int, a: int, lo: int, hi: int): Ends
    requires 0 <= j < |e.b1| && j < |e.t1|
  {
    e.(b1 := e.b1[j := Bot(a, lo, hi)], t1 := e.t1[j := Top(a, lo, hi)])
  }

  // One turn takes the sweep one term further, with the bounds that go on to the terms before.
  lemma TurnExact(p: Problem, v1: map<nat, View>, v2: map<nat, View>, e: Ends, i: int, l2: int, u2: int, first: int,
      last: int, lo: int, hi: int)
    requires Distinct(p.x) && 0 < i && Sweeping(p, v1, e, i) && Tight(p.c, e, i, l2, u2) && Surviving(p, v2)
    requires Turned(p, v1, v2, i, Before(p.c, e.b0, i - 1), Before(p.c, e.t0, i - 1), l2, u2, first, last, lo, hi)
    ensures var e' := EndsAfter(e, i - 1, p.a[i - 1], lo, hi);
      var l1, u1 := Before(p.c, e.b0, i - 1), Before(p.c, e.t0, i - 1);
      && Sweeping(p, v2, e', i - 1)
      && (first <= l1 && u1 <= last ==> Done(p.c, e', i - 1))
      && Tight(p.c, e', i - 1, if first > l1 then first else l1, if last < u1 then last else u1)
  {
    var e' := EndsAfter(e, i - 1, p.a[i - 1], lo, hi);
    SweepStep(p, v1, v2, e, e', i, l2, u2, first, last, lo, hi);
    assert Descends(p.v0[p.x[i - 1]], v2[p.x[i - 1]]);
    TurnBounds(p, v2, e', i, l2, u2, first, last);
  }

  // A sweep that stops early has done all there is to do.
  lemma SweepDone(p: Problem, views: map<nat, View>, e: Ends, i: int)
    requires Sweeping(p, views, e, i) && (Done(p.c, e, i) || i == 0)
    ensures Swept(p.c, p.a, Doms0(p), DomsOf(views, p.x))
  {
    var d0, d1 := Doms0(p), DomsOf(views, p.x);
    if i > 0 {
      ExtremeFacts(p.a, d0, e.b0, e.t0);
      forall k | 0 <= k < i ensures d1[k] == d0[k] && e.b1[k] == e.b0[k] && e.t1[k] == e.t0[k] {
        ExtremesSame(p.a, d0, e.b0, e.t0, d1, e.b1, e.t1, k);
      }
      IdleRest(p.c, p.a, d0, d1, e.b0, e.t0, e.b1, e.t1, i);
    }
  }

  // ---- The loop ----

  // One turn of the backward loop: l and u are the tightened bounds of the partial sum before i.
  method EqTurn(s: Store, ghost p: Problem, ghost i: int, a: int, arg: Arg, l1: int, u1: int, l2: int, u2: int)
    returns (ok: bool, done: bool, l: int, u: int, ghost first: int, ghost last: int, ghost lo: int, ghost hi: int)
    requires s.Valid() && Surviving(p, s.views) && 0 < i <= |p.a| && a == p.a[i - 1] != 0
    requires arg == ArgOf(p.v0[p.x[i - 1]], p.x[i - 1]) && PartialIn(p, i - 1, l1, u1) && PartialIn(p, i, l2, u2)
    modifies s`mem, s`trail, s`views
    ensures s.Valid() && AreVars(s.views, p.x) && OnlyVars(p.v0, s.views, p.x)
    ensures !ok ==> NoRoot(p)
    ensures ok ==> Surviving(p, s.views) && Turned(p, old(s.views), s.views, i, l1, u1, l2, u2, first, last, lo, hi)
    ensures ok && done ==> first <= l1 && u1 <= last
    ensures ok && !done ==> PartialIn(p, i - 1, l, u)
    ensures ok && !done ==> l == (if first > l1 then first else l1) && u == if last < u1 then last else u1
  {
    var first0, last0;
    ok, first0, last0, lo, hi := EqReduce(s, p, i, a, arg, l1, u1, l2, u2);
    first, last := first0, last0;
    l, u, done := l1, u1, true;
    if !ok {
      return;
    }
    HandedOn(p, old(s.views), i, l1, u1, l2, u2, first, last, lo, hi);
    if first0 <= l1 {
      if last0 >= u1 {
        return;
      }
      u := last0;
    } else {
      l := first0;
      if last0 < u1 {
        u := last0;
      }
    }
    done := false;
    if u < l {
      ok, done := false, true;
    }
  }

  // The reduction of one variable.
  method EqReduce(s: Store, ghost p: Problem, ghost i: int, a: int, arg: Arg, l1: int, u1: int, l2: int, u2: int)
    returns (ok: bool, first: int, last: int, ghost lo: int, ghost hi: int)
    requires s.Valid() && Surviving(p, s.views) && 0 < i <= |p.a| && a == p.a[i - 1] != 0
    requires arg == ArgOf(p.v0[p.x[i - 1]], p.x[i - 1]) && PartialIn(p, i - 1, l1, u1) && PartialIn(p, i, l2, u2)
    modifies s`mem, s`trail, s`views
    ensures s.Valid() && AreVars(s.views, p.x) && OnlyVars(p.v0, s.views, p.x)
    ensures !ok ==> NoRoot(p)
    ensures ok ==> Surviving(p, s.views) && Turned(p, old(s.views), s.views, i, l1, u1, l2, u2, first, last, lo, hi)
  {
    ghost var d, v1 := p.x[i - 1], s.views;
    assert Descends(p.v0[d], v1[d]);
    if a > 0 {
      ok, first, last, lo, hi := ReduceEqPos(s, a, arg, d, l1, u1, l2, u2);
    } else {
      ok, first, last, lo, hi := ReduceEqNeg(s, -a, arg, d, l1, u1, l2, u2);
    }
    OnlyVarsStep(p.v0, v1, s.views, p.x, d);
    if ok {
      SurvivingStep(p, v1, s.views, i, l1, u1, l2, u2);
    } else {
      NoneFits(p, v1, i, l1, u1, l2, u2);
    }
  }

  lemma TurnSwept(p: Problem, v1: map<nat, View>, v2: map<nat, View>, e: Ends, i: int, l1: int, u1: int, l2: int,
      u2: int, first: int, last: int, lo: int, hi: int, done: bool, l: int, u: int)
    returns (e': Ends)
    requires Surviving(p, v2) && 0 < i && Turned(p, v1, v2, i, l1, u1, l2, u2, first, last, lo, hi)
    requires Descends(p.v0[p.x[i - 1]], v1[p.x[i - 1]])
    requires i <= |e.b0| && i <= |e.t0| && l1 == Before(p.c, e.b0, i - 1) && u1 == Before(p.c, e.t0, i - 1)
    requires ExactAt(p, v1, e, i, l2, u2) && (done ==> first <= l1 && u1 <= last)
    requires !done ==> l == (if first > l1 then first else l1) && u == if last < u1 then last else u1
    ensures e'.b0 == e.b0 && e'.t0 == e.t0
    ensures Fitting(Offers(ArgOf(p.v0[p.x[i - 1]], p.x[i - 1]), v1[p.x[i - 1]]), p.a[i - 1], l2 - u1, u2 - l1) != {}
    ensures done && Distinct(p.x) ==> Swept(p.c, p.a, Doms0(p), DomsOf(v2, p.x))
    ensures done ==> FreeLeft(p, v2)
    ensures !done ==> ExactAt(p, v2, e', i - 1, l, u)
  {
    FreeTurn(p, v1, v2, e, i, l2, u2, first, last, lo, hi);
    if done {
      FreeIdle(p, v2, e, i - 1);
    }
    e' := e;
    if Distinct(p.x) {
      e' := EndsAfter(e, i - 1, p.a[i - 1], lo, hi);
      TurnExact(p, v1, v2, e, i, l2, u2, first, last, lo, hi);
      if done {
        SweepDone(p, v2, e', i - 1);
      }
    }
  }

  // One turn, and what it does to the sweep.
  method SweepTurn(s: Store, ghost p: Problem, ghost i: int, a: int, arg: Arg, l1: int, u1: int, l2: int, u2: int,
      ghost e: Ends)
    returns (ok: bool, done: bool, l: int, u: int, ghost e': Ends)
    requires s.Valid() && Surviving(p, s.views) && 0 < i <= |p.a| && a == p.a[i - 1] != 0
    requires arg == ArgOf(p.v0[p.x[i - 1]], p.x[i - 1]) && PartialIn(p, i - 1, l1, u1) && PartialIn(p, i, l2, u2)
    requires i <= |e.b0| && i <= |e.t0| && l1 == Before(p.c, e.b0, i - 1) && u1 == Before(p.c, e.t0, i - 1)
    requires ExactAt(p, s.views, e, i, l2, u2)
    modifies s`mem, s`trail, s`views
    ensures s.Valid() && AreVars(s.views, p.x) && OnlyVars(p.v0, s.views, p.x)
    ensures !ok ==> NoRoot(p)
    ensures ok ==> Surviving(p, s.views) && e'.b0 == e.b0 && e'.t0 == e.t0
    ensures ok ==> Fitting(Offers(arg, old(s.views)[p.x[i - 1]]), a, l2 - u1, u2 - l1) != {}
    ensures ok && done ==> Propagated(p, s.views)
    ensures ok && !done ==> PartialIn(p, i - 1, l, u) && ExactAt(p, s.views, e', i - 1, l, u)
  {
    ghost var first, last, lo, hi;
    assert Descends(p.v0[p.x[i - 1]], s.views[p.x[i - 1]]);
    ok, done, l, u, first, last, lo, hi := EqTurn(s, p, i, a, arg, l1, u1, l2, u2);
    e' := e;
    if ok {
      e' := TurnSwept(p, old(s.views), s.views, e, i, l1, u1, l2, u2, first, last, lo, hi, done, l, u);
    }
  }

  // The partial sums up to position n are bounded by the arrays.
  ghost predicate AllPartialIn(p: Problem, n: int, tl: seq<int>, tu: seq<int>)
    requires Posed(p) && n <= |p.a|
  {
    n < |tl| && n < |tu| && forall k :: 0 <= k <= n ==> PartialIn(p, k, tl[k], tu[k])
  }

  lemma ForwardAll(p: Problem, lo: seq<int>, hi: seq<int>, n: int, b: seq<int>, t: seq<int>, tl: seq<int>, tu: seq<int>)
    requires Posed(p) && AllBounds(Doms0(p), lo, hi) && 0 <= n <= |p.a|
    requires b == Bots(p.a[..n], lo[..n], hi[..n]) && t == Tops(p.a[..n], lo[..n], hi[..n])
    requires Prefixes(tl, p.c, b, n) && Prefixes(tu, p.c, t, n)
    ensures AllPartialIn(p, n, tl, tu)
  {
    forall k, v | 0 <= k <= n && Solves(p, v) ensures tl[k] <= Partial(p.c, p.a, v, k) <= tu[k] {
      ForwardBounds(p.c, p.a, Doms0(p), lo, hi, v, k);
      assert Bots(p.a, lo, hi)[..k] == b[..k] && Tops(p.a, lo, hi)[..k] == t[..k];
    }
  }

  lemma LastPartial(p: Problem)
    requires Posed(p)
    ensures PartialIn(p, |p.a|, 0, 0)
  {
    forall v | Solves(p, v) ensures Partial(p.c, p.a, v, |p.a|) == 0 {
      PartialLast(p.c, p.a, v);
    }
  }

  // With every variable fixed the last term decides.
  lemma FixedDecides(c: int, a: seq<int>, d0: seq<set<int>>, lo: seq<int>, hi: seq<int>, l1: int, u1: int)
    requires |a| == |d0| && |a| > 0 && AllBounds(d0, lo, hi)
    requires l1 == c + Sum(Bots(a, lo, hi)[..|a| - 1]) && u1 == c + Sum(Tops(a, lo, hi)[..|a| - 1])
    requires Fitting(d0[|a| - 1], a[|a| - 1], -u1, -l1) != {}
    ensures DecidesEq(c, a, d0, true)
  {
    var n := |a|;
    forall v | InDoms(v, d0) && |v| == |a| && (forall k :: 0 <= k < |d0| ==> d0[k] == {v[k]})
      ensures SolvesEq(c, a, v) {
      forall k | 0 <= k < n ensures lo[k] == v[k] == hi[k] {
        assert lo[k] in d0[k] && hi[k] in d0[k];
      }
      assert Bots(a, lo, hi) == Tops(a, lo, hi);
      ForwardBounds(c, a, d0, lo, hi, v, n - 1);
      PartialStep(c, a, v, n);
      PartialLast(c, a, v);
      var w :| w in Fitting(d0[n - 1], a[n - 1], -u1, -l1);
      assert Fits(a[n - 1], w, -u1, -l1) && w == v[n - 1];
    }
  }

  // The arrays hold the sums of the forward pass before position n.
  ghost predicate Forward(c: int, e: Ends, n: int, tl: seq<int>, tu: seq<int>) {
    && 0 <= n <= |e.b0| && n <= |e.t0| && n <= |tl| && n <= |tu|
    && forall k :: 0 <= k < n ==> tl[k] == Before(c, e.b0, k) && tu[k] == Before(c, e.t0, k)
  }

  // The state of the backward loop at position i: tl[i] and tu[i] hold the tightened bounds.
  ghost predicate Looping(p: Problem, views: map<nat, View>, e: Ends, i: int, tl: seq<int>, tu: seq<int>) {
    && Surviving(p, views) && 0 <= i <= |p.a| && i < |tl| && i < |tu|
    && AllPartialIn(p, i, tl, tu) && Forward(p.c, e, i, tl, tu) && ExactAt(p, views, e, i, tl[i], tu[i])
  }

  lemma LoopStep(p: Problem, views: map<nat, View>, e: Ends, e': Ends, i: int, tl: seq<int>, tu: seq<int>, l: int,
      u: int)
    requires Surviving(p, views) && 0 <= i <= |p.a| && i < |tl| && i < |tu|
    requires AllPartialIn(p, i, tl, tu) && Forward(p.c, e, i, tl, tu) && e'.b0 == e.b0 && e'.t0 == e.t0
    requires PartialIn(p, i, l, u) && ExactAt(p, views, e', i, l, u)
    ensures Looping(p, views, e', i, tl[i := l], tu[i := u])
  {
    var tl', tu' := tl[i := l], tu[i := u];
    forall k | 0 <= k <= i ensures PartialIn(p, k, tl'[k], tu'[k]) {
      assert PartialIn(p, k, tl[k], tu[k]);
    }
  }

  // What a call comes to when it succeeds.
  ghost predicate Propagated(p: Problem, views: map<nat, View>) {
    && Surviving(p, views) && FreeLeft(p, views)
    && (Distinct(p.x) ==> Swept(p.c, p.a, Doms0(p), DomsOf(views, p.x)))
  }

  // One turn of the backward loop.
  method EqStep(s: Store, ghost p: Problem, i: int, a: int, tl: array<int>, tu: array<int>, arg: Arg, ghost e: Ends)
    returns (ok: bool, done: bool, ghost e': Ends)
    requires s.Valid() && tl != tu && 0 < i && Looping(p, s.views, e, i, tl[..], tu[..]) && i <= |e.b0| && i <= |e.t0|
    requires a == p.a[i - 1] != 0 && arg == ArgOf(p.v0[p.x[i - 1]], p.x[i - 1])
    modifies s`mem, s`trail, s`views, tl, tu
    ensures s.Valid() && AreVars(s.views, p.x) && OnlyVars(p.v0, s.views, p.x)
    ensures !ok ==> NoRoot(p)
    ensures ok && done ==> Propagated(p, s.views)
    ensures ok && !done ==> Looping(p, s.views, e', i - 1, tl[..], tu[..])
  {
    assert PartialIn(p, i - 1, tl[..][i - 1], tu[..][i - 1]) && PartialIn(p, i, tl[..][i], tu[..][i]);
    var l, u;
    ok, done, l, u, e' := SweepTurn(s, p, i, a, arg, tl[i - 1], tu[i - 1], tl[i], tu[i], e);
    if ok && !done {
      LoopStep(p, s.views, e, e', i - 1, tl[..], tu[..], l, u);
      ghost var tl0, tu0 := tl[..], tu[..];
      tl[i - 1], tu[i - 1] := l, u;
      assert tl[..] == tl0[i - 1 := l] && tu[..] == tu0[i - 1 := u];
    }
  }

  // The backward loop from position n - 1 down.
  method EqLoop(s: Store, ghost p: Problem, a: seq<int>, n: int, tl: array<int>, tu: array<int>, xx: array<Arg>,
      ghost e0: Ends)
    returns (ok: bool)
    requires s.Valid() && a == p.a && (forall i :: 0 <= i < |a| ==> a[i] != 0)
    requires 0 <= n <= |a| && tl.Length == tu.Length == xx.Length == n + 1 && tl != tu
    requires Looping(p, s.views, e0, n, tl[..], tu[..])
    requires forall k :: 0 < k <= n ==> xx[k] == ArgOf(p.v0[p.x[k - 1]], p.x[k - 1])
    modifies s`mem, s`trail, s`views, tl, tu
    ensures s.Valid() && AreVars(s.views, p.x) && OnlyVars(p.v0, s.views, p.x)
    ensures if ok then Propagated(p, s.views) else NoRoot(p)
  {
    ghost var e := e0;
    var i := n;
    while i >= 1
      invariant 0 <= i <= n && s.Valid() && Looping(p, s.views, e, i, tl[..], tu[..])
    {
      var done;
      ok, done, e := EqStep(s, p, i, a[i - 1], tl, tu, xx[i], e);
      if !ok || done {
        return;
      }
      i := i - 1;
    }
    FreeIdle(p, s.views, e, 0);
    if Distinct(p.x) {
      SweepDone(p, s.views, e, 0);
    }
    ok := true;
  }

  lemma LastDecides(c: int, a: seq<int>, d0: seq<set<int>>, lo: seq<int>, hi: seq<int>, n: int, b: seq<int>,
      t: seq<int>, l1: int, u1: int)
    requires |a| == |d0| == n + 1 && n >= 0 && AllBounds(d0, lo, hi)
    requires b == Bots(a[..n], lo[..n], hi[..n]) && t == Tops(a[..n], lo[..n], hi[..n])
    requires l1 == c + Sum(b[..n]) && u1 == c + Sum(t[..n])
    ensures Fitting(d0[n], a[n], 0 - u1, 0 - l1) != {} ==> DecidesEq(c, a, d0, true)
  {
    assert b[..n] == Bots(a, lo, hi)[..n] && t[..n] == Tops(a, lo, hi)[..n];
    if Fitting(d0[n], a[n], 0 - u1, 0 - l1) != {} {
      FixedDecides(c, a, d0, lo, hi, l1, u1);
    }
  }

  lemma ForwardSums(c: int, a: seq<int>, lo: seq<int>, hi: seq<int>, n: int, b: seq<int>, t: seq<int>, tl: seq<int>,
      tu: seq<int>, e: Ends)
    requires |a| == |lo| == |hi| == n + 1 && n >= 0 && e.b0 == Bots(a, lo, hi) && e.t0 == Tops(a, lo, hi)
    requires b == Bots(a[..n], lo[..n], hi[..n]) && t == Tops(a[..n], lo[..n], hi[..n])
    requires Prefixes(tl, c, b, n) && Prefixes(tu, c, t, n)
    ensures Forward(c, e, n + 1, tl, tu)
  {
    forall k | 0 <= k < n + 1 ensures tl[k] == Before(c, e.b0, k) && tu[k] == Before(c, e.t0, k) {
      assert b[..k] == e.b0[..k] && t[..k] == e.t0[..k];
    }
  }

  // Nothing swept yet.
  lemma SweepStart(p: Problem, e: Ends)
    requires Posed(p) && Extremes(p.a, Doms0(p), e.b0, e.t0) && e.b1 == e.b0 && e.t1 == e.t0
    ensures Sweeping(p, p.v0, e, |p.a|) && Tight(p.c, e, |p.a|, 0, 0) && FreeAt(p, p.v0, e, |p.a|, 0, 0)
  {
    assert e.b1[|p.a|..] == [] && e.t1[|p.a|..] == [];
  }

  // The forward pass over all terms but the last.
  method EqForward(s: Store, ghost p: Problem, c: int, a: seq<int>, x: seq<nat>, n: int, tl: array<int>, tu: array<int>,
      xx: array<Arg>)
    returns (ghost e: Ends)
    requires s.Valid() && p == Problem(s.views, c, a, x) && Posed(p) && |a| == n + 1 && n >= 0
    requires tl != tu && tl.Length == tu.Length == xx.Length == n + 1
    modifies tl, tu, xx
    ensures AllPartialIn(p, n, tl[..], tu[..])
    ensures Extremes(a, Doms0(p), e.b0, e.t0) && e.b1 == e.b0 && e.t1 == e.t0 && Forward(c, e, n + 1, tl[..], tu[..])
    ensures forall k :: 0 < k <= n ==> xx[k] == ArgOf(s.views[x[k - 1]], x[k - 1])
    ensures Fitting(Doms0(p)[n], a[n], 0 - tu[n], 0 - tl[n]) != {} ==> DecidesEq(c, a, Doms0(p), true)
  {
    ghost var lo, hi := Los(s.mem, x), His(s.mem, x);
    ViewsBounds(s, x);
    ghost var b, t;
    b, t := ComputeBounds(s.mem, c, a[..n], x[..n], tl, tu, xx);
    assert Los(s.mem, x[..n]) == lo[..n] && His(s.mem, x[..n]) == hi[..n];
    ForwardAll(p, lo, hi, n, b, t, tl[..], tu[..]);
    LastDecides(c, a, Doms0(p), lo, hi, n, b, t, tl[n], tu[n]);
    e := Ends(Bots(a, lo, hi), Tops(a, lo, hi), Bots(a, lo, hi), Tops(a, lo, hi));
    ForwardSums(c, a, lo, hi, n, b, t, tl[..], tu[..], e);
    forall k | 0 < k <= n ensures xx[k] == ArgOf(s.views[x[k - 1]], x[k - 1]) {
      DerefView(s, x[k - 1]);
    }
  }

  // Up to the backward pass: all terms but the last are summed up, the last one meets 0.
  method EqStart(s: Store, ghost p: Problem, c: int, a: seq<int>, x: seq<nat>, n: int)
    returns (tl: array<int>, tu: array<int>, xx: array<Arg>, ghost e: Ends)
    requires s.Valid() && p == Problem(s.views, c, a, x) && Posed(p) && |a| == n + 1 && n >= 0
    ensures fresh(tl) && fresh(tu) && fresh(xx) && tl != tu && tl.Length == tu.Length == xx.Length == n + 1
    ensures AllPartialIn(p, n, tl[..], tu[..]) && PartialIn(p, n, tl[n], tu[n]) && PartialIn(p, n + 1, 0, 0)
    ensures Surviving(p, s.views) && ExactAt(p, s.views, e, n + 1, 0, 0) && Forward(c, e, n + 1, tl[..], tu[..])
    ensures forall k :: 0 < k <= n ==> xx[k] == ArgOf(s.views[x[k - 1]], x[k - 1])
    ensures Fitting(Doms0(p)[n], a[n], 0 - tu[n], 0 - tl[n]) != {} ==> DecidesEq(c, a, Doms0(p), true)
  {
    tl, tu, xx := new int[n + 1], new int[n + 1], new Arg[n + 1];
    e := EqForward(s, p, c, a, x, n, tl, tu, xx);
    LastPartial(p);
    SweepStart(p, e);
    SurvivingStart(p);
    assert PartialIn(p, n, tl[..][n], tu[..][n]);
  }

  // The terms before the last, with the bounds the last one left.
  method EqRest(s: Store, ghost p: Problem, a: seq<int>, n: int, tl: array<int>, tu: array<int>, xx: array<Arg>, l: int,
      u: int, ghost e: Ends)
    returns (ok: bool)
    requires s.Valid() && a == p.a && (forall i :: 0 <= i < |a| ==> a[i] != 0)
    requires 0 <= n <= |a| && tl.Length == tu.Length == xx.Length == n + 1 && tl != tu
    requires Looping(p, s.views, e, n, tl[..][n := l], tu[..][n := u])
    requires forall k :: 0 < k <= n ==> xx[k] == ArgOf(p.v0[p.x[k - 1]], p.x[k - 1])
    modifies s`mem, s`trail, s`views, tl, tu
    ensures s.Valid() && AreVars(s.views, p.x) && OnlyVars(p.v0, s.views, p.x)
    ensures if ok then Propagated(p, s.views) else NoRoot(p)
  {
    ghost var tl0, tu0 := tl[..], tu[..];
    tl[n], tu[n] := l, u;
    assert tl[..] == tl0[n := l] && tu[..] == tu0[n := u];
    ok := EqLoop(s, p, a, n, tl, tu, xx, e);
  }

  // At the start a position offers the domain of its variable.
  lemma OffersDomain(v: View, d: nat)
    ensures Offers(ArgOf(v, d), v) == Domain(v)
  {
  }

  // nary_interval_consistent_eq with exact arithmetic (every type but the 0/1 ones): the last term first.
  method NaryEq(s: Store, c: int, a: seq<int>, x: seq<nat>) returns (ok: bool)
    requires s.Valid() && |a| == |x| > 0 && AreVars(s.views, x) && (forall i :: 0 <= i < |a| ==> a[i] != 0)
    modifies s`mem, s`trail, s`views
    ensures s.Valid() && AreVars(s.views, x) && OnlyVars(old(s.views), s.views, x)
    ensures SoundEq(c, a, x, DomsOf(old(s.views), x), DomsOf(s.views, x), ok)
    ensures ok && Distinct(x) ==> Swept(c, a, DomsOf(old(s.views), x), DomsOf(s.views, x))
    ensures ok ==> FreeLeft(Problem(old(s.views), c, a, x), s.views)
    ensures DecidesEq(c, a, DomsOf(old(s.views), x), ok)
  {
    var n := |a| - 1;
    ghost var p := Problem(s.views, c, a, x);
    ghost var e, e';
    var tl, tu, xx, done, l, u;
    tl, tu, xx, e := EqStart(s, p, c, a, x, n);
    DerefView(s, x[n]);
    OffersDomain(s.views[x[n]], x[n]);
    ok, done, l, u, e' := SweepTurn(s, p, n + 1, a[n], Deref(s.mem, x[n]), tl[n], tu[n], 0, 0, e);
    if ok && !done {
      LoopStep(p, s.views, e, e', n, tl[..], tu[..], l, u);
      ok := EqRest(s, p, a, n, tl, tu, xx, l, u, e');
    }
    SurvivingSound(p, s.views, ok);
  }
}
