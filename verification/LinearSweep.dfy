// What one backward sweep over c + a1*x1 + ... + an*xn = 0 leaves of the domains, exactly.
module LinearSweep {
  import opened Region
  import opened Linear

  ghost predicate Fits(a: int, v: int, l: int, u: int) {
    l <= a * v <= u
  }

  // The values whose term fits between l and u.
  ghost function Fitting(dom: set<int>, a: int, l: int, u: int): set<int> {
    set v | v in dom && Fits(a, v, l, u)
  }

  // c plus the extremes of the terms before k.
  ghost function Before(c: int, b: seq<int>, k: int): int
    requires 0 <= k <= |b|
  {
    c + Sum(b[..k])
  }

  // The extremes of the terms from k on.
  ghost function From(b: seq<int>, k: int): int
    requires 0 <= k <= |b|
  {
    Sum(b[k..])
  }

  // Term k fits between the extremes of the others: those before by the old domains, those after by the new ones.
  ghost predicate SweptAt(c: int, a: seq<int>, d0: seq<set<int>>, d1: seq<set<int>>, b0: seq<int>, t0: seq<int>,
      b1: seq<int>, t1: seq<int>, k: int)
    requires |a| == |d0| == |d1| == |b0| == |t0| == |b1| == |t1| && 0 <= k < |a|
  {
    d1[k] == Fitting(d0[k], a[k], -From(t1, k + 1) - Before(c, t0, k), -From(b1, k + 1) - Before(c, b0, k))
  }

  ghost predicate SweptFrom(c: int, a: seq<int>, d0: seq<set<int>>, d1: seq<set<int>>, b0: seq<int>, t0: seq<int>,
      b1: seq<int>, t1: seq<int>, i: int)
    requires |a| == |d0| == |d1| == |b0| == |t0| == |b1| == |t1|
  {
    0 <= i && forall k :: i <= k < |a| ==> SweptAt(c, a, d0, d1, b0, t0, b1, t1, k)
  }

  // The extremes of the terms over the domains.
  ghost predicate Extremes(a: seq<int>, d: seq<set<int>>, b: seq<int>, t: seq<int>) {
    |a| == |d| == |b| == |t| && exists lo, hi :: AllBounds(d, lo, hi) && b == Bots(a, lo, hi) && t == Tops(a, lo, hi)
  }

  // The last variable is narrowed by the others as they were, the first one by the others as they are now.
  ghost predicate Swept(c: int, a: seq<int>, d0: seq<set<int>>, d1: seq<set<int>>) {
    && |a| == |d0| == |d1|
    && exists b0, t0, b1, t1 :: Extremes(a, d0, b0, t0) && Extremes(a, d1, b1, t1) && SweptFrom(c, a, d0, d1, b0, t0,
        b1, t1, 0)
  }

  // The term of v at position k fits between the extremes of all other terms, those of the domains at the start.
  ghost predicate FitsOthers(c: int, a: seq<int>, b: seq<int>, t: seq<int>, k: int, v: int)
    requires |a| == |b| == |t| && 0 <= k < |a|
  {
    Fits(a[k], v, -From(t, k + 1) - Before(c, t, k), -From(b, k + 1) - Before(c, b, k))
  }

  // With idle terms from i on all values before i fit.
  lemma IdleFits(c: int, a: seq<int>, d0: seq<set<int>>, b: seq<int>, t: seq<int>, i: int, k: int, v: int)
    requires Extremes(a, d0, b, t) && 0 <= k < i <= |a| && Idle(c, b, t, b, t, i) && v in d0[k]
    ensures FitsOthers(c, a, b, t, k, v)
  {
    var d1 := seq(|a|, j requires 0 <= j < |a| => if j < i then d0[j] else FittingOthers(c, a, d0, b, t, j));
    IdleSwept(c, a, d0, d1, b, t, i, k);
    assert v in d1[k];
  }

  ghost function FittingOthers(c: int, a: seq<int>, d: seq<set<int>>, b: seq<int>, t: seq<int>, k: int): set<int>
    requires |a| == |d| == |b| == |t| && 0 <= k < |a|
  {
    Fitting(d[k], a[k], -From(t, k + 1) - Before(c, t, k), -From(b, k + 1) - Before(c, b, k))
  }

  lemma IdleSwept(c: int, a: seq<int>, d0: seq<set<int>>, d1: seq<set<int>>, b: seq<int>, t: seq<int>, i: int, k: int)
    requires Extremes(a, d0, b, t) && 0 <= k < i <= |a| == |d1| && Idle(c, b, t, b, t, i)
    requires forall j :: 0 <= j < |a| ==> d1[j] == if j < i then d0[j] else FittingOthers(c, a, d0, b, t, j)
    ensures d1[k] == FittingOthers(c, a, d0, b, t, k)
  {
    ExtremeFacts(a, d0, b, t);
    forall j | i <= j < |a| ensures SweptAt(c, a, d0, d1, b, t, b, t, j) {
      assert d1[j] == FittingOthers(c, a, d0, b, t, j);
    }
    IdleRest(c, a, d0, d1, b, t, b, t, i);
    assert SweptAt(c, a, d0, d1, b, t, b, t, k);
  }

  // l and u bound the partial sum before i: as tight as the terms from i on make them, or looser than the forward pass.
  ghost predicate Squeezed(c: int, b0: seq<int>, t0: seq<int>, b1: seq<int>, t1: seq<int>, i: int, l: int, u: int)
    requires |b0| == |t0| == |b1| == |t1| && 0 <= i <= |b0|
  {
    && -From(t1, i) <= l && (l <= -From(t1, i) || l <= Before(c, b0, i))
    && u <= -From(b1, i) && (-From(b1, i) <= u || Before(c, t0, i) <= u)
  }

  // The terms from i on do not narrow what comes before.
  ghost predicate Idle(c: int, b0: seq<int>, t0: seq<int>, b1: seq<int>, t1: seq<int>, i: int)
    requires |b0| == |t0| == |b1| == |t1| && 0 <= i <= |b0|
  {
    -From(t1, i) <= Before(c, b0, i) && Before(c, t0, i) <= -From(b1, i)
  }

  // The terms of the values lie between the extremes.
  ghost predicate TermsIn(dom: set<int>, a: int, b: int, t: int) {
    forall v :: v in dom ==> b <= a * v <= t
  }

  lemma FromStep(b: seq<int>, k: int)
    requires 0 <= k < |b|
    ensures From(b, k) == b[k] + From(b, k + 1)
  {
    SumSplit(b[k..], 1);
    assert b[k..][..1] == [b[k]] && b[k..][1..] == b[k + 1..];
    assert Sum([b[k]]) == b[k] by {
      assert [b[k]][..0] == [];
    }
  }

  lemma BeforeStep(c: int, b: seq<int>, k: int)
    requires 0 <= k < |b|
    ensures Before(c, b, k + 1) == Before(c, b, k) + b[k]
  {
    assert b[..k + 1][..k] == b[..k];
  }

  lemma {:induction false} BeforeLe(c: int, b: seq<int>, t: seq<int>, k: int)
    requires |b| == |t| && 0 <= k <= |b| && forall j :: 0 <= j < |b| ==> b[j] <= t[j]
    ensures Before(c, b, k) <= Before(c, t, k)
  {
    SumLe(b[..k], t[..k]);
  }

  // Cutting by the squeezed bounds is cutting by the exact ones.
  lemma SameFit(c: int, dom: set<int>, a: int, b0: seq<int>, t0: seq<int>, b1: seq<int>, t1: seq<int>, i: int, l: int,
      u: int)
    requires |b0| == |t0| == |b1| == |t1| && 0 < i <= |b0| && Squeezed(c, b0, t0, b1, t1, i, l, u)
    requires TermsIn(dom, a, b0[i - 1], t0[i - 1]) && forall j :: 0 <= j < |b0| ==> b0[j] <= t0[j]
    ensures Fitting(dom, a, l - Before(c, t0, i - 1), u - Before(c, b0, i - 1))
      == Fitting(dom, a, -From(t1, i) - Before(c, t0, i - 1), -From(b1, i) - Before(c, b0, i - 1))
  {
    BeforeStep(c, b0, i - 1);
    BeforeStep(c, t0, i - 1);
    BeforeLe(c, b0, t0, i - 1);
  }

  // What the reduced term i - 1 leaves for the terms before it.
  lemma SqueezeStep(c: int, b0: seq<int>, t0: seq<int>, b1: seq<int>, t1: seq<int>, i: int, l: int, u: int, first: int,
      last: int)
    requires |b0| == |t0| == |b1| == |t1| && 0 < i <= |b0| && Squeezed(c, b0, t0, b1, t1, i, l, u)
    requires b0[i - 1] <= b1[i - 1] <= t1[i - 1] <= t0[i - 1]
    requires first == l - t1[i - 1] && last == u - b1[i - 1]
    ensures -From(t1, i - 1) <= first && last <= -From(b1, i - 1)
    ensures first <= -From(t1, i - 1) || first <= Before(c, b0, i - 1)
    ensures -From(b1, i - 1) <= last || Before(c, t0, i - 1) <= last
  {
    BeforeStep(c, b0, i - 1);
    BeforeStep(c, t0, i - 1);
    FromStep(b1, i - 1);
    FromStep(t1, i - 1);
  }

  // Terms that are idle leave the domain before them alone, and the terms from there on are idle again.
  lemma IdleStep(c: int, dom: set<int>, a: int, b0: seq<int>, t0: seq<int>, b1: seq<int>, t1: seq<int>, i: int)
    requires |b0| == |t0| == |b1| == |t1| && 0 < i <= |b0| && Idle(c, b0, t0, b1, t1, i)
    requires TermsIn(dom, a, b0[i - 1], t0[i - 1]) && forall j :: 0 <= j < |b0| ==> b0[j] <= t0[j]
    requires b1[i - 1] == b0[i - 1] && t1[i - 1] == t0[i - 1]
    ensures Fitting(dom, a, -From(t1, i) - Before(c, t0, i - 1), -From(b1, i) - Before(c, b0, i - 1)) == dom
    ensures Idle(c, b0, t0, b1, t1, i - 1)
  {
    BeforeStep(c, b0, i - 1);
    BeforeStep(c, t0, i - 1);
    BeforeLe(c, b0, t0, i - 1);
    FromStep(b1, i - 1);
    FromStep(t1, i - 1);
  }

  // The early exit: with idle terms from i on, the rest of the sweep would change nothing.
  lemma {:induction false} IdleRest(c: int, a: seq<int>, d0: seq<set<int>>, d1: seq<set<int>>, b0: seq<int>,
      t0: seq<int>, b1: seq<int>, t1: seq<int>, i: int)
    requires |a| == |d0| == |d1| == |b0| == |t0| == |b1| == |t1| && 0 <= i <= |a| && Idle(c, b0, t0, b1, t1, i)
    requires SweptFrom(c, a, d0, d1, b0, t0, b1, t1, i)
    requires forall k :: 0 <= k < |a| ==> TermsIn(d0[k], a[k], b0[k], t0[k]) && b0[k] <= t0[k]
    requires forall k :: 0 <= k < i ==> d1[k] == d0[k] && b1[k] == b0[k] && t1[k] == t0[k]
    ensures SweptFrom(c, a, d0, d1, b0, t0, b1, t1, 0)
    decreases i
  {
    if i > 0 {
      IdleStep(c, d0[i - 1], a[i - 1], b0, t0, b1, t1, i);
      assert SweptAt(c, a, d0, d1, b0, t0, b1, t1, i - 1);
      IdleRest(c, a, d0, d1, b0, t0, b1, t1, i - 1);
    }
  }

  // New extremes before i do not matter to what was swept from i on.
  lemma SweptSame(c: int, a: seq<int>, d0: seq<set<int>>, d1: seq<set<int>>, d2: seq<set<int>>, b0: seq<int>,
      t0: seq<int>, b1: seq<int>, t1: seq<int>, b2: seq<int>, t2: seq<int>, i: int)
    requires |a| == |d0| == |d1| == |d2| == |b0| == |t0| == |b1| == |t1| == |b2| == |t2| && 0 <= i <= |a|
    requires SweptFrom(c, a, d0, d1, b0, t0, b1, t1, i) && d2[i..] == d1[i..] && b2[i..] == b1[i..]
    requires t2[i..] == t1[i..]
    ensures SweptFrom(c, a, d0, d2, b0, t0, b2, t2, i)
  {
    forall k | i <= k < |a| ensures SweptAt(c, a, d0, d2, b0, t0, b2, t2, k) {
      assert SweptAt(c, a, d0, d1, b0, t0, b1, t1, k);
      assert d2[k] == d2[i..][k - i] && d1[k] == d1[i..][k - i];
      assert b2[k + 1..] == b2[i..][k + 1 - i..] && b1[k + 1..] == b1[i..][k + 1 - i..];
      assert t2[k + 1..] == t2[i..][k + 1 - i..] && t1[k + 1..] == t1[i..][k + 1 - i..];
    }
  }

  // ---- The extremes of changing domains ----

  ghost predicate Attained(dom: set<int>, a: int, b: int, t: int) {
    exists v, w :: v in dom && w in dom && b == a * v && t == a * w
  }

  lemma ExtremeFacts(a: seq<int>, d: seq<set<int>>, b: seq<int>, t: seq<int>)
    requires Extremes(a, d, b, t)
    ensures forall k :: 0 <= k < |a| ==> TermsIn(d[k], a[k], b[k], t[k]) && b[k] <= t[k]
    ensures forall k :: 0 <= k < |a| ==> Attained(d[k], a[k], b[k], t[k])
  {
    var lo, hi :| AllBounds(d, lo, hi) && b == Bots(a, lo, hi) && t == Tops(a, lo, hi);
    forall k | 0 <= k < |a|
      ensures TermsIn(d[k], a[k], b[k], t[k]) && b[k] <= t[k]
      ensures Attained(d[k], a[k], b[k], t[k]) {
      assert Bounds(d[k], lo[k], hi[k]);
      forall v | v in d[k] ensures b[k] <= a[k] * v <= t[k] {
        TermBounds(a[k], lo[k], hi[k], v);
      }
      var v, w := if a[k] > 0 then lo[k] else hi[k], if a[k] > 0 then hi[k] else lo[k];
      assert v in d[k] && w in d[k] && b[k] == a[k] * v && t[k] == a[k] * w;
    }
  }

  // Smaller domains have extremes further in.
  lemma ExtremesShrink(a: seq<int>, d0: seq<set<int>>, b0: seq<int>, t0: seq<int>, d1: seq<set<int>>, b1: seq<int>,
      t1: seq<int>, k: int)
    requires Extremes(a, d0, b0, t0) && Extremes(a, d1, b1, t1) && 0 <= k < |a| && d1[k] <= d0[k]
    ensures b0[k] <= b1[k] <= t1[k] <= t0[k]
  {
    ExtremeFacts(a, d0, b0, t0);
    ExtremeFacts(a, d1, b1, t1);
    assert Attained(d1[k], a[k], b1[k], t1[k]);
    var v, w :| v in d1[k] && w in d1[k] && b1[k] == a[k] * v && t1[k] == a[k] * w;
    assert v in d0[k] && w in d0[k];
  }

  lemma ExtremesSame(a: seq<int>, d0: seq<set<int>>, b0: seq<int>, t0: seq<int>, d1: seq<set<int>>, b1: seq<int>,
      t1: seq<int>, k: int)
    requires Extremes(a, d0, b0, t0) && Extremes(a, d1, b1, t1) && 0 <= k < |a| && d1[k] == d0[k]
    ensures b1[k] == b0[k] && t1[k] == t0[k]
  {
    ExtremesShrink(a, d0, b0, t0, d1, b1, t1, k);
    ExtremesShrink(a, d1, b1, t1, d0, b0, t0, k);
  }

  lemma ExtremesUpdate(a: seq<int>, d: seq<set<int>>, b: seq<int>, t: seq<int>, k: int, dom: set<int>, lo': int,
      hi': int)
    requires Extremes(a, d, b, t) && 0 <= k < |a| && Bounds(dom, lo', hi')
    ensures Extremes(a, d[k := dom], b[k := Bot(a[k], lo', hi')], t[k := Top(a[k], lo', hi')])
  {
    var lo, hi :| AllBounds(d, lo, hi) && b == Bots(a, lo, hi) && t == Tops(a, lo, hi);
    var lo1, hi1 := lo[k := lo'], hi[k := hi'];
    assert AllBounds(d[k := dom], lo1, hi1);
    assert Bots(a, lo1, hi1) == b[k := Bot(a[k], lo', hi')];
    assert Tops(a, lo1, hi1) == t[k := Top(a[k], lo', hi')];
  }

  // ---- What a sweep is worth ----

  // Every solution lies between the extremes, on either side of a term.
  lemma {:induction false} SolutionBefore(c: int, a: seq<int>, d: seq<set<int>>, b: seq<int>, t: seq<int>, v: seq<int>,
      k: int)
    requires Extremes(a, d, b, t) && 0 <= k <= |a| == |v| && forall j :: 0 <= j < k ==> v[j] in d[j]
    ensures Before(c, b, k) <= Before(c, Terms(a, v), k) <= Before(c, t, k)
    decreases k
  {
    if k > 0 {
      SolutionBefore(c, a, d, b, t, v, k - 1);
      ExtremeFacts(a, d, b, t);
      BeforeStep(c, b, k - 1);
      BeforeStep(c, t, k - 1);
      BeforeStep(c, Terms(a, v), k - 1);
    }
  }

  lemma {:induction false} SolutionFrom(a: seq<int>, d: seq<set<int>>, b: seq<int>, t: seq<int>, v: seq<int>, k: int)
    requires Extremes(a, d, b, t) && 0 <= k <= |a| == |v| && forall j :: k <= j < |a| ==> v[j] in d[j]
    ensures From(b, k) <= From(Terms(a, v), k) <= From(t, k)
    decreases |a| - k
  {
    if k < |a| {
      SolutionFrom(a, d, b, t, v, k + 1);
      ExtremeFacts(a, d, b, t);
      FromStep(b, k);
      FromStep(t, k);
      FromStep(Terms(a, v), k);
    }
  }

  lemma TermsAround(c: int, a: seq<int>, v: seq<int>, k: int)
    requires |a| == |v| && 0 <= k < |a|
    ensures c + Dot(a, v) == Before(c, Terms(a, v), k) + a[k] * v[k] + From(Terms(a, v), k + 1)
  {
    DotIsSum(a, v);
    SumSplit(Terms(a, v), k);
    FromStep(Terms(a, v), k);
  }

  lemma {:induction false} SolutionStays(c: int, a: seq<int>, d0: seq<set<int>>, d1: seq<set<int>>, b0: seq<int>,
      t0: seq<int>, b1: seq<int>, t1: seq<int>, v: seq<int>, k: int)
    requires Extremes(a, d0, b0, t0) && Extremes(a, d1, b1, t1) && SweptFrom(c, a, d0, d1, b0, t0, b1, t1, 0)
    requires InDoms(v, d0) && SolvesEq(c, a, v) && 0 <= k <= |a|
    ensures forall j :: k <= j < |a| ==> v[j] in d1[j]
    decreases |a| - k
  {
    if k < |a| {
      SolutionStays(c, a, d0, d1, b0, t0, b1, t1, v, k + 1);
      SolutionFrom(a, d1, b1, t1, v, k + 1);
      SolutionBefore(c, a, d0, b0, t0, v, k);
      TermsAround(c, a, v, k);
      assert SweptAt(c, a, d0, d1, b0, t0, b1, t1, k);
      assert Fits(a[k], v[k], -From(t1, k + 1) - Before(c, t0, k), -From(b1, k + 1) - Before(c, b0, k));
    }
  }

  // A sweep loses no solution.
  lemma SweptSound(c: int, a: seq<int>, d0: seq<set<int>>, d1: seq<set<int>>, v: seq<int>)
    requires Swept(c, a, d0, d1) && InDoms(v, d0) && SolvesEq(c, a, v)
    ensures InDoms(v, d1)
  {
    var b0, t0, b1, t1 :| Extremes(a, d0, b0, t0) && Extremes(a, d1, b1, t1) && SweptFrom(c, a, d0, d1, b0, t0, b1, t1,
        0);
    SolutionStays(c, a, d0, d1, b0, t0, b1, t1, v, 0);
  }

  // The first variable is consistent with the final bounds of all others.
  lemma SweptFirst(c: int, a: seq<int>, d0: seq<set<int>>, d1: seq<set<int>>, b1: seq<int>, t1: seq<int>, v: int)
    requires Swept(c, a, d0, d1) && |a| > 0 && Extremes(a, d1, b1, t1)
    ensures v in d1[0] <==> v in d0[0] && c + a[0] * v + From(b1, 1) <= 0 <= c + a[0] * v + From(t1, 1)
  {
    var b0, t0, b2, t2 :| Extremes(a, d0, b0, t0) && Extremes(a, d1, b2, t2) && SweptFrom(c, a, d0, d1, b0, t0, b2, t2,
        0);
    forall k | 0 <= k < |a| ensures b2[k] == b1[k] && t2[k] == t1[k] {
      ExtremesSame(a, d1, b1, t1, d1, b2, t2, k);
    }
    assert b2 == b1 && t2 == t1;
    assert SweptAt(c, a, d0, d1, b0, t0, b1, t1, 0);
    assert b0[..0] == [] && t0[..0] == [];
  }
}
