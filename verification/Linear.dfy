// Linear constraints over finite domains: what solutions are, and how far bounds decide them.
module Linear {
  import opened Region

  ghost function Sum(s: seq<int>): int {
    if s == [] then 0 else Sum(s[..|s| - 1]) + s[|s| - 1]
  }

  // a[0]*v[0] + ... + a[n-1]*v[n-1]
  ghost function Dot(a: seq<int>, v: seq<int>): int
    requires |a| == |v|
  {
    if |a| == 0 then 0 else Dot(a[..|a| - 1], v[..|a| - 1]) + a[|a| - 1] * v[|a| - 1]
  }

  ghost predicate InDoms(v: seq<int>, doms: seq<set<int>>) {
    |v| == |doms| && forall i :: 0 <= i < |v| ==> v[i] in doms[i]
  }

  // c + a*v >= 0
  ghost predicate SolvesGe(c: int, a: seq<int>, v: seq<int>) {
    |a| == |v| && c + Dot(a, v) >= 0
  }

  // c + a*v == 0
  ghost predicate SolvesEq(c: int, a: seq<int>, v: seq<int>) {
    |a| == |v| && c + Dot(a, v) == 0
  }

  // The extreme values of a*x for x between lo and hi.
  function Top(a: int, lo: int, hi: int): int { if a > 0 then a * hi else a * lo }
  function Bot(a: int, lo: int, hi: int): int { if a > 0 then a * lo else a * hi }

  lemma TermBounds(a: int, lo: int, hi: int, v: int)
    requires lo <= v <= hi
    ensures Bot(a, lo, hi) <= a * v <= Top(a, lo, hi)
  {
  }

  // lo and hi are the least and greatest members of the domains.
  ghost predicate AllBounds(doms: seq<set<int>>, lo: seq<int>, hi: seq<int>) {
    |lo| == |doms| == |hi| && forall i :: 0 <= i < |doms| ==> Bounds(doms[i], lo[i], hi[i])
  }

  ghost function Tops(a: seq<int>, lo: seq<int>, hi: seq<int>): (t: seq<int>)
    requires |a| == |lo| == |hi|
    ensures |t| == |a|
  {
    seq(|a|, i requires 0 <= i < |a| => Top(a[i], lo[i], hi[i]))
  }

  ghost function Bots(a: seq<int>, lo: seq<int>, hi: seq<int>): (t: seq<int>)
    requires |a| == |lo| == |hi|
    ensures |t| == |a|
  {
    seq(|a|, i requires 0 <= i < |a| => Bot(a[i], lo[i], hi[i]))
  }

  // The vector that reaches the greatest value.
  ghost function Best(a: seq<int>, lo: seq<int>, hi: seq<int>): (t: seq<int>)
    requires |a| == |lo| == |hi|
    ensures |t| == |a|
  {
    seq(|a|, i requires 0 <= i < |a| => if a[i] > 0 then hi[i] else lo[i])
  }

  lemma {:induction false} SumLe(s: seq<int>, t: seq<int>)
    requires |s| == |t| && forall i :: 0 <= i < |s| ==> s[i] <= t[i]
    ensures Sum(s) <= Sum(t)
    decreases |s|
  {
    if |s| > 0 {
      SumLe(s[..|s| - 1], t[..|s| - 1]);
    }
  }

  // Trading the k-th summand.
  lemma {:induction false} SumUpdate(s: seq<int>, k: int, x: int)
    requires 0 <= k < |s|
    ensures Sum(s[k := x]) == Sum(s) - s[k] + x
    decreases |s|
  {
    var m := |s| - 1;
    if k < m {
      assert s[k := x][..m] == s[..m][k := x];
      SumUpdate(s[..m], k, x);
    } else {
      assert s[k := x][..m] == s[..m];
    }
  }

  lemma {:induction false} SumSplit(s: seq<int>, k: int)
    requires 0 <= k <= |s|
    ensures Sum(s) == Sum(s[..k]) + Sum(s[k..])
    decreases |s|
  {
    if k == |s| {
      assert s[..k] == s && s[k..] == [];
    } else {
      var m := |s| - 1;
      SumSplit(s[..m], k);
      assert s[..m][..k] == s[..k] && s[..m][k..] == s[k..][..m - k];
    }
  }

  // Products as a sequence, so that sums do the rest.
  ghost function Terms(a: seq<int>, v: seq<int>): (t: seq<int>)
    requires |a| == |v|
    ensures |t| == |a|
  {
    seq(|a|, i requires 0 <= i < |a| => a[i] * v[i])
  }

  lemma {:induction false} DotIsSum(a: seq<int>, v: seq<int>)
    requires |a| == |v|
    ensures Dot(a, v) == Sum(Terms(a, v))
    decreases |a|
  {
    if |a| > 0 {
      var m := |a| - 1;
      DotIsSum(a[..m], v[..m]);
      assert Terms(a, v)[..m] == Terms(a[..m], v[..m]);
    }
  }

  // Every assignment lies between the sums of the extremes.
  lemma DotBounds(a: seq<int>, v: seq<int>, doms: seq<set<int>>, lo: seq<int>, hi: seq<int>)
    requires |a| == |doms| && AllBounds(doms, lo, hi) && InDoms(v, doms)
    ensures Sum(Bots(a, lo, hi)) <= Dot(a, v) <= Sum(Tops(a, lo, hi))
  {
    DotIsSum(a, v);
    forall i | 0 <= i < |a| ensures Bots(a, lo, hi)[i] <= Terms(a, v)[i] <= Tops(a, lo, hi)[i] {
      TermBounds(a[i], lo[i], hi[i], v[i]);
    }
    SumLe(Bots(a, lo, hi), Terms(a, v));
    SumLe(Terms(a, v), Tops(a, lo, hi));
  }

  // With x[k] fixed, the greatest value the rest can bring it to, and the vector that does.
  lemma DotWithout(a: seq<int>, v: seq<int>, doms: seq<set<int>>, lo: seq<int>, hi: seq<int>, k: int)
    requires |a| == |doms| && AllBounds(doms, lo, hi) && InDoms(v, doms) && 0 <= k < |a|
    ensures Dot(a, v) <= Sum(Tops(a, lo, hi)) - Tops(a, lo, hi)[k] + a[k] * v[k]
  {
    DotIsSum(a, v);
    var t := Tops(a, lo, hi)[k := a[k] * v[k]];
    forall i | 0 <= i < |a| ensures Terms(a, v)[i] <= t[i] {
      TermBounds(a[i], lo[i], hi[i], v[i]);
    }
    SumLe(Terms(a, v), t);
    SumUpdate(Tops(a, lo, hi), k, a[k] * v[k]);
  }

  lemma BestWith(a: seq<int>, doms: seq<set<int>>, lo: seq<int>, hi: seq<int>, k: int, x: int)
    requires |a| == |doms| && AllBounds(doms, lo, hi) && 0 <= k < |a| && x in doms[k]
    ensures InDoms(Best(a, lo, hi)[k := x], doms)
    ensures Dot(a, Best(a, lo, hi)[k := x]) == Sum(Tops(a, lo, hi)) - Tops(a, lo, hi)[k] + a[k] * x
  {
    var v, p := Best(a, lo, hi)[k := x], a[k] * x;
    assert InDoms(v, doms) by {
      BestIn(a, doms, lo, hi, k, x, v);
    }
    assert Dot(a, v) == Sum(Tops(a, lo, hi)[k := p]) by {
      DotIsSum(a, v);
      BestTerms(a, lo, hi, k, x, v, p);
    }
    SumUpdate(Tops(a, lo, hi), k, p);
  }

  lemma BestIn(a: seq<int>, doms: seq<set<int>>, lo: seq<int>, hi: seq<int>, k: int, x: int, v: seq<int>)
    requires |a| == |doms| && AllBounds(doms, lo, hi) && 0 <= k < |a| && x in doms[k] && v == Best(a, lo, hi)[k := x]
    ensures InDoms(v, doms)
  {
    forall i | 0 <= i < |a| ensures v[i] in doms[i] {
      assert Bounds(doms[i], lo[i], hi[i]);
    }
  }

  lemma BestTerms(a: seq<int>, lo: seq<int>, hi: seq<int>, k: int, x: int, v: seq<int>, p: int)
    requires |a| == |lo| == |hi| && 0 <= k < |a| && v == Best(a, lo, hi)[k := x] && p == a[k] * x
    ensures Terms(a, v) == Tops(a, lo, hi)[k := p]
  {
    forall i | 0 <= i < |a| ensures Terms(a, v)[i] == Tops(a, lo, hi)[k := p][i] {
      if i != k {
        assert v[i] == Best(a, lo, hi)[i];
      }
    }
  }

  lemma BestReaches(a: seq<int>, doms: seq<set<int>>, lo: seq<int>, hi: seq<int>)
    requires |a| == |doms| && AllBounds(doms, lo, hi)
    ensures InDoms(Best(a, lo, hi), doms) && Dot(a, Best(a, lo, hi)) == Sum(Tops(a, lo, hi))
  {
    DotIsSum(a, Best(a, lo, hi));
    assert Terms(a, Best(a, lo, hi)) == Tops(a, lo, hi);
  }
}
