// The arguments of a linear propagator and the bounds of its partial sums.
module LinearTerms {
  import opened Trail
  import opened Layout
  import opened Stores
  import opened Region
  import opened Linear

  // A dereferenced argument: an integer, or a suspended variable.
  datatype Arg = Int(n: int) | Susp(d: nat)

  function Deref(mem: seq<Cell>, d: nat): Arg {
    if Bound(mem, d) then Int(mem[d].n) else Susp(d)
  }

  function LoOf(mem: seq<Cell>, d: nat): int { if Bound(mem, d) then mem[d].n else First(mem, d) }
  function HiOf(mem: seq<Cell>, d: nat): int { if Bound(mem, d) then mem[d].n else Last(mem, d) }

  ghost predicate AreVars(views: map<nat, View>, x: seq<nat>) {
    forall i :: 0 <= i < |x| ==> x[i] in views
  }

  ghost predicate Distinct(x: seq<nat>) {
    forall i, j :: 0 <= i < j < |x| ==> x[i] != x[j]
  }

  // Positions that hold the same variable have the same value.
  ghost predicate Agree(x: seq<nat>, v: seq<int>) {
    |v| == |x| && forall i, j :: 0 <= i < j < |x| && x[i] == x[j] ==> v[i] == v[j]
  }

  lemma AgreeAt(x: seq<nat>, v: seq<int>, i: int, j: int)
    requires Agree(x, v) && 0 <= i < |x| && 0 <= j < |x| && x[i] == x[j]
    ensures v[i] == v[j]
  {
    assert i < j || j < i || i == j;
  }

  ghost function DomsOf(views: map<nat, View>, x: seq<nat>): (doms: seq<set<int>>)
    requires AreVars(views, x)
    ensures |doms| == |x|
  {
    seq(|x|, i requires 0 <= i < |x| => Domain(views[x[i]]))
  }

  function Los(mem: seq<Cell>, x: seq<nat>): (lo: seq<int>)
    ensures |lo| == |x|
  {
    seq(|x|, i requires 0 <= i < |x| => LoOf(mem, x[i]))
  }

  function His(mem: seq<Cell>, x: seq<nat>): (hi: seq<int>)
    ensures |hi| == |x|
  {
    seq(|x|, i requires 0 <= i < |x| => HiOf(mem, x[i]))
  }

  lemma VarBounds(s: Store, d: nat)
    requires s.Valid() && d in s.views
    ensures Bounds(Domain(s.views[d]), LoOf(s.mem, d), HiOf(s.mem, d))
    ensures Bound(s.mem, d) <==> s.views[d].cell.Num?
    ensures Bound(s.mem, d) ==> Domain(s.views[d]) == {s.mem[d].n}
    ensures d + SIZE_OF_DV <= |s.mem|
  {
    assert Shape(s.mem, s.owner, d);
    StaleBounds(s.mem, s.owner, d);
  }

  // The argument as the views show it.
  function ArgOf(v: View, d: nat): Arg {
    if v.cell.Num? then Int(v.cell.n) else Susp(d)
  }

  lemma DerefView(s: Store, d: nat)
    requires s.Valid() && d in s.views
    ensures Deref(s.mem, d) == ArgOf(s.views[d], d)
  {
    assert Shape(s.mem, s.owner, d);
  }

  // Only the variables x may have changed.
  ghost predicate OnlyVars(views: map<nat, View>, views': map<nat, View>, x: seq<nat>) {
    && views'.Keys == views.Keys
    && forall e :: e in views && e !in x ==> views'[e] == views[e]
  }

  lemma OnlyVarsStep(v0: map<nat, View>, v1: map<nat, View>, v2: map<nat, View>, x: seq<nat>, d: nat)
    requires OnlyVars(v0, v1, x) && Changed(v1, v2, d) && d in v1 && d in x
    ensures OnlyVars(v0, v2, x)
  {
  }

  lemma DomsStep(v1: map<nat, View>, v2: map<nat, View>, x: seq<nat>, k: int)
    requires AreVars(v1, x) && Distinct(x) && 0 <= k < |x| && Changed(v1, v2, x[k])
    ensures AreVars(v2, x) && DomsOf(v2, x) == DomsOf(v1, x)[k := Domain(v2[x[k]])]
    ensures forall j :: 0 <= j < |x| && j != k ==> v2[x[j]] == v1[x[j]]
  {
  }

  lemma BoundsUnique(dom: set<int>, lo: int, hi: int, lo': int, hi': int)
    requires Bounds(dom, lo, hi) && Bounds(dom, lo', hi')
    ensures lo == lo' && hi == hi'
  {
  }

  lemma ViewsBounds(s: Store, x: seq<nat>)
    requires s.Valid() && AreVars(s.views, x)
    ensures AllBounds(DomsOf(s.views, x), Los(s.mem, x), His(s.mem, x))
  {
    forall i | 0 <= i < |x| ensures Bounds(DomsOf(s.views, x)[i], Los(s.mem, x)[i], His(s.mem, x)[i]) {
      VarBounds(s, x[i]);
    }
  }

  // COMPUTE_LOW_UPPER_BOUNDS_nooverflow_p, _p1, _m, _m1: the bounds after one more term.
  method AddTerm(mem: seq<Cell>, a: int, arg: Arg, ghost d: nat, l1: int, u1: int) returns (l2: int, u2: int)
    requires arg == Deref(mem, d)
    ensures l2 == l1 + Bot(a, LoOf(mem, d), HiOf(mem, d)) && u2 == u1 + Top(a, LoOf(mem, d), HiOf(mem, d))
  {
    match arg
    case Susp(x) =>
      var first, last := First(mem, x), Last(mem, x);
      if a > 0 {
        if a == 1 {
          l2, u2 := l1 + first, u1 + last;
        } else {
          l2, u2 := l1 + a * first, u1 + a * last;
        }
      } else {
        if a == -1 {
          l2, u2 := l1 - last, u1 - first;
        } else {
          var b := -a;
          MinusProduct(a, first);
          MinusProduct(a, last);
          l2, u2 := l1 - b * last, u1 - b * first;
        }
      }
    case Int(n) =>
      if a > 0 {
        var t := a * n;
        l2, u2 := l1 + t, u1 + t;
      } else {
        var b := -a;
        var t := b * n;
        MinusProduct(a, n);
        l2, u2 := l1 - t, u1 - t;
      }
  }

  lemma MinusProduct(a: int, n: int)
    ensures (-a) * n == -(a * n)
  {
  }

  lemma {:induction false} SumPrefix(t: seq<int>, i: int)
    requires 0 <= i < |t|
    ensures Sum(t[..i + 1]) == Sum(t[..i]) + t[i]
  {
    assert t[..i + 1][..i] == t[..i];
  }

  method AddTermAt(mem: seq<Cell>, a: seq<int>, x: seq<nat>, i: int, arg: Arg, l1: int, u1: int, ghost b: seq<int>,
      ghost t: seq<int>)
    returns (l2: int, u2: int)
    requires |a| == |x| && 0 <= i < |a| && arg == Deref(mem, x[i])
    requires b == Bots(a, Los(mem, x), His(mem, x)) && t == Tops(a, Los(mem, x), His(mem, x))
    ensures l2 == l1 + b[i] && u2 == u1 + t[i]
  {
    l2, u2 := AddTerm(mem, a[i], arg, x[i], l1, u1);
  }

  // tl[k] is c plus the sum of the first k entries of b, for k up to n.
  ghost predicate Prefixes(tl: seq<int>, c: int, b: seq<int>, n: int) {
    0 <= n <= |b| && n < |tl| && forall k :: 0 <= k <= n ==> tl[k] == c + Sum(b[..k])
  }

  lemma PrefixesStep(tl: seq<int>, tl': seq<int>, c: int, b: seq<int>, n: int)
    requires Prefixes(tl, c, b, n) && n < |b| && n + 1 < |tl| && tl' == tl[n + 1 := tl[n] + b[n]]
    ensures Prefixes(tl', c, b, n + 1)
  {
    SumPrefix(b, n);
  }

  // The forward pass: tl[i] and tu[i] bound c + a1*x1 + ... + ai*xi.
  method ComputeBounds(mem: seq<Cell>, c: int, a: seq<int>, x: seq<nat>, tl: array<int>, tu: array<int>, xx: array<Arg>)
    returns (ghost b: seq<int>, ghost t: seq<int>)
    requires |a| == |x|
    requires tl != tu && tl.Length == |a| + 1 && tu.Length == |a| + 1 && xx.Length == |a| + 1
    modifies tl, tu, xx
    ensures b == Bots(a, Los(mem, x), His(mem, x)) && t == Tops(a, Los(mem, x), His(mem, x))
    ensures Prefixes(tl[..], c, b, |a|) && Prefixes(tu[..], c, t, |a|)
    ensures forall k :: 0 < k <= |a| ==> xx[k] == Deref(mem, x[k - 1])
  {
    b, t := Bots(a, Los(mem, x), His(mem, x)), Tops(a, Los(mem, x), His(mem, x));
    tl[0], tu[0] := c, c;
    var i := 1;
    while i <= |a|
      invariant 1 <= i <= |a| + 1
      invariant Prefixes(tl[..], c, b, i - 1) && Prefixes(tu[..], c, t, i - 1)
      invariant forall k :: 0 < k < i ==> xx[k] == Deref(mem, x[k - 1])
    {
      xx[i] := Deref(mem, x[i - 1]);
      var l, u := AddTermAt(mem, a, x, i - 1, xx[i], tl[i - 1], tu[i - 1], b, t);
      PrefixesStep(tl[..], tl[..][i := l], c, b, i - 1);
      PrefixesStep(tu[..], tu[..][i := u], c, t, i - 1);
      tl[i], tu[i] := l, u;
      i := i + 1;
    }
  }

  // UP_DIV for a positive divisor: C division truncates, so the quotient is corrected upward.
  method UpDiv(x: int, a: int) returns (v: int)
    requires a > 0
    ensures forall u :: u >= v <==> a * u >= x
  {
    if x >= 0 {
      v := x / a;
      if v * a != x {
        v := v + 1;
      }
    } else {
      v := -((-x) / a);
    }
    assert a * (v - 1) < x <= a * v;
    forall u ensures u >= v <==> a * u >= x {
      Scaled(a, u, v);
      Scaled(a, v - 1, u);
    }
  }

  // LOW_DIV for a positive divisor
  method LowDiv(x: int, a: int) returns (v: int)
    requires a > 0
    ensures forall u :: u <= v <==> a * u <= x
  {
    if x >= 0 {
      v := x / a;
    } else {
      v := -((-x) / a);
      if v * a != x {
        v := v - 1;
      }
    }
    assert a * v <= x < a * (v + 1);
    forall u ensures u <= v <==> a * u <= x {
      Scaled(a, v + 1, u);
      Scaled(a, u, v);
    }
  }

  lemma Scaled(a: int, u: int, v: int)
    requires a > 0
    ensures u <= v <==> a * u <= a * v
    ensures u < v <==> a * u < a * v
  {
  }
}
