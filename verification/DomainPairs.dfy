// Operations on two domains: difference, intersection, and the word-parallel tests.
module DomainPairs {
  import opened Trail
  import opened Layout
  import opened Sets
  import opened Stores
  import opened BitScan
  import opened Region
  import opened Holes
  import opened Domains

  function Max(a: int, b: int): int { if a > b then a else b }
  function Min(a: int, b: int): int { if a < b then a else b }

  // d without the members of x up to k.
  ghost function LessUpTo(d: set<int>, x: set<int>, k: int): set<int> {
    set v: int | v in d && !(v in x && v <= k)
  }

  // The first member of x at or after first, found by testing one value after the other.
  method FirstCommon(mem: seq<Cell>, ghost owner: seq<int>, x: nat, from: int, last: int) returns (first: int)
    requires Shape(mem, owner, x) && from <= last
    ensures from <= first <= last + 1 && (forall v :: from <= v < first ==> v !in Stale(mem, x))
    ensures first <= last ==> first in Stale(mem, x)
  {
    first := from;
    while first <= last
      invariant from <= first <= last + 1 && (forall v :: from <= v < first ==> v !in Stale(mem, x))
    {
      var isIn := DmTrue(mem, owner, x, first);
      if isIn {
        return;
      }
      first := first + 1;
    }
  }

  // The member of x after first; last is a value x still reaches.
  method StepIn(mem: seq<Cell>, ghost owner: seq<int>, x: nat, first: int, ghost last: int) returns (next: int)
    requires Shape(mem, owner, x) && First(mem, x) <= first < last <= Last(mem, x)
    ensures first < next && next in Stale(mem, x)
    ensures forall v :: first < v < next ==> v !in Stale(mem, x)
  {
    next := first + 1;
    StaleBounds(mem, owner, x);
    if IsIT(mem, x) {
      assert InStale(mem, x, next);
    } else {
      ghost var rest := Between(Stale(mem, x), next, Last(mem, x));
      assert Last(mem, x) in rest;
      next := NextMember(mem, owner, x, next, Last(mem, x));
      forall v | first < v < next ensures v !in Stale(mem, x) {
        assert v in rest <==> v in Between(Stale(mem, x), next, Last(mem, x));
      }
    }
  }

  lemma DropNext(d: set<int>, x: set<int>, k: int, v: int)
    requires v in x && k < v && (forall u :: k < u < v ==> u !in x)
    ensures Outside(LessUpTo(d, x, k), v, v) == LessUpTo(d, x, v)
  {
  }

  lemma DropAll(d: set<int>, x: set<int>, k: int)
    requires forall u :: u in x && u in d ==> u <= k
    ensures LessUpTo(d, x, k) == d - x
  {
  }

  // exclude_dom_aux: the domain of y less what x describes.
  method ExcludeDom(s: Store, x: nat, y: nat) returns (ok: bool)
    requires s.Valid() && x in s.views && y in s.views && x != y && Consistent(s.views[y])
    modifies s`mem, s`owner, s`trail, s`views
    ensures s.Valid() && Changed(old(s.views), s.views, y)
    ensures Becomes(old(s.views[y]), s.views[y], Domain(old(s.views[y])) - s.views[x].described, ok)
  {
    var apart, first, last := CommonRange(s, x, y);
    if apart {
      ghost var d := Domain(s.views[y]);
      assert d - s.views[x].described == d;
      DomainNotEmpty(s, y);
      return true;
    }
    ok := ExcludeFrom(s, x, y, first, last);
  }

  // Where values of y described by x may lie: from the first one described to last.
  method CommonRange(s: Store, x: nat, y: nat) returns (apart: bool, first: int, last: int)
    requires s.Valid() && x in s.views && y in s.views && Consistent(s.views[y])
    ensures apart ==> Domain(s.views[y]) !! s.views[x].described
    ensures !apart && first <= last ==> first in s.views[x].described && last <= Last(s.mem, x)
    ensures !apart ==> forall v :: v in Domain(s.views[y]) && v in s.views[x].described ==> first <= v <= last
    ensures forall v :: v in s.views[x].described ==> First(s.mem, x) <= v
  {
    assert Shape(s.mem, s.owner, x) && Shape(s.mem, s.owner, y);
    StaleBounds(s.mem, s.owner, x);
    StaleBounds(s.mem, s.owner, y);
    var firstY, lastY := First(s.mem, y), Last(s.mem, y);
    apart := First(s.mem, x) > lastY || firstY > Last(s.mem, x);
    first, last := firstY, lastY;
    if !apart {
      last := Min(Last(s.mem, x), lastY);
      first := FirstCommon(s.mem, s.owner, x, Max(First(s.mem, x), firstY), last);
    }
  }

  lemma DomainNotEmpty(s: Store, y: nat)
    requires s.Valid() && y in s.views
    ensures exists n :: n in Domain(s.views[y])
  {
    assert Shape(s.mem, s.owner, y);
    if s.views[y].cell.Num? {
      assert s.views[y].cell.n in Domain(s.views[y]);
    } else {
      assert First(s.mem, y) in Domain(s.views[y]);
    }
  }

  method ExcludeFrom(s: Store, x: nat, y: nat, first0: int, last: int) returns (ok: bool)
    requires s.Valid() && x in s.views && y in s.views && x != y
    requires first0 <= last ==> first0 in s.views[x].described
    requires forall v :: v in Domain(s.views[y]) && v in s.views[x].described ==> first0 <= v <= last
    requires forall v :: v in s.views[x].described ==> First(s.mem, x) <= v
    requires first0 <= last ==> last <= Last(s.mem, x)
    modifies s`mem, s`owner, s`trail, s`views
    ensures s.Valid() && Changed(old(s.views), s.views, y)
    ensures Becomes(old(s.views[y]), s.views[y], Domain(old(s.views[y])) - s.views[x].described, ok)
  {
    ghost var d, dx, v0 := Domain(s.views[y]), s.views[x].described, s.views[y];
    if first0 > last {
      forall v | v in d ensures v !in dx {
      }
      assert d - dx == d;
      DomainNotEmpty(s, y);
      return true;
    }
    var first := first0;
    ghost var k := first0 - 1;
    assert LessUpTo(d, dx, k) == d;
    DomainNotEmpty(s, y);
    assert Last(s.mem, x) in dx by {
      assert Shape(s.mem, s.owner, x);
    }
    ghost var top := Last(s.mem, x);
    while true
      invariant s.Valid() && Changed(old(s.views), s.views, y) && s.views[x].described == dx
      invariant k < first && first in dx && (forall u :: k < u < first ==> u !in dx) && first0 <= first
      invariant Becomes(v0, s.views[y], LessUpTo(d, dx, k), true)
      decreases last - first
    {
      ghost var vy := s.views[y];
      ok := SetFalse(s, y, first);
      DropStep(v0, vy, s.views[y], d, dx, k, first, last, ok);
      if !ok {
        return false;
      }
      if first >= last {
        return true;
      }
      k := first;
      first := NextDescribed(s, x, first, top);
    }
  }

  // The next value described by x.
  method NextDescribed(s: Store, x: nat, first: int, ghost top: int) returns (next: int)
    requires s.Valid() && x in s.views && first in s.views[x].described && top in s.views[x].described && first < top
    ensures first < next && next in s.views[x].described
    ensures forall v :: first < v < next ==> v !in s.views[x].described
  {
    assert Shape(s.mem, s.owner, x);
    StaleBounds(s.mem, s.owner, x);
    next := StepIn(s.mem, s.owner, x, first, Last(s.mem, x));
  }

  // One value taken out of y.
  lemma DropStep(v0: View, vy: View, v: View, d: set<int>, dx: set<int>, k: int, first: int, last: int, ok: bool)
    requires Becomes(v0, vy, LessUpTo(d, dx, k), true) && Becomes(vy, v, Outside(Domain(vy), first, first), ok)
    requires first in dx && k < first && (forall u :: k < u < first ==> u !in dx)
    requires forall u :: u in d && u in dx ==> u <= last
    ensures ok ==> Becomes(v0, v, LessUpTo(d, dx, first), true)
    ensures !ok || first >= last ==> Becomes(v0, v, d - dx, ok)
  {
    DropNext(d, dx, k, first);
    LaterBecomes(v0, vy, v, LessUpTo(d, dx, k), LessUpTo(d, dx, first), ok);
    if !ok {
      assert d - dx <= LessUpTo(d, dx, first);
    } else if first >= last {
      DropAll(d, dx, first);
    }
  }

  // One more narrowing after another.
  lemma LaterBecomes(v0: View, v1: View, v2: View, r1: set<int>, r2: set<int>, ok: bool)
    requires Becomes(v0, v1, r1, true) && Becomes(v1, v2, r2, ok)
    ensures Becomes(v0, v2, r2, ok)
  {
  }

  // d cut to from..last, with the members below k that are not in y gone.
  ghost function KeptBelow(d: set<int>, y: set<int>, from: int, last: int, k: int): set<int> {
    set v: int | v in d && from <= v <= last && (v < k ==> v in y)
  }

  // dm_intersect: the domain of x cut down to what y describes.
  method DmIntersect(s: Store, x: nat, y: nat) returns (ok: bool)
    requires s.Valid() && x in s.views && y in s.views && x != y && s.views[x].cell == Ref
    modifies s`mem, s`owner, s`trail, s`views
    ensures s.Valid() && Changed(old(s.views), s.views, x)
    ensures Becomes(old(s.views[x]), s.views[x], Domain(old(s.views[x])) * s.views[y].described, ok)
  {
    ghost var d, dy := Domain(s.views[x]), s.views[y].described;
    assert Shape(s.mem, s.owner, x) && Shape(s.mem, s.owner, y);
    StaleBounds(s.mem, s.owner, x);
    StaleBounds(s.mem, s.owner, y);
    if IsIT(s.mem, y) {
      assert Between(d, First(s.mem, y), Last(s.mem, y)) == d * dy by {
        forall v | First(s.mem, y) <= v <= Last(s.mem, y) ensures v in dy {
          assert InStale(s.mem, y, v);
        }
      }
      ok := Restrict(s, x, First(s.mem, y), Last(s.mem, y));
    } else {
      ok := IntersectBv(s, x, y, Max(First(s.mem, y), First(s.mem, x)), Min(Last(s.mem, y), Last(s.mem, x)));
    }
  }

  method IntersectBv(s: Store, x: nat, y: nat, first: int, last: int) returns (ok: bool)
    requires s.Valid() && x in s.views && y in s.views && x != y && s.views[x].cell == Ref
    requires forall v :: v in Domain(s.views[x]) && v in s.views[y].described ==> first <= v <= last
    modifies s`mem, s`owner, s`trail, s`views
    ensures s.Valid() && Changed(old(s.views), s.views, x)
    ensures Becomes(old(s.views[x]), s.views[x], Domain(old(s.views[x])) * s.views[y].described, ok)
  {
    ghost var d, dy := Domain(s.views[x]), s.views[y].described;
    forall v ensures v in d * dy ==> v in Between(d, first, last) {
    }
    if first > last {
      assert Between(d, first, last) == {};
      return false;
    }
    ok := Restrict(s, x, first, last);
    if !ok {
      return false;
    }
    KeptNone(d, dy, first, last);
    ghost var v1 := s.views[x];
    ok := KeepMembers(s, x, y, d, first, last);
    LaterBecomes(old(s.views[x]), v1, s.views[x], KeptBelow(d, dy, first, last, first), d * dy, ok);
  }

  lemma KeptNone(d: set<int>, y: set<int>, from: int, last: int)
    requires forall v :: v in d && v in y ==> from <= v <= last
    ensures KeptBelow(d, y, from, last, from) == Between(d, from, last)
    ensures KeptBelow(d, y, from, last, last + 1) == d * y
  {
  }

  lemma KeptStep(d: set<int>, y: set<int>, from: int, last: int, k: int)
    ensures k in y ==> KeptBelow(d, y, from, last, k + 1) == KeptBelow(d, y, from, last, k)
    ensures k !in y ==> KeptBelow(d, y, from, last, k + 1) == Outside(KeptBelow(d, y, from, last, k), k, k)
    ensures k <= last ==> KeptBelow(d, y, from, last, last + 1) <= KeptBelow(d, y, from, last, k + 1)
  {
  }

  method KeepMembers(s: Store, x: nat, y: nat, ghost d: set<int>, first0: int, last: int) returns (ok: bool)
    requires s.Valid() && x in s.views && y in s.views && x != y && first0 <= last
    requires Domain(s.views[x]) == KeptBelow(d, s.views[y].described, first0, last, first0)
    modifies s`mem, s`owner, s`trail, s`views
    ensures s.Valid() && Changed(old(s.views), s.views, x)
    ensures Becomes(old(s.views[x]), s.views[x], KeptBelow(d, s.views[y].described, first0, last, last + 1), ok)
  {
    ghost var dy, v0 := s.views[y].described, s.views[x];
    var first := first0;
    DomainNotEmpty(s, x);
    while first <= last
      invariant first0 <= first <= last + 1
      invariant s.Valid() && Changed(old(s.views), s.views, x) && s.views[y].described == dy
      invariant Becomes(v0, s.views[x], KeptBelow(d, dy, first0, last, first), true)
    {
      ghost var vx := s.views[x];
      KeptStep(d, dy, first0, last, first);
      assert Shape(s.mem, s.owner, y);
      var isIn := DmTrue(s.mem, s.owner, y, first);
      if !isIn {
        ok := SetFalse(s, x, first);
        LaterBecomes(v0, vx, s.views[x], KeptBelow(d, dy, first0, last, first),
          KeptBelow(d, dy, first0, last, first + 1), ok);
        if !ok {
          return false;
        }
      }
      first := first + 1;
    }
    ok := true;
  }
}
