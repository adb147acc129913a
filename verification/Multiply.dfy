// X*Y = Z over distinct variables: the steps of b_CLPFD_MULTIPLY_INT_ccc and the passes that eliminate values.
module Multiply {
  import opened Trail
  import opened Layout
  import opened Sets
  import opened Stores
  import opened BitScan
  import opened Region
  import opened Holes
  import opened Domains
  import opened DomainPairs
  import opened LinearTerms
  import opened Quotients
  import opened Products

  // ---- What is kept ----

  ghost predicate Triple(views: map<nat, View>, x: nat, y: nat, z: nat) {
    x in views && y in views && z in views && x != y && y != z && x != z
  }

  // a*b is possible for z, a for x and b for y.
  ghost predicate Product(views: map<nat, View>, x: nat, y: nat, z: nat, a: int, b: int)
    requires Triple(views, x, y, z)
  {
    a in Domain(views[x]) && b in Domain(views[y]) && a * b in Domain(views[z])
  }

  ghost predicate KeepsProducts(v0: map<nat, View>, v: map<nat, View>, x: nat, y: nat, z: nat)
    requires Triple(v0, x, y, z) && Triple(v, x, y, z)
  {
    forall a, b :: Product(v0, x, y, z, a, b) ==> Product(v, x, y, z, a, b)
  }

  ghost predicate NoProducts(v0: map<nat, View>, x: nat, y: nat, z: nat)
    requires Triple(v0, x, y, z)
  {
    forall a, b :: !Product(v0, x, y, z, a, b)
  }

  ghost predicate Shrunk(v0: map<nat, View>, v: map<nat, View>, x: nat, y: nat, z: nat)
    requires Triple(v0, x, y, z) && Triple(v, x, y, z)
  {
    Domain(v[x]) <= Domain(v0[x]) && Domain(v[y]) <= Domain(v0[y]) && Domain(v[z]) <= Domain(v0[z])
  }

  // The propagator is running: nothing but x, y and z changed, and no solution was lost.
  ghost predicate Going(s: Store, v0: map<nat, View>, x: nat, y: nat, z: nat)
    reads s
  {
    && s.Valid() && Triple(v0, x, y, z) && Triple(s.views, x, y, z) && OnlyVars(v0, s.views, [x, y, z])
    && KeepsProducts(v0, s.views, x, y, z) && Shrunk(v0, s.views, x, y, z)
  }

  // What is left of the three.
  ghost function TrioOf(v: map<nat, View>, x: nat, y: nat, z: nat): Doms
    requires Triple(v, x, y, z)
  {
    Doms(Domain(v[x]), Domain(v[y]), Domain(v[z]))
  }

  // The value of one of the three variables in a solution.
  function Val(d: nat, x: nat, y: nat, a: int, b: int): int {
    if d == x then a else if d == y then b else a * b
  }

  // In every solution the value of d is in r.
  ghost predicate AllIn(v: map<nat, View>, x: nat, y: nat, z: nat, d: nat, r: set<int>)
    requires Triple(v, x, y, z)
  {
    forall a, b :: Product(v, x, y, z, a, b) ==> Val(d, x, y, a, b) in r
  }

  lemma StepKeeps(v0: map<nat, View>, v1: map<nat, View>, v2: map<nat, View>, x: nat, y: nat, z: nat, d: nat,
      r: set<int>, ok: bool)
    requires Triple(v0, x, y, z) && Triple(v1, x, y, z) && OnlyVars(v0, v1, [x, y, z]) && KeepsProducts(v0, v1, x, y, z)
    requires Shrunk(v0, v1, x, y, z)
    requires (d == x || d == y || d == z) && Changed(v1, v2, d) && Becomes(v1[d], v2[d], r, ok) && r <= Domain(v1[d])
    requires AllIn(v1, x, y, z, d, r)
    ensures ok ==>
      Triple(v2, x, y, z) && OnlyVars(v0, v2, [x, y, z]) && KeepsProducts(v0, v2, x, y, z) && Shrunk(v0, v2, x, y, z)
    ensures !ok ==> NoProducts(v0, x, y, z)
  {
    forall a, b | Product(v0, x, y, z, a, b) ensures Product(v1, x, y, z, a, b) && Val(d, x, y, a, b) in r {
    }
  }

  // domain_region_noint on one of the three.
  method Narrow(s: Store, ghost v0: map<nat, View>, ghost x: nat, ghost y: nat, ghost z: nat, d: nat, lo: int, hi: int)
    returns (ok: bool)
    requires Going(s, v0, x, y, z) && (d == x || d == y || d == z) && s.views[d].cell == Ref
    requires AllIn(s.views, x, y, z, d, Between(Domain(s.views[d]), lo, hi))
    modifies s`mem, s`trail, s`views
    ensures s.Valid() && (ok ==> Going(s, v0, x, y, z)) && (!ok ==> NoProducts(v0, x, y, z))
    ensures Triple(s.views, x, y, z)
    ensures forall e :: e in s.views && e != d ==> e in old(s.views) && s.views[e] == old(s.views)[e]
    ensures ok <==> Between(Domain(old(s.views)[d]), lo, hi) != {}
    ensures ok ==> Domain(s.views[d]) == Between(Domain(old(s.views)[d]), lo, hi)
    ensures s.views[d].bits == old(s.views[d]).bits
  {
    ghost var r := Between(Domain(s.views[d]), lo, hi);
    ok := Restrict(s, d, lo, hi);
    StepKeeps(v0, old(s.views), s.views, x, y, z, d, r, ok);
  }

  // Taking one value out of one of the three. The result matters only for bound variables.
  method Eliminate(s: Store, ghost v0: map<nat, View>, ghost x: nat, ghost y: nat, ghost z: nat, d: nat, e: int)
    returns (ok: bool)
    requires Going(s, v0, x, y, z) && (d == x || d == y || d == z)
    requires AllIn(s.views, x, y, z, d, Outside(Domain(s.views[d]), e, e))
    modifies s`mem, s`owner, s`trail, s`views
    ensures s.Valid() && (ok ==> Going(s, v0, x, y, z)) && (!ok ==> NoProducts(v0, x, y, z))
    ensures Triple(s.views, x, y, z)
    ensures forall f :: f in s.views && f != d ==> f in old(s.views) && s.views[f] == old(s.views)[f]
    ensures old(s.views[d]).cell == Ref ==> ok
    ensures ok ==> Domain(s.views[d]) == Outside(Domain(old(s.views)[d]), e, e)
    ensures s.views[d].bits <==>
      old(s.views[d]).bits || (old(s.views[d]).cell == Ref && Inner(old(s.views[d]).described, e))
  {
    ghost var r := Outside(Domain(s.views[d]), e, e);
    assert s.views[d].cell == Ref ==> r != {} by {
      if s.views[d].cell == Ref {
        SomeOther(s, d, e);
      }
    }
    ok := SetFalse(s, d, e);
    StepKeeps(v0, old(s.views), s.views, x, y, z, d, r, ok);
  }

  // Is there an a in x with a*e in z?
  method FindSupport(mem: seq<Cell>, ghost owner: seq<int>, x: nat, z: nat, e: int) returns (found: bool)
    requires Shape(mem, owner, x) && Shape(mem, owner, z)
    ensures found <==> exists a :: a in Stale(mem, x) && a * e in Stale(mem, z)
  {
    StaleBounds(mem, owner, x);
    var eX, maxX := First(mem, x), Last(mem, x);
    while true
      invariant First(mem, x) <= eX <= maxX && eX in Stale(mem, x)
      invariant forall a :: a in Stale(mem, x) && a < eX ==> a * e !in Stale(mem, z)
      decreases maxX - eX
    {
      var eZ := eX * e;
      found := DmTrue(mem, owner, z, eZ);
      if found || eX == maxX {
        return;
      }
      eX := StepIn(mem, owner, x, eX, maxX);
    }
  }

  // Is there an a in x, not 0, that divides e with the quotient in y?
  method FindFactor(mem: seq<Cell>, ghost owner: seq<int>, x: nat, y: nat, e: int) returns (found: bool)
    requires Shape(mem, owner, x) && Shape(mem, owner, y) && e != 0
    ensures found <==> exists a, b :: Factors(Stale(mem, x), Stale(mem, y), a, b, e)
  {
    StaleBounds(mem, owner, x);
    ghost var dx, dy := Stale(mem, x), Stale(mem, y);
    var eX, maxX := First(mem, x), Last(mem, x);
    while true
      invariant First(mem, x) <= eX <= maxX && eX in dx
      invariant forall a, b :: a < eX ==> !Factors(dx, dy, a, b, e)
      decreases maxX - eX
    {
      found := TryFactor(mem, owner, y, eX, e);
      if found {
        ghost var b :| b in dy && eX * b == e;
        assert Factors(dx, dy, eX, b, e);
      }
      if found || eX == maxX {
        return;
      }
      ghost var was := eX;
      eX := StepIn(mem, owner, x, eX, maxX);
      forall a, b | a < eX ensures !Factors(dx, dy, a, b, e) {
        assert a in dx && b in dy ==> a <= was;
      }
    }
  }

  method TryFactor(mem: seq<Cell>, ghost owner: seq<int>, y: nat, eX: int, e: int) returns (found: bool)
    requires Shape(mem, owner, y) && e != 0
    ensures found <==> exists b :: b in Stale(mem, y) && eX * b == e
  {
    found := false;
    if eX != 0 {
      var eY := TruncDiv(e, eX);
      if eX * eY == e {
        found := DmTrue(mem, owner, y, eY);
      }
      forall b | b in Stale(mem, y) && eX * b == e ensures eY == b {
        TruncExact(eX, b);
      }
    }
  }
}
