// b_CLPFD_MULTIPLY_INT_ccc: X*Y = Z over distinct variables, phase by phase.
module MultiplyInt {
  import opened Trail
  import opened Layout
  import opened Sets
  import opened Stores
  import opened BitScan
  import opened Holes
  import opened Region
  import opened Domains
  import opened DomainPairs
  import opened LinearTerms
  import opened Enumeration
  import opened Quotients
  import opened Products
  import opened Multiply
  import opened Elimination

  // A phase fails, ends the propagation, or lets it go on.
  datatype Outcome = Fail | Done | Go

  ghost predicate After(s: Store, v0: map<nat, View>, x: nat, y: nat, z: nat, o: Outcome)
    reads s
  {
    s.Valid() && Triple(v0, x, y, z) && if o == Fail then NoProducts(v0, x, y, z) else Going(s, v0, x, y, z)
  }

  // The phase ends as st says, with the values left that st says.
  ghost predicate Reaches(v: map<nat, View>, x: nat, y: nat, z: nat, o: Outcome, st: State)
    requires Triple(v, x, y, z)
  {
    match st
    case Empty => o == Fail
    case Final(d) => o == Done && TrioOf(v, x, y, z) == d
    case Open(d) => o == Go && TrioOf(v, x, y, z) == d
  }

  ghost function KindsOf(v: map<nat, View>, x: nat, y: nat, z: nat): Kinds
    requires Triple(v, x, y, z)
  {
    Kinds(v[x].bits, v[y].bits, v[z].bits)
  }

  ghost predicate SameKinds(v0: map<nat, View>, v: map<nat, View>, x: nat, y: nat, z: nat)
    requires Triple(v0, x, y, z) && Triple(v, x, y, z)
  {
    KindsOf(v, x, y, z) == KindsOf(v0, x, y, z)
  }

  // Factor d was cut to r.
  lemma FactorCut(s: Store, v1: map<nat, View>, x: nat, y: nat, z: nat, d: nat, r: set<int>, ok: bool, o: Outcome)
    requires s.Valid() && Triple(v1, x, y, z) && Triple(s.views, x, y, z) && (d == x || d == y)
    requires forall e :: e in s.views && e != d ==> e in v1 && s.views[e] == v1[e]
    requires (ok <==> r != {}) && (ok ==> Domain(s.views[d]) == r)
    requires o == if !ok then Fail else if s.views[d].cell.Num? then Done else Go
    ensures Reaches(s.views, x, y, z, o, Cut(TrioOf(v1, x, y, z), d == x, r))
  {
    BoundIffSingle(s, d);
  }

  ghost predicate Unbound(views: map<nat, View>, d: nat) {
    d in views && views[d].cell == Ref
  }

  // ---- One factor is an integer ----

  // x is bound to a, y and z are not: z keeps exactly the multiples of a with the quotient in y.
  method ConstFactor(s: Store, ghost v0: map<nat, View>, ghost x: nat, a: int, y: nat, z: nat) returns (ok: bool)
    requires Going(s, v0, x, y, z) && s.views[x].cell == Num(a) && Unbound(s.views, y) && Unbound(s.views, z) && a != 0
    modifies s`mem, s`owner, s`trail, s`views
    ensures After(s, v0, x, y, z, if ok then Done else Fail)
    ensures Triple(s.views, x, y, z) && s.views[x] == old(s.views[x]) && s.views[y] == old(s.views[y])
    ensures var keep := Multiples(Domain(s.views[y]), Domain(old(s.views[z])), a);
      (ok <==> keep != {}) && (ok ==> Domain(s.views[z]) == keep)
  {
    ghost var d, keep := Domain(s.views[z]), Multiples(Domain(s.views[y]), Domain(s.views[z]), a);
    var eZ, maxZ := Start(s, z);
    PassedStart(d, keep, eZ);
    while true
      invariant Going(s, v0, x, y, z) && s.views[x] == old(s.views[x]) && s.views[y] == old(s.views[y])
      invariant StandsAt(s, z, eZ, maxZ) && AtMost(d, maxZ)
      invariant Consistent(s.views[z]) && PassedTo(d, keep, Domain(s.views[z]), eZ)
      decreases maxZ - eZ
    {
      ghost var dom := Domain(s.views[z]);
      var supported := QuotientIn(s, x, a, y, z, eZ);
      var done, next;
      ok, done, next := PassTurn(s, v0, x, y, z, z, eZ, maxZ, supported);
      if !ok {
        NothingKept(d, keep, dom, eZ);
        return;
      }
      PassedOn(s, z, d, keep, dom, eZ, if done then maxZ + 1 else next, supported);
      if done {
        assert Domain(s.views[z]) == keep;
        return;
      }
      eZ := next;
    }
  }

  lemma NothingKept(d: set<int>, keep: set<int>, dom: set<int>, e: int)
    requires PassedTo(d, keep, dom, e) && dom - {e} == {} && e !in keep && keep <= d
    ensures keep == {}
  {
    forall v | v in keep ensures v in dom - {e} {
    }
  }

  method QuotientIn(s: Store, ghost x: nat, a: int, y: nat, ghost z: nat, eZ: int) returns (supported: bool)
    requires s.Valid() && Triple(s.views, x, y, z) && s.views[x].cell == Num(a) && Unbound(s.views, y) && a != 0
    ensures !supported ==> AllIn(s.views, x, y, z, z, Outside(Domain(s.views[z]), eZ, eZ))
    ensures supported <==> IsMultiple(Domain(s.views[y]), a, eZ)
  {
    FreeShape(s, y);
    var elm := TruncDiv(eZ, a);
    supported := false;
    if a * elm == eZ {
      supported := DmTrue(s.mem, s.owner, y, elm);
    }
    forall b | b in Domain(s.views[y]) && a * b == eZ ensures supported {
      TruncExact(a, b);
    }
    forall c, b | !supported && Product(s.views, x, y, z, c, b) ensures c * b != eZ {
      TruncExact(a, b);
    }
  }

  // ---- Signs: what a positive or nonzero product says of its factors ----

  // minZ > 0 and x >= 0: y is positive.
  method PositiveFactor(s: Store, ghost v0: map<nat, View>, ghost x: nat, ghost y: nat, ghost z: nat, d: nat,
      ghost other: nat)
    returns (o: Outcome)
    requires Going(s, v0, x, y, z) && Unbound(s.views, d) && ((d == x && other == y) || (d == y && other == x))
    requires (forall v :: v in Domain(s.views[z]) ==> v > 0) && forall v :: v in Domain(s.views[other]) ==> v >= 0
    modifies s`mem, s`trail, s`views
    ensures After(s, v0, x, y, z, o) && Triple(s.views, x, y, z)
    ensures forall e :: e in s.views && e != d ==> e in old(s.views) && s.views[e] == old(s.views)[e]
    ensures o == Go ==> Unbound(s.views, d)
    ensures s.views[d].bits == old(s.views[d]).bits
    ensures Reaches(s.views, x, y, z, o, Cut(old(TrioOf(s.views, x, y, z)), d == x, FromOn(Domain(old(s.views[d])), 1)))
  {
    VarBounds(s, d);
    ghost var v1, r := s.views, FromOn(Domain(s.views[d]), 1);
    assert Between(Domain(s.views[d]), 1, Last(s.mem, d)) == r;
    forall a, b | Product(s.views, x, y, z, a, b) ensures Val(d, x, y, a, b) >= 1 {
      PositiveParts(a, b);
    }
    var ok := Narrow(s, v0, x, y, z, d, 1, Last(s.mem, d));
    FreeAgain(s, d);
    o := if !ok then Fail else if Bound(s.mem, d) then Done else Go;
    FactorCut(s, v1, x, y, z, d, r, ok, o);
  }

  lemma PositiveParts(a: int, b: int)
    requires a * b > 0
    ensures a >= 0 ==> b >= 1
    ensures b >= 0 ==> a >= 1
  {
    if a >= 0 && b < 1 {
      MonoLeft(0, a, -b);
      MinusProduct(b, a);
    }
    if b >= 0 && a < 1 {
      MonoLeft(0, -a, b);
      MinusProduct(a, b);
    }
  }

  // 0 is not in z: nor is it in a small factor.
  method NonzeroFactor(s: Store, ghost v0: map<nat, View>, ghost x: nat, ghost y: nat, ghost z: nat, d: nat)
    returns (o: Outcome)
    requires Going(s, v0, x, y, z) && Unbound(s.views, d) && (d == x || d == y) && 0 !in Domain(s.views[z])
    modifies s`mem, s`owner, s`trail, s`views
    ensures After(s, v0, x, y, z, o) && Triple(s.views, x, y, z)
    ensures forall e :: e in s.views && e != d ==> e in old(s.views) && s.views[e] == old(s.views)[e]
    ensures o == Go ==> Unbound(s.views, d)
    ensures s.views[d].bits <==> old(s.views[d]).bits || Inner(Domain(old(s.views[d])), 0)
    ensures Reaches(s.views, x, y, z, o, Cut(old(TrioOf(s.views, x, y, z)), d == x, Domain(old(s.views[d])) - {0}))
  {
    forall a, b | Product(s.views, x, y, z, a, b) ensures Val(d, x, y, a, b) != 0 {
    }
    ghost var v1 := s.views;
    assert Outside(Domain(s.views[d]), 0, 0) == Domain(s.views[d]) - {0};
    SomeOther(s, d, 0);
    var ok := Eliminate(s, v0, x, y, z, d, 0);
    FreeAgain(s, d);
    o := if Bound(s.mem, d) then Done else Go;
    FactorCut(s, v1, x, y, z, d, Domain(v1[d]) - {0}, ok, o);
  }

  lemma NoneNow(s: Store, v0: map<nat, View>, x: nat, y: nat, z: nat)
    requires Going(s, v0, x, y, z) && forall a, b :: !Product(s.views, x, y, z, a, b)
    ensures NoProducts(v0, x, y, z)
  {
  }

  // ---- Bounds ----

  // The products of the bounds of x and y bound z.
  method BoundProduct(s: Store, ghost v0: map<nat, View>, x: nat, y: nat, z: nat) returns (ok: bool)
    requires Going(s, v0, x, y, z) && Unbound(s.views, x) && Unbound(s.views, y)
    requires SmallFactors(TrioOf(s.views, x, y, z))
    modifies s`mem, s`trail, s`views
    ensures After(s, v0, x, y, z, if ok then Go else Fail)
    ensures Triple(s.views, x, y, z) && s.views[x] == old(s.views[x]) && s.views[y] == old(s.views[y])
    ensures s.views[z].bits == old(s.views[z]).bits
    ensures Reaches(s.views, x, y, z, if ok then Go else Fail, HullZ(old(TrioOf(s.views, x, y, z))))
  {
    VarBounds(s, x);
    VarBounds(s, y);
    VarBounds(s, z);
    var minX, maxX, minY, maxY := First(s.mem, x), Last(s.mem, x), First(s.mem, y), Last(s.mem, y);
    ghost var d := TrioOf(s.views, x, y, z);
    ghost var r := set v | v in d.z && InHull(d.x, d.y, v);
    var lowZ, upZ := CornerRange(d, minX, maxX, minY, maxY);
    assert r == Between(d.z, lowZ, upZ);
    forall a, b | Product(s.views, x, y, z, a, b) ensures a * b in r {
    }
    if !Bound(s.mem, z) {
      ok := Narrow(s, v0, x, y, z, z, lowZ, upZ);
    } else {
      var n := s.mem[z].n;
      ok := !(n < lowZ || n > upZ);
      assert ok ==> r == d.z;
      if !ok {
        assert n !in r;
        NoneNow(s, v0, x, y, z);
      }
    }
  }

  // lowZ and upZ
  method CornerRange(ghost d: Doms, minX: int, maxX: int, minY: int, maxY: int) returns (lowZ: int, upZ: int)
    requires Bounds(d.x, minX, maxX) && Bounds(d.y, minY, maxY)
    ensures forall v :: InHull(d.x, d.y, v) <==> lowZ <= v <= upZ
    ensures forall a, b :: a in d.x && b in d.y ==> InHull(d.x, d.y, a * b)
  {
    lowZ, upZ := minX * minY, maxX * maxY;
    if !(minX >= 0 && minY >= 0) {
      lowZ := Min4(minX * minY, minX * maxY, maxX * minY, maxX * maxY);
      upZ := Max4(minX * minY, minX * maxY, maxX * minY, maxX * maxY);
    } else {
      MonoLeft(minX, maxX, minY);
      MonoLeft(minX, maxX, maxY);
      MonoLeft(minY, maxY, minX);
      MonoLeft(minY, maxY, maxX);
    }
    forall v ensures InHull(d.x, d.y, v) <==> lowZ <= v <= upZ {
      HullCorners(d.x, d.y, minX, maxX, minY, maxY, v);
    }
  }

  // Nonnegative factors of a positive product: neither exceeds it.
  method BoundByProduct(s: Store, ghost v0: map<nat, View>, ghost x: nat, ghost y: nat, ghost z: nat, d: nat,
      ghost other: nat, min: int, ghost max0: int, maxZ: int)
    returns (o: Outcome, max: int)
    requires Going(s, v0, x, y, z) && Unbound(s.views, d) && ((d == x && other == y) || (d == y && other == x))
    requires maxZ in Domain(s.views[z]) && forall v :: v in Domain(s.views[z]) ==> 0 < v <= maxZ
    requires AtLeast(Domain(s.views[other]), 0) && Bounds(Domain(s.views[d]), min, max0)
    modifies s`mem, s`trail, s`views
    ensures After(s, v0, x, y, z, o) && Triple(s.views, x, y, z)
    ensures forall e :: e in s.views && e != d ==> e in old(s.views) && s.views[e] == old(s.views)[e]
    ensures o == Go ==> Unbound(s.views, d)
    ensures s.views[d].bits == old(s.views[d]).bits
    ensures Reaches(s.views, x, y, z, o,
      Cut(old(TrioOf(s.views, x, y, z)), d == x, UpToSome(Domain(old(s.views[d])), Domain(s.views[z]))))
    ensures o == Go ==> Bounds(Domain(s.views[d]), min, max)
  {
    ghost var v1, r := s.views, UpToSome(Domain(s.views[d]), Domain(s.views[z]));
    forall a, b | Product(s.views, x, y, z, a, b) ensures Val(d, x, y, a, b) <= maxZ {
      FactorBelow(a, b, maxZ);
    }
    assert Between(Domain(s.views[d]), min, maxZ) == r;
    var ok := Narrow(s, v0, x, y, z, d, min, maxZ);
    FreeAgain(s, d);
    o := if !ok then Fail else if Bound(s.mem, d) then Done else Go;
    FactorCut(s, v1, x, y, z, d, r, ok, o);
    VarBounds(s, d);
    max := Last(s.mem, d);
    assert ok ==> min in r;
  }

  lemma FactorBelow(a: int, b: int, maxZ: int)
    requires 0 < a * b <= maxZ
    ensures a >= 0 ==> b <= maxZ
    ensures b >= 0 ==> a <= maxZ
  {
    PositiveParts(a, b);
    if a >= 0 {
      MonoLeft(1, a, b);
    }
    if b >= 0 {
      MonoLeft(1, b, a);
    }
  }

  // The corner quotients bound d when the other factor's interval excludes 0.
  method BoundQuotient(s: Store, ghost v0: map<nat, View>, ghost x: nat, ghost y: nat, ghost z: nat, d: nat,
      ghost other: nat, minX: int, maxX: int, minZ: int, maxZ: int)
    returns (o: Outcome)
    requires Going(s, v0, x, y, z) && Unbound(s.views, d) && ((d == x && other == y) || (d == y && other == x))
    requires Bounds(Domain(s.views[z]), minZ, maxZ) && Bounds(Domain(s.views[other]), minX, maxX)
    requires minX > 0 || maxX < 0
    modifies s`mem, s`trail, s`views
    ensures After(s, v0, x, y, z, o) && Triple(s.views, x, y, z)
    ensures forall e :: e in s.views && e != d ==> e in old(s.views) && s.views[e] == old(s.views)[e]
    ensures o == Go ==> Unbound(s.views, d)
    ensures s.views[d].bits == old(s.views[d]).bits
    ensures Reaches(s.views, x, y, z, o, Cut(old(TrioOf(s.views, x, y, z)), d == x,
      QuotientsOf(Domain(old(s.views[d])), Domain(s.views[z]), Domain(s.views[other]))))
  {
    ghost var v1 := s.views;
    ghost var r := QuotientsOf(Domain(s.views[d]), Domain(s.views[z]), Domain(s.views[other]));
    var low, up := CornerQuotients(minX, maxX, minZ, maxZ);
    forall v ensures InQuotients(Domain(s.views[z]), Domain(s.views[other]), v) <==> low <= v <= up {
      QuotientCorners(Domain(s.views[z]), Domain(s.views[other]), minX, maxX, minZ, maxZ, v);
    }
    assert r == Between(Domain(s.views[d]), low, up);
    forall a, b | Product(s.views, x, y, z, a, b) ensures low <= Val(d, x, y, a, b) <= up {
      if d == y {
        Corners(a, b, minX, maxX, minZ, maxZ);
      } else {
        Commute(a, b);
        Corners(b, a, minX, maxX, minZ, maxZ);
      }
    }
    var ok := Narrow(s, v0, x, y, z, d, low, up);
    FreeAgain(s, d);
    o := if !ok then Fail else if Bound(s.mem, d) then Done else Go;
    FactorCut(s, v1, x, y, z, d, r, ok, o);
  }

  method CornerQuotients(minX: int, maxX: int, minZ: int, maxZ: int) returns (low: int, up: int)
    requires minX != 0 && maxX != 0
    ensures low == Min4(Floor(minZ, minX), Floor(minZ, maxX), Floor(maxZ, minX), Floor(maxZ, maxX))
    ensures up == Max4(-Floor(-minZ, minX), -Floor(-minZ, maxX), -Floor(-maxZ, minX), -Floor(-maxZ, maxX))
  {
    var l1 := SoundLowDiv(minZ, minX);
    var l2 := SoundLowDiv(minZ, maxX);
    var l3 := SoundLowDiv(maxZ, minX);
    var l4 := SoundLowDiv(maxZ, maxX);
    var u1 := SoundUpDiv(minZ, minX);
    var u2 := SoundUpDiv(minZ, maxX);
    var u3 := SoundUpDiv(maxZ, minX);
    var u4 := SoundUpDiv(maxZ, maxX);
    low, up := Min4(l1, l2, l3, l4), Max4(u1, u2, u3, u4);
  }

  // ---- The phases in order ----

  // IS_SMALL_DOMAIN: fdLow and fdUp are the current fd_region_low and fd_region_up.
  predicate Small(mem: seq<Cell>, d: nat, fdLow: int, fdUp: int) {
    First(mem, d) >= fdLow && Last(mem, d) <= fdUp
  }

  method SignPhase(s: Store, ghost v0: map<nat, View>, x: nat, y: nat, z: nat, fdLow: int, fdUp: int)
    returns (o: Outcome)
    requires Going(s, v0, x, y, z) && Unbound(s.views, x) && Unbound(s.views, y)
    modifies s`mem, s`owner, s`trail, s`views
    ensures After(s, v0, x, y, z, o) && Triple(s.views, x, y, z)
    ensures o == Go ==> Unbound(s.views, x) && Unbound(s.views, y)
    ensures Reaches(s.views, x, y, z, o, Signs(old(TrioOf(s.views, x, y, z)), fdLow, fdUp))
    ensures o == Go ==> SignKinds(old(s.views), s.views, x, y, z, fdLow, fdUp)
  {
    VarBounds(s, z);
    if LoOf(s.mem, z) > 0 {
      o := PositivePhase(s, v0, x, y, z);
      return;
    }
    assert !AtLeast(Domain(s.views[z]), 1);
    var in0 := IncludesZero(s, z);
    o := Go;
    if !in0 {
      o := NonzeroPhase(s, v0, x, y, z, fdLow, fdUp);
    }
  }

  // A factor became a bit vector when 0 was taken out from between its values.
  ghost predicate SignKinds(v0: map<nat, View>, v: map<nat, View>, x: nat, y: nat, z: nat, lo: int, hi: int)
    requires Triple(v0, x, y, z) && Triple(v, x, y, z)
  {
    KindsOf(v, x, y, z) == KindsAfterSigns(TrioOf(v0, x, y, z), KindsOf(v0, x, y, z), lo, hi)
  }

  method PositivePhase(s: Store, ghost v0: map<nat, View>, x: nat, y: nat, z: nat) returns (o: Outcome)
    requires Going(s, v0, x, y, z) && Unbound(s.views, x) && Unbound(s.views, y) && AtLeast(Domain(s.views[z]), 1)
    modifies s`mem, s`trail, s`views
    ensures After(s, v0, x, y, z, o) && Triple(s.views, x, y, z)
    ensures o == Go ==> Unbound(s.views, x) && Unbound(s.views, y)
    ensures Reaches(s.views, x, y, z, o, Positives(old(TrioOf(s.views, x, y, z))))
    ensures SameKinds(old(s.views), s.views, x, y, z) && s.views[z] == old(s.views[z])
  {
    VarBounds(s, x);
    o := Go;
    assert First(s.mem, x) >= 0 <==> AtLeast(Domain(s.views[x]), 0);
    if First(s.mem, x) >= 0 {
      o := PositiveFactor(s, v0, x, y, z, y, x);
      if o != Go {
        return;
      }
    }
    VarBounds(s, y);
    assert First(s.mem, y) >= 0 <==> AtLeast(Domain(s.views[y]), 0);
    if First(s.mem, y) >= 0 {
      o := PositiveFactor(s, v0, x, y, z, x, y);
    }
  }

  method NonzeroPhase(s: Store, ghost v0: map<nat, View>, x: nat, y: nat, z: nat, fdLow: int, fdUp: int)
    returns (o: Outcome)
    requires Going(s, v0, x, y, z) && Unbound(s.views, x) && Unbound(s.views, y)
    requires 0 !in Domain(s.views[z]) && !AtLeast(Domain(s.views[z]), 1)
    modifies s`mem, s`owner, s`trail, s`views
    ensures After(s, v0, x, y, z, o) && Triple(s.views, x, y, z)
    ensures o == Go ==> Unbound(s.views, x) && Unbound(s.views, y)
    ensures Reaches(s.views, x, y, z, o, Zeros(old(TrioOf(s.views, x, y, z)), fdLow, fdUp))
    ensures o == Go ==> SignKinds(old(s.views), s.views, x, y, z, fdLow, fdUp)
  {
    o := Go;
    SmallIs(s, x, fdLow, fdUp);
    if Small(s.mem, x, fdLow, fdUp) {
      o := NonzeroFactor(s, v0, x, y, z, x);
      if o != Go {
        return;
      }
    }
    SmallIs(s, y, fdLow, fdUp);
    if Small(s.mem, y, fdLow, fdUp) {
      o := NonzeroFactor(s, v0, x, y, z, y);
    }
  }

  lemma SmallIs(s: Store, d: nat, lo: int, hi: int)
    requires s.Valid() && Unbound(s.views, d)
    ensures Small(s.mem, d, lo, hi) <==> LiesIn(Domain(s.views[d]), lo, hi)
  {
    VarBounds(s, d);
  }

  // z_includes_0
  method IncludesZero(s: Store, z: nat) returns (r: bool)
    requires s.Valid() && z in s.views
    ensures r <==> 0 in Domain(s.views[z])
  {
    VarBounds(s, z);
    if Bound(s.mem, z) {
      var n := s.mem[z].n;
      r := !(n > 0 || n < 0);
    } else {
      FreeShape(s, z);
      r := DmTrue(s.mem, s.owner, z, 0);
    }
  }

  // The bounds the C variables minX, ... hold.
  ghost predicate HoldBounds(d: Doms, minX: int, maxX: int, minY: int, maxY: int, minZ: int, maxZ: int) {
    Bounds(d.x, minX, maxX) && Bounds(d.y, minY, maxY) && Bounds(d.z, minZ, maxZ)
  }

  // The products for z.
  method HullPhase(s: Store, ghost v0: map<nat, View>, x: nat, y: nat, z: nat)
    returns (o: Outcome, minX: int, maxX: int, minY: int, maxY: int, minZ: int, maxZ: int)
    requires Going(s, v0, x, y, z) && Unbound(s.views, x) && Unbound(s.views, y)
    modifies s`mem, s`trail, s`views
    ensures After(s, v0, x, y, z, o) && Triple(s.views, x, y, z)
    ensures o == Go ==> Unbound(s.views, x) && Unbound(s.views, y)
    ensures Reaches(s.views, x, y, z, o, HullZ(old(TrioOf(s.views, x, y, z))))
    ensures SameKinds(old(s.views), s.views, x, y, z)
    ensures o == Go ==> HoldBounds(TrioOf(s.views, x, y, z), minX, maxX, minY, maxY, minZ, maxZ)
  {
    VarBounds(s, x);
    VarBounds(s, y);
    VarBounds(s, z);
    minX, maxX, minY, maxY := First(s.mem, x), Last(s.mem, x), First(s.mem, y), Last(s.mem, y);
    minZ, maxZ := LoOf(s.mem, z), HiOf(s.mem, z);
    o := Go;
    if minX >= -BP_MAXINT_1W_SQRT && maxX <= BP_MAXINT_1W_SQRT && minY >= -BP_MAXINT_1W_SQRT && maxY <=
        BP_MAXINT_1W_SQRT {
      var ok := BoundProduct(s, v0, x, y, z);
      if !ok {
        o := Fail;
        return;
      }
      VarBounds(s, z);
      minZ, maxZ := LoOf(s.mem, z), HiOf(s.mem, z);
    }
  }

  // Everything about bounds: the products for z, the sizes and the quotients for y, and then those for x.
  method BoundPhase(s: Store, ghost v0: map<nat, View>, x: nat, y: nat, z: nat)
    returns (o: Outcome, minX: int, maxX: int, minY: int, maxY: int, minZ: int, maxZ: int)
    requires Going(s, v0, x, y, z) && Unbound(s.views, x) && Unbound(s.views, y)
    modifies s`mem, s`trail, s`views
    ensures After(s, v0, x, y, z, o) && Triple(s.views, x, y, z)
    ensures o == Go ==> Unbound(s.views, x) && Unbound(s.views, y)
    ensures SameKinds(old(s.views), s.views, x, y, z)
    ensures Reaches(s.views, x, y, z, o, Bounded(old(TrioOf(s.views, x, y, z))))
    ensures o == Go ==> HoldBounds(TrioOf(s.views, x, y, z), minX, maxX, minY, maxY, minZ, maxZ)
  {
    o, minX, maxX, minY, maxY, minZ, maxZ := HullPhase(s, v0, x, y, z);
    if o != Go {
      return;
    }
    LimitIs(TrioOf(s.views, x, y, z), minZ, maxZ);
    if minZ == BP_MININT_1W || maxZ == BP_MAXINT_1W {
      o := Done;
      return;
    }
    o, maxX, maxY := SizePhase(s, v0, x, y, z, minX, maxX, minY, maxY, minZ, maxZ);
    if o != Go {
      return;
    }
    o, minY, maxY := QuotientStep(s, v0, x, y, z, minX, maxX, minY, maxY, minZ, maxZ);
  }

  lemma LimitIs(d: Doms, minZ: int, maxZ: int)
    requires Bounds(d.z, minZ, maxZ)
    ensures LimitZ(d) == if minZ == BP_MININT_1W || maxZ == BP_MAXINT_1W then Final(d) else Open(d)
  {
  }

  method SizePhase(s: Store, ghost v0: map<nat, View>, x: nat, y: nat, z: nat, minX: int, maxX0: int, minY: int,
      maxY0: int, minZ: int, maxZ: int)
    returns (o: Outcome, maxX: int, maxY: int)
    requires Going(s, v0, x, y, z) && Unbound(s.views, x) && Unbound(s.views, y)
    requires HoldBounds(TrioOf(s.views, x, y, z), minX, maxX0, minY, maxY0, minZ, maxZ)
    modifies s`mem, s`trail, s`views
    ensures After(s, v0, x, y, z, o) && Triple(s.views, x, y, z)
    ensures o == Go ==> Unbound(s.views, x) && Unbound(s.views, y)
    ensures SameKinds(old(s.views), s.views, x, y, z)
    ensures Reaches(s.views, x, y, z, o, Sizes(old(TrioOf(s.views, x, y, z))))
    ensures o == Go ==> HoldBounds(TrioOf(s.views, x, y, z), minX, maxX, minY, maxY, minZ, maxZ)
  {
    maxX, maxY, o := maxX0, maxY0, Go;
    ghost var d0 := TrioOf(s.views, x, y, z);
    SizedIs(d0, minX, maxX0, minY, maxY0, minZ, maxZ);
    if minX >= 0 && minY >= 0 && minZ > 0 {
      o, maxX := BoundByProduct(s, v0, x, y, z, x, y, minX, maxX0, maxZ);
      if o != Go {
        return;
      }
      SizedIs(TrioOf(s.views, x, y, z), minX, maxX, minY, maxY0, minZ, maxZ);
      o, maxY := BoundByProduct(s, v0, x, y, z, y, x, minY, maxY0, maxZ);
    }
  }

  lemma SizedIs(d: Doms, minX: int, maxX: int, minY: int, maxY: int, minZ: int, maxZ: int)
    requires HoldBounds(d, minX, maxX, minY, maxY, minZ, maxZ)
    ensures Sized(d) <==> minX >= 0 && minY >= 0 && minZ > 0
  {
  }

  method QuotientStep(s: Store, ghost v0: map<nat, View>, ghost x: nat, y: nat, ghost z: nat, minX: int, maxX: int,
      minY0: int, maxY0: int, minZ: int, maxZ: int)
    returns (o: Outcome, minY: int, maxY: int)
    requires Going(s, v0, x, y, z) && Unbound(s.views, x) && Unbound(s.views, y)
    requires HoldBounds(TrioOf(s.views, x, y, z), minX, maxX, minY0, maxY0, minZ, maxZ)
    modifies s`mem, s`trail, s`views
    ensures After(s, v0, x, y, z, o) && Triple(s.views, x, y, z)
    ensures o == Go ==> Unbound(s.views, x) && Unbound(s.views, y)
    ensures SameKinds(old(s.views), s.views, x, y, z)
    ensures Reaches(s.views, x, y, z, o, QuotientY(old(TrioOf(s.views, x, y, z))))
    ensures o == Go ==> HoldBounds(TrioOf(s.views, x, y, z), minX, maxX, minY, maxY, minZ, maxZ)
  {
    minY, maxY, o := minY0, maxY0, Go;
    if (minX > 0 && maxX < BP_MAXINT_1W) || (maxX < 0 && minX > BP_MININT_1W) {
      o := BoundQuotient(s, v0, x, y, z, y, x, minX, maxX, minZ, maxZ);
      if o != Go {
        return;
      }
      VarBounds(s, y);
      minY, maxY := First(s.mem, y), Last(s.mem, y);
    }
  }

  method QuotientLast(s: Store, ghost v0: map<nat, View>, x: nat, ghost y: nat, ghost z: nat, ghost minX: int,
      ghost maxX: int, minY: int, maxY: int, minZ: int, maxZ: int)
    returns (o: Outcome)
    requires Going(s, v0, x, y, z) && Unbound(s.views, x) && Unbound(s.views, y)
    requires HoldBounds(TrioOf(s.views, x, y, z), minX, maxX, minY, maxY, minZ, maxZ)
    modifies s`mem, s`trail, s`views
    ensures After(s, v0, x, y, z, o) && Triple(s.views, x, y, z)
    ensures o == Go ==> Unbound(s.views, x) && Unbound(s.views, y)
    ensures SameKinds(old(s.views), s.views, x, y, z)
    ensures Reaches(s.views, x, y, z, o, QuotientX(old(TrioOf(s.views, x, y, z))))
  {
    o := Go;
    if (minY > 0 && maxY < BP_MAXINT_1W) || (maxY < 0 && minY > BP_MININT_1W) {
      o := BoundQuotient(s, v0, x, y, z, x, y, minY, maxY, minZ, maxZ);
    }
  }

  // The values left are those of st, whether or not a factor was bound.
  ghost predicate Leaves(v: map<nat, View>, x: nat, y: nat, z: nat, st: State)
    requires Triple(v, x, y, z)
  {
    !st.Empty? && TrioOf(v, x, y, z) == st.d
  }

  // What checking the values of factor d against factor p comes to; wide is p before its last cut.
  ghost function PartnersOne(d: Doms, first: bool, wide: set<int>, bits: bool, lo: int, hi: int): State {
    if first then PartnersX(d, wide, bits, lo, hi) else PartnersY(d, wide, bits, lo, hi)
  }

  // The elimination passes; minX, ... are the bounds the earlier phases left, wide is what x was before its last cut.
  method EliminationPhase(s: Store, ghost v0: map<nat, View>, x: nat, y: nat, z: nat, minX: int, maxX: int, minY: int,
      maxY: int, minZ: int, maxZ: int, fdLow: int, fdUp: int, ghost wide: set<int>)
    requires Going(s, v0, x, y, z) && Unbound(s.views, x) && Unbound(s.views, y)
    requires HoldBounds(TrioOf(s.views, x, y, z).(x := wide), minX, maxX, minY, maxY, minZ, maxZ)
    modifies s`mem, s`owner, s`trail, s`views
    ensures Going(s, v0, x, y, z)
    ensures Leaves(s.views, x, y, z,
      Eliminated(old(TrioOf(s.views, x, y, z)), wide, old(KindsOf(s.views, x, y, z)), fdLow, fdUp))
  {
    FreeAgain(s, z);
    BoundIffSingle(s, z);
    if !Bound(s.mem, z) {
      EliminateFree(s, v0, x, y, z, minX, maxX, minY, maxY, minZ, maxZ, fdLow, fdUp, wide);
    } else {
      BoundNum(s, z);
      EliminateConst(s, v0, x, y, z, s.mem[z].n, minX, maxX, minY, maxY, fdLow, fdUp, wide);
    }
  }

  method EliminateFree(s: Store, ghost v0: map<nat, View>, x: nat, y: nat, z: nat, minX: int, maxX: int, minY: int,
      maxY: int, minZ: int, maxZ: int, fdLow: int, fdUp: int, ghost wide: set<int>)
    requires Going(s, v0, x, y, z) && Unbound(s.views, x) && Unbound(s.views, y) && Unbound(s.views, z)
    requires HoldBounds(TrioOf(s.views, x, y, z).(x := wide), minX, maxX, minY, maxY, minZ, maxZ)
    modifies s`mem, s`owner, s`trail, s`views
    ensures Going(s, v0, x, y, z)
    ensures Leaves(s.views, x, y, z,
      Eliminated(old(TrioOf(s.views, x, y, z)), wide, old(KindsOf(s.views, x, y, z)), fdLow, fdUp))
  {
    var done := FreeSteps(s, v0, x, y, z, minX, maxX, minY, maxY, fdLow, fdUp, wide);
    if !done {
      ProductStep(s, v0, x, y, z, minZ, maxZ, fdLow, fdUp);
    }
  }

  // The values of y against x, and those of x against y.
  method FreeSteps(s: Store, ghost v0: map<nat, View>, x: nat, y: nat, z: nat, minX: int, maxX: int, minY: int,
      maxY: int, fdLow: int, fdUp: int, ghost wide: set<int>)
    returns (done: bool)
    requires Going(s, v0, x, y, z) && Unbound(s.views, x) && Unbound(s.views, y) && Unbound(s.views, z)
    requires Bounds(wide, minX, maxX) && Bounds(Domain(s.views[y]), minY, maxY)
    modifies s`mem, s`owner, s`trail, s`views
    ensures Going(s, v0, x, y, z) && s.views[z] == old(s.views[z])
    ensures !done ==> Unbound(s.views, x) && Unbound(s.views, y)
    ensures Reaches(s.views, x, y, z, if done then Done else Go,
      Partners(old(TrioOf(s.views, x, y, z)), wide, old(KindsOf(s.views, x, y, z)), fdLow, fdUp))
    ensures var k := KindsAfterX(old(TrioOf(s.views, x, y, z)), wide, old(KindsOf(s.views, x, y, z)), fdLow, fdUp);
      !done ==> KindsOf(s.views, x, y, z) == k
  {
    ghost var dy := Domain(s.views[y]);
    done := FreeStep(s, v0, x, y, z, x, y, minX, maxX, fdLow, fdUp, wide);
    if !done {
      done := FreeStep(s, v0, x, y, z, y, x, minY, maxY, fdLow, fdUp, dy);
    }
  }

  // The values of z, when a factor is a bit vector.
  method ProductStep(s: Store, ghost v0: map<nat, View>, x: nat, y: nat, z: nat, minZ: int, maxZ: int, fdLow: int,
      fdUp: int)
    requires Going(s, v0, x, y, z) && Unbound(s.views, x) && Unbound(s.views, y) && Unbound(s.views, z)
    requires Bounds(Domain(s.views[z]), minZ, maxZ)
    modifies s`mem, s`owner, s`trail, s`views
    ensures Going(s, v0, x, y, z) && s.views[x] == old(s.views[x]) && s.views[y] == old(s.views[y])
    ensures Leaves(s.views, x, y, z, ProductsZ(old(TrioOf(s.views, x, y, z)), s.views[x].bits || s.views[y].bits,
      fdLow, fdUp))
  {
    BoundIffSingle(s, z);
    FreeShape(s, x);
    FreeShape(s, y);
    if minZ >= fdLow && maxZ <= fdUp && (!IsIT(s.mem, x) || !IsIT(s.mem, y)) {
      ExcludeUnsupportedZ(s, v0, x, y, z);
    }
  }

  // Checking the values of dom against p makes a hole.
  ghost predicate Punched(dom: set<int>, p: set<int>, dz: set<int>, wide: set<int>, bits: bool, lo: int, hi: int) {
    Checks(dom, wide, dz, bits, lo, hi) && Punches(dom, Partnered(dom, p, dz))
  }

  // Factor d is checked against factor p when d is small and p or z is a bit vector.
  method FreeStep(s: Store, ghost v0: map<nat, View>, ghost x: nat, ghost y: nat, z: nat, p: nat, d: nat, minP: int,
      maxP: int, fdLow: int, fdUp: int, ghost wide: set<int>)
    returns (done: bool)
    requires Going(s, v0, x, y, z) && Unbound(s.views, x) && Unbound(s.views, y) && Unbound(s.views, z)
    requires ((p == x && d == y) || (p == y && d == x)) && Bounds(wide, minP, maxP)
    modifies s`mem, s`owner, s`trail, s`views
    ensures Going(s, v0, x, y, z) && s.views[p] == old(s.views[p]) && s.views[z] == old(s.views[z])
    ensures s.views[d].bits <==> old(s.views[d]).bits || Punched(Domain(old(s.views[d])), Domain(s.views[p]),
      Domain(s.views[z]), wide, s.views[p].bits || s.views[z].bits, fdLow, fdUp)
    ensures !done ==> Unbound(s.views, d)
    ensures Reaches(s.views, x, y, z, if done then Done else Go,
      PartnersOne(old(TrioOf(s.views, x, y, z)), d == x, wide, old(s.views[p]).bits || old(s.views[z]).bits, fdLow,
        fdUp))
  {
    SmallIs(s, d, fdLow, fdUp);
    BoundIffSingle(s, z);
    FreeShape(s, p);
    FreeShape(s, z);
    done := false;
    if Small(s.mem, d, fdLow, fdUp) && maxP - minP <= WIDTH && (!IsIT(s.mem, p) || !IsIT(s.mem, z)) {
      EitherGoing(s, v0, x, y, z, p, d);
      ExcludeUnsupportedY(s, v0, p, d, z);
      EitherGoing(s, v0, p, d, z, x, y);
      FreeAgain(s, d);
      BoundIffSingle(s, d);
      DomainNotEmpty(s, d);
      done := Bound(s.mem, d);
    }
  }

  lemma EitherGoing(s: Store, v0: map<nat, View>, x: nat, y: nat, z: nat, p: nat, q: nat)
    requires Going(s, v0, x, y, z) && ((p == x && q == y) || (p == y && q == x))
    ensures Going(s, v0, p, q, z)
  {
    SwapGoing(s, v0, x, y, z);
  }

  method EliminateConst(s: Store, ghost v0: map<nat, View>, x: nat, y: nat, ghost z: nat, cz: int, minX: int, maxX: int,
      minY: int, maxY: int, fdLow: int, fdUp: int, ghost wide: set<int>)
    requires Going(s, v0, x, y, z) && Unbound(s.views, x) && Unbound(s.views, y) && s.views[z].cell == Num(cz)
    requires Bounds(wide, minX, maxX) && Bounds(Domain(s.views[y]), minY, maxY)
    modifies s`mem, s`owner, s`trail, s`views
    ensures Going(s, v0, x, y, z)
    ensures Leaves(s.views, x, y, z,
      Eliminated(old(TrioOf(s.views, x, y, z)), wide, old(KindsOf(s.views, x, y, z)), fdLow, fdUp))
  {
    ghost var d, k := TrioOf(s.views, x, y, z), KindsOf(s.views, x, y, z);
    BoundIffSingle(s, z);
    var done := ConstStep(s, v0, x, y, z, x, y, cz, minX, maxX, fdLow, fdUp, wide, k.x || k.z);
    if done {
      return;
    }
    done := ConstStep(s, v0, x, y, z, y, x, cz, minY, maxY, fdLow, fdUp, d.y,
      KindsAfterY(d, wide, k, fdLow, fdUp).y || k.z);
  }

  method ConstStep(s: Store, ghost v0: map<nat, View>, ghost x: nat, ghost y: nat, ghost z: nat, p: nat, d: nat,
      cz: int, minP: int, maxP: int, fdLow: int, fdUp: int, ghost wide: set<int>, ghost bits: bool)
    returns (done: bool)
    requires Going(s, v0, x, y, z) && Unbound(s.views, x) && Unbound(s.views, y) && s.views[z].cell == Num(cz)
    requires ((p == x && d == y) || (p == y && d == x)) && Bounds(wide, minP, maxP)
    modifies s`mem, s`owner, s`trail, s`views
    ensures Going(s, v0, x, y, z) && s.views[p] == old(s.views[p]) && s.views[z] == old(s.views[z])
    ensures !done ==> Unbound(s.views, d)
    ensures Reaches(s.views, x, y, z, if done then Done else Go,
      PartnersOne(old(TrioOf(s.views, x, y, z)), d == x, wide, bits, fdLow, fdUp))
  {
    SmallIs(s, d, fdLow, fdUp);
    BoundIffSingle(s, z);
    done := false;
    if Small(s.mem, d, fdLow, fdUp) && maxP - minP <= WIDTH {
      EitherGoing(s, v0, x, y, z, p, d);
      ExcludeUnsupportedYConst(s, v0, p, d, z, cz);
      EitherGoing(s, v0, p, d, z, x, y);
      FreeAgain(s, d);
      BoundIffSingle(s, d);
      DomainNotEmpty(s, d);
      done := Bound(s.mem, d);
    }
  }

  // ---- The whole ----

  // x is bound to a: only a small z is looked at.
  ghost predicate CutToMultiples(v0: map<nat, View>, v: map<nat, View>, y: nat, z: nat, a: int, ok: bool)
    requires y in v0 && z in v0
  {
    var dy, dz := Domain(v0[y]), Domain(v0[z]);
    && (!ChecksMultiples(dy, dz, a) ==> ok && v == v0)
    && (ChecksMultiples(dy, dz, a) ==> (ok <==> Multiples(dy, dz, a) != {}))
    && (ChecksMultiples(dy, dz, a) && ok ==> z in v && Domain(v[z]) == Multiples(dy, dz, a) && Changed(v0, v, z))
  }

  // One factor bound to a.
  method IntFactor(s: Store, ghost v0: map<nat, View>, ghost x: nat, a: int, y: nat, z: nat) returns (ok: bool)
    requires Going(s, v0, x, y, z) && s.views[x].cell == Num(a)
    modifies s`mem, s`owner, s`trail, s`views
    ensures After(s, v0, x, y, z, if ok then Done else Fail)
    ensures CutToMultiples(old(s.views), s.views, y, z, a, ok)
  {
    FreeAgain(s, y);
    FreeAgain(s, z);
    BoundIffSingle(s, y);
    BoundIffSingle(s, z);
    ok := true;
    if a != 0 && a != 1 && a != -1 && !Bound(s.mem, y) && !Bound(s.mem, z) {
      FreeShape(s, z);
      if Size(s.mem, z) <= 100 {
        ok := ConstFactor(s, v0, x, a, y, z);
      }
    }
  }

  // What is left with both factors unbound: everything the phases find, and no more.
  ghost predicate CutByPhases(v0: map<nat, View>, v: map<nat, View>, x: nat, y: nat, z: nat, lo: int, hi: int, ok: bool)
    requires Triple(v0, x, y, z)
  {
    var st := Multiplied(TrioOf(v0, x, y, z), KindsOf(v0, x, y, z), lo, hi);
    (ok <==> !st.Empty?) && (ok ==> Triple(v, x, y, z) && TrioOf(v, x, y, z) == st.d)
  }

  // b_CLPFD_MULTIPLY_INT_ccc: no solution is lost, and failure means there is none. What is left is what the phases
  // leave, or the multiples of a bound factor.
  method ClpfdMultiplyInt(s: Store, x: nat, y: nat, z: nat, fdLow: int, fdUp: int) returns (ok: bool)
    requires s.Valid() && Triple(s.views, x, y, z)
    modifies s`mem, s`owner, s`trail, s`views
    ensures s.Valid() && (!ok ==> NoProducts(old(s.views), x, y, z))
    ensures ok ==> Triple(s.views, x, y, z) && KeepsProducts(old(s.views), s.views, x, y, z)
    ensures ok ==> Shrunk(old(s.views), s.views, x, y, z)
    ensures ok ==> OnlyVars(old(s.views), s.views, [x, y, z])
    ensures match old(s.views[x]).cell
      case Num(a) => CutToMultiples(old(s.views), s.views, y, z, a, ok)
      case Ref => match old(s.views[y]).cell
        case Num(b) => CutToMultiples(old(s.views), s.views, x, z, b, ok)
        case Ref => CutByPhases(old(s.views), s.views, x, y, z, fdLow, fdUp, ok)
  {
    ghost var v0 := s.views;
    FreeAgain(s, x);
    FreeAgain(s, y);
    if Bound(s.mem, x) {
      BoundNum(s, x);
      ok := IntFactor(s, v0, x, s.mem[x].n, y, z);
      return;
    }
    if Bound(s.mem, y) {
      BoundNum(s, y);
      SwapGoing(s, v0, x, y, z);
      ok := IntFactor(s, v0, y, s.mem[y].n, x, z);
      if ok {
        SwapGoing(s, v0, y, x, z);
      } else {
        SwapNone(v0, y, x, z);
      }
      return;
    }
    ok := BothVars(s, v0, x, y, z, fdLow, fdUp);
  }

  lemma BoundNum(s: Store, d: nat)
    requires s.Valid() && d in s.views && Bound(s.mem, d)
    ensures s.views[d].cell == Num(s.mem[d].n)
  {
    assert Shape(s.mem, s.owner, d);
  }

  method BothVars(s: Store, ghost v0: map<nat, View>, x: nat, y: nat, z: nat, fdLow: int, fdUp: int) returns (ok: bool)
    requires Going(s, v0, x, y, z) && Unbound(s.views, x) && Unbound(s.views, y) && v0 == s.views
    modifies s`mem, s`owner, s`trail, s`views
    ensures After(s, v0, x, y, z, if ok then Done else Fail)
    ensures CutByPhases(v0, s.views, x, y, z, fdLow, fdUp, ok)
  {
    var o := SignPhase(s, v0, x, y, z, fdLow, fdUp);
    if o != Go {
      return o == Done;
    }
    var minX, maxX, minY, maxY, minZ, maxZ;
    o, minX, maxX, minY, maxY, minZ, maxZ := BoundPhase(s, v0, x, y, z);
    if o != Go {
      return o == Done;
    }
    ghost var d2 := TrioOf(s.views, x, y, z);
    o := QuotientLast(s, v0, x, y, z, minX, maxX, minY, maxY, minZ, maxZ);
    if o != Go {
      return o == Done;
    }
    assert TrioOf(s.views, x, y, z).(x := d2.x) == d2;
    EliminationPhase(s, v0, x, y, z, minX, maxX, minY, maxY, minZ, maxZ, fdLow, fdUp, d2.x);
    ok := true;
  }
}
