// The value-elimination passes of X*Y = Z.
module Elimination {
  import opened Trail
  import opened Layout
  import opened Stores
  import opened BitScan
  import opened Holes
  import opened Domains
  import opened DomainPairs
  import opened Enumeration
  import opened Quotients
  import opened Products
  import opened Multiply

  // Two unbound variables and their shapes.
  lemma FreeShape(s: Store, d: nat)
    requires s.Valid() && d in s.views && s.views[d].cell == Ref
    ensures Shape(s.mem, s.owner, d) && Stale(s.mem, d) == Domain(s.views[d])
    ensures s.views[d].bits <==> !IsIT(s.mem, d)
  {
    assert Shape(s.mem, s.owner, d);
  }

  // Remove e from d unless it is supported, and go on to the next value. done: the pass is over.
  method PassTurn(s: Store, ghost v0: map<nat, View>, ghost x: nat, ghost y: nat, ghost z: nat, d: nat, e: int,
      max: int, supported: bool)
    returns (ok: bool, done: bool, next: int)
    requires Going(s, v0, x, y, z) && (d == x || d == y || d == z) && StandsAt(s, d, e, max)
    requires !supported ==> AllIn(s.views, x, y, z, d, Outside(Domain(s.views[d]), e, e))
    modifies s`mem, s`owner, s`trail, s`views
    ensures s.Valid() && (ok ==> Going(s, v0, x, y, z)) && (!ok ==> NoProducts(v0, x, y, z))
    ensures Triple(s.views, x, y, z)
    ensures forall f :: f in s.views && f != d ==> f in old(s.views) && s.views[f] == old(s.views)[f]
    ensures old(s.views[d]).cell == Ref ==> ok
    ensures supported ==> ok && s.views == old(s.views)
    ensures !supported ==> (ok <==> Domain(old(s.views[d])) - {e} != {})
    ensures !supported && ok ==> Domain(s.views[d]) == Domain(old(s.views[d])) - {e}
    ensures ok && done ==> e == max
    ensures s.views[d].bits <==>
      old(s.views[d]).bits || (!supported && old(s.views[d]).cell == Ref && Inner(old(s.views[d]).described, e))
    ensures Consistent(old(s.views[d])) ==> Consistent(s.views[d])
    ensures ok && !done ==>
      StandsAt(s, d, next, max) && e < next && forall v :: v in old(s.views[d]).described && e < v ==> next <= v
  {
    assert !supported && s.views[d].cell == Ref ==> Outside(Domain(s.views[d]), e, e) != {} by {
      if s.views[d].cell == Ref {
        SomeOther(s, d, e);
      }
    }
    ok, done, next := PassStep(s, d, e, max, supported);
    assert Outside(Domain(old(s.views[d])), e, e) == Domain(old(s.views[d])) - {e};
    if !supported {
      StepKeeps(v0, old(s.views), s.views, x, y, z, d, Outside(Domain(old(s.views[d])), e, e), ok);
    }
  }

  // exclude_unsupported_y_constr_xy_eq_z: values of y without a partner in x are taken out.
  method ExcludeUnsupportedY(s: Store, ghost v0: map<nat, View>, x: nat, y: nat, z: nat)
    requires Going(s, v0, x, y, z) && s.views[x].cell == Ref && s.views[y].cell == Ref && s.views[z].cell == Ref
    modifies s`mem, s`owner, s`trail, s`views
    ensures Going(s, v0, x, y, z) && s.views[x] == old(s.views[x]) && s.views[z] == old(s.views[z])
    ensures Domain(s.views[y]) ==
      Kept(Domain(old(s.views[y])), Partnered(Domain(old(s.views[y])), Domain(s.views[x]), Domain(s.views[z])))
    ensures s.views[y].bits <==> old(s.views[y]).bits || Punches(Domain(old(s.views[y])),
      Partnered(Domain(old(s.views[y])), Domain(s.views[x]), Domain(s.views[z])))
  {
    ghost var v, d := s.views[y], Domain(s.views[y]);
    ghost var keep := Partnered(d, Domain(s.views[x]), Domain(s.views[z]));
    var eY, maxY := Start(s, y);
    PassedStart(d, keep, eY);
    while true
      invariant Going(s, v0, x, y, z) && s.views[x] == old(s.views[x]) && s.views[z] == old(s.views[z])
      invariant StandsAt(s, y, eY, maxY) && s.views[y].cell == Ref
      invariant AtMost(d, maxY) && Checked(v, s.views[y], keep, eY)
      decreases maxY - eY
    {
      var supported := SupportedY(s, x, y, z, eY);
      var done;
      done, eY := CheckTurn(s, v0, x, y, z, v, keep, eY, maxY, supported);
      if done {
        return;
      }
    }
  }

  lemma FreeAgain(s: Store, d: nat)
    requires s.Valid() && d in s.views
    ensures Bound(s.mem, d) <==> s.views[d].cell.Num?
  {
    assert Shape(s.mem, s.owner, d);
  }

  method SupportedY(s: Store, x: nat, ghost y: nat, z: nat, eY: int) returns (supported: bool)
    requires s.Valid() && Triple(s.views, x, y, z) && s.views[x].cell == Ref && s.views[z].cell == Ref
    ensures !supported ==> AllIn(s.views, x, y, z, y, Outside(Domain(s.views[y]), eY, eY))
    ensures supported <==> HasPartner(Domain(s.views[x]), Domain(s.views[z]), eY)
  {
    FreeShape(s, x);
    FreeShape(s, z);
    DomainNotEmpty(s, x);
    supported := false;
    if eY == 0 {
      supported := DmTrue(s.mem, s.owner, z, 0);
    }
    var found := FindSupport(s.mem, s.owner, x, z, eY);
    supported := supported || found;
    forall a, b | !supported && Product(s.views, x, y, z, a, b) ensures b != eY {
    }
  }

  // exclude_unsupported_y_constr_xy_eq_c: the same with z fixed to cz.
  method ExcludeUnsupportedYConst(s: Store, ghost v0: map<nat, View>, x: nat, y: nat, ghost z: nat, cz: int)
    requires Going(s, v0, x, y, z) && s.views[x].cell == Ref && s.views[y].cell == Ref && s.views[z].cell == Num(cz)
    modifies s`mem, s`owner, s`trail, s`views
    ensures Going(s, v0, x, y, z) && s.views[x] == old(s.views[x]) && s.views[z] == old(s.views[z])
    ensures Domain(s.views[y]) ==
      Kept(Domain(old(s.views[y])), Partnered(Domain(old(s.views[y])), Domain(s.views[x]), Domain(s.views[z])))
    ensures s.views[y].bits <==> old(s.views[y]).bits || Punches(Domain(old(s.views[y])),
      Partnered(Domain(old(s.views[y])), Domain(s.views[x]), Domain(s.views[z])))
  {
    ghost var v, d := s.views[y], Domain(s.views[y]);
    ghost var keep := Partnered(d, Domain(s.views[x]), Domain(s.views[z]));
    var eY, maxY := Start(s, y);
    PassedStart(d, keep, eY);
    while true
      invariant Going(s, v0, x, y, z) && s.views[x] == old(s.views[x]) && s.views[z] == old(s.views[z])
      invariant StandsAt(s, y, eY, maxY) && s.views[y].cell == Ref
      invariant AtMost(d, maxY) && Checked(v, s.views[y], keep, eY)
      decreases maxY - eY
    {
      var supported := SupportedYConst(s, x, y, z, cz, eY);
      var done;
      done, eY := CheckTurn(s, v0, x, y, z, v, keep, eY, maxY, supported);
      if done {
        return;
      }
    }
  }

  method SupportedYConst(s: Store, x: nat, ghost y: nat, ghost z: nat, cz: int, eY: int) returns (supported: bool)
    requires s.Valid() && Triple(s.views, x, y, z) && s.views[x].cell == Ref && s.views[z].cell == Num(cz)
    ensures !supported ==> AllIn(s.views, x, y, z, y, Outside(Domain(s.views[y]), eY, eY))
    ensures supported <==> HasPartner(Domain(s.views[x]), Domain(s.views[z]), eY)
  {
    FreeShape(s, x);
    DomainNotEmpty(s, x);
    supported := false;
    if eY == 0 {
      supported := cz == 0;
      assert supported ==> forall a :: a in Domain(s.views[x]) ==> a * eY in Domain(s.views[z]);
    } else {
      var eX := TruncDiv(cz, eY);
      if eX * eY == cz {
        supported := DmTrue(s.mem, s.owner, x, eX);
      }
    }
    if !supported {
      ConstUnsupported(s.views, x, y, z, cz, eY);
    }
  }

  lemma ConstUnsupported(v: map<nat, View>, x: nat, y: nat, z: nat, cz: int, eY: int)
    requires Triple(v, x, y, z) && v[z].cell == Num(cz)
    requires if eY == 0 then cz != 0 else TruncDiv(cz, eY) * eY == cz ==> TruncDiv(cz, eY) !in Domain(v[x])
    ensures AllIn(v, x, y, z, y, Outside(Domain(v[y]), eY, eY)) && !HasPartner(Domain(v[x]), Domain(v[z]), eY)
  {
    forall a | a in Domain(v[x]) ensures a * eY !in Domain(v[z]) {
      Commute(a, eY);
      if a * eY == cz && eY != 0 {
        TruncExact(eY, a);
      }
    }
    forall a, b | Product(v, x, y, z, a, b) ensures b != eY {
      assert a * b == cz;
      Commute(a, b);
      if b == eY && eY != 0 {
        TruncExact(eY, a);
      }
    }
  }

  // The pass over v stands at e: what comes before is dealt with, holes included.
  ghost predicate Checked(v: View, v': View, keep: set<int>, e: int) {
    && PassedTo(Domain(v), keep, Domain(v'), e)
    && (v'.bits <==> v.bits || PunchesBelow(Domain(v), keep, e))
  }

  lemma CheckedOn(s: Store, d: nat, v: View, was: View, keep: set<int>, e: int, next: int, supported: bool)
    requires s.Valid() && d in s.views && Checked(v, was, keep, e) && e < next && keep <= Domain(v) && was.cell == Ref
    requires forall u :: u in Domain(was) && e < u ==> next <= u
    requires e in Domain(v) ==> (supported <==> e in keep)
    requires Inner(Domain(was), e) ==> e in Domain(was)
    requires Domain(s.views[d]) == if supported then Domain(was) else Domain(was) - {e}
    requires s.views[d].bits <==> was.bits || (!supported && Inner(was.described, e))
    ensures Checked(v, s.views[d], keep, next) && Domain(s.views[d]) != {}
    ensures |Domain(s.views[d])| == 1 <==> s.views[d].cell.Num?
  {
    PassedOn(s, d, Domain(v), keep, Domain(was), e, next, supported);
    PunchedStep(Domain(v), keep, Domain(was), e, next, supported);
  }

  // A pass over an interval stands inside it, a pass over a bit vector at a member.
  lemma StandsInside(s: Store, d: nat, e: int, max: int)
    requires s.Valid() && StandsAt(s, d, e, max)
    ensures Inner(s.views[d].described, e) ==> e in s.views[d].described
  {
    assert Shape(s.mem, s.owner, d);
    if IsIT(s.mem, d) && Inner(s.views[d].described, e) {
      assert InStale(s.mem, d, e);
    }
  }

  // One value of y.
  method CheckTurn(s: Store, ghost v0: map<nat, View>, ghost x: nat, y: nat, ghost z: nat, ghost v: View,
      ghost keep: set<int>, eY: int, maxY: int, supported: bool)
    returns (done: bool, next: int)
    requires Going(s, v0, x, y, z) && StandsAt(s, y, eY, maxY) && s.views[y].cell == Ref && AtMost(Domain(v), maxY)
    requires Checked(v, s.views[y], keep, eY) && keep <= Domain(v) && (eY in Domain(v) ==> (supported <==> eY in keep))
    requires !supported ==> AllIn(s.views, x, y, z, y, Outside(Domain(s.views[y]), eY, eY))
    modifies s`mem, s`owner, s`trail, s`views
    ensures Going(s, v0, x, y, z) && s.views[x] == old(s.views[x]) && s.views[z] == old(s.views[z])
    ensures done ==> Domain(s.views[y]) == Kept(Domain(v), keep)
    ensures done ==> (s.views[y].bits <==> v.bits || Punches(Domain(v), keep))
    ensures !done ==> StandsAt(s, y, next, maxY) && s.views[y].cell == Ref && eY < next
    ensures !done ==> Checked(v, s.views[y], keep, next)
  {
    ghost var was := s.views[y];
    StandsInside(s, y, eY, maxY);
    var ok;
    ok, done, next := PassTurn(s, v0, x, y, z, y, eY, maxY, supported);
    ghost var e := if done then maxY + 1 else next;
    CheckedOn(s, y, v, was, keep, eY, e, supported);
    FreeAgain(s, y);
    if Bound(s.mem, y) || done {
      CheckedEnd(v, s.views[y], keep, e);
      done := true;
    }
  }

  lemma CheckedEnd(v: View, v': View, keep: set<int>, e: int)
    requires Checked(v, v', keep, e) && keep <= Domain(v) && Domain(v') != {}
    requires AtMost(Domain(v), e - 1) || |Domain(v')| == 1
    ensures Domain(v') == Kept(Domain(v), keep) && (v'.bits <==> v.bits || Punches(Domain(v), keep))
  {
    PassedEnd(Domain(v), keep, Domain(v'), e);
    PunchedEnd(Domain(v), keep, Domain(v'), e);
  }

  // What one turn does to a pass.
  lemma PassedOn(s: Store, d: nat, d0: set<int>, keep: set<int>, dom: set<int>, e: int, next: int, supported: bool)
    requires s.Valid() && d in s.views && PassedTo(d0, keep, dom, e) && e < next && keep <= d0
    requires forall v :: v in dom && e < v ==> next <= v
    requires e in d0 ==> (supported <==> e in keep)
    requires Domain(s.views[d]) == if supported then dom else dom - {e}
    ensures PassedTo(d0, keep, Domain(s.views[d]), next) && Domain(s.views[d]) != {}
    ensures |Domain(s.views[d])| == 1 <==> s.views[d].cell.Num?
  {
    assert e !in d0 ==> dom - {e} == dom;
    PassedStep(d0, keep, dom, Domain(s.views[d]), e, next);
    DomainNotEmpty(s, d);
    BoundIffSingle(s, d);
  }

  // exclude_unsupported_z_constr_xy_eq_z: values of z that are no product are taken out.
  method ExcludeUnsupportedZ(s: Store, ghost v0: map<nat, View>, x: nat, y: nat, z: nat)
    requires Going(s, v0, x, y, z) && s.views[x].cell == Ref && s.views[y].cell == Ref && s.views[z].cell == Ref
    modifies s`mem, s`owner, s`trail, s`views
    ensures Going(s, v0, x, y, z) && s.views[x] == old(s.views[x]) && s.views[y] == old(s.views[y])
    ensures Domain(s.views[z]) == Kept(Domain(old(s.views[z])), OnlyProducts(old(TrioOf(s.views, x, y, z))))
  {
    var p, q := x, y;
    if Size(s.mem, x) > Size(s.mem, y) {
      p, q := y, x;
    }
    ghost var d := Domain(s.views[z]);
    ghost var keep := OnlyProducts(TrioOf(s.views, x, y, z));
    var eZ, maxZ := Start(s, z);
    PassedStart(d, keep, eZ);
    while true
      invariant Going(s, v0, x, y, z) && s.views[x] == old(s.views[x]) && s.views[y] == old(s.views[y])
      invariant StandsAt(s, z, eZ, maxZ) && s.views[z].cell == Ref && PassedTo(d, keep, Domain(s.views[z]), eZ)
      invariant AtMost(d, maxZ)
      decreases maxZ - eZ
    {
      ghost var dom := Domain(s.views[z]);
      var supported := SupportedZ(s, p, q, z, eZ);
      SwapProduct(Domain(s.views[p]), Domain(s.views[q]), eZ);
      if !supported {
        SwapAllIn(s.views, p, q, z, Outside(Domain(s.views[z]), eZ, eZ));
      }
      var ok, done, next := PassTurn(s, v0, x, y, z, z, eZ, maxZ, supported);
      PassedOn(s, z, d, keep, dom, eZ, if done then maxZ + 1 else next, supported);
      FreeAgain(s, z);
      if Bound(s.mem, z) || done {
        PassedEnd(d, keep, Domain(s.views[z]), if done then maxZ + 1 else next);
        return;
      }
      eZ := next;
    }
  }

  lemma SwapProduct(dx: set<int>, dy: set<int>, c: int)
    ensures IsProduct(dx, dy, c) <==> IsProduct(dy, dx, c)
  {
    forall a, b ensures Factors(dx, dy, a, b, c) <==> Factors(dy, dx, b, a, c) {
      Commute(a, b);
    }
    if a, b :| Factors(dx, dy, a, b, c) {
      assert Factors(dy, dx, b, a, c);
    }
    if a, b :| Factors(dy, dx, a, b, c) {
      assert Factors(dx, dy, b, a, c);
    }
  }

  method SupportedZ(s: Store, x: nat, y: nat, ghost z: nat, eZ: int) returns (supported: bool)
    requires s.Valid() && Triple(s.views, x, y, z) && s.views[x].cell == Ref && s.views[y].cell == Ref
    ensures !supported ==> AllIn(s.views, x, y, z, z, Outside(Domain(s.views[z]), eZ, eZ))
    ensures supported <==> IsProduct(Domain(s.views[x]), Domain(s.views[y]), eZ)
  {
    FreeShape(s, x);
    FreeShape(s, y);
    if eZ == 0 {
      supported := DmTrue(s.mem, s.owner, x, 0);
      if !supported {
        supported := DmTrue(s.mem, s.owner, y, 0);
      }
      ZeroProduct(s, x, y);
    } else {
      supported := FindFactor(s.mem, s.owner, x, y, eZ);
    }
    if !supported {
      forall a, b | Product(s.views, x, y, z, a, b) ensures a * b != eZ {
        assert !Factors(Domain(s.views[x]), Domain(s.views[y]), a, b, eZ);
      }
    }
  }

  // 0 is a product exactly when it is a factor.
  lemma ZeroProduct(s: Store, x: nat, y: nat)
    requires s.Valid() && x in s.views && y in s.views
    ensures IsProduct(Domain(s.views[x]), Domain(s.views[y]), 0) <==> 0 in Domain(s.views[x]) || 0 in Domain(s.views[y])
  {
    DomainNotEmpty(s, x);
    DomainNotEmpty(s, y);
    var dx, dy := Domain(s.views[x]), Domain(s.views[y]);
    var a, b :| a in dx && b in dy;
    if 0 in dx {
      assert Factors(dx, dy, 0, b, 0);
    }
    if 0 in dy {
      assert Factors(dx, dy, a, 0, 0);
    }
    forall p, q | Factors(dx, dy, p, q, 0) ensures p == 0 || q == 0 {
      if p != 0 && q != 0 {
        NoZero(p, q);
      }
    }
  }

  lemma NoZero(a: int, b: int)
    requires a != 0 && b != 0
    ensures a * b != 0
  {
  }

  // What is said of z does not depend on the order of the factors.
  lemma SwapAllIn(v: map<nat, View>, x: nat, y: nat, z: nat, r: set<int>)
    requires Triple(v, x, y, z) && AllIn(v, x, y, z, z, r)
    ensures AllIn(v, y, x, z, z, r)
  {
    forall a, b | Product(v, y, x, z, a, b) ensures a * b in r {
      Commute(a, b);
      assert Product(v, x, y, z, b, a);
      assert Val(z, x, y, b, a) in r;
    }
  }

  lemma Commute(a: int, b: int)
    ensures a * b == b * a
  {
  }

  // Nor does the whole constraint.
  lemma SwapGoing(s: Store, v0: map<nat, View>, x: nat, y: nat, z: nat)
    requires Going(s, v0, x, y, z)
    ensures Going(s, v0, y, x, z)
  {
    forall a, b | Product(v0, y, x, z, a, b) ensures Product(s.views, y, x, z, a, b) {
      Commute(a, b);
      assert Product(v0, x, y, z, b, a);
    }
  }

  lemma SwapNone(v0: map<nat, View>, x: nat, y: nat, z: nat)
    requires Triple(v0, x, y, z) && NoProducts(v0, x, y, z)
    ensures NoProducts(v0, y, x, z)
  {
    forall a, b ensures !Product(v0, y, x, z, a, b) {
      Commute(a, b);
      assert !Product(v0, x, y, z, b, a);
    }
  }
}
