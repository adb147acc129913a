// The mutators of finite domains as set operations.
module Domains {
  import opened Trail
  import opened Layout
  import opened Sets
  import opened Stores
  import opened Region
  import opened Holes
  import opened ToBits

  // The value of a bound variable is one of those its description still lists.
  ghost predicate Consistent(v: View) {
    v.cell.Num? ==> v.cell.n in v.described
  }

  // Variable v' holds exactly the values r; ok says whether there are any. A bit vector stays one.
  ghost predicate Becomes(v: View, v': View, r: set<int>, ok: bool) {
    && (ok <==> r != {})
    && (ok ==> Domain(v') == r)
    && v'.described <= v.described
    && (Consistent(v) ==> Consistent(v'))
    && (v.cell.Num? ==> v'.cell.Num?)
    && (v.bits ==> v'.bits)
  }

  // A variable is bound exactly when one value is left.
  lemma BoundIffSingle(s: Store, d: nat)
    requires s.Valid() && d in s.views
    ensures s.views[d].cell.Num? <==> |Domain(s.views[d])| == 1
  {
    assert Shape(s.mem, s.owner, d);
  }

  // Narrowing an unbound variable sets its domain.
  lemma NarrowsBecomes(v: View, r: set<int>, v': View, ok: bool)
    requires v.cell == Ref && Narrows(v, r, v') && r <= v.described && (ok <==> r != {}) && (v.bits ==> v'.bits)
    ensures Becomes(v, v', r, ok)
  {
  }

  // domain_region_noint on an unbound variable
  method Restrict(s: Store, d: nat, from: int, to: int) returns (ok: bool)
    requires s.Valid() && d in s.views && s.views[d].cell == Ref
    modifies s`mem, s`trail, s`views
    ensures s.Valid() && Changed(old(s.views), s.views, d)
    ensures Narrows(old(s.views[d]), Between(old(s.views[d].described), from, to), s.views[d])
    ensures s.views[d].bits == old(s.views[d]).bits
    ensures Becomes(old(s.views[d]), s.views[d], Between(Domain(old(s.views[d])), from, to), ok)
  {
    var first, last;
    ok, first, last := DomainRegion(s, d, from, to);
    NarrowsBecomes(old(s.views[d]), Between(old(s.views[d].described), from, to), s.views[d], ok);
  }

  // The members of dom above elm can be read off the vector of d from elm + 1 on.
  ghost predicate NextReadable(mem: seq<Cell>, d: nat, elm: int, dom: set<int>) {
    !IsIT(mem, d) ==>
      BvLow(mem, Bv(mem, d)) <= elm && forall v :: elm < v <= Last(mem, d) ==> (BvBit(mem, Bv(mem, d), v) <==> v in dom)
  }

  lemma ReadableByShape(mem: seq<Cell>, owner: seq<int>, d: nat, elm: int, dom: set<int>)
    requires Shape(mem, owner, d) && First(mem, d) <= elm
    requires forall v :: elm < v ==> (v in Stale(mem, d) <==> v in dom)
    ensures NextReadable(mem, d, elm, dom)
  {
    if !IsIT(mem, d) {
      forall v | elm < v <= Last(mem, d) ensures BvBit(mem, Bv(mem, d), v) <==> v in dom {
        assert v in Stale(mem, d) <==> InStale(mem, d, v);
      }
    }
  }

  lemma ReadableByBits(mem: seq<Cell>, mem': seq<Cell>, owner: seq<int>, d: nat)
    requires Shape(mem, owner, d) && SameBits(mem, mem', d) && Last(mem', d) <= Last(mem, d)
    ensures NextReadable(mem', d, First(mem, d), Stale(mem, d))
  {
    if !IsIT(mem, d) {
      forall v | First(mem, d) < v <= Last(mem', d) ensures BvBit(mem', Bv(mem', d), v) <==> v in Stale(mem, d) {
        assert v in Stale(mem, d) <==> InStale(mem, d, v);
      }
    }
  }

  // Where the bounds did not move below elm the shape tells.
  lemma ReadableAfter(s: Store, d: nat, elm: int, dom: set<int>, first: int)
    requires s.Valid() && d in s.views && first <= elm && first in s.views[d].described
    requires forall v :: elm < v ==> (v in s.views[d].described <==> v in dom)
    ensures NextReadable(s.mem, d, elm, dom)
  {
    assert Shape(s.mem, s.owner, d);
    StaleBounds(s.mem, s.owner, d);
    ReadableByShape(s.mem, s.owner, d, elm, dom);
  }

  // An unbound variable keeps some value whichever one is taken out.
  lemma SomeOther(s: Store, d: nat, e: int)
    requires s.Valid() && d in s.views && s.views[d].cell == Ref
    ensures Outside(Domain(s.views[d]), e, e) != {}
  {
    assert Shape(s.mem, s.owner, d);
    StaleBounds(s.mem, s.owner, d);
    assert First(s.mem, d) in Outside(Domain(s.views[d]), e, e) || Last(s.mem, d) in Outside(Domain(s.views[d]), e, e);
  }

  // The member next to an excluded bound becomes the new bound.
  method ExcludeFirst(s: Store, d: nat)
    requires s.Valid() && d in s.views
    modifies s`mem, s`trail, s`views
    ensures s.Valid() && Changed(old(s.views), s.views, d)
    ensures Narrows(old(s.views[d]), Outside(old(s.views[d].described), old(First(s.mem, d)), old(First(s.mem, d))),
        s.views[d])
    ensures s.views[d].bits == old(s.views[d]).bits
    ensures NextReadable(s.mem, d, old(First(s.mem, d)), old(s.views[d].described))
  {
    assert Shape(s.mem, s.owner, d);
    StaleBounds(s.mem, s.owner, d);
    var first, last, count := First(s.mem, d), Last(s.mem, d), Size(s.mem, d);
    ghost var all := Stale(s.mem, d);
    ghost var r := Outside(all, first, first);
    OutsideOne(all, first);
    assert last in r;
    if count == 2 {
      SingleMember(r, last);
      Assign(s, d, last);
      ReadableAfter(s, d, first, all, first);
      return;
    }
    assert r == Between(all, first + 1, last);
    var elm := first + 1;
    if IsIT(s.mem, d) {
      assert InStale(s.mem, d, elm);
    } else {
      elm := NextMember(s.mem, s.owner, d, elm, last);
    }
    TwoBounds(r, elm, last);
    CutFirst(s, d, elm, count - 1);
    assert Shape(s.mem, s.owner, d);
    StaleBounds(s.mem, s.owner, d);
    ReadableByBits(old(s.mem), s.mem, old(s.owner), d);
  }

  method ExcludeLast(s: Store, d: nat)
    requires s.Valid() && d in s.views
    modifies s`mem, s`trail, s`views
    ensures s.Valid() && Changed(old(s.views), s.views, d)
    ensures Narrows(old(s.views[d]), Outside(old(s.views[d].described), old(Last(s.mem, d)), old(Last(s.mem, d))),
        s.views[d])
    ensures s.views[d].bits == old(s.views[d]).bits
  {
    assert Shape(s.mem, s.owner, d);
    StaleBounds(s.mem, s.owner, d);
    var first, last, count := First(s.mem, d), Last(s.mem, d), Size(s.mem, d);
    ghost var all := Stale(s.mem, d);
    ghost var r := Outside(all, last, last);
    OutsideOne(all, last);
    assert first in r;
    if count == 2 {
      SingleMember(r, first);
      Assign(s, d, first);
      return;
    }
    assert r == Between(all, first, last - 1);
    var elm := last - 1;
    if IsIT(s.mem, d) {
      assert InStale(s.mem, d, elm);
    } else {
      elm := PrevMember(s.mem, s.owner, d, first, elm);
    }
    TwoBounds(r, first, elm);
    CutLast(s, d, elm, count - 1);
  }

  // There are members of s on both sides of e.
  ghost predicate Inner(s: set<int>, e: int) {
    exists v, w :: v in s && w in s && v < e < w
  }

  // domain_set_false_noint: take elm out of an unbound variable. An interval becomes a bit vector when elm is inside.
  method SetFalseUnbound(s: Store, d: nat, elm: int)
    requires s.Valid() && d in s.views
    modifies s`mem, s`owner, s`trail, s`views
    ensures s.Valid() && Changed(old(s.views), s.views, d)
    ensures Narrows(old(s.views[d]), Outside(old(s.views[d].described), elm, elm), s.views[d])
    ensures s.views[d].bits <==> old(s.views[d]).bits || Inner(old(s.views[d]).described, elm)
    ensures IsIT(old(s.mem), d) || elm in old(s.views[d].described) ==>
      NextReadable(s.mem, d, elm, old(s.views[d].described))
  {
    assert Shape(s.mem, s.owner, d);
    StaleBounds(s.mem, s.owner, d);
    var first, last := First(s.mem, d), Last(s.mem, d);
    ghost var all := Stale(s.mem, d);
    if elm > first && elm < last {
      SizeTwo(Outside(all, elm, elm), first, last);
      if IsIT(s.mem, d) {
        ItToBvWithHole(s, d, elm);
      } else {
        ExcludeInnerElm(s, d, elm);
      }
      ReadableAfter(s, d, elm, all, first);
      return;
    }
    if elm == first {
      ExcludeFirst(s, d);
      return;
    }
    if elm == last {
      ExcludeLast(s, d);
      ReadableAfter(s, d, elm, all, first);
      return;
    }
    assert Outside(all, elm, elm) == all;
  }

  // domain_set_false_aux: the variable may be bound.
  method SetFalse(s: Store, d: nat, elm: int) returns (ok: bool)
    requires s.Valid() && d in s.views
    modifies s`mem, s`owner, s`trail, s`views
    ensures s.Valid() && Changed(old(s.views), s.views, d)
    ensures Becomes(old(s.views[d]), s.views[d], Outside(Domain(old(s.views[d])), elm, elm), ok)
    ensures forall v :: v in old(s.views[d].described) && v != elm ==> v in s.views[d].described
    ensures s.views[d].bits <==>
      old(s.views[d]).bits || (old(s.views[d]).cell == Ref && Inner(old(s.views[d]).described, elm))
    ensures IsIT(old(s.mem), d) || elm in old(s.views[d].described) ==>
      NextReadable(s.mem, d, elm, old(s.views[d].described))
  {
    assert Shape(s.mem, s.owner, d);
    ghost var r := Outside(Domain(s.views[d]), elm, elm);
    if s.mem[d].Num? {
      assert Domain(s.views[d]) == {s.mem[d].n};
      ok := s.mem[d].n != elm;
      if ok {
        assert r == Domain(s.views[d]);
      }
      if elm in s.views[d].described {
        ReadableAfter(s, d, elm, s.views[d].described, elm);
      }
      return;
    }
    StaleBounds(s.mem, s.owner, d);
    assert First(s.mem, d) in r || Last(s.mem, d) in r;
    SetFalseUnbound(s, d, elm);
    ok := true;
    NarrowsBecomes(old(s.views[d]), r, s.views[d], ok);
  }

  // domain_exclude_interval_noint
  method ExcludeIntervalUnbound(s: Store, d: nat, from: int, to: int) returns (ok: bool)
    requires s.Valid() && d in s.views && from <= to
    modifies s`mem, s`owner, s`trail, s`views
    ensures s.Valid() && Changed(old(s.views), s.views, d)
    ensures Narrows(old(s.views[d]), Outside(old(s.views[d].described), from, to), s.views[d])
    ensures old(s.views[d]).bits ==> s.views[d].bits
    ensures ok <==> Outside(old(s.views[d].described), from, to) != {}
  {
    assert Shape(s.mem, s.owner, d);
    StaleBounds(s.mem, s.owner, d);
    var first, last := First(s.mem, d), Last(s.mem, d);
    ghost var all := Stale(s.mem, d);
    if from <= first {
      assert Outside(all, from, to) == Between(all, to + 1, last);
      ok, first, last := DomainRegion(s, d, to + 1, last);
    } else if to >= last {
      assert Outside(all, from, to) == Between(all, first, from - 1);
      ok, first, last := DomainRegion(s, d, first, from - 1);
    } else {
      SizeTwo(Outside(all, from, to), first, last);
      if IsIT(s.mem, d) {
        ItToBvWithIntervalHoles(s, d, from, to);
      } else {
        ExcludeInnerInterval(s, d, from, to);
      }
      ok := true;
    }
  }

  // domain_exclude_interval_aux: the variable may be bound.
  method ExcludeInterval(s: Store, d: nat, from: int, to: int) returns (ok: bool)
    requires s.Valid() && d in s.views && from <= to
    modifies s`mem, s`owner, s`trail, s`views
    ensures s.Valid() && Changed(old(s.views), s.views, d)
    ensures Becomes(old(s.views[d]), s.views[d], Outside(Domain(old(s.views[d])), from, to), ok)
  {
    assert Shape(s.mem, s.owner, d);
    ghost var r := Outside(Domain(s.views[d]), from, to);
    if s.mem[d].Num? {
      assert Domain(s.views[d]) == {s.mem[d].n};
      ok := !(from <= s.mem[d].n <= to);
      if ok {
        assert r == Domain(s.views[d]);
      }
      return;
    }
    ok := ExcludeIntervalUnbound(s, d, from, to);
    NarrowsBecomes(old(s.views[d]), r, s.views[d], ok);
  }
}
