// Cutting a domain to a range: the trailed updates of first, last and size, and binding.
module Region {
  import opened Trail
  import opened Layout
  import opened Sets
  import opened Stores
  import opened BitScan

  // What keeping only the values in r does to a variable. The last value left is bound and the
  // description stays behind; with nothing left the variable is not touched.
  ghost predicate Narrows(v: View, r: set<int>, v': View) {
    if |r| == 0 then v' == v
    else if |r| == 1 then v'.cell.Num? && r == {v'.cell.n} && v'.described == v.described
    else v'.cell == v.cell && v'.described == r
  }

  // The least and greatest of a nonempty set.
  ghost predicate Bounds(r: set<int>, first: int, last: int) {
    first in r && last in r && forall v :: v in r ==> first <= v <= last
  }

  // ASSIGN_DVAR: only the value cell is written.
  method Assign(s: Store, d: nat, v: int)
    requires s.Valid() && d in s.views
    modifies s`mem, s`trail, s`views
    ensures s.Valid() && s.views == old(s.views)[d := old(s.views[d]).(cell := Num(v))]
  {
    assert Shape(s.mem, s.owner, d);
    s.Update(d, Num(v), d < s.hb);
    BoundShape(old(s.mem), s.mem, s.owner, d, v);
    s.Settle(old(s.mem), s.owner, d);
  }

  lemma BoundShape(mem: seq<Cell>, mem': seq<Cell>, owner: seq<int>, d: nat, v: int)
    requires Shape(mem, owner, d) && mem' == mem[d := Num(v)]
    ensures Shape(mem', owner, d) && Stale(mem', d) == Stale(mem, d) && OnlyOf(mem, mem', owner, owner, d)
  {
    SameBlock(mem, mem', owner, d);
    assert Stale(mem', d) == Stale(mem, d);
  }

  // mem' may differ from mem in the value cell and in first, last and size only.
  ghost predicate HeadOnly(mem: seq<Cell>, mem': seq<Cell>, d: nat) {
    && |mem'| == |mem|
    && forall a :: 0 <= a < |mem| && a != d && a != d + FIRST && a != d + LAST && a != d + SIZE ==> mem'[a] == mem[a]
  }

  lemma SameBlock(mem: seq<Cell>, mem': seq<Cell>, owner: seq<int>, d: nat)
    requires Shape(mem, owner, d) && HeadOnly(mem, mem', d)
    ensures Bv(mem', d) == Bv(mem, d)
    ensures !IsIT(mem, d) ==> forall a :: a >= Bv(mem, d) ==> At(mem', a) == At(mem, a)
    ensures !IsIT(mem, d) ==>
      forall v :: BvBit(mem', Bv(mem, d), v) == BvBit(mem, Bv(mem, d), v) || v < BvLow(mem, Bv(mem, d))
  {
    if !IsIT(mem, d) {
      var p := Bv(mem, d);
      assert forall a :: a >= p ==> At(mem', a) == At(mem, a);
      forall v | v >= BvLow(mem, p) ensures BvBit(mem', p, v) == BvBit(mem, p, v) {
        DivMono(0, v - BvLow(mem, p));
      }
    }
  }

  // Moving the bounds inward cuts the described set to the new range.
  lemma BoundsShape(mem: seq<Cell>, mem': seq<Cell>, owner: seq<int>, d: nat, first: int, last: int)
    requires Shape(mem, owner, d) && HeadOnly(mem, mem', d) && mem'[d] == mem[d]
    requires First(mem', d) == first && Last(mem', d) == last
    requires Bounds(Between(Stale(mem, d), first, last), first, last) && first < last
    requires Size(mem', d) == |Between(Stale(mem, d), first, last)|
    ensures Shape(mem', owner, d) && ViewOf(mem', d) == View(mem[d], Between(Stale(mem, d), first, last), !IsIT(mem, d))
    ensures OnlyOf(mem, mem', owner, owner, d)
  {
    SameBlock(mem, mem', owner, d);
    CutStale(mem, mem', owner, d, first, last);
    SizeTwo(Stale(mem', d), first, last);
  }

  lemma CutStale(mem: seq<Cell>, mem': seq<Cell>, owner: seq<int>, d: nat, first: int, last: int)
    requires Shape(mem, owner, d) && HeadOnly(mem, mem', d)
    requires First(mem', d) == first && Last(mem', d) == last
    requires First(mem, d) <= first && last <= Last(mem, d)
    ensures Stale(mem', d) == Between(Stale(mem, d), first, last)
  {
    SameBlock(mem, mem', owner, d);
    forall v ensures v in Stale(mem', d) <==> v in Between(Stale(mem, d), first, last) {
      assert v in Stale(mem', d) <==> InStale(mem', d, v);
      assert v in Stale(mem, d) <==> InStale(mem, d, v);
    }
  }

  // The kind of the domain and the bits of its vector are as before.
  ghost predicate SameBits(mem: seq<Cell>, mem': seq<Cell>, d: nat) {
    && Bv(mem', d) == Bv(mem, d)
    && (!IsIT(mem, d) ==> BvLow(mem', Bv(mem, d)) == BvLow(mem, Bv(mem, d)))
    && (!IsIT(mem, d) ==> forall v :: v >= BvLow(mem, Bv(mem, d)) ==>
        BvBit(mem', Bv(mem, d), v) == BvBit(mem, Bv(mem, d), v))
  }

  // UPDATE_FIRST_SIZE
  method UpdateFirstSize(s: Store, d: nat, first: int, size: int)
    requires s.Sane() && d + SIZE_OF_DV <= |s.mem|
    modifies s`mem, s`trail
    ensures s.Sane() && s.mem == old(s.mem)[d + FIRST := Num(first)][d + SIZE := Num(size)]
  {
    var push := d < s.hb;
    s.Update(d + FIRST, Num(first), push);
    s.Update(d + SIZE, Num(size), push);
  }

  // UPDATE_LAST_SIZE
  method UpdateLastSize(s: Store, d: nat, last: int, size: int)
    requires s.Sane() && d + SIZE_OF_DV <= |s.mem|
    modifies s`mem, s`trail
    ensures s.Sane() && s.mem == old(s.mem)[d + LAST := Num(last)][d + SIZE := Num(size)]
  {
    var push := d < s.hb;
    s.Update(d + LAST, Num(last), push);
    s.Update(d + SIZE, Num(size), push);
  }

  // UPDATE_FIRST_LAST_SIZE
  method UpdateFirstLastSize(s: Store, d: nat, first: int, last: int, size: int)
    requires s.Sane() && d + SIZE_OF_DV <= |s.mem|
    modifies s`mem, s`trail
    ensures s.Sane()
    ensures s.mem == old(s.mem)[d + FIRST := Num(first)][d + LAST := Num(last)][d + SIZE := Num(size)]
  {
    var push := d < s.hb;
    s.Update(d + FIRST, Num(first), push);
    s.Update(d + LAST, Num(last), push);
    s.Update(d + SIZE, Num(size), push);
  }

  // The three updates seen from outside: the variable is cut to first..last.
  method CutFirst(s: Store, d: nat, first: int, size: int)
    requires s.Valid() && d in s.views
    requires Bounds(Between(s.views[d].described, first, Last(s.mem, d)), first, Last(s.mem, d))
    requires first < Last(s.mem, d)
    requires size == |Between(s.views[d].described, first, Last(s.mem, d))|
    modifies s`mem, s`trail, s`views
    ensures SameBits(old(s.mem), s.mem, d)
    ensures s.Valid()
    ensures s.views == old(s.views)[d :=
        old(s.views[d]).(described := Between(old(s.views[d].described), first, old(Last(s.mem, d))))]
  {
    assert Shape(s.mem, s.owner, d);
    UpdateFirstSize(s, d, first, size);
    SameBlock(old(s.mem), s.mem, s.owner, d);
    BoundsShape(old(s.mem), s.mem, s.owner, d, first, Last(s.mem, d));
    s.Settle(old(s.mem), s.owner, d);
  }

  method CutLast(s: Store, d: nat, last: int, size: int)
    requires s.Valid() && d in s.views
    requires Bounds(Between(s.views[d].described, First(s.mem, d), last), First(s.mem, d), last)
    requires First(s.mem, d) < last
    requires size == |Between(s.views[d].described, First(s.mem, d), last)|
    modifies s`mem, s`trail, s`views
    ensures s.Valid()
    ensures s.views == old(s.views)[d :=
        old(s.views[d]).(described := Between(old(s.views[d].described), old(First(s.mem, d)), last))]
  {
    assert Shape(s.mem, s.owner, d);
    UpdateLastSize(s, d, last, size);
    BoundsShape(old(s.mem), s.mem, s.owner, d, First(s.mem, d), last);
    s.Settle(old(s.mem), s.owner, d);
  }

  method CutBoth(s: Store, d: nat, first: int, last: int, size: int)
    requires s.Valid() && d in s.views
    requires Bounds(Between(s.views[d].described, first, last), first, last) && first < last
    requires size == |Between(s.views[d].described, first, last)|
    modifies s`mem, s`trail, s`views
    ensures s.Valid()
    ensures s.views == old(s.views)[d :=
        old(s.views[d]).(described := Between(old(s.views[d].described), first, last))]
  {
    assert Shape(s.mem, s.owner, d);
    UpdateFirstLastSize(s, d, first, last, size);
    BoundsShape(old(s.mem), s.mem, s.owner, d, first, last);
    s.Settle(old(s.mem), s.owner, d);
  }

  // CALL_COUNT_DOMAIN_ELMS
  method CountElms(mem: seq<Cell>, p: int, from: int, to: int) returns (count: nat)
    requires BvLow(mem, p) <= from
    ensures count == |BitsIn(mem, p, from, to)|
  {
    if from > to {
      assert BitsIn(mem, p, from, to) == {};
      return 0;
    }
    count := CountDomainElms(mem, p, from, to);
  }

  // Members of a bit-vector domain are the bits inside the bounds, and the bounds.
  lemma MemberBit(mem: seq<Cell>, owner: seq<int>, d: nat, lo: int, hi: int, v: int)
    requires Shape(mem, owner, d) && !IsIT(mem, d) && First(mem, d) <= lo && hi <= Last(mem, d)
    ensures v in Between(Stale(mem, d), lo, hi) <==> v in BitsIn(mem, Bv(mem, d), lo, hi)
  {
    assert v in Stale(mem, d) <==> InStale(mem, d, v);
  }

  lemma BetweenBits(mem: seq<Cell>, owner: seq<int>, d: nat, lo: int, hi: int)
    requires Shape(mem, owner, d) && !IsIT(mem, d) && First(mem, d) <= lo && hi <= Last(mem, d)
    ensures Between(Stale(mem, d), lo, hi) == BitsIn(mem, Bv(mem, d), lo, hi)
  {
    forall v ensures v in Between(Stale(mem, d), lo, hi) <==> v in BitsIn(mem, Bv(mem, d), lo, hi) {
      MemberBit(mem, owner, d, lo, hi, v);
    }
  }

  lemma DropLow(s: set<int>, lo: int, hi: int)
    requires lo in s && lo <= hi
    ensures |Between(s, lo, hi)| == 1 + |Between(s, lo + 1, hi)|
  {
    assert Between(s, lo, hi) == {lo} + Between(s, lo + 1, hi);
  }

  lemma DropHigh(s: set<int>, lo: int, hi: int)
    requires hi in s && lo <= hi
    ensures |Between(s, lo, hi)| == 1 + |Between(s, lo, hi - 1)|
  {
    assert Between(s, lo, hi) == {hi} + Between(s, lo, hi - 1);
  }

  lemma BelowCount(mem: seq<Cell>, owner: seq<int>, d: nat, min: int)
    requires Shape(mem, owner, d) && !IsIT(mem, d) && First(mem, d) < min <= Last(mem, d)
    ensures |Between(Stale(mem, d), First(mem, d), min - 1)| ==
        1 + |BitsIn(mem, Bv(mem, d), First(mem, d) + 1, min - 1)|
  {
    DropLow(Stale(mem, d), First(mem, d), min - 1);
    BetweenBits(mem, owner, d, First(mem, d) + 1, min - 1);
  }

  lemma AboveCount(mem: seq<Cell>, owner: seq<int>, d: nat, max: int)
    requires Shape(mem, owner, d) && !IsIT(mem, d) && First(mem, d) <= max < Last(mem, d)
    ensures |Between(Stale(mem, d), max + 1, Last(mem, d))| == 1 + |BitsIn(mem, Bv(mem, d), max + 1, Last(mem, d) - 1)|
  {
    DropHigh(Stale(mem, d), max + 1, Last(mem, d));
    BetweenBits(mem, owner, d, max + 1, Last(mem, d) - 1);
  }

  // Nothing outside the bounds is described.
  lemma StaleBounds(mem: seq<Cell>, owner: seq<int>, d: nat)
    requires Shape(mem, owner, d)
    ensures Bounds(Stale(mem, d), First(mem, d), Last(mem, d)) && First(mem, d) < Last(mem, d)
  {
    if First(mem, d) == Last(mem, d) {
      assert Stale(mem, d) <= {First(mem, d)};
      SubsetSize(Stale(mem, d), {First(mem, d)});
    }
  }

  lemma IntervalCut(mem: seq<Cell>, owner: seq<int>, d: nat, min: int, max: int)
    requires Shape(mem, owner, d) && IsIT(mem, d) && First(mem, d) <= min <= max <= Last(mem, d)
    ensures Bounds(Between(Stale(mem, d), min, max), min, max) && |Between(Stale(mem, d), min, max)| == max - min + 1
  {
    forall v ensures v in Between(Stale(mem, d), min, max) <==> v in Range(min, max) {
      assert v in Stale(mem, d) <==> InStale(mem, d, v);
      assert InRange(min, v, max) <==> min <= v <= max;
    }
    assert Between(Stale(mem, d), min, max) == Range(min, max);
    RangeSize(min, max);
  }

  // In a bit-vector domain the next member from min on starts what is left.
  method NextMember(mem: seq<Cell>, ghost owner: seq<int>, d: nat, min: int, ghost max: int) returns (r: int)
    requires Shape(mem, owner, d) && !IsIT(mem, d) && First(mem, d) <= min && max <= Last(mem, d)
    requires Between(Stale(mem, d), min, max) != {}
    ensures r in Stale(mem, d) && min <= r <= max
    ensures Between(Stale(mem, d), min, max) == Between(Stale(mem, d), r, max)
  {
    var p := Bv(mem, d);
    ghost var t :| t in Between(Stale(mem, d), min, max);
    assert InStale(mem, d, t);
    WordInBlock(mem, owner, d, t);
    r := DomainNextBv(mem, p, min, t);
    assert InStale(mem, d, r);
    forall v | min <= v < r ensures v !in Stale(mem, d) {
      assert !BvBit(mem, p, v);
      assert v in Stale(mem, d) <==> InStale(mem, d, v);
    }
  }

  method PrevMember(mem: seq<Cell>, ghost owner: seq<int>, d: nat, ghost min: int, max: int) returns (r: int)
    requires Shape(mem, owner, d) && !IsIT(mem, d) && First(mem, d) <= min && max <= Last(mem, d)
    requires Between(Stale(mem, d), min, max) != {}
    ensures r in Stale(mem, d) && min <= r <= max
    ensures Between(Stale(mem, d), min, max) == Between(Stale(mem, d), min, r)
  {
    var p := Bv(mem, d);
    ghost var t :| t in Between(Stale(mem, d), min, max);
    assert InStale(mem, d, t);
    r := DomainPrevBv(mem, p, max, t);
    assert InStale(mem, d, r);
    forall v | r < v <= max ensures v !in Stale(mem, d) {
      assert !BvBit(mem, p, v);
      assert v in Stale(mem, d) <==> InStale(mem, d, v);
    }
  }

  // What DV_size becomes when the lower end is cut.
  method SizeFrom(mem: seq<Cell>, ghost owner: seq<int>, d: nat, min: int) returns (size: int)
    requires Shape(mem, owner, d) && !IsIT(mem, d) && First(mem, d) < min < Last(mem, d)
    ensures size == |Between(Stale(mem, d), min, Last(mem, d))|
    ensures Last(mem, d) in Between(Stale(mem, d), min, Last(mem, d))
  {
    StaleBounds(mem, owner, d);
    var count := CountElms(mem, Bv(mem, d), First(mem, d) + 1, min - 1);
    size := Size(mem, d) - count - 1;
    BelowCount(mem, owner, d, min);
    SplitSize(Stale(mem, d), min, Last(mem, d), First(mem, d), Last(mem, d));
    assert Between(Stale(mem, d), Last(mem, d) + 1, Last(mem, d)) == {};
  }

  method SizeUpTo(mem: seq<Cell>, ghost owner: seq<int>, d: nat, max: int) returns (size: int)
    requires Shape(mem, owner, d) && !IsIT(mem, d) && First(mem, d) < max < Last(mem, d)
    ensures size == |Between(Stale(mem, d), First(mem, d), max)|
    ensures First(mem, d) in Between(Stale(mem, d), First(mem, d), max)
  {
    StaleBounds(mem, owner, d);
    var count := CountElms(mem, Bv(mem, d), max + 1, Last(mem, d) - 1);
    size := Size(mem, d) - count - 1;
    AboveCount(mem, owner, d, max);
    SplitSize(Stale(mem, d), First(mem, d), max, First(mem, d), Last(mem, d));
    assert Between(Stale(mem, d), First(mem, d), First(mem, d) - 1) == {};
  }

  // CALL_DOMAIN_REGION_MIN. first and last are the bounds the caller goes on with.
  method RegionMin(s: Store, d: nat, min: int) returns (ok: bool, first: int, last: int)
    requires s.Valid() && d in s.views && First(s.mem, d) < min
    modifies s`mem, s`trail, s`views
    ensures var r := Between(old(s.views[d].described), min, old(Last(s.mem, d)));
      s.Valid() && Changed(old(s.views), s.views, d) && Narrows(old(s.views[d]), r, s.views[d])
      && (ok <==> r != {}) && (ok ==> Bounds(r, first, last)) && s.views[d].bits == old(s.views[d]).bits
  {
    assert Shape(s.mem, s.owner, d);
    StaleBounds(s.mem, s.owner, d);
    ghost var r := Between(Stale(s.mem, d), min, Last(s.mem, d));
    first, last := First(s.mem, d), Last(s.mem, d);
    if min >= last {
      if min > last {
        assert r == {};
        return false, first, last;
      }
      assert r == {min};
      first := min;
      Assign(s, d, min);
    } else if IsIT(s.mem, d) {
      IntervalCut(s.mem, s.owner, d, min, last);
      first := min;
      CutFirst(s, d, min, last - min + 1);
    } else {
      var size := SizeFrom(s.mem, s.owner, d, min);
      if size == 1 {
        SingleMember(r, last);
        first := last;
        Assign(s, d, last);
      } else {
        first := NextMember(s.mem, s.owner, d, min, last);
        TwoBounds(r, first, last);
        CutFirst(s, d, first, size);
      }
    }
    return true, first, last;
  }

  // A set with bounds and more than one member has different bounds.
  lemma TwoBounds(r: set<int>, first: int, last: int)
    requires first in r && last in r && |r| != 1 && forall v :: v in r ==> first <= v <= last
    ensures first < last
  {
    if first == last {
      SubsetSize({first}, r);
      forall v | v in r ensures v in {first} {
      }
      SubsetSize(r, {first});
    }
  }

  // Only variable d may have changed.
  ghost predicate Changed(views: map<nat, View>, views': map<nat, View>, d: nat) {
    d in views' && views' == views[d := views'[d]]
  }

  // CALL_DOMAIN_REGION_MAX
  method RegionMax(s: Store, d: nat, max: int) returns (ok: bool, first: int, last: int)
    requires s.Valid() && d in s.views && max < Last(s.mem, d)
    modifies s`mem, s`trail, s`views
    ensures var r := Between(old(s.views[d].described), old(First(s.mem, d)), max);
      s.Valid() && Changed(old(s.views), s.views, d) && Narrows(old(s.views[d]), r, s.views[d])
      && (ok <==> r != {}) && (ok ==> Bounds(r, first, last)) && s.views[d].bits == old(s.views[d]).bits
  {
    assert Shape(s.mem, s.owner, d);
    StaleBounds(s.mem, s.owner, d);
    ghost var r := Between(Stale(s.mem, d), First(s.mem, d), max);
    first, last := First(s.mem, d), Last(s.mem, d);
    if max <= first {
      if max < first {
        assert r == {};
        return false, first, last;
      }
      assert r == {max};
      last := max;
      Assign(s, d, max);
    } else if IsIT(s.mem, d) {
      IntervalCut(s.mem, s.owner, d, first, max);
      last := max;
      CutLast(s, d, max, max - first + 1);
    } else {
      var size := SizeUpTo(s.mem, s.owner, d, max);
      if size == 1 {
        SingleMember(r, first);
        last := first;
        Assign(s, d, first);
      } else {
        last := PrevMember(s.mem, s.owner, d, first, max);
        TwoBounds(r, first, last);
        CutLast(s, d, last, size);
      }
    }
    return true, first, last;
  }

  // CALL_DOMAIN_REGION_MIN_MAX
  method RegionMinMax(s: Store, d: nat, min: int, max: int) returns (ok: bool, first: int, last: int)
    requires s.Valid() && d in s.views && First(s.mem, d) < min <= max < Last(s.mem, d)
    modifies s`mem, s`trail, s`views
    ensures var r := Between(old(s.views[d].described), min, max);
      s.Valid() && Changed(old(s.views), s.views, d) && Narrows(old(s.views[d]), r, s.views[d])
      && (ok <==> r != {}) && (ok ==> Bounds(r, first, last)) && s.views[d].bits == old(s.views[d]).bits
  {
    assert Shape(s.mem, s.owner, d);
    StaleBounds(s.mem, s.owner, d);
    ghost var r := Between(Stale(s.mem, d), min, max);
    first, last := First(s.mem, d), Last(s.mem, d);
    if min == max {
      var isIn := DmTrue(s.mem, s.owner, d, min);
      if !IsIT(s.mem, d) && !isIn {
        assert r == {};
        return false, first, last;
      }
      assert min in Stale(s.mem, d) by {
        if IsIT(s.mem, d) {
          assert InStale(s.mem, d, min);
        }
      }
      assert r == {min};
      first, last := min, max;
      Assign(s, d, min);
    } else if IsIT(s.mem, d) {
      IntervalCut(s.mem, s.owner, d, min, max);
      first, last := min, max;
      CutBoth(s, d, min, max, max - min + 1);
    } else {
      ok, first, last := RegionMinMaxBv(s, d, min, max);
      return;
    }
    return true, first, last;
  }

  // What DV_size becomes when both ends are cut.
  method SizeWithin(mem: seq<Cell>, ghost owner: seq<int>, d: nat, min: int, max: int) returns (size: int)
    requires Shape(mem, owner, d) && !IsIT(mem, d) && First(mem, d) < min <= max < Last(mem, d)
    ensures size == |Between(Stale(mem, d), min, max)|
  {
    StaleBounds(mem, owner, d);
    var below := CountElms(mem, Bv(mem, d), First(mem, d) + 1, min - 1);
    var above := CountElms(mem, Bv(mem, d), max + 1, Last(mem, d) - 1);
    size := Size(mem, d) - (below + above) - 2;
    BelowCount(mem, owner, d, min);
    AboveCount(mem, owner, d, max);
    SplitSize(Stale(mem, d), min, max, First(mem, d), Last(mem, d));
  }

  method RegionMinMaxBv(s: Store, d: nat, min: int, max: int) returns (ok: bool, first: int, last: int)
    requires s.Valid() && d in s.views && First(s.mem, d) < min < max < Last(s.mem, d) && !IsIT(s.mem, d)
    modifies s`mem, s`trail, s`views
    ensures var r := Between(old(s.views[d].described), min, max);
      s.Valid() && Changed(old(s.views), s.views, d) && Narrows(old(s.views[d]), r, s.views[d])
      && (ok <==> r != {}) && (ok ==> Bounds(r, first, last)) && s.views[d].bits == old(s.views[d]).bits
  {
    assert Shape(s.mem, s.owner, d);
    StaleBounds(s.mem, s.owner, d);
    ghost var r := Between(Stale(s.mem, d), min, max);
    first, last := First(s.mem, d), Last(s.mem, d);
    var size := SizeWithin(s.mem, s.owner, d, min, max);
    if size == 0 {
      return false, first, last;
    }
    first := NextMember(s.mem, s.owner, d, min, max);
    if size == 1 {
      SingleMember(r, first);
      last := first;
      Assign(s, d, first);
    } else {
      last := PrevMember(s.mem, s.owner, d, min, max);
      TwoBounds(r, first, last);
      assert r == Between(Stale(s.mem, d), first, last);
      CutBoth(s, d, first, last, size);
    }
    return true, first, last;
  }

  // CALL_DOMAIN_REGION, domain_region_noint: keep the values from..to.
  method DomainRegion(s: Store, d: nat, from: int, to: int) returns (ok: bool, first: int, last: int)
    requires s.Valid() && d in s.views
    modifies s`mem, s`trail, s`views
    ensures var r := Between(old(s.views[d].described), from, to);
      s.Valid() && Changed(old(s.views), s.views, d) && Narrows(old(s.views[d]), r, s.views[d])
      && (ok <==> r != {}) && (ok ==> Bounds(r, first, last)) && s.views[d].bits == old(s.views[d]).bits
  {
    assert Shape(s.mem, s.owner, d);
    StaleBounds(s.mem, s.owner, d);
    ghost var all := Stale(s.mem, d);
    first, last := First(s.mem, d), Last(s.mem, d);
    if from > to {
      assert Between(all, from, to) == {};
      return false, first, last;
    }
    if from > first {
      if to < last {
        ok, first, last := RegionMinMax(s, d, from, to);
      } else {
        assert Between(all, from, to) == Between(all, from, last);
        ok, first, last := RegionMin(s, d, from);
      }
    } else if to < last {
      assert Between(all, from, to) == Between(all, first, to);
      ok, first, last := RegionMax(s, d, to);
    } else {
      assert Between(all, from, to) == all;
      ok := true;
    }
  }
}
