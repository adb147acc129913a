// Domain variables that are built bit by bit: new_bv_domain_var, domain_set_true_bv, new_it_domain_var.
module SupportBits {
  import opened Powers
  import opened Bits
  import opened Words
  import opened Trail
  import opened Layout
  import opened Stores
  import opened Holes
  import opened ToBits

  // Variable d holds the values n so far and will in the end reach from lo to hi.
  ghost predicate Filling(mem: seq<Cell>, owner: seq<int>, d: nat, lo: int, hi: int, n: set<int>) {
    && |owner| == |mem| && d + SIZE_OF_DV <= |mem| && mem[d] == Ref && !IsIT(mem, d)
    && (forall a :: d <= a < d + SIZE_OF_DV ==> owner[a] == d)
    && BvShape(mem, owner, d, Bv(mem, d)) && BvLow(mem, Bv(mem, d)) <= lo < hi <= BvUp(mem, Bv(mem, d))
    && Size(mem, d) == |n| && Reaches(n, First(mem, d), Last(mem, d), lo, hi)
    && forall v :: lo <= v <= hi ==> (BvBit(mem, Bv(mem, d), v) <==> v in n)
  }

  // first and last are the bounds of n, or those it will have in the end.
  ghost predicate Reaches(n: set<int>, first: int, last: int, lo: int, hi: int) {
    && (forall v :: v in n ==> lo <= v <= hi && first <= v <= last)
    && (first in n || first == hi) && (last in n || last == lo)
  }

  // A variable that is not described yet does not disturb the others.
  lemma OthersDescribed(mem0: seq<Cell>, mem: seq<Cell>, owner0: seq<int>, owner: seq<int>, views: map<nat, View>,
      d: nat)
    requires Described(mem0, owner0, views) && OnlyOf(mem0, mem, owner0, owner, d) && d !in views
    ensures Described(mem, owner, views)
  {
    forall e | e in views ensures Shape(mem, owner, e) && views[e] == ViewOf(mem, e) {
      assert Shape(mem0, owner0, e);
      ShapeFrame(mem0, mem, owner0, owner, d, e);
    }
  }

  // Another variable's changes leave the cells and the block alone.
  lemma FillingCells(mem: seq<Cell>, mem': seq<Cell>, owner: seq<int>, owner': seq<int>, e: int, d: nat, lo: int,
      hi: int, n: set<int>)
    requires Filling(mem, owner, d, lo, hi, n) && OnlyOf(mem, mem', owner, owner', e) && e != d
    ensures forall a :: d <= a < d + SIZE_OF_DV ==> mem'[a] == mem[a] && owner'[a] == d
    ensures var p := Bv(mem, d);
      forall a :: p <= a <= p + 2 + Words1(mem, p) ==> At(mem', a) == At(mem, a) && owner'[a] == d
  {
    var p := Bv(mem, d);
    assert forall a :: p <= a <= p + 2 + Words1(mem, p) ==> owner[a] == d;
  }

  lemma FillingBit(mem: seq<Cell>, mem': seq<Cell>, owner: seq<int>, d: nat, lo: int, hi: int, n: set<int>, v: int)
    requires Filling(mem, owner, d, lo, hi, n) && lo <= v <= hi
    requires var p := Bv(mem, d); forall a :: p <= a <= p + 2 + Words1(mem, p) ==> At(mem', a) == At(mem, a)
    ensures BvBit(mem', Bv(mem, d), v) == BvBit(mem, Bv(mem, d), v)
  {
    WordInBlock(mem, owner, d, v);
  }

  lemma FillingFrame(mem: seq<Cell>, mem': seq<Cell>, owner: seq<int>, owner': seq<int>, e: int, d: nat, lo: int,
      hi: int, n: set<int>)
    requires Filling(mem, owner, d, lo, hi, n) && OnlyOf(mem, mem', owner, owner', e) && e != d
    ensures Filling(mem', owner', d, lo, hi, n)
  {
    var p := Bv(mem, d);
    FillingCells(mem, mem', owner, owner', e, d, lo, hi, n);
    assert Bv(mem', d) == p && BvLow(mem', p) == BvLow(mem, p) && BvUp(mem', p) == BvUp(mem, p);
    forall v | lo <= v <= hi ensures BvBit(mem', p, v) == BvBit(mem, p, v) {
      FillingBit(mem, mem', owner, d, lo, hi, n, v);
    }
    assert BvShape(mem', owner', d, p);
  }

  // With its two bounds in place the variable is whole.
  lemma FillingDone(mem: seq<Cell>, owner: seq<int>, d: nat, lo: int, hi: int, n: set<int>)
    requires Filling(mem, owner, d, lo, hi, n) && lo in n && hi in n
    ensures Shape(mem, owner, d) && ViewOf(mem, d) == View(Ref, n, true)
  {
    BitsShape(mem, owner, d, n);
  }

  // ---- new_bv_domain_var ----

  ghost function NewCells(p: int, lo: int, hi: int, from: int, to: int): (cells: seq<Cell>)
    requires from <= to
  {
    [Ref, Num(p), Num(0), Num(0), Num(0), Num(hi), Num(lo), Num(0), Num(0), Num(0)]
      + ([Num(from * WORD_BITS), Num((to + 1) * WORD_BITS - 1)] + seq(to - from + 1, i => Num(0)))
  }

  method NewBits(s: Store, lo: int, hi: int) returns (d: nat)
    requires s.Valid() && lo < hi
    modifies s`mem, s`owner
    ensures s.Valid() && d == |old(s.mem)| && d !in s.views && s.hb <= d
    ensures OnlyOf(old(s.mem), s.mem, old(s.owner), s.owner, d)
    ensures Filling(s.mem, s.owner, d, lo, hi, {})
  {
    d := |s.mem|;
    OldCells(s, d);
    var from, to := WordNumber(lo), WordNumber(hi);
    assert from <= to;
    s.Alloc([Ref, Num(d + SIZE_OF_DV), Num(0), Num(0), Num(0), Num(hi), Num(lo), Num(0), Num(0), Num(0)], d);
    s.Alloc([Num(from * WORD_BITS), Num((to + 1) * WORD_BITS - 1)], d);
    ghost var mem1, owner1 := s.mem, s.owner;
    var i := from;
    while i <= to
      invariant from <= i <= to + 1 && s.Sane()
      invariant s.mem == mem1 + seq(i - from, k => Num(0)) && s.owner == owner1 + seq(i - from, k => d)
    {
      s.Alloc([Num(0)], d);
      i := i + 1;
    }
    assert s.mem == old(s.mem) + NewCells(d + SIZE_OF_DV, lo, hi, from, to);
    NewFilling(old(s.mem), s.mem, s.owner, d, lo, hi, from, to);
    OthersDescribed(old(s.mem), s.mem, old(s.owner), s.owner, s.views, d);
  }

  // Variables lie below the heap top, and so does the newest choice point.
  lemma OldCells(s: Store, d: nat)
    requires s.Valid() && d == |s.mem|
    ensures d !in s.views && s.hb <= d
  {
    forall e | e in s.views ensures e < d {
      assert Shape(s.mem, s.owner, e);
    }
    if s.choices != [] {
      var k := |s.choices| - 1;
      assert Recovers(s.mem, s.trail, s.choices[k], s.snaps[k].mem);
    }
  }

  lemma NewFilling(mem0: seq<Cell>, mem: seq<Cell>, owner: seq<int>, d: nat, lo: int, hi: int, from: int, to: int)
    requires lo < hi && from == WordNumber(lo) && to == WordNumber(hi) && |mem0| == d
    requires mem == mem0 + NewCells(d + SIZE_OF_DV, lo, hi, from, to) && |owner| == |mem|
    requires forall a :: d <= a < |mem| ==> owner[a] == d
    ensures Filling(mem, owner, d, lo, hi, {})
  {
    var p := d + SIZE_OF_DV;
    RoundDown(lo);
    RoundDown(hi);
    NewAt(mem0, mem, d, lo, hi, from, to);
    assert (BvUp(mem, p) - BvLow(mem, p)) / WORD_BITS == to - from by {
      assert BvUp(mem, p) - BvLow(mem, p) == WORD_BITS * (to - from) + (WORD_BITS - 1);
    }
    assert BvShape(mem, owner, d, p);
    forall v | lo <= v <= hi ensures !BvBit(mem, p, v) {
      WordInBlock(mem, owner, d, v);
      BitOfZero(BitIndex(mem, p, v));
    }
  }

  lemma NewAt(mem0: seq<Cell>, mem: seq<Cell>, d: nat, lo: int, hi: int, from: int, to: int)
    requires |mem0| == d && from <= to && mem == mem0 + NewCells(d + SIZE_OF_DV, lo, hi, from, to)
    ensures |mem| == d + SIZE_OF_DV + 3 + (to - from) && mem[d] == Ref && Bv(mem, d) == d + SIZE_OF_DV
    ensures First(mem, d) == hi && Last(mem, d) == lo && Size(mem, d) == 0
    ensures BvLow(mem, d + SIZE_OF_DV) == from * WORD_BITS && BvUp(mem, d + SIZE_OF_DV) == (to + 1) * WORD_BITS - 1
    ensures forall a :: d + SIZE_OF_DV + 2 <= a < |mem| ==> At(mem, a) == 0
  {
  }

  // ---- domain_set_true_bv ----

  // Only the word at a and the three counters of d were written.
  ghost predicate Touched(mem: seq<Cell>, mem': seq<Cell>, d: nat, a: int, w: int) {
    && |mem'| == |mem| && 0 <= a < |mem| && mem'[a] == Num(w)
    && forall b :: 0 <= b < |mem| && b != a && b != d + SIZE && b != d + FIRST && b != d + LAST ==> mem'[b] == mem[b]
  }

  lemma SetElm(mem: seq<Cell>, mem': seq<Cell>, d: nat, p: int, v: int, u: int, a: int, w: int)
    requires d + SIZE_OF_DV <= p && BvLow(mem, p) <= v && BvLow(mem, p) <= u && Touched(mem, mem', d, a, w)
    requires a == WordAddr(mem, p, v) && IsWord(At(mem, a)) && w == SetBit(At(mem, a), BitIndex(mem, p, v))
    ensures BvBit(mem', p, u) <==> BvBit(mem, p, u) || u == v
  {
    DivMono(0, v - BvLow(mem, p));
    DivMono(0, u - BvLow(mem, p));
    SetBitBits(At(mem, a), BitIndex(mem, p, v), BitIndex(mem, p, u));
  }

  lemma TouchedBlock(mem: seq<Cell>, mem': seq<Cell>, owner: seq<int>, d: nat, lo: int, hi: int, n: set<int>, a: int,
      w: int)
    requires Filling(mem, owner, d, lo, hi, n) && Touched(mem, mem', d, a, w) && IsWord(w)
    requires Bv(mem, d) + 2 <= a <= Bv(mem, d) + 2 + Words1(mem, Bv(mem, d))
    requires lo <= First(mem', d) && Last(mem', d) <= hi
    ensures mem'[d] == Ref && Bv(mem', d) == Bv(mem, d) && BvShape(mem', owner, d, Bv(mem, d))
    ensures var p := Bv(mem, d); BvLow(mem', p) == BvLow(mem, p) && BvUp(mem', p) == BvUp(mem, p)
    ensures OnlyOf(mem, mem', owner, owner, d)
  {
    var p := Bv(mem, d);
    assert owner[a] == d;
    forall b | p + 2 <= b <= p + 2 + Words1(mem, p) ensures IsWord(At(mem', b)) {
      assert IsWord(At(mem, b));
    }
  }

  lemma FilledOne(mem: seq<Cell>, mem': seq<Cell>, owner: seq<int>, d: nat, lo: int, hi: int, n: set<int>, elm: int,
      a: int, w: int)
    requires Filling(mem, owner, d, lo, hi, n) && Touched(mem, mem', d, a, w) && lo <= elm <= hi && elm !in n
    requires a == WordAddr(mem, Bv(mem, d), elm) && w == SetBit(At(mem, a), BitIndex(mem, Bv(mem, d), elm))
    requires Size(mem', d) == Size(mem, d) + 1
    requires First(mem', d) == (if elm < First(mem, d) then elm else First(mem, d))
    requires Last(mem', d) == (if elm > Last(mem, d) then elm else Last(mem, d))
    ensures Filling(mem', owner, d, lo, hi, n + {elm}) && OnlyOf(mem, mem', owner, owner, d)
  {
    var p := Bv(mem, d);
    WordInBlock(mem, owner, d, elm);
    SetBitBits(At(mem, a), BitIndex(mem, p, elm), 0);
    TouchedBlock(mem, mem', owner, d, lo, hi, n, a, w);
    forall v | lo <= v <= hi ensures BvBit(mem', p, v) <==> v in n + {elm} {
      SetElm(mem, mem', d, p, elm, v, a, w);
    }
  }

  method SetTrue(s: Store, d: nat, elm: int, ghost lo: int, ghost hi: int, ghost n: set<int>)
    requires s.Valid() && d !in s.views && s.hb <= d && Filling(s.mem, s.owner, d, lo, hi, n) && lo <= elm <= hi
    modifies s`mem
    ensures s.Valid() && Filling(s.mem, s.owner, d, lo, hi, n + {elm})
    ensures OnlyOf(old(s.mem), s.mem, s.owner, s.owner, d)
  {
    var p := Bv(s.mem, d);
    WordInBlock(s.mem, s.owner, d, elm);
    var a, offset := WordAddr(s.mem, p, elm), BitIndex(s.mem, p, elm);
    var w := At(s.mem, a);
    TestBit(w, offset);
    assert BvBit(s.mem, p, elm) <==> Bit(w, offset);
    if And64(w, Pow2(offset)) != 0 {
      assert n + {elm} == n;
      return;
    }
    SetBitAndCount(s, d, elm, a, SetBit(w, offset));
    FilledOne(old(s.mem), s.mem, s.owner, d, lo, hi, n, elm, a, SetBit(w, offset));
    OthersDescribed(old(s.mem), s.mem, s.owner, s.owner, s.views, d);
  }

  // The writes are not trailed: the variable is newer than the newest choice point.
  method SetBitAndCount(s: Store, d: nat, elm: int, a: nat, w: int)
    requires s.Sane() && s.hb <= d && d + SIZE_OF_DV <= a < |s.mem|
    modifies s`mem
    ensures s.Sane() && Touched(old(s.mem), s.mem, d, a, w) && Size(s.mem, d) == Size(old(s.mem), d) + 1
    ensures First(s.mem, d) == if elm < First(old(s.mem), d) then elm else First(old(s.mem), d)
    ensures Last(s.mem, d) == if elm > Last(old(s.mem), d) then elm else Last(old(s.mem), d)
  {
    s.Write(a, Num(w), 0);
    s.Write(d + SIZE, Num(Size(s.mem, d) + 1), 0);
    Widen(s, d, elm);
  }

  method Widen(s: Store, d: nat, elm: int)
    requires s.Sane() && s.hb <= d && d + SIZE_OF_DV <= |s.mem|
    modifies s`mem
    ensures s.Sane() && |s.mem| == |old(s.mem)|
    ensures forall b :: 0 <= b < |s.mem| && b != d + FIRST && b != d + LAST ==> s.mem[b] == old(s.mem)[b]
    ensures First(s.mem, d) == if elm < First(old(s.mem), d) then elm else First(old(s.mem), d)
    ensures Last(s.mem, d) == if elm > Last(old(s.mem), d) then elm else Last(old(s.mem), d)
  {
    if elm < First(s.mem, d) {
      s.Write(d + FIRST, Num(elm), 0);
    }
    if elm > Last(s.mem, d) {
      s.Write(d + LAST, Num(elm), 0);
    }
  }
}
