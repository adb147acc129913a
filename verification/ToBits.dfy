// Turning an interval domain into a bit vector, with or without holes.
module ToBits {
  import opened Powers
  import opened Bits
  import opened Words
  import opened Trail
  import opened Layout
  import opened Sets
  import opened Stores
  import opened BitScan
  import opened Region
  import opened Holes

  // WORD_NUMBER rounds down for negative values too.
  function WordNumber(v: int): int {
    v / WORD_BITS
  }

  // MASK_FF
  const MASK: int := Pow2(WORD_BITS) - 1

  // A block of ones for the interval of d, at the old heap top.
  ghost predicate BlockMade(mem0: seq<Cell>, mem: seq<Cell>, owner0: seq<int>, owner: seq<int>, d: nat, from: int,
      to: int) {
    && from <= to && d + SIZE_OF_DV <= |mem0| == |owner0|
    && mem == mem0[d + TYPE := Num(|mem0|)] + [Num(from * WORD_BITS), Num((to + 1) * WORD_BITS - 1)] +
        seq(to - from + 1, i => Num(MASK))
    && owner == owner0 + seq(to - from + 3, i => d)
  }

  method MakeBlock(s: Store, d: nat)
    requires s.Sane() && Shape(s.mem, s.owner, d) && IsIT(s.mem, d)
    modifies s`mem, s`owner, s`trail
    ensures s.Sane()
    ensures BlockMade(old(s.mem), s.mem, old(s.owner), s.owner, d, WordNumber(old(First(s.mem, d))),
        WordNumber(old(Last(s.mem, d))))
  {
    var from, to := WordNumber(First(s.mem, d)), WordNumber(Last(s.mem, d));
    StaleBounds(s.mem, s.owner, d);
    assert from <= to;
    s.Update(d + TYPE, Num(|s.mem|), d + TYPE < s.hb);
    s.Alloc([Num(from * WORD_BITS), Num((to + 1) * WORD_BITS - 1)], d);
    AppendOnes(s, d, from, to);
    assert s.owner == old(s.owner) + seq(to - from + 3, k => d);
  }

  method AppendOnes(s: Store, ghost d: nat, from: int, to: int)
    requires s.Sane() && from <= to
    modifies s`mem, s`owner
    ensures s.Sane() && s.mem == old(s.mem) + seq(to + 1 - from, k => Num(MASK))
    ensures s.owner == old(s.owner) + seq(to + 1 - from, k => d)
  {
    var i := from;
    while i <= to
      invariant from <= i <= to + 1 && s.Sane()
      invariant s.mem == old(s.mem) + seq(i - from, k => Num(MASK))
      invariant s.owner == old(s.owner) + seq(i - from, k => d)
    {
      s.Alloc([Num(MASK)], d);
      i := i + 1;
    }
  }

  lemma BlockCells(mem0: seq<Cell>, mem: seq<Cell>, owner0: seq<int>, owner: seq<int>, d: nat, from: int, to: int)
    requires Shape(mem0, owner0, d) && IsIT(mem0, d) && BlockMade(mem0, mem, owner0, owner, d, from, to)
    ensures Bv(mem, d) == |mem0| && !IsIT(mem, d) && BvLow(mem, |mem0|) == from * WORD_BITS
    ensures BvUp(mem, |mem0|) == (to + 1) * WORD_BITS - 1
    ensures |owner| == |mem| == |mem0| + (to - from + 3)
    ensures First(mem, d) == First(mem0, d) && Last(mem, d) == Last(mem0, d) && Size(mem, d) == Size(mem0, d)
    ensures mem[d] == mem0[d]
    ensures forall a :: |mem0| + 2 <= a < |mem| ==> mem[a] == Num(MASK)
    ensures forall a :: |mem0| <= a < |mem| ==> owner[a] == d
    ensures OnlyOf(mem0, mem, owner0, owner, d)
  {
    assert owner0[d + TYPE] == d;
  }

  lemma OnesOn(i: nat)
    requires i < WORD_BITS
    ensures IsWord(MASK) && On(MASK, i)
  {
    BitOfOnes(WORD_BITS, i);
  }

  lemma BlockBits(mem: seq<Cell>, p: int, from: int, to: int, v: int)
    requires BvLow(mem, p) == from * WORD_BITS && 0 <= p && p + 3 + (to - from) == |mem|
    requires from * WORD_BITS <= v <= (to + 1) * WORD_BITS - 1
    requires forall a :: p + 2 <= a < |mem| ==> mem[a] == Num(MASK)
    ensures BvBit(mem, p, v)
  {
    DivMono(0, v - from * WORD_BITS);
    assert (v - from * WORD_BITS) / WORD_BITS <= to - from;
    OnesOn(BitIndex(mem, p, v));
  }

  lemma RoundDown(v: int)
    ensures WordNumber(v) * WORD_BITS <= v <= (WordNumber(v) + 1) * WORD_BITS - 1
  {
  }

  // The variable still stands for its interval.
  lemma BlockReady(mem0: seq<Cell>, mem: seq<Cell>, owner0: seq<int>, owner: seq<int>, d: nat, from: int, to: int)
    requires Shape(mem0, owner0, d) && IsIT(mem0, d) && BlockMade(mem0, mem, owner0, owner, d, from, to)
    requires from == WordNumber(First(mem0, d)) && to == WordNumber(Last(mem0, d))
    ensures Shape(mem, owner, d) && Stale(mem, d) == Stale(mem0, d) && OnlyOf(mem0, mem, owner0, owner, d)
  {
    var p := |mem0|;
    BlockCells(mem0, mem, owner0, owner, d, from, to);
    RoundDown(First(mem0, d));
    RoundDown(Last(mem0, d));
    StaleBounds(mem0, owner0, d);
    OnesOn(0);
    assert (BvUp(mem, p) - BvLow(mem, p)) / WORD_BITS == to - from by {
      assert BvUp(mem, p) - BvLow(mem, p) == WORD_BITS * (to - from) + (WORD_BITS - 1);
    }
    forall v | First(mem, d) <= v <= Last(mem, d) ensures BvBit(mem, p, v) <==> v in Stale(mem0, d) {
      BlockBits(mem, p, from, to, v);
      assert v in Stale(mem0, d) <==> InStale(mem0, d, v);
    }
    BitsShape(mem, owner, d, Stale(mem0, d));
  }

  // it_to_bv: the meaning does not change; the new words are newer than every choice point.
  method ItToBv(s: Store, d: nat)
    requires s.Valid() && d in s.views && IsIT(s.mem, d)
    modifies s`mem, s`owner, s`trail, s`views
    ensures s.Valid() && s.views == old(s.views)[d := old(s.views[d]).(bits := true)]
    ensures !IsIT(s.mem, d) && First(s.mem, d) == old(First(s.mem, d)) && Last(s.mem, d) == old(Last(s.mem, d))
    ensures s.hb <= Bv(s.mem, d) && (forall a :: Bv(s.mem, d) + 2 <= a < |s.mem| ==> s.mem[a] == Num(MASK))
    ensures |s.mem| == Bv(s.mem, d) + 3 + Words1(s.mem, Bv(s.mem, d))
    ensures OnlyOf(old(s.mem), s.mem, old(s.owner), s.owner, d)
  {
    assert Shape(s.mem, s.owner, d);
    assert s.hb <= |s.mem| by {
      if s.choices != [] {
        assert Recovers(s.mem, s.trail, s.choices[|s.choices| - 1], s.snaps[|s.choices| - 1].mem);
      }
    }
    MakeBlock(s, d);
    ghost var from, to := WordNumber(old(First(s.mem, d))), WordNumber(old(Last(s.mem, d)));
    BlockReady(old(s.mem), s.mem, old(s.owner), s.owner, d, from, to);
    BlockCells(old(s.mem), s.mem, old(s.owner), s.owner, d, from, to);
    assert Words1(s.mem, |old(s.mem)|) == to - from by {
      assert (to + 1) * WORD_BITS - 1 - from * WORD_BITS == WORD_BITS * (to - from) + (WORD_BITS - 1);
    }
    s.Settle(old(s.mem), old(s.owner), d);
  }

  // In a word of ones, ~(1 << o) is the word with bit o cleared.
  lemma OnesButOne(o: nat)
    requires o < WORD_BITS
    ensures Not64(Pow2(o)) == ClearBit(MASK, o)
  {
    OnesOn(0);
    Pow2Mono(o + 1, WORD_BITS);
    ClearBitBits(MASK, o, 0);
    forall i: nat ensures Bit(Not64(Pow2(o)), i) == Bit(ClearBit(MASK, o), i) {
      ClearBitBits(MASK, o, i);
      BitOfNot(WORD_BITS, Pow2(o), i);
      BitOfPow2(o, i);
      BitOfOnes(WORD_BITS, i);
    }
    BitsDetermine(Not64(Pow2(o)), ClearBit(MASK, o));
  }

  // it_to_bv_with_hole
  method ItToBvWithHole(s: Store, d: nat, elm: int)
    requires s.Valid() && d in s.views && IsIT(s.mem, d) && First(s.mem, d) < elm < Last(s.mem, d)
    modifies s`mem, s`owner, s`trail, s`views
    ensures s.Valid()
    ensures s.views == old(s.views)[d := View(old(s.views[d].cell), Outside(old(s.views[d].described), elm, elm), true)]
  {
    assert Shape(s.mem, s.owner, d);
    assert elm in Stale(s.mem, d) by {
      assert InStale(s.mem, d, elm);
    }
    ItToBv(s, d);
    assert Shape(s.mem, s.owner, d);
    PunchHole(s, d, elm);
  }

  // Clears the bit of elm in a fresh vector of ones.
  method PunchHole(s: Store, d: nat, elm: int)
    requires s.Valid() && d in s.views && !IsIT(s.mem, d) && First(s.mem, d) < elm < Last(s.mem, d)
    requires s.hb <= Bv(s.mem, d) && (forall a :: Bv(s.mem, d) + 2 <= a < |s.mem| ==> s.mem[a] == Num(MASK))
    requires elm in Stale(s.mem, d)
    modifies s`mem, s`trail, s`views
    ensures s.Valid()
    ensures s.views == old(s.views)[d := View(old(s.views[d].cell), Outside(old(s.views[d].described), elm, elm), true)]
  {
    ghost var mem1 := s.mem;
    assert Shape(s.mem, s.owner, d);
    var a, offset := WordAddr(s.mem, Bv(s.mem, d), elm), BitIndex(s.mem, Bv(s.mem, d), elm);
    WordInBlock(s.mem, s.owner, d, elm);
    OnesButOne(offset);
    s.Write(a, Num(Not64(Pow2(offset))), 0);
    RemovedOne(mem1, s.mem, s.owner, d, elm, a, Not64(Pow2(offset)));
    FinishSize(s, mem1, s.owner, d, Size(s.mem, d) - 1, Outside(Stale(mem1, d), elm, elm));
  }

  // The cells of mem with the word at a still held in the register w.
  ghost function Holding(mem: seq<Cell>, a: int, w: int): seq<Cell> {
    if 0 <= a < |mem| then mem[a := Num(w)] else mem
  }

  // Writing back what a word holds changes nothing that is read.
  lemma RemovingSame(mem0: seq<Cell>, mem: seq<Cell>, owner: seq<int>, d: nat, from: int, v: int, a: int)
    requires Shape(mem0, owner, d) && !IsIT(mem0, d) && Removing(mem0, mem, d, from, v)
    requires Bv(mem0, d) + 2 <= a <= Bv(mem0, d) + 2 + Words1(mem0, Bv(mem0, d))
    ensures Removing(mem0, Holding(mem, a, At(mem, a)), d, from, v)
  {
    var mem', p := Holding(mem, a, At(mem, a)), Bv(mem0, d);
    BlockHeader(mem0, mem, owner, d);
    forall v ensures BvBit(mem', p, v) == BvBit(mem, p, v) {
      SameBit(mem, mem', p, a, v);
    }
    assert AllWords(mem', p, Words1(mem0, p)) by {
      SameWords(mem, mem', p, Words1(mem0, p), a);
    }
  }

  lemma SameBit(mem: seq<Cell>, mem': seq<Cell>, p: int, a: int, v: int)
    requires 0 <= a < |mem| && mem' == mem[a := Num(At(mem, a))]
    ensures BvBit(mem', p, v) == BvBit(mem, p, v)
  {
    assert At(mem', p) == At(mem, p);
    assert At(mem', WordAddr(mem, p, v)) == At(mem, WordAddr(mem, p, v));
  }

  lemma SameWords(mem: seq<Cell>, mem': seq<Cell>, p: int, n: int, a: int)
    requires 0 <= a < |mem| && mem' == mem[a := Num(At(mem, a))] && AllWords(mem, p, n)
    ensures AllWords(mem', p, n)
  {
    forall b | p + 2 <= b <= p + 2 + n ensures IsWord(At(mem', b)) {
      assert At(mem', b) == At(mem, b);
    }
  }

  lemma HoldingStep(mem0: seq<Cell>, mem: seq<Cell>, owner: seq<int>, d: nat, from: int, v: int, a: int, w: int,
      w': int)
    requires Shape(mem0, owner, d) && !IsIT(mem0, d) && First(mem0, d) < from <= v < Last(mem0, d)
    requires 0 <= a < |mem| && Removing(mem0, Holding(mem, a, w), d, from, v - 1)
    requires a == WordAddr(mem0, Bv(mem0, d), v) && w' == ClearBit(w, BitIndex(mem0, Bv(mem0, d), v))
    ensures Removing(mem0, Holding(mem, a, w'), d, from, v)
  {
    var held := Holding(mem, a, w);
    BlockHeader(mem0, held, owner, d);
    assert held[a := Num(w')] == Holding(mem, a, w');
    RemovingStep(mem0, held, held[a := Num(w')], owner, d, from, v, a, w');
  }

  // The loop of it_to_bv_with_interval_holes: the word is kept in w until its last bit is done.
  method ClearFresh(s: Store, d: nat, start: int, end: int)
    requires s.Sane() && Shape(s.mem, s.owner, d) && !IsIT(s.mem, d) && First(s.mem, d) < start <= end < Last(s.mem, d)
    requires s.hb <= Bv(s.mem, d)
    modifies s`mem
    ensures s.Sane() && Removing(old(s.mem), s.mem, d, start, end)
  {
    ghost var mem0 := s.mem;
    var p := Bv(s.mem, d);
    var j, offset := (start - BvLow(s.mem, p)) / WORD_BITS, (start - BvLow(s.mem, p)) % WORD_BITS;
    BitAt(mem0, p, start, j, offset);
    WordInBlock(mem0, s.owner, d, start);
    var a := p + 2 + j;
    var w := At(s.mem, a);
    var i := start;
    ghost var done := start - 1;
    RemovingNone(mem0, s.owner, d, start);
    RemovingSame(mem0, mem0, s.owner, d, start, done, a);
    while i <= end
      invariant start <= i <= end + 1 && s.Sane() && done == i - 1
      invariant i == BvLow(mem0, p) + WORD_BITS * j + offset && 0 <= offset < WORD_BITS && a == p + 2 + j
      invariant 0 <= a < |s.mem|
      invariant Removing(mem0, Holding(s.mem, a, w), d, start, done)
    {
      w, a, offset := FreshTurn(s, mem0, d, start, i, a, w, offset);
      j := a - p - 2;
      done := i;
      i := i + 1;
    }
    BitAt(mem0, p, i, j, offset);
    WordInBlock(mem0, s.owner, d, i);
    s.Write(a, Num(w), 0);
  }

  // The word is done: it is written and the next one is read.
  method FlushWord(s: Store, ghost mem0: seq<Cell>, d: nat, ghost start: int, ghost i: int, a0: int, w0: int)
    returns (w: int, a: int)
    requires s.Sane() && Shape(mem0, s.owner, d) && !IsIT(mem0, d) && First(mem0, d) < start <= i < Last(mem0, d)
    requires s.hb <= Bv(mem0, d) && 0 <= a0 < |s.mem|
    requires i == BvLow(mem0, Bv(mem0, d)) + WORD_BITS * (a0 - Bv(mem0, d) - 2) + WORD_BITS - 1
    requires Removing(mem0, Holding(s.mem, a0, w0), d, start, i)
    modifies s`mem
    ensures s.Sane() && a == a0 + 1 && a < |s.mem| && Removing(mem0, Holding(s.mem, a, w), d, start, i)
  {
    ghost var p := Bv(mem0, d);
    BitAt(mem0, p, i, a0 - p - 2, WORD_BITS - 1);
    WordInBlock(mem0, s.owner, d, i);
    s.Write(a0, Num(w0), 0);
    a := a0 + 1;
    BitAt(mem0, p, i + 1, a - p - 2, 0);
    WordInBlock(mem0, s.owner, d, i + 1);
    w := At(s.mem, a);
    BlockHeader(mem0, s.mem, s.owner, d);
    RemovingSame(mem0, s.mem, s.owner, d, start, i, a);
  }

  method FreshTurn(s: Store, ghost mem0: seq<Cell>, d: nat, ghost start: int, ghost i: int, a0: int, w0: int,
      offset0: nat)
    returns (w: int, a: int, offset: nat)
    requires s.Sane() && Shape(mem0, s.owner, d) && !IsIT(mem0, d) && First(mem0, d) < start <= i < Last(mem0, d)
    requires s.hb <= Bv(mem0, d) && 0 <= a0 < |s.mem| && offset0 < WORD_BITS
    requires i == BvLow(mem0, Bv(mem0, d)) + WORD_BITS * (a0 - Bv(mem0, d) - 2) + offset0
    requires Removing(mem0, Holding(s.mem, a0, w0), d, start, i - 1)
    modifies s`mem
    ensures s.Sane() && 0 <= a < |s.mem| && offset < WORD_BITS
    ensures i + 1 == BvLow(mem0, Bv(mem0, d)) + WORD_BITS * (a - Bv(mem0, d) - 2) + offset
    ensures Removing(mem0, Holding(s.mem, a, w), d, start, i)
  {
    ghost var p := Bv(mem0, d);
    BitAt(mem0, p, i, a0 - p - 2, offset0);
    WordInBlock(mem0, s.owner, d, i);
    w, a, offset := ClearBit(w0, offset0), a0, offset0 + 1;
    HoldingStep(mem0, s.mem, s.owner, d, start, i, a0, w0, w);
    if offset == WORD_BITS {
      offset := 0;
      w, a := FlushWord(s, mem0, d, start, i, a, w);
    }
  }

  lemma IntervalHoleSize(mem: seq<Cell>, owner: seq<int>, d: nat, start: int, end: int)
    requires Shape(mem, owner, d) && IsIT(mem, d) && First(mem, d) < start <= end < Last(mem, d)
    ensures |Outside(Stale(mem, d), start, end)| == Size(mem, d) - (end - start + 1)
  {
    IntervalCut(mem, owner, d, start, end);
    assert Stale(mem, d) == Outside(Stale(mem, d), start, end) + Between(Stale(mem, d), start, end);
  }

  // it_to_bv_with_interval_holes
  method ItToBvWithIntervalHoles(s: Store, d: nat, start: int, end: int)
    requires s.Valid() && d in s.views && IsIT(s.mem, d) && First(s.mem, d) < start <= end < Last(s.mem, d)
    modifies s`mem, s`owner, s`trail, s`views
    ensures s.Valid()
    ensures s.views == old(s.views)[d :=
        View(old(s.views[d].cell), Outside(old(s.views[d].described), start, end), true)]
  {
    assert Shape(s.mem, s.owner, d);
    IntervalHoleSize(s.mem, s.owner, d, start, end);
    ItToBv(s, d);
    ghost var mem1 := s.mem;
    assert Shape(s.mem, s.owner, d);
    ClearFresh(s, d, start, end);
    RemovedReady(mem1, s.mem, s.owner, d, start, end);
    FinishSize(s, mem1, s.owner, d, Size(s.mem, d) - (end - start + 1), Outside(Stale(mem1, d), start, end));
  }
}
