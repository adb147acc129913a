// Taking values out of the middle of a domain: bit clearing, and turning intervals into bit vectors.
module Holes {
  import opened Powers
  import opened Words
  import opened Trail
  import opened Layout
  import opened Sets
  import opened Stores
  import opened BitScan
  import opened Region

  // The members of s outside lo..hi.
  ghost function Outside(s: set<int>, lo: int, hi: int): set<int> {
    set v: int | v in s && !(lo <= v <= hi)
  }

  // Number of words of a block, less one.
  function Words1(mem: seq<Cell>, p: int): int {
    (BvUp(mem, p) - BvLow(mem, p)) / WORD_BITS
  }

  // A bit-vector variable whose bits inside its bounds are exactly n.
  lemma BitsShape(mem: seq<Cell>, owner: seq<int>, d: nat, n: set<int>)
    requires |owner| == |mem| && d + SIZE_OF_DV <= |mem| && !IsIT(mem, d)
    requires forall a :: d <= a < d + SIZE_OF_DV ==> owner[a] == d
    requires BvShape(mem, owner, d, Bv(mem, d)) && First(mem, d) < Last(mem, d)
    requires Bounds(n, First(mem, d), Last(mem, d)) && Size(mem, d) == |n|
    requires forall v :: First(mem, d) <= v <= Last(mem, d) ==> (BvBit(mem, Bv(mem, d), v) <==> v in n)
    ensures Shape(mem, owner, d) && Stale(mem, d) == n
  {
    forall v ensures v in Stale(mem, d) <==> v in n {
      assert v in Stale(mem, d) <==> InStale(mem, d, v);
    }
    assert Stale(mem, d) == n;
    SizeTwo(n, First(mem, d), Last(mem, d));
  }

  // Clearing the bit of v takes v out and nothing else.
  lemma ClearElm(mem: seq<Cell>, mem': seq<Cell>, p: int, v: int, u: int, a: int, w: int)
    requires 0 <= p && BvLow(mem, p) <= v && BvLow(mem, p) <= u && 0 <= a < |mem|
    requires a == WordAddr(mem, p, v) && IsWord(At(mem, a)) && w == ClearBit(At(mem, a), BitIndex(mem, p, v))
    requires mem' == mem[a := Num(w)]
    ensures BvBit(mem', p, u) <==> BvBit(mem, p, u) && u != v
  {
    DivMono(0, v - BvLow(mem, p));
    ClearBitBits(At(mem, a), BitIndex(mem, p, v), BitIndex(mem, p, u));
  }

  // mem' differs from mem only in words of the block at p.
  ghost predicate WordsOnly(mem: seq<Cell>, mem': seq<Cell>, p: int) {
    && |mem'| == |mem|
    && forall a :: 0 <= a < |mem| && !(p + 2 <= a <= p + 2 + Words1(mem, p)) ==> mem'[a] == mem[a]
  }

  ghost predicate AllWords(mem: seq<Cell>, p: int, n: int) {
    forall a :: p + 2 <= a <= p + 2 + n ==> IsWord(At(mem, a))
  }

  lemma WordsOnlyHead(mem: seq<Cell>, mem': seq<Cell>, owner: seq<int>, d: nat)
    requires Shape(mem, owner, d) && !IsIT(mem, d) && WordsOnly(mem, mem', Bv(mem, d))
    requires AllWords(mem', Bv(mem, d), Words1(mem, Bv(mem, d)))
    ensures Bv(mem', d) == Bv(mem, d) && First(mem', d) == First(mem, d) && Last(mem', d) == Last(mem, d)
    ensures Size(mem', d) == Size(mem, d) && BvShape(mem', owner, d, Bv(mem, d)) && mem'[d] == mem[d]
    ensures OnlyOf(mem, mem', owner, owner, d)
  {
  }

  // The size cell is written last; the block stays as it is.
  lemma SizeWritten(mem: seq<Cell>, mem': seq<Cell>, owner: seq<int>, d: nat, size: int)
    requires |owner| == |mem| && d + SIZE_OF_DV <= |mem| && mem' == mem[d + SIZE := Num(size)] && !IsIT(mem, d)
    requires BvShape(mem, owner, d, Bv(mem, d))
    ensures Size(mem', d) == size && First(mem', d) == First(mem, d) && Last(mem', d) == Last(mem, d)
    ensures Bv(mem', d) == Bv(mem, d) && mem'[d] == mem[d] && BvShape(mem', owner, d, Bv(mem, d))
    ensures BvLow(mem', Bv(mem, d)) == BvLow(mem, Bv(mem, d))
    ensures forall v :: v >= BvLow(mem, Bv(mem, d)) ==> BvBit(mem', Bv(mem, d), v) == BvBit(mem, Bv(mem, d), v)
  {
    var p := Bv(mem, d);
    assert forall a :: a >= p ==> At(mem', a) == At(mem, a);
    forall v | v >= BvLow(mem, p) ensures BvBit(mem', p, v) == BvBit(mem, p, v) {
      DivMono(0, v - BvLow(mem, p));
    }
  }

  // Everything but the size is in place for the variable to stand for n.
  ghost predicate Ready(mem0: seq<Cell>, owner0: seq<int>, mem: seq<Cell>, owner: seq<int>, d: nat, n: set<int>) {
    && OnlyOf(mem0, mem, owner0, owner, d)
    && d + SIZE_OF_DV <= |mem| && !IsIT(mem, d) && First(mem, d) < Last(mem, d)
    && (forall a :: d <= a < d + SIZE_OF_DV ==> owner[a] == d)
    && BvShape(mem, owner, d, Bv(mem, d))
    && Bounds(n, First(mem, d), Last(mem, d))
    && (forall v :: First(mem, d) <= v <= Last(mem, d) ==> (BvBit(mem, Bv(mem, d), v) <==> v in n))
  }

  // UPDATE_SIZE, after which the variable is whole again with the values n.
  method FinishSize(s: Store, ghost mem0: seq<Cell>, ghost owner0: seq<int>, d: nat, size: int, ghost n: set<int>)
    requires s.Sane() && Described(mem0, owner0, s.views) && Ready(mem0, owner0, s.mem, s.owner, d, n) && size == |n|
    modifies s`mem, s`trail, s`views
    ensures s.Valid() && s.views == old(s.views)[d := View(old(s.mem)[d], n, true)]
  {
    s.Update(d + SIZE, Num(size), d < s.hb);
    SizeWritten(old(s.mem), s.mem, s.owner, d, size);
    BitsShape(s.mem, s.owner, d, n);
    s.Settle(mem0, owner0, d);
  }

  // The bits of mem inside first..last are those of mem0 less the values from..to.
  ghost predicate Cleared(mem0: seq<Cell>, mem: seq<Cell>, p: int, first: int, last: int, from: int, to: int) {
    forall v :: first <= v <= last ==> (BvBit(mem, p, v) <==> BvBit(mem0, p, v) && !(from <= v <= to))
  }

  // mem0 with the bits of from..to cleared.
  ghost predicate Removing(mem0: seq<Cell>, mem: seq<Cell>, d: nat, from: int, to: int) {
    var p := Bv(mem0, d);
    && WordsOnly(mem0, mem, p) && AllWords(mem, p, Words1(mem0, p))
    && Cleared(mem0, mem, p, First(mem0, d), Last(mem0, d), from, to)
  }

  lemma RemovingNone(mem: seq<Cell>, owner: seq<int>, d: nat, from: int)
    requires Shape(mem, owner, d) && !IsIT(mem, d)
    ensures Removing(mem, mem, d, from, from - 1)
  {
  }

  lemma BlockHeader(mem0: seq<Cell>, mem: seq<Cell>, owner: seq<int>, d: nat)
    requires Shape(mem0, owner, d) && !IsIT(mem0, d) && WordsOnly(mem0, mem, Bv(mem0, d))
    ensures BvLow(mem, Bv(mem0, d)) == BvLow(mem0, Bv(mem0, d)) <= First(mem0, d)
    ensures Bv(mem0, d) + 2 + Words1(mem0, Bv(mem0, d)) < |mem|
  {
  }

  // One more value is cleared in the word at a.
  lemma RemovingStep(mem0: seq<Cell>, mem: seq<Cell>, mem': seq<Cell>, owner: seq<int>, d: nat, from: int, v: int,
      a: int, w: int)
    requires Shape(mem0, owner, d) && !IsIT(mem0, d) && First(mem0, d) < from <= v < Last(mem0, d)
    requires Removing(mem0, mem, d, from, v - 1)
    requires a == WordAddr(mem, Bv(mem0, d), v) && w == ClearBit(At(mem, a), BitIndex(mem, Bv(mem0, d), v))
    requires 0 <= a < |mem| && mem' == mem[a := Num(w)]
    ensures Removing(mem0, mem', d, from, v)
  {
    var p := Bv(mem0, d);
    BlockHeader(mem0, mem, owner, d);
    WordInBlock(mem0, owner, d, v);
    assert IsWord(w) by {
      ClearBitBits(At(mem, a), BitIndex(mem, p, v), 0);
    }
    WordWritten(mem, mem', p, Words1(mem0, p), a, w);
    forall u | First(mem0, d) <= u <= Last(mem0, d) ensures BvBit(mem', p, u) <==> BvBit(mem, p, u) && u != v {
      ClearElm(mem, mem', p, v, u, a, w);
    }
  }

  lemma WordWritten(mem: seq<Cell>, mem': seq<Cell>, p: int, n: int, a: int, w: int)
    requires p + 2 <= a <= p + 2 + n && 0 <= a < |mem| && IsWord(w) && AllWords(mem, p, n) && mem' == mem[a := Num(w)]
    ensures AllWords(mem', p, n)
  {
    forall b | p + 2 <= b <= p + 2 + n ensures IsWord(At(mem', b)) {
      assert IsWord(At(mem, b));
    }
  }

  // A value whose bit is already off is cleared.
  lemma RemovingSkip(mem0: seq<Cell>, mem: seq<Cell>, d: nat, from: int, v: int)
    requires Removing(mem0, mem, d, from, v - 1) && !BvBit(mem, Bv(mem0, d), v) && from <= v
    ensures Removing(mem0, mem, d, from, v)
  {
  }

  // After clearing from..to only the size is missing.
  lemma RemovedReady(mem0: seq<Cell>, mem: seq<Cell>, owner: seq<int>, d: nat, from: int, to: int)
    requires Shape(mem0, owner, d) && !IsIT(mem0, d) && First(mem0, d) < from && to < Last(mem0, d)
    requires Removing(mem0, mem, d, from, to)
    ensures Ready(mem0, owner, mem, owner, d, Outside(Stale(mem0, d), from, to))
    ensures mem[d] == mem0[d] && Size(mem, d) == Size(mem0, d)
  {
    WordsOnlyHead(mem0, mem, owner, d);
    StaleBounds(mem0, owner, d);
    forall v | First(mem, d) <= v <= Last(mem, d)
      ensures BvBit(mem, Bv(mem, d), v) <==> v in Outside(Stale(mem0, d), from, to) {
      assert v in Stale(mem0, d) <==> InStale(mem0, d, v);
    }
  }

  lemma RemovedSize(mem: seq<Cell>, owner: seq<int>, d: nat, from: int, to: int)
    requires Shape(mem, owner, d) && !IsIT(mem, d) && First(mem, d) < from && to < Last(mem, d)
    ensures |Outside(Stale(mem, d), from, to)| == Size(mem, d) - |BitsIn(mem, Bv(mem, d), from, to)|
  {
    BetweenBits(mem, owner, d, from, to);
    assert Stale(mem, d) == Outside(Stale(mem, d), from, to) + Between(Stale(mem, d), from, to);
  }

  lemma OutsideOne(s: set<int>, v: int)
    requires v in s
    ensures |s| == |Outside(s, v, v)| + 1
  {
    assert s == Outside(s, v, v) + {v};
  }

  lemma RemovedOne(mem: seq<Cell>, mem': seq<Cell>, owner: seq<int>, d: nat, elm: int, a: int, w: int)
    requires Shape(mem, owner, d) && !IsIT(mem, d) && First(mem, d) < elm < Last(mem, d) && elm in Stale(mem, d)
    requires a == WordAddr(mem, Bv(mem, d), elm) && w == ClearBit(At(mem, a), BitIndex(mem, Bv(mem, d), elm))
    requires 0 <= a < |mem| && mem' == mem[a := Num(w)]
    ensures Ready(mem, owner, mem', owner, d, Outside(Stale(mem, d), elm, elm))
    ensures mem'[d] == mem[d] && Size(mem', d) == Size(mem, d) == |Outside(Stale(mem, d), elm, elm)| + 1
  {
    RemovingNone(mem, owner, d, elm);
    RemovingStep(mem, mem, mem', owner, d, elm, elm, a, w);
    RemovedReady(mem, mem', owner, d, elm, elm);
    OutsideOne(Stale(mem, d), elm);
  }

  // exclude_inner_elm_bv
  method ExcludeInnerElm(s: Store, d: nat, elm: int)
    requires s.Valid() && d in s.views && !IsIT(s.mem, d) && First(s.mem, d) < elm < Last(s.mem, d)
    modifies s`mem, s`trail, s`views
    ensures s.Valid()
    ensures s.views == old(s.views)[d := View(old(s.views[d].cell), Outside(old(s.views[d].described), elm, elm), true)]
  {
    assert Shape(s.mem, s.owner, d);
    var p := Bv(s.mem, d);
    var a, offset := WordAddr(s.mem, p, elm), BitIndex(s.mem, p, elm);
    WordInBlock(s.mem, s.owner, d, elm);
    var w := At(s.mem, a);
    ClearBitSame(w, offset);
    ghost var all := Stale(s.mem, d);
    assert elm in all <==> InStale(s.mem, d, elm);
    var w1 := ClearBit(w, offset);
    if w == w1 {
      assert Outside(all, elm, elm) == all;
      return;
    }
    s.Update(a, Num(w1), a < s.hb);
    RemovedOne(old(s.mem), s.mem, s.owner, d, elm, a, w1);
    FinishSize(s, old(s.mem), s.owner, d, Size(s.mem, d) - 1, Outside(all, elm, elm));
  }

  // Has the word at a been pushed since the newest choice point (or need not be)?
  ghost predicate Loose(s: Store, a: int, i: nat)
    reads s
  {
    a >= s.hb || (TrailTop(s.choices) <= i < |s.trail| && s.trail[i].addr == a)
  }

  // One value of exclude_inner_interval_bv's loop: push the word unless it was the last one pushed, then clear.
  method ClearInWord(s: Store, a: nat, w1: int, lastTrailed: int, ghost i: nat) returns (ghost i': nat)
    requires s.Sane() && a < |s.mem| && (lastTrailed == a ==> Loose(s, a, i))
    modifies s`mem, s`trail
    ensures s.Sane() && s.mem == old(s.mem)[a := Num(w1)] && Loose(s, a, i')
  {
    i' := i;
    if lastTrailed != a {
      if a < s.hb {
        i' := |s.trail|;
        assert TrailTop(s.choices) <= |s.trail| by {
          if s.choices != [] {
            assert Recovers(s.mem, s.trail, s.choices[|s.choices| - 1], s.snaps[|s.choices| - 1].mem);
          }
        }
        s.PushTrail(a);
      }
    }
    s.Write(a, Num(w1), i');
  }

  // The same in the loop: value v is out afterwards.
  method ClearNext(s: Store, ghost mem0: seq<Cell>, d: nat, ghost from: int, ghost v: int, a: nat, offset: nat,
      lastTrailed: int, ghost i: nat)
    returns (ghost i': nat)
    requires s.Sane() && Shape(mem0, s.owner, d) && !IsIT(mem0, d) && First(mem0, d) < from <= v < Last(mem0, d)
    requires Removing(mem0, s.mem, d, from, v - 1) && a < |s.mem|
    requires a == WordAddr(s.mem, Bv(mem0, d), v) && offset == BitIndex(s.mem, Bv(mem0, d), v)
    requires lastTrailed == a ==> Loose(s, a, i)
    modifies s`mem, s`trail
    ensures s.Sane() && Loose(s, a, i') && Removing(mem0, s.mem, d, from, v)
  {
    var w1 := ClearBit(At(s.mem, a), offset);
    i' := ClearInWord(s, a, w1, lastTrailed, i);
    RemovingStep(mem0, old(s.mem), s.mem, s.owner, d, from, v, a, w1);
  }

  const NULL: int := -1

  // The values from from0 up to v are out, counted in count.
  ghost predicate Clearing(s: Store, mem0: seq<Cell>, d: nat, from0: int, v: int, count: int, lastTrailed: int, i: nat)
    reads s
  {
    && s.Sane() && Removing(mem0, s.mem, d, from0, v)
    && count == Size(mem0, d) - |BitsIn(mem0, Bv(mem0, d), from0, v)|
    && (lastTrailed == NULL ==> s.mem == mem0 && count == Size(mem0, d))
    && (lastTrailed != NULL ==> 0 <= lastTrailed && Loose(s, lastTrailed, i))
  }

  // One turn of exclude_inner_interval_bv's loop: each word is pushed on the trail once, before its first change.
  method ClearTurn(s: Store, ghost mem0: seq<Cell>, d: nat, ghost from0: int, ghost v: int, a: int, offset: nat,
      count0: int, last0: int, ghost i: nat)
    returns (count: int, lastTrailed: int, ghost i': nat)
    requires Shape(mem0, s.owner, d) && !IsIT(mem0, d) && First(mem0, d) < from0 <= v < Last(mem0, d)
    requires Clearing(s, mem0, d, from0, v - 1, count0, last0, i)
    requires a == WordAddr(mem0, Bv(mem0, d), v) && offset == BitIndex(mem0, Bv(mem0, d), v)
    modifies s`mem, s`trail
    ensures Clearing(s, mem0, d, from0, v, count, lastTrailed, i')
  {
    count, lastTrailed, i' := count0, last0, i;
    ghost var p := Bv(mem0, d);
    BlockHeader(mem0, s.mem, s.owner, d);
    WordInBlock(mem0, s.owner, d, v);
    BitsInGrow(mem0, p, from0, v);
    assert BvBit(s.mem, p, v) == BvBit(mem0, p, v);
    var w := At(s.mem, a);
    TestBit(w, offset);
    if And64(w, Pow2(offset)) != 0 {
      i' := ClearNext(s, mem0, d, from0, v, a, offset, lastTrailed, i);
      lastTrailed := a;
      count := count - 1;
    } else {
      RemovingSkip(mem0, s.mem, d, from0, v);
    }
  }

  lemma ClearingStart(s: Store, d: nat, from0: int)
    requires s.Sane() && Shape(s.mem, s.owner, d) && !IsIT(s.mem, d)
    ensures Clearing(s, s.mem, d, from0, from0 - 1, Size(s.mem, d), NULL, 0)
  {
    assert BitsIn(s.mem, Bv(s.mem, d), from0, from0 - 1) == {};
  }

  method ClearInterval(s: Store, d: nat, from0: int, to: int) returns (count: int, lastTrailed: int, ghost i: nat)
    requires s.Sane() && Shape(s.mem, s.owner, d) && !IsIT(s.mem, d) && First(s.mem, d) < from0 <= to < Last(s.mem, d)
    modifies s`mem, s`trail
    ensures Clearing(s, old(s.mem), d, from0, to, count, lastTrailed, i)
  {
    ghost var mem0 := s.mem;
    var p := Bv(s.mem, d);
    var from, j, offset := from0, (from0 - BvLow(s.mem, p)) / WORD_BITS, (from0 - BvLow(s.mem, p)) % WORD_BITS;
    count := Size(s.mem, d);
    lastTrailed := NULL;
    i := 0;
    ghost var done := from0 - 1;
    ClearingStart(s, d, from0);
    while from <= to
      invariant from0 <= from <= to + 1 && done == from - 1
      invariant from == BvLow(mem0, p) + WORD_BITS * j + offset && 0 <= offset < WORD_BITS
      invariant Clearing(s, mem0, d, from0, done, count, lastTrailed, i)
    {
      BitAt(mem0, p, from, j, offset);
      count, lastTrailed, i := ClearTurn(s, mem0, d, from0, from, p + 2 + j, offset, count, lastTrailed, i);
      done := from;
      from := from + 1;
      offset := offset + 1;
      if offset == WORD_BITS {
        offset := 0;
        j := j + 1;
      }
    }
  }

  // exclude_inner_interval_bv
  method ExcludeInnerInterval(s: Store, d: nat, from: int, to: int)
    requires s.Valid() && d in s.views && !IsIT(s.mem, d) && First(s.mem, d) < from <= to < Last(s.mem, d)
    modifies s`mem, s`trail, s`views
    ensures s.Valid()
    ensures s.views == old(s.views)[d :=
        View(old(s.views[d].cell), Outside(old(s.views[d].described), from, to), true)]
  {
    assert Shape(s.mem, s.owner, d);
    ghost var all := Stale(s.mem, d);
    RemovedSize(s.mem, s.owner, d, from, to);
    var count, lastTrailed;
    ghost var i;
    count, lastTrailed, i := ClearInterval(s, d, from, to);
    if lastTrailed != NULL {
      RemovedReady(old(s.mem), s.mem, s.owner, d, from, to);
      FinishSize(s, old(s.mem), s.owner, d, count, Outside(all, from, to));
    } else {
      SubsetSize(Outside(all, from, to), all);
    }
  }
}
