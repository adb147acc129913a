// Reading bit vectors: membership, next and previous member, counting.
module BitScan {
  import opened Powers
  import opened Words
  import opened Trail
  import opened Layout

  // The value of bit b in word j, and back.
  lemma BitAt(mem: seq<Cell>, p: int, v: int, j: int, b: nat)
    requires v == BvLow(mem, p) + WORD_BITS * j + b && b < WORD_BITS
    ensures WordAddr(mem, p, v) == p + 2 + j && BitIndex(mem, p, v) == b
    ensures BvBit(mem, p, v) == On(At(mem, p + 2 + j), b)
  {
    assert v - BvLow(mem, p) == WORD_BITS * j + b;
  }

  // None of the values from r on, up to but excluding s, is in the vector.
  ghost predicate NoneIn(mem: seq<Cell>, p: int, r: int, s: int) {
    forall v :: r <= v < s ==> !BvBit(mem, p, v)
  }

  ghost predicate NoneOn(w: int, lo: nat, hi: nat) {
    forall i: nat :: lo <= i < hi ==> !On(w, i)
  }

  lemma ChunkEmpty(mem: seq<Cell>, p: int, r: int, j: int, offset: nat, k: nat)
    requires r == BvLow(mem, p) + WORD_BITS * j + offset && offset + k <= WORD_BITS
    requires NoneOn(At(mem, p + 2 + j), offset, offset + k)
    ensures NoneIn(mem, p, r, r + k)
  {
    forall v | r <= v < r + k ensures !BvBit(mem, p, v) {
      BitAt(mem, p, v, j, offset + (v - r));
    }
  }

  lemma ZeroWordEmpty(mem: seq<Cell>, p: int, r: int, j: int)
    requires r == BvLow(mem, p) + WORD_BITS * j && At(mem, p + 2 + j) == 0
    ensures NoneIn(mem, p, r, r + WORD_BITS)
  {
    NoBits(0) by {
      assert IsWord(0) by {
        Pow2Mono(0, WORD_BITS);
      }
    }
    ChunkEmpty(mem, p, r, j, 0, WORD_BITS);
  }

  ghost predicate WordsUpTo(mem: seq<Cell>, p: int, t: int) {
    forall a :: p + 2 <= a <= WordAddr(mem, p, t) ==> IsWord(At(mem, a))
  }

  lemma SameWordOrLater(mem: seq<Cell>, p: int, r: int, j: int, offset: nat, t: int)
    requires r == BvLow(mem, p) + WORD_BITS * j + offset && offset < WORD_BITS && r <= t
    ensures p + 2 + j <= WordAddr(mem, p, t)
  {
    BitAt(mem, p, r, j, offset);
    assert BvLow(mem, p) + WORD_BITS * ((t - BvLow(mem, p)) / WORD_BITS) + WORD_BITS > t;
  }

  // From position (r, word j, offset) to the next nonempty rest of a word.
  method NextInWord(mem: seq<Cell>, p: int, elm: int, ghost t: int) returns (r: int, j: int, offset: nat, ghost q: nat)
    requires BvLow(mem, p) <= elm <= t && BvBit(mem, p, t) && WordsUpTo(mem, p, t)
    ensures elm <= r <= t && NoneIn(mem, p, elm, r)
    ensures r == BvLow(mem, p) + WORD_BITS * j + offset && 0 <= j && offset <= q < WORD_BITS
    ensures On(At(mem, p + 2 + j), q)
  {
    offset := (elm - BvLow(mem, p)) % WORD_BITS;
    j := (elm - BvLow(mem, p)) / WORD_BITS;
    r := elm;
    var w := At(mem, p + 2 + j);
    NoBitsFrom(w, offset);
    if And64(w, BitsFrom(offset)) == 0 {
      ChunkEmpty(mem, p, elm, j, offset, WORD_BITS - offset);
      j := j + 1;
      w := At(mem, p + 2 + j);
      r := r + WORD_BITS - offset;
      offset := 0;
      while w == 0
        invariant 0 <= j && r == BvLow(mem, p) + WORD_BITS * j && w == At(mem, p + 2 + j)
        invariant elm <= r <= t && NoneIn(mem, p, elm, r)
        decreases t - r
      {
        ZeroWordEmpty(mem, p, r, j);
        j := j + 1;
        w := At(mem, p + 2 + j);
        r := r + WORD_BITS;
      }
      SameWordOrLater(mem, p, r, j, 0, t);
      q := SomeBit(w, WORD_BITS);
      assert On(w, q);
    } else {
      q :| offset <= q < WORD_BITS && On(w, q);
    }
  }

  // From a nonempty rest of a word to its lowest bit, bytes first.
  method NextInElm(mem: seq<Cell>, p: int, r0: int, j: int, offset0: nat, ghost q: nat) returns (r: int)
    requires r0 == BvLow(mem, p) + WORD_BITS * j + offset0 && offset0 <= q < WORD_BITS
    requires On(At(mem, p + 2 + j), q)
    ensures r0 <= r <= r0 + (q - offset0) && BvBit(mem, p, r) && NoneIn(mem, p, r0, r)
  {
    var w, offset := At(mem, p + 2 + j), offset0;
    r := r0;
    NoBitsInByte(w, offset);
    while And64(w, ByteMask(offset)) == 0
      invariant offset0 <= offset <= q && r == r0 + (offset - offset0) && NoneIn(mem, p, r0, r)
      invariant And64(w, ByteMask(offset)) == 0 <==>
        forall i: nat :: offset <= i < offset + 8 && i < WORD_BITS ==> !On(w, i)
      decreases q - offset
    {
      ChunkEmpty(mem, p, r, j, offset, 8);
      offset := offset + 8;
      r := r + 8;
      NoBitsInByte(w, offset);
    }
    TestBit(w, offset);
    while And64(w, Pow2(offset)) == 0
      invariant offset0 <= offset <= q && r == r0 + (offset - offset0) && NoneIn(mem, p, r0, r)
      invariant And64(w, Pow2(offset)) != 0 <==> On(w, offset)
      decreases q - offset
    {
      BitAt(mem, p, r, j, offset);
      r := r + 1;
      offset := offset + 1;
      TestBit(w, offset);
    }
    BitAt(mem, p, r, j, offset);
  }

  // domain_next_bv: the least member from elm on, when there is one.
  method DomainNextBv(mem: seq<Cell>, p: int, elm: int, ghost t: int) returns (r: int)
    requires BvLow(mem, p) <= elm <= t && BvBit(mem, p, t) && WordsUpTo(mem, p, t)
    ensures elm <= r <= t && BvBit(mem, p, r) && NoneIn(mem, p, elm, r)
  {
    var j, offset;
    ghost var q;
    r, j, offset, q := NextInWord(mem, p, elm, t);
    r := NextInElm(mem, p, r, j, offset, q);
  }

  // From position (r, word j, offset) back to the previous nonempty beginning of a word.
  method PrevInWord(mem: seq<Cell>, p: int, elm: int, ghost t: int) returns (r: int, j: int, offset: nat, ghost q: nat)
    requires BvLow(mem, p) <= t <= elm && BvBit(mem, p, t)
    ensures t <= r <= elm && NoneIn(mem, p, r + 1, elm + 1)
    ensures r == BvLow(mem, p) + WORD_BITS * j + offset && q <= offset < WORD_BITS
    ensures On(At(mem, p + 2 + j), q)
  {
    offset := (elm - BvLow(mem, p)) % WORD_BITS;
    j := (elm - BvLow(mem, p)) / WORD_BITS;
    r := elm;
    var w := At(mem, p + 2 + j);
    NoBitsUpTo(w, offset);
    while And64(w, BitsUpTo(offset)) == 0
      invariant r == BvLow(mem, p) + WORD_BITS * j + offset && offset < WORD_BITS && w == At(mem, p + 2 + j)
      invariant t <= r <= elm && NoneIn(mem, p, r + 1, elm + 1)
      invariant And64(w, BitsUpTo(offset)) == 0 <==> forall i: nat :: i <= offset ==> !On(w, i)
      decreases r - t
    {
      ChunkEmpty(mem, p, r - offset, j, 0, offset + 1);
      j := j - 1;
      w := At(mem, p + 2 + j);
      r := r - offset - 1;
      offset := WORD_BITS - 1;
      NoBitsUpTo(w, offset);
    }
    q :| q <= offset && On(w, q);
  }

  method PrevInElm(mem: seq<Cell>, p: int, r0: int, j: int, offset0: nat, ghost q: nat) returns (r: int)
    requires r0 == BvLow(mem, p) + WORD_BITS * j + offset0 && q <= offset0 < WORD_BITS
    requires On(At(mem, p + 2 + j), q)
    ensures r0 - (offset0 - q) <= r <= r0 && BvBit(mem, p, r) && NoneIn(mem, p, r + 1, r0 + 1)
  {
    var w, offset := At(mem, p + 2 + j), offset0;
    r := r0;
    TestBit(w, offset);
    while And64(w, Pow2(offset)) == 0
      invariant q <= offset <= offset0 && r == r0 - (offset0 - offset) && NoneIn(mem, p, r + 1, r0 + 1)
      invariant And64(w, Pow2(offset)) != 0 <==> On(w, offset)
      decreases offset
    {
      BitAt(mem, p, r, j, offset);
      r := r - 1;
      offset := offset - 1;
      TestBit(w, offset);
    }
    BitAt(mem, p, r, j, offset);
  }

  // domain_prev_bv: the greatest member down from elm, when there is one.
  method DomainPrevBv(mem: seq<Cell>, p: int, elm: int, ghost t: int) returns (r: int)
    requires BvLow(mem, p) <= t <= elm && BvBit(mem, p, t)
    ensures t <= r <= elm && BvBit(mem, p, r) && NoneIn(mem, p, r + 1, elm + 1)
  {
    var j, offset;
    ghost var q;
    r, j, offset, q := PrevInWord(mem, p, elm, t);
    r := PrevInElm(mem, p, r, j, offset, q);
  }

  // The bit test of dm_true_bv_nbt.
  method TestElm(mem: seq<Cell>, p: int, elm: int) returns (r: bool)
    ensures r == BvBit(mem, p, elm)
  {
    var w, offset := At(mem, WordAddr(mem, p, elm)), BitIndex(mem, p, elm);
    TestBit(w, offset);
    r := And64(w, Pow2(offset)) != 0;
  }

  // dm_true
  method DmTrue(mem: seq<Cell>, ghost owner: seq<int>, d: nat, elm: int) returns (r: bool)
    requires Shape(mem, owner, d)
    ensures r == (elm in Stale(mem, d))
  {
    assert InStale(mem, d, elm) == (elm in Stale(mem, d));
    if elm <= First(mem, d) {
      return elm == First(mem, d);
    }
    if elm >= Last(mem, d) {
      return elm == Last(mem, d);
    }
    if IsIT(mem, d) {
      return true;
    }
    r := TestElm(mem, Bv(mem, d), elm);
  }

  // The values from..to whose bit is on.
  ghost function BitsIn(mem: seq<Cell>, p: int, from: int, to: int): set<int> {
    set v: int | from <= v <= to && BvBit(mem, p, v)
  }

  lemma BitsInGrow(mem: seq<Cell>, p: int, from: int, to: int)
    requires from <= to
    ensures |BitsIn(mem, p, from, to)| == |BitsIn(mem, p, from, to - 1)| + if BvBit(mem, p, to) then 1 else 0
  {
    if BvBit(mem, p, to) {
      assert BitsIn(mem, p, from, to) == BitsIn(mem, p, from, to - 1) + {to};
    } else {
      assert BitsIn(mem, p, from, to) == BitsIn(mem, p, from, to - 1);
    }
  }

  // count_domain_elms
  method CountDomainElms(mem: seq<Cell>, p: int, from0: int, to: int) returns (count: nat)
    requires BvLow(mem, p) <= from0
    ensures count == |BitsIn(mem, p, from0, to)|
  {
    var from, offset, j := from0, (from0 - BvLow(mem, p)) % WORD_BITS, (from0 - BvLow(mem, p)) / WORD_BITS;
    var w := At(mem, p + 2 + j);
    count := 0;
    assert BitsIn(mem, p, from0, from0 - 1) == {};
    while from <= to
      invariant from0 <= from && (from <= to + 1 || from == from0)
      invariant from == BvLow(mem, p) + WORD_BITS * j + offset && 0 <= offset < WORD_BITS && w == At(mem, p + 2 + j)
      invariant count == |BitsIn(mem, p, from0, from - 1)|
    {
      TestBit(w, offset);
      BitAt(mem, p, from, j, offset);
      BitsInGrow(mem, p, from0, from);
      if And64(w, Pow2(offset)) != 0 {
        count := count + 1;
      }
      offset := offset + 1;
      if offset == WORD_BITS {
        offset := 0;
        j := j + 1;
        w := At(mem, p + 2 + j);
      }
      from := from + 1;
    }
    if from == from0 {
      assert BitsIn(mem, p, from0, to) == {};
    }
  }
}
