// How a finite-domain variable lies in memory, and the set of values it stands for.
module Layout {
  import opened Words
  import opened Trail

  // Offsets of a variable's cells; offset 0 holds the binding.
  const TYPE: nat := 1
  const SIZE: nat := 4
  const FIRST: nat := 5
  const LAST: nat := 6
  const SIZE_OF_DV: nat := 10
  const IT_DOMAIN: int := 1

  // The number in a cell; reading outside the heap is never relied on.
  function At(mem: seq<Cell>, a: int): int {
    if 0 <= a < |mem| && mem[a].Num? then mem[a].n else 0
  }

  function First(mem: seq<Cell>, d: nat): int { At(mem, d + FIRST) }
  function Last(mem: seq<Cell>, d: nat): int { At(mem, d + LAST) }
  function Size(mem: seq<Cell>, d: nat): int { At(mem, d + SIZE) }

  // An interval domain; otherwise the type cell is the address of a bit vector.
  predicate IsIT(mem: seq<Cell>, d: nat) { At(mem, d + TYPE) == IT_DOMAIN }
  function Bv(mem: seq<Cell>, d: nat): int { At(mem, d + TYPE) }

  // A bit vector block: lowest value, highest value, words.
  function BvLow(mem: seq<Cell>, p: int): int { At(mem, p) }
  function BvUp(mem: seq<Cell>, p: int): int { At(mem, p + 1) }

  // The word and the bit of value v.
  function WordAddr(mem: seq<Cell>, p: int, v: int): int { p + 2 + (v - BvLow(mem, p)) / WORD_BITS }
  function BitIndex(mem: seq<Cell>, p: int, v: int): nat { (v - BvLow(mem, p)) % WORD_BITS }

  ghost predicate BvBit(mem: seq<Cell>, p: int, v: int) {
    On(At(mem, WordAddr(mem, p, v)), BitIndex(mem, p, v))
  }

  // v is in the domain described by first, last and the bits; bits outside the bounds are stale.
  ghost predicate InStale(mem: seq<Cell>, d: nat, v: int) {
    First(mem, d) <= v <= Last(mem, d) && (IsIT(mem, d) || BvBit(mem, Bv(mem, d), v))
  }

  // The described set. Binding a variable leaves it behind as it was.
  ghost function Stale(mem: seq<Cell>, d: nat): set<int> {
    set v: int | First(mem, d) <= v <= Last(mem, d) && InStale(mem, d, v)
  }

  predicate Bound(mem: seq<Cell>, d: nat) {
    d < |mem| && mem[d].Num?
  }

  // The block at p belongs to d, covers its bounds and holds 64-bit words.
  ghost predicate BvShape(mem: seq<Cell>, owner: seq<int>, d: nat, p: int) {
    && d + SIZE_OF_DV <= p && |owner| == |mem|
    && BvLow(mem, p) <= First(mem, d) && Last(mem, d) <= BvUp(mem, p)
    && p + 2 + (BvUp(mem, p) - BvLow(mem, p)) / WORD_BITS < |mem|
    && (forall a :: p <= a <= p + 2 + (BvUp(mem, p) - BvLow(mem, p)) / WORD_BITS ==> owner[a] == d)
    && (forall a :: p + 2 <= a <= p + 2 + (BvUp(mem, p) - BvLow(mem, p)) / WORD_BITS ==> IsWord(At(mem, a)))
  }

  // A well-formed variable: it owns its cells, its bounds are members, its size is the cardinality, at least 2.
  ghost predicate Shape(mem: seq<Cell>, owner: seq<int>, d: nat) {
    && |owner| == |mem| && d + SIZE_OF_DV <= |mem|
    && (forall a :: d <= a < d + SIZE_OF_DV ==> owner[a] == d)
    && (IsIT(mem, d) || BvShape(mem, owner, d, Bv(mem, d)))
    && First(mem, d) in Stale(mem, d) && Last(mem, d) in Stale(mem, d)
    && Size(mem, d) == |Stale(mem, d)| && 2 <= Size(mem, d)
  }

  // mem' differs from mem only in cells of d and in new cells.
  ghost predicate OnlyOf(mem: seq<Cell>, mem': seq<Cell>, owner: seq<int>, owner': seq<int>, d: int) {
    && |owner| == |mem| && |owner'| == |mem'| && |mem| <= |mem'|
    && (forall a :: 0 <= a < |mem| ==> owner'[a] == owner[a])
    && (forall a :: 0 <= a < |mem| ==> owner[a] == d || mem'[a] == mem[a])
  }

  // A variable whose cells did not change is the same variable.
  lemma ShapeFrame(mem: seq<Cell>, mem': seq<Cell>, owner: seq<int>, owner': seq<int>, d: int, e: nat)
    requires OnlyOf(mem, mem', owner, owner', d) && e != d && Shape(mem, owner, e)
    ensures Shape(mem', owner', e) && Stale(mem', e) == Stale(mem, e) && mem'[e] == mem[e]
    ensures IsIT(mem', e) == IsIT(mem, e)
  {
    CellsFrame(mem, mem', owner, owner', d, e);
    if !IsIT(mem, e) {
      var p := Bv(mem, e);
      BlockFrame(mem, mem', owner, owner', d, e);
      forall v | First(mem, e) <= v <= Last(mem, e) ensures BvBit(mem', p, v) == BvBit(mem, p, v) {
        WordInBlock(mem, owner, e, v);
      }
    }
    assert Stale(mem', e) == Stale(mem, e);
  }

  lemma CellsFrame(mem: seq<Cell>, mem': seq<Cell>, owner: seq<int>, owner': seq<int>, d: int, e: nat)
    requires OnlyOf(mem, mem', owner, owner', d) && e != d && Shape(mem, owner, e)
    ensures forall a :: e <= a < e + SIZE_OF_DV ==> At(mem', a) == At(mem, a) && owner'[a] == e
    ensures mem'[e] == mem[e]
  {
  }

  lemma BlockFrame(mem: seq<Cell>, mem': seq<Cell>, owner: seq<int>, owner': seq<int>, d: int, e: nat)
    requires OnlyOf(mem, mem', owner, owner', d) && e != d && Shape(mem, owner, e) && !IsIT(mem, e)
    ensures Bv(mem', e) == Bv(mem, e)
    ensures var p := Bv(mem, e); BvLow(mem', p) == BvLow(mem, p) && BvUp(mem', p) == BvUp(mem, p)
    ensures var p := Bv(mem, e);
      forall a :: p <= a <= p + 2 + (BvUp(mem, p) - BvLow(mem, p)) / WORD_BITS ==>
          At(mem', a) == At(mem, a) && owner'[a] == e
    ensures BvShape(mem', owner', e, Bv(mem', e))
  {
    CellsFrame(mem, mem', owner, owner', d, e);
    var p := Bv(mem, e);
    assert owner[p] == e && owner[p + 1] == e;
  }

  // The word of every value between the block's bounds lies in the block.
  lemma WordInBlock(mem: seq<Cell>, owner: seq<int>, d: nat, v: int)
    requires BvShape(mem, owner, d, Bv(mem, d)) && BvLow(mem, Bv(mem, d)) <= v <= BvUp(mem, Bv(mem, d))
    ensures var p := Bv(mem, d);
      p + 2 <= WordAddr(mem, p, v) <= p + 2 + (BvUp(mem, p) - BvLow(mem, p)) / WORD_BITS
  {
    DivMono(v - BvLow(mem, Bv(mem, d)), BvUp(mem, Bv(mem, d)) - BvLow(mem, Bv(mem, d)));
  }

  lemma DivMono(x: int, y: int)
    requires 0 <= x <= y
    ensures 0 <= x / WORD_BITS <= y / WORD_BITS
  {
  }
}
