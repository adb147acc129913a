// Multiplication by shift-and-add, division by shift-and-subtract.
module UMulDiv {
  import opened Powers
  import opened Digits
  import opened Bits
  import opened UBig
  import opened Shifts

  // The weight of `y << (i blocks and i2 bits)`.
  ghost function Weight(y: int, i: nat, i2: nat): int {
    BasePow(i) * (y * Pow2(i2))
  }

  // r + k * (y << (i blocks and i2 bits)), digit by digit and not normalised.
  ghost function WithShift(r: seq<int>, y: seq<int>, i: nat, i2: nat, k: int): (w: seq<int>)
    requires i2 < 28 && i + |y| < |r|
    ensures |w| == |r|
    ensures forall t :: 0 <= t < i || i + |y| < t < |r| ==> w[t] == r[t]
    ensures forall t :: i <= t <= i + |y| ==> w[t] == r[t] + k * ShiftedDigit(Below(y, t - i), Here(y, t - i), i2)
  {
    Plus(r, Zeros(i) + Shifted(y, i2), k)
  }

  lemma WithShiftValue(r: seq<int>, y: seq<int>, i: nat, i2: nat, k: int)
    requires i2 < 28 && i + |y| < |r| && AllDigits(y)
    ensures Val(WithShift(r, y, i, i2, k)) == Val(r) + k * Weight(Val(y), i, i2)
  {
    ShiftedValue(y, i2);
    ValLift(Shifted(y, i2), i);
    ValPlus(r, Zeros(i) + Shifted(y, i2), k);
  }

  // A digit that GetShiftedDigit reads.
  lemma ReadsShifted(y: array<int>, ysize: nat, j: nat, i2: nat)
    requires Holds(y, ysize) && j <= ysize && i2 < 28
    ensures GetShiftedDigit(ysize, y, j, i2) == ShiftedDigit(Below(y[..ysize], j), Here(y[..ysize], j), i2)
    ensures IsDigit(GetShiftedDigit(ysize, y, j, i2))
  {
    ShiftStep(Below(y[..ysize], j), Here(y[..ysize], j), i2);
  }

  // If a carry left the product array, the sum would not fit: it never does.
  lemma CarryFits(z: seq<int>, w: seq<int>, c: seq<int>)
    requires |z| == |w| && 0 < |c| <= |z| + 1 && AllDigits(z) && Val(w) < BasePow(|z|)
    requires forall k :: 0 <= k < |c| - 1 ==> CarryAt(z[k], w[k], c, k)
    requires c[0] == 0 && c[|c| - 1] == 1
    ensures |c| - 1 < |z|
  {
    if |c| == |z| + 1 {
      CarryChain(z, w, c);
      ValBound(z);
    }
  }

  // Adds the shifted y to its window of z.
  method AddWindow(i: nat, i2: nat, ysize: nat, y: array<int>, zsize: nat, z: array<int>, ghost w: seq<int>)
    returns (k: nat, carry: int, ghost c: seq<int>)
    requires i2 < 28 && Holds(y, ysize) && Holds(z, zsize) && y != z && i + ysize < zsize
    requires w == WithShift(z[..zsize], y[..ysize], i, i2, 1)
    modifies z
    ensures k == i + ysize + 1 && |c| == k + 1 && c[0] == 0 && c[k] == carry && 0 <= carry <= 1
    ensures Holds(z, zsize)
    ensures forall t :: 0 <= t < k ==> CarryAt(z[t], w[t], c, t)
    ensures forall t :: k <= t < zsize ==> z[t] == w[t]
  {
    carry, c := 0, Zeros(i + 1);
    var j := 0;
    k := i;
    while j <= ysize
      invariant 0 <= j <= ysize + 1 && k == i + j
      invariant |c| == k + 1 && c[0] == 0 && c[k] == carry && 0 <= carry <= 1
      invariant Holds(z, zsize)
      invariant forall t :: 0 <= t < k ==> CarryAt(z[t], w[t], c, t)
      invariant forall t :: k <= t < zsize ==> z[t] == old(z[t])
    {
      ReadsShifted(y, ysize, j, i2);
      z[k], carry := SplitCarry(z[k] + GetShiftedDigit(ysize, y, j, i2) + carry);
      c := c + [carry];
      j, k := j + 1, k + 1;
    }
  }

  // z := z + (y << (i blocks and i2 bits)); the carry stops inside the array.
  method AddShifted(i: nat, i2: nat, ysize: nat, y: array<int>, zsize: nat, z: array<int>)
    requires i2 < 28 && Holds(y, ysize) && Holds(z, zsize) && y != z && i + ysize < zsize
    requires Value(z, zsize) + Weight(Value(y, ysize), i, i2) < BasePow(zsize)
    modifies z
    ensures Holds(z, zsize)
    ensures Value(z, zsize) == old(Value(z, zsize)) + Weight(Value(y, ysize), i, i2)
  {
    ghost var w := WithShift(z[..zsize], y[..ysize], i, i2, 1);
    WithShiftValue(z[..zsize], y[..ysize], i, i2, 1) by { TrimIsNormal(y, ysize); }
    var k, carry, c := AddWindow(i, i2, ysize, y, zsize, z, w);
    while carry == 1
      invariant k <= zsize && |c| == k + 1 && c[0] == 0 && c[k] == carry && 0 <= carry <= 1
      invariant Holds(z, zsize)
      invariant forall t :: 0 <= t < k ==> CarryAt(z[t], w[t], c, t)
      invariant forall t :: k <= t < zsize ==> z[t] == w[t]
      decreases zsize - k + carry
    {
      CarryFits(z[..zsize], w, c);
      z[k], carry := SplitCarry(z[k] + 1);
      c := c + [carry];
      k := k + 1;
    }
    CarryPrefix(z[..zsize], w, c);
  }

  // The part of x made of its first i digits and the low i2 bits of digit i.
  ghost function Partial(x: seq<int>, i: nat, i2: nat): int
    requires i <= |x|
  {
    Val(x[..i]) + if i < |x| then BasePow(i) * LowBits(x[i], i2) else 0
  }

  lemma PartialStep(x: seq<int>, i: nat, i2: nat)
    requires i < |x|
    ensures Partial(x, i, i2 + 1) == Partial(x, i, i2) + if Bit(x[i], i2) then BasePow(i) * Pow2(i2) else 0
  {
    LowBitsStep(x[i], i2);
    MulDistrib(BasePow(i), LowBits(x[i], i2), Pow2(i2));
  }

  lemma PartialDigit(x: seq<int>, i: nat)
    requires i < |x| && IsDigit(x[i])
    ensures Partial(x, i, 28) == Partial(x, i + 1, 0)
  {
    Pow2Values();
    LowBitsAll(x[i], 28);
    ValSnoc(x, i);
  }

  lemma PartialBound(x: seq<int>, i: nat, i2: nat)
    requires AllDigits(x) && i < |x|
    ensures 0 <= Partial(x, i, i2) <= Val(x)
  {
    ValSnoc(x, i);
    ValPrefix(x, i + 1);
    ValBound(x[..i]);
    MulMono(LowBits(x[i], i2), x[i], BasePow(i));
    MulMono(0, LowBits(x[i], i2), BasePow(i));
  }

  lemma ProductBound(x: int, y: int, p: nat, q: nat)
    requires 0 <= x < p && 0 <= y < q
    ensures x * y < p * q
  {
    MulMono(x, p, y);
    MulStrict(y, q, p);
  }

  // Room for one more shifted addend: partial products never exceed the product.
  lemma PartialProduct(x: seq<int>, y: seq<int>, i: nat, i2: nat)
    requires AllDigits(x) && AllDigits(y) && i < |x| && Bit(x[i], i2)
    ensures Partial(x, i, i2 + 1) * Val(y) == Partial(x, i, i2) * Val(y) + Weight(Val(y), i, i2)
    ensures Partial(x, i, i2 + 1) * Val(y) < BasePow(|x| + |y|)
  {
    PartialStep(x, i, i2);
    var p, e, v := BasePow(i), Pow2(i2), Val(y);
    MulDistrib(v, Partial(x, i, i2), p * e);
    assert (p * e) * v == p * (v * e) by { MulAssoc(p, e, v); }
    PartialBound(x, i, i2 + 1);
    ValBound(x);
    ValBound(y);
    BasePowAdd(|x|, |y|);
    ProductBound(Partial(x, i, i2 + 1), v, BasePow(|x|), BasePow(|y|));
  }

  // Digit i of x: adds y << (i, i2) for each of its one bits.
  method MulDigit(i: nat, xsize: nat, x: array<int>, ysize: nat, y: array<int>, z: array<int>)
    requires Holds(x, xsize) && Holds(y, ysize) && i < xsize && 0 < ysize && z != x && z != y
    requires Holds(z, xsize + ysize) && Value(z, xsize + ysize) == Partial(x[..xsize], i, 0) * Value(y, ysize)
    modifies z
    ensures Holds(z, xsize + ysize)
    ensures Value(z, xsize + ysize) == Partial(x[..xsize], i + 1, 0) * Value(y, ysize)
  {
    ghost var xs, ys := x[..xsize], y[..ysize];
    TrimIsNormal(x, xsize);
    TrimIsNormal(y, ysize);
    for i2 := 0 to 28
      invariant Holds(z, xsize + ysize)
      invariant Value(z, xsize + ysize) == Partial(xs, i, i2) * Val(ys)
    {
      AndWithBit(x[i], i2, 28);
      PartialStep(xs, i, i2);
      if Bitwise(And, x[i], Pow2(i2), 28) == 0 {
        continue;
      }
      PartialProduct(xs, ys, i, i2);
      AddShifted(i, i2, ysize, y, xsize + ysize, z);
    }
    PartialDigit(xs, i);
  }

  // z := x * y for x, y > 0; one possible leading zero is dropped.
  method Mul(xsize: nat, x: array<int>, ysize: nat, y: array<int>, z: array<int>) returns (zsize: nat)
    requires Trim(x, xsize) && Trim(y, ysize) && 0 < xsize && 0 < ysize
    requires xsize + ysize <= z.Length && z != x && z != y
    modifies z
    ensures Trim(z, zsize) && Value(z, zsize) == Value(x, xsize) * Value(y, ysize)
  {
    zsize := xsize + ysize;
    for i := 0 to zsize
      invariant forall k :: 0 <= k < i ==> z[k] == 0
    {
      z[i] := 0;
    }
    ValZeros(z[..zsize]);
    for i := 0 to xsize
      invariant Holds(z, zsize) && Value(z, zsize) == Partial(x[..xsize], i, 0) * Value(y, ysize)
    {
      MulDigit(i, xsize, x, ysize, y, z);
    }
    assert x[..xsize][..xsize] == x[..xsize];
    zsize := DropOneZero(zsize, z, xsize, x, ysize, y);
  }

  // For normalised operands the product has at most one leading zero.
  method DropOneZero(n: nat, z: array<int>, xsize: nat, x: array<int>, ysize: nat, y: array<int>) returns (zsize: nat)
    requires Trim(x, xsize) && Trim(y, ysize) && 0 < xsize && 0 < ysize && n == xsize + ysize
    requires Holds(z, n) && Value(z, n) == Value(x, xsize) * Value(y, ysize)
    ensures Trim(z, zsize) && Value(z, zsize) == Value(z, n)
  {
    zsize := n;
    if z[n - 1] == 0 {
      zsize := n - 1;
      ValSnoc(z[..n], n - 1);
      assert z[..n][..n - 1] == z[..n - 1] && z[..n][..n] == z[..n];
      TrimIsNormal(x, xsize);
      TrimIsNormal(y, ysize);
      ProductSize(x[..xsize], y[..ysize]);
      ValTop(z[..n - 1]);
    }
  }

  lemma ProductSize(x: seq<int>, y: seq<int>)
    requires Normal(x) && Normal(y) && 0 < |x| && 0 < |y|
    ensures Val(x) * Val(y) >= BasePow(|x| + |y| - 2)
  {
    ValLower(x);
    ValLower(y);
    BasePowAdd(|x| - 1, |y| - 1);
    MulMono(BasePow(|x| - 1), Val(x), BasePow(|y| - 1));
    MulMono(BasePow(|y| - 1), Val(y), Val(x));
  }

  // The borrow out of the window decides, because everything above the window is zero.
  lemma BorrowDecides(z: seq<int>, w: seq<int>, c: seq<int>, borrow: int)
    requires |z| == |w| && 0 < |c| <= |z| + 1 && AllDigits(z) && 0 <= borrow <= 1
    requires c[0] == 0 && c[|c| - 1] == -borrow
    requires forall t :: 0 <= t < |c| - 1 ==> CarryAt(z[t], w[t], c, t)
    requires forall t :: |c| - 1 <= t < |z| ==> z[t] == 0 && w[t] == 0
    ensures borrow == 0 ==> Val(w) == Val(z)
    ensures borrow == 0 <==> Val(w) >= 0
  {
    if borrow == 0 {
      CarryPrefix(z, w, c);
      ValBound(z);
    } else {
      BorrowIsNegative(z, w, c);
    }
  }

  lemma BorrowIsNegative(z: seq<int>, w: seq<int>, c: seq<int>)
    requires |z| == |w| && 0 < |c| <= |z| + 1 && AllDigits(z)
    requires c[0] == 0 && c[|c| - 1] == -1
    requires forall t :: 0 <= t < |c| - 1 ==> CarryAt(z[t], w[t], c, t)
    requires forall t :: |c| - 1 <= t < |z| ==> w[t] == 0
    ensures Val(w) < 0
  {
    var k := |c| - 1;
    var z', w' := z[..k], w[..k];
    CarryChain(z', w', c);
    ValBound(z');
    ValSplit(w, k);
    ValZeros(w[k..]);
  }

  // Subtracts the shifted y from its window of r, into buf.
  method SubWindow(i: nat, i2: nat, ysize: nat, y: array<int>, rsize: nat, r: array<int>, buf: array<int>,
      ghost w: seq<int>)
    returns (k: nat, borrow: int, ghost c: seq<int>)
    requires i2 < 28 && Holds(y, ysize) && Holds(r, rsize) && rsize <= buf.Length && buf != y && buf != r
    requires i + ysize < rsize && w == WithShift(r[..rsize], y[..ysize], i, i2, -1)
    modifies buf
    ensures k == i + ysize + 1 && |c| == k + 1 && c[k] == -borrow && 0 <= borrow <= 1
    ensures forall t :: 0 <= t <= i ==> c[t] == 0
    ensures forall t :: i <= t < k ==> IsDigit(buf[t]) && CarryAt(buf[t], w[t], c, t)
  {
    borrow, c := 0, Zeros(i + 1);
    var j := 0;
    k := i;
    while j <= ysize
      invariant 0 <= j <= ysize + 1 && k == i + j
      invariant |c| == k + 1 && c[k] == -borrow && 0 <= borrow <= 1
      invariant forall t :: 0 <= t <= i ==> c[t] == 0
      invariant forall t :: i <= t < k ==> IsDigit(buf[t]) && CarryAt(buf[t], w[t], c, t)
    {
      ReadsShifted(y, ysize, j, i2);
      buf[k], borrow := SplitBorrow(r[k] - GetShiftedDigit(ysize, y, j, i2) - borrow);
      c := c + [-borrow];
      j, k := j + 1, k + 1;
    }
  }

  // r with its window [i, k) replaced by that of buf.
  ghost function Spliced(r: seq<int>, buf: seq<int>, i: nat, k: nat): (z: seq<int>)
    requires i <= k <= |r| && k <= |buf|
    ensures |z| == |r|
    ensures forall t :: 0 <= t < |r| ==> z[t] == if i <= t < k then buf[t] else r[t]
  {
    r[..i] + buf[i..k] + r[k..]
  }

  // Borrow 0: y << (i, i2) fits and buf holds the window of the difference. Borrow 1: it does not fit.
  ghost predicate TrialOutcome(r: seq<int>, y: seq<int>, buf: seq<int>, i: nat, i2: nat, borrow: int)
    requires i + |y| < |r| <= |buf|
  {
    && borrow == (if Weight(Val(y), i, i2) <= Val(r) then 0 else 1)
    && var z := Spliced(r, buf, i, i + |y| + 1);
       (borrow == 0 ==> AllDigits(z) && Val(z) == Val(r) - Weight(Val(y), i, i2))
  }

  // What the trial subtraction of one shifted y leaves, and what its borrow means.
  lemma TrialResult(r: seq<int>, y: seq<int>, buf: seq<int>, i: nat, i2: nat, c: seq<int>, borrow: int)
    requires i2 < 28 && i + |y| < |r| <= |buf| && AllDigits(y) && AllDigits(r) && Val(r) < BasePow(i + |y| + 1)
    requires |c| == i + |y| + 2 && c[|c| - 1] == -borrow && 0 <= borrow <= 1
    requires forall t :: 0 <= t <= i ==> c[t] == 0
    requires forall t :: i <= t <= i + |y| ==> IsDigit(buf[t]) && CarryAt(buf[t], WithShift(r, y, i, i2, -1)[t], c, t)
    ensures TrialOutcome(r, y, buf, i, i2, borrow)
    ensures forall t :: i + |y| < t < |r| ==> r[t] == 0
  {
    var w, z := WithShift(r, y, i, i2, -1), Spliced(r, buf, i, i + |y| + 1);
    WithShiftValue(r, y, i, i2, -1);
    ValSmall(r, i + |y| + 1);
    forall t | 0 <= t < |c| - 1 ensures CarryAt(z[t], w[t], c, t) {
      if t < i {
        assert c[t] == 0 && c[t + 1] == 0;
      }
    }
    BorrowDecides(z, w, c, borrow);
  }

  // The trial subtraction r - (y << (i, i2)). Its borrow tells whether y << (i, i2) goes into r.
  method TrySubtract(i: nat, i2: nat, ysize: nat, y: array<int>, xsize: nat, r: array<int>, buf: array<int>)
    returns (k: nat, borrow: int)
    requires i2 < 28 && Holds(y, ysize) && Holds(r, xsize + 1) && xsize < buf.Length && buf != y && buf != r
    requires i + ysize <= xsize && Value(r, xsize + 1) < BasePow(i + ysize + 1)
    modifies buf
    ensures borrow == 0 ==> k == i + ysize + 1
    ensures TrialOutcome(r[..xsize + 1], y[..ysize], buf[..], i, i2, borrow)
  {
    ghost var rs, ys := r[..xsize + 1], y[..ysize];
    assert AllDigits(rs) && AllDigits(ys);
    ghost var c;
    k, borrow, c := SubWindow(i, i2, ysize, y, xsize + 1, r, buf, WithShift(rs, ys, i, i2, -1));
    TrialResult(rs, ys, buf[..], i, i2, c, borrow);
    ghost var sub := buf[..];
    k, borrow := BorrowAbove(k, xsize, r, buf, borrow);
    assert borrow == 0 ==> buf[..] == sub;
  }

  // Above the window r is zero, so a borrow only meets zeros and comes out again.
  method BorrowAbove(k0: nat, xsize: nat, r: array<int>, buf: array<int>, borrow0: int) returns (k: nat, borrow: int)
    requires k0 <= xsize + 1 && xsize < r.Length && xsize < buf.Length && r != buf && 0 <= borrow0 <= 1
    requires forall t :: k0 <= t <= xsize ==> r[t] == 0
    modifies buf
    ensures borrow == borrow0 && (borrow == 0 ==> k == k0 && buf[..] == old(buf[..]))
  {
    k, borrow := k0, borrow0;
    while k < xsize && borrow == 1
      invariant k0 <= k <= xsize + 1 && borrow == borrow0
      invariant borrow == 0 ==> k == k0 && buf[..] == old(buf[..])
    {
      buf[k], borrow := SplitBorrow(r[k] - 1);
      k := k + 1;
    }
  }

  // Division with the remainder already below `bound`.
  ghost predicate DivState(x: int, q: seq<int>, y: int, r: seq<int>, bound: int) {
    && AllDigits(q) && AllDigits(r)
    && x == Val(q) * y + Val(r)
    && Val(r) < bound
  }

  lemma WeightIsShift(y: int, i: nat, i2: nat)
    ensures Weight(y, i, i2) == (BasePow(i) * Pow2(i2)) * y
    ensures Weight(y, i, i2 + 1) == 2 * Weight(y, i, i2)
  {
    var p, e := BasePow(i), Pow2(i2);
    assert p * (y * e) == (p * e) * y by { MulAssoc(p, y, e); MulAssoc(p, e, y); }
    assert p * (y * (2 * e)) ==
        2 * (p * (y * e)) by { MulAssoc(y, 2, e); MulAssoc(2, y, e); MulAssoc(p, 2, y * e); MulAssoc(2, p, y * e); }
  }

  // The remainder fits in the window of the next shift.
  lemma WindowBound(y: seq<int>, i: nat, i2: nat)
    requires AllDigits(y) && i2 < 28
    ensures Weight(Val(y), i, i2 + 1) <= BasePow(i + |y| + 1)
  {
    ValBound(y);
    assert Pow2(i2 + 1) <= BASE by { Pow2Mono(i2 + 1, 28); Pow2Values(); }
    MulMono(Pow2(i2 + 1), BASE, Val(y));
    MulMono(Val(y), BasePow(|y|), BASE);
    MulMono(Val(y) * Pow2(i2 + 1), BasePow(|y| + 1), BasePow(i));
    BasePowAdd(i, |y| + 1);
  }

  lemma DivArith(x: int, q: int, y: int, r: int, w: int, b: int, q': int, r': int)
    requires x == q * y + r && w == b * y
    requires if w <= r then r' == r - w && q' == q + b else r' == r && q' == q
    ensures x == q' * y + r'
  {
    MulDistrib(y, q, b);
  }

  // Whichever way the trial of the weight w = b*y goes, the bound is halved.
  lemma DivStep(x: int, q: seq<int>, y: int, r: seq<int>, w: int, b: int, q': seq<int>, r': seq<int>)
    requires DivState(x, q, y, r, 2 * w) && w == b * y
    requires AllDigits(q') && AllDigits(r')
    requires if w <= Val(r) then Val(r') == Val(r) - w && Val(q') == Val(q) + b else r' == r && q' == q
    ensures DivState(x, q', y, r', w)
  {
    DivArith(x, Val(q), y, Val(r), w, b, Val(q'), Val(r'));
  }

  // The largest digit that can still be in the quotient before bit i2 is tried.
  lemma QuotientRoom(hi: nat, e: nat, f: nat)
    requires e > 0 && e * f == BASE && e * hi < BASE
    ensures e * hi <= BASE - e
  {
    if hi >= f {
      MulMono(f, hi, e);
    }
    MulMono(hi, f - 1, e);
    MulDistrib(e, f, -1);
  }

  // Turning on bit i2 of a quotient digit whose bits i2 and below are still off.
  lemma BitOn(d: int, hi: nat, i2: nat)
    requires i2 < 28 && IsDigit(d) && d == Pow2(i2 + 1) * hi
    ensures Bitwise(Or, d, Pow2(i2), 28) == d + Pow2(i2) && IsDigit(d + Pow2(i2))
    ensures d + Pow2(i2) == Pow2(i2) * (2 * hi + 1)
  {
    var e := Pow2(i2);
    assert d <= BASE - Pow2(i2 + 1) by {
      Pow2Complement(i2 + 1);
      QuotientRoom(hi, Pow2(i2 + 1), Pow2(27 - i2));
    }
    assert Pow2(28) == BASE by { Pow2Values(); }
    OrDisjoint(e, hi, i2 + 1, 28);
    OrSwap(d, e, 28);
    assert d == e * (2 * hi) by { MulAssoc(2, e, hi); MulAssoc(e, 2, hi); }
    MulDistrib(e, 2 * hi, 1);
  }

  // Copies the window of buf back into r, from the top down.
  method CopyBack(i: nat, k0: nat, r: array<int>, buf: array<int>)
    requires i <= k0 <= r.Length && k0 <= buf.Length && r != buf
    modifies r
    ensures forall t :: 0 <= t < r.Length ==> r[t] == if i <= t < k0 then buf[t] else old(r[t])
  {
    var k := k0;
    while k > i
      invariant i <= k <= k0
      invariant forall t :: 0 <= t < r.Length ==> r[t] == if k <= t < k0 then buf[t] else old(r[t])
    {
      k := k - 1;
      r[k] := buf[k];
    }
  }

  // One quotient bit: try y << (i, i2), keep the difference if it goes into r.
  method DivBit(i: nat, i2: nat, xsize: nat, ysize: nat, y: array<int>, q: array<int>, r: array<int>, buf: array<int>,
      ghost x: int, ghost hi: nat)
    returns (ghost hi': nat)
    requires i2 < 28 && Holds(y, ysize) && i + ysize <= xsize < r.Length && xsize < buf.Length
    requires buf != y && buf != r && buf != q && r != q && y != q && y != r
    requires xsize - ysize + 1 <= q.Length && q[i] == Pow2(i2 + 1) * hi
    requires DivState(x, q[..xsize - ysize + 1], Value(y, ysize), r[..xsize + 1], Weight(Value(y, ysize), i, i2 + 1))
    modifies q, r, buf
    ensures DivState(x, q[..xsize - ysize + 1], Value(y, ysize), r[..xsize + 1], Weight(Value(y, ysize), i, i2))
    ensures q[i] == Pow2(i2) * hi' && forall t :: 0 <= t < i ==> q[t] == old(q[t])
  {
    ghost var qs, ys, rs := q[..xsize - ysize + 1], y[..ysize], r[..xsize + 1];
    WindowBound(ys, i, i2);
    ghost var w, b := Weight(Val(ys), i, i2), BasePow(i) * Pow2(i2);
    WeightIsShift(Val(ys), i, i2);
    var k, borrow := TrySubtract(i, i2, ysize, y, xsize, r, buf);
    hi' := 2 * hi;
    assert q[i] == Pow2(i2) * hi' by { MulAssoc(Pow2(i2), 2, hi); }
    if borrow == 0 {
      assert IsDigit(qs[i]);
      BitOn(q[i], hi, i2);
      ValUpdate(qs, i, q[i] + Pow2(i2));
      q[i] := Bitwise(Or, q[i], Pow2(i2), 28);
      hi' := 2 * hi + 1;
      CopyBack(i, k, r, buf);
      assert r[..xsize + 1] == Spliced(rs, buf[..], i, i + ysize + 1);
      assert q[..xsize - ysize + 1] == qs[i := qs[i] + Pow2(i2)];
    }
    DivStep(x, qs, Val(ys), rs, w, b, q[..xsize - ysize + 1], r[..xsize + 1]);
  }

  // Passing from bit 0 of one quotient digit to bit 27 of the next lower one.
  lemma WeightNextDigit(y: int, i: nat)
    requires i > 0
    ensures Weight(y, i, 0) == Weight(y, i - 1, 28)
  {
    var p := BasePow(i - 1);
    Pow2Values();
    assert (BASE * p) * y == p * (y * BASE) by { MulAssoc(BASE, p, y); MulAssoc(p, y, BASE); }
  }

  // The first bound: x < y << (28 * qsize) bits, because y has no leading zero.
  lemma FirstWeight(x: seq<int>, y: seq<int>)
    requires AllDigits(x) && Normal(y) && 0 < |y| <= |x|
    ensures Val(x) < Weight(Val(y), |x| - |y|, 28)
  {
    ValBound(x);
    ValLower(y);
    Pow2Values();
    MulMono(BasePow(|y| - 1), Val(y), BASE);
    MulMono(BasePow(|y|), Val(y) * BASE, BasePow(|x| - |y|));
    BasePowAdd(|x| - |y|, |y|);
  }

  // One quotient digit: 28 trial bits, from the top.
  method DivDigit(i: nat, xsize: nat, ysize: nat, y: array<int>, q: array<int>, r: array<int>, buf: array<int>,
      ghost x: int)
    requires Holds(y, ysize) && i + ysize <= xsize < r.Length && xsize < buf.Length
    requires buf != y && buf != r && buf != q && r != q && y != q && y != r
    requires xsize - ysize + 1 <= q.Length && forall t :: 0 <= t <= i ==> q[t] == 0
    requires DivState(x, q[..xsize - ysize + 1], Value(y, ysize), r[..xsize + 1], Weight(Value(y, ysize), i, 28))
    modifies q, r, buf
    ensures DivState(x, q[..xsize - ysize + 1], Value(y, ysize), r[..xsize + 1], Weight(Value(y, ysize), i, 0))
    ensures forall t :: 0 <= t < i ==> q[t] == 0
  {
    ghost var before := q[..xsize - ysize + 1];
    q[i] := 0;
    assert q[..xsize - ysize + 1] == before;
    ghost var hi := 0;
    var i2 := 28;
    while i2 > 0
      invariant 0 <= i2 <= 28 && q[i] == Pow2(i2) * hi
      invariant DivState(x, q[..xsize - ysize + 1], Value(y, ysize), r[..xsize + 1], Weight(Value(y, ysize), i, i2))
      invariant forall t :: 0 <= t < i ==> q[t] == 0
    {
      i2 := i2 - 1;
      hi := DivBit(i, i2, xsize, ysize, y, q, r, buf, x, hi);
    }
  }

  // q and r start as 0 and x.
  method DivInit(xsize: nat, x: array<int>, qsize: nat, q: array<int>, r: array<int>)
    requires Holds(x, xsize) && xsize < r.Length && qsize <= q.Length && x != r && x != q && q != r
    modifies q, r
    ensures Holds(r, xsize + 1) && Value(r, xsize + 1) == Value(x, xsize)
    ensures forall t :: 0 <= t < qsize ==> q[t] == 0
  {
    for i := 0 to xsize
      invariant forall t :: 0 <= t < i ==> r[t] == x[t]
    {
      r[i] := x[i];
    }
    r[xsize] := 0;
    for i := 0 to qsize
      invariant forall t :: 0 <= t < i ==> q[t] == 0
      invariant r[..xsize + 1] == x[..xsize] + [0]
    {
      q[i] := 0;
    }
    ValPush(x[..xsize], 0);
    TrimIsNormal(r, xsize + 1);
  }

  // Shift-subtract long division.
  method DivLoop(xsize: nat, x: array<int>, ysize: nat, y: array<int>, q: array<int>, r: array<int>, buf: array<int>)
    returns (qsize: nat)
    requires Holds(x, xsize) && Trim(y, ysize) && 0 < ysize <= xsize < r.Length && xsize < buf.Length
    requires xsize - ysize + 1 <= q.Length && x != q && x != r && x != buf
    requires buf != y && buf != r && buf != q && r != q && y != q && y != r
    modifies q, r, buf
    ensures qsize == xsize - ysize + 1 && Holds(q, qsize) && Holds(r, xsize + 1)
    ensures Value(x, xsize) == Value(q, qsize) * Value(y, ysize) + Value(r, xsize + 1)
    ensures Value(r, xsize + 1) < Value(y, ysize)
  {
    qsize := xsize - ysize + 1;
    DivInit(xsize, x, qsize, q, r);
    ValZeros(q[..qsize]);
    FirstWeight(x[..xsize], y[..ysize]) by { TrimIsNormal(x, xsize); TrimIsNormal(y, ysize); }
    var i := qsize;
    while i > 0
      invariant 0 <= i <= qsize && forall t :: 0 <= t < i ==> q[t] == 0
      invariant DivState(Value(x, xsize), q[..qsize], Value(y, ysize), r[..xsize + 1],
                         if i == 0 then Weight(Value(y, ysize), 0, 0) else Weight(Value(y, ysize), i - 1, 28))
    {
      i := i - 1;
      DivDigit(i, xsize, ysize, y, q, r, buf, Value(x, xsize));
      if i > 0 {
        WeightNextDigit(Value(y, ysize), i);
      }
    }
    TrimIsNormal(q, qsize);
    TrimIsNormal(r, xsize + 1);
  }

  lemma QuotientSize(x: int, q: int, y: int, r: int, m: nat, n: nat)
    requires x == q * y + r && 0 <= r < y < BasePow(n) && n < m && BasePow(m - 1) <= x
    ensures q >= BasePow(m - 1 - n)
  {
    var p := BasePow(m - 1 - n);
    BasePowAdd(m - 1 - n, n);
    if q < p {
      MulMono(q + 1, p, y);
      MulMono(y, BasePow(n), p);
      MulDistrib(y, q, 1);
    }
  }

  lemma QuotientPositive(x: int, q: int, y: int, r: int)
    requires x == q * y + r && 0 <= r < y <= x
    ensures q > 0
  {
    if q <= 0 {
      MulMono(q, 0, y);
    }
  }

  lemma DropTop(q: seq<int>)
    requires |q| > 0 && q[|q| - 1] == 0
    ensures Val(q[..|q| - 1]) == Val(q)
  {
    ValSnoc(q, |q| - 1);
    assert q[..|q|] == q;
  }

  // If the top quotient digit is zero, the next one is not.
  lemma QuotientTop(x: seq<int>, y: seq<int>, q: seq<int>, r: int)
    requires Normal(x) && Normal(y) && AllDigits(q) && 0 < |y| <= |x| && |q| == |x| - |y| + 1
    requires Val(x) == Val(q) * Val(y) + r && 0 <= r < Val(y) <= Val(x)
    requires q[|q| - 1] == 0
    ensures 1 < |q| && q[|q| - 2] != 0 && Val(q[..|q| - 1]) == Val(q)
  {
    var n, q' := |q|, q[..|q| - 1];
    DropTop(q);
    assert n > 1 by {
      QuotientPositive(Val(x), Val(q), Val(y), r);
    }
    QuotientLarge(x, y, Val(q), r);
    ValTop(q');
  }

  lemma QuotientLarge(x: seq<int>, y: seq<int>, q: int, r: int)
    requires Normal(x) && Normal(y) && 0 < |y| < |x|
    requires Val(x) == q * Val(y) + r && 0 <= r < Val(y)
    ensures q >= BasePow(|x| - |y| - 1)
  {
    ValBound(y);
    ValLower(x);
    QuotientSize(Val(x), q, Val(y), r, |x|, |y|);
  }

  // x = q*y + r with 0 <= r < y, for x >= y; at most one leading zero of q is dropped.
  method Div(xsize: nat, x: array<int>, ysize: nat, y: array<int>, q: array<int>, r: array<int>, buf: array<int>)
    returns (qsize: nat, rsize: nat)
    requires Trim(x, xsize) && Trim(y, ysize) && 0 < ysize && Value(y, ysize) <= Value(x, xsize)
    requires xsize < q.Length && xsize < r.Length && xsize < buf.Length
    requires x != q && x != r && x != buf && buf != y && buf != r && buf != q && r != q && y != q && y != r
    modifies q, r, buf
    ensures Trim(q, qsize) && Trim(r, rsize) && rsize <= xsize + 1
    ensures Value(x, xsize) == Value(q, qsize) * Value(y, ysize) + Value(r, rsize)
    ensures 0 <= Value(r, rsize) < Value(y, ysize)
    ensures forall t :: rsize <= t <= xsize ==> r[t] == 0
    ensures xsize - ysize <= qsize <= xsize - ysize + 1
  {
    ghost var xs, ys := x[..xsize], y[..ysize];
    assert Normal(xs) && Normal(ys);
    if xsize < ysize {
      ShorterIsSmaller(xs, ys);
    }
    qsize := DivLoop(xsize, x, ysize, y, q, r, buf);
    ValueBound(r, xsize + 1);
    ghost var qs, rv := q[..qsize], Value(r, xsize + 1);
    if q[qsize - 1] == 0 {
      QuotientTop(xs, ys, qs, rv);
      qsize := qsize - 1;
      assert q[..qsize] == qs[..qsize];
    }
    rsize := ZapLeadingZeros(xsize + 1, r);
  }
}
