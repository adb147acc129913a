// Unsigned big integers: digit arrays written in place, the live digits being a[..size].
module UBig {
  import opened Powers
  import opened Digits

  // The first `size` cells of a hold digits.
  ghost predicate Holds(a: array<int>, size: nat)
    reads a
  {
    size <= a.Length && forall k :: 0 <= k < size ==> IsDigit(a[k])
  }

  // ... with no leading zero, as in every stored bigint.
  ghost predicate Trim(a: array<int>, size: nat)
    reads a
  {
    Holds(a, size) && (size > 0 ==> a[size - 1] != 0)
  }

  // The number held in the first `size` cells of a.
  ghost function Value(a: array<int>, size: nat): int
    requires size <= a.Length
    reads a
  {
    Val(a[..size])
  }

  lemma TrimIsNormal(a: array<int>, size: nat)
    requires size <= a.Length
    ensures Holds(a, size) <==> AllDigits(a[..size])
    ensures Trim(a, size) <==> Normal(a[..size])
  {
    if AllDigits(a[..size]) {
      forall k | 0 <= k < size ensures IsDigit(a[k]) {
        assert a[..size][k] == a[k];
      }
    }
  }

  lemma ValueBound(a: array<int>, size: nat)
    requires Holds(a, size)
    ensures 0 <= Value(a, size) < BasePow(size)
  {
    ValBound(a[..size]);
  }

  // The carry macro: split a digit sum in [0, 2*BASE) into digit and carry.
  method SplitCarry(sum: int) returns (digit: int, carry: int)
    requires 0 <= sum < 2 * BASE
    ensures IsDigit(digit) && 0 <= carry <= 1 && sum == digit + carry * BASE
  {
    if sum >= BASE {
      digit, carry := sum - BASE, 1;
    } else {
      digit, carry := sum, 0;
    }
  }

  // The borrow macro: only a negative difference borrows.
  method SplitBorrow(diff: int) returns (digit: int, borrow: int)
    requires -BASE <= diff
    ensures 0 <= digit && (diff < BASE ==> IsDigit(digit)) && diff == digit - borrow * BASE
    ensures borrow == if diff < 0 then 1 else 0
  {
    if diff < 0 {
      digit, borrow := diff + BASE, 1;
    } else {
      digit, borrow := diff, 0;
    }
  }

  // Drops leading zeros; the number does not change.
  method ZapLeadingZeros(size: nat, x: array<int>) returns (newSize: nat)
    requires size <= x.Length
    ensures newSize <= size && Value(x, newSize) == Value(x, size)
    ensures newSize > 0 ==> x[newSize - 1] != 0
    ensures forall k :: newSize <= k < size ==> x[k] == 0
  {
    newSize := size;
    while newSize > 0 && x[newSize - 1] == 0
      invariant newSize <= size
      invariant Val(x[..newSize]) == Val(x[..size])
      invariant forall k :: newSize <= k < size ==> x[k] == 0
    {
      ValSnoc(x[..], newSize - 1);
      assert x[..][..newSize] == x[..newSize] && x[..][..newSize - 1] == x[..newSize - 1];
      newSize := newSize - 1;
    }
  }

  // y := y + 1
  method Inc(size: nat, y: array<int>) returns (newSize: nat)
    requires 0 < size < y.Length && Trim(y, size)
    modifies y
    ensures newSize == size || newSize == size + 1
    ensures Trim(y, newSize) && Value(y, newSize) == old(Value(y, size)) + 1
  {
    ghost var w := y[..size];
    var carry;
    y[0], carry := SplitCarry(y[0] + 1);
    ghost var c := [1, carry];
    var i := 1;
    while i < size && carry == 1
      invariant 1 <= i <= size && |c| == i + 1 && c[0] == 1 && c[i] == carry && 0 <= carry <= 1
      invariant forall k :: 0 <= k < i ==> IsDigit(y[k]) && CarryAt(y[k], w[k], c, k)
      invariant forall k :: i <= k < size ==> y[k] == w[k]
      invariant carry == 0 ==> y[i - 1] != 0
    {
      y[i], carry := SplitCarry(y[i] + 1);
      c := c + [carry];
      i := i + 1;
    }
    newSize := size;
    ghost var z := y[..size];
    CarryPrefix(z, w, c);
    if carry == 1 {
      y[size] := 1;
      newSize := size + 1;
      assert y[..newSize] == z + [1];
      ValPush(z, 1);
    }
  }

  // The first digits of a sum or difference are done: z is w with carries c moved up.
  ghost predicate Carried(z: seq<int>, w: seq<int>, c: seq<int>, carry: int) {
    && 0 < |c| <= |z| + 1 && |c| <= |w| + 1 && c[0] == 0 && c[|c| - 1] == carry
    && forall k :: 0 <= k < |c| - 1 ==> IsDigit(z[k]) && CarryAt(z[k], w[k], c, k)
  }

  // Adds the digits both numbers have.
  method AddCommon(xsize: nat, x: array<int>, y: array<int>, z: array<int>, ghost w: seq<int>)
    returns (carry: int, ghost c: seq<int>)
    requires xsize <= x.Length && xsize <= y.Length && xsize <= z.Length && z != x && z != y
    requires xsize <= |w| && forall k :: 0 <= k < xsize ==> IsDigit(x[k]) && IsDigit(y[k]) && w[k] == x[k] + y[k]
    modifies z
    ensures 0 <= carry <= 1 && |c| == xsize + 1 && Carried(z[..], w, c, carry)
    ensures xsize > 0 && (x[xsize - 1] > 0 || y[xsize - 1] > 0) && carry == 0 ==> z[xsize - 1] != 0
  {
    carry, c := 0, [0];
    var i := 0;
    while i < xsize
      invariant 0 <= i <= xsize && |c| == i + 1 && 0 <= carry <= 1 && Carried(z[..], w, c, carry)
      invariant i > 0 && (x[i - 1] > 0 || y[i - 1] > 0) && carry == 0 ==> z[i - 1] != 0
    {
      z[i], carry := SplitCarry(x[i] + y[i] + carry);
      c := c + [carry];
      i := i + 1;
    }
  }

  // Moves a carry up through the digits only the longer number has.
  method AddCarry(xsize: nat, ysize: nat, y: array<int>, z: array<int>, carry0: int, ghost w: seq<int>,
      ghost c0: seq<int>)
    returns (i: nat, carry: int, ghost c: seq<int>)
    requires xsize <= ysize <= y.Length && ysize <= z.Length && z != y && ysize == |w|
    requires forall k :: xsize <= k < ysize ==> IsDigit(y[k]) && w[k] == y[k]
    requires |c0| == xsize + 1 && 0 <= carry0 <= 1 && Carried(z[..], w, c0, carry0)
    modifies z
    ensures xsize <= i <= ysize && |c| == i + 1 && 0 <= carry <= 1 && Carried(z[..], w, c, carry)
    ensures i == ysize || carry == 0
    ensures i == xsize ==> z[..] == old(z[..]) && carry == carry0
    ensures i > xsize && carry == 0 ==> z[i - 1] != 0
  {
    i, carry, c := xsize, carry0, c0;
    while i < ysize && carry == 1
      invariant xsize <= i <= ysize && |c| == i + 1 && 0 <= carry <= 1 && Carried(z[..], w, c, carry)
      invariant i == xsize ==> z[..] == old(z[..]) && carry == carry0
      invariant i > xsize && carry == 0 ==> z[i - 1] != 0
    {
      z[i], carry := SplitCarry(y[i] + 1);
      c := c + [carry];
      i := i + 1;
    }
  }

  // Copies the digits no carry reached, or appends the last carry.
  method AddFinish(i0: nat, ysize: nat, y: array<int>, z: array<int>, carry: int, ghost w: seq<int>, ghost c: seq<int>)
    returns (zsize: nat)
    requires i0 <= ysize <= y.Length && ysize < z.Length && z != y && ysize == |w|
    requires forall k :: i0 <= k < ysize ==> IsDigit(y[k]) && w[k] == y[k]
    requires |c| == i0 + 1 && 0 <= carry <= 1 && Carried(z[..], w, c, carry)
    requires i0 == ysize || carry == 0
    requires ysize > 0 && carry == 0 ==> (if i0 == ysize then z[i0 - 1] else y[ysize - 1]) != 0
    modifies z
    ensures Trim(z, zsize) && Value(z, zsize) == Val(w)
  {
    zsize := ysize;
    if carry == 1 {
      ghost var low := z[..ysize];
      CarryPrefix(low, w, c);
      z[ysize] := 1;
      zsize := ysize + 1;
      assert z[..zsize] == low + [1];
      ValPush(low, 1);
    } else {
      var i := i0;
      while i < ysize
        invariant i0 <= i <= ysize && Carried(z[..], w, c, carry)
        invariant forall k :: i0 <= k < i ==> z[k] == w[k]
        invariant i == i0 ==> z[..] == old(z[..])
      {
        z[i] := y[i];
        i := i + 1;
      }
      CarryPrefix(z[..ysize], w, c);
    }
  }

  // z := x + y, the longer operand second
  method AddOrdered(xsize: nat, x: array<int>, ysize: nat, y: array<int>, z: array<int>) returns (zsize: nat)
    requires Trim(x, xsize) && Trim(y, ysize) && xsize <= ysize < z.Length && z != x && z != y
    modifies z
    ensures Trim(z, zsize) && Value(z, zsize) == Value(x, xsize) + Value(y, ysize)
  {
    ghost var w := Plus(y[..ysize], x[..xsize], 1);
    ValPlus(y[..ysize], x[..xsize], 1);
    var carry, c := AddCommon(xsize, x, y, z, w);
    ghost var c';
    var i;
    i, carry, c' := AddCarry(xsize, ysize, y, z, carry, w, c);
    zsize := AddFinish(i, ysize, y, z, carry, w, c');
  }

  // z := x + y
  method Add(xsize: nat, x: array<int>, ysize: nat, y: array<int>, z: array<int>) returns (zsize: nat)
    requires Trim(x, xsize) && Trim(y, ysize) && xsize < z.Length && ysize < z.Length && z != x && z != y
    modifies z
    ensures Trim(z, zsize) && Value(z, zsize) == Value(x, xsize) + Value(y, ysize)
  {
    if xsize > ysize {
      zsize := AddOrdered(ysize, y, xsize, x, z);
    } else {
      zsize := AddOrdered(xsize, x, ysize, y, z);
    }
  }

  // Lets a borrow run up from position i0 through the digits of y into z (which may be y).
  method BorrowRun(i0: nat, ysize: nat, y: array<int>, z: array<int>, borrow0: int, ghost w: seq<int>,
      ghost c0: seq<int>)
    returns (i: nat, borrow: int, ghost c: seq<int>)
    requires i0 <= ysize == |w| && ysize <= y.Length && ysize <= z.Length
    requires forall k :: i0 <= k < ysize ==> 0 <= y[k] && y[k] == w[k]
    requires |c0| == i0 + 1 && c0[i0] == -borrow0 && 0 <= borrow0 <= 1
    requires forall k :: 0 <= k < i0 ==> CarryAt(z[k], w[k], c0, k)
    modifies z
    ensures i0 <= i <= ysize && |c| == i + 1 && c[0] == c0[0] && c[i] == -borrow && 0 <= borrow <= 1
    ensures i == ysize || borrow == 0
    ensures forall k :: 0 <= k < i ==> CarryAt(z[k], w[k], c, k)
    ensures forall k :: i0 <= k < i ==> 0 <= z[k] && (z[k] < BASE || z[k] <= w[k])
    ensures forall k :: 0 <= k < z.Length && !(i0 <= k < i) ==> z[k] == old(z[k])
    ensures borrow == 1 ==> borrow0 == 1 && forall k :: i0 <= k < ysize ==> w[k] == 0
  {
    i, borrow, c := i0, borrow0, c0;
    while i < ysize && borrow == 1
      invariant i0 <= i <= ysize && |c| == i + 1 && c[0] == c0[0] && c[i] == -borrow && 0 <= borrow <= 1
      invariant forall k :: 0 <= k < i ==> CarryAt(z[k], w[k], c, k)
      invariant forall k :: i0 <= k < i ==> 0 <= z[k] && (z[k] < BASE || z[k] <= w[k])
      invariant forall k :: 0 <= k < z.Length && !(i0 <= k < i) ==> z[k] == old(z[k])
      invariant forall k :: i <= k < ysize ==> y[k] == w[k]
      invariant borrow == 1 ==> borrow0 == 1 && forall k :: i0 <= k < i ==> w[k] == 0
    {
      z[i], borrow := SplitBorrow(y[i] - 1);
      c := c + [-borrow];
      i := i + 1;
    }
  }

  // y := y - 1 for y >= 1; a top digit may carry the imaginary sign bit.
  method Dec(size: nat, y: array<int>) returns (newSize: nat)
    requires 0 < size <= y.Length && (forall k :: 0 <= k < size ==> 0 <= y[k])
    requires Value(y, size) > 0
    modifies y
    ensures newSize <= size && Value(y, newSize) == old(Value(y, size)) - 1
    ensures forall k :: 0 <= k < size ==> 0 <= y[k] && (y[k] < BASE || y[k] <= old(y[k]))
    ensures newSize > 0 ==> y[newSize - 1] != 0
    ensures newSize < size ==> y[size - 1] == 0
  {
    ghost var w := y[..size];
    var borrow, i;
    ghost var c;
    y[0], borrow := SplitBorrow(y[0] - 1);
    i, borrow, c := BorrowRun(1, size, y, y, borrow, w, [-1, -borrow]);
    if borrow == 1 {
      ValZeros(w);
    }
    CarryPrefix(y[..size], w, c);
    newSize := ZapLeadingZeros(size, y);
  }

  // z := y - x for y >= x; z may be x, as when a remainder is corrected in place.
  method Sub(ysize: nat, y: array<int>, xsize: nat, x: array<int>, z: array<int>) returns (zsize: nat)
    requires Trim(y, ysize) && Trim(x, xsize) && xsize <= ysize <= z.Length && z != y
    requires Value(x, xsize) <= Value(y, ysize)
    modifies z
    ensures Trim(z, zsize) && zsize <= ysize
    ensures Value(z, zsize) == Value(y, ysize) - old(Value(x, xsize))
  {
    ghost var w := Plus(y[..ysize], x[..xsize], -1);
    ValPlus(y[..ysize], x[..xsize], -1);
    var borrow, c := SubCommon(xsize, x, y, z, w);
    ghost var c';
    var i;
    i, borrow, c' := BorrowRun(xsize, ysize, y, z, borrow, w, c);
    SubFinish(i, ysize, y, z, borrow, w, c');
    zsize := ZapLeadingZeros(ysize, z);
  }

  // Subtracts the digits both numbers have.
  method SubCommon(xsize: nat, x: array<int>, y: array<int>, z: array<int>, ghost w: seq<int>)
    returns (borrow: int, ghost c: seq<int>)
    requires xsize <= x.Length && xsize <= y.Length && xsize <= z.Length && z != y
    requires xsize <= |w| && forall k :: 0 <= k < xsize ==> IsDigit(x[k]) && IsDigit(y[k]) && w[k] == y[k] - x[k]
    modifies z
    ensures |c| == xsize + 1 && c[0] == 0 && c[xsize] == -borrow && 0 <= borrow <= 1
    ensures forall k :: 0 <= k < xsize ==> IsDigit(z[k]) && CarryAt(z[k], w[k], c, k)
  {
    borrow, c := 0, [0];
    var i := 0;
    while i < xsize
      invariant 0 <= i <= xsize && |c| == i + 1 && c[0] == 0 && c[i] == -borrow && 0 <= borrow <= 1
      invariant forall k :: 0 <= k < i ==> IsDigit(z[k]) && CarryAt(z[k], w[k], c, k)
      invariant forall k :: i <= k < xsize ==> x[k] == old(x[k])
    {
      z[i], borrow := SplitBorrow(y[i] - x[i] - borrow);
      c := c + [-borrow];
      i := i + 1;
    }
  }

  // Copies the digits no borrow reached; a borrow left at the top would make the result negative.
  method SubFinish(i0: nat, ysize: nat, y: array<int>, z: array<int>, borrow: int, ghost w: seq<int>, ghost c: seq<int>)
    requires i0 <= ysize == |w| && ysize <= y.Length && ysize <= z.Length && z != y
    requires forall k :: i0 <= k < ysize ==> IsDigit(y[k]) && y[k] == w[k]
    requires |c| == i0 + 1 && c[0] == 0 && c[i0] == -borrow && (i0 == ysize || borrow == 0)
    requires 0 <= borrow <= 1 && Val(w) >= 0
    requires forall k :: 0 <= k < i0 ==> IsDigit(z[k]) && CarryAt(z[k], w[k], c, k)
    modifies z
    ensures Holds(z, ysize) && Value(z, ysize) == Val(w)
  {
    var i := i0;
    while i < ysize
      invariant i0 <= i <= ysize
      invariant forall k :: 0 <= k < i0 ==> IsDigit(z[k]) && CarryAt(z[k], w[k], c, k)
      invariant forall k :: i0 <= k < i ==> z[k] == w[k]
    {
      z[i] := y[i];
      i := i + 1;
    }
    NoFinalBorrow(z[..ysize], w, c, borrow);
  }

  // A borrow left over at the top would mean that w is negative.
  lemma NoFinalBorrow(z: seq<int>, w: seq<int>, c: seq<int>, borrow: int)
    requires AllDigits(z) && |z| == |w| && 0 < |c| <= |z| + 1 && Val(w) >= 0
    requires forall k :: 0 <= k < |c| - 1 ==> CarryAt(z[k], w[k], c, k)
    requires forall k :: |c| - 1 <= k < |z| ==> z[k] == w[k]
    requires c[0] == 0 && c[|c| - 1] == -borrow && 0 <= borrow <= 1 && (|c| == |z| + 1 || borrow == 0)
    ensures borrow == 0 && Val(z) == Val(w)
  {
    CarryPrefix(z, w, c);
    ValBound(z);
  }

  // The sign of x - y for numbers of one length.
  method CompareMag(size: nat, x: array<int>, y: array<int>) returns (r: int)
    requires Holds(x, size) && Holds(y, size)
    ensures r == if Value(x, size) > Value(y, size) then 1 else if Value(x, size) < Value(y, size) then -1 else 0
  {
    var i: int := size - 1;
    while i >= 0
      invariant -1 <= i < size
      invariant x[i + 1..size] == y[i + 1..size]
    {
      if x[i] != y[i] {
        CompareAt(x[..size], y[..size], i);
        CompareAt(y[..size], x[..size], i);
      }
      if x[i] > y[i] {
        return 1;
      }
      if y[i] > x[i] {
        return -1;
      }
      i := i - 1;
    }
    assert x[..size] == y[..size];
    return 0;
  }

  // The highest differing digit decides.
  lemma CompareAt(s: seq<int>, t: seq<int>, i: nat)
    requires AllDigits(s) && AllDigits(t) && |s| == |t| && i < |s| && s[i + 1..] == t[i + 1..]
    ensures s[i] > t[i] ==> Val(s) > Val(t)
  {
    if s[i] > t[i] {
      ValSplit(s, i + 1);
      ValSplit(t, i + 1);
      ValSnoc(s, i);
      ValSnoc(t, i);
      ValBound(s[..i]);
      ValBound(t[..i]);
      MulMono(t[i] + 1, s[i], BasePow(i));
      MulDistrib(BasePow(i), t[i], 1);
    }
  }
}
