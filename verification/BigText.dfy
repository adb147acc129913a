// Decimal text of a bigint, written from the end of a buffer in blocks of eight digits.
module BigText {
  import opened Powers
  import opened Digits
  import opened UBig
  import opened UMulDiv
  import opened BigInt

  const BLOCK: int := 1_0000_0000 // 10^8

  function DigitChar(d: int): char
    requires 0 <= d < 10
  {
    '0' + d as char
  }

  // What sprintf("%d") prints for n > 0, and the text every positive number should have.
  function Decimal(n: nat): (s: string)
    requires 0 < n
    decreases n
  {
    if n < 10 then [DigitChar(n)] else Decimal(n / 10) + [DigitChar(n % 10)]
  }

  // The last k decimal digits of r, zeros included.
  function Padded(k: nat, r: nat): (s: string)
    ensures |s| == k
    decreases k, r
  {
    if k == 0 then [] else Padded(k - 1, r / 10) + [DigitChar(r % 10)]
  }

  ghost predicate DecimalDigits(s: string) {
    forall i :: 0 <= i < |s| ==> '0' <= s[i] <= '9'
  }

  // The number a string of decimal digits denotes.
  ghost function Parse(s: string): int {
    if |s| == 0 then 0 else 10 * Parse(s[..|s| - 1]) + (s[|s| - 1] as int - '0' as int)
  }

  // Decimal text reads back as the number, in digits, without a leading zero.
  lemma {:induction false} DecimalParses(n: nat)
    requires 0 < n
    ensures Parse(Decimal(n)) == n && DecimalDigits(Decimal(n)) && |Decimal(n)| > 0 && Decimal(n)[0] != '0'
    decreases n
  {
    var s := Decimal(n);
    if n < 10 {
      assert s[..0] == [];
    } else {
      DecimalParses(n / 10);
      assert s[..|s| - 1] == Decimal(n / 10);
    }
  }

  function Pow10(k: nat): nat {
    if k == 0 then 1 else 10 * Pow10(k - 1)
  }

  // Below a nonzero quotient a block shows all its digits.
  lemma {:induction false} DecimalBlock(q: nat, r: nat, k: nat, n: nat)
    requires 0 < q && 0 <= r < Pow10(k) && n == q * Pow10(k) + r
    ensures 0 < n && Decimal(n) == Decimal(q) + Padded(k, r)
    decreases k
  {
    if k == 0 {
      assert Padded(k, r) == [];
      assert Decimal(q) + [] == Decimal(q);
    } else {
      var p := Pow10(k - 1);
      assert q * Pow10(k) == 10 * (q * p) by { MulAssoc(q, 10, p); MulAssoc(10, q, p); }
      MulMono(1, q, p);
      Pow10Positive(k - 1);
      var n' := n / 10;
      assert n' == q * p + r / 10 && n % 10 == r % 10;
      DecimalBlock(q, r / 10, k - 1, n');
      assert Decimal(n) == Decimal(n') + [DigitChar(n % 10)];
      assert (Decimal(q) + Padded(k - 1, r / 10)) + [DigitChar(r % 10)] == Decimal(q) + Padded(k, r);
    }
  }

  lemma {:induction false} Pow10Positive(k: nat)
    ensures Pow10(k) > 0
  {
    if k > 0 {
      Pow10Positive(k - 1);
    }
  }

  lemma BlockIsPow10()
    ensures Pow10(8) == BLOCK
  {
    assert Pow10(4) == 10000;
  }

  datatype TextResult = Start(i: nat) | OutOfMemory

  ghost function Text(v: int): string
    requires v != 0
  {
    if v < 0 then "-" + Decimal(-v) else Decimal(v)
  }

  // Writes the eight digits of a remainder downward from position i.
  method WriteBlock(rem: int, buf: array<char>, i0: int) returns (i: int)
    requires 0 <= rem < BLOCK && 8 <= i0 < buf.Length
    modifies buf
    ensures i == i0 - 8 && buf[i + 1..i0 + 1] == Padded(8, rem)
    ensures forall k :: i0 < k < buf.Length ==> buf[k] == old(buf[k])
  {
    i := i0;
    var remainder := rem;
    var j := 0;
    while j < 8
      invariant 0 <= j <= 8 && i == i0 - j && 0 <= remainder
      invariant Padded(8, rem) == Padded(8 - j, remainder) + buf[i + 1..i0 + 1]
      invariant forall k :: i0 < k < buf.Length ==> buf[k] == old(buf[k])
    {
      PaddedStep(8 - j, remainder);
      ghost var tail := buf[i + 1..i0 + 1];
      buf[i] := DigitChar(remainder % 10);
      assert buf[i..i0 + 1] == [DigitChar(remainder % 10)] + tail;
      remainder := remainder / 10;
      i := i - 1;
      j := j + 1;
    }
  }

  lemma PaddedStep(k: nat, r: nat)
    requires 0 < k
    ensures Padded(k, r) == Padded(k - 1, r / 10) + [DigitChar(r % 10)]
  {
  }

  // q becomes the next number to divide.
  method CopyQuotient(q: array<int>, qsize: nat, x: array<int>)
    requires Trim(q, qsize) && qsize <= x.Length && q != x
    modifies x
    ensures Trim(x, qsize) && Value(x, qsize) == Value(q, qsize)
  {
    for j := 0 to qsize
      invariant x[..j] == q[..j]
    {
      x[j] := q[j];
    }
    TrimIsNormal(q, qsize);
    TrimIsNormal(x, qsize);
  }

  // x = q * 10^8 + remainder, for x of at least two digits.
  method DivBlock(size: nat, x: array<int>, y: array<int>, q: array<int>, r: array<int>, tmp: array<int>)
    returns (qsize: nat, rem: int)
    requires Trim(x, size) && 2 <= size && y.Length == 1 && y[0] == BLOCK
    requires size < q.Length && size < r.Length && size < tmp.Length
    requires x != q && x != r && x != tmp && tmp != y && tmp != r && tmp != q && r != q && y != q && y != r
    modifies q, r, tmp
    ensures Trim(q, qsize) && 0 < qsize <= size && 0 < Value(q, qsize) < Value(x, size) && 0 <= rem < BLOCK
    ensures Value(x, size) == Value(q, qsize) * BLOCK + rem
  {
    assert y[..1] == [BLOCK];
    ValOne(BLOCK);
    TwoDigits(x, size);
    var rsize;
    qsize, rsize := Div(size, x, 1, y, q, r, tmp);
    rem := r[0];
    SmallRemainder(r, rsize, size);
    QuotientPositive(Value(x, size), Value(q, qsize), BLOCK, rem);
  }

  lemma TwoDigits(x: array<int>, size: nat)
    requires Trim(x, size) && 2 <= size
    ensures Value(x, size) >= BASE
  {
    TrimIsNormal(x, size);
    ValLower(x[..size]);
    BasePowMono(1, size - 1);
  }

  // A remainder below 10^8 is one digit, or none and then r[0] is 0.
  lemma SmallRemainder(r: array<int>, rsize: nat, size: nat)
    requires Trim(r, rsize) && Value(r, rsize) < BLOCK && rsize <= size + 1 <= r.Length
    requires forall t :: rsize <= t <= size ==> r[t] == 0
    ensures r[0] == Value(r, rsize)
  {
    if rsize >= 2 {
      TwoDigits(r, rsize);
    } else if rsize == 1 {
      assert r[..1] == [r[0]];
      ValOne(r[0]);
    }
  }

  // What has been written so far: the low digits of m, above them nothing but x to come.
  ghost predicate Pending(m: int, v: int, buf: seq<char>, i: int) {
    && 0 < v && 0 < m && -1 <= i < |buf| - 1 && buf[|buf| - 1] == '\0'
    && Decimal(m) == Decimal(v) + buf[i + 1..|buf| - 1]
  }

  lemma PendingBlock(m: int, v: int, buf: seq<char>, i: int, q: int, rem: int, buf': seq<char>)
    requires Pending(m, v, buf, i) && 8 <= i && |buf'| == |buf|
    requires v == q * BLOCK + rem && 0 < q && 0 <= rem < BLOCK
    requires buf'[i - 7..i + 1] == Padded(8, rem) && forall k :: i < k < |buf| ==> buf'[k] == buf[k]
    ensures Pending(m, q, buf', i - 8)
  {
    var n := |buf| - 1;
    var block, tail := buf'[i - 7..i + 1], buf[i + 1..n];
    assert Decimal(v) == Decimal(q) + block by {
      BlockIsPow10();
      DecimalBlock(q, rem, 8, v);
    }
    assert buf'[i - 7..n] == block + tail;
    Regroup(Decimal(q), block, tail);
  }

  lemma Regroup(a: string, b: string, c: string)
    ensures (a + b) + c == a + (b + c)
  {
  }

  // With at most nine cells left, nine or more digits and the two spare cells do not fit.
  lemma BlockDoesNotFit(m: int, v: int, buf: seq<char>, i: int)
    requires Pending(m, v, buf, i) && v >= BASE && i <= 8
    ensures |Decimal(m)| + 2 >= |buf|
  {
    BlockIsPow10();
    DecimalBlock(v / BLOCK, v % BLOCK, 8, v);
    DecimalParses(v / BLOCK);
  }

  // Dividing by 10^8 leaves as many digits as before exactly when the top digit is 10^8 or more.
  lemma SameDigitCount(ds: seq<int>)
    requires |ds| > 0 && AllDigits(ds)
    ensures Val(ds) / BLOCK >= BasePow(|ds| - 1) <==> ds[|ds| - 1] >= BLOCK
  {
    var n := |ds| - 1;
    var p := BasePow(n);
    ValSnoc(ds, n);
    ValBound(ds[..n]);
    assert ds[..n + 1] == ds;
    QuotientReaches(Val(ds), BLOCK, p);
    if ds[n] >= BLOCK {
      MulMono(BLOCK, ds[n], p);
    } else {
      MulMono(ds[n] + 1, BLOCK, p);
    }
  }

  lemma QuotientReaches(x: int, d: int, p: int)
    requires 0 < d
    ensures x / d >= p <==> x >= d * p
  {
    var q := x / d;
    if q >= p {
      MulMono(p, q, d);
    } else {
      MulMono(q + 1, p, d);
    }
  }

  // Writes all blocks but the first; stops when the buffer is too small.
  method WriteBlocks(ghost m: nat, size0: nat, x: array<int>, buf: array<char>) returns (ok: bool, i: int)
    requires Trim(x, size0) && 2 <= size0 && Value(x, size0) == m && 0 < buf.Length
    modifies x, buf
    ensures 0 < m && (!ok ==> |Decimal(m)| + 2 >= buf.Length)
    ensures ok ==> x.Length > 0 && Pending(m, x[0], buf[..], i)
  {
    var cap := size0 + 1;
    var q, r, tmp := new int[cap], new int[cap], new int[cap];
    var y := new int[1](_ => BLOCK);
    var size := size0;
    i := buf.Length - 1;
    buf[i] := '\0';
    i := i - 1;
    TwoDigits(x, size);
    assert Decimal(m) + [] == Decimal(m);
    var more := true;
    while more
      invariant Trim(x, size) && 0 < size <= size0 && (more ==> 2 <= size) && (!more ==> size == 1)
      invariant Pending(m, Value(x, size), buf[..], i) && y[0] == BLOCK
      decreases more, Value(x, size)
    {
      var qsize, rem := DivBlock(size, x, y, q, r, tmp);
      ghost var v, before := Value(x, size), buf[..];
      TwoDigits(x, size);
      if i <= 8 {
        BlockDoesNotFit(m, v, before, i);
        return false, i;
      }
      ghost var i0 := i;
      i := WriteBlock(rem, buf, i);
      PendingBlock(m, v, before, i0, Value(q, qsize), rem, buf[..]);
      CopyQuotient(q, qsize, x);
      size := qsize;
      more := size > 1;
    }
    assert x[..1] == [x[0]];
    ValOne(x[0]);
    return true, i;
  }

  // Copies s into buf so that it ends at position i0.
  method CopyDown(s: string, buf: array<char>, i0: int) returns (i: int)
    requires |s| <= i0 + 1 && i0 < buf.Length
    modifies buf
    ensures i == i0 - |s| && forall p :: 0 <= p < |s| ==> buf[i + 1 + p] == s[p]
    ensures forall k :: i0 < k < buf.Length ==> buf[k] == old(buf[k])
  {
    i := i0;
    ghost var low := i0 + 1 - |s|;
    var j := |s| - 1;
    while j >= 0
      invariant -1 <= j < |s| && i == low + j
      invariant forall p :: j < p < |s| ==> buf[low + p] == s[p]
      invariant forall p :: i0 < p < buf.Length ==> buf[p] == old(buf[p])
    {
      buf[i] := s[j];
      j := j - 1;
      i := i - 1;
    }
  }

  // Writes the first block and the sign in front of the blocks already there.
  method WriteHead(ghost m: nat, v: nat, negative: bool, buf: array<char>, i0: int) returns (res: TextResult)
    requires Pending(m, v, buf[..], i0)
    modifies buf
    ensures res.Start? <==> |Decimal(m)| + 2 < buf.Length
    ensures res.Start? ==> res.i < buf.Length && buf[buf.Length - 1] == '\0'
    ensures res.Start? ==> buf[res.i..buf.Length - 1] == if negative then "-" + Decimal(m) else Decimal(m)
  {
    var loc, n := Decimal(v), buf.Length - 1;
    if i0 <= |loc| {
      return OutOfMemory;
    }
    ghost var tail := buf[i0 + 1..n];
    var i := CopyDown(loc, buf, i0);
    assert buf[i0 + 1..n] == tail;
    assert buf[i + 1..i0 + 1] == loc;
    assert buf[i + 1..n] == buf[i + 1..i0 + 1] + buf[i0 + 1..n];
    if negative {
      ghost var rest := buf[i + 1..n];
      buf[i] := '-';
      assert buf[i..n] == "-" + rest;
    } else {
      i := i + 1;
    }
    return Start(i);
  }

  lemma SignedText(sign: int, m: nat)
    requires 0 < m && (sign == 1 || sign == -1)
    ensures sign * m != 0 && Text(sign * m) == if sign < 0 then "-" + Decimal(m) else Decimal(m)
  {
    assert sign * m == if sign < 0 then 0 - m else m;
  }

  // The text of op at the end of buf, from the returned index to the closing NUL.
  method WriteBigint(op: Term, buf: array<char>) returns (res: TextResult)
    requires IsBig(op) && 2 <= |op.ds| && 0 < buf.Length
    modifies buf
    ensures IntOf(op) != 0 && 0 < Val(op.ds)
    ensures res.Start? <==> |Decimal(Val(op.ds))| + 2 < buf.Length
    ensures res.Start? ==> res.i < buf.Length && buf[buf.Length - 1] == '\0'
    ensures res.Start? ==> buf[res.i..buf.Length - 1] == Text(IntOf(op))
  {
    ValLower(op.ds);
    ghost var m := Val(op.ds);
    SignedText(op.sign, m);
    var x := Unpack(op.ds, |op.ds|);
    var ok, i := WriteBlocks(m, |op.ds|, x, buf);
    if !ok {
      return OutOfMemory;
    }
    res := WriteHead(m, x[0], op.sign < 0, buf, i);
  }
}
