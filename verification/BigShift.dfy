// Shifts of bigints. A right shift is written as a left shift by fewer than 28 bits
// followed by dropping whole digits; negative numbers go through two's complement.
module BigShift {
  import opened Powers
  import opened Digits
  import opened Bits
  import opened UBig
  import opened Shifts
  import opened UMulDiv
  import opened BigInt
  import opened BigLogic

  // z[from + j] := digit j0 + j of x << s, for all digits from j0 to the overflow digit.
  method ShiftDigits(xsize: nat, x: array<int>, j0: nat, s: nat, at: nat, z: array<int>)
    requires Holds(x, xsize) && s < 28 && j0 <= xsize && at + xsize + 1 - j0 <= z.Length && z != x
    modifies z
    ensures z[at..at + xsize + 1 - j0] == Shifted(x[..xsize], s)[j0..]
    ensures forall k :: 0 <= k < at ==> z[k] == old(z[k])
    ensures AllDigits(Shifted(x[..xsize], s))
  {
    ghost var d := Shifted(x[..xsize], s);
    assert AllDigits(x[..xsize]);
    ShiftedValue(x[..xsize], s);
    var j, i := j0, at;
    while j <= xsize
      invariant j0 <= j <= xsize + 1 && i == at + j - j0
      invariant z[at..i] == d[j0..j]
      invariant forall k :: 0 <= k < at ==> z[k] == old(z[k])
    {
      ReadsShifted(x, xsize, j, s);
      z[i] := GetShiftedDigit(xsize, x, j, s);
      j, i := j + 1, i + 1;
    }
    assert d[j0..j] == d[j0..];
  }

  lemma Pow2Blocks(y: nat)
    ensures Pow2(y) == BasePow(y / 28) * Pow2(y % 28)
  {
    BasePowIsPow2(y / 28);
    Pow2Add(28 * (y / 28), y % 28);
  }

  lemma ShiftedUp(x: seq<int>, y: nat)
    requires AllDigits(x)
    ensures Val(Zeros(y / 28) + Shifted(x, y % 28)) == Val(x) * Pow2(y)
  {
    var p, e, v := BasePow(y / 28), Pow2(y % 28), Val(x);
    ShiftedValue(x, y % 28);
    ValLift(Shifted(x, y % 28), y / 28);
    Pow2Blocks(y);
    assert p * (v * e) == v * (p * e) by { MulAssoc(p, v, e); MulAssoc(v, p, e); }
  }

  // A number multiplied by at least 1 keeps its size.
  lemma ShiftedTop(x: seq<int>, s: nat)
    requires Normal(x) && 0 < |x| && s < 28
    ensures Val(Shifted(x, s)) >= BasePow(|x| - 1)
  {
    ShiftedValue(x, s);
    ValLower(x);
    MulMono(1, Pow2(s), Val(x));
  }

  // z := x << y
  method ShiftL(xsize: nat, x: array<int>, y: nat, z: array<int>) returns (zsize: nat)
    requires Trim(x, xsize) && 0 < xsize && xsize + y / 28 + 1 <= z.Length && z != x
    modifies z
    ensures Trim(z, zsize) && Value(z, zsize) == Value(x, xsize) * Pow2(y)
  {
    var shiftBlocks, shiftBits := y / 28, y % 28;
    ghost var xs := x[..xsize];
    assert Normal(xs);
    for i := 0 to shiftBlocks
      invariant forall k :: 0 <= k < i ==> z[k] == 0
    {
      z[i] := 0;
    }
    ShiftDigits(xsize, x, 0, shiftBits, shiftBlocks, z);
    zsize := xsize + shiftBlocks + 1;
    ghost var d := Shifted(xs, shiftBits);
    assert z[..zsize] == Zeros(shiftBlocks) + d;
    ShiftedUp(xs, y);
    zsize := DropShifted(zsize, z, shiftBlocks, d, |xs|) by { ShiftedTop(xs, shiftBits); }
  }

  // Of lifted shifted digits only the overflow digit can be zero.
  method DropShifted(n: nat, z: array<int>, blocks: nat, ghost d: seq<int>, ghost m: nat) returns (zsize: nat)
    requires n <= z.Length && z[..n] == Zeros(blocks) + d && |d| == m + 1 && 0 < m
    requires AllDigits(d) && Val(d) >= BasePow(m - 1)
    ensures Trim(z, zsize) && Value(z, zsize) == Value(z, n)
  {
    zsize := n;
    forall k | 0 <= k < n ensures IsDigit(z[k]) {
      assert z[k] == (Zeros(blocks) + d)[k];
    }
    assert z[n - 1] == d[m] by { assert z[..n][n - 1] == d[m]; }
    if z[n - 1] == 0 {
      DropTop(d);
      ValTop(d[..m]);
      DropTop(z[..n]);
      assert z[..n][..n - 1] == z[..n - 1];
      assert z[..n][n - 2] == d[m - 1];
      zsize := n - 1;
    }
  }

  lemma DivModSwapped(n: int, p: int, q: int, r: int)
    requires 0 < p && 0 <= r < p && n == r + p * q
    ensures n / p == q
  {
    DivModUnique(n, p, q, r);
  }

  // Dropping k digits is floor division by BASE^k.
  lemma SuffixQuotient(d: seq<int>, k: nat)
    requires AllDigits(d) && k <= |d|
    ensures Val(d[k..]) == Val(d) / BasePow(k)
  {
    var p, low, high := BasePow(k), Val(d[..k]), Val(d[k..]);
    ValSplit(d, k);
    ValBound(d[..k]);
    DivModSwapped(Val(d), p, high, low);
  }

  lemma DivCancel(x: int, p: nat, e: nat)
    requires 0 < p && 0 < e
    ensures (x * e) / (p * e) == x / p
  {
    var q, r := x / p, x % p;
    assert x * e == q * (p * e) + r * e by {
      MulDistrib(e, q * p, r);
      MulAssoc(q, p, e);
    }
    MulMono(0, r, e);
    MulStrict(r, p, e);
    DivModUnique(x * e, p * e, q, r * e);
  }

  // The detour by a left shift: y bits right is l bits left and rb digits off.
  lemma DetourQuotient(x: int, y: nat, rb: nat, l: nat)
    requires 28 * rb == y + l
    ensures (x * Pow2(l)) / BasePow(rb) == x / Pow2(y)
  {
    BasePowIsPow2(rb);
    Pow2Add(y, l);
    DivCancel(x, Pow2(y), Pow2(l));
  }

  // (y + 27) / 28 digits and the bits shifted too far.
  method RightShiftParts(y: nat) returns (rb: nat, l: nat)
    requires 0 < y
    ensures 0 < rb && l < 28 && 28 * rb == y + l
  {
    rb := (y + 27) / 28;
    l := 28 * rb - y;
  }

  lemma QuotientBelow(x: int, y: nat, n: nat)
    requires -(BasePow(n) as int) <= x < BasePow(n) && 28 * n <= y
    ensures x / Pow2(y) == if x < 0 then -1 else 0
  {
    BasePowIsPow2(n);
    Pow2Mono(28 * n, y);
    DivModUnique(x, Pow2(y), if x < 0 then -1 else 0, if x < 0 then x + Pow2(y) else x);
  }

  // z := x >> y
  method ShiftR(xsize: nat, x: array<int>, y: nat, z: array<int>) returns (zsize: nat)
    requires Trim(x, xsize) && 0 < xsize && 0 < y && xsize < z.Length && z != x
    modifies z
    ensures Trim(z, zsize) && Value(z, zsize) == Value(x, xsize) / Pow2(y)
  {
    ghost var xs := x[..xsize];
    assert Normal(xs);
    var rb, l := RightShiftParts(y);
    if rb >= xsize + 1 {
      ValBound(xs);
      QuotientBelow(Val(xs), y, xsize);
      return 0;
    }
    zsize := xsize + 1 - rb;
    ShiftDigits(xsize, x, rb, l, 0, z);
    ghost var d := Shifted(xs, l);
    assert z[..zsize] == d[rb..];
    SuffixQuotient(d, rb);
    ShiftedValue(xs, l);
    DetourQuotient(Val(xs), y, rb, l);
    zsize := DropSuffix(zsize, z, rb, d, xsize) by { ShiftedTop(xs, l); }
  }

  // Of a suffix of shifted digits only the overflow digit can be zero.
  method DropSuffix(n: nat, z: array<int>, rb: nat, ghost d: seq<int>, ghost m: nat) returns (zsize: nat)
    requires |d| == m + 1 && 0 < m && 0 < rb <= m && n == m + 1 - rb <= z.Length && z[..n] == d[rb..]
    requires AllDigits(d) && Val(d) >= BasePow(m - 1)
    ensures Trim(z, zsize) && Value(z, zsize) == Value(z, n)
  {
    zsize := n;
    forall k | 0 <= k < n ensures IsDigit(z[k]) && z[k] == d[rb + k] {
      assert z[k] == z[..n][k] == d[rb..][k];
    }
    if z[n - 1] == 0 {
      DropTop(d);
      ValTop(d[..m]);
      DropTop(z[..n]);
      assert z[..n][..n - 1] == z[..n - 1];
      assert d[..m][m - 1] == d[m - 1];
      zsize := n - 1;
    }
  }

  // The digits of a right-shifted encoding: shifted digits, the ones the sign brings in, the sign bit.
  ghost function Arithmetic(d: seq<int>, n: nat, rb: nat, l: nat): (z: seq<int>)
    requires |d| == n + 1 && 0 < rb <= n && l < 28
    ensures |z| == n
  {
    d[rb..n] + [d[n] + BASE - Pow2(l)] + seq(rb - 1, _ => BASE - 1)
  }

  lemma {:induction false} AllOnes(n: nat)
    ensures Val(seq(n, _ => BASE - 1)) == BasePow(n) - 1
  {
    if n > 0 {
      var s := seq(n, _ => BASE - 1);
      assert s[1..] == seq(n - 1, _ => BASE - 1);
      AllOnes(n - 1);
      MulDistrib(BASE, BasePow(n - 1), -1);
    }
  }

  // Their value, before the sign bit: floor(low * 2^l / BASE^rb) below BASE^n - 2^l * BASE^(n-rb).
  lemma ArithmeticValue(d: seq<int>, n: nat, rb: nat, l: nat)
    requires |d| == n + 1 && 0 < rb <= n && l < 28 && AllDigits(d)
    ensures Val(Arithmetic(d, n, rb, l)) == Val(d) / BasePow(rb) + BasePow(n) - Pow2(l) * BasePow(n - rb)
  {
    var m, e, low := n - rb, Pow2(l), d[rb..n];
    assert Val(low) + BasePow(m) * d[n] == Val(d) / BasePow(rb) by {
      SuffixQuotient(d, rb);
      assert d[rb..] == low + [d[n]];
      ValPush(low, d[n]);
    }
    ThreeParts(low, d[n] + BASE - e, rb - 1);
    OnesAbove(BasePow(m), d[n], e, BasePow(n));
  }

  lemma ThreeParts(low: seq<int>, t: int, k: nat)
    ensures Val(low + [t] + seq(k, _ => BASE - 1))
         == Val(low) + BasePow(|low|) * t + (BasePow(|low| + 1 + k) - BasePow(|low| + 1))
  {
    var m, ones := |low|, seq(k, _ => BASE - 1);
    var z := low + [t] + ones;
    ValSplit(z, m + 1);
    assert z[..m + 1] == low + [t] && z[m + 1..] == ones;
    ValPush(low, t);
    AllOnes(k);
    BasePowAdd(m + 1, k);
    MulDistrib(BasePow(m + 1), BasePow(k), -1);
  }

  lemma OnesAbove(p: int, t: int, e: int, pn: int)
    ensures p * (t + BASE - e) + (pn - BASE * p) == p * t + pn - e * p
  {
    MulDistrib(p, t, BASE - e);
    MulDistrib(p, BASE, -e);
  }

  // ... which is the encoding of floor((low - BASE^n) / 2^y) without its sign bit.
  lemma ArithmeticQuotient(low: int, n: nat, y: nat, rb: nat, l: nat)
    requires 28 * rb == y + l && rb <= n
    ensures (low * Pow2(l)) / BasePow(rb) - Pow2(l) * BasePow(n - rb) == (low - BasePow(n)) / Pow2(y)
  {
    var e, p, q, v := Pow2(l), BasePow(rb), BasePow(n - rb), low - BasePow(n);
    assert BasePow(n) == p * q by { BasePowAdd(rb, n - rb); }
    assert (v * e) / p == v / Pow2(y) by { DetourQuotient(v, y, rb, l); }
    assert v * e == low * e - (e * q) * p by { ShiftedDifference(low, e, p, q); }
    DivShift(low * e, e * q, p);
  }

  lemma ShiftedDifference(low: int, e: int, p: int, q: int)
    ensures (low - p * q) * e == low * e - (e * q) * p
  {
    MulDistrib(e, low, -(p * q));
    MulAssoc(e, q, p);
  }

  lemma DivShift(x: int, k: int, p: nat)
    requires 0 < p
    ensures (x - k * p) / p == x / p - k
  {
    var q, r := x / p, x % p;
    MulDistrib(p, q, -k);
    DivModUnique(x - k * p, p, q - k, r);
  }

  // Or-ing in the ones above position l absorbs the sign bit already at position l.
  lemma {:induction false} OrMask(t: int, b: int, l: nat, h: int, n: nat, p: int, u: int, v: int)
    requires l < n && p == Pow2(l) && 0 <= t < p && 0 <= b <= 1 && 0 < h && h % 2 == 1
    requires u == t + b * p && v == p * h && v < Pow2(n)
    ensures Bitwise(Or, u, v, n) == t + v
    decreases l
  {
    if l == 0 {
      OrOdd(b, h, n);
    } else {
      var p' := Pow2(l - 1);
      var bp, ph := b * p', p' * h;
      HalfProducts(p', b, h);
      HalfBounds(t, l, n, p, p', v, ph);
      OrMask(t / 2, b, l - 1, h, n - 1, p', t / 2 + bp, ph);
      OrMaskStep(t, bp, ph, n, u, v);
    }
  }

  lemma OrOdd(b: int, h: int, n: nat)
    requires 0 < n && 0 <= b <= 1 && 0 < h < Pow2(n) && h % 2 == 1
    ensures Bitwise(Or, b, h, n) == h
  {
    BitwiseStep(Or, b, h, n);
    OrZero(h / 2, n - 1);
  }

  lemma HalfBounds(t: int, l: nat, n: nat, p: int, p': int, v: int, ph: int)
    requires 0 < l < n && p == Pow2(l) && p' == Pow2(l - 1) && 0 <= t < p && v == 2 * ph && v < Pow2(n)
    ensures 0 <= t / 2 < p' && ph < Pow2(n - 1)
  {
  }

  lemma HalfProducts(p: int, b: int, h: int)
    ensures b * (2 * p) == 2 * (b * p) && (2 * p) * h == 2 * (p * h)
  {
    MulAssoc(2, p, h);
    MulAssoc(b, 2, p);
  }

  lemma OrMaskStep(t: int, bp: int, ph: int, n: nat, u: int, v: int)
    requires 0 < n && u == t + 2 * bp && v == 2 * ph
    requires Bitwise(Or, t / 2 + bp, ph, n - 1) == t / 2 + ph
    ensures Bitwise(Or, u, v, n) == t + v
  {
    BitwiseStep(Or, u, v, n);
    assert u / 2 == t / 2 + bp && u % 2 == t % 2 && v / 2 == ph && v % 2 == 0;
  }

  // The overflow digit of x << l holds the bits the top digit passes up.
  lemma OverflowDigit(top: int, l: nat)
    requires 0 <= top < 2 * BASE && l < 28
    ensures ShiftedDigit(top, 0, l) == if l == 0 then 0 else top / Pow2(28 - l)
  {
    var e, w := Pow2(l), if l == 0 then 0 else top / Pow2(28 - l);
    assert 0 <= w < Pow2(29) by {
      assert Pow2(29) == 2 * BASE by { Pow2Values(); }
      if l > 0 {
        DivShrinks(top, Pow2(28 - l));
      }
    }
    OrZero(w, 29);
    NothingIn(e);
  }

  lemma NothingIn(e: int)
    ensures (0 * e) % BASE == 0
  {
    assert 0 * e == 0;
  }

  lemma DivShrinks(x: int, p: nat)
    requires 0 <= x && 0 < p
    ensures 0 <= x / p <= x
  {
    if x / p > x {
      MulMono(1, p, x / p);
    }
  }

  // The overflow digit of an encoding, before and after the ones are brought in.
  lemma SignDigitShift(top: int, l: nat)
    requires BASE <= top < 2 * BASE && l < 28
    ensures ShiftedDigit(top, 0, l) == ShiftedDigit(top - BASE, 0, l) + (if l == 0 then 0 else Pow2(l))
    ensures 0 <= ShiftedDigit(top - BASE, 0, l) < Pow2(l)
  {
    var p, e := Pow2(28 - l), Pow2(l);
    OverflowDigit(top, l);
    OverflowDigit(top - BASE, l);
    if l > 0 {
      assert e * p == BASE by { Pow2Complement(l); }
      DivShift(top, e, p);
      HighPart(top - BASE, e, p);
    }
  }

  // (MASK_LOW28 >> l) << l
  function HighMask(l: nat): int
    requires l < 28
  {
    ((BASE - 1) / Pow2(l)) * Pow2(l)
  }

  lemma HighMaskValue(l: nat) returns (h: int)
    requires l < 28
    ensures HighMask(l) == Pow2(l) * h && Pow2(l) * h == BASE - Pow2(l) && 0 < h && h % 2 == 1
  {
    var p, e := Pow2(28 - l), Pow2(l);
    Pow2Complement(l);
    h := p - 1;
    OddBelow(28 - l);
    MaskQuotient(BASE, e, p);
    MaskIs(l, e, h);
  }

  lemma OddBelow(k: nat)
    requires 0 < k
    ensures 0 < Pow2(k) - 1 && (Pow2(k) - 1) % 2 == 1
  {
    assert Pow2(k) == 2 * Pow2(k - 1);
  }

  lemma MaskIs(l: nat, e: int, h: int)
    requires l < 28 && e == Pow2(l) && (BASE - 1) / e == h
    ensures HighMask(l) == e * h
  {
  }

  lemma MaskQuotient(b: int, e: int, p: int)
    requires 0 < e && e * p == b
    ensures (b - 1) / e == p - 1 && e * (p - 1) == b - e
  {
    MulDistrib(e, p, -1);
    DivModUnique(b - 1, e, p - 1, e - 1);
  }

  lemma OverflowOr(t: int, b: int, l: nat, w: int)
    requires l < 28 && 0 <= t < Pow2(l) && 0 <= b <= 1 && w == t + b * Pow2(l)
    ensures Bitwise(Or, w, HighMask(l), 29) == t + BASE - Pow2(l)
  {
    var h := HighMaskValue(l);
    assert Pow2(29) == 2 * BASE by { Pow2Values(); }
    OrMask(t, b, l, h, 29, Pow2(l), w, HighMask(l));
  }

  lemma SignedOverflow(top: int, l: nat)
    requires BASE <= top < 2 * BASE && l < 28
    ensures Bitwise(Or, ShiftedDigit(top, 0, l), HighMask(l), 29) == ShiftedDigit(top - BASE, 0, l) + BASE - Pow2(l)
  {
    SignDigitShift(top, l);
    OverflowOr(ShiftedDigit(top - BASE, 0, l), if l == 0 then 0 else 1, l, ShiftedDigit(top, 0, l));
  }

  // Below the overflow digit the imaginary sign bit is never seen.
  lemma SignUnseen(below: int, top: int, l: nat)
    requires BASE <= top < 2 * BASE && l < 28
    ensures ShiftedDigit(below, top, l) == ShiftedDigit(below, top - BASE, l)
  {
    var e := Pow2(l);
    var q, r := (top - BASE) * e / BASE, (top - BASE) * e % BASE;
    assert (top - BASE) * e == q * BASE + r;
    MulDistrib(e, top, -BASE);
    DivModUnique(top * e, BASE, q + e, r);
  }

  // The digits read from an encoding are those of its low part.
  lemma ReadsStripped(x: array<int>, n: nat, j: nat, l: nat)
    requires HoldsSigned(x, n) && x[n - 1] >= BASE && j < n && l < 28
    ensures GetShiftedDigit(n, x, j, l) == Shifted(Strip(x[..n]), l)[j]
  {
    var st := Strip(x[..n]);
    if j == n - 1 {
      SignUnseen(if j == 0 then 0 else x[j - 1], x[j], l);
    }
  }

  lemma ArithmeticDigits(d: seq<int>, n: nat, rb: nat, l: nat)
    requires |d| == n + 1 && 0 < rb <= n && l < 28 && AllDigits(d) && d[n] < Pow2(l)
    ensures AllDigits(Arithmetic(d, n, rb, l))
  {
    assert Pow2(l) <= BASE by { Pow2Mono(l, 28); Pow2Values(); }
  }

  // The overflow digit with the ones brought in at the sign.
  lemma OverflowFilled(n: nat, x: array<int>, l: nat)
    requires HoldsSigned(x, n) && x[n - 1] >= BASE && l < 28
    ensures Bitwise(Or, GetShiftedDigit(n, x, n, l), HighMask(l), 29) == Shifted(Strip(x[..n]), l)[n] + BASE - Pow2(l)
  {
    SignedOverflow(x[n - 1], l);
  }

  method CopyShifted(n: nat, x: array<int>, rb: nat, l: nat, z: array<int>)
    requires HoldsSigned(x, n) && x[n - 1] >= BASE && 0 < rb <= n && l < 28 && n <= z.Length && z != x
    modifies z
    ensures z[..n - rb] == Shifted(Strip(x[..n]), l)[rb..n]
  {
    ghost var d := Shifted(Strip(x[..n]), l);
    var j, i := rb, 0;
    while j < n
      invariant rb <= j <= n && i == j - rb && z[..i] == d[rb..j]
    {
      ReadsStripped(x, n, j, l);
      z[i] := GetShiftedDigit(n, x, j, l);
      j, i := j + 1, i + 1;
    }
  }

  // Writes the shifted digits, bringing in ones at the sign.
  method FillHead(n: nat, x: array<int>, rb: nat, l: nat, z: array<int>)
    requires HoldsSigned(x, n) && x[n - 1] >= BASE && 0 < rb <= n && l < 28 && n <= z.Length && z != x
    modifies z
    ensures var d := Shifted(Strip(x[..n]), l); z[..n - rb + 1] == d[rb..n] + [d[n] + BASE - Pow2(l)]
  {
    CopyShifted(n, x, rb, l, z);
    z[n - rb] := GetShiftedDigit(n, x, n, l);
    OverflowFilled(n, x, l);
    z[n - rb] := Bitwise(Or, z[n - rb], HighMask(l), 29);
  }

  // Writes digits of ones from position from up to position n.
  method FillOnes(from: nat, n: nat, z: array<int>)
    requires from <= n <= z.Length
    modifies z
    ensures z[..n] == old(z[..from]) + seq(n - from, _ => BASE - 1)
  {
    for k := from to n
      invariant z[..k] == old(z[..from]) + seq(k - from, _ => BASE - 1)
    {
      z[k] := BASE - 1;
    }
  }

  // Writes the shifted digits and the ones above them.
  method FillShifted(n: nat, x: array<int>, rb: nat, l: nat, z: array<int>)
    requires HoldsSigned(x, n) && x[n - 1] >= BASE && 0 < rb <= n && l < 28 && n <= z.Length && z != x
    modifies z
    ensures z[..n] == Arithmetic(Shifted(Strip(x[..n]), l), n, rb, l)
  {
    FillHead(n, x, rb, l, z);
    FillOnes(n - rb + 1, n, z);
  }

  lemma ShiftedStripped(s: seq<int>, l: nat)
    requires Signed(s) && s[|s| - 1] >= BASE && l < 28
    ensures var d := Shifted(Strip(s), l);
      |d| == |s| + 1 && AllDigits(d) && d[|s|] < Pow2(l) && Val(d) == Val(Strip(s)) * Pow2(l)
  {
    StripDigits(s);
    ShiftedValue(Strip(s), l);
    SignDigitShift(s[|s| - 1], l);
  }

  // The digits of the shifted encoding, without the sign bit, stand for BASE^n + floor(v / 2^y).
  method FillEncoding(n: nat, x: array<int>, y: nat, z: array<int>)
    requires HoldsSigned(x, n) && x[n - 1] >= BASE && 0 < y && n <= z.Length && z != x
    modifies z
    ensures Holds(z, n) && Value(z, n) == BasePow(n) + (Value(x, n) - 2 * BasePow(n)) / Pow2(y)
  {
    ghost var st := Strip(x[..n]);
    assert AllDigits(x[..n][..n - 1]);
    StripDigits(x[..n]);
    StripValue(x[..n]);
    ValBound(st);
    ghost var v := Val(st) - BasePow(n);
    var rb, l := RightShiftParts(y);
    if rb <= n {
      FillShifted(n, x, rb, l, z);
      ShiftedStripped(x[..n], l);
      EncodedValue(Shifted(st, l), Val(st), n, y, rb, l);
    } else {
      FillOnes(0, n, z);
      assert z[..n] == seq(n, _ => BASE - 1);
      AllOnes(n);
      QuotientBelow(v, y, n);
    }
  }

  lemma EncodedValue(d: seq<int>, low: int, n: nat, y: nat, rb: nat, l: nat)
    requires |d| == n + 1 && AllDigits(d) && 0 < rb <= n && l < 28 && 28 * rb == y + l && d[n] < Pow2(l)
    requires Val(d) == low * Pow2(l)
    ensures AllDigits(Arithmetic(d, n, rb, l))
    ensures Val(Arithmetic(d, n, rb, l)) == BasePow(n) + (low - BasePow(n)) / Pow2(y)
  {
    ArithmeticDigits(d, n, rb, l);
    ArithmeticValue(d, n, rb, l);
    ArithmeticQuotient(low, n, y, rb, l);
  }

  // x >> y on an encoding with its sign bit set, the sign bit staying on top.
  method ShiftRTwos(n: nat, x: array<int>, y: nat, z: array<int>)
    requires HoldsSigned(x, n) && x[n - 1] >= BASE && 0 < y && n <= z.Length && z != x
    modifies z
    ensures HoldsSigned(z, n) && z[n - 1] >= BASE
    ensures Value(z, n) == 2 * BasePow(n) + (Value(x, n) - 2 * BasePow(n)) / Pow2(y)
  {
    FillEncoding(n, x, y, z);
    ghost var digits := z[..n];
    z[n - 1] := WithSign(z[n - 1]);
    ghost var signed := z[..n];
    SubTop(signed, n - 1, signed[n - 1] - BASE);
    assert digits == signed[n - 1 := signed[n - 1] - BASE];
  }

  lemma NegativeQuotient(v: int, y: nat)
    requires v < 0
    ensures v <= v / Pow2(y) < 0
  {
    var p := Pow2(y);
    var q, r := v / p, v % p;
    assert v == q * p + r;
    if q >= 0 {
      MulMono(0, q, p);
    }
    if q < v {
      NegativeGrows(v, q, p);
    }
  }

  lemma NegativeGrows(v: int, q: int, p: nat)
    requires v < 0 && q < v && 0 < p
    ensures q * p + p <= v
  {
    MulMono(q + 1, v, p);
    MulDistrib(p, q, 1);
    MulMono(1, p, -v);
  }

  // v * 2^k for k >= 0, floor(v / 2^-k) for k < 0
  ghost function ShiftOf(v: int, k: int): int {
    if k >= 0 then v * Pow2(k) else v / Pow2(-k)
  }

  datatype ShiftResult = Shifts(t: Term) | OutOfMemory

  const MAX_LEFT_SHIFT: int := 7205759403792793 // BP_MAXINT_1W / 10

  // op1 << op2; a negative shift goes right, an enormous one is refused.
  method ShiftLBig(op1: Term, op2: int) returns (r: ShiftResult)
    requires IsBig(op1) && 0 < |op1.ds|
    ensures r.OutOfMemory? <==> op2 > MAX_LEFT_SHIFT
    ensures r.Shifts? ==> IntOf(r.t) == ShiftOf(IntOf(op1), op2)
    ensures r.Shifts? ==> if op2 == 0 then r.t == op1 else Canonical(r.t)
  {
    if op2 < 0 {
      var t := ShiftRightBig(op1, -op2);
      return Shifts(t);
    }
    if op2 == 0 {
      return Shifts(op1);
    }
    if op2 > MAX_LEFT_SHIFT {
      return OutOfMemory;
    }
    var t := ShiftLeftBig(op1, op2);
    return Shifts(t);
  }

  // op1 >> op2; a negative shift goes left.
  method ShiftRBig(op1: Term, op2: int) returns (r: ShiftResult)
    requires IsBig(op1) && 0 < |op1.ds|
    ensures r.OutOfMemory? <==> -op2 > MAX_LEFT_SHIFT
    ensures r.Shifts? ==> IntOf(r.t) == ShiftOf(IntOf(op1), -op2)
    ensures r.Shifts? ==> if op2 == 0 then r.t == op1 else Canonical(r.t)
  {
    if op2 < 0 {
      r := ShiftLBig(op1, -op2);
    } else if op2 == 0 {
      return Shifts(op1);
    } else {
      var t := ShiftRightBig(op1, op2);
      return Shifts(t);
    }
  }

  method ShiftLeftBig(op1: Term, y: nat) returns (t: Term)
    requires IsBig(op1) && 0 < |op1.ds|
    ensures Canonical(t) && IntOf(t) == IntOf(op1) * Pow2(y)
  {
    var xsize := |op1.ds|;
    var x := Unpack(op1.ds, xsize);
    var z := new int[xsize + 10 + y];
    ValLower(op1.ds);
    var zsize := ShiftL(xsize, x, y, z);
    MulMono(1, Val(op1.ds), Pow2(y));
    MulAssoc(op1.sign, Val(op1.ds), Pow2(y));
    t := Pack(op1.sign, zsize, z);
  }

  // floor(op1 / 2^y), whatever the sign of op1
  method ShiftRightBig(op1: Term, y: nat) returns (t: Term)
    requires IsBig(op1) && 0 < |op1.ds| && 0 < y
    ensures Canonical(t) && IntOf(t) == IntOf(op1) / Pow2(y)
  {
    var xsize := |op1.ds|;
    var x := Unpack(op1.ds, xsize);
    ValLower(op1.ds);
    var z := new int[xsize + 1];
    if op1.sign > 0 {
      var zsize := ShiftR(xsize, x, y, z);
      if zsize == 0 {
        return Small(0);
      }
      t := Pack(1, zsize, z);
    } else {
      t := ShiftRightNegative(xsize, x, y, z);
    }
  }

  method ShiftRightNegative(n: nat, x: array<int>, y: nat, z: array<int>) returns (t: Term)
    requires 0 < n && Holds(x, n) && 0 < Value(x, n) && 0 < y && n <= z.Length && z != x
    modifies x, z
    ensures Canonical(t) && IntOf(t) == -old(Value(x, n)) / Pow2(y)
  {
    ghost var v := -Value(x, n);
    ValueBound(x, n);
    NegativeQuotient(v, y);
    TwosComplement(n, x);
    ShiftRTwos(n, x, y, z);
    var size := Magnitude(n, z);
    if size == 0 {
      return Small(0);
    }
    t := Pack(-1, size, z);
  }
}
