// Bitwise operations on signed bigints by way of two's complement with an imaginary sign bit:
// the top digit of a negative operand carries bit 28 as its sign.
module BigLogic {
  import opened Powers
  import opened Digits
  import opened Bits
  import opened UBig
  import opened BigInt

  // Digits whose top one may carry the imaginary sign bit.
  ghost predicate Signed(s: seq<int>) {
    0 < |s| && AllDigits(s[..|s| - 1]) && 0 <= s[|s| - 1] < 2 * BASE
  }

  ghost predicate HoldsSigned(a: array<int>, size: nat)
    reads a
  {
    0 < size <= a.Length && (forall k :: 0 <= k < size - 1 ==> IsDigit(a[k])) && 0 <= a[size - 1] < 2 * BASE
  }

  // An integer of fewer than 28*n bits as n digits and a sign bit, read as one number.
  ghost function Encode(v: int, n: nat): int {
    if v < 0 then 2 * BasePow(n) + v else v
  }

  ghost function Decode(u: int, n: nat): int {
    if u >= BasePow(n) then u - 2 * BasePow(n) else u
  }

  // d | BASE for a digit that may already carry the sign bit
  function WithSign(d: int): int {
    if d >= BASE then d else d + BASE
  }

  // ~d & MASK_LOW28
  function Not28(d: int): int {
    BASE - 1 - d % BASE
  }

  // x := ~x, digit by digit; with digits in range the value is reflected.
  method Complement(size: nat, x: array<int>)
    requires size <= x.Length
    modifies x
    ensures forall k :: 0 <= k < size ==> x[k] == Not28(old(x[k]))
    ensures Holds(x, size)
  {
    for i := 0 to size
      invariant forall k :: 0 <= k < i ==> x[k] == Not28(old(x[k]))
      invariant forall k :: i <= k < size ==> x[k] == old(x[k])
    {
      x[i] := Not28(x[i]);
    }
  }

  lemma {:induction false} ComplementValue(x: seq<int>, z: seq<int>)
    requires AllDigits(x) && |x| == |z| && forall k :: 0 <= k < |x| ==> z[k] == Not28(x[k])
    ensures Val(z) == BasePow(|x|) - 1 - Val(x)
    decreases |x|
  {
    if |x| > 0 {
      ComplementValue(x[1..], z[1..]);
      DivModUnique(x[0], BASE, 0, x[0]);
      MulDistrib(BASE, BasePow(|x| - 1) - 1, -Val(x[1..]));
    }
  }

  // x := ~x + 1 with the sign bit on top, for x > 0: the encoding of -x.
  method TwosComplement(size: nat, x: array<int>)
    requires 0 < size && Holds(x, size) && Value(x, size) > 0
    modifies x
    ensures HoldsSigned(x, size) && x[size - 1] >= BASE
    ensures Value(x, size) == Encode(-old(Value(x, size)), size)
  {
    ghost var xs := x[..size];
    assert AllDigits(xs);
    Complement(size, x);
    ghost var w := x[..size];
    ComplementValue(xs, w);
    PlusOne(size, x);
    ghost var low := x[..size];
    x[size - 1] := WithSign(x[size - 1]);
    assert x[..size] == low[size - 1 := low[size - 1] + BASE];
    ValUpdate(low, size - 1, low[size - 1] + BASE);
  }

  // Adds one in place; there is room for it.
  method PlusOne(size: nat, x: array<int>)
    requires Holds(x, size) && Value(x, size) + 1 < BasePow(size)
    modifies x
    ensures Holds(x, size) && Value(x, size) == old(Value(x, size)) + 1
  {
    ghost var w := x[..size];
    ghost var c := [1];
    var carry, i := 1, 0;
    while i < size && carry == 1
      invariant 0 <= i <= size && |c| == i + 1 && c[0] == 1 && c[i] == carry && 0 <= carry <= 1
      invariant forall k :: 0 <= k < i ==> IsDigit(x[k]) && CarryAt(x[k], w[k], c, k)
      invariant forall k :: i <= k < size ==> x[k] == w[k] && IsDigit(w[k])
    {
      x[i], carry := SplitCarry(x[i] + carry);
      c := c + [carry];
      i := i + 1;
    }
    CarryPrefix(x[..size], w, c);
    ValueBound(x, size);
  }

  // The encoding of one operand in n digits: padded by zeros, complemented when negative.
  method Operand(t: Term, n: nat) returns (x: array<int>)
    requires IsBig(t) && |t.ds| <= n && 0 < n
    ensures fresh(x) && x.Length == n && HoldsSigned(x, n)
    ensures Value(x, n) == Encode(IntOf(t), n) && -IntOf(t) < BasePow(n) && IntOf(t) < BasePow(n)
    ensures |t.ds| == n && t.sign == 1 ==> x[n - 1] != 0
    ensures t.sign == -1 ==> x[n - 1] >= BASE
  {
    x := Unpack(t.ds, n);
    for i := |t.ds| to n
      invariant x[..i] == t.ds + Zeros(i - |t.ds|)
    {
      x[i] := 0;
    }
    PadValue(t.ds, n - |t.ds|);
    assert Holds(x, n);
    ValueBound(x, n);
    if t.sign < 0 {
      ValLower(t.ds);
      TwosComplement(n, x);
    }
  }

  lemma PadValue(s: seq<int>, pad: nat)
    ensures Val(s + Zeros(pad)) == Val(s)
  {
    var t := s + Zeros(pad);
    ValSplit(t, |s|);
    assert t[..|s|] == s && t[|s|..] == Zeros(pad);
    ValZeros(Zeros(pad));
  }

  // A bit no operand has is in no result.
  lemma BitwiseOfDigits(op: BoolOp, a: int, b: int)
    requires IsDigit(a) && IsDigit(b)
    ensures Bitwise(op, a, b, 29) == Bitwise(op, a, b, 28)
  {
    Pow2Values();
    BitwiseSplit(op, a, b, 28, 1);
    DivModUnique(a, BASE, 0, a);
    DivModUnique(b, BASE, 0, b);
    assert Bitwise(op, 0, 0, 1) == 0;
  }

  // Applying the operator digit by digit applies it to the numbers.
  lemma {:induction false} LogicValue(op: BoolOp, x: seq<int>, y: seq<int>, z: seq<int>)
    requires Signed(x) && Signed(y) && |x| == |y| == |z|
    requires forall k :: 0 <= k < |z| ==> z[k] == Bitwise(op, x[k], y[k], 29)
    ensures Val(z) == Bitwise(op, Val(x), Val(y), Width(|x|))
    decreases |x|
  {
    if |x| == 1 {
      LogicOne(op, x, y, z);
    } else {
      SignedTail(x);
      SignedTail(y);
      LogicValue(op, x[1..], y[1..], z[1..]);
      LogicStep(op, x[0], y[0], Val(x[1..]), Val(y[1..]), Width(|x| - 1), Val(x), Val(y), Width(|x|));
    }
  }

  lemma LogicOne(op: BoolOp, x: seq<int>, y: seq<int>, z: seq<int>)
    requires |x| == |y| == |z| == 1 && z[0] == Bitwise(op, x[0], y[0], 29)
    ensures Val(z) == Bitwise(op, Val(x), Val(y), Width(1))
  {
    OneDigit(x);
    OneDigit(y);
    OneDigit(z);
    assert Width(1) == 29;
  }

  // n digits and the sign bit
  function Width(n: nat): nat {
    28 * n + 1
  }

  lemma OneDigit(x: seq<int>)
    requires |x| == 1
    ensures Val(x) == x[0]
  {
    ValOne(x[0]);
    assert x == [x[0]];
  }

  lemma SignedTail(x: seq<int>)
    requires Signed(x) && |x| > 1
    ensures IsDigit(x[0]) && Signed(x[1..])
  {
    assert x[0] == x[..|x| - 1][0];
    assert x[1..][..|x| - 2] == x[..|x| - 1][1..];
  }

  lemma LogicStep(op: BoolOp, a: int, b: int, x: int, y: int, n: nat, u: int, v: int, m: nat)
    requires IsDigit(a) && IsDigit(b) && u == a + BASE * x && v == b + BASE * y && m == 28 + n
    ensures Bitwise(op, u, v, m) == Bitwise(op, a, b, 29) + BASE * Bitwise(op, x, y, n)
  {
    var k := m - n;
    assert Pow2(k) == BASE by { Pow2Values(); }
    BitwiseSplit(op, u, v, k, n);
    DivModUnique(u, BASE, x, a);
    DivModUnique(v, BASE, y, b);
    BitwiseMod(op, u, v, a, b, k, x, y);
    BitwiseOfDigits(op, a, b);
  }

  // The operator on two encodings of n digits.
  method LogicDigits(op: BoolOp, n: nat, x: array<int>, y: array<int>, z: array<int>)
    requires HoldsSigned(x, n) && HoldsSigned(y, n) && n <= z.Length && z != x && z != y
    modifies z
    ensures HoldsSigned(z, n) && forall k :: 0 <= k < n ==> z[k] == Bitwise(op, x[k], y[k], 29)
  {
    for i := 0 to n
      invariant forall k :: 0 <= k < i ==> z[k] == Bitwise(op, x[k], y[k], 29)
    {
      z[i] := Bitwise(op, x[i], y[i], 29);
    }
    forall k | 0 <= k < n - 1 ensures IsDigit(z[k]) {
      BitwiseOfDigits(op, x[k], y[k]);
      Pow2Values();
    }
    assert Pow2(29) == 2 * BASE by { Pow2Values(); }
  }

  // bp_twoscomplement_magnitude: z is an encoding with the sign bit set; its magnitude replaces it.
  // The encoding of -BASE^n has no magnitude of n digits: it comes out as 0.
  method Magnitude(n: nat, z: array<int>) returns (size: nat)
    requires HoldsSigned(z, n) && z[n - 1] >= BASE
    modifies z
    ensures Trim(z, size) && size <= n
    ensures Value(z, size) == old(if Value(z, n) == BasePow(n) then 0 else 2 * BasePow(n) - Value(z, n))
  {
    ghost var s := z[..n];
    SignedBound(s);
    size := Dec(n, z);
    DecKeepsTop(z, n, size);
    ghost var t := z[..n];
    assert AllDigits(t[..n - 1]);
    Complement(n, z);
    MagnitudeValue(t, z[..n], Val(s));
    size := ZapLeadingZeros(n, z);
  }

  // An encoding without its sign bit.
  ghost function Strip(s: seq<int>): (t: seq<int>)
    requires 0 < |s|
    ensures |t| == |s|
  {
    s[|s| - 1 := if s[|s| - 1] >= BASE then s[|s| - 1] - BASE else s[|s| - 1]]
  }

  lemma SubTop(s: seq<int>, n: nat, d: int)
    requires |s| == n + 1 && d == s[n] - BASE
    ensures Val(s[n := d]) == Val(s) - BasePow(n + 1)
  {
    var p := BasePow(n);
    ValUpdate(s, n, d);
    assert p * (d - s[n]) == -(BASE * p);
  }

  lemma StripDigits(s: seq<int>)
    requires Signed(s)
    ensures AllDigits(Strip(s))
  {
    var n, t := |s| - 1, Strip(s);
    forall k | 0 <= k <= n ensures IsDigit(t[k]) {
      if k < n {
        assert IsDigit(s[..n][k]);
      }
    }
  }

  lemma StripTop(s: seq<int>)
    requires 0 < |s| && s[|s| - 1] >= BASE
    ensures Val(s) == Val(Strip(s)) + BasePow(|s|)
  {
    SubTop(s, |s| - 1, s[|s| - 1] - BASE);
  }

  lemma StripSame(s: seq<int>)
    requires 0 < |s| && s[|s| - 1] < BASE
    ensures Val(s) == Val(Strip(s))
  {
    assert Strip(s) == s;
  }

  lemma StripValue(s: seq<int>)
    requires 0 < |s|
    ensures Val(s) == Val(Strip(s)) + if s[|s| - 1] >= BASE then BasePow(|s|) else 0
  {
    if s[|s| - 1] >= BASE {
      StripTop(s);
    } else {
      StripSame(s);
    }
  }

  // With the sign bit set an encoding is at least BASE^n; without it, below.
  lemma SignedBound(s: seq<int>)
    requires Signed(s)
    ensures 0 <= Val(s) < 2 * BasePow(|s|)
    ensures s[|s| - 1] >= BASE <==> Val(s) >= BasePow(|s|)
  {
    StripValue(s);
    StripDigits(s);
    ValBound(Strip(s));
  }

  // Decrementing an encoding with its sign bit set keeps all n digits.
  lemma DecKeepsTop(z: array<int>, n: nat, size: nat)
    requires 0 < n <= z.Length && size <= n && (forall k :: 0 <= k < n - 1 ==> IsDigit(z[k]))
    requires Value(z, size) >= BasePow(n) - 1
    ensures size == n
  {
    if size < n {
      BasePowMono(size, n - 1);
      assert AllDigits(z[..size]);
      ValBound(z[..size]);
    }
  }

  lemma Not28OfSigned(d: int)
    requires 0 <= d < 2 * BASE
    ensures Not28(d) == BASE - 1 - (if d >= BASE then d - BASE else d)
    ensures Not28(d) == Not28(if d >= BASE then d - BASE else d)
  {
    if d >= BASE {
      DivModUnique(d, BASE, 1, d - BASE);
      DivModUnique(d - BASE, BASE, 0, d - BASE);
    }
  }

  // Complementing an encoding drops its sign bit and reflects the digits.
  lemma ReflectSigned(t: seq<int>, z: seq<int>)
    requires Signed(t) && |z| == |t| && forall k :: 0 <= k < |t| ==> z[k] == Not28(t[k])
    ensures Val(z) == BasePow(|t|) - 1 - Val(Strip(t))
  {
    StripDigits(t);
    Not28OfSigned(t[|t| - 1]);
    ComplementValue(Strip(t), z);
  }

  // The arithmetic of the detour: decrement, reflect.
  lemma MagnitudeValue(t: seq<int>, z: seq<int>, u: int)
    requires Signed(t) && |z| == |t| && forall k :: 0 <= k < |t| ==> z[k] == Not28(t[k])
    requires Val(t) == u - 1 && BasePow(|t|) <= u
    ensures Val(z) == if u == BasePow(|t|) then 0 else 2 * BasePow(|t|) - u
  {
    ReflectSigned(t, z);
    StripValue(t);
    SignedBound(t);
  }

  // The operands for which the combined digits are all zero but the sign comes out set:
  // the true result is then -BASE^n.
  ghost predicate SignOnly(op: BoolOp, x: int, y: int, n: nat) {
    op.On(x < 0, y < 0) && Bitwise(op, x, y, 28 * n) == 0
  }

  // The encoding of the true result, and when it is the sign bit alone.
  lemma CombinedEncoding(op: BoolOp, x: int, y: int, n: nat, u: int)
    requires -x < BasePow(n) && x < BasePow(n) && -y < BasePow(n) && y < BasePow(n)
    requires u == Bitwise(op, Encode(x, n), Encode(y, n), Width(n))
    ensures 0 <= u < 2 * BasePow(n) && BitsAgree(op, x, y, Decode(u, n))
    ensures u == BasePow(n) <==> SignOnly(op, x, y, n)
  {
    var m := 28 * n;
    var k, l := if x < 0 then 1 else 0, if y < 0 then 1 else 0;
    assert BasePow(n) == Pow2(m) by { BasePowIsPow2(n); }
    assert u == Bitwise(op, x, y, m + 1) by {
      BitwiseMod(op, Encode(x, n), Encode(y, n), x, y, m + 1, k, l);
    }
    SignedCombination(op, x, y, m, u, Decode(u, n));
    assert u == Bitwise(op, x, y, m) + Pow2(m) * Num(op.On(x < 0, y < 0)) by {
      BitwiseSplit(op, x, y, m, 1);
      SignQuotient(x, Pow2(m));
      SignQuotient(y, Pow2(m));
      SignDigit(op, x < 0, y < 0);
    }
  }

  lemma SignQuotient(x: int, p: nat)
    requires 0 < p && -x < p && x < p
    ensures x / p == if x < 0 then -1 else 0
  {
    if x < 0 {
      DivModUnique(x, p, -1, x + p);
    } else {
      DivModUnique(x, p, 0, x);
    }
  }

  lemma SignDigit(op: BoolOp, p: bool, q: bool)
    ensures Bitwise(op, if p then -1 else 0, if q then -1 else 0, 1) == Num(op.On(p, q))
  {
    var a, b := if p then -1 else 0, if q then -1 else 0;
    BitwiseStep(op, a, b, 1);
    assert Bitwise(op, a / 2, b / 2, 0) == 0;
  }

  // The result term of an encoding whose leading zeros are gone.
  method PackSigned(n: nat, size0: nat, z: array<int>) returns (t: Term)
    requires 2 <= n && size0 <= n && HoldsSigned(z, n) && (size0 > 0 ==> z[size0 - 1] != 0)
    modifies z
    ensures Canonical(t)
    ensures IntOf(t) == old(if Value(z, size0) == BasePow(n) then 0 else Decode(Value(z, size0), n))
  {
    assert AllDigits(z[..n][..n - 1]);
    SignedBound(z[..n]);
    var size := size0;
    if size == 0 {
      return Small(0);
    }
    if size < n {
      ValueBound(z, size);
      BasePowMono(size, n);
    }
    if size == 1 {
      OneDigit(z[..1]);
      return Small(z[0]);
    }
    if z[size - 1] >= BASE {
      size := Magnitude(n, z);
      if size == 0 {
        return Small(0);
      }
      t := Pack(-1, size, z);
    } else {
      t := Pack(1, size, z);
    }
  }

  // op1 & op2, op1 | op2 or op1 ^ op2 for operands the longer of which has n >= 2 digits.
  method LogicBig(op: BoolOp, op1: Term, op2: Term) returns (t: Term)
    requires IsBig(op1) && IsBig(op2) && (2 <= |op1.ds| || 2 <= |op2.ds|)
    ensures Canonical(t)
    ensures var n := if |op1.ds| > |op2.ds| then |op1.ds| else |op2.ds|;
      if SignOnly(op, IntOf(op1), IntOf(op2), n)
      then IntOf(t) == 0 && BitsAgree(op, IntOf(op1), IntOf(op2), -(BasePow(n) as int))
      else BitsAgree(op, IntOf(op1), IntOf(op2), IntOf(t))
  {
    var n := if |op1.ds| > |op2.ds| then |op1.ds| else |op2.ds|;
    var x := Operand(op1, n);
    var y := Operand(op2, n);
    ghost var xv, yv := IntOf(op1), IntOf(op2);
    var size, z := Combine(op, n, x, y);
    CombinedEncoding(op, xv, yv, n, Value(z, size));
    t := PackSigned(n, size, z);
  }

  // Combines two encodings into a fresh array; AND and XOR drop leading zeros, OR has none.
  method Combine(op: BoolOp, n: nat, x: array<int>, y: array<int>) returns (size: nat, z: array<int>)
    requires HoldsSigned(x, n) && HoldsSigned(y, n) && (op == Or ==> x[n - 1] != 0 || y[n - 1] != 0)
    ensures fresh(z) && HoldsSigned(z, n) && size <= n && (size > 0 ==> z[size - 1] != 0)
    ensures Value(z, size) == Bitwise(op, Value(x, n), Value(y, n), Width(n))
  {
    z := new int[n];
    LogicDigits(op, n, x, y, z);
    LogicArrays(op, n, x, y, z);
    size := n;
    if op != Or {
      size := ZapLeadingZeros(n, z);
    } else {
      OrTop(x[n - 1], y[n - 1]);
    }
  }

  lemma LogicArrays(op: BoolOp, n: nat, x: array<int>, y: array<int>, z: array<int>)
    requires HoldsSigned(x, n) && HoldsSigned(y, n) && n <= z.Length
    requires forall k :: 0 <= k < n ==> z[k] == Bitwise(op, x[k], y[k], 29)
    ensures Value(z, n) == Bitwise(op, Value(x, n), Value(y, n), Width(n))
  {
    var xs, ys, zs := x[..n], y[..n], z[..n];
    assert Signed(xs) && Signed(ys);
    LogicValue(op, xs, ys, zs);
  }

  // A disjunction is zero only if both operands are, so OR never needs trimming.
  lemma OrTop(a: int, b: int)
    requires 0 <= a < 2 * BASE && 0 <= b < 2 * BASE && (a != 0 || b != 0)
    ensures Bitwise(Or, a, b, 29) != 0
  {
    assert Pow2(29) == 2 * BASE by { Pow2Values(); }
    OrNonzero(a, b, 29);
  }

  lemma {:induction false} OrNonzero(a: int, b: int, n: nat)
    requires 0 <= a < Pow2(n) && 0 <= b < Pow2(n) && (a != 0 || b != 0)
    ensures Bitwise(Or, a, b, n) != 0
    decreases n
  {
    if a % 2 == 0 && b % 2 == 0 {
      OrNonzero(a / 2, b / 2, n - 1);
    }
  }

  lemma {:induction false} XorZeroMeans(a: int, b: int, n: nat) returns (k: int)
    requires Bitwise(Xor, a, b, n) == 0
    ensures a == b + k * Pow2(n)
    decreases n
  {
    if n == 0 {
      k := a - b;
    } else {
      k := XorZeroMeans(a / 2, b / 2, n - 1);
      assert k * Pow2(n) == 2 * (k * Pow2(n - 1)) by { MulAssoc(k, 2, Pow2(n - 1)); MulAssoc(2, k, Pow2(n - 1)); }
    }
  }

  lemma {:induction false} OrZeroMeans(a: int, b: int, n: nat) returns (k: int, l: int)
    requires Bitwise(Or, a, b, n) == 0
    ensures a == k * Pow2(n) && b == l * Pow2(n)
    decreases n
  {
    if n == 0 {
      k, l := a, b;
    } else {
      k, l := OrZeroMeans(a / 2, b / 2, n - 1);
      assert k * Pow2(n) == 2 * (k * Pow2(n - 1)) by { MulAssoc(k, 2, Pow2(n - 1)); MulAssoc(2, k, Pow2(n - 1)); }
      assert l * Pow2(n) == 2 * (l * Pow2(n - 1)) by { MulAssoc(l, 2, Pow2(n - 1)); MulAssoc(2, l, Pow2(n - 1)); }
    }
  }

  lemma {:induction false} XorSelf(a: int, n: nat)
    ensures Bitwise(Xor, a, a, n) == 0
    decreases n
  {
    if n > 0 {
      XorSelf(a / 2, n - 1);
    }
  }

  lemma NoMultipleBetween(x: int, k: int, p: nat)
    requires x == k * p && -x < p && x < p
    ensures x == 0
  {
    if k >= 1 {
      MulMono(1, k, p);
    } else if k <= -1 {
      MulMono(k, -1, p);
    }
  }

  // OR is right on all operands.
  lemma OrNeverSignOnly(x: int, y: int, n: nat)
    requires -x < BasePow(n) && x < BasePow(n) && -y < BasePow(n) && y < BasePow(n)
    ensures !SignOnly(Or, x, y, n)
  {
    if Bitwise(Or, x, y, 28 * n) == 0 {
      var k, l := OrZeroMeans(x, y, 28 * n);
      BasePowIsPow2(n);
      NoMultipleBetween(x, k, BasePow(n));
      NoMultipleBetween(y, l, BasePow(n));
    }
  }

  // XOR is wrong exactly when the operands are BASE^n apart.
  lemma XorSignOnly(x: int, y: int, n: nat)
    requires -x < BasePow(n) && x < BasePow(n) && -y < BasePow(n) && y < BasePow(n)
    ensures SignOnly(Xor, x, y, n) <==> x - y == BasePow(n) || y - x == BasePow(n)
  {
    var p := BasePow(n);
    assert p == Pow2(28 * n) by { BasePowIsPow2(n); }
    if SignOnly(Xor, x, y, n) {
      var k := XorZeroMeans(x, y, 28 * n);
      if k >= 2 {
        MulMono(2, k, p);
      } else if k <= -2 {
        MulMono(k, -2, p);
      }
    }
    if x - y == p || y - x == p {
      BitwiseMod(Xor, x, y, y, y, 28 * n, if x - y == p then 1 else -1, 0);
      XorSelf(y, 28 * n);
    }
  }

  ghost predicate Shared(x: int, y: int, k: nat) {
    Bit(x, k) && Bit(y, k)
  }

  // AND is wrong exactly on two negative operands that have no bit below 28n in common.
  lemma AndSignOnly(x: int, y: int, n: nat)
    ensures SignOnly(And, x, y, n) <==> x < 0 && y < 0 && forall k: nat :: k < 28 * n ==> !Shared(x, y, k)
  {
    var w := 28 * n;
    var u := Bitwise(And, x, y, w);
    if u == 0 {
      forall k: nat | k < w ensures !Shared(x, y, k) {
        BitwiseBit(And, x, y, w, k);
        BitOfZero(k);
      }
    } else if forall k: nat :: k < w ==> !Shared(x, y, k) {
      forall k: nat ensures Bit(u, k) == Bit(0, k) {
        BitwiseBit(And, x, y, w, k);
        BitOfZero(k);
        assert k < w ==> !Shared(x, y, k);
      }
      BitsDetermine(u, 0);
    }
  }

  // An example are 1 - BASE^3 and -2.
  lemma AndSignOnlyExample()
    ensures SignOnly(And, 1 - BasePow(3), -2, 3)
  {
    var x := 1 - BasePow(3);
    assert BasePow(3) == Pow2(84) by { BasePowIsPow2(3); }
    BitwiseMod(And, x, -2, 1, -2, 84, -1, 0);
    BitwiseStep(And, 1, -2, 84);
    AndZeroLeft(-1, 83);
  }

  lemma {:induction false} AndZeroLeft(b: int, n: nat)
    ensures Bitwise(And, 0, b, n) == 0
    decreases n
  {
    if n > 0 {
      AndZeroLeft(b / 2, n - 1);
    }
  }
}
