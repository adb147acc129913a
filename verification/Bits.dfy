// Bits of integers. Negative numbers are read as infinite two's complement.
module Bits {
  import opened Powers

  datatype BoolOp = And | Or | Xor {
    predicate On(p: bool, q: bool) {
      match this
      case And => p && q
      case Or => p || q
      case Xor => p != q
    }
  }

  predicate Bit(n: int, i: nat)
    decreases i
  {
    if i == 0 then n % 2 == 1 else Bit(n / 2, i - 1)
  }

  function Num(b: bool): nat {
    if b then 1 else 0
  }

  // The C operators &, | and ^ on the low n bits of two words.
  function Bitwise(op: BoolOp, a: int, b: int, n: nat): (w: nat)
    ensures w < Pow2(n)
    decreases n, a, b
  {
    if n == 0 then 0
    else Num(op.On(a % 2 == 1, b % 2 == 1)) + 2 * Bitwise(op, a / 2, b / 2, n - 1)
  }

  lemma {:induction false} BitwiseBit(op: BoolOp, a: int, b: int, n: nat, i: nat)
    ensures Bit(Bitwise(op, a, b, n), i) == (i < n && op.On(Bit(a, i), Bit(b, i)))
    decreases n
  {
    if n == 0 {
      BitOfZero(i);
    } else {
      BitwiseStep(op, a, b, n);
      Halve(Num(op.On(a % 2 == 1, b % 2 == 1)), Bitwise(op, a / 2, b / 2, n - 1));
      if i > 0 {
        BitwiseBit(op, a / 2, b / 2, n - 1, i - 1);
      }
    }
  }

  lemma Halve(b: nat, w: int)
    requires b < 2
    ensures (b + 2 * w) / 2 == w && (b + 2 * w) % 2 == b
  {
  }

  lemma {:induction false} BitOfZero(i: nat)
    ensures !Bit(0, i)
    ensures Bit(-1, i)
  {
    if i > 0 {
      BitOfZero(i - 1);
    }
  }

  // Two integers with the same bits everywhere are the same integer.
  lemma {:induction false} BitsDetermine(m: int, n: int)
    requires forall i: nat :: Bit(m, i) == Bit(n, i)
    ensures m == n
    decreases (if m < 0 then -m else m) + (if n < 0 then -n else n)
  {
    assert Bit(m, 0) == Bit(n, 0);
    if -1 <= m <= 0 && -1 <= n <= 0 {
    } else {
      forall i: nat ensures Bit(m / 2, i) == Bit(n / 2, i) {
        assert Bit(m, i + 1) == Bit(n, i + 1);
      }
      BitsDetermine(m / 2, n / 2);
    }
  }

  // Dropping i low bits and looking at bit j is looking at bit i + j.
  lemma {:induction false} BitShift(n: int, i: nat, j: nat)
    ensures Bit(n / Pow2(i), j) == Bit(n, i + j)
    decreases i
  {
    if i > 0 {
      BitShift(n / 2, i - 1, j);
      DivTwice(n, Pow2(i - 1));
    }
  }

  lemma DivTwice(n: int, p: nat)
    requires p > 0
    ensures n / (2 * p) == (n / 2) / p
  {
    var q, r := (n / 2) / p, (n / 2) % p;
    assert n / 2 == q * p + r;
    assert n == 2 * (n / 2) + n % 2;
    assert n == q * (2 * p) + (2 * r + n % 2) by { MulAssoc(q, 2, p); MulAssoc(2, q, p); }
    DivModUnique(n, 2 * p, q, 2 * r + n % 2);
  }

  // The low n bits of a bitwise result depend only on the low n bits of the operands.
  lemma {:induction false} BitwiseMod(op: BoolOp, a: int, b: int, a': int, b': int, n: nat, k: int, l: int)
    requires a == a' + k * Pow2(n) && b == b' + l * Pow2(n)
    ensures Bitwise(op, a, b, n) == Bitwise(op, a', b', n)
    decreases n
  {
    if n > 0 {
      var p := Pow2(n - 1);
      HalfOfSum(a', k, p);
      HalfOfSum(b', l, p);
      BitwiseMod(op, a / 2, b / 2, a' / 2, b' / 2, n - 1, k, l);
    }
  }

  lemma HalfOfSum(a: int, k: int, p: nat)
    ensures (a + k * (2 * p)) / 2 == a / 2 + k * p
    ensures (a + k * (2 * p)) % 2 == a % 2
  {
    assert k * (2 * p) == 2 * (k * p) by { MulAssoc(k, 2, p); MulAssoc(2, k, p); }
  }

  // A bitwise operation can be done block by block.
  lemma {:induction false} BitwiseSplit(op: BoolOp, a: int, b: int, m: nat, n: nat)
    ensures Bitwise(op, a, b, m + n)
         == Bitwise(op, a, b, m) + Pow2(m) * Bitwise(op, a / Pow2(m), b / Pow2(m), n)
    decreases m
  {
    if m > 0 {
      var p := Pow2(m - 1);
      BitwiseSplit(op, a / 2, b / 2, m - 1, n);
      var hi := Bitwise(op, a / 2 / p, b / 2 / p, n);
      assert a / Pow2(m) == a / 2 / p && b / Pow2(m) == b / 2 / p by {
        DivTwice(a, p);
        DivTwice(b, p);
      }
      BitwiseStep(op, a, b, m + n);
      BitwiseStep(op, a, b, m);
      MulAssoc(2, p, hi);
    }
  }

  lemma BitwiseStep(op: BoolOp, a: int, b: int, n: nat)
    requires n > 0
    ensures Bitwise(op, a, b, n)
         == Num(op.On(a % 2 == 1, b % 2 == 1)) + 2 * Bitwise(op, a / 2, b / 2, n - 1)
  {
  }

  // Words whose bits do not meet: the C code's `part1 | part2`.
  lemma {:induction false} OrDisjoint(lo: int, hi: int, k: nat, n: nat)
    requires k <= n && 0 <= lo < Pow2(k) && 0 <= hi && lo + Pow2(k) * hi < Pow2(n)
    ensures Bitwise(Or, lo, Pow2(k) * hi, n) == lo + Pow2(k) * hi
  {
    if k == 0 {
      assert Pow2(k) * hi == hi;
      OrZero(hi, n);
    } else {
      var p := Pow2(k - 1);
      assert Pow2(k) * hi == 2 * (p * hi) by { MulAssoc(2, p, hi); }
      OrDisjoint(lo / 2, hi, k - 1, n - 1);
    }
  }

  lemma {:induction false} OrZero(a: int, n: nat)
    requires 0 <= a < Pow2(n)
    ensures Bitwise(Or, 0, a, n) == a
    ensures Bitwise(Or, a, 0, n) == a
  {
    if n > 0 {
      OrZero(a / 2, n - 1);
    }
  }

  // The low n bits of d as a number.
  function LowBits(d: int, n: nat): (r: nat)
    ensures d >= 0 ==> r <= d
    decreases n, d
  {
    if n == 0 then 0 else d % 2 + 2 * LowBits(d / 2, n - 1)
  }

  lemma {:induction false} LowBitsStep(d: int, n: nat)
    ensures LowBits(d, n + 1) == LowBits(d, n) + (if Bit(d, n) then Pow2(n) else 0)
    decreases n
  {
    if n > 0 {
      LowBitsStep(d / 2, n - 1);
    }
  }

  lemma {:induction false} LowBitsAll(d: int, n: nat)
    requires 0 <= d < Pow2(n)
    ensures LowBits(d, n) == d
    decreases n
  {
    if n > 0 {
      LowBitsAll(d / 2, n - 1);
    }
  }

  // The C test `d & (1 << i)`.
  lemma {:induction false} AndWithBit(d: int, i: nat, n: nat)
    requires i < n
    ensures Bitwise(And, d, Pow2(i), n) == if Bit(d, i) then Pow2(i) else 0
    decreases n
  {
    if i == 0 {
      AndWithZero(d / 2, n - 1);
    } else {
      AndWithBit(d / 2, i - 1, n - 1);
    }
  }

  lemma {:induction false} AndWithZero(d: int, n: nat)
    ensures Bitwise(And, d, 0, n) == 0
    decreases n
  {
    if n > 0 {
      AndWithZero(d / 2, n - 1);
    }
  }

  lemma {:induction false} OrSwap(a: int, b: int, n: nat)
    ensures Bitwise(Or, a, b, n) == Bitwise(Or, b, a, n)
    decreases n
  {
    if n > 0 {
      OrSwap(a / 2, b / 2, n - 1);
    }
  }

  // r is the bitwise combination of x and y as infinite two's complement numbers.
  ghost predicate BitsAgree(op: BoolOp, x: int, y: int, r: int) {
    forall i: nat :: Bit(r, i) == op.On(Bit(x, i), Bit(y, i))
  }

  // From bit n up, a number of at most n bits repeats its sign.
  lemma {:induction false} SignBits(x: int, n: nat, i: nat)
    requires -(Pow2(n) as int) <= x < Pow2(n) && n <= i
    ensures Bit(x, i) <==> x < 0
    decreases i
  {
    if i == 0 {
    } else if n == 0 {
      SignBits(x / 2, 0, i - 1);
    } else {
      SignBits(x / 2, n - 1, i - 1);
    }
  }

  // Adding a multiple of 2^n leaves the bits below n alone.
  lemma {:induction false} LowBitsStay(x: int, k: int, n: nat, i: nat)
    requires i < n
    ensures Bit(x + k * Pow2(n), i) == Bit(x, i)
    decreases i
  {
    HalfOfSum(x, k, Pow2(n - 1));
    if i > 0 {
      LowBitsStay(x / 2, k, n - 1, i - 1);
    }
  }

  // n + 1 combined bits, the last one read as the sign, are the whole answer.
  lemma SignedCombination(op: BoolOp, x: int, y: int, n: nat, u: int, r: int)
    requires -(Pow2(n) as int) <= x < Pow2(n) && -(Pow2(n) as int) <= y < Pow2(n)
    requires u == Bitwise(op, x, y, n + 1) && r == if u >= Pow2(n) then u - Pow2(n + 1) else u
    ensures BitsAgree(op, x, y, r)
  {
    var k := if u >= Pow2(n) then -1 else 0;
    assert r == u + k * Pow2(n + 1);
    forall i: nat ensures Bit(r, i) == op.On(Bit(x, i), Bit(y, i)) {
      var j := if i <= n then i else n;
      LowBitsStay(u, k, n + 1, j);
      BitwiseBit(op, x, y, n + 1, j);
      if i > n {
        SignBits(r, n, i);
        SignBits(r, n, n);
        SignBits(x, n, i);
        SignBits(x, n, n);
        SignBits(y, n, i);
        SignBits(y, n, n);
      }
    }
  }
}
