// Signed big integers: terms holding a sign and digits, operated on through scratch arrays.
module BigInt {
  import opened Powers
  import opened Digits
  import opened UBig
  import opened UMulDiv

  // A tagged one-word integer or a $bigint structure.
  datatype Term = Small(n: int) | Big(sign: int, ds: seq<int>)

  // The structures the bigint_bigint operations are given: normalised, perhaps short or empty.
  ghost predicate IsBig(t: Term) {
    t.Big? && (t.sign == 1 || t.sign == -1) && Normal(t.ds) && (|t.ds| == 0 ==> t.sign == 1)
  }

  ghost function IntOf(t: Term): int {
    match t
    case Small(n) => n
    case Big(sign, ds) => sign * Val(ds)
  }

  // The form every result has: one word when two digits suffice, a structure otherwise.
  ghost predicate Canonical(t: Term) {
    if t.Small? then -BASE * BASE < t.n < BASE * BASE else IsBig(t) && |t.ds| >= 3
  }

  // Equal numbers have equal canonical terms.
  lemma CanonicalUnique(s: Term, t: Term)
    requires Canonical(s) && Canonical(t) && IntOf(s) == IntOf(t)
    ensures s == t
  {
    if s.Big? {
      BigIsLarge(s);
    }
    if t.Big? {
      BigIsLarge(t);
    }
    if s.Big? && t.Big? {
      NormalUnique(s.ds, t.ds);
    }
  }

  lemma BigIsLarge(t: Term)
    requires Canonical(t) && t.Big?
    ensures Val(t.ds) >= BASE * BASE
  {
    ValLower(t.ds);
    BasePowMono(2, |t.ds| - 1);
    assert BasePow(2) == BASE * BASE;
  }

  // BP_MAKE_UBIG_FROM_DLST: the digits of a structure copied to a fresh array.
  method Unpack(ds: seq<int>, cap: nat) returns (x: array<int>)
    requires |ds| <= cap && Normal(ds)
    ensures fresh(x) && x.Length == cap && x[..|ds|] == ds && Trim(x, |ds|)
  {
    x := new int[cap](_ => 0);
    for i := 0 to |ds|
      invariant x[..i] == ds[..i]
    {
      x[i] := ds[i];
    }
    TrimIsNormal(x, |ds|);
  }

  // The common tail of the operations: one or two digits are packed into a word.
  method Pack(sign: int, size: nat, z: array<int>) returns (t: Term)
    requires (sign == 1 || sign == -1) && 0 < size && Trim(z, size)
    ensures Canonical(t) && IntOf(t) == sign * Value(z, size)
  {
    if size == 1 {
      ValOne(z[0]);
      assert z[..1] == [z[0]];
      return Small(sign * z[0]);
    }
    if size == 2 {
      ValPush([z[0]], z[1]);
      ValOne(z[0]);
      assert z[..2] == [z[0]] + [z[1]];
      return Small(sign * (z[1] * BASE + z[0]));
    }
    TrimIsNormal(z, size);
    return Big(sign, z[..size]);
  }

  // Whether x < y, deciding by length first.
  method Smaller(xsize: nat, x: array<int>, ysize: nat, y: array<int>) returns (less: bool)
    requires Trim(x, xsize) && Trim(y, ysize)
    ensures less <==> Value(x, xsize) < Value(y, ysize)
  {
    LongerIsLarger(xsize, x, ysize, y);
    LongerIsLarger(ysize, y, xsize, x);
    less := xsize < ysize;
    if xsize == ysize {
      var c := CompareMag(xsize, x, y);
      less := c < 0;
    }
  }

  lemma LongerIsLarger(xsize: nat, x: array<int>, ysize: nat, y: array<int>)
    requires Trim(x, xsize) && Trim(y, ysize)
    ensures xsize < ysize ==> Value(x, xsize) < Value(y, ysize)
  {
    assert Normal(x[..xsize]) && Normal(y[..ysize]);
    if xsize < ysize {
      ShorterIsSmaller(x[..xsize], y[..ysize]);
    }
  }

  // bp_int_to_bigint: the digits of |a|, least significant first.
  method FromInt(a0: int) returns (t: Term)
    ensures IsBig(t) && IntOf(t) == a0
  {
    var sign, a := 1, a0;
    if a < 0 {
      sign, a := -1, -a;
    }
    ghost var m := a;
    var x := [];
    while a != 0
      invariant 0 <= a && AllDigits(x)
      invariant m == Val(x) + BasePow(|x|) * a
      invariant a == 0 && |x| > 0 ==> x[|x| - 1] != 0
      decreases a
    {
      FromIntStep(x, a);
      x := x + [a % BASE];
      a := a / BASE;
    }
    return Big(sign, x);
  }

  lemma FromIntStep(x: seq<int>, a: int)
    requires 0 < a
    ensures Val(x) + BasePow(|x|) * a == Val(x + [a % BASE]) + BasePow(|x| + 1) * (a / BASE)
  {
    ValPush(x, a % BASE);
    SplitProduct(BasePow(|x|), a, a / BASE, a % BASE);
  }

  lemma SplitProduct(p: int, a: int, d: int, m: int)
    requires a == d * BASE + m
    ensures p * a == p * m + (BASE * p) * d
  {
    MulDistrib(p, d * BASE, m);
    MulAssoc(BASE, p, d);
  }

  // sign * (|x| - |y|) for |x| > |y|.
  method SubMags(sign: int, xsize: nat, x: array<int>, ysize: nat, y: array<int>) returns (t: Term)
    requires (sign == 1 || sign == -1) && Trim(x, xsize) && Trim(y, ysize) && Value(y, ysize) < Value(x, xsize)
    ensures Canonical(t) && IntOf(t) == sign * (Value(x, xsize) - Value(y, ysize))
  {
    LongerIsLarger(xsize, x, ysize, y);
    var z := new int[xsize];
    var zsize := Sub(xsize, x, ysize, y, z);
    t := Pack(sign, zsize, z);
  }

  // Magnitudes of one sign are added; otherwise the smaller is taken from the larger.
  method AddSigned(xsign: int, xds: seq<int>, ysign: int, yds: seq<int>) returns (t: Term)
    requires Normal(xds) && Normal(yds) && (xsign == 1 || xsign == -1) && (ysign == 1 || ysign == -1)
    requires 0 < |xds| || 0 < |yds|
    ensures Canonical(t) && IntOf(t) == xsign * Val(xds) + ysign * Val(yds)
  {
    var xsize, ysize := |xds|, |yds|;
    var x := Unpack(xds, xsize);
    var y := Unpack(yds, ysize);
    if xsign == ysign {
      var z := new int[xsize + ysize + 1];
      var zsize := Add(xsize, x, ysize, y, z);
      PositiveSum(xds, yds);
      MulDistrib(xsign, Val(xds), Val(yds));
      t := Pack(xsign, zsize, z);
    } else {
      t := SubSigned(xsign, xsize, x, ysize, y);
    }
  }

  // xsign * (|x| - |y|): the longer or, at equal length, the larger magnitude gives the sign.
  method SubSigned(xsign: int, xsize: nat, x: array<int>, ysize: nat, y: array<int>) returns (t: Term)
    requires (xsign == 1 || xsign == -1) && Trim(x, xsize) && Trim(y, ysize)
    ensures Canonical(t) && IntOf(t) == xsign * Value(x, xsize) - xsign * Value(y, ysize)
  {
    LongerIsLarger(xsize, x, ysize, y);
    LongerIsLarger(ysize, y, xsize, x);
    if xsize > ysize {
      t := SubMags(xsign, xsize, x, ysize, y);
    } else if xsize < ysize {
      t := SubMags(-xsign, ysize, y, xsize, x);
    } else {
      var c := CompareMag(xsize, x, y);
      if c == 0 {
        t := Small(0);
      } else if c > 0 {
        t := SubMags(xsign, xsize, x, ysize, y);
      } else {
        t := SubMags(-xsign, ysize, y, xsize, x);
      }
    }
  }

  lemma PositiveSum(x: seq<int>, y: seq<int>)
    requires Normal(x) && Normal(y) && (0 < |x| || 0 < |y|)
    ensures Val(x) + Val(y) > 0
  {
    ValBound(x);
    ValBound(y);
    if 0 < |x| {
      ValLower(x);
    } else {
      ValLower(y);
    }
  }

  // op1 + op2
  method AddBig(op1: Term, op2: Term) returns (t: Term)
    requires IsBig(op1) && IsBig(op2) && (0 < |op1.ds| || 0 < |op2.ds|)
    ensures Canonical(t) && IntOf(t) == IntOf(op1) + IntOf(op2)
  {
    t := AddSigned(op1.sign, op1.ds, op2.sign, op2.ds);
  }

  // op1 - op2
  method SubBig(op1: Term, op2: Term) returns (t: Term)
    requires IsBig(op1) && IsBig(op2) && (0 < |op1.ds| || 0 < |op2.ds|)
    ensures Canonical(t) && IntOf(t) == IntOf(op1) - IntOf(op2)
  {
    t := AddSigned(op1.sign, op1.ds, -op2.sign, op2.ds);
  }

  // op1 * op2, both nonzero
  method MulBig(op1: Term, op2: Term) returns (t: Term)
    requires IsBig(op1) && IsBig(op2) && 0 < |op1.ds| && 0 < |op2.ds|
    ensures Canonical(t) && IntOf(t) == IntOf(op1) * IntOf(op2)
  {
    var xsize, ysize := |op1.ds|, |op2.ds|;
    var x := Unpack(op1.ds, xsize);
    var y := Unpack(op2.ds, ysize);
    var z := new int[xsize + ysize];
    var zsign := if op1.sign == op2.sign then 1 else -1;
    var zsize := Mul(xsize, x, ysize, y, z);
    ProductPositive(op1.ds, op2.ds);
    SignedProduct(op1.sign, Val(op1.ds), op2.sign, Val(op2.ds));
    t := Pack(zsign, zsize, z);
  }

  lemma ProductPositive(x: seq<int>, y: seq<int>)
    requires Normal(x) && Normal(y) && 0 < |x| && 0 < |y|
    ensures Val(x) * Val(y) > 0
  {
    ProductSize(x, y);
  }

  lemma SignedProduct(s: int, x: int, t: int, y: int)
    requires (s == 1 || s == -1) && (t == 1 || t == -1)
    ensures (s * x) * (t * y) == (if s == t then 1 else -1) * (x * y)
  {
  }

  // -1, 0 or 1 as op1 is below, equal to or above op2.
  method CompareBig(op1: Term, op2: Term) returns (c: int)
    requires IsBig(op1) && IsBig(op2) && 0 < |op1.ds| && 0 < |op2.ds|
    ensures c == if IntOf(op1) < IntOf(op2) then -1 else if IntOf(op1) > IntOf(op2) then 1 else 0
  {
    ValLower(op1.ds);
    ValLower(op2.ds);
    if op1.sign > 0 && op2.sign < 0 {
      return 1;
    } else if op1.sign < 0 && op2.sign > 0 {
      return -1;
    }
    var xsize, ysize := |op1.ds|, |op2.ds|;
    var x := Unpack(op1.ds, xsize);
    var y := Unpack(op2.ds, ysize);
    LongerIsLarger(xsize, x, ysize, y);
    LongerIsLarger(ysize, y, xsize, x);
    if xsize > ysize {
      return if op1.sign == 1 then 1 else -1;
    } else if xsize < ysize {
      return if op2.sign == 1 then -1 else 1;
    }
    var m := CompareMag(xsize, x, y);
    return op1.sign * m;
  }

  // Quotient and remainder of floor division: the remainder has the divisor's sign.
  ghost predicate FloorPair(a: int, b: int, q: int, m: int) {
    a == q * b + m && (if b > 0 then 0 <= m < b else b < m <= 0)
  }

  lemma FloorPairUnique(a: int, b: int, q: int, m: int, q': int, m': int)
    requires b != 0 && FloorPair(a, b, q, m) && FloorPair(a, b, q', m')
    ensures q == q' && m == m'
  {
    if b > 0 {
      DivModUnique(a, b, q, m);
      DivModUnique(a, b, q', m');
    } else {
      assert -a == q * -b - m && -a == q' * -b - m';
      DivModUnique(-a, -b, q, -m);
      DivModUnique(-a, -b, q', -m');
    }
  }

  // What DivBig and ModBig return for the same operands fit together.
  lemma DivModIdentity(a: int, b: int, d: int, m: int)
    requires b != 0 && (exists m' :: FloorPair(a, b, d, m')) && (exists q :: FloorPair(a, b, q, m))
    ensures a == d * b + m && (m == 0 || (m > 0) == (b > 0)) && -(if b > 0 then b else -b) < m < if b > 0 then b else -b
  {
    var m' :| FloorPair(a, b, d, m');
    var q :| FloorPair(a, b, q, m);
    FloorPairUnique(a, b, d, m', q, m);
  }

  // The three corrections: |x|-1 divided, quotient plus one, remainder y-1-r.
  lemma FloorCorrection(xsign: int, x: int, ysign: int, y: int, q: int, r: int)
    requires (xsign == 1 || xsign == -1) && (ysign == 1 || ysign == -1) && 0 <= r < y
    requires (if xsign == ysign then x else x - 1) == q * y + r
    ensures xsign == ysign ==> FloorPair(xsign * x, ysign * y, q, ysign * r)
    ensures xsign != ysign ==> FloorPair(xsign * x, ysign * y, -(q + 1), ysign * (y - 1 - r))
  {
    MulDistrib(y, q, 1);
    if xsign == ysign {
      assert q * (ysign * y) == ysign * (q * y) by { MulAssoc(q, ysign, y); MulAssoc(ysign, q, y); }
    } else {
      assert -(q + 1) * (ysign * y) == -(ysign * ((q + 1) * y));
    }
  }

  // |x| for equal signs, |x| - 1 for different ones: the number that is really divided.
  method DividendMagnitude(op1: Term, ysign: int, cap: nat) returns (xsize: nat, x: array<int>)
    requires IsBig(op1) && 0 < |op1.ds| <= cap
    ensures fresh(x) && x.Length == cap && Trim(x, xsize) && xsize <= |op1.ds|
    ensures Value(x, xsize) == if op1.sign == ysign then Val(op1.ds) else Val(op1.ds) - 1
  {
    xsize := |op1.ds|;
    x := Unpack(op1.ds, cap);
    if op1.sign != ysign {
      ValLower(op1.ds);
      xsize := Dec(xsize, x);
    }
  }

  // floor(op1 / op2)
  method DivBig(op1: Term, op2: Term) returns (t: Term)
    requires IsBig(op1) && IsBig(op2) && 0 < |op2.ds|
    ensures Canonical(t)
    ensures exists m :: FloorPair(IntOf(op1), IntOf(op2), IntOf(t), m)
  {
    ghost var a, b := IntOf(op1), IntOf(op2);
    var ysize := |op2.ds|;
    ValLower(op2.ds);
    if |op1.ds| == 0 {
      t := Small(0);
      assert IntOf(t) == 0 && FloorPair(a, b, 0, 0);
      return;
    }
    var qsign := if op1.sign == op2.sign then 1 else -1;
    var cap := |op1.ds| + 1;
    var xsize, x := DividendMagnitude(op1, op2.sign, cap);
    var y := Unpack(op2.ds, ysize);
    ValueBound(x, xsize);
    var less := Smaller(xsize, x, ysize, y);
    if less {
      FloorCorrection(op1.sign, Val(op1.ds), op2.sign, Val(op2.ds), 0, Value(x, xsize));
      t := Small(if qsign == 1 then 0 else -1);
      assert IntOf(t) == t.n;
      return;
    }
    var q, r, buf := new int[cap], new int[cap], new int[cap];
    var qsize, rsize := Div(xsize, x, ysize, y, q, r, buf);
    FloorCorrection(op1.sign, Val(op1.ds), op2.sign, Val(op2.ds), Value(q, qsize), Value(r, rsize));
    QuotientPositive(Value(x, xsize), Value(q, qsize), Value(y, ysize), Value(r, rsize));
    t := PackQuotient(qsign, qsize, q);
  }

  // Adds one to the quotient when the signs differ.
  method PackQuotient(qsign: int, qsize: nat, q: array<int>) returns (t: Term)
    requires (qsign == 1 || qsign == -1) && Trim(q, qsize) && qsize < q.Length && Value(q, qsize) > 0
    modifies q
    ensures Canonical(t) && IntOf(t) == old(if qsign == 1 then Value(q, qsize) else -(Value(q, qsize) + 1))
  {
    var size := qsize;
    if qsign == -1 {
      size := Inc(qsize, q);
    }
    t := Pack(qsign, size, q);
  }

  // op1 - op2 * floor(op1 / op2)
  method ModBig(op1: Term, op2: Term) returns (t: Term)
    requires IsBig(op1) && IsBig(op2) && 0 < |op2.ds|
    ensures Canonical(t)
    ensures exists q :: FloorPair(IntOf(op1), IntOf(op2), q, IntOf(t))
  {
    ghost var a, b := IntOf(op1), IntOf(op2);
    var ysize := |op2.ds|;
    ValLower(op2.ds);
    if |op1.ds| == 0 {
      t := Small(0);
      assert IntOf(t) == 0 && FloorPair(a, b, 0, 0);
      return;
    }
    var cap := |op1.ds| + ysize + 1;
    var xsize, x := DividendMagnitude(op1, op2.sign, cap);
    var y := Unpack(op2.ds, ysize);
    ValueBound(x, xsize);
    var less := Smaller(xsize, x, ysize, y);
    var r, rsize := x, xsize;
    ghost var qv := 0;
    if !less {
      var q, buf := new int[cap], new int[cap];
      r := new int[cap];
      var qsize;
      qsize, rsize := Div(xsize, x, ysize, y, q, r, buf);
      qv := Value(q, qsize);
    }
    FloorCorrection(op1.sign, Val(op1.ds), op2.sign, Val(op2.ds), qv, Value(r, rsize));
    t := PackRemainder(op1.sign == op2.sign, op2.sign, ysize, y, rsize, r);
  }

  // Replaces r by y - 1 - r when the signs differ, in place, and gives it the divisor's sign.
  method PackRemainder(same: bool, ysign: int, ysize: nat, y: array<int>, rsize0: nat, r: array<int>) returns (t: Term)
    requires (ysign == 1 || ysign == -1) && Trim(y, ysize) && Trim(r, rsize0) && y != r && ysize <= r.Length
    requires Value(r, rsize0) < Value(y, ysize)
    modifies r
    ensures Canonical(t)
    ensures IntOf(t) == old(ysign * (if same then Value(r, rsize0) else Value(y, ysize) - 1 - Value(r, rsize0)))
  {
    var rsize := rsize0;
    if !same {
      LongerIsLarger(ysize, y, rsize, r);
      rsize := Sub(ysize, y, rsize, r, r);
      rsize := Dec(rsize, r);
    }
    if rsize == 0 {
      return Small(0);
    }
    t := Pack(ysign, rsize, r);
  }
}
