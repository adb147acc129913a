// Rounded division as the C code does it, and the bounds of exact quotients.
module Quotients {
  import opened LinearTerms
  import opened DomainPairs

  // C division: toward zero.
  function TruncDiv(n: int, d: int): int
    requires d != 0
  {
    if n >= 0 then (if d > 0 then n / d else -(n / -d))
    else (if d > 0 then -(-n / d) else -n / -d)
  }

  // An exact quotient is found by truncating division.
  lemma TruncExact(a: int, b: int)
    requires a != 0
    ensures TruncDiv(a * b, a) == b
  {
    MinusProduct(a, b);
    MinusProduct(b, a);
    if a > 0 {
      if b >= 0 {
        DivideProduct(a, b);
      } else {
        DivideProduct(a, -b);
      }
    } else {
      if b > 0 {
        DivideProduct(-a, b);
      } else {
        DivideProduct(-a, -b);
      }
    }
  }

  lemma DivideProduct(a: int, b: int)
    requires a > 0 && b >= 0
    ensures a * b >= 0 && a * b / a == b
  {
    var q := a * b / a;
    assert a * q <= a * b < a * (q + 1);
    Scaled(a, q, b);
    Scaled(a, b, q + 1);
  }

  // sound_low_div: rounded down.
  method SoundLowDiv(a: int, b: int) returns (v: int)
    requires b != 0
    ensures v == Floor(a, b)
  {
    var n, d := a, b;
    if d < 0 {
      d := -d;
      n := -n;
    }
    if n >= 0 {
      v := n / d;
    } else {
      v := -(-n / d);
      if v * d != n {
        v := v - 1;
      }
    }
    FloorUnique(n, d, v);
  }

  // sound_up_div: rounded up.
  method SoundUpDiv(a: int, b: int) returns (v: int)
    requires b != 0
    ensures v == -Floor(-a, b)
  {
    var n, d := a, b;
    if d < 0 {
      d := -d;
      n := -n;
    }
    if n <= 0 {
      v := -(-n / d);
    } else {
      v := n / d;
      if v * d != n {
        v := v + 1;
      }
    }
    assert (-v) * d == -(v * d) by {
      MinusProduct(v, d);
    }
    FloorUnique(-n, d, -v);
  }

  // The greatest integer not above a / b.
  ghost function Floor(a: int, b: int): int
    requires b != 0
  {
    if b > 0 then a / b else -a / -b
  }

  lemma FloorUnique(n: int, d: int, v: int)
    requires d > 0 && v * d <= n < v * d + d
    ensures n / d == v
  {
    var q := n / d;
    assert d * q <= n < d * q + d;
    if q < v {
      assert d * (q + 1) <= d * v by {
        Scaled(d, q + 1, v);
      }
    }
    if v < q {
      assert d * (v + 1) <= d * q by {
        Scaled(d, v + 1, q);
      }
    }
  }

  lemma FloorBelow(n: int, d: int)
    requires d > 0
    ensures d * Floor(n, d) <= n
  {
  }

  // A lower bound of b from z <= a*b, for a between lo and hi.
  lemma QuotientFrom(a: int, b: int, lo: int, hi: int, z: int)
    requires 0 < lo <= a <= hi && z <= a * b
    ensures Floor(z, hi) <= b || Floor(z, lo) <= b
  {
    if z >= 0 {
      FloorBelow(z, hi);
      if b < 0 {
        Scaled(a, b, -1);
      }
      MonoLeft(a, hi, b);
      Scaled(hi, Floor(z, hi), b);
    } else {
      FloorBelow(z, lo);
      if b >= 0 {
        assert lo * b >= 0;
      } else {
        MonoLeft(lo, a, -b);
        MinusProduct(b, lo);
        MinusProduct(b, a);
      }
      Scaled(lo, Floor(z, lo), b);
    }
  }

  lemma MonoLeft(a: int, c: int, b: int)
    requires a <= c && b >= 0
    ensures a * b <= c * b
  {
  }

  // An upper bound of b from a*b <= z.
  lemma QuotientTo(a: int, b: int, lo: int, hi: int, z: int)
    requires 0 < lo <= a <= hi && a * b <= z
    ensures b <= -Floor(-z, hi) || b <= -Floor(-z, lo)
  {
    MinusProduct(b, a);
    QuotientFrom(a, -b, lo, hi, -z);
  }

  function Min4(a: int, b: int, c: int, d: int): int {
    Min(Min(a, b), Min(c, d))
  }

  function Max4(a: int, b: int, c: int, d: int): int {
    Max(Max(a, b), Max(c, d))
  }

  // The corner quotients bound every exact quotient when the divisor's interval excludes 0.
  lemma Corners(a: int, b: int, minX: int, maxX: int, minZ: int, maxZ: int)
    requires minX <= a <= maxX && minZ <= a * b <= maxZ && (minX > 0 || maxX < 0)
    ensures Min4(Floor(minZ, minX), Floor(minZ, maxX), Floor(maxZ, minX), Floor(maxZ, maxX)) <= b
    ensures b <= Max4(-Floor(-minZ, minX), -Floor(-minZ, maxX), -Floor(-maxZ, minX), -Floor(-maxZ, maxX))
  {
    if minX > 0 {
      QuotientFrom(a, b, minX, maxX, minZ);
      QuotientTo(a, b, minX, maxX, maxZ);
    } else {
      MinusProduct(a, b);
      QuotientFrom(-a, b, -maxX, -minX, -maxZ);
      QuotientTo(-a, b, -maxX, -minX, -minZ);
    }
  }

  // The corner products bound every product.
  lemma CornerProducts(a: int, b: int, minX: int, maxX: int, minY: int, maxY: int)
    requires minX <= a <= maxX && minY <= b <= maxY
    ensures Min4(minX * minY, minX * maxY, maxX * minY, maxX * maxY) <= a * b <=
        Max4(minX * minY, minX * maxY, maxX * minY, maxX * maxY)
    ensures minX >= 0 && minY >= 0 ==> minX * minY <= a * b <= maxX * maxY
  {
    Between2(b, minX, a, maxX);
    Between2(minX, minY, b, maxY);
    Between2(maxX, minY, b, maxY);
    if minX >= 0 && minY >= 0 {
      MonoLeft(minX, a, b);
      MonoLeft(a, maxX, b);
      MonoLeft(minY, b, minX);
      MonoLeft(b, maxY, maxX);
    }
  }

  // k*v lies between the products with the ends of v's range.
  lemma Between2(k: int, lo: int, v: int, hi: int)
    requires lo <= v <= hi
    ensures Min(lo * k, hi * k) <= v * k <= Max(lo * k, hi * k)
  {
    if k >= 0 {
      MonoLeft(lo, v, k);
      MonoLeft(v, hi, k);
    } else {
      MonoLeft(lo, v, -k);
      MonoLeft(v, hi, -k);
      MinusProduct(k, lo);
      MinusProduct(k, v);
      MinusProduct(k, hi);
    }
  }
}
