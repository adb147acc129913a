// Left shift of a digit sequence by fewer than 28 bits, one digit at a time.
module Shifts {
  import opened Powers
  import opened Digits
  import opened Bits

  // Digit i of x << s from digits i-1 (`below`) and i (`here`) of x; 0 stands for a digit outside x.
  function ShiftedDigit(below: int, here: int, s: nat): int
    requires s < 28
  {
    var part1 := if s == 0 then 0 else below / Pow2(28 - s);
    var part2 := (here * Pow2(s)) % BASE;
    Bitwise(Or, part1, part2, 29)
  }

  // The same read from an array, as the loops below do.
  function GetShiftedDigit(xsize: nat, x: array<int>, i: nat, s: nat): int
    requires i <= xsize <= x.Length && s < 28
    reads x
  {
    ShiftedDigit(if i == 0 then 0 else x[i - 1], if i == xsize then 0 else x[i], s)
  }

  lemma Pow2Complement(s: nat)
    requires s <= 28
    ensures Pow2(s) * Pow2(28 - s) == BASE
  {
    Pow2Add(s, 28 - s);
    Pow2Values();
  }

  // What a left shift pushes out of a digit and what it keeps.
  lemma ShiftSplit(d: int, s: nat)
    requires s < 28
    ensures (d * Pow2(s)) % BASE == Pow2(s) * (d % Pow2(28 - s))
    ensures (d * Pow2(s)) / BASE == d / Pow2(28 - s)
  {
    var p, e := Pow2(28 - s), Pow2(s);
    Pow2Complement(s);
    var q, r := d / p, d % p;
    assert d * e == q * BASE + r * e by {
      assert d == q * p + r;
      MulDistrib(e, q * p, r);
      MulAssoc(q, p, e);
    }
    MulMono(r, p - 1, e);
    MulDistrib(e, p, -1);
    DivModUnique(d * e, BASE, q, r * e);
  }

  // The high bits of the digit below fit under the shifted digit.
  lemma HighPart(below: int, e: nat, p: nat)
    requires IsDigit(below) && p > 0 && e * p == BASE
    ensures 0 <= below / p < e
  {
    if below / p >= e {
      MulMono(e, below / p, p);
    }
  }

  lemma LowPart(h: int, e: nat, p: nat)
    requires 0 <= h < p && e * p == BASE
    ensures 0 <= e * h <= BASE - e
  {
    MulMono(h, p - 1, e);
    MulDistrib(e, p, -1);
  }

  // The two parts never overlap: the digit and the bits it passes up account for d << s.
  lemma ShiftStep(below: int, here: int, s: nat)
    requires s < 28 && IsDigit(below) && IsDigit(here)
    ensures IsDigit(ShiftedDigit(below, here, s))
    ensures ShiftedDigit(below, here, s) + (here / Pow2(28 - s)) * BASE == here * Pow2(s) + below / Pow2(28 - s)
  {
    var p, e := Pow2(28 - s), Pow2(s);
    var part1, hi := below / p, here % p;
    assert 0 <= part1 < e && 0 <= e * hi <= BASE - e by {
      Pow2Complement(s);
      HighPart(below, e, p);
      LowPart(hi, e, p);
    }
    assert Pow2(29) == 2 * BASE && s <= 29 by { Pow2Values(); }
    OrDisjoint(part1, hi, s, 29);
    assert (here * e) % BASE == e * hi && (here * e) / BASE == here / p by { ShiftSplit(here, s); }
    assert (if s == 0 then 0 else part1) == part1 by { Pow2Values(); }
  }

  ghost function Below(x: seq<int>, i: nat): int
    requires i <= |x|
  {
    if i == 0 then 0 else x[i - 1]
  }

  ghost function Here(x: seq<int>, i: nat): int
    requires i <= |x|
  {
    if i == |x| then 0 else x[i]
  }

  ghost function Shifted(x: seq<int>, s: nat): (d: seq<int>)
    requires s < 28
    ensures |d| == |x| + 1
    ensures forall i :: 0 <= i <= |x| ==> d[i] == ShiftedDigit(Below(x, i), Here(x, i), s)
  {
    seq(|x| + 1, i requires 0 <= i <= |x| => ShiftedDigit(Below(x, i), Here(x, i), s))
  }

  ghost function PassedUp(x: seq<int>, s: nat): (c: seq<int>)
    requires s < 28
    ensures |c| == |x| + 2
    ensures forall k :: 0 <= k < |c| ==> c[k] == if 0 < k <= |x| then x[k - 1] / Pow2(28 - s) else 0
  {
    seq(|x| + 2, k requires 0 <= k < |x| + 2 => if 0 < k <= |x| then x[k - 1] / Pow2(28 - s) else 0)
  }

  lemma ZeroDiv(p: nat)
    requires p > 0
    ensures 0 / p == 0
  {
  }

  lemma ShiftedAt(x: seq<int>, s: nat, k: nat)
    requires s < 28 && AllDigits(x) && k <= |x|
    ensures IsDigit(Shifted(x, s)[k])
    ensures CarryAt(Shifted(x, s)[k], Here(x, k) * Pow2(s), PassedUp(x, s), k)
  {
    var p := Pow2(28 - s);
    ShiftStep(Below(x, k), Here(x, k), s);
    ZeroDiv(p);
    assert PassedUp(x, s)[k] == Below(x, k) / p;
    assert PassedUp(x, s)[k + 1] == Here(x, k) / p;
  }

  ghost function Scaled(x: seq<int>, e: int): (w: seq<int>)
    ensures |w| == |x| + 1
    ensures forall k :: 0 <= k <= |x| ==> w[k] == Here(x, k) * e
  {
    seq(|x| + 1, k requires 0 <= k <= |x| => Here(x, k) * e)
  }

  lemma ScaledValue(x: seq<int>, e: int)
    ensures Val(Scaled(x, e)) == Val(x) * e
  {
    var n := |x|;
    assert Scaled(x, e) == Plus(Zeros(n + 1), x, e);
    ValPlus(Zeros(n + 1), x, e);
    ValZeros(Zeros(n + 1));
  }

  // The digits of x << s are digits, and they stand for x * 2^s.
  lemma ShiftedValue(x: seq<int>, s: nat)
    requires s < 28 && AllDigits(x)
    ensures AllDigits(Shifted(x, s)) && Val(Shifted(x, s)) == Val(x) * Pow2(s)
  {
    var d, w, c := Shifted(x, s), Scaled(x, Pow2(s)), PassedUp(x, s);
    forall k | 0 <= k < |d|
      ensures IsDigit(d[k]) && CarryAt(d[k], w[k], c, k)
    {
      ShiftedAt(x, s, k);
    }
    CarryChain(d, w, c);
    ScaledValue(x, Pow2(s));
  }
}
