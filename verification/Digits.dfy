// Base 2^28 digit sequences, least significant digit first.
module Digits {
  import opened Powers

  const BASE: int := 0x1000_0000

  function BasePow(n: nat): (p: nat)
    ensures p > 0
  {
    if n == 0 then 1 else BASE * BasePow(n - 1)
  }

  // The number a digit sequence stands for; digits may be out of range.
  function Val(s: seq<int>): int
  {
    if |s| == 0 then 0 else s[0] + BASE * Val(s[1..])
  }

  ghost predicate IsDigit(d: int) {
    0 <= d < BASE
  }

  ghost predicate AllDigits(s: seq<int>) {
    forall i :: 0 <= i < |s| ==> IsDigit(s[i])
  }

  // No leading zero: the form every stored bigint has.
  ghost predicate Normal(s: seq<int>) {
    AllDigits(s) && (|s| > 0 ==> s[|s| - 1] != 0)
  }

  lemma {:induction false} BasePowIsPow2(n: nat)
    ensures BasePow(n) == Pow2(28 * n)
  {
    if n > 0 {
      BasePowIsPow2(n - 1);
      Pow2Add(28, 28 * (n - 1));
      assert Pow2(28) == BASE by { Pow2Values(); }
    }
  }

  lemma Pow2Values()
    ensures Pow2(8) == 256 && Pow2(28) == BASE
  {
    assert Pow2(8) == 256;
    Pow2Add(8, 8);
    Pow2Add(16, 8);
    Pow2Add(24, 4);
    assert Pow2(4) == 16;
  }

  lemma {:induction false} BasePowAdd(m: nat, n: nat)
    ensures BasePow(m + n) == BasePow(m) * BasePow(n)
  {
    if m > 0 {
      BasePowAdd(m - 1, n);
      MulAssoc(BASE, BasePow(m - 1), BasePow(n));
    }
  }

  lemma {:induction false} BasePowMono(m: nat, n: nat)
    requires m <= n
    ensures BasePow(m) <= BasePow(n)
  {
    if m < n {
      BasePowMono(m, n - 1);
    }
  }

  lemma {:induction false} ValSplit(s: seq<int>, k: nat)
    requires k <= |s|
    ensures Val(s) == Val(s[..k]) + BasePow(k) * Val(s[k..])
  {
    if k == 0 {
      assert s[0..] == s;
    } else {
      var t := s[1..];
      ValSplit(t, k - 1);
      assert s[..k][1..] == t[..k - 1];
      assert t[k - 1..] == s[k..];
      MulAssoc(BASE, BasePow(k - 1), Val(s[k..]));
      MulDistrib(BASE, Val(t[..k - 1]), BasePow(k - 1) * Val(s[k..]));
    }
  }

  lemma ValOne(d: int)
    ensures Val([d]) == d
  {
    assert [d][1..] == [];
  }

  // Adding the digit of weight k on top of the first k digits.
  lemma ValSnoc(s: seq<int>, k: nat)
    requires k < |s|
    ensures Val(s[..k + 1]) == Val(s[..k]) + BasePow(k) * s[k]
  {
    var t := s[..k + 1];
    ValSplit(t, k);
    assert t[..k] == s[..k];
    assert t[k..] == [s[k]];
    ValOne(s[k]);
  }

  lemma {:induction false} ValBound(s: seq<int>)
    requires AllDigits(s)
    ensures 0 <= Val(s) < BasePow(|s|)
  {
    if |s| > 0 {
      ValBound(s[1..]);
      MulMono(Val(s[1..]), BasePow(|s| - 1) - 1, BASE);
    }
  }

  lemma ValLower(s: seq<int>)
    requires Normal(s) && |s| > 0
    ensures Val(s) >= BasePow(|s| - 1)
  {
    var k := |s| - 1;
    ValSnoc(s, k);
    assert s[..k + 1] == s;
    ValBound(s[..k]);
    MulMono(1, s[k], BasePow(k));
  }

  // A number below BASE^k has nothing but zeros from position k on.
  lemma {:induction false} ValSmall(s: seq<int>, k: nat)
    requires AllDigits(s) && k <= |s| && Val(s) < BasePow(k)
    ensures forall i :: k <= i < |s| ==> s[i] == 0
    decreases |s|
  {
    if k < |s| {
      var m := |s| - 1;
      ValSnoc(s, m);
      assert s[..m + 1] == s;
      ValBound(s[..m]);
      if s[m] != 0 {
        MulMono(1, s[m], BasePow(m));
        BasePowMono(k, m);
      }
      ValSmall(s[..m], k);
    }
  }

  lemma {:induction false} ValZeros(s: seq<int>)
    requires forall i :: 0 <= i < |s| ==> s[i] == 0
    ensures Val(s) == 0
  {
    if |s| > 0 {
      ValZeros(s[1..]);
    }
  }

  // More digits, larger number: what comparing sizes first relies on.
  lemma ShorterIsSmaller(s: seq<int>, t: seq<int>)
    requires AllDigits(s) && Normal(t) && |s| < |t|
    ensures Val(s) < Val(t)
  {
    ValBound(s);
    ValLower(t);
    BasePowMono(|s|, |t| - 1);
  }

  lemma {:induction false} ValExtensional(s: seq<int>, t: seq<int>)
    requires AllDigits(s) && AllDigits(t) && |s| == |t| && Val(s) == Val(t)
    ensures s == t
  {
    if |s| > 0 {
      DivModUnique(Val(s), BASE, Val(s[1..]), s[0]);
      DivModUnique(Val(t), BASE, Val(t[1..]), t[0]);
      ValExtensional(s[1..], t[1..]);
      assert s == [s[0]] + s[1..] && t == [t[0]] + t[1..];
    }
  }

  // Normal form is unique, so equality of numbers is equality of representations.
  lemma NormalUnique(s: seq<int>, t: seq<int>)
    requires Normal(s) && Normal(t) && Val(s) == Val(t)
    ensures s == t
  {
    if |s| < |t| {
      ShorterIsSmaller(s, t);
    } else if |t| < |s| {
      ShorterIsSmaller(t, s);
    } else {
      ValExtensional(s, t);
    }
  }

  // Digit-wise x + k*y, with y padded by zeros; the result is not normalised.
  ghost function Plus(x: seq<int>, y: seq<int>, k: int): (w: seq<int>)
    requires |y| <= |x|
    ensures |w| == |x|
  {
    seq(|x|, i requires 0 <= i < |x| => x[i] + (if i < |y| then k * y[i] else 0))
  }

  lemma {:induction false} ValPlus(x: seq<int>, y: seq<int>, k: int)
    requires |y| <= |x|
    ensures Val(Plus(x, y, k)) == Val(x) + k * Val(y)
    decreases |x|
  {
    if |x| > 0 {
      var w := Plus(x, y, k);
      var y' := if |y| > 0 then y[1..] else [];
      assert w[1..] == Plus(x[1..], y', k);
      ValPlus(x[1..], y', k);
      if |y| > 0 {
        MulDistrib(BASE, Val(x[1..]), k * Val(y'));
        MulDistrib(k, y[0], BASE * Val(y'));
        MulAssoc(BASE, k, Val(y'));
        MulAssoc(k, BASE, Val(y'));
      }
    }
  }

  // Digit k of z is digit k of w with carry c[k] in and carry c[k+1] out.
  ghost predicate CarryAt(z: int, w: int, c: seq<int>, k: nat)
    requires k + 1 < |c|
  {
    z + c[k + 1] * BASE == w + c[k]
  }

  // Moving carries upward changes the digits but not the number, up to the carry
  // let in at the bottom and the one dropped at the top.
  lemma {:induction false} CarryChain(z: seq<int>, w: seq<int>, c: seq<int>)
    requires |z| == |w| && |c| == |z| + 1
    requires forall k :: 0 <= k < |z| ==> CarryAt(z[k], w[k], c, k)
    ensures Val(z) + c[|z|] * BasePow(|z|) == Val(w) + c[0]
    decreases |z|
  {
    var n := |z|;
    if n > 0 {
      assert CarryAt(z[0], w[0], c, 0);
      forall k | 0 <= k < n - 1 ensures CarryAt(z[1..][k], w[1..][k], c[1..], k) {
        assert CarryAt(z[k + 1], w[k + 1], c, k + 1);
      }
      CarryChain(z[1..], w[1..], c[1..]);
      CarryChainStep(z[0], w[0], c[0], c[1], Val(z[1..]), Val(w[1..]), c[n], BasePow(n - 1));
    }
  }

  lemma CarryChainStep(z: int, w: int, c: int, c': int, zs: int, ws: int, top: int, p: int)
    requires z + c' * BASE == w + c && zs + top * p == ws + c'
    ensures z + BASE * zs + top * (BASE * p) == w + BASE * ws + c
  {
    MulDistrib(BASE, zs, top * p);
    MulDistrib(BASE, ws, c');
    MulAssoc(BASE, top, p);
    MulAssoc(top, BASE, p);
  }

  // A chain that has run out of carry, or out of digits, accounts for the whole number.
  lemma CarryPrefix(z: seq<int>, w: seq<int>, c: seq<int>)
    requires |z| == |w| && 0 < |c| <= |z| + 1
    requires forall k :: 0 <= k < |c| - 1 ==> CarryAt(z[k], w[k], c, k)
    requires forall k :: |c| - 1 <= k < |z| ==> z[k] == w[k]
    requires c[|c| - 1] == 0 || |c| == |z| + 1
    ensures Val(z) + c[|c| - 1] * BasePow(|z|) == Val(w) + c[0]
  {
    var d := c + seq(|z| + 1 - |c|, _ => 0);
    forall k | 0 <= k < |z| ensures CarryAt(z[k], w[k], d, k) {
      assert k < |c| - 1 ==> CarryAt(z[k], w[k], c, k);
    }
    CarryChain(z, w, d);
  }

  lemma ValPush(s: seq<int>, d: int)
    ensures Val(s + [d]) == Val(s) + BasePow(|s|) * d
  {
    ValSnoc(s + [d], |s|);
    assert (s + [d])[..|s|] == s && (s + [d])[..|s| + 1] == s + [d];
  }

  lemma ValUpdate(s: seq<int>, i: nat, d: int)
    requires i < |s|
    ensures Val(s[i := d]) == Val(s) + BasePow(i) * (d - s[i])
  {
    var t := s[i := d];
    ValSplit(s, i + 1);
    ValSplit(t, i + 1);
    ValSnoc(s, i);
    ValSnoc(t, i);
    assert t[..i] == s[..i] && t[i + 1..] == s[i + 1..];
    MulDistrib(BasePow(i), d - s[i], s[i]);
  }

  function Zeros(n: nat): (z: seq<int>)
    ensures |z| == n && forall k :: 0 <= k < n ==> z[k] == 0
  {
    seq(n, _ => 0)
  }

  // Writing a number n positions up multiplies it by BASE^n.
  lemma ValLift(s: seq<int>, n: nat)
    ensures Val(Zeros(n) + s) == BasePow(n) * Val(s)
  {
    var t := Zeros(n) + s;
    ValSplit(t, n);
    assert t[..n] == Zeros(n) && t[n..] == s;
    ValZeros(Zeros(n));
  }

  // A number that needs its last position has a nonzero digit there.
  lemma ValTop(s: seq<int>)
    requires AllDigits(s) && |s| > 0 && Val(s) >= BasePow(|s| - 1)
    ensures s[|s| - 1] != 0
  {
    var k := |s| - 1;
    ValSnoc(s, k);
    assert s[..k + 1] == s;
    ValBound(s[..k]);
  }

  lemma ValPrefix(s: seq<int>, k: nat)
    requires AllDigits(s) && k <= |s|
    ensures Val(s[..k]) <= Val(s)
  {
    ValSplit(s, k);
    ValBound(s[k..]);
    MulMono(0, Val(s[k..]), BasePow(k));
  }
}
