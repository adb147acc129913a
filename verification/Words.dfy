// 64-bit words as numbers, and the masks the bit-vector code builds.
module Words {
  import opened Powers
  import opened Bits

  const WORD_BITS: nat := 64

  ghost predicate IsWord(w: int) {
    0 <= w < Pow2(WORD_BITS)
  }

  // Bit i of w is on. (A name without recursion, to quantify over.)
  ghost predicate On(w: int, i: nat) {
    Bit(w, i)
  }

  // a & b
  function And64(a: int, b: int): nat {
    Bitwise(And, a, b, WORD_BITS)
  }

  // ~w
  function Not64(w: int): int {
    Pow2(WORD_BITS) - 1 - w
  }

  // MASK_FF << k: the bits from k up
  function BitsFrom(k: nat): int
    requires k <= WORD_BITS
  {
    Pow2(WORD_BITS) - Pow2(k)
  }

  // MASK_FF >> (63 - k): the bits up to k
  function BitsUpTo(k: nat): int {
    Pow2(k + 1) - 1
  }

  // 0xff << k, in 64 bits
  function ByteMask(k: nat): int
    requires k <= WORD_BITS
  {
    if k + 8 <= WORD_BITS then BitsFrom(k) - BitsFrom(k + 8) else BitsFrom(k)
  }

  lemma {:induction false} BitOfPow2(k: nat, i: nat)
    ensures Bit(Pow2(k), i) <==> i == k
    decreases i
  {
    if i > 0 {
      if k > 0 {
        BitOfPow2(k - 1, i - 1);
      } else {
        BitOfZero(i - 1);
      }
    }
  }

  // 2^k - 1 has exactly the bits below k.
  lemma {:induction false} BitOfOnes(k: nat, i: nat)
    ensures Bit(Pow2(k) - 1, i) <==> i < k
    decreases i
  {
    if k == 0 {
      BitOfZero(i);
    } else {
      assert (Pow2(k) - 1) / 2 == Pow2(k - 1) - 1 && (Pow2(k) - 1) % 2 == 1;
      if i > 0 {
        BitOfOnes(k - 1, i - 1);
      }
    }
  }

  lemma {:induction false} BitOfNot(n: nat, w: int, i: nat)
    requires 0 <= w < Pow2(n)
    ensures Bit(Pow2(n) - 1 - w, i) <==> i < n && !Bit(w, i)
    decreases i
  {
    if n == 0 {
      BitOfZero(i);
    } else {
      var v := Pow2(n) - 1 - w;
      assert v / 2 == Pow2(n - 1) - 1 - w / 2 && v % 2 == 1 - w % 2;
      if i > 0 {
        BitOfNot(n - 1, w / 2, i - 1);
      }
    }
  }

  lemma {:induction false} BitAboveWord(w: int, n: nat, i: nat)
    requires 0 <= w < Pow2(n) && n <= i
    ensures !Bit(w, i)
  {
    SignBits(w, n, i);
  }

  lemma BitOfFrom(k: nat, i: nat)
    requires k <= WORD_BITS
    ensures Bit(BitsFrom(k), i) <==> k <= i < WORD_BITS
  {
    Pow2Mono(k, WORD_BITS);
    BitOfNot(WORD_BITS, Pow2(k) - 1, i);
    BitOfOnes(k, i);
  }

  lemma BitOfUpTo(k: nat, i: nat)
    ensures Bit(BitsUpTo(k), i) <==> i <= k
  {
    BitOfOnes(k + 1, i);
  }

  lemma {:induction false} BitOfRange(k: nat, m: nat, i: nat)
    requires k <= m
    ensures Bit(Pow2(m) - Pow2(k), i) <==> k <= i < m
    decreases i
  {
    if k == 0 {
      BitOfOnes(m, i);
    } else {
      assert (Pow2(m) - Pow2(k)) / 2 == Pow2(m - 1) - Pow2(k - 1) && (Pow2(m) - Pow2(k)) % 2 == 0;
      if i > 0 {
        BitOfRange(k - 1, m - 1, i - 1);
      }
    }
  }

  lemma BitOfByte(k: nat, i: nat)
    requires k <= WORD_BITS
    ensures Bit(ByteMask(k), i) <==> k <= i < k + 8 && i < WORD_BITS
  {
    if k + 8 <= WORD_BITS {
      BitOfRange(k, k + 8, i);
    } else {
      BitOfFrom(k, i);
    }
  }

  // A nonzero word has a bit on.
  lemma {:induction false} SomeBit(w: int, n: nat) returns (i: nat)
    requires 0 < w < Pow2(n)
    ensures i < n && Bit(w, i)
    decreases n
  {
    if w % 2 == 1 {
      i := 0;
    } else {
      i := SomeBit(w / 2, n - 1);
      i := i + 1;
    }
  }

  // w1 & w2 == 0 says that no bit is on in both.
  lemma AndIsZero(a: int, b: int)
    ensures And64(a, b) == 0 <==> forall i: nat :: i < WORD_BITS ==> !(On(a, i) && On(b, i))
  {
    forall i: nat ensures On(And64(a, b), i) == (i < WORD_BITS && On(a, i) && On(b, i)) {
      BitwiseBit(And, a, b, WORD_BITS, i);
    }
    if And64(a, b) == 0 {
      forall i: nat | i < WORD_BITS ensures !(On(a, i) && On(b, i)) {
        BitOfZero(i);
      }
    } else {
      var i := SomeBit(And64(a, b), WORD_BITS);
      assert On(a, i) && On(b, i);
    }
  }

  // w & (1 << o)
  lemma TestBit(w: int, o: nat)
    requires o < WORD_BITS
    ensures And64(w, Pow2(o)) != 0 <==> Bit(w, o)
  {
    AndWithBit(w, o, WORD_BITS);
  }

  // w & ~(1 << o)
  function ClearBit(w: int, o: nat): int {
    And64(w, Not64(Pow2(o)))
  }

  lemma ClearBitBits(w: int, o: nat, i: nat)
    requires o < WORD_BITS && IsWord(w)
    ensures IsWord(ClearBit(w, o))
    ensures Bit(ClearBit(w, o), i) <==> Bit(w, i) && i != o
  {
    Pow2Mono(o + 1, WORD_BITS);
    BitwiseBit(And, w, Not64(Pow2(o)), WORD_BITS, i);
    BitOfNot(WORD_BITS, Pow2(o), i);
    BitOfPow2(o, i);
    if i >= WORD_BITS {
      BitAboveWord(w, WORD_BITS, i);
    }
  }

  // Clearing a bit changes the word exactly when the bit was on.
  lemma ClearBitSame(w: int, o: nat)
    requires o < WORD_BITS && IsWord(w)
    ensures ClearBit(w, o) == w <==> !Bit(w, o)
  {
    ClearBitBits(w, o, o);
    if !Bit(w, o) {
      forall i: nat ensures Bit(ClearBit(w, o), i) == Bit(w, i) {
        ClearBitBits(w, o, i);
      }
      BitsDetermine(ClearBit(w, o), w);
    }
  }

  // w | (1 << o)
  function SetBit(w: int, o: nat): int {
    Bitwise(Or, w, Pow2(o), WORD_BITS)
  }

  lemma SetBitBits(w: int, o: nat, i: nat)
    requires o < WORD_BITS && IsWord(w)
    ensures IsWord(SetBit(w, o))
    ensures Bit(SetBit(w, o), i) <==> Bit(w, i) || i == o
  {
    BitwiseBit(Or, w, Pow2(o), WORD_BITS, i);
    BitOfPow2(o, i);
    if i >= WORD_BITS {
      BitAboveWord(w, WORD_BITS, i);
    }
  }

  // (w & mask) == 0 for the masks of the search macros.
  lemma NoBitsFrom(w: int, o: nat)
    requires o <= WORD_BITS
    ensures And64(w, BitsFrom(o)) == 0 <==> forall i: nat :: o <= i < WORD_BITS ==> !On(w, i)
  {
    AndIsZero(w, BitsFrom(o));
    forall i: nat ensures On(BitsFrom(o), i) <==> o <= i < WORD_BITS {
      BitOfFrom(o, i);
    }
  }

  lemma NoBitsUpTo(w: int, o: nat)
    requires o < WORD_BITS
    ensures And64(w, BitsUpTo(o)) == 0 <==> forall i: nat :: i <= o ==> !On(w, i)
  {
    AndIsZero(w, BitsUpTo(o));
    forall i: nat ensures On(BitsUpTo(o), i) <==> i <= o {
      BitOfUpTo(o, i);
    }
  }

  lemma NoBitsInByte(w: int, o: nat)
    requires o <= WORD_BITS
    ensures And64(w, ByteMask(o)) == 0 <==> forall i: nat :: o <= i < o + 8 && i < WORD_BITS ==> !On(w, i)
  {
    AndIsZero(w, ByteMask(o));
    forall i: nat ensures On(ByteMask(o), i) <==> o <= i < o + 8 && i < WORD_BITS {
      BitOfByte(o, i);
    }
  }

  lemma NoBits(w: int)
    requires IsWord(w)
    ensures w == 0 <==> forall i: nat :: i < WORD_BITS ==> !On(w, i)
  {
    if w == 0 {
      forall i: nat | i < WORD_BITS ensures !On(w, i) {
        BitOfZero(i);
      }
    } else {
      var i := SomeBit(w, WORD_BITS);
      assert On(w, i);
    }
  }
}
