// Disjointness and inclusion of two domains, a word at a time where the bit vectors line up.
module WordTests {
  import opened Bits
  import opened Words
  import opened Trail
  import opened Layout
  import opened Sets
  import opened BitScan
  import opened Region
  import opened DomainPairs

  // No value from lo up to but excluding hi is in both vectors.
  ghost predicate ApartIn(mem: seq<Cell>, p: int, q: int, lo: int, hi: int) {
    forall v :: lo <= v < hi ==> !(BvBit(mem, p, v) && BvBit(mem, q, v))
  }

  // Every value from lo up to but excluding hi that is in q is in p.
  ghost predicate CoveredIn(mem: seq<Cell>, p: int, q: int, lo: int, hi: int) {
    forall v :: lo <= v < hi ==> (BvBit(mem, q, v) ==> BvBit(mem, p, v))
  }

  // w & (MASK_FF << lo) and w & (MASK_FF >> (63 - hi))
  lemma MaskLow(w: int, lo: nat, i: nat)
    requires lo <= WORD_BITS && i < WORD_BITS
    ensures On(And64(w, BitsFrom(lo)), i) <==> On(w, i) && lo <= i
  {
    BitwiseBit(And, w, BitsFrom(lo), WORD_BITS, i);
    BitOfFrom(lo, i);
  }

  lemma MaskHigh(w: int, hi: nat, i: nat)
    requires i < WORD_BITS
    ensures On(And64(w, BitsUpTo(hi)), i) <==> On(w, i) && i <= hi
  {
    BitwiseBit(And, w, BitsUpTo(hi), WORD_BITS, i);
    BitOfUpTo(hi, i);
  }

  // w is the word u with the bits below lo or above hi switched off.
  ghost predicate Masked(w: int, u: int, lo: nat, hi: nat) {
    forall i: nat :: i < WORD_BITS ==> (On(w, i) <==> On(u, i) && lo <= i <= hi)
  }

  lemma MaskedLow(w: int, lo: nat)
    requires lo < WORD_BITS
    ensures Masked(And64(w, BitsFrom(lo)), w, lo, WORD_BITS - 1)
  {
    forall i: nat | i < WORD_BITS ensures On(And64(w, BitsFrom(lo)), i) <==> On(w, i) && lo <= i <= WORD_BITS - 1 {
      MaskLow(w, lo, i);
    }
  }

  lemma MaskedHigh(w: int, u: int, lo: nat, hi: nat)
    requires Masked(w, u, lo, WORD_BITS - 1) && hi < WORD_BITS
    ensures Masked(And64(w, BitsUpTo(hi)), u, lo, hi)
  {
    forall i: nat | i < WORD_BITS ensures On(And64(w, BitsUpTo(hi)), i) <==> On(u, i) && lo <= i <= hi {
      MaskHigh(w, hi, i);
    }
  }

  lemma WholeWord(w: int)
    ensures Masked(w, w, 0, WORD_BITS - 1)
  {
  }

  // The word test decides whether the two words share a value.
  lemma WordApart(mem: seq<Cell>, p: int, q: int, low: int, j: int, w1: int, w2: int, lo: nat, hi: nat)
    requires BvLow(mem, p) == low && BvLow(mem, q) == low && lo <= hi < WORD_BITS
    requires Masked(w1, At(mem, p + 2 + j), lo, hi) && w2 == At(mem, q + 2 + j)
    ensures And64(w1, w2) == 0 <==> ApartIn(mem, p, q, low + WORD_BITS * j + lo, low + WORD_BITS * j + hi + 1)
  {
    AndIsZero(w1, w2);
    var base := low + WORD_BITS * j;
    if And64(w1, w2) == 0 {
      forall v | base + lo <= v < base + hi + 1 ensures !(BvBit(mem, p, v) && BvBit(mem, q, v)) {
        BitAt(mem, p, v, j, v - base);
        BitAt(mem, q, v, j, v - base);
      }
    } else {
      var i: nat :| i < WORD_BITS && On(w1, i) && On(w2, i);
      BitAt(mem, p, base + i, j, i);
      BitAt(mem, q, base + i, j, i);
    }
  }

  // The loop of dm_disjoint over two vectors with the same base.
  method DisjointWords(mem: seq<Cell>, p: int, q: int, min: int, max: int) returns (r: bool)
    requires BvLow(mem, p) == BvLow(mem, q) <= min <= max
    ensures r <==> ApartIn(mem, p, q, min, max + 1)
  {
    var low := BvLow(mem, p);
    var j: int, offset: nat := (min - low) / WORD_BITS, (min - low) % WORD_BITS;
    var lastJ, lastOffset := (max - low) / WORD_BITS, (max - low) % WORD_BITS;
    DivMono(min - low, max - low);
    var w1, w2 := And64(At(mem, p + 2 + j), BitsFrom(offset)), At(mem, q + 2 + j);
    MaskedLow(At(mem, p + 2 + j), offset);
    ghost var lo: nat := offset;
    while j != lastJ
      invariant j <= lastJ && lo < WORD_BITS && (lo == 0 || low + WORD_BITS * j + lo == min)
      invariant min <= low + WORD_BITS * j + lo && ApartIn(mem, p, q, min, low + WORD_BITS * j + lo)
      invariant Masked(w1, At(mem, p + 2 + j), lo, WORD_BITS - 1) && w2 == At(mem, q + 2 + j)
    {
      WordApart(mem, p, q, low, j, w1, w2, lo, WORD_BITS - 1);
      if And64(w1, w2) != 0 {
        return false;
      }
      j := j + 1;
      lo := 0;
      w1, w2 := At(mem, p + 2 + j), At(mem, q + 2 + j);
      WholeWord(w1);
    }
    MaskedHigh(w1, At(mem, p + 2 + j), lo, lastOffset);
    w1 := And64(w1, BitsUpTo(lastOffset));
    WordApart(mem, p, q, low, j, w1, w2, lo, lastOffset);
    return And64(w1, w2) == 0;
  }

  // Both domains are described; d1 and d2 may be of any kind.
  ghost predicate TwoVars(mem: seq<Cell>, owner: seq<int>, d1: nat, d2: nat) {
    Shape(mem, owner, d1) && Shape(mem, owner, d2)
  }

  // No value from lo up to but excluding hi is in both domains.
  ghost predicate NoCommon(s1: set<int>, s2: set<int>, lo: int, hi: int) {
    forall v :: v in s1 && v in s2 ==> !(lo <= v < hi)
  }

  lemma NoCommonStep(s1: set<int>, s2: set<int>, lo: int, m: int, next: int)
    requires NoCommon(s1, s2, lo, m) && !(m in s1 && m in s2) && (forall v :: m < v < next ==> v !in s2)
    ensures NoCommon(s1, s2, lo, next)
  {
  }

  lemma NoCommonBits(mem: seq<Cell>, owner: seq<int>, d1: nat, d2: nat, lo: int, hi: int)
    requires TwoVars(mem, owner, d1, d2) && !IsIT(mem, d1) && !IsIT(mem, d2)
    requires First(mem, d1) <= lo && First(mem, d2) <= lo && hi <= Last(mem, d1) + 1 && hi <= Last(mem, d2) + 1
    ensures ApartIn(mem, Bv(mem, d1), Bv(mem, d2), lo, hi) <==> NoCommon(Stale(mem, d1), Stale(mem, d2), lo, hi)
  {
    forall v | lo <= v < hi
      ensures v in Stale(mem, d1) <==> BvBit(mem, Bv(mem, d1), v)
      ensures v in Stale(mem, d2) <==> BvBit(mem, Bv(mem, d2), v) {
      assert v in Stale(mem, d1) <==> InStale(mem, d1, v);
      assert v in Stale(mem, d2) <==> InStale(mem, d2, v);
    }
  }

  method InBoth(mem: seq<Cell>, ghost owner: seq<int>, d1: nat, d2: nat, v: int) returns (r: bool)
    requires TwoVars(mem, owner, d1, d2)
    ensures r <==> v in Stale(mem, d1) && v in Stale(mem, d2)
  {
    var in1 := DmTrue(mem, owner, d1, v);
    var in2 := DmTrue(mem, owner, d2, v);
    return in1 && in2;
  }

  // The stepping loop of dm_disjoint for vectors of different bases and intervals.
  method DisjointSteps(mem: seq<Cell>, ghost owner: seq<int>, d1: nat, d2: nat, min0: int, max: int) returns (r: bool)
    requires TwoVars(mem, owner, d1, d2) && First(mem, d2) <= min0 <= max <= Last(mem, d2)
    ensures r ==> NoCommon(Stale(mem, d1), Stale(mem, d2), min0, max + 1)
    ensures !r ==> !(Stale(mem, d1) !! Stale(mem, d2))
  {
    ghost var s1, s2 := Stale(mem, d1), Stale(mem, d2);
    var min := min0;
    while true
      invariant min0 <= min && NoCommon(s1, s2, min0, min)
      decreases max - min
    {
      var both := InBoth(mem, owner, d1, d2, min);
      if both {
        return false;
      }
      if min >= max {
        return true;
      }
      ghost var from := min;
      min := StepIn(mem, owner, d2, min, max);
      NoCommonStep(s1, s2, min0, from, min);
    }
  }

  lemma OutsideRange(mem: seq<Cell>, owner: seq<int>, d1: nat, d2: nat, min: int, max: int)
    requires TwoVars(mem, owner, d1, d2)
    requires min == Max(First(mem, d1), First(mem, d2)) && max == Min(Last(mem, d1), Last(mem, d2))
    ensures Stale(mem, d1) !! Stale(mem, d2) <==> NoCommon(Stale(mem, d1), Stale(mem, d2), min, max + 1)
  {
    StaleBounds(mem, owner, d1);
    StaleBounds(mem, owner, d2);
  }

  // dm_disjoint. Equal bounds decide at once because no unbound domain has fewer than two members.
  method DmDisjoint(mem: seq<Cell>, ghost owner: seq<int>, d1: nat, d2: nat) returns (r: bool)
    requires TwoVars(mem, owner, d1, d2)
    ensures r <==> Stale(mem, d1) !! Stale(mem, d2)
  {
    StaleBounds(mem, owner, d1);
    StaleBounds(mem, owner, d2);
    var min, min2 := First(mem, d1), First(mem, d2);
    if min == min2 {
      assert min in Stale(mem, d1) && min in Stale(mem, d2);
      return false;
    }
    var max, max2 := Last(mem, d1), Last(mem, d2);
    if max == max2 {
      assert max in Stale(mem, d1) && max in Stale(mem, d2);
      return false;
    }
    min := Max(min, min2);
    max := Min(max, max2);
    OutsideRange(mem, owner, d1, d2, min, max);
    if min == max {
      assert min in Stale(mem, d1) && min in Stale(mem, d2);
      return false;
    }
    if min > max {
      return true;
    }
    if !IsIT(mem, d1) && !IsIT(mem, d2) {
      var p, q := Bv(mem, d1), Bv(mem, d2);
      if BvLow(mem, p) == BvLow(mem, q) && BvUp(mem, p) == BvUp(mem, q) {
        r := DisjointWords(mem, p, q, min, max);
        NoCommonBits(mem, owner, d1, d2, min, max + 1);
        return;
      }
    }
    r := DisjointSteps(mem, owner, d1, d2, min, max);
  }

  lemma MaskedWord(w: int, m: int)
    requires IsWord(w)
    ensures IsWord(And64(w, m))
  {
    BitwiseBit(And, w, m, WORD_BITS, 0);
  }

  lemma NotIsZero(w1: int, w2: int)
    requires IsWord(w1)
    ensures And64(Not64(w1), w2) == 0 <==> forall i: nat :: i < WORD_BITS ==> (On(w2, i) ==> On(w1, i))
  {
    AndIsZero(Not64(w1), w2);
    forall i: nat | i < WORD_BITS ensures On(Not64(w1), i) <==> !On(w1, i) {
      BitOfNot(WORD_BITS, w1, i);
    }
  }

  // (~w1 & w2) == 0 decides whether every value of the second word is in the first.
  lemma WordCovered(mem: seq<Cell>, p: int, q: int, low: int, j: int, w1: int, w2: int, lo: nat, hi: nat)
    requires BvLow(mem, p) == low && BvLow(mem, q) == low && lo <= hi < WORD_BITS && IsWord(w1)
    requires Masked(w1, At(mem, p + 2 + j), lo, hi) && Masked(w2, At(mem, q + 2 + j), lo, hi)
    ensures And64(Not64(w1), w2) == 0 <==> CoveredIn(mem, p, q, low + WORD_BITS * j + lo, low + WORD_BITS * j + hi + 1)
  {
    NotIsZero(w1, w2);
    var base := low + WORD_BITS * j;
    if And64(Not64(w1), w2) == 0 {
      forall v | base + lo <= v < base + hi + 1 ensures BvBit(mem, q, v) ==> BvBit(mem, p, v) {
        BitAt(mem, p, v, j, v - base);
        BitAt(mem, q, v, j, v - base);
      }
    } else {
      var i: nat :| i < WORD_BITS && On(w2, i) && !On(w1, i);
      BitAt(mem, p, base + i, j, i);
      BitAt(mem, q, base + i, j, i);
    }
  }

  // The word loop of domain_include_bv.
  method IncludeWords(mem: seq<Cell>, p: int, q: int, elm: int, last: int) returns (r: bool)
    requires BvLow(mem, p) == BvLow(mem, q) <= elm <= last && WordsUpTo(mem, p, last)
    ensures r <==> CoveredIn(mem, p, q, elm, last + 1)
  {
    var low := BvLow(mem, p);
    var j: int, offset: nat := (elm - low) / WORD_BITS, (elm - low) % WORD_BITS;
    var lastJ: int, lastOffset: nat := (last - low) / WORD_BITS, (last - low) % WORD_BITS;
    DivMono(elm - low, last - low);
    var w1, w2 := And64(At(mem, p + 2 + j), BitsFrom(offset)), And64(At(mem, q + 2 + j), BitsFrom(offset));
    MaskedLow(At(mem, p + 2 + j), offset);
    MaskedLow(At(mem, q + 2 + j), offset);
    MaskedWord(At(mem, p + 2 + j), BitsFrom(offset));
    ghost var lo: nat := offset;
    while j != lastJ
      invariant 0 <= j <= lastJ && lo < WORD_BITS && (lo == 0 || low + WORD_BITS * j + lo == elm)
      invariant elm <= low + WORD_BITS * j + lo && CoveredIn(mem, p, q, elm, low + WORD_BITS * j + lo)
      invariant Masked(w1, At(mem, p + 2 + j), lo, WORD_BITS - 1) && IsWord(w1)
      invariant Masked(w2, At(mem, q + 2 + j), lo, WORD_BITS - 1)
    {
      WordCovered(mem, p, q, low, j, w1, w2, lo, WORD_BITS - 1);
      if And64(Not64(w1), w2) != 0 {
        return false;
      }
      j := j + 1;
      lo := 0;
      w1, w2 := At(mem, p + 2 + j), At(mem, q + 2 + j);
      WholeWord(w1);
      WholeWord(w2);
    }
    r := IncludeLastWord(mem, p, q, low, j, w1, w2, lo, lastOffset);
  }

  // The word that holds last: both words are masked above it.
  method IncludeLastWord(mem: seq<Cell>, p: int, q: int, low: int, j: int, w1: int, w2: int, ghost lo: nat, hi: nat)
    returns (r: bool)
    requires BvLow(mem, p) == low && BvLow(mem, q) == low && lo <= hi < WORD_BITS && IsWord(w1)
    requires Masked(w1, At(mem, p + 2 + j), lo, WORD_BITS - 1) && Masked(w2, At(mem, q + 2 + j), lo, WORD_BITS - 1)
    ensures r <==> CoveredIn(mem, p, q, low + WORD_BITS * j + lo, low + WORD_BITS * j + hi + 1)
  {
    MaskedHigh(w1, At(mem, p + 2 + j), lo, hi);
    MaskedHigh(w2, At(mem, q + 2 + j), lo, hi);
    MaskedWord(w1, BitsUpTo(hi));
    WordCovered(mem, p, q, low, j, And64(w1, BitsUpTo(hi)), And64(w2, BitsUpTo(hi)), lo, hi);
    return And64(Not64(And64(w1, BitsUpTo(hi))), And64(w2, BitsUpTo(hi))) == 0;
  }

  // Bits decide membership in a bit-vector domain between its bounds.
  lemma BitIsMember(mem: seq<Cell>, owner: seq<int>, d: nat, v: int)
    requires Shape(mem, owner, d) && !IsIT(mem, d) && First(mem, d) <= v <= Last(mem, d)
    ensures v in Stale(mem, d) <==> BvBit(mem, Bv(mem, d), v)
  {
    assert v in Stale(mem, d) <==> InStale(mem, d, v);
  }

  lemma CoveredSubset(mem: seq<Cell>, owner: seq<int>, d1: nat, d2: nat)
    requires TwoVars(mem, owner, d1, d2) && !IsIT(mem, d1) && !IsIT(mem, d2)
    requires First(mem, d1) <= First(mem, d2) && Last(mem, d2) <= Last(mem, d1)
    ensures CoveredIn(mem, Bv(mem, d1), Bv(mem, d2), First(mem, d2), Last(mem, d2) + 1) <==>
      Stale(mem, d2) <= Stale(mem, d1)
  {
    StaleBounds(mem, owner, d2);
    forall v | First(mem, d2) <= v <= Last(mem, d2)
      ensures v in Stale(mem, d1) <==> BvBit(mem, Bv(mem, d1), v)
      ensures v in Stale(mem, d2) <==> BvBit(mem, Bv(mem, d2), v) {
      BitIsMember(mem, owner, d1, v);
      BitIsMember(mem, owner, d2, v);
    }
    if Stale(mem, d2) <= Stale(mem, d1) {
      forall v | First(mem, d2) <= v < Last(mem, d2) + 1
        ensures BvBit(mem, Bv(mem, d2), v) ==> BvBit(mem, Bv(mem, d1), v) {
        assert v in Stale(mem, d2) ==> v in Stale(mem, d1);
      }
    }
  }

  // The element loop of domain_include_bv; the bounds of d2 have been tested.
  method IncludeSteps(mem: seq<Cell>, ghost owner: seq<int>, d1: nat, d2: nat) returns (r: bool)
    requires TwoVars(mem, owner, d1, d2) && !IsIT(mem, d1)
    requires First(mem, d1) <= First(mem, d2) && Last(mem, d2) <= Last(mem, d1)
    requires First(mem, d2) in Stale(mem, d1) && Last(mem, d2) in Stale(mem, d1)
    ensures r <==> Stale(mem, d2) <= Stale(mem, d1)
  {
    StaleBounds(mem, owner, d2);
    ghost var s1, s2 := Stale(mem, d1), Stale(mem, d2);
    var elm, last := First(mem, d2) + 1, Last(mem, d2);
    while elm < last
      invariant First(mem, d2) < elm <= last + 1 && (forall v :: v in s2 && v < elm ==> v in s1)
    {
      ghost var from := elm - 1;
      elm := StepIn(mem, owner, d2, elm - 1, last);
      BoundedBy(s2, First(mem, d2), last, elm);
      BitIsMember(mem, owner, d1, elm);
      var isIn := TestElm(mem, Bv(mem, d1), elm);
      if !isIn {
        return false;
      }
      CoverStep(s1, s2, from, elm);
      elm := elm + 1;
    }
    CoverAll(s1, s2, elm, last);
    return true;
  }

  lemma BoundedBy(s: set<int>, first: int, last: int, v: int)
    requires Bounds(s, first, last) && v in s
    ensures first <= v <= last
  {
  }

  lemma CoverStep(s1: set<int>, s2: set<int>, from: int, elm: int)
    requires (forall v :: v in s2 && v < from + 1 ==> v in s1) && (forall v :: from < v < elm ==> v !in s2) && elm in s1
    ensures forall v :: v in s2 && v < elm + 1 ==> v in s1
  {
  }

  lemma CoverAll(s1: set<int>, s2: set<int>, elm: int, last: int)
    requires (forall v :: v in s2 && v < elm ==> v in s1) && last in s1 && last <= elm
    requires forall v :: v in s2 ==> v <= last
    ensures s2 <= s1
  {
    forall v | v in s2 ensures v in s1 {
    }
  }

  // domain_include_bv
  method DomainIncludeBv(mem: seq<Cell>, ghost owner: seq<int>, d1: nat, d2: nat) returns (r: bool)
    requires TwoVars(mem, owner, d1, d2) && !IsIT(mem, d1)
    requires First(mem, d1) <= First(mem, d2) && Last(mem, d2) <= Last(mem, d1)
    ensures r <==> Stale(mem, d2) <= Stale(mem, d1)
  {
    StaleBounds(mem, owner, d2);
    var elm, last := First(mem, d2), Last(mem, d2);
    if !IsIT(mem, d2) && BvLow(mem, Bv(mem, d1)) == BvLow(mem, Bv(mem, d2)) {
      WordInBlock(mem, owner, d1, last);
      r := IncludeWords(mem, Bv(mem, d1), Bv(mem, d2), elm, last);
      CoveredSubset(mem, owner, d1, d2);
      return;
    }
    BitIsMember(mem, owner, d1, elm);
    BitIsMember(mem, owner, d1, last);
    var in1 := TestElm(mem, Bv(mem, d1), elm);
    var in2 := TestElm(mem, Bv(mem, d1), last);
    if !(in1 && in2) {
      return false;
    }
    r := IncludeSteps(mem, owner, d1, d2);
  }

  // DOMAIN_INCLUDE: is every value of d2 one of d1?
  method DomainInclude(mem: seq<Cell>, ghost owner: seq<int>, d1: nat, d2: nat) returns (r: bool)
    requires TwoVars(mem, owner, d1, d2)
    ensures r <==> Stale(mem, d2) <= Stale(mem, d1)
  {
    StaleBounds(mem, owner, d1);
    StaleBounds(mem, owner, d2);
    if Stale(mem, d2) <= Stale(mem, d1) {
      SubsetSize(Stale(mem, d2), Stale(mem, d1));
      BoundedBy(Stale(mem, d1), First(mem, d1), Last(mem, d1), First(mem, d2));
      BoundedBy(Stale(mem, d1), First(mem, d1), Last(mem, d1), Last(mem, d2));
    }
    if Size(mem, d1) < Size(mem, d2) || First(mem, d1) > First(mem, d2) || Last(mem, d1) < Last(mem, d2) {
      return false;
    }
    if IsIT(mem, d1) {
      forall v | v in Stale(mem, d2) ensures v in Stale(mem, d1) {
        assert InStale(mem, d1, v);
      }
      return true;
    }
    r := DomainIncludeBv(mem, owner, d1, d2);
  }
}
