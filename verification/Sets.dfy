// Finite sets of integers, cut to a range and counted.
module Sets {

  ghost predicate InRange(lo: int, v: int, hi: int) {
    lo <= v <= hi
  }

  ghost function Range(lo: int, hi: int): set<int> {
    set v: int | lo <= v <= hi && InRange(lo, v, hi)
  }

  // The members of s from lo to hi.
  ghost function Between(s: set<int>, lo: int, hi: int): set<int> {
    set v: int | v in s && lo <= v <= hi
  }

  lemma {:induction false} RangeSize(lo: int, hi: int)
    requires lo <= hi + 1
    ensures |Range(lo, hi)| == hi - lo + 1
    decreases hi - lo + 1
  {
    if lo <= hi {
      assert Range(lo, hi) == Range(lo, hi - 1) + {hi};
      RangeSize(lo, hi - 1);
    }
  }

  // A subset is no larger, and equally large only when it is everything.
  lemma {:induction false} SubsetSize<T>(a: set<T>, b: set<T>)
    requires a <= b
    ensures |a| <= |b|
    ensures |a| == |b| ==> a == b
  {
    var rest := b - a;
    assert b == a + rest && a !! rest;
  }

  // The members up to lo - 1, from lo to hi, and from hi + 1 on are counted separately.
  lemma SplitSize(s: set<int>, lo: int, hi: int, first: int, last: int)
    requires forall v :: v in s ==> first <= v <= last
    requires lo <= hi + 1
    ensures |Between(s, lo, hi)| == |s| - |Between(s, first, lo - 1)| - |Between(s, hi + 1, last)|
  {
    var a, b, c := Between(s, first, lo - 1), Between(s, lo, hi), Between(s, hi + 1, last);
    assert s == a + b + c;
    assert a !! b && (a + b) !! c;
  }

  // The only member of a one-element set.
  lemma SingleMember<T>(s: set<T>, x: T)
    requires |s| == 1 && x in s
    ensures s == {x}
  {
    SubsetSize({x}, s);
  }

  lemma SizeTwo<T>(s: set<T>, x: T, y: T)
    requires x in s && y in s && x != y
    ensures 2 <= |s|
  {
    SubsetSize({x, y}, s);
  }

  lemma SomeMember<T>(s: set<T>) returns (x: T)
    requires s != {}
    ensures x in s
  {
    x :| x in s;
  }

  lemma Overlap<T>(a: set<T>, b: set<T>) returns (x: T)
    requires !(a !! b)
    ensures x in a && x in b
  {
    x :| x in a && x in b;
  }
}
