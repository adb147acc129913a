// Tasks on one machine: what fits into a window, and who must come first or last.
module Schedules {
  import opened Linear

  // Two tasks that do not overlap.
  ghost predicate Apart(s1: int, d1: int, s2: int, d2: int) {
    s1 + d1 <= s2 || s2 + d2 <= s1
  }

  ghost predicate AllApart(s: seq<int>, d: seq<int>) {
    |s| == |d| && forall i, j :: 0 <= i < j < |s| ==> Apart(s[i], d[i], s[j], d[j])
  }

  ghost predicate Positive(d: seq<int>) {
    forall i :: 0 <= i < |d| ==> d[i] > 0
  }

  // Every task starts at lo or later and ends at hi or earlier.
  ghost predicate Inside(s: seq<int>, d: seq<int>, lo: int, hi: int) {
    |s| == |d| && forall i :: 0 <= i < |s| ==> lo <= s[i] && s[i] + d[i] <= hi
  }

  function Without<T>(s: seq<T>, j: int): seq<T>
    requires 0 <= j < |s|
  {
    s[..j] + s[j + 1..]
  }

  // The index of a latest start.
  lemma {:induction false} LatestStart(s: seq<int>) returns (j: int)
    requires |s| > 0
    ensures 0 <= j < |s| && forall i :: 0 <= i < |s| ==> s[i] <= s[j]
    decreases |s|
  {
    var m := |s| - 1;
    j := m;
    if m > 0 {
      var k := LatestStart(s[..m]);
      if s[k] > s[m] {
        j := k;
      }
      forall i | 0 <= i < |s| ensures s[i] <= s[j] {
        if i < m {
          assert s[..m][i] <= s[..m][k];
        }
      }
    }
  }

  lemma WithoutAt<T>(s: seq<T>, j: int, i: int)
    requires 0 <= j < |s| && 0 <= i < |s| - 1
    ensures Without(s, j)[i] == s[if i < j then i else i + 1]
  {
  }

  lemma SumWithout(d: seq<int>, j: int)
    requires 0 <= j < |d|
    ensures Sum(d) == Sum(Without(d, j)) + d[j]
  {
    SumSplit(d, j);
    SumSplit(d[j..], 1);
    assert d[j..][..1] == [d[j]] && d[j..][1..] == d[j + 1..];
    assert [d[j]][..0] == [];
    SumSplit(Without(d, j), j);
    assert Without(d, j)[..j] == d[..j] && Without(d, j)[j..] == d[j + 1..];
  }

  // What is left without task j.
  lemma RestApart(s: seq<int>, d: seq<int>, j: int)
    requires AllApart(s, d) && Positive(d) && 0 <= j < |s|
    ensures AllApart(Without(s, j), Without(d, j)) && Positive(Without(d, j))
  {
    forall a, b | 0 <= a < b < |s| - 1
      ensures Apart(Without(s, j)[a], Without(d, j)[a], Without(s, j)[b], Without(d, j)[b]) {
      WithoutAt(s, j, a);
      WithoutAt(s, j, b);
    }
  }

  lemma RestInside(s: seq<int>, d: seq<int>, j: int, lo: int)
    requires AllApart(s, d) && Positive(d) && 0 <= j < |s|
    requires forall i :: 0 <= i < |s| ==> lo <= s[i] <= s[j]
    ensures Inside(Without(s, j), Without(d, j), lo, s[j])
  {
    forall a | 0 <= a < |s| - 1 ensures lo <= Without(s, j)[a] && Without(s, j)[a] + Without(d, j)[a] <= s[j] {
      WithoutAt(s, j, a);
      var i := if a < j then a else a + 1;
      assert Apart(s[i], d[i], s[j], d[j]) || Apart(s[j], d[j], s[i], d[i]);
    }
  }

  // Tasks that do not overlap need at least the sum of their durations.
  lemma {:induction false} WindowHolds(s: seq<int>, d: seq<int>, lo: int, hi: int)
    requires AllApart(s, d) && Positive(d) && Inside(s, d, lo, hi) && |s| > 0
    ensures Sum(d) <= hi - lo
    decreases |s|
  {
    var j := LatestStart(s);
    SumWithout(d, j);
    RestApart(s, d, j);
    RestInside(s, d, j, lo);
    if |s| > 1 {
      WindowHolds(Without(s, j), Without(d, j), lo, s[j]);
    } else {
      assert Without(d, j) == [];
    }
  }

  // Another task (t, e) that does not overlap any of (s, d).
  ghost predicate ApartFrom(s: seq<int>, d: seq<int>, t: int, e: int) {
    |s| == |d| && forall i :: 0 <= i < |s| ==> Apart(s[i], d[i], t, e)
  }

  lemma WithTask(s: seq<int>, d: seq<int>, t: int, e: int, lo: int, hi: int)
    requires AllApart(s, d) && Positive(d) && e > 0 && ApartFrom(s, d, t, e)
    requires Inside(s, d, lo, hi) && lo <= t && t + e <= hi
    ensures Sum(d) + e <= hi - lo
  {
    var s1, d1 := s + [t], d + [e];
    assert AllApart(s1, d1);
    WindowHolds(s1, d1, lo, hi);
    assert d1[..|d|] == d;
  }

  // The others and (t, e) do not fit before hi1 when something else comes first: the task comes first.
  lemma MustBeFirst(s: seq<int>, d: seq<int>, t: int, e: int, lo: int, hi: int, hi1: int)
    requires |s| > 0 && AllApart(s, d) && Positive(d) && e > 0 && ApartFrom(s, d, t, e)
    requires Inside(s, d, lo, hi) && hi <= hi1 && t + e <= hi1 && lo + (Sum(d) + e) > hi1
    ensures t + e + Sum(d) <= hi
  {
    forall q | 0 <= q < |s| ensures t + e <= s[q] {
      if s[q] <= t {
        WithTask(s, d, t, e, lo, hi1);
      }
    }
    WindowHolds(s, d, t + e, hi);
  }

  // They do not fit after lo1 when something else comes last: the task comes last.
  lemma MustBeLast(s: seq<int>, d: seq<int>, t: int, e: int, lo: int, hi: int, lo1: int)
    requires |s| > 0 && AllApart(s, d) && Positive(d) && e > 0 && ApartFrom(s, d, t, e)
    requires Inside(s, d, lo, hi) && lo1 <= lo && lo1 <= t && lo1 + (Sum(d) + e) > hi
    ensures lo + Sum(d) <= t
  {
    forall q | 0 <= q < |s| ensures s[q] + d[q] <= t {
      if s[q] + d[q] >= t + e {
        WithTask(s, d, t, e, lo1, hi);
      }
    }
    WindowHolds(s, d, lo, t);
  }
}
