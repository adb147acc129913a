// The first pass over a table: the smallest and the largest support of each value.
module TableMeasure {
  import opened Tables

  const BP_MAXINT_1W: int := 72057594037927935
  const BP_MININT_1W: int := -BP_MAXINT_1W

  // The bounds of n, or the initial values when there is nothing in n.
  ghost predicate Extremes(n: set<int>, min: int, max: int) {
    if n == {} then min == BP_MAXINT_1W && max == BP_MININT_1W
    else min in n && max in n && forall v :: v in n ==> min <= v <= max
  }

  lemma ExtremesAdd(n: set<int>, min: int, max: int, a: int)
    requires Extremes(n, min, max) && BP_MININT_1W <= a <= BP_MAXINT_1W
    ensures Extremes(n + {a}, if a < min then a else min, if a > max then a else max)
  {
  }

  ghost predicate Dims(a: array3<int>, n: nat, nk: nat) {
    a.Length0 == n && a.Length1 == n && a.Length2 == nk
  }

  // The supports in the rows seen: the first m, and row m as well for a pair of columns that is done.
  ghost function Seen(rows: seq<seq<int>>, maxs: seq<nat>, i: int, j: int, k: int, m: nat, done: bool): set<int>
    requires IsTable(rows, maxs) && Columns(|maxs|, i, j) && m <= |rows|
  {
    Supports(rows[..if done && m < |rows| then m + 1 else m], maxs, i, j, k)
  }

  lemma SeenStep(rows: seq<seq<int>>, maxs: seq<nat>, i: int, j: int, k: int, m: nat)
    requires IsTable(rows, maxs) && Columns(|maxs|, i, j) && m < |rows|
    ensures IsRow(rows[m], maxs)
    ensures Seen(rows, maxs, i, j, k, m, true) ==
        Seen(rows, maxs, i, j, k, m, false) + (if rows[m][i] == k then {rows[m][j]} else {})
    ensures Seen(rows, maxs, i, j, k, m + 1, false) == Seen(rows, maxs, i, j, k, m, true)
  {
    SupportsStep(rows, maxs, m, i, j, k);
  }

  lemma SeenAll(rows: seq<seq<int>>, maxs: seq<nat>, i: int, j: int, k: int)
    requires IsTable(rows, maxs) && Columns(|maxs|, i, j)
    ensures Seen(rows, maxs, i, j, k, 0, false) == {}
    ensures Seen(rows, maxs, i, j, k, |rows|, false) == Supports(rows, maxs, i, j, k)
  {
    assert rows[..|rows|] == rows;
  }

  // The loops over i < j stand at i, j: is the pair of columns p, q done, in either order?
  predicate PairDone(p: int, q: int, i: int, j: int) {
    var lo, hi := if p < q then p else q, if p < q then q else p;
    lo < i || (lo == i && hi < j)
  }

  ghost predicate Measured(mins: array3<int>, maxes: array3<int>, rows: seq<seq<int>>, maxs: seq<nat>, nk: nat, m: nat,
      i: int, j: int)
    requires IsTable(rows, maxs) && Dims(mins, |maxs|, nk) && Dims(maxes, |maxs|, nk) && m <= |rows|
    reads mins, maxes
  {
    forall p, q, k :: Columns(|maxs|, p, q) && 0 <= k < nk ==>
      Extremes(Seen(rows, maxs, p, q, k, m, PairDone(p, q, i, j)), mins[p, q, k], maxes[p, q, k])
  }

  // initialize_min_max_arrays
  method InitExtremes(n: nat, nk: nat, mins: array3<int>, maxes: array3<int>)
    requires Dims(mins, n, nk) && Dims(maxes, n, nk) && mins != maxes
    modifies mins, maxes
    ensures forall p, q, k :: Columns(n, p, q) && 0 <= k < nk ==>
      mins[p, q, k] == BP_MAXINT_1W && maxes[p, q, k] == BP_MININT_1W
  {
    var i := 0;
    while i < n - 1
      invariant 0 <= i <= n
      invariant Blank(mins, maxes, n, nk, i, i + 1, 0)
    {
      var j := i + 1;
      while j < n
        invariant i < j <= n
        invariant Blank(mins, maxes, n, nk, i, j, 0)
      {
        var k := 0;
        while k < nk
          invariant 0 <= k <= nk
          invariant Blank(mins, maxes, n, nk, i, j, k)
        {
          mins[i, j, k] := BP_MAXINT_1W;
          maxes[i, j, k] := BP_MININT_1W;
          mins[j, i, k] := BP_MAXINT_1W;
          maxes[j, i, k] := BP_MININT_1W;
          k := k + 1;
        }
        j := j + 1;
      }
      i := i + 1;
    }
  }

  predicate CellDone(p: int, q: int, r: int, i: int, j: int, k: int) {
    PairDone(p, q, i, j) || (PairDone(p, q, i, j + 1) && r < k)
  }

  ghost predicate Blank(mins: array3<int>, maxes: array3<int>, n: nat, nk: nat, i: int, j: int, k: int)
    requires Dims(mins, n, nk) && Dims(maxes, n, nk)
    reads mins, maxes
  {
    forall p, q, r :: Columns(n, p, q) && 0 <= r < nk && CellDone(p, q, r, i, j, k) ==>
      mins[p, q, r] == BP_MAXINT_1W && maxes[p, q, r] == BP_MININT_1W
  }

  // One support a of value k.
  method Improve(mins: array3<int>, maxes: array3<int>, ghost n: nat, ghost nk: nat, i: int, j: int, k: int, a: int)
    requires Dims(mins, n, nk) && Dims(maxes, n, nk) && mins != maxes && 0 <= i < n && 0 <= j < n && 0 <= k < nk
    modifies mins, maxes
    ensures mins[i, j, k] == (if a < old(mins[i, j, k]) then a else old(mins[i, j, k]))
    ensures maxes[i, j, k] == (if a > old(maxes[i, j, k]) then a else old(maxes[i, j, k]))
    ensures forall p, q, r :: 0 <= p < n && 0 <= q < n && 0 <= r < nk && !(p == i && q == j && r == k) ==>
      mins[p, q, r] == old(mins[p, q, r]) && maxes[p, q, r] == old(maxes[p, q, r])
  {
    if a < mins[i, j, k] {
      mins[i, j, k] := a;
    }
    if a > maxes[i, j, k] {
      maxes[i, j, k] := a;
    }
  }

  // Row m offers a support to value k of column p, seen from q.
  ghost predicate Offers(row: seq<int>, i: int, j: int, p: int, q: int, k: int) {
    ((p == i && q == j) || (p == j && q == i)) && 0 <= p < |row| && row[p] == k
  }

  lemma PairStep(rows: seq<seq<int>>, maxs: seq<nat>, m: nat, i: int, j: int, p: int, q: int, k: int, min: int,
      max: int, min': int, max': int)
    requires IsTable(rows, maxs) && m < |rows| && 0 <= i < j < |maxs| && Columns(|maxs|, p, q) && IsRow(rows[m], maxs)
    requires maxs[q] <= BP_MAXINT_1W
    requires Extremes(Seen(rows, maxs, p, q, k, m, PairDone(p, q, i, j)), min, max)
    requires min' == if Offers(rows[m], i, j, p, q, k) && rows[m][q] < min then rows[m][q] else min
    requires max' == if Offers(rows[m], i, j, p, q, k) && rows[m][q] > max then rows[m][q] else max
    ensures Extremes(Seen(rows, maxs, p, q, k, m, PairDone(p, q, i, j + 1)), min', max')
  {
    SeenStep(rows, maxs, p, q, k, m);
    if Offers(rows[m], i, j, p, q, k) {
      ExtremesAdd(Seen(rows, maxs, p, q, k, m, false), min, max, rows[m][q]);
    }
  }

  // Columns i and j of row m, both ways.
  method MeasurePair(mins: array3<int>, maxes: array3<int>, rows: seq<seq<int>>, ghost maxs: seq<nat>, ghost nk: nat,
      m: nat, i: int, j: int)
    requires IsTable(rows, maxs) && Dims(mins, |maxs|, nk) && Dims(maxes, |maxs|, nk) && mins != maxes && m < |rows|
    requires 0 <= i < j < |maxs| && (forall c :: 0 <= c < |maxs| ==> maxs[c] < nk && maxs[c] <= BP_MAXINT_1W)
    requires Measured(mins, maxes, rows, maxs, nk, m, i, j)
    modifies mins, maxes
    ensures Measured(mins, maxes, rows, maxs, nk, m, i, j + 1)
  {
    assert IsRow(rows[m], maxs);
    var ai, aj := rows[m][i], rows[m][j];
    Improve(mins, maxes, |maxs|, nk, i, j, ai, aj);
    Improve(mins, maxes, |maxs|, nk, j, i, aj, ai);
    forall p, q, k | Columns(|maxs|, p, q) && 0 <= k < nk
      ensures Extremes(Seen(rows, maxs, p, q, k, m, PairDone(p, q, i, j + 1)), mins[p, q, k], maxes[p, q, k]) {
      PairStep(rows, maxs, m, i, j, p, q, k, old(mins[p, q, k]), old(maxes[p, q, k]), mins[p, q, k], maxes[p, q, k]);
    }
  }

  method MeasureRow(mins: array3<int>, maxes: array3<int>, rows: seq<seq<int>>, maxs: seq<nat>, ghost nk: nat, m: nat)
    requires IsTable(rows, maxs) && Dims(mins, |maxs|, nk) && Dims(maxes, |maxs|, nk) && mins != maxes && m < |rows|
    requires forall c :: 0 <= c < |maxs| ==> maxs[c] < nk && maxs[c] <= BP_MAXINT_1W
    requires Measured(mins, maxes, rows, maxs, nk, m, 0, 1)
    modifies mins, maxes
    ensures Measured(mins, maxes, rows, maxs, nk, m + 1, 0, 1)
  {
    var i := 0;
    while i < |maxs| - 1
      invariant 0 <= i <= |maxs| && Measured(mins, maxes, rows, maxs, nk, m, i, i + 1)
    {
      var j := i + 1;
      while j < |maxs|
        invariant i < j <= |maxs| && Measured(mins, maxes, rows, maxs, nk, m, i, j)
      {
        MeasurePair(mins, maxes, rows, maxs, nk, m, i, j);
        j := j + 1;
      }
      NextColumn(mins, maxes, rows, maxs, nk, m, i);
      i := i + 1;
    }
    forall p, q, k | Columns(|maxs|, p, q) && 0 <= k < nk
      ensures Extremes(Seen(rows, maxs, p, q, k, m + 1, PairDone(p, q, 0, 1)), mins[p, q, k], maxes[p, q, k]) {
      SeenStep(rows, maxs, p, q, k, m);
      assert PairDone(p, q, i, i + 1) && !PairDone(p, q, 0, 1);
    }
  }

  lemma NextColumn(mins: array3<int>, maxes: array3<int>, rows: seq<seq<int>>, maxs: seq<nat>, nk: nat, m: nat, i: int)
    requires IsTable(rows, maxs) && Dims(mins, |maxs|, nk) && Dims(maxes, |maxs|, nk) && m < |rows|
    requires Measured(mins, maxes, rows, maxs, nk, m, i, |maxs|)
    ensures Measured(mins, maxes, rows, maxs, nk, m, i + 1, i + 2)
  {
    forall p, q | Columns(|maxs|, p, q) ensures PairDone(p, q, i, |maxs|) == PairDone(p, q, i + 1, i + 2) {
    }
  }

  // compute_mins_maxs_in: the extremes of every support set.
  method MeasureTable(mins: array3<int>, maxes: array3<int>, rows: seq<seq<int>>, maxs: seq<nat>, nk: nat)
    requires IsTable(rows, maxs) && Dims(mins, |maxs|, nk) && Dims(maxes, |maxs|, nk) && mins != maxes
    requires forall c :: 0 <= c < |maxs| ==> maxs[c] < nk && maxs[c] <= BP_MAXINT_1W
    modifies mins, maxes
    ensures forall p, q, k :: Columns(|maxs|, p, q) && 0 <= k < nk ==>
      Extremes(Supports(rows, maxs, p, q, k), mins[p, q, k], maxes[p, q, k])
  {
    InitExtremes(|maxs|, nk, mins, maxes);
    forall p, q, k | Columns(|maxs|, p, q) && 0 <= k < nk
      ensures Extremes(Seen(rows, maxs, p, q, k, 0, PairDone(p, q, 0, 1)), mins[p, q, k], maxes[p, q, k]) {
      SeenAll(rows, maxs, p, q, k);
    }
    var m := 0;
    while m < |rows|
      invariant 0 <= m <= |rows| && Measured(mins, maxes, rows, maxs, nk, m, 0, 1)
    {
      MeasureRow(mins, maxes, rows, maxs, nk, m);
      m := m + 1;
    }
    forall p, q, k | Columns(|maxs|, p, q) && 0 <= k < nk
      ensures Extremes(Supports(rows, maxs, p, q, k), mins[p, q, k], maxes[p, q, k]) {
      SeenAll(rows, maxs, p, q, k);
    }
  }
}
