// A table constraint over several variables: the first pruning pass over all pairs.
module TableConstraint {
  import opened Trail
  import opened Layout
  import opened Sets
  import opened Stores
  import opened Region
  import opened ToBits
  import opened Domains
  import opened LinearTerms
  import opened Tables
  import opened TableArcs

  // The trie of columns i and j holds exactly the supports of the table.
  ghost predicate TrieOf(views: map<nat, View>, trie: seq<Slot>, rows: seq<seq<int>>, maxs: seq<nat>, i: int, j: int) {
    && IsTable(rows, maxs) && Columns(|maxs|, i, j) && |trie| == maxs[i] + 1 && IsTrie(views, trie)
    && forall k :: 0 <= k <= maxs[i] ==> SlotSet(views, trie[k]) == Supports(rows, maxs, i, j, k)
  }

  lemma TriesMate(views: map<nat, View>, txy: seq<Slot>, tyx: seq<Slot>, rows: seq<seq<int>>, maxs: seq<nat>, i: int,
      j: int)
    requires TrieOf(views, txy, rows, maxs, i, j) && TrieOf(views, tyx, rows, maxs, j, i)
    ensures Mates(views, txy, tyx)
  {
    forall a, b ensures Stored(views, txy, a, b) <==> Stored(views, tyx, b, a) {
      SupportsMutual(rows, maxs, i, j, a, b);
      if b in Supports(rows, maxs, i, j, a) {
        SupportsInRange(rows, maxs, i, j, a, b);
      }
    }
  }

  lemma SupportsInRange(rows: seq<seq<int>>, maxs: seq<nat>, i: int, j: int, a: int, b: int)
    requires IsTable(rows, maxs) && Columns(|maxs|, i, j) && b in Supports(rows, maxs, i, j, a)
    ensures 0 <= a <= maxs[i] && 0 <= b <= maxs[j]
  {
    var m :| Pairs(rows, m, i, j, a, b);
    assert IsRow(rows[m], maxs);
  }

  // The constraint: row m of the table gives a value to each of vars.
  ghost predicate IsConstraint(views: map<nat, View>, vars: seq<nat>, tries: array2<seq<Slot>>, rows: seq<seq<int>>,
      maxs: seq<nat>)
    reads tries
  {
    && IsTable(rows, maxs) && |vars| == |maxs| == tries.Length0 == tries.Length1 && AreVars(views, vars)
    && (forall i, j :: Columns(|maxs|, i, j) ==> TrieOf(views, tries[i, j], rows, maxs, i, j))
    && (forall i, j, k :: Columns(|maxs|, i, j) && 0 <= k < |vars| ==> Apart(tries[i, j], vars[k]))
    && forall i :: 0 <= i < |vars| ==> Consistent(views[vars[i]])
  }

  // The variables can still take the values of the row; a variable in two columns takes one value.
  ghost predicate Fits(views: map<nat, View>, vars: seq<nat>, row: seq<int>)
    requires AreVars(views, vars)
  {
    Agree(vars, row) && forall i :: 0 <= i < |vars| ==> row[i] in Domain(views[vars[i]])
  }

  ghost predicate KeepsRows(v0: map<nat, View>, v: map<nat, View>, vars: seq<nat>, rows: seq<seq<int>>)
    requires AreVars(v0, vars) && AreVars(v, vars)
  {
    forall m :: 0 <= m < |rows| && Fits(v0, vars, rows[m]) ==> Fits(v, vars, rows[m])
  }

  ghost predicate NoRow(v0: map<nat, View>, vars: seq<nat>, rows: seq<seq<int>>)
    requires AreVars(v0, vars)
  {
    forall m :: 0 <= m < |rows| ==> !Fits(v0, vars, rows[m])
  }

  // A free variable with more than two values, or with a vector anyway, is kept in a bit vector.
  ghost function WithBits(v: View): View {
    if v.cell == Ref && |v.described| != 2 then v.(bits := true) else v
  }

  // Only the variables changed, and no row was lost. All but the smallest domains have become bit vectors.
  ghost predicate Filtered(v0: map<nat, View>, v: map<nat, View>, vars: seq<nat>, rows: seq<seq<int>>)
    requires AreVars(v0, vars)
  {
    && AreVars(v, vars) && OnlyVars(v0, v, vars) && KeepsRows(v0, v, vars, rows)
    && (forall i :: 0 <= i < |vars| ==> Domain(v[vars[i]]) <= Domain(v0[vars[i]]))
    && forall i :: 0 <= i < |vars| ==> (WithBits(v0[vars[i]]).bits ==> v[vars[i]].bits)
  }

  // Value k of column i stands in a row with a value of dom in column j.
  ghost predicate Backed(rows: seq<seq<int>>, maxs: seq<nat>, i: int, j: int, k: int, dom: set<int>)
    requires IsTable(rows, maxs) && Columns(|maxs|, i, j)
  {
    !(Supports(rows, maxs, i, j, k) !! dom)
  }

  lemma SupportIsBacked(views: map<nat, View>, trie: seq<Slot>, rows: seq<seq<int>>, maxs: seq<nat>, i: int, j: int,
      k: int, dom: set<int>)
    requires TrieOf(views, trie, rows, maxs, i, j)
    ensures HasSupport(views, trie, k, dom) <==> Backed(rows, maxs, i, j, k, dom)
  {
    if Backed(rows, maxs, i, j, k, dom) {
      var b := Overlap(Supports(rows, maxs, i, j, k), dom);
      SupportsInRange(rows, maxs, i, j, k, b);
    }
  }

  // The values of column i that are backed in all columns before q: in the columns before i by what is left there, in
  // those after i by what was there at the start.
  ghost function BackedUpTo(v0: map<nat, View>, v: map<nat, View>, vars: seq<nat>, rows: seq<seq<int>>, maxs: seq<nat>,
      i: int, q: int): set<int>
    requires IsTable(rows, maxs) && |vars| == |maxs| && AreVars(v0, vars) && AreVars(v, vars) && 0 <= i < |vars|
  {
    set k | k in Domain(v0[vars[i]]) && forall j :: 0 <= j < q && Columns(|maxs|, i, j) ==>
        Backed(rows, maxs, i, j, k, Domain((if j < i then v else v0)[vars[j]]))
  }

  // All columns before i are done; the others are untouched, but for the kind of their domains.
  ghost predicate ColumnsDone(v0: map<nat, View>, v: map<nat, View>, vars: seq<nat>, rows: seq<seq<int>>,
      maxs: seq<nat>, i: int)
    requires IsTable(rows, maxs) && |vars| == |maxs| && AreVars(v0, vars) && AreVars(v, vars) && i <= |vars|
  {
    forall p :: 0 <= p < i ==> Domain(v[vars[p]]) == BackedUpTo(v0, v, vars, rows, maxs, p, |vars|)
  }

  ghost predicate ColumnsLeft(v0: map<nat, View>, v: map<nat, View>, vars: seq<nat>, i: int)
    requires AreVars(v0, vars) && AreVars(v, vars) && 0 <= i
  {
    forall p :: i <= p < |vars| ==> Domain(v[vars[p]]) == Domain(v0[vars[p]])
  }

  // Each value left of the columns handled so far was backed at the start in all the columns it was checked against.
  ghost predicate BackedAtStart(v0: map<nat, View>, v: map<nat, View>, vars: seq<nat>, rows: seq<seq<int>>,
      maxs: seq<nat>, i: int, j: int)
    requires IsTable(rows, maxs) && |vars| == |maxs| && AreVars(v0, vars) && AreVars(v, vars)
  {
    forall p, q, k :: Handled(|vars|, i, j, p, q) && k in Domain(v[vars[p]]) ==>
        Backed(rows, maxs, p, q, k, Domain(v0[vars[q]]))
  }

  // A row that fits supports its own values.
  lemma RowSupports(views: map<nat, View>, vars: seq<nat>, tries: array2<seq<Slot>>, rows: seq<seq<int>>,
      maxs: seq<nat>, i: int, j: int, m: int)
    requires IsConstraint(views, vars, tries, rows, maxs) && Columns(|maxs|, i, j)
    requires 0 <= m < |rows| && Fits(views, vars, rows[m])
    ensures rows[m][i] in Supported(views, tries[i, j], Domain(views[vars[i]]), Domain(views[vars[j]]))
    ensures vars[i] == vars[j] ==> Selfed(views, tries[i, j], rows[m][i])
  {
    var row := rows[m];
    assert TrieOf(views, tries[i, j], rows, maxs, i, j) && IsRow(row, maxs);
    assert Pairs(rows, m, i, j, row[i], row[j]);
    assert row[j] in SlotSet(views, tries[i, j][row[i]]);
    if vars[i] == vars[j] {
      AgreeAt(vars, row, i, j);
    }
  }

  // What passing over columns i and j does to the rows that fit.
  lemma PassedRows(v1: map<nat, View>, v: View, vars: seq<nat>, tries: array2<seq<Slot>>, rows: seq<seq<int>>,
      maxs: seq<nat>, i: int, j: int, ok: bool)
    requires IsConstraint(v1, vars, tries, rows, maxs) && Columns(|maxs|, i, j)
    requires IsTrie(v1, tries[i, j]) && Passed(v1, vars[i], vars[j], tries[i, j], v1[vars[i]], v, ok)
    ensures forall m :: 0 <= m < |rows| && Fits(v1, vars, rows[m]) ==> ok && rows[m][i] in Domain(v)
    ensures ok ==> Domain(v) <= Domain(v1[vars[i]]) && Consistent(v) && (v1[vars[i]].bits ==> v.bits)
  {
    var x, trie, d := vars[i], tries[i, j], Between(Domain(v1[vars[i]]), 0, |tries[i, j]| - 1);
    assert TrieOf(v1, trie, rows, maxs, i, j);
    forall m | 0 <= m < |rows| && Fits(v1, vars, rows[m]) ensures ok && rows[m][i] in Domain(v) {
      RowSupports(v1, vars, tries, rows, maxs, i, j, m);
      if x == vars[j] {
        assert rows[m][i] in d;
        SelfedStays(v1, trie, d, if ok then Domain(v) else {}, rows[m][i]);
      }
    }
    assert Consistent(v1[vars[i]]);
  }

  // The values of column i that are backed by what is left in column j.
  ghost function BackedIn(v: map<nat, View>, vars: seq<nat>, rows: seq<seq<int>>, maxs: seq<nat>, i: int, j: int):
      set<int>
    requires IsTable(rows, maxs) && |vars| == |maxs| && AreVars(v, vars) && Columns(|maxs|, i, j)
  {
    set k | k in Domain(v[vars[i]]) && Backed(rows, maxs, i, j, k, Domain(v[vars[j]]))
  }

  // Only backed values are left; all of them, unless the two columns are one variable.
  ghost predicate PairChecked(v1: map<nat, View>, v: View, vars: seq<nat>, rows: seq<seq<int>>, maxs: seq<nat>, i: int,
      j: int, ok: bool)
    requires IsTable(rows, maxs) && |vars| == |maxs| && AreVars(v1, vars) && Columns(|maxs|, i, j)
  {
    && (ok ==> Domain(v) <= BackedIn(v1, vars, rows, maxs, i, j))
    && (vars[i] != vars[j] ==> (ok <==> BackedIn(v1, vars, rows, maxs, i, j) != {}))
    && (vars[i] != vars[j] && ok ==> Domain(v) == BackedIn(v1, vars, rows, maxs, i, j))
  }

  lemma PassedChecked(v1: map<nat, View>, v: View, vars: seq<nat>, tries: array2<seq<Slot>>, rows: seq<seq<int>>,
      maxs: seq<nat>, i: int, j: int, ok: bool)
    requires IsConstraint(v1, vars, tries, rows, maxs) && Columns(|maxs|, i, j)
    requires IsTrie(v1, tries[i, j]) && Passed(v1, vars[i], vars[j], tries[i, j], v1[vars[i]], v, ok)
    ensures PairChecked(v1, v, vars, rows, maxs, i, j, ok)
  {
    var x, y, trie := vars[i], vars[j], tries[i, j];
    assert TrieOf(v1, trie, rows, maxs, i, j);
    var d, r := Between(Domain(v1[x]), 0, |trie| - 1), BackedIn(v1, vars, rows, maxs, i, j);
    forall k ensures k in r <==> k in Supported(v1, trie, Domain(v1[x]), Domain(v1[y])) {
      SupportIsBacked(v1, trie, rows, maxs, i, j, k, Domain(v1[y]));
    }
    assert r == Supported(v1, trie, Domain(v1[x]), Domain(v1[y]));
    if x == y && ok {
      forall k | k in Domain(v) ensures k in r {
        SelfedStays(v1, trie, d, Domain(v), k);
        var b := Overlap(SlotSet(v1, trie[k]), d);
      }
    }
  }

  lemma ConstraintStep(v1: map<nat, View>, v2: map<nat, View>, vars: seq<nat>, tries: array2<seq<Slot>>,
      rows: seq<seq<int>>, maxs: seq<nat>, i: int)
    requires IsConstraint(v1, vars, tries, rows, maxs) && 0 <= i < |vars| && Changed(v1, v2, vars[i])
    requires Consistent(v2[vars[i]])
    ensures IsConstraint(v2, vars, tries, rows, maxs)
  {
    forall a, b | Columns(|maxs|, a, b) ensures TrieOf(v2, tries[a, b], rows, maxs, a, b) {
      assert TrieOf(v1, tries[a, b], rows, maxs, a, b) && Apart(tries[a, b], vars[i]);
      TrieFrame(v1, v2, tries[a, b], vars[i]);
    }
  }

  lemma FilterStep(v0: map<nat, View>, v1: map<nat, View>, v2: map<nat, View>, vars: seq<nat>, rows: seq<seq<int>>,
      i: int, ok: bool)
    requires AreVars(v0, vars) && Filtered(v0, v1, vars, rows) && 0 <= i < |vars| && Changed(v1, v2, vars[i])
    requires ok ==> Domain(v2[vars[i]]) <= Domain(v1[vars[i]]) && (v1[vars[i]].bits ==> v2[vars[i]].bits)
    requires forall m :: 0 <= m < |rows| && Fits(v1, vars, rows[m]) ==> ok && rows[m][i] in Domain(v2[vars[i]])
    ensures ok ==> Filtered(v0, v2, vars, rows)
    ensures !ok ==> NoRow(v0, vars, rows)
  {
    OnlyVarsStep(v0, v1, v2, vars, vars[i]);
    forall m | 0 <= m < |rows| && Fits(v0, vars, rows[m]) ensures ok && Fits(v2, vars, rows[m]) {
      assert Fits(v1, vars, rows[m]);
      forall k | 0 <= k < |vars| ensures rows[m][k] in Domain(v2[vars[k]]) {
        if vars[k] == vars[i] {
          AgreeAt(vars, rows[m], k, i);
        }
      }
    }
  }

  // One pair of columns.
  method PrunePair(s: Store, ghost v0: map<nat, View>, vars: seq<nat>, tries: array2<seq<Slot>>,
      ghost rows: seq<seq<int>>, ghost maxs: seq<nat>, i: int, j: int)
    returns (ok: bool)
    requires s.Valid() && IsConstraint(s.views, vars, tries, rows, maxs) && Columns(|vars|, i, j)
    requires AreVars(v0, vars) && Filtered(v0, s.views, vars, rows)
    modifies s`mem, s`owner, s`trail, s`views
    ensures s.Valid() && (!ok ==> NoRow(v0, vars, rows)) && Changed(old(s.views), s.views, vars[i])
    ensures ok ==> IsConstraint(s.views, vars, tries, rows, maxs) && Filtered(v0, s.views, vars, rows)
    ensures PairChecked(old(s.views), s.views[vars[i]], vars, rows, maxs, i, j, ok)
  {
    ghost var v1 := s.views;
    var x, y := vars[i], vars[j];
    assert TrieOf(v1, tries[i, j], rows, maxs, i, j);
    ok := ExcludeUnsupported(s, x, y, tries[i, j]);
    PassedRows(v1, s.views[x], vars, tries, rows, maxs, i, j, ok);
    PassedChecked(v1, s.views[x], vars, tries, rows, maxs, i, j, ok);
    FilterStep(v0, v1, s.views, vars, rows, i, ok);
    if ok {
      ConstraintStep(v1, s.views, vars, tries, rows, maxs, i);
    }
  }

  // Bit vectors for all intervals of three values or more.
  method AllToBits(s: Store, vars: seq<nat>)
    requires s.Valid() && AreVars(s.views, vars)
    modifies s`mem, s`owner, s`trail, s`views
    ensures s.Valid() && OnlyVars(old(s.views), s.views, vars)
    ensures forall k :: 0 <= k < |vars| ==> s.views[vars[k]] == WithBits(old(s.views)[vars[k]])
  {
    var i := 0;
    while i < |vars|
      invariant 0 <= i <= |vars| && s.Valid() && OnlyVars(old(s.views), s.views, vars)
      invariant forall k :: 0 <= k < |vars| ==>
        s.views[vars[k]] in {old(s.views)[vars[k]], WithBits(old(s.views)[vars[k]])}
      invariant forall k :: 0 <= k < i ==> s.views[vars[k]] == WithBits(old(s.views)[vars[k]])
    {
      VarBounds(s, vars[i]);
      assert Shape(s.mem, s.owner, vars[i]);
      if !Bound(s.mem, vars[i]) && Size(s.mem, vars[i]) != 2 && IsIT(s.mem, vars[i]) {
        ItToBv(s, vars[i]);
      }
      i := i + 1;
    }
  }

  // The pairs of columns handled when the loops stand at i, j.
  ghost predicate Handled(n: nat, i: int, j: int, p: int, q: int) {
    Columns(n, p, q) && (p < i || (p == i && q < j))
  }

  // Column i is done up to column j.
  ghost predicate InColumn(v0: map<nat, View>, v: map<nat, View>, vars: seq<nat>, rows: seq<seq<int>>, maxs: seq<nat>,
      i: int, j: int)
    requires IsTable(rows, maxs) && |vars| == |maxs| && AreVars(v0, vars) && AreVars(v, vars) && 0 <= i < |vars|
  {
    && BackedAtStart(v0, v, vars, rows, maxs, i, j)
    && (Distinct(vars) ==>
      && ColumnsDone(v0, v, vars, rows, maxs, i) && ColumnsLeft(v0, v, vars, i + 1)
      && Domain(v[vars[i]]) == BackedUpTo(v0, v, vars, rows, maxs, i, j))
  }

  // What is backed in the columns before i does not depend on the columns from i on.
  lemma BackedFrame(v0: map<nat, View>, v1: map<nat, View>, v2: map<nat, View>, vars: seq<nat>, rows: seq<seq<int>>,
      maxs: seq<nat>, i: int, p: int, q: int)
    requires IsTable(rows, maxs) && |vars| == |maxs| && AreVars(v0, vars) && AreVars(v1, vars) && AreVars(v2, vars)
    requires 0 <= p <= i < |vars| && Distinct(vars) && Changed(v1, v2, vars[i])
    ensures BackedUpTo(v0, v2, vars, rows, maxs, p, q) == BackedUpTo(v0, v1, vars, rows, maxs, p, q)
  {
    forall j | 0 <= j < p ensures v2[vars[j]] == v1[vars[j]] {
    }
    forall k | k in Domain(v0[vars[p]])
      ensures k in BackedUpTo(v0, v2, vars, rows, maxs, p, q) <==> k in BackedUpTo(v0, v1, vars, rows, maxs, p, q) {
    }
  }

  lemma ColumnStep(v0: map<nat, View>, v1: map<nat, View>, v2: map<nat, View>, vars: seq<nat>, rows: seq<seq<int>>,
      maxs: seq<nat>, i: int, j: int, ok: bool)
    requires IsTable(rows, maxs) && |vars| == |maxs| && AreVars(v0, vars) && AreVars(v1, vars) && AreVars(v2, vars)
    requires Columns(|maxs|, i, j) && InColumn(v0, v1, vars, rows, maxs, i, j) && Changed(v1, v2, vars[i])
    requires PairChecked(v1, v2[vars[i]], vars, rows, maxs, i, j, ok)
    requires forall k :: 0 <= k < |vars| ==> Domain(v1[vars[k]]) <= Domain(v0[vars[k]])
    ensures ok ==> InColumn(v0, v2, vars, rows, maxs, i, j + 1)
    ensures !ok && Distinct(vars) ==> Emptied(v0, v2, vars, rows, maxs)
  {
    if ok {
      AtStartStep(v0, v1, v2, vars, rows, maxs, i, j);
    }
    if Distinct(vars) {
      forall p | 0 <= p < i
        ensures BackedUpTo(v0, v2, vars, rows, maxs, p, |vars|) == Domain(v2[vars[p]]) {
        BackedFrame(v0, v1, v2, vars, rows, maxs, i, p, |vars|);
      }
      BackedFrame(v0, v1, v2, vars, rows, maxs, i, i, j);
      NextBacked(v0, v1, v2, vars, rows, maxs, i, j);
      if !ok {
        assert BackedUpTo(v0, v2, vars, rows, maxs, i, |vars|) <= BackedUpTo(v0, v2, vars, rows, maxs, i, j + 1);
      }
    }
  }

  lemma NextBacked(v0: map<nat, View>, v1: map<nat, View>, v2: map<nat, View>, vars: seq<nat>, rows: seq<seq<int>>,
      maxs: seq<nat>, i: int, j: int)
    requires IsTable(rows, maxs) && |vars| == |maxs| && AreVars(v0, vars) && AreVars(v1, vars) && AreVars(v2, vars)
    requires Columns(|maxs|, i, j) && Distinct(vars) && Changed(v1, v2, vars[i]) && ColumnsLeft(v0, v1, vars, i + 1)
    requires Domain(v1[vars[i]]) == BackedUpTo(v0, v2, vars, rows, maxs, i, j)
    ensures BackedUpTo(v0, v2, vars, rows, maxs, i, j + 1) == BackedIn(v1, vars, rows, maxs, i, j)
  {
    assert vars[i] != vars[j];
    assert Domain((if j < i then v2 else v0)[vars[j]]) == Domain(v1[vars[j]]);
    forall k ensures k in BackedUpTo(v0, v2, vars, rows, maxs, i, j + 1) <==>
        k in BackedUpTo(v0, v2, vars, rows, maxs, i, j) && Backed(rows, maxs, i, j, k, Domain(v1[vars[j]])) {
    }
  }

  lemma AtStartStep(v0: map<nat, View>, v1: map<nat, View>, v2: map<nat, View>, vars: seq<nat>, rows: seq<seq<int>>,
      maxs: seq<nat>, i: int, j: int)
    requires IsTable(rows, maxs) && |vars| == |maxs| && AreVars(v0, vars) && AreVars(v1, vars) && AreVars(v2, vars)
    requires Columns(|maxs|, i, j) && BackedAtStart(v0, v1, vars, rows, maxs, i, j) && Changed(v1, v2, vars[i])
    requires PairChecked(v1, v2[vars[i]], vars, rows, maxs, i, j, true)
    requires forall k :: 0 <= k < |vars| ==> Domain(v1[vars[k]]) <= Domain(v0[vars[k]])
    ensures BackedAtStart(v0, v2, vars, rows, maxs, i, j + 1)
  {
    forall p, q, k | Handled(|vars|, i, j + 1, p, q) && k in Domain(v2[vars[p]])
      ensures Backed(rows, maxs, p, q, k, Domain(v0[vars[q]])) {
      assert k in Domain(v1[vars[p]]) by {
        assert vars[p] == vars[i] ==> k in BackedIn(v1, vars, rows, maxs, i, j);
      }
      if p == i && q == j {
        assert k in BackedIn(v1, vars, rows, maxs, i, j);
        assert Domain(v1[vars[j]]) <= Domain(v0[vars[j]]);
      } else {
        assert Handled(|vars|, i, j, p, q);
      }
    }
  }

  // Some column has nothing left that is backed in all columns.
  ghost predicate Emptied(v0: map<nat, View>, v: map<nat, View>, vars: seq<nat>, rows: seq<seq<int>>, maxs: seq<nat>)
    requires IsTable(rows, maxs) && |vars| == |maxs| && AreVars(v0, vars) && AreVars(v, vars)
  {
    exists i :: 0 <= i < |vars| && ColumnsDone(v0, v, vars, rows, maxs, i)
      && BackedUpTo(v0, v, vars, rows, maxs, i, |vars|) == {}
  }

  // On to the next column.
  lemma ColumnEnd(v0: map<nat, View>, v: map<nat, View>, vars: seq<nat>, rows: seq<seq<int>>, maxs: seq<nat>, i: int)
    requires IsTable(rows, maxs) && |vars| == |maxs| && AreVars(v0, vars) && AreVars(v, vars) && 0 <= i < |vars|
    requires InColumn(v0, v, vars, rows, maxs, i, |vars|)
    ensures i + 1 < |vars| ==> InColumn(v0, v, vars, rows, maxs, i + 1, 0)
    ensures BackedAtStart(v0, v, vars, rows, maxs, i + 1, 0)
    ensures Distinct(vars) ==> ColumnsDone(v0, v, vars, rows, maxs, i + 1)
  {
    forall p, q, k | Handled(|vars|, i + 1, 0, p, q) && k in Domain(v[vars[p]])
      ensures Backed(rows, maxs, p, q, k, Domain(v0[vars[q]])) {
      assert Handled(|vars|, i, |vars|, p, q);
    }
    if i + 1 < |vars| {
      assert BackedUpTo(v0, v, vars, rows, maxs, i + 1, 0) == Domain(v0[vars[i + 1]]);
    }
  }

  // Column i itself is no column to check against.
  lemma ColumnSkip(v0: map<nat, View>, v: map<nat, View>, vars: seq<nat>, rows: seq<seq<int>>, maxs: seq<nat>, i: int)
    requires IsTable(rows, maxs) && |vars| == |maxs| && AreVars(v0, vars) && AreVars(v, vars) && 0 <= i < |vars|
    requires InColumn(v0, v, vars, rows, maxs, i, i)
    ensures InColumn(v0, v, vars, rows, maxs, i, i + 1)
  {
    forall p, q, k | Handled(|vars|, i, i + 1, p, q) && k in Domain(v[vars[p]])
      ensures Backed(rows, maxs, p, q, k, Domain(v0[vars[q]])) {
      assert Handled(|vars|, i, i, p, q);
    }
    assert BackedUpTo(v0, v, vars, rows, maxs, i, i + 1) == BackedUpTo(v0, v, vars, rows, maxs, i, i);
  }

  method PruneColumn(s: Store, ghost v0: map<nat, View>, vars: seq<nat>, tries: array2<seq<Slot>>,
      ghost rows: seq<seq<int>>, ghost maxs: seq<nat>, i: int)
    returns (ok: bool)
    requires s.Valid() && IsConstraint(s.views, vars, tries, rows, maxs) && 0 <= i < |vars|
    requires AreVars(v0, vars) && Filtered(v0, s.views, vars, rows) && InColumn(v0, s.views, vars, rows, maxs, i, 0)
    modifies s`mem, s`owner, s`trail, s`views
    ensures s.Valid() && AreVars(s.views, vars) && (!ok ==> NoRow(v0, vars, rows))
    ensures !ok && Distinct(vars) ==> Emptied(v0, s.views, vars, rows, maxs)
    ensures ok ==> IsConstraint(s.views, vars, tries, rows, maxs) && Filtered(v0, s.views, vars, rows)
    ensures ok ==> InColumn(v0, s.views, vars, rows, maxs, i, |vars|)
  {
    var j := 0;
    while j < |vars|
      invariant 0 <= j <= |vars| && s.Valid() && IsConstraint(s.views, vars, tries, rows, maxs)
      invariant Filtered(v0, s.views, vars, rows) && InColumn(v0, s.views, vars, rows, maxs, i, j)
    {
      if i != j {
        ok := PruneTurn(s, v0, vars, tries, rows, maxs, i, j);
        if !ok {
          return;
        }
      } else {
        ColumnSkip(v0, s.views, vars, rows, maxs, i);
      }
      j := j + 1;
    }
    ok := true;
  }

  // One pair of columns, and what it does to the column.
  method PruneTurn(s: Store, ghost v0: map<nat, View>, vars: seq<nat>, tries: array2<seq<Slot>>,
      ghost rows: seq<seq<int>>, ghost maxs: seq<nat>, i: int, j: int)
    returns (ok: bool)
    requires s.Valid() && IsConstraint(s.views, vars, tries, rows, maxs) && Columns(|vars|, i, j)
    requires AreVars(v0, vars) && Filtered(v0, s.views, vars, rows) && InColumn(v0, s.views, vars, rows, maxs, i, j)
    modifies s`mem, s`owner, s`trail, s`views
    ensures s.Valid() && AreVars(s.views, vars) && (!ok ==> NoRow(v0, vars, rows))
    ensures !ok && Distinct(vars) ==> Emptied(v0, s.views, vars, rows, maxs)
    ensures ok ==> IsConstraint(s.views, vars, tries, rows, maxs) && Filtered(v0, s.views, vars, rows)
    ensures ok ==> InColumn(v0, s.views, vars, rows, maxs, i, j + 1)
  {
    ghost var v1 := s.views;
    ok := PrunePair(s, v0, vars, tries, rows, maxs, i, j);
    ColumnStep(v0, v1, s.views, vars, rows, maxs, i, j, ok);
  }

  // b_CFD_REMOVE_AC_UNSUPPORTED: no row is lost, and failure means no row fits. Every value left stands, for each other
  // column, in a row with a value that column had at the start. With no variable repeated exactly those values are left
  // that are backed by what is left in the columns before and by what was there in the columns after.
  method RemoveUnsupported(s: Store, vars: seq<nat>, tries: array2<seq<Slot>>, ghost rows: seq<seq<int>>,
      ghost maxs: seq<nat>)
    returns (ok: bool)
    requires s.Valid() && IsConstraint(s.views, vars, tries, rows, maxs)
    modifies s`mem, s`owner, s`trail, s`views
    ensures s.Valid() && AreVars(s.views, vars) && (!ok ==> NoRow(old(s.views), vars, rows))
    ensures ok ==> IsConstraint(s.views, vars, tries, rows, maxs) && Filtered(old(s.views), s.views, vars, rows)
    ensures ok ==> BackedAtStart(old(s.views), s.views, vars, rows, maxs, |vars|, 0)
    ensures Distinct(vars) ==>
      if ok then ColumnsDone(old(s.views), s.views, vars, rows, maxs, |vars|)
      else Emptied(old(s.views), s.views, vars, rows, maxs)
  {
    ghost var v0 := s.views;
    AllToBits(s, vars);
    var i := 0;
    while i < |vars|
      invariant 0 <= i <= |vars| && s.Valid() && IsConstraint(s.views, vars, tries, rows, maxs)
      invariant Filtered(v0, s.views, vars, rows) && BackedAtStart(v0, s.views, vars, rows, maxs, i, 0)
      invariant i < |vars| ==> InColumn(v0, s.views, vars, rows, maxs, i, 0)
      invariant Distinct(vars) ==> ColumnsDone(v0, s.views, vars, rows, maxs, i)
    {
      ok := PruneColumn(s, v0, vars, tries, rows, maxs, i);
      if !ok {
        return;
      }
      ColumnEnd(v0, s.views, vars, rows, maxs, i);
      i := i + 1;
    }
    ok := true;
  }

  // Every two of the values stand in one row.
  ghost predicate PairsSupported(rows: seq<seq<int>>, maxs: seq<nat>, val: seq<int>)
    requires IsTable(rows, maxs) && |maxs| == |val|
  {
    forall i, j :: Columns(|maxs|, i, j) ==> val[j] in Supports(rows, maxs, i, j, val[i])
  }

  ghost predicate AllBound(v: map<nat, View>, vars: seq<nat>, val: seq<int>)
    requires AreVars(v, vars) && |vars| == |val|
  {
    forall i :: 0 <= i < |vars| ==> Domain(v[vars[i]]) == {val[i]}
  }

  lemma {:induction false} SupportedStays(v0: map<nat, View>, v: map<nat, View>, vars: seq<nat>, rows: seq<seq<int>>,
      maxs: seq<nat>, val: seq<int>, i: int)
    requires IsTable(rows, maxs) && |vars| == |maxs| == |val| && 0 <= i < |vars|
    requires AreVars(v0, vars) && AreVars(v, vars)
    requires AllBound(v0, vars, val) && PairsSupported(rows, maxs, val) && ColumnsDone(v0, v, vars, rows, maxs, i)
    ensures BackedUpTo(v0, v, vars, rows, maxs, i, |vars|) == {val[i]}
    decreases i
  {
    forall j | 0 <= j < |vars| && Columns(|maxs|, i, j)
      ensures Backed(rows, maxs, i, j, val[i], Domain((if j < i then v else v0)[vars[j]])) {
      if j < i {
        SupportedStays(v0, v, vars, rows, maxs, val, j);
      }
      assert val[j] in Supports(rows, maxs, i, j, val[i]) && val[j] in Domain((if j < i then v else v0)[vars[j]]);
    }
    assert val[i] in BackedUpTo(v0, v, vars, rows, maxs, i, |vars|);
  }

  // With all variables bound the pass succeeds exactly when every two of the values stand in one row.
  lemma BoundDecides(v0: map<nat, View>, v: map<nat, View>, vars: seq<nat>, rows: seq<seq<int>>, maxs: seq<nat>,
      val: seq<int>, ok: bool)
    requires IsTable(rows, maxs) && |vars| == |maxs| == |val| && AreVars(v0, vars) && AreVars(v, vars)
    requires AllBound(v0, vars, val)
    requires if ok then ColumnsDone(v0, v, vars, rows, maxs, |vars|) && Nonempty(v, vars)
      else Emptied(v0, v, vars, rows, maxs)
    ensures ok <==> PairsSupported(rows, maxs, val)
  {
    if ok {
      forall i | 0 <= i < |vars| ensures Domain(v[vars[i]]) == {val[i]} {
        var k := SomeMember(Domain(v[vars[i]]));
        assert k in BackedUpTo(v0, v, vars, rows, maxs, i, |vars|);
      }
      forall i, j | Columns(|vars|, i, j) ensures val[j] in Supports(rows, maxs, i, j, val[i]) {
        assert val[i] in BackedUpTo(v0, v, vars, rows, maxs, i, |vars|);
        var b := Overlap(Supports(rows, maxs, i, j, val[i]), Domain((if j < i then v else v0)[vars[j]]));
      }
    } else if PairsSupported(rows, maxs, val) {
      var i :| 0 <= i < |vars| && ColumnsDone(v0, v, vars, rows, maxs, i)
        && BackedUpTo(v0, v, vars, rows, maxs, i, |vars|) == {};
      SupportedStays(v0, v, vars, rows, maxs, val, i);
      assert false;
    }
  }

  ghost predicate Nonempty(v: map<nat, View>, vars: seq<nat>)
    requires AreVars(v, vars)
  {
    forall i :: 0 <= i < |vars| ==> Domain(v[vars[i]]) != {}
  }
}
