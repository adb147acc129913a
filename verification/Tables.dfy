// Table constraints: which values of column j go with value k of column i, and how such sets are kept.
module Tables {
  import opened Trail
  import opened Stores

  // Rows of one width, normalized: column i holds values from 0 to maxs[i].
  ghost predicate IsTable(rows: seq<seq<int>>, maxs: seq<nat>) {
    forall m :: 0 <= m < |rows| ==> IsRow(rows[m], maxs)
  }

  ghost predicate IsRow(row: seq<int>, maxs: seq<nat>) {
    |row| == |maxs| && forall i :: 0 <= i < |maxs| ==> 0 <= row[i] <= maxs[i]
  }

  ghost predicate Columns(n: nat, i: int, j: int) {
    0 <= i < n && 0 <= j < n && i != j
  }

  // Row m gives b to column j and k to column i.
  ghost predicate Pairs(rows: seq<seq<int>>, m: int, i: int, j: int, k: int, b: int) {
    0 <= m < |rows| && 0 <= i < |rows[m]| && 0 <= j < |rows[m]| && rows[m][i] == k && rows[m][j] == b
  }

  ghost predicate Supporting(rows: seq<seq<int>>, i: int, j: int, k: int, b: int) {
    exists m :: Pairs(rows, m, i, j, k, b)
  }

  // S_ijk: the values of column j in the rows with k in column i.
  ghost function Supports(rows: seq<seq<int>>, maxs: seq<nat>, i: int, j: int, k: int): set<int>
    requires IsTable(rows, maxs) && Columns(|maxs|, i, j)
  {
    set b: int | 0 <= b <= maxs[j] && Supporting(rows, i, j, k, b)
  }

  // a supports b exactly when b supports a.
  lemma SupportsMutual(rows: seq<seq<int>>, maxs: seq<nat>, i: int, j: int, a: int, b: int)
    requires IsTable(rows, maxs) && Columns(|maxs|, i, j)
    ensures b in Supports(rows, maxs, i, j, a) <==> a in Supports(rows, maxs, j, i, b)
  {
    if m :| Pairs(rows, m, i, j, a, b) {
      assert Pairs(rows, m, j, i, b, a) && IsRow(rows[m], maxs);
    }
    if m :| Pairs(rows, m, j, i, b, a) {
      assert Pairs(rows, m, i, j, a, b) && IsRow(rows[m], maxs);
    }
  }

  // A row adds one support to one set of each pair of columns.
  lemma SupportsStep(rows: seq<seq<int>>, maxs: seq<nat>, m: nat, i: int, j: int, k: int)
    requires IsTable(rows, maxs) && Columns(|maxs|, i, j) && m < |rows|
    ensures IsTable(rows[..m], maxs) && IsTable(rows[..m + 1], maxs) && IsRow(rows[m], maxs)
    ensures Supports(rows[..m + 1], maxs, i, j, k)
      == Supports(rows[..m], maxs, i, j, k) + (if rows[m][i] == k then {rows[m][j]} else {})
  {
    var r0, r1 := rows[..m], rows[..m + 1];
    assert IsRow(rows[m], maxs) && r1[m] == rows[m];
    forall b
      ensures b in Supports(r1, maxs, i, j, k) <==>
          b in Supports(r0, maxs, i, j, k) || (rows[m][i] == k && b == rows[m][j]) {
      if u :| Pairs(r1, u, i, j, k, b) {
        assert u < m ==> Pairs(r0, u, i, j, k, b);
      }
      if u :| Pairs(r0, u, i, j, k, b) {
        assert Pairs(r1, u, i, j, k, b);
      }
      if rows[m][i] == k && b == rows[m][j] {
        assert Pairs(r1, m, i, j, k, b);
      }
    }
  }

  // ---- Stored support sets ----

  // One entry of a trie: nothing, an integer, or a domain variable that is never bound.
  datatype Slot = Absent | Fixed(n: int) | Dom(d: nat)

  ghost predicate IsSlot(views: map<nat, View>, slot: Slot) {
    slot.Dom? ==> slot.d in views && views[slot.d].cell == Ref
  }

  ghost function SlotSet(views: map<nat, View>, slot: Slot): set<int>
    requires IsSlot(views, slot)
  {
    match slot
    case Absent => {}
    case Fixed(n) => {n}
    case Dom(d) => views[d].described
  }

  ghost predicate IsTrie(views: map<nat, View>, trie: seq<Slot>) {
    forall k :: 0 <= k < |trie| ==> IsSlot(views, trie[k])
  }

  // x is none of the variables in the trie.
  ghost predicate Apart(trie: seq<Slot>, x: nat) {
    forall k :: 0 <= k < |trie| && trie[k].Dom? ==> trie[k].d != x
  }

  // Value k has a support in dy.
  ghost predicate HasSupport(views: map<nat, View>, trie: seq<Slot>, k: int, dy: set<int>)
    requires IsTrie(views, trie)
  {
    0 <= k < |trie| && !(SlotSet(views, trie[k]) !! dy)
  }

  // The values of dx with a support in dy.
  ghost function Supported(views: map<nat, View>, trie: seq<Slot>, dx: set<int>, dy: set<int>): set<int>
    requires IsTrie(views, trie)
  {
    set k | k in dx && HasSupport(views, trie, k, dy)
  }

  // Every value of dx has a support in dy.
  ghost predicate ArcConsistent(views: map<nat, View>, trie: seq<Slot>, dx: set<int>, dy: set<int>)
    requires IsTrie(views, trie)
  {
    forall k :: k in dx ==> HasSupport(views, trie, k, dy)
  }

  // b is stored as a support of a.
  ghost predicate Stored(views: map<nat, View>, trie: seq<Slot>, a: int, b: int)
    requires IsTrie(views, trie)
  {
    0 <= a < |trie| && b in SlotSet(views, trie[a])
  }

  // The two tries of a pair of variables say the same.
  ghost predicate Mates(views: map<nat, View>, txy: seq<Slot>, tyx: seq<Slot>)
    requires IsTrie(views, txy) && IsTrie(views, tyx)
  {
    forall a, b :: Stored(views, txy, a, b) <==> Stored(views, tyx, b, a)
  }
}
