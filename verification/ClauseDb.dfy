// The dynamic clause database of one predicate: an all-clauses chain and hash buckets that index it.
module ClauseDb {
  import opened Chains

  // The chains, with each cell's owner, are well formed and apart.
  ghost predicate Forest(cells: seq<Cell>, hashtable: seq<Bucket>, chains: seq<seq<nat>>, owner: seq<int>) {
    && |hashtable| == |chains| && |owner| == |cells|
    && forall j {:trigger Linked(cells, chains[j], hashtable[j])} :: 0 <= j < |chains| ==>
      Linked(cells, chains[j], hashtable[j]) && Owned(owner, chains[j], j)
  }

  // lists[j] are the clauses on chain j.
  ghost predicate Listing(cells: seq<Cell>, chains: seq<seq<nat>>, lists: seq<seq<nat>>) {
    && |lists| == |chains|
    && forall j {:trigger ClausesOf(cells, chains[j])} :: 0 <= j < |chains| ==> lists[j] == ClausesOf(cells, chains[j])
  }

  ghost predicate IsChain(chains: seq<seq<nat>>, j: int, ch: seq<nat>) {
    0 <= j < |chains| && chains[j] == ch
  }

  lemma ListingStep(cells: seq<Cell>, cells': seq<Cell>, chains: seq<seq<nat>>, lists: seq<seq<nat>>, j: int,
      ch': seq<nat>)
    requires Listing(cells, chains, lists) && 0 <= j < |chains|
    requires forall k :: 0 <= k < |chains| && k != j ==> ClausesOf(cells', chains[k]) == ClausesOf(cells, chains[k])
    ensures Listing(cells', chains[j := ch'], lists[j := ClausesOf(cells', ch')])
  {
  }

  // Changing only cells of chain j (and adding some) changes only chain j.
  lemma ForestStep(cells: seq<Cell>, cells': seq<Cell>, hashtable: seq<Bucket>, chains: seq<seq<nat>>, owner: seq<int>,
      owner': seq<int>, j: int, ch': seq<nat>, b': Bucket)
    requires Forest(cells, hashtable, chains, owner) && 0 <= j < |chains| && |cells| <= |cells'| == |owner'|
    requires forall a :: 0 <= a < |cells| ==> owner'[a] == owner[a] && (owner[a] == j || cells'[a] == cells[a])
    requires Linked(cells', ch', b') && Owned(owner', ch', j)
    ensures Forest(cells', hashtable[j := b'], chains[j := ch'], owner')
    ensures forall k :: 0 <= k < |chains| && k != j ==> ClausesOf(cells', chains[k]) == ClausesOf(cells, chains[k])
  {
    forall k | 0 <= k < |chains| && k != j
      ensures Linked(cells', chains[k], hashtable[k]) && Owned(owner', chains[k], k)
      ensures ClausesOf(cells', chains[k]) == ClausesOf(cells, chains[k]) {
      assert Linked(cells, chains[k], hashtable[k]) && Owned(owner, chains[k], k);
      forall i | 0 <= i < |chains[k]| ensures cells'[chains[k][i]] == cells[chains[k][i]] {
        assert owner[chains[k][i]] == k;
      }
      SameChain(cells, cells', chains[k], hashtable[k]);
    }
  }

  ghost function Empties(n: nat): (l: seq<seq<nat>>)
    ensures |l| == n && forall i :: 0 <= i < n ==> l[i] == []
  {
    seq(n, i => [])
  }

  class Pred {
    var cells: seq<Cell>
    var records: seq<Record>
    // hash codes of the clauses' first arguments, 0 when they do not discriminate
    var heads: seq<nat>
    var hashtable: seq<Bucket>
    var bucketSize: nat
    var clCount: int
    var timeStamp: int
    var refCount: nat
    var retrCount: nat
    ghost var chains: seq<seq<nat>>
    ghost var owner: seq<int>
    // the clauses on each chain, and the cells of the all-clauses chain
    ghost var lists: seq<seq<nat>>
    ghost var allCells: seq<nat>

    ghost predicate Shape()
      reads this
    {
      && bucketSize > 0 && |chains| == |lists| == bucketSize + 1 && Forest(cells, hashtable, chains, owner)
      && Listing(cells, chains, lists) && IsChain(chains, bucketSize, allCells)
    }

    // The database as a list: the all-clauses chain.
    ghost function All(): seq<nat>
      requires |lists| > bucketSize
      reads this
    {
      lists[bucketSize]
    }

    // assertz_clause_record
    method AppendCell(j: nat, c: nat) returns (ptr: nat)
      requires Shape() && j <= bucketSize
      modifies this`cells, this`hashtable, this`chains, this`owner, this`lists, this`allCells
      ensures Shape() && lists == old(lists)[j := old(lists)[j] + [c]]
      ensures allCells == if j == bucketSize then old(allCells) + [ptr] else old(allCells)
    {
      ghost var ch, b := chains[j], hashtable[j];
      assert Linked(cells, ch, b) && Owned(owner, ch, j);
      ptr := |cells|;
      if hashtable[j].list == NIL {
        cells := cells + [Cell(c, NIL, NIL)];
        hashtable := hashtable[j := Bucket(ptr, ptr)];
      } else {
        var last := hashtable[j].tail;
        cells := cells + [Cell(c, NIL, last)];
        cells := cells[last := cells[last].(next := ptr)];
        hashtable := hashtable[j := Bucket(hashtable[j].list, ptr)];
      }
      AppendLinked(old(cells), cells, ch, b, c);
      owner := owner + [j];
      Relist(old(cells), old(hashtable), old(owner), j, ch + [ptr]);
    }

    // asserta_clause_record
    method PrependCell(j: nat, c: nat) returns (ptr: nat)
      requires Shape() && j <= bucketSize
      modifies this`cells, this`hashtable, this`chains, this`owner, this`lists, this`allCells
      ensures Shape() && lists == old(lists)[j := [c] + old(lists)[j]]
      ensures allCells == if j == bucketSize then [ptr] + old(allCells) else old(allCells)
    {
      ghost var ch, b := chains[j], hashtable[j];
      assert Linked(cells, ch, b) && Owned(owner, ch, j);
      ptr := |cells|;
      if hashtable[j].list == NIL {
        cells := cells + [Cell(c, NIL, NIL)];
        hashtable := hashtable[j := Bucket(ptr, ptr)];
      } else {
        var first := hashtable[j].list;
        cells := cells + [Cell(c, first, NIL)];
        cells := cells[first := cells[first].(prev := ptr)];
        hashtable := hashtable[j := Bucket(ptr, hashtable[j].tail)];
      }
      PrependLinked(old(cells), cells, ch, b, c);
      owner := owner + [j];
      Relist(old(cells), old(hashtable), old(owner), j, [ptr] + ch);
    }

    // After chain j alone has changed to ch.
    ghost method Relist(cells0: seq<Cell>, hashtable0: seq<Bucket>, owner0: seq<int>, j: nat, ch: seq<nat>)
      requires bucketSize > 0 && |chains| == |lists| == bucketSize + 1 && j <= bucketSize
      requires IsChain(chains, bucketSize, allCells)
      requires Forest(cells0, hashtable0, chains, owner0) && Listing(cells0, chains, lists)
      requires |cells0| <= |cells| == |owner| && j < |hashtable| == |hashtable0|
      requires hashtable == hashtable0[j := hashtable[j]]
      requires forall a :: 0 <= a < |cells0| ==> owner[a] == owner0[a] && (owner0[a] == j || cells[a] == cells0[a])
      requires Linked(cells, ch, hashtable[j]) && Owned(owner, ch, j)
      modifies this`chains, this`lists, this`allCells
      ensures Shape() && lists == old(lists)[j := ClausesOf(cells, ch)]
      ensures allCells == if j == bucketSize then ch else old(allCells)
    {
      ForestStep(cells0, cells, hashtable0, chains, owner0, owner, j, ch, hashtable[j]);
      ListingStep(cells0, cells, chains, lists, j, ch);
      chains := chains[j := ch];
      lists := lists[j := ClausesOf(cells, ch)];
      allCells := chains[bucketSize];
    }

    // disconnect_cell_of_removed_clause: p and n are the neighbours, NIL at the ends.
    method Unlink(j: nat, cell: nat, ghost p: int, ghost n: int)
      requires j < |hashtable| && cell < |cells| && cells[cell].prev == p && cells[cell].next == n
      requires Neighbours(|cells|, cell, p, n)
      requires (p == NIL <==> hashtable[j].list == cell) && (n == NIL <==> hashtable[j].tail == cell)
      modifies this`cells, this`hashtable
      ensures JoinedAround(old(cells), cells, cell, p, n)
      ensures var b := old(hashtable[j]);
        hashtable == old(hashtable)[j := Bucket(if p == NIL then n else b.list, if n == NIL then p else b.tail)]
      ensures cells[cell].prev == NIL
    {
      if hashtable[j].list == cell {
        var list := cells[cell].next;
        hashtable := hashtable[j := Bucket(list, hashtable[j].tail)];
        if list == NIL {
          hashtable := hashtable[j := Bucket(list, NIL)];
        } else {
          cells := cells[list := cells[list].(prev := NIL)];
        }
      } else if hashtable[j].tail == cell {
        UnlinkLast(j, cell);
      } else {
        UnlinkInner(cell);
      }
    }

    // last in the chain
    method UnlinkLast(j: nat, cell: nat)
      requires j < |hashtable| && cell < |cells| && -1 <= cells[cell].prev < |cells|
      modifies this`cells, this`hashtable
      ensures var ptr, b, c1 :=
          old(cells)[cell].prev, old(hashtable[j]), old(cells)[cell := old(cells)[cell].(prev := NIL)];
        && cells == (if ptr != NIL then c1[ptr := c1[ptr].(next := NIL)] else c1)
        && hashtable == old(hashtable)[j := Bucket(if ptr != NIL then b.list else NIL, ptr)]
    {
      var ptr := cells[cell].prev;
      cells := cells[cell := cells[cell].(prev := NIL)];
      hashtable := hashtable[j := Bucket(hashtable[j].list, ptr)];
      if ptr != NIL {
        cells := cells[ptr := cells[ptr].(next := NIL)];
      } else {
        hashtable := hashtable[j := Bucket(NIL, ptr)];
      }
    }

    // in between; a cell without a previous one has been removed already
    method UnlinkInner(cell: nat)
      requires cell < |cells| && Neighbours(|cells|, cell, cells[cell].prev, cells[cell].next)
      requires cells[cell].prev != NIL ==> cells[cell].next != NIL
      modifies this`cells
      ensures var c0 := old(cells);
        if c0[cell].prev == NIL then cells == c0 else JoinedAround(c0, cells, cell, c0[cell].prev, c0[cell].next)
      ensures cell < |cells| && cells[cell].prev == NIL
    {
      var prev := cells[cell].prev;
      if prev == NIL {
        return;
      }
      cells := cells[prev := cells[prev].(next := cells[cell].next)];
      var next := cells[cell].next;
      cells := cells[next := cells[next].(prev := prev)];
      cells := cells[cell := cells[cell].(prev := NIL)];
    }

    // The same for the i-th cell of chain j.
    method Disconnect(j: nat, cell: nat, ghost i: int)
      requires Shape() && j <= bucketSize && 0 <= i < |chains[j]| && chains[j][i] == cell
      modifies this`cells, this`hashtable, this`chains, this`lists, this`allCells
      ensures Shape() && i < |old(lists)[j]| && lists == old(lists)[j := Without(old(lists)[j], i)]
      ensures allCells == if j == bucketSize then Without(old(chains)[j], i) else old(allCells)
      ensures cell < |cells| && cells[cell].prev == NIL
    {
      ghost var p, n := Before(chains[j], i), After(chains[j], i);
      ForestNeighbours(cells, hashtable, chains, owner, j, i);
      Unlink(j, cell, p, n);
      assert Linked(old(cells), chains[j], old(hashtable)[j]) && lists[j] == ClausesOf(old(cells), chains[j]);
      DisconnectChain(old(cells), cells, chains[j], old(hashtable)[j], hashtable[j], owner, j, i);
      Relist(old(cells), old(hashtable), owner, j, Without(chains[j], i));
    }

    // ---- The database ----

    // Bucket j is the sub-chain of the clauses that belong there, in the order of the all-clauses
    // chain; every clause knows its cell.
    ghost predicate Indexed()
      reads this
    {
      Shape() && InStep(records, heads, lists, bucketSize, allCells)
    }

    // Moreover clCount counts the clauses not stamped dead, and no stamp lies in the future.
    ghost predicate Valid()
      reads this
    {
      Indexed() && clCount == LiveCount(records, All()) && Stamped(records, timeStamp)
    }

    // The clauses seen by a call made at time t, in order.
    ghost function View(t: int): seq<nat>
      requires |lists| > bucketSize
      reads this
    {
      Visible(records, All(), t)
    }

    constructor (size: nat)
      requires size > 0
      ensures Valid() && All() == [] && bucketSize == size && clCount == 0
    {
      cells, records, heads := [], [], [];
      hashtable := seq(size + 1, i => Bucket(NIL, NIL));
      bucketSize, clCount, timeStamp, refCount, retrCount := size, 0, 0, 0, 0;
      chains := Empties(size + 1);
      owner := [];
      lists := Empties(size + 1);
      allCells := [];
      new;
      EmptyIndexed();
    }

    // A table of empty chains.
    lemma EmptyIndexed()
      requires cells == [] && records == [] && heads == [] && owner == [] && allCells == [] && bucketSize > 0
      requires clCount == 0 && timeStamp == 0
      requires hashtable == seq(bucketSize + 1, i => Bucket(NIL, NIL))
      requires chains == Empties(bucketSize + 1) && lists == Empties(bucketSize + 1)
      ensures Valid() && All() == []
    {
      assert lists[bucketSize] == [] && chains[bucketSize] == [];
      assert All() == [];
      forall j | 0 <= j < |chains|
        ensures Linked(cells, chains[j], hashtable[j]) && Owned(owner, chains[j], j)
        ensures lists[j] == ClausesOf(cells, chains[j]) {
        assert chains[j] == [] && lists[j] == [];
      }
      forall j | 0 <= j < bucketSize ensures lists[j] == Sub(heads, All(), j, bucketSize) {
        assert lists[j] == [];
      }
      assert LiveCount(records, All()) == 0;
    }

    // The walk along chain j for the cell of c.
    method FindCell(j: nat, c: nat) returns (list: int, ghost i: int)
      requires Shape() && j <= bucketSize
      ensures list == NIL ==> c !in lists[j]
      ensures list != NIL ==> 0 <= i < |chains[j]| && list == chains[j][i] && i < |lists[j]| && lists[j][i] == c
    {
      assert Linked(cells, chains[j], hashtable[j]) && lists[j] == ClausesOf(cells, chains[j]);
      list, i := Walk(hashtable[j].list, c, chains[j], hashtable[j]);
    }

    method Walk(first: int, c: nat, ghost ch: seq<nat>, ghost b: Bucket) returns (list: int, ghost i: int)
      requires Linked(cells, ch, b) && first == b.list
      ensures list == NIL ==> c !in ClausesOf(cells, ch)
      ensures list != NIL ==> 0 <= i < |ch| && list == ch[i] && ClausesOf(cells, ch)[i] == c
    {
      list, i := first, 0;
      while list != NIL
        invariant 0 <= i <= |ch| && list == (if i < |ch| then ch[i] else NIL)
        invariant forall k :: 0 <= k < i ==> ClauseAt(cells, ch[k]) != c
        decreases |ch| - i
      {
        if cells[list].clause == c {
          return;
        }
        list := cells[list].next;
        i := i + 1;
      }
    }

    // free_cell_of_removed_in_bucket
    method FreeCell(j: nat, c: nat)
      requires Shape() && j < bucketSize && NoRepeats(lists[j])
      modifies this`cells, this`hashtable, this`chains, this`lists, this`allCells
      ensures Shape() && lists == old(lists)[j := Minus(old(lists)[j], c)] && allCells == old(allCells)
    {
      var list;
      ghost var i;
      list, i := FindCell(j, c);
      if list == NIL {
        MinusAbsent(lists[j], c);
      } else {
        MinusOnly(lists[j], i);
        Disconnect(j, list, i);
      }
    }

    // The cells of c in all buckets.
    method FreeEverywhere(c: nat)
      requires Shape() && forall k :: 0 <= k < bucketSize ==> NoRepeats(lists[k])
      modifies this`cells, this`hashtable, this`chains, this`lists, this`allCells
      ensures Shape() && All() == old(All()) && allCells == old(allCells)
      ensures forall k :: 0 <= k < bucketSize ==> lists[k] == Minus(old(lists)[k], c)
    {
      var i := 0;
      while i < bucketSize
        invariant 0 <= i <= bucketSize && Shape() && All() == old(All()) && allCells == old(allCells)
        invariant forall k :: 0 <= k < i ==> lists[k] == Minus(old(lists)[k], c)
        invariant forall k :: i <= k < bucketSize ==> lists[k] == old(lists)[k]
      {
        FreeCell(i, c);
        i := i + 1;
      }
    }

    // The cells of c in all buckets, or in the one bucket it hashes to.
    method FreeCells(c: nat)
      requires Shape() && c < |heads| && forall k :: 0 <= k < bucketSize ==> NoRepeats(lists[k])
      requires forall k :: 0 <= k < bucketSize && c in lists[k] ==> Belongs(heads[c], k, bucketSize)
      modifies this`cells, this`hashtable, this`chains, this`lists, this`allCells
      ensures Shape() && All() == old(All()) && allCells == old(allCells)
      ensures forall k :: 0 <= k < bucketSize ==> lists[k] == Minus(old(lists)[k], c)
    {
      if heads[c] == 0 {
        FreeEverywhere(c);
      } else {
        var j := heads[c] % bucketSize;
        forall k | 0 <= k < bucketSize && k != j ensures Minus(lists[k], c) == lists[k] {
          MinusAbsent(lists[k], c);
        }
        FreeCell(j, c);
      }
    }

    lemma AllDistinct()
      requires Indexed()
      ensures NoRepeats(All()) && |allCells| == |All()| && allCells == chains[bucketSize]
    {
      assert Linked(cells, chains[bucketSize], hashtable[bucketSize]);
      RefsDistinct(records, All(), allCells);
    }

    lemma BucketFacts(c: nat)
      requires Indexed() && c < |heads|
      ensures forall k :: 0 <= k < bucketSize ==> NoRepeats(lists[k])
      ensures forall k :: 0 <= k < bucketSize && c in lists[k] ==> Belongs(heads[c], k, bucketSize)
    {
      AllDistinct();
      forall k | 0 <= k < bucketSize
        ensures NoRepeats(lists[k]) && (c in lists[k] ==> Belongs(heads[c], k, bucketSize)) {
        SubNoRepeats(heads, All(), k, bucketSize);
        SubMembers(heads, All(), k, bucketSize, c);
      }
    }

    // locate_and_free_clause_record: off the all-clauses chain and off its buckets.
    method LocateAndFree(c: nat, ghost i: int)
      requires Indexed() && 0 <= i < |All()| && All()[i] == c
      modifies this`cells, this`hashtable, this`chains, this`lists, this`allCells
      ensures Indexed() && All() == Without(old(All()), i) && All() == Minus(old(All()), c)
    {
      AllDistinct();
      BucketFacts(c);
      var cell := records[c].ref;
      Disconnect(bucketSize, cell, i);
      FreeCells(c);
      RemoveInStep(records, heads, old(lists), lists, bucketSize, old(allCells), i);
    }

    // b_REMOVE_CLAUSE_c: a clause in use is only stamped dead, and calls made before still see it.
    method RemoveClause(c: nat)
      requires Valid() && c < |records| && (Lives(records, c) ==> c in All()) && timeStamp + 1 < ALIVE
      modifies this`cells, this`hashtable, this`chains, this`lists, this`allCells, this`records, this`clCount,
          this`timeStamp
      ensures Valid()
      ensures |records| == |old(records)| && forall d :: 0 <= d < |records| && d != c ==> records[d] == old(records)[d]
      ensures !old(Lives(records, c)) ==> All() == old(All()) && records == old(records) && clCount == old(clCount)
      ensures old(Lives(records, c)) ==> clCount == old(clCount) - 1
      ensures old(Lives(records, c)) && Shared() ==> All() == old(All()) && timeStamp == old(timeStamp) + 1
      ensures old(Lives(records, c)) && Shared() ==> !Lives(records, c) && cells == old(cells)
      ensures old(Lives(records, c)) && Shared() ==> forall t :: t < ALIVE ==>
        View(t) == (if t < timeStamp then old(View(t)) else Minus(old(View(t)), c))
      ensures !(old(Lives(records, c)) && Shared()) ==> timeStamp == old(timeStamp)
      ensures old(Lives(records, c)) && !Shared() ==> All() == Minus(old(All()), c) && records == old(records)
      ensures old(Lives(records, c)) && !Shared() ==> forall t :: View(t) == Minus(old(View(t)), c)
    {
      if records[c].death != ALIVE {
        return;
      }
      ghost var i :| 0 <= i < |All()| && All()[i] == c;
      clCount := clCount - 1;
      if refCount != 0 || retrCount > 1 {
        timeStamp := timeStamp + 1;
        Stamp(c, i);
      } else {
        TakeOut(c, i);
      }
    }

    // Somebody else than one retracting call is reading the clauses.
    ghost predicate Shared()
      reads this
    {
      refCount != 0 || retrCount > 1
    }

    ghost predicate InUse()
      reads this
    {
      refCount != 0 || retrCount != 0
    }

    method TakeOut(c: nat, ghost i: int)
      requires Indexed() && 0 <= i < |All()| && All()[i] == c && Lives(records, c)
      modifies this`cells, this`hashtable, this`chains, this`lists, this`allCells
      ensures Indexed() && All() == Minus(old(All()), c)
      ensures LiveCount(records, All()) == old(LiveCount(records, All())) - 1
      ensures forall t :: View(t) == Minus(old(View(t)), c)
    {
      LiveWithout(records, All(), i);
      ghost var all := All();
      LocateAndFree(c, i);
      forall t ensures View(t) == Minus(old(View(t)), c) {
        VisibleMinus(records, all, c, t);
      }
    }

    method Stamp(c: nat, ghost i: int)
      requires Indexed() && 0 <= i < |All()| && All()[i] == c && Lives(records, c) && Stamped(records, timeStamp)
      modifies this`records
      ensures Stamped(records, timeStamp)
      ensures forall t :: t < ALIVE ==> View(t) == (if t < timeStamp then old(View(t)) else Minus(old(View(t)), c))
      ensures Indexed() && records == old(records)[c := old(records)[c].(death := timeStamp)]
      ensures LiveCount(records, All()) == old(LiveCount(records, All())) - 1
    {
      AllDistinct();
      LiveStamp(records, All(), i, timeStamp);
      forall t | t < ALIVE
        ensures Visible(records[c := records[c].(death := timeStamp)], All(), t) ==
          (if t < timeStamp then View(t) else Minus(View(t), c)) {
        VisibleStamp(records, All(), c, timeStamp, t);
      }
      records := records[c := records[c].(death := timeStamp)];
    }

    // ---- Adding clauses ----

    // The buckets a new clause goes to: all of them, or the one its head hashes to.
    method AppendBuckets(c: nat, h: nat)
      requires Shape()
      modifies this`cells, this`hashtable, this`chains, this`owner, this`lists, this`allCells
      ensures Shape() && All() == old(All()) && allCells == old(allCells)
      ensures forall k :: 0 <= k < bucketSize ==>
        lists[k] == old(lists)[k] + if Belongs(h, k, bucketSize) then [c] else []
    {
      if h == 0 {
        var i := 0;
        while i < bucketSize
          invariant 0 <= i <= bucketSize && Shape() && All() == old(All()) && allCells == old(allCells)
          invariant forall k :: 0 <= k < i ==> lists[k] == old(lists)[k] + [c]
          invariant forall k :: i <= k < bucketSize ==> lists[k] == old(lists)[k]
        {
          var ptr := AppendCell(i, c);
          i := i + 1;
        }
      } else {
        var ptr := AppendCell(h % bucketSize, c);
      }
    }

    method PrependBuckets(c: nat, h: nat)
      requires Shape()
      modifies this`cells, this`hashtable, this`chains, this`owner, this`lists, this`allCells
      ensures Shape() && All() == old(All()) && allCells == old(allCells)
      ensures forall k :: 0 <= k < bucketSize ==>
        lists[k] == (if Belongs(h, k, bucketSize) then [c] else []) + old(lists)[k]
    {
      if h == 0 {
        var i := 0;
        while i < bucketSize
          invariant 0 <= i <= bucketSize && Shape() && All() == old(All()) && allCells == old(allCells)
          invariant forall k :: 0 <= k < i ==> lists[k] == [c] + old(lists)[k]
          invariant forall k :: i <= k < bucketSize ==> lists[k] == old(lists)[k]
        {
          var ptr := PrependCell(i, c);
          i := i + 1;
        }
      } else {
        var ptr := PrependCell(h % bucketSize, c);
      }
    }

    // The cells of a new clause; ptr is the one on the all-clauses chain.
    method AppendEverywhere(c: nat, h: nat) returns (ptr: nat)
      requires Shape()
      modifies this`cells, this`hashtable, this`chains, this`owner, this`lists, this`allCells
      ensures Shape() && lists[bucketSize] == old(lists)[bucketSize] + [c] && allCells == old(allCells) + [ptr]
      ensures forall k :: 0 <= k < bucketSize ==>
        lists[k] == old(lists)[k] + if Belongs(h, k, bucketSize) then [c] else []
    {
      AppendBuckets(c, h);
      ptr := AppendCell(bucketSize, c);
    }

    method PrependEverywhere(c: nat, h: nat) returns (ptr: nat)
      requires Shape()
      modifies this`cells, this`hashtable, this`chains, this`owner, this`lists, this`allCells
      ensures Shape() && lists[bucketSize] == [c] + old(lists)[bucketSize] && allCells == [ptr] + old(allCells)
      ensures forall k :: 0 <= k < bucketSize ==>
        lists[k] == (if Belongs(h, k, bucketSize) then [c] else []) + old(lists)[k]
    {
      PrependBuckets(c, h);
      ptr := PrependCell(bucketSize, c);
    }

    // create_clause_record, with the count already raised
    method CreateRecord(h: nat) returns (c: nat)
      modifies this`records, this`heads, this`clCount
      ensures c == |old(records)| && records == old(records) + [Record(NIL, timeStamp, ALIVE)]
      ensures heads == old(heads) + [h] && clCount == old(clCount) + 1
    {
      clCount := clCount + 1;
      c := |records|;
      records := records + [Record(NIL, timeStamp, ALIVE)];
      heads := heads + [h];
    }

    // assertz_interpreted_pred: h is the hash of the head's first argument.
    method AssertzInterpreted(h: nat) returns (c: nat)
      requires Valid()
      modifies this`cells, this`hashtable, this`chains, this`owner, this`lists, this`allCells, this`records, this`heads,
          this`clCount
      ensures Valid() && c == |old(records)| && All() == old(All()) + [c] && clCount == old(clCount) + 1
      ensures heads == old(heads) + [h] && Lives(records, c) && |records| == |old(records)| + 1
      ensures records[..c] == old(records)
      ensures forall t :: t < ALIVE ==> View(t) == old(View(t)) + (if t < timeStamp then [] else [c])
      ensures c < |records| && records[c].ref >= 0 && allCells == old(allCells) + [records[c].ref]
    {
      c := CreateRecord(h);
      var ptr := AppendEverywhere(c, h);
      records := records[c := records[c].(ref := ptr)];
      ghost var r := Record(ptr, timeStamp, ALIVE);
      assert records == old(records) + [r];
      AppendInStep(old(records), old(heads), old(lists), lists, bucketSize, old(allCells), h, r);
      forall t | t < ALIVE ensures View(t) == old(View(t)) + (if t < timeStamp then [] else [c]) {
        VisibleGrow(old(records), r, old(All()), timeStamp, t);
      }
    }

    // asserta_interpreted_pred
    method AssertaInterpreted(h: nat) returns (c: nat)
      requires Valid()
      modifies this`cells, this`hashtable, this`chains, this`owner, this`lists, this`allCells, this`records, this`heads,
          this`clCount
      ensures Valid() && c == |old(records)| && All() == [c] + old(All()) && clCount == old(clCount) + 1
      ensures heads == old(heads) + [h] && Lives(records, c) && |records| == |old(records)| + 1
      ensures records[..c] == old(records)
      ensures forall t :: t < ALIVE ==> View(t) == (if t < timeStamp then [] else [c]) + old(View(t))
      ensures c < |records| && records[c].ref >= 0 && allCells == [records[c].ref] + old(allCells)
    {
      c := CreateRecord(h);
      var ptr := PrependEverywhere(c, h);
      records := records[c := records[c].(ref := ptr)];
      ghost var r := Record(ptr, timeStamp, ALIVE);
      assert records == old(records) + [r];
      PrependInStep(old(records), old(heads), old(lists), lists, bucketSize, old(allCells), h, r);
      forall t | t < ALIVE ensures View(t) == (if t < timeStamp then [] else [c]) + old(View(t)) {
        VisibleGrow(old(records), r, old(All()), timeStamp, t);
      }
    }

    // ---- Keyed access ----

    // b_GET_CLAUSES_cfff: the chain to try for a goal whose first argument hashes to key, and the time of the call. The
    // chain leaves out no clause that may match and keeps their order, and so does what the call sees of it.
    method GetClauses(key: nat) returns (list: int, callTime: int, ghost i: nat)
      requires Indexed()
      ensures i <= bucketSize && Linked(cells, chains[i], hashtable[i]) && list == hashtable[i].list
      ensures ClausesOf(cells, chains[i]) == lists[i] && callTime == timeStamp
      ensures Matching(heads, lists[i], key) == Matching(heads, All(), key)
      ensures lists[i] == if key == 0 then All() else Sub(heads, All(), key % bucketSize, bucketSize)
    {
      var j := if key == 0 then bucketSize else key % bucketSize;
      i := j;
      list, callTime := hashtable[j].list, timeStamp;
      assert Linked(cells, chains[j], hashtable[j]) && lists[j] == ClausesOf(cells, chains[j]);
      if key != 0 {
        BucketSuffices(heads, All(), key, bucketSize);
      }
    }

    // filter_clauses: from the p-th cell of chain i on, the next one whose clause the call sees and whose head may
    // match.
    method FilterClauses(list: int, key: nat, callTime: int, ghost i: nat, ghost p: int)
      returns (rest: int, ghost q: int)
      requires Indexed() && i <= bucketSize && 0 <= p <= |chains[i]| && list == CellFrom(chains[i], p)
      ensures p <= q <= |chains[i]| && rest == CellFrom(chains[i], q) && |lists[i]| == |chains[i]|
      ensures NoneAnswers(records, heads, lists[i][p..q], key, callTime)
      ensures q < |chains[i]| ==> Answers(records, heads, lists[i][q], key, callTime)
    {
      ghost var ch, s := chains[i], lists[i];
      ChainListed(i);
      rest, q := list, p;
      while rest != NIL
        invariant p <= q <= |ch| && rest == CellFrom(ch, q) && NoneAnswers(records, heads, s[p..q], key, callTime)
        decreases |ch| - q
      {
        var yes, next := CellAnswers(rest, key, callTime, i, q);
        if yes {
          return;
        }
        assert s[p..q + 1] == s[p..q] + [s[q]];
        rest, q := next, q + 1;
      }
    }

    lemma ChainListed(i: nat)
      requires Shape() && i <= bucketSize
      ensures |lists[i]| == |chains[i]|
    {
      assert lists[i] == ClausesOf(cells, chains[i]);
    }

    // The test on one cell, and the cell after it.
    method CellAnswers(cell: nat, key: nat, callTime: int, ghost i: nat, ghost q: int) returns (yes: bool, next: int)
      requires Indexed() && i <= bucketSize && 0 <= q < |chains[i]| && cell == chains[i][q]
      ensures |lists[i]| == |chains[i]| && (yes <==> Answers(records, heads, lists[i][q], key, callTime))
      ensures next == CellFrom(chains[i], q + 1)
    {
      assert Linked(cells, chains[i], hashtable[i]) && lists[i] == ClausesOf(cells, chains[i]);
      var c := cells[cell].clause;
      KnownClause(i, q);
      yes := !(records[c].birth > callTime || callTime >= records[c].death);
      if yes && key != 0 {
        yes := heads[c] == 0 || key == heads[c];
      }
      next := cells[cell].next;
    }

    // Every clause on a chain has a record.
    lemma KnownClause(i: nat, q: int)
      requires Indexed() && i <= bucketSize && 0 <= q < |lists[i]|
      ensures lists[i][q] < |records| == |heads|
    {
      var c := lists[i][q];
      assert c in lists[i];
      if i < bucketSize {
        SubMembers(heads, All(), i, bucketSize, c);
      }
    }

    // ---- Rehashing ----

    // The new table: empty buckets, and the all-clauses chain as it was.
    method NewTable(newSize: nat)
      requires Shape() && newSize >= bucketSize
      modifies this`hashtable, this`bucketSize, this`chains, this`owner, this`lists
      ensures Shape() && bucketSize == newSize && allCells == old(allCells) && All() == old(All())
      ensures forall k :: 0 <= k < newSize ==> lists[k] == []
    {
      var oldSize := bucketSize;
      var table := [];
      var i := 0;
      while i < oldSize
        invariant 0 <= i <= oldSize && |table| == i && forall k :: 0 <= k < i ==> table[k] == Bucket(NIL, NIL)
      {
        table := table + [Bucket(NIL, NIL)];
        i := i + 1;
      }
      i := oldSize;
      while i < newSize
        invariant oldSize <= i <= newSize && |table| == i && forall k :: 0 <= k < i ==> table[k] == Bucket(NIL, NIL)
      {
        table := table + [Bucket(NIL, NIL)];
        i := i + 1;
      }
      table := table + [hashtable[oldSize]];
      TableForest(table, newSize);
      ghost var size := newSize;
      owner := Reowned(owner, oldSize, size);
      hashtable, bucketSize := table, newSize;
      chains, lists := Empties(size) + [allCells], Empties(size) + [lists[oldSize]];
    }

    lemma TableForest(table: seq<Bucket>, newSize: nat)
      requires Shape() && |table| == newSize + 1 && table[newSize] == hashtable[bucketSize]
      requires forall k :: 0 <= k < newSize ==> table[k] == Bucket(NIL, NIL)
      ensures Forest(cells, table, Empties(newSize) + [allCells], Reowned(owner, bucketSize, newSize))
      ensures Listing(cells, Empties(newSize) + [allCells], Empties(newSize) + [All()])
    {
      var ch, o, l := Empties(newSize) + [allCells], Reowned(owner, bucketSize, newSize), Empties(newSize) + [All()];
      assert Linked(cells, chains[bucketSize], hashtable[bucketSize]);
      assert lists[bucketSize] == ClausesOf(cells, chains[bucketSize]);
      forall j | 0 <= j < |ch|
        ensures Linked(cells, ch[j], table[j]) && Owned(o, ch[j], j) && l[j] == ClausesOf(cells, ch[j]) {
        if j < newSize {
          assert ch[j] == [] && l[j] == [];
        }
      }
    }

    // The walk over the all-clauses chain that puts every clause into its buckets again; dead ones too.
    method Reassert()
      requires Shape() && RefsOwn(records, All(), allCells) && |heads| == |records|
      requires forall k :: 0 <= k < bucketSize ==> lists[k] == []
      modifies this`cells, this`hashtable, this`chains, this`owner, this`lists, this`allCells
      ensures Indexed() && All() == old(All()) && allCells == old(allCells)
    {
      ghost var all, ch := All(), allCells;
      assert Linked(cells, chains[bucketSize], hashtable[bucketSize]);
      var list := hashtable[bucketSize].list;
      ghost var p := 0;
      assert all[..0] == [];
      while list != NIL
        invariant 0 <= p <= |ch| == |all| && list == (if p < |ch| then ch[p] else NIL)
        invariant Shape() && All() == all && allCells == ch
        invariant forall k :: 0 <= k < bucketSize ==> lists[k] == Sub(heads, all[..p], k, bucketSize)
        decreases |ch| - p
      {
        list := ReassertOne(list, p);
        p := p + 1;
      }
      assert all[..p] == all;
    }

    method ReassertOne(cell: nat, ghost p: nat) returns (next: int)
      requires Shape() && RefsOwn(records, All(), allCells) && |heads| == |records| && p < |allCells|
      requires cell == allCells[p]
      requires forall k :: 0 <= k < bucketSize ==> lists[k] == Sub(heads, All()[..p], k, bucketSize)
      modifies this`cells, this`hashtable, this`chains, this`owner, this`lists, this`allCells
      ensures Shape() && All() == old(All()) && allCells == old(allCells) && next == After(allCells, p)
      ensures forall k :: 0 <= k < bucketSize ==> lists[k] == Sub(heads, All()[..p + 1], k, bucketSize)
    {
      var c;
      next, c := ReadCell(cell, p);
      SubSnoc(heads, All(), p, bucketSize);
      AppendBuckets(c, heads[c]);
    }

    method ReadCell(cell: nat, ghost p: nat) returns (next: int, c: nat)
      requires Shape() && p < |allCells| && cell == allCells[p]
      ensures next == After(allCells, p) && |All()| == |allCells| && c == All()[p]
    {
      assert Linked(cells, chains[bucketSize], hashtable[bucketSize]);
      assert lists[bucketSize] == ClausesOf(cells, chains[bucketSize]);
      next, c := cells[cell].next, cells[cell].clause;
      assert ClauseAt(cells, cell) == c;
    }

    // rehash_interpreted_pred: newSize is what bp_hsize makes of twice the old size.
    method Rehash(newSize: nat)
      requires Valid() && newSize >= bucketSize
      modifies this`cells, this`hashtable, this`bucketSize, this`chains, this`owner, this`lists, this`allCells
      ensures Valid() && bucketSize == newSize && All() == old(All()) && allCells == old(allCells)
    {
      NewTable(newSize);
      Reassert();
    }

    // b_ASSERTZ_cc on an existing predicate. When it is in use, calls made before do not see the new clause.
    method Assertz(h: nat, newSize: nat) returns (c: nat)
      requires Valid() && newSize >= bucketSize && timeStamp + 1 < ALIVE
      modifies this
      ensures Valid() && c == |old(records)| && All() == old(All()) + [c] && clCount == old(clCount) + 1
      ensures refCount == old(refCount) && retrCount == old(retrCount)
      ensures timeStamp == old(timeStamp) + if old(InUse()) then 1 else 0
      ensures forall t :: t < ALIVE ==> View(t) == old(View(t)) + (if t < timeStamp then [] else [c])
      ensures c < |records| && records[c].ref >= 0 && allCells == old(allCells) + [records[c].ref]
      ensures old(InUse()) ==> forall t :: t <= old(timeStamp) ==> View(t) == old(View(t))
      ensures heads == old(heads) + [h] && Lives(records, c) && records[..c] == old(records)
      ensures bucketSize == if old(clCount) > old(bucketSize) then newSize else old(bucketSize)
    {
      if clCount > bucketSize {
        Rehash(newSize);
      }
      if refCount != 0 || retrCount != 0 {
        timeStamp := timeStamp + 1;
      }
      c := AssertzInterpreted(h);
    }

    // b_ASSERTA_cc on an existing predicate. When it is in use, calls made before do not see the new clause.
    method Asserta(h: nat, newSize: nat) returns (c: nat)
      requires Valid() && newSize >= bucketSize && timeStamp + 1 < ALIVE
      modifies this
      ensures Valid() && c == |old(records)| && All() == [c] + old(All()) && clCount == old(clCount) + 1
      ensures refCount == old(refCount) && retrCount == old(retrCount)
      ensures timeStamp == old(timeStamp) + if old(InUse()) then 1 else 0
      ensures forall t :: t < ALIVE ==> View(t) == (if t < timeStamp then [] else [c]) + old(View(t))
      ensures c < |records| && records[c].ref >= 0 && allCells == [records[c].ref] + old(allCells)
      ensures old(InUse()) ==> forall t :: t <= old(timeStamp) ==> View(t) == old(View(t))
      ensures heads == old(heads) + [h] && Lives(records, c) && records[..c] == old(records)
      ensures bucketSize == if old(clCount) > old(bucketSize) then newSize else old(bucketSize)
    {
      if clCount > bucketSize {
        Rehash(newSize);
      }
      if refCount != 0 || retrCount != 0 {
        timeStamp := timeStamp + 1;
      }
      c := AssertaInterpreted(h);
    }
  }

  // Cells of the all-clauses chain under the new table; the others are free.
  ghost function Reowned(owner: seq<int>, oldSize: int, newSize: int): (o: seq<int>)
    ensures |o| == |owner|
  {
    seq(|owner|, a requires 0 <= a < |owner| => if owner[a] == oldSize then newSize else -1)
  }

  ghost predicate Neighbours(size: nat, cell: nat, p: int, n: int) {
    -1 <= p < size && -1 <= n < size && p != cell && n != cell && (p == n ==> p == NIL)
  }

  // Only the neighbours' links and the cell's own link back changed: p and n are joined.
  ghost predicate JoinedAround(cells: seq<Cell>, cells': seq<Cell>, cell: nat, p: int, n: int)
    requires Neighbours(|cells|, cell, p, n)
  {
    && |cells'| == |cells|
    && (forall a :: 0 <= a < |cells| && a != p && a != n && a != cell ==> cells'[a] == cells[a])
    && (p != NIL ==> cells'[p] == cells[p].(next := n))
    && (n != NIL ==> cells'[n] == cells[n].(prev := p))
  }

  lemma ChainNeighbours(cells: seq<Cell>, ch: seq<nat>, b: Bucket, i: int)
    requires Linked(cells, ch, b) && 0 <= i < |ch|
    ensures Neighbours(|cells|, ch[i], Before(ch, i), After(ch, i))
    ensures (Before(ch, i) == NIL <==> b.list == ch[i]) && (After(ch, i) == NIL <==> b.tail == ch[i])
  {
    assert i > 0 ==> ch[i - 1] != ch[i] && ch[0] != ch[i];
    assert i + 1 < |ch| ==> ch[i + 1] != ch[i] && ch[|ch| - 1] != ch[i];
    assert 0 < i < |ch| - 1 ==> ch[i - 1] != ch[i + 1];
  }

  lemma EndsWithout(ch: seq<nat>, i: int)
    requires 0 <= i < |ch|
    ensures Ends(Without(ch, i)) ==
        Bucket(if i == 0 then After(ch, i) else ch[0], if i == |ch| - 1 then Before(ch, i) else ch[|ch| - 1])
  {
    if |ch| > 1 {
      WithoutAt(ch, i, 0);
      WithoutAt(ch, i, |ch| - 2);
    }
  }

  lemma AroundJoined(cells: seq<Cell>, cells': seq<Cell>, b: Bucket, ch: seq<nat>, owner: seq<int>, j: int, i: int)
    requires Linked(cells, ch, b) && 0 <= i < |ch| && Owned(owner, ch, j) && |owner| == |cells|
    requires Neighbours(|cells|, ch[i], Before(ch, i), After(ch, i))
    requires JoinedAround(cells, cells', ch[i], Before(ch, i), After(ch, i))
    ensures Joined(cells, cells', ch, i)
    ensures forall a :: 0 <= a < |cells| ==> owner[a] == j || cells'[a] == cells[a]
  {
    forall k | 0 <= k < |ch| && k != i - 1 && k != i && k != i + 1 ensures cells'[ch[k]] == cells[ch[k]] {
      assert ch[k] != Before(ch, i) && ch[k] != ch[i] && ch[k] != After(ch, i);
    }
  }

  lemma ForestNeighbours(cells: seq<Cell>, hashtable: seq<Bucket>, chains: seq<seq<nat>>, owner: seq<int>, j: int,
      i: int)
    requires Forest(cells, hashtable, chains, owner) && 0 <= j < |chains| && 0 <= i < |chains[j]|
    ensures chains[j][i] < |cells| && Neighbours(|cells|, chains[j][i], Before(chains[j], i), After(chains[j], i))
    ensures cells[chains[j][i]].prev == Before(chains[j], i) && cells[chains[j][i]].next == After(chains[j], i)
    ensures Before(chains[j], i) == NIL <==> hashtable[j].list == chains[j][i]
    ensures After(chains[j], i) == NIL <==> hashtable[j].tail == chains[j][i]
  {
    assert Linked(cells, chains[j], hashtable[j]);
    ChainNeighbours(cells, chains[j], hashtable[j], i);
  }

  // Unlinking the i-th cell of chain j takes it out of that chain and touches no other.
  lemma DisconnectChain(cells: seq<Cell>, cells': seq<Cell>, ch: seq<nat>, b: Bucket, b': Bucket, owner: seq<int>,
      j: int, i: int)
    requires Linked(cells, ch, b) && Owned(owner, ch, j) && |owner| == |cells| && 0 <= i < |ch|
    requires Neighbours(|cells|, ch[i], Before(ch, i), After(ch, i))
    requires JoinedAround(cells, cells', ch[i], Before(ch, i), After(ch, i))
    requires b' == Bucket(if Before(ch, i) == NIL then After(ch, i) else b.list,
                          if After(ch, i) == NIL then Before(ch, i) else b.tail)
    ensures Linked(cells', Without(ch, i), b') && Owned(owner, Without(ch, i), j)
    ensures ClausesOf(cells', Without(ch, i)) == Without(ClausesOf(cells, ch), i)
    ensures forall a :: 0 <= a < |cells| ==> owner[a] == j || cells'[a] == cells[a]
  {
    EndsWithout(ch, i);
    AroundJoined(cells, cells', b, ch, owner, j, i);
    RemoveLinked(cells, cells', ch, b, i);
    RemoveClauses(cells, cells', ch, b, i);
    OwnedWithout(owner, ch, j, i);
  }

  lemma OwnedWithout(owner: seq<int>, ch: seq<nat>, j: int, i: int)
    requires Owned(owner, ch, j) && 0 <= i < |ch|
    ensures Owned(owner, Without(ch, i), j)
  {
    forall k | 0 <= k < |ch| - 1 ensures Without(ch, i)[k] < |owner| && owner[Without(ch, i)[k]] == j {
      WithoutAt(ch, i, k);
    }
  }
}
