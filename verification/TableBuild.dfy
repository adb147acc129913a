// b_CFD_BUILD_TRIES_IN: the support sets of all values, as integers, intervals or bit vectors.
module TableBuild {
  import opened Trail
  import opened Layout
  import opened Sets
  import opened Stores
  import opened Region
  import opened SupportBits
  import opened Domains
  import opened LinearTerms
  import opened Tables
  import opened TableMeasure
  import opened TableConstraint

  // A bit vector that will hold all and holds done so far.
  ghost predicate Fills(mem: seq<Cell>, owner: seq<int>, d: nat, all: set<int>, done: set<int>) {
    exists lo, hi :: Bounds(all, lo, hi) && Filling(mem, owner, d, lo, hi, done)
  }

  // The slot stands for the support set all, of which the values in done were already entered.
  ghost predicate Holding(mem: seq<Cell>, owner: seq<int>, views: map<nat, View>, slot: Slot, all: set<int>,
      done: set<int>) {
    match slot
    case Absent => all == {}
    case Fixed(n) => all == {n}
    case Dom(d) => if d in views then views[d] == View(Ref, all, false) else Fills(mem, owner, d, all, done)
  }

  // What is written for another variable e leaves the slot alone.
  lemma HoldingFrame(mem: seq<Cell>, mem': seq<Cell>, owner: seq<int>, owner': seq<int>, views: map<nat, View>,
      views': map<nat, View>, e: nat, slot: Slot, all: set<int>, done: set<int>)
    requires Holding(mem, owner, views, slot, all, done) && Described(mem, owner, views)
    requires OnlyOf(mem, mem', owner, owner', e) && (slot.Dom? ==> slot.d != e)
    requires Grown(views, views', e)
    ensures Holding(mem', owner', views', slot, all, done)
  {
    if slot.Dom? {
      if slot.d in views {
        assert Shape(mem, owner, slot.d);
        ShapeFrame(mem, mem', owner, owner', e, slot.d);
      } else {
        var lo, hi :| Bounds(all, lo, hi) && Filling(mem, owner, slot.d, lo, hi, done);
        FillingFrame(mem, mem', owner, owner', e, slot.d, lo, hi, done);
      }
    }
  }

  // Value r of column p, as seen from column q.
  datatype Key = Key(p: int, q: int, r: int)

  ghost predicate IsKey(maxs: seq<nat>, key: Key) {
    Columns(|maxs|, key.p, key.q) && 0 <= key.r <= maxs[key.p]
  }

  ghost predicate Shaped(tries: array2<seq<Slot>>, maxs: seq<nat>)
    reads tries
  {
    && tries.Length0 == tries.Length1 == |maxs|
    && forall p, q :: 0 <= p < |maxs| && 0 <= q < |maxs| ==> |tries[p, q]| == maxs[p] + 1
  }

  function SlotAt(tries: array2<seq<Slot>>, maxs: seq<nat>, key: Key): Slot
    requires Shaped(tries, maxs) && IsKey(maxs, key)
    reads tries
  {
    tries[key.p, key.q][key.r]
  }

  // Each new variable belongs to one slot.
  ghost predicate Owned(tries: array2<seq<Slot>>, maxs: seq<nat>, who: map<nat, Key>)
    requires Shaped(tries, maxs)
    reads tries
  {
    && (forall key :: IsKey(maxs, key) && SlotAt(tries, maxs, key).Dom? ==>
          SlotAt(tries, maxs, key).d in who && who[SlotAt(tries, maxs, key).d] == key)
    && forall d :: d in who ==> IsKey(maxs, who[d]) && SlotAt(tries, maxs, who[d]) == Dom(d)
  }

  // ---- initialize_supports ----

  // Have the loops over i, k, j passed this slot?
  predicate Before(key: Key, i: int, k: int, j: int) {
    key.p < i || (key.p == i && (key.r < k || (key.r == k && key.q < j)))
  }

  ghost predicate MinMaxOf(rows: seq<seq<int>>, maxs: seq<nat>, mins: array3<int>, maxes: array3<int>, nk: nat)
    requires IsTable(rows, maxs)
    reads mins, maxes
  {
    && Dims(mins, |maxs|, nk) && Dims(maxes, |maxs|, nk) && (forall c :: 0 <= c < |maxs| ==> maxs[c] < nk)
    && forall p, q, k :: Columns(|maxs|, p, q) && 0 <= k < nk ==>
         Extremes(Supports(rows, maxs, p, q, k), mins[p, q, k], maxes[p, q, k])
  }

  ghost function SupportsOf(rows: seq<seq<int>>, maxs: seq<nat>, key: Key): set<int>
    requires IsTable(rows, maxs) && IsKey(maxs, key)
  {
    Supports(rows, maxs, key.p, key.q, key.r)
  }

  // At most d is new or changed.
  ghost predicate Grown(views: map<nat, View>, views': map<nat, View>, d: nat) {
    views' == views || (d in views' && views' == views[d := views'[d]])
  }

  // One new slot.
  method MakeSlot(s: Store, min: int, max: int, ghost all: set<int>) returns (slot: Slot)
    requires s.Valid() && Extremes(all, min, max)
    modifies s`mem, s`owner, s`views
    ensures s.Valid() && Holding(s.mem, s.owner, s.views, slot, all, {})
    ensures (slot.Absent? <==> min > max) && (slot.Fixed? <==> min == max)
    ensures slot.Dom? ==> (slot.d in s.views <==> min + 1 == max)
    ensures !slot.Dom? ==> s.mem == old(s.mem) && s.owner == old(s.owner) && s.views == old(s.views)
    ensures slot.Dom? ==> slot.d == |old(s.mem)| && slot.d !in old(s.views) && s.hb <= slot.d < |s.mem|
    ensures slot.Dom? ==>
      OnlyOf(old(s.mem), s.mem, old(s.owner), s.owner, slot.d) && Grown(old(s.views), s.views, slot.d)
  {
    if min > max {
      return Absent;
    } else if min == max {
      forall v ensures v in all <==> v in {min} {
      }
      assert all == {min};
      return Fixed(min);
    }
    OldCells(s, |s.mem|);
    if min + 1 == max {
      var d := s.NewVar(min, max);
      forall v ensures v in all <==> v in Range(min, max) {
        assert InRange(min, v, max) <==> min <= v <= max;
      }
      assert all == Range(min, max);
      return Dom(d);
    }
    var d := NewBits(s, min, max);
    return Dom(d);
  }

  // The slots made so far hold their sets, still empty where they are bit vectors.
  ghost predicate Making(s: Store, tries: array2<seq<Slot>>, rows: seq<seq<int>>, maxs: seq<nat>, who: map<nat, Key>,
      i: int, k: int, j: int)
    reads s, tries
  {
    && s.Valid() && IsTable(rows, maxs) && Shaped(tries, maxs) && Owned(tries, maxs, who)
    && (forall d :: d in who ==> s.hb <= d < |s.mem|)
    && Unmade(tries, maxs, i, k, j) && Made(s.mem, s.owner, s.views, tries, rows, maxs, i, k, j)
  }

  ghost predicate Unmade(tries: array2<seq<Slot>>, maxs: seq<nat>, i: int, k: int, j: int)
    requires Shaped(tries, maxs)
    reads tries
  {
    forall key :: IsKey(maxs, key) && !Before(key, i, k, j) ==> SlotAt(tries, maxs, key) == Absent
  }

  ghost predicate Made(mem: seq<Cell>, owner: seq<int>, views: map<nat, View>, tries: array2<seq<Slot>>,
      rows: seq<seq<int>>, maxs: seq<nat>, i: int, k: int, j: int)
    requires IsTable(rows, maxs) && Shaped(tries, maxs)
    reads tries
  {
    forall key :: IsKey(maxs, key) && Before(key, i, k, j) ==>
        Holding(mem, owner, views, SlotAt(tries, maxs, key), SupportsOf(rows, maxs, key), {})
  }

  // Views that were there before the build are as they were; the new variables are not among them.
  ghost predicate Extends(v0: map<nat, View>, views: map<nat, View>, who: map<nat, Key>) {
    && (forall e :: e in v0 ==> e in views && views[e] == v0[e])
    && (forall e :: e in views ==> e in v0 || e in who)
    && forall e :: e in who ==> e !in v0
  }

  method PutSlot(tries: array2<seq<Slot>>, ghost maxs: seq<nat>, ghost who: map<nat, Key>, i: int, k: int, j: int,
      slot: Slot)
    returns (ghost who': map<nat, Key>)
    requires Shaped(tries, maxs) && Owned(tries, maxs, who) && IsKey(maxs, Key(i, j, k)) && Unmade(tries, maxs, i, k, j)
    requires slot.Dom? ==> slot.d !in who
    modifies tries
    ensures Shaped(tries, maxs) && Owned(tries, maxs, who') && Unmade(tries, maxs, i, k, j + 1)
    ensures who' == if slot.Dom? then who[slot.d := Key(i, j, k)] else who
    ensures SlotAt(tries, maxs, Key(i, j, k)) == slot
    ensures forall key :: IsKey(maxs, key) && Before(key, i, k, j) ==>
      SlotAt(tries, maxs, key) == old(SlotAt(tries, maxs, key))
  {
    assert !Before(Key(i, j, k), i, k, j);
    tries[i, j] := tries[i, j][k := slot];
    who' := if slot.Dom? then who[slot.d := Key(i, j, k)] else who;
    forall key | IsKey(maxs, key)
      ensures SlotAt(tries, maxs, key) == if key == Key(i, j, k) then slot else old(SlotAt(tries, maxs, key)) {
    }
  }

  // The slots made so far are not touched by a new variable e for the next slot.
  lemma OthersHold(mem0: seq<Cell>, mem: seq<Cell>, owner0: seq<int>, owner: seq<int>, views0: map<nat, View>,
      views: map<nat, View>, e: nat, tries: array2<seq<Slot>>, rows: seq<seq<int>>, maxs: seq<nat>, who: map<nat, Key>,
      i: int, k: int, j: int)
    requires IsTable(rows, maxs) && Shaped(tries, maxs) && Owned(tries, maxs, who) && e in who && who[e] == Key(i, j, k)
    requires Described(mem0, owner0, views0) && OnlyOf(mem0, mem, owner0, owner, e) && Grown(views0, views, e)
    requires Made(mem0, owner0, views0, tries, rows, maxs, i, k, j)
    ensures Made(mem, owner, views, tries, rows, maxs, i, k, j)
  {
    forall key | IsKey(maxs, key) && Before(key, i, k, j)
      ensures Holding(mem, owner, views, SlotAt(tries, maxs, key), SupportsOf(rows, maxs, key), {}) {
      HoldingFrame(mem0, mem, owner0, owner, views0, views, e, SlotAt(tries, maxs, key), SupportsOf(rows, maxs, key),
        {});
    }
  }

  lemma MadeNext(mem: seq<Cell>, owner: seq<int>, views: map<nat, View>, tries: array2<seq<Slot>>, rows: seq<seq<int>>,
      maxs: seq<nat>, i: int, k: int, j: int)
    requires IsTable(rows, maxs) && Shaped(tries, maxs) && IsKey(maxs, Key(i, j, k))
    requires Made(mem, owner, views, tries, rows, maxs, i, k, j)
    requires Holding(mem, owner, views, SlotAt(tries, maxs, Key(i, j, k)), SupportsOf(rows, maxs, Key(i, j, k)), {})
    ensures Made(mem, owner, views, tries, rows, maxs, i, k, j + 1)
  {
    forall key | IsKey(maxs, key) && Before(key, i, k, j + 1)
      ensures Holding(mem, owner, views, SlotAt(tries, maxs, key), SupportsOf(rows, maxs, key), {}) {
      assert key != Key(i, j, k) ==> Before(key, i, k, j);
    }
  }

  method InitSlot(s: Store, ghost v0: map<nat, View>, tries: array2<seq<Slot>>, ghost rows: seq<seq<int>>,
      ghost maxs: seq<nat>, min: int, max: int, ghost who: map<nat, Key>, i: int, k: int, j: int)
    returns (ghost who': map<nat, Key>)
    requires Making(s, tries, rows, maxs, who, i, k, j) && IsKey(maxs, Key(i, j, k)) && Extends(v0, s.views, who)
    requires Extremes(SupportsOf(rows, maxs, Key(i, j, k)), min, max)
    modifies s`mem, s`owner, s`views, tries
    ensures Making(s, tries, rows, maxs, who', i, k, j + 1) && Extends(v0, s.views, who')
  {
    ghost var mem0, owner0, views0 := s.mem, s.owner, s.views;
    var slot := MakeSlot(s, min, max, SupportsOf(rows, maxs, Key(i, j, k)));
    who' := PutSlot(tries, maxs, who, i, k, j, slot);
    assert Made(mem0, owner0, views0, tries, rows, maxs, i, k, j);
    if slot.Dom? {
      OthersHold(mem0, s.mem, owner0, s.owner, views0, s.views, slot.d, tries, rows, maxs, who', i, k, j);
    }
    MadeNext(s.mem, s.owner, s.views, tries, rows, maxs, i, k, j);
  }

  // The loops go on without passing a slot.
  lemma MakingMove(s: Store, tries: array2<seq<Slot>>, rows: seq<seq<int>>, maxs: seq<nat>, who: map<nat, Key>, i: int,
      k: int, j: int, i': int, k': int, j': int)
    requires Making(s, tries, rows, maxs, who, i, k, j)
    requires forall key :: IsKey(maxs, key) ==> (Before(key, i, k, j) <==> Before(key, i', k', j'))
    ensures Making(s, tries, rows, maxs, who, i', k', j')
  {
    forall key | IsKey(maxs, key) && Before(key, i', k', j')
      ensures Holding(s.mem, s.owner, s.views, SlotAt(tries, maxs, key), SupportsOf(rows, maxs, key), {}) {
      assert Before(key, i, k, j);
    }
  }

  // The slots of value k of column i.
  method InitValue(s: Store, ghost v0: map<nat, View>, tries: array2<seq<Slot>>, ghost rows: seq<seq<int>>,
      maxs: seq<nat>, mins: array3<int>, maxes: array3<int>, ghost nk: nat, ghost who0: map<nat, Key>, i: int, k: int)
    returns (ghost who: map<nat, Key>)
    requires Making(s, tries, rows, maxs, who0, i, k, 0) && Extends(v0, s.views, who0)
    requires MinMaxOf(rows, maxs, mins, maxes, nk) && 0 <= i < |maxs| && 0 <= k <= maxs[i]
    modifies s`mem, s`owner, s`views, tries
    ensures Making(s, tries, rows, maxs, who, i, k + 1, 0) && Extends(v0, s.views, who)
  {
    who := who0;
    var j := 0;
    while j < |maxs|
      invariant 0 <= j <= |maxs| && Making(s, tries, rows, maxs, who, i, k, j) && Extends(v0, s.views, who)
    {
      if i != j {
        var min, max := mins[i, j, k], maxes[i, j, k];
        who := InitSlot(s, v0, tries, rows, maxs, min, max, who, i, k, j);
      } else {
        MakingMove(s, tries, rows, maxs, who, i, k, j, i, k, j + 1);
      }
      j := j + 1;
    }
    MakingMove(s, tries, rows, maxs, who, i, k, j, i, k + 1, 0);
  }

  // initialize_supports
  method InitSupports(s: Store, ghost v0: map<nat, View>, tries: array2<seq<Slot>>, ghost rows: seq<seq<int>>,
      maxs: seq<nat>, mins: array3<int>, maxes: array3<int>, ghost nk: nat)
    returns (ghost who: map<nat, Key>)
    requires s.Valid() && v0 == s.views && IsTable(rows, maxs) && MinMaxOf(rows, maxs, mins, maxes, nk)
    requires Shaped(tries, maxs) && Unmade(tries, maxs, 0, 0, 0)
    modifies s`mem, s`owner, s`views, tries
    ensures Making(s, tries, rows, maxs, who, |maxs|, 0, 0) && Extends(v0, s.views, who)
  {
    who := map[];
    forall key | IsKey(maxs, key) ensures SlotAt(tries, maxs, key) == Absent {
      assert !Before(key, 0, 0, 0);
    }
    var i := 0;
    while i < |maxs|
      invariant 0 <= i <= |maxs| && Making(s, tries, rows, maxs, who, i, 0, 0) && Extends(v0, s.views, who)
    {
      var k := 0;
      while k <= maxs[i]
        invariant 0 <= k <= maxs[i] + 1 && Making(s, tries, rows, maxs, who, i, k, 0) && Extends(v0, s.views, who)
      {
        who := InitValue(s, v0, tries, rows, maxs, mins, maxes, nk, who, i, k);
        k := k + 1;
      }
      MakingMove(s, tries, rows, maxs, who, i, k, 0, i + 1, 0, 0);
      i := i + 1;
    }
  }

  // ---- compute_supports_in ----

  // The loops over i and j stand at i, j: was row m entered for the pair p, q already?
  predicate PairPassed(key: Key, i: int, j: int) {
    key.p < i || (key.p == i && key.q < j)
  }

  ghost function SeenAt(rows: seq<seq<int>>, maxs: seq<nat>, key: Key, m: nat, i: int, j: int): set<int>
    requires IsTable(rows, maxs) && IsKey(maxs, key) && m <= |rows|
  {
    Seen(rows, maxs, key.p, key.q, key.r, m, PairPassed(key, i, j))
  }

  ghost predicate Entered(mem: seq<Cell>, owner: seq<int>, views: map<nat, View>, tries: array2<seq<Slot>>,
      rows: seq<seq<int>>, maxs: seq<nat>, m: nat, i: int, j: int)
    requires IsTable(rows, maxs) && Shaped(tries, maxs) && m <= |rows|
    reads tries
  {
    forall key :: IsKey(maxs, key) ==>
      Holding(mem, owner, views, SlotAt(tries, maxs, key), SupportsOf(rows, maxs, key),
          SeenAt(rows, maxs, key, m, i, j))
  }

  ghost predicate Entering(s: Store, tries: array2<seq<Slot>>, rows: seq<seq<int>>, maxs: seq<nat>, who: map<nat, Key>,
      m: nat, i: int, j: int)
    reads s, tries
  {
    && s.Valid() && IsTable(rows, maxs) && Shaped(tries, maxs) && Owned(tries, maxs, who) && m <= |rows|
    && (forall d :: d in who ==> s.hb <= d < |s.mem|)
    && Entered(s.mem, s.owner, s.views, tries, rows, maxs, m, i, j)
  }

  // Nothing is entered for the other slots.
  lemma SeenSame(rows: seq<seq<int>>, maxs: seq<nat>, key: Key, m: nat, i: int, j: int)
    requires IsTable(rows, maxs) && IsKey(maxs, key) && m < |rows| && Columns(|maxs|, i, j)
    ensures IsRow(rows[m], maxs)
    ensures SeenAt(rows, maxs, key, m, i, j + 1)
      == SeenAt(rows, maxs, key, m, i, j) + (if key == Key(i, j, rows[m][i]) then {rows[m][j]} else {})
  {
    SeenStep(rows, maxs, key.p, key.q, key.r, m);
  }

  // What was entered in the slot of here concerns no other slot.
  lemma EnteredStep(mem0: seq<Cell>, mem: seq<Cell>, owner: seq<int>, views: map<nat, View>, tries: array2<seq<Slot>>,
      rows: seq<seq<int>>, maxs: seq<nat>, who: map<nat, Key>, m: nat, i: int, j: int, here: Key)
    requires IsTable(rows, maxs) && Shaped(tries, maxs) && Owned(tries, maxs, who) && m < |rows|
    requires Columns(|maxs|, i, j)
    requires IsRow(rows[m], maxs) && here == Key(i, j, rows[m][i]) && IsKey(maxs, here)
    requires Described(mem0, owner, views) && Entered(mem0, owner, views, tries, rows, maxs, m, i, j)
    requires mem == mem0 || (SlotAt(tries, maxs, here).Dom? && OnlyOf(mem0, mem, owner, owner,
        SlotAt(tries, maxs, here).d))
    requires Holding(mem, owner, views, SlotAt(tries, maxs, here), SupportsOf(rows, maxs, here),
        SeenAt(rows, maxs, here, m, i, j + 1))
    ensures Entered(mem, owner, views, tries, rows, maxs, m, i, j + 1)
  {
    forall key | IsKey(maxs, key)
      ensures Holding(mem, owner, views, SlotAt(tries, maxs, key), SupportsOf(rows, maxs, key),
          SeenAt(rows, maxs, key, m, i, j + 1)) {
      if key != here {
        SeenSame(rows, maxs, key, m, i, j);
        if mem != mem0 {
          HoldingFrame(mem0, mem, owner, owner, views, views, SlotAt(tries, maxs, here).d, SlotAt(tries, maxs, key),
              SupportsOf(rows, maxs, key),
            SeenAt(rows, maxs, key, m, i, j));
        }
      }
    }
  }

  // One support a, entered in the slot when it is a bit vector.
  method Enter(s: Store, slot: Slot, a: int, ghost all: set<int>, ghost done: set<int>)
    requires s.Valid() && Holding(s.mem, s.owner, s.views, slot, all, done) && a in all
    requires slot.Dom? ==> s.hb <= slot.d < |s.mem|
    modifies s`mem
    ensures s.Valid() && Holding(s.mem, s.owner, s.views, slot, all, done + {a})
    ensures s.mem == old(s.mem) || (slot.Dom? && OnlyOf(old(s.mem), s.mem, s.owner, s.owner, slot.d))
  {
    assert slot.Dom? && slot.d in s.views ==> Shape(s.mem, s.owner, slot.d);
    if slot.Dom? && !IsIT(s.mem, slot.d) {
      ghost var lo, hi :| Bounds(all, lo, hi) && Filling(s.mem, s.owner, slot.d, lo, hi, done);
      SetTrue(s, slot.d, a, lo, hi, done);
    } else if slot.Dom? {
      assert slot.d in s.views;
    }
  }

  method EnterPair(s: Store, tries: array2<seq<Slot>>, rows: seq<seq<int>>, ghost maxs: seq<nat>, ghost who: map<nat,
      Key>, m: nat, i: int, j: int)
    requires Entering(s, tries, rows, maxs, who, m, i, j) && m < |rows| && Columns(|maxs|, i, j)
    modifies s`mem
    ensures Entering(s, tries, rows, maxs, who, m, i, j + 1)
  {
    assert IsRow(rows[m], maxs);
    ghost var here := Key(i, j, rows[m][i]);
    SeenSame(rows, maxs, here, m, i, j);
    SupportsMember(rows, maxs, i, j, m);
    Enter(s, tries[i, j][rows[m][i]], rows[m][j], SupportsOf(rows, maxs, here), SeenAt(rows, maxs, here, m, i, j));
    EnteredStep(old(s.mem), s.mem, s.owner, s.views, tries, rows, maxs, who, m, i, j, here);
  }

  lemma SupportsMember(rows: seq<seq<int>>, maxs: seq<nat>, i: int, j: int, m: nat)
    requires IsTable(rows, maxs) && Columns(|maxs|, i, j) && m < |rows|
    ensures IsRow(rows[m], maxs) && rows[m][j] in Supports(rows, maxs, i, j, rows[m][i])
  {
    assert IsRow(rows[m], maxs) && Pairs(rows, m, i, j, rows[m][i], rows[m][j]);
  }

  // The loops go on to pairs that mean the same.
  lemma EnteringMove(s: Store, tries: array2<seq<Slot>>, rows: seq<seq<int>>, maxs: seq<nat>, who: map<nat, Key>,
      m: nat, i: int, j: int, i': int, j': int)
    requires Entering(s, tries, rows, maxs, who, m, i, j)
    requires forall key :: IsKey(maxs, key) ==> (PairPassed(key, i, j) <==> PairPassed(key, i', j'))
    ensures Entering(s, tries, rows, maxs, who, m, i', j')
  {
    forall key | IsKey(maxs, key)
      ensures Holding(s.mem, s.owner, s.views, SlotAt(tries, maxs, key), SupportsOf(rows, maxs, key),
          SeenAt(rows, maxs, key, m, i', j')) {
      assert SeenAt(rows, maxs, key, m, i', j') == SeenAt(rows, maxs, key, m, i, j);
    }
  }

  // With all pairs passed, row m is one of the rows seen.
  lemma RowEntered(s: Store, tries: array2<seq<Slot>>, rows: seq<seq<int>>, maxs: seq<nat>, who: map<nat, Key>, m: nat)
    requires Entering(s, tries, rows, maxs, who, m, |maxs|, 0) && m < |rows|
    ensures Entering(s, tries, rows, maxs, who, m + 1, 0, 0)
  {
    forall key | IsKey(maxs, key)
      ensures Holding(s.mem, s.owner, s.views, SlotAt(tries, maxs, key), SupportsOf(rows, maxs, key),
          SeenAt(rows, maxs, key, m + 1, 0, 0)) {
      SeenStep(rows, maxs, key.p, key.q, key.r, m);
      assert SeenAt(rows, maxs, key, m + 1, 0, 0) == SeenAt(rows, maxs, key, m, |maxs|, 0);
    }
  }

  method EnterNext(s: Store, tries: array2<seq<Slot>>, rows: seq<seq<int>>, ghost maxs: seq<nat>, ghost who: map<nat,
      Key>, m: nat, i: int, j: int)
    requires Entering(s, tries, rows, maxs, who, m, i, j) && m < |rows| && 0 <= i < |maxs| && 0 <= j < |maxs|
    modifies s`mem
    ensures Entering(s, tries, rows, maxs, who, m, i, j + 1)
  {
    if i != j {
      EnterPair(s, tries, rows, maxs, who, m, i, j);
    } else {
      EnteringMove(s, tries, rows, maxs, who, m, i, j, i, j + 1);
    }
  }

  method EnterColumn(s: Store, tries: array2<seq<Slot>>, rows: seq<seq<int>>, maxs: seq<nat>, ghost who: map<nat, Key>,
      m: nat, i: int)
    requires Entering(s, tries, rows, maxs, who, m, i, 0) && m < |rows| && 0 <= i < |maxs|
    modifies s`mem
    ensures Entering(s, tries, rows, maxs, who, m, i + 1, 0)
  {
    var j := 0;
    while j < |maxs|
      invariant 0 <= j <= |maxs| && Entering(s, tries, rows, maxs, who, m, i, j)
    {
      EnterNext(s, tries, rows, maxs, who, m, i, j);
      j := j + 1;
    }
    EnteringMove(s, tries, rows, maxs, who, m, i, j, i + 1, 0);
  }

  method EnterRow(s: Store, tries: array2<seq<Slot>>, rows: seq<seq<int>>, maxs: seq<nat>, ghost who: map<nat, Key>,
      m: nat)
    requires Entering(s, tries, rows, maxs, who, m, 0, 0) && m < |rows|
    modifies s`mem
    ensures Entering(s, tries, rows, maxs, who, m + 1, 0, 0)
  {
    var i := 0;
    while i < |maxs|
      invariant 0 <= i <= |maxs| && Entering(s, tries, rows, maxs, who, m, i, 0)
    {
      EnterColumn(s, tries, rows, maxs, who, m, i);
      i := i + 1;
    }
    RowEntered(s, tries, rows, maxs, who, m);
  }

  // compute_supports_in
  method EnterTable(s: Store, tries: array2<seq<Slot>>, rows: seq<seq<int>>, maxs: seq<nat>, ghost who: map<nat, Key>)
    requires Entering(s, tries, rows, maxs, who, 0, 0, 0)
    modifies s`mem
    ensures Entering(s, tries, rows, maxs, who, |rows|, 0, 0)
  {
    var m := 0;
    while m < |rows|
      invariant 0 <= m <= |rows| && Entering(s, tries, rows, maxs, who, m, 0, 0)
    {
      EnterRow(s, tries, rows, maxs, who, m);
      m := m + 1;
    }
  }

  // ---- The finished tries ----

  // A slot whose set was entered completely.
  lemma HoldingDone(mem: seq<Cell>, owner: seq<int>, views: map<nat, View>, slot: Slot, all: set<int>)
    requires Holding(mem, owner, views, slot, all, all) && slot.Dom? && slot.d !in views
    ensures Shape(mem, owner, slot.d) && ViewOf(mem, slot.d) == View(Ref, all, true)
  {
    var lo, hi :| Bounds(all, lo, hi) && Filling(mem, owner, slot.d, lo, hi, all);
    FillingDone(mem, owner, slot.d, lo, hi, all);
  }

  // The new variable d stands for the support set of its slot.
  lemma KeyDone(s: Store, tries: array2<seq<Slot>>, rows: seq<seq<int>>, maxs: seq<nat>, who: map<nat, Key>, d: nat)
    requires Entering(s, tries, rows, maxs, who, |rows|, 0, 0) && d in who
    ensures IsKey(maxs, who[d]) && Shape(s.mem, s.owner, d)
    ensures FreeOver(ViewOf(s.mem, d), SupportsOf(rows, maxs, who[d]))
  {
    var key := who[d];
    assert SlotAt(tries, maxs, key) == Dom(d);
    SeenAll(rows, maxs, key.p, key.q, key.r);
    assert Holding(s.mem, s.owner, s.views, Dom(d), SupportsOf(rows, maxs, key), SupportsOf(rows, maxs, key));
    if d !in s.views {
      HoldingDone(s.mem, s.owner, s.views, Dom(d), SupportsOf(rows, maxs, key));
    } else {
      assert Shape(s.mem, s.owner, d);
    }
  }

  lemma AllDescribed(mem: seq<Cell>, owner: seq<int>, views: map<nat, View>, news: map<nat, View>)
    requires Described(mem, owner, views) && forall d :: d in news ==> Shape(mem, owner, d) && news[d] == ViewOf(mem, d)
    ensures Described(mem, owner, views + news)
  {
    forall d | d in views + news ensures Shape(mem, owner, d) && (views + news)[d] == ViewOf(mem, d) {
      assert d !in news ==> d in views;
    }
  }

  lemma ExtendsMore(v0: map<nat, View>, views: map<nat, View>, news: map<nat, View>, who: map<nat, Key>)
    requires Extends(v0, views, who) && news.Keys == who.Keys
    ensures Extends(v0, views + news, who)
  {
  }

  ghost function ViewsOf(mem: seq<Cell>, who: map<nat, Key>): (news: map<nat, View>)
    requires forall d :: d in who ==> d < |mem|
  {
    map d | d in who :: ViewOf(mem, d)
  }

  lemma AllDone(s: Store, tries: array2<seq<Slot>>, rows: seq<seq<int>>, maxs: seq<nat>, who: map<nat, Key>)
    requires Entering(s, tries, rows, maxs, who, |rows|, 0, 0)
    ensures Described(s.mem, s.owner, s.views + ViewsOf(s.mem, who))
    ensures Standing(s.views + ViewsOf(s.mem, who), rows, maxs, who)
  {
    var news := ViewsOf(s.mem, who);
    forall d | d in who
      ensures IsKey(maxs, who[d]) && Shape(s.mem, s.owner, d)
      ensures FreeOver(news[d], SupportsOf(rows, maxs, who[d])) {
      KeyDone(s, tries, rows, maxs, who, d);
    }
    AllDescribed(s.mem, s.owner, s.views, news);
  }

  ghost predicate FreeOver(v: View, all: set<int>) {
    v.cell == Ref && v.described == all
  }

  // Every new variable stands for its support set.
  ghost predicate Standing(views: map<nat, View>, rows: seq<seq<int>>, maxs: seq<nat>, who: map<nat, Key>)
    requires IsTable(rows, maxs)
  {
    forall d :: d in who ==>
        IsKey(maxs, who[d]) && d in views && FreeOver(views[d], SupportsOf(rows, maxs, who[d]))
  }

  // One finished trie.
  lemma TrieDone(views: map<nat, View>, mem: seq<Cell>, owner: seq<int>, views1: map<nat, View>,
      tries: array2<seq<Slot>>, rows: seq<seq<int>>, maxs: seq<nat>, who: map<nat, Key>, p: int, q: int)
    requires IsTable(rows, maxs) && Shaped(tries, maxs) && Owned(tries, maxs, who) && Columns(|maxs|, p, q)
    requires Entered(mem, owner, views1, tries, rows, maxs, |rows|, 0, 0)
    requires Standing(views, rows, maxs, who)
    ensures TrieOf(views, tries[p, q], rows, maxs, p, q)
    ensures forall k :: 0 <= k < |tries[p, q]| && tries[p, q][k].Dom? ==> tries[p, q][k].d in who
  {
    forall k | 0 <= k < |tries[p, q]|
      ensures IsSlot(views, tries[p, q][k]) && SlotSet(views, tries[p, q][k]) == Supports(rows, maxs, p, q, k)
      ensures tries[p, q][k].Dom? ==> tries[p, q][k].d in who {
      var key := Key(p, q, k);
      assert IsKey(maxs, key) && SlotAt(tries, maxs, key) == tries[p, q][k];
      SeenAll(rows, maxs, p, q, k);
      assert Holding(mem, owner, views1, SlotAt(tries, maxs, key), SupportsOf(rows, maxs, key),
          SeenAt(rows, maxs, key, |rows|, 0, 0));
    }
  }

  method MaxOf(maxs: seq<nat>) returns (nk: nat)
    ensures forall c :: 0 <= c < |maxs| ==> maxs[c] <= nk
  {
    nk := 0;
    var i := 0;
    while i < |maxs|
      invariant 0 <= i <= |maxs| && forall c :: 0 <= c < i ==> maxs[c] <= nk
    {
      if maxs[i] > nk {
        nk := maxs[i];
      }
      i := i + 1;
    }
  }

  // The finished tries of all pairs of columns; none of their variables is older.
  ghost predicate Built(v0: map<nat, View>, views: map<nat, View>, tries: array2<seq<Slot>>, rows: seq<seq<int>>,
      maxs: seq<nat>)
    reads tries
  {
    && Shaped(tries, maxs) && (forall e :: e in v0 ==> e in views && views[e] == v0[e])
    && (forall p, q :: Columns(|maxs|, p, q) ==> TrieOf(views, tries[p, q], rows, maxs, p, q))
    && forall p, q, e :: Columns(|maxs|, p, q) && e in v0 ==> Apart(tries[p, q], e)
  }

  // The tries that were built make a constraint of any variables there were before.
  lemma BuiltConstraint(v0: map<nat, View>, views: map<nat, View>, tries: array2<seq<Slot>>, rows: seq<seq<int>>,
      maxs: seq<nat>, vars: seq<nat>)
    requires IsTable(rows, maxs) && Built(v0, views, tries, rows, maxs) && |vars| == |maxs| && AreVars(v0, vars)
    requires forall i :: 0 <= i < |vars| ==> Consistent(v0[vars[i]])
    ensures IsConstraint(views, vars, tries, rows, maxs)
    ensures forall i, j :: Columns(|maxs|, i, j) ==> Mates(views, tries[i, j], tries[j, i])
  {
    forall i | 0 <= i < |vars| ensures vars[i] in views && Consistent(views[vars[i]]) {
      assert vars[i] in v0;
    }
    forall i, j | Columns(|maxs|, i, j)
      ensures IsTrie(views, tries[i, j]) && IsTrie(views, tries[j, i]) && Mates(views, tries[i, j], tries[j, i]) {
      assert TrieOf(views, tries[i, j], rows, maxs, i, j) && TrieOf(views, tries[j, i], rows, maxs, j, i);
      TriesMate(views, tries[i, j], tries[j, i], rows, maxs, i, j);
    }
  }

  // b_CFD_BUILD_TRIES_IN
  method BuildTries(s: Store, rows: seq<seq<int>>, maxs: seq<nat>) returns (tries: array2<seq<Slot>>)
    requires s.Valid() && IsTable(rows, maxs) && forall c :: 0 <= c < |maxs| ==> maxs[c] <= BP_MAXINT_1W
    modifies s`mem, s`owner, s`views
    ensures fresh(tries) && s.Valid() && Built(old(s.views), s.views, tries, rows, maxs)
  {
    ghost var v0 := s.views;
    ghost var who;
    tries, who := PrepareTries(s, rows, maxs);
    EnterTable(s, tries, rows, maxs, who);
    ghost var views1 := s.views;
    AllDone(s, tries, rows, maxs, who);
    ExtendsMore(v0, s.views, ViewsOf(s.mem, who), who);
    s.Adopt(ViewsOf(s.mem, who));
    forall p, q | Columns(|maxs|, p, q)
      ensures TrieOf(s.views, tries[p, q], rows, maxs, p, q) && forall e :: e in v0 ==> Apart(tries[p, q], e) {
      TrieDone(s.views, s.mem, s.owner, views1, tries, rows, maxs, who, p, q);
    }
  }

  // Up to the second pass over the table.
  method PrepareTries(s: Store, rows: seq<seq<int>>, maxs: seq<nat>)
    returns (tries: array2<seq<Slot>>, ghost who: map<nat, Key>)
    requires s.Valid() && IsTable(rows, maxs) && forall c :: 0 <= c < |maxs| ==> maxs[c] <= BP_MAXINT_1W
    modifies s`mem, s`owner, s`views
    ensures fresh(tries) && Entering(s, tries, rows, maxs, who, 0, 0, 0) && Extends(old(s.views), s.views, who)
  {
    var nk := MaxOf(maxs);
    nk := nk + 1;
    var mins, maxes := new int[|maxs|, |maxs|, nk], new int[|maxs|, |maxs|, nk];
    MeasureTable(mins, maxes, rows, maxs, nk);
    tries := EmptyTries(maxs);
    who := InitSupports(s, s.views, tries, rows, maxs, mins, maxes, nk);
    StartEntering(s, tries, rows, maxs, who);
  }

  // The tries as they come in: a place for each value, nothing in it.
  method EmptyTries(maxs: seq<nat>) returns (tries: array2<seq<Slot>>)
    ensures fresh(tries) && Shaped(tries, maxs) && Unmade(tries, maxs, 0, 0, 0)
  {
    var n := |maxs|;
    tries := new seq<Slot>[n, n]((p, q) requires 0 <= p < n && n == |maxs| => seq(maxs[p] + 1, k => Absent));
  }

  lemma StartEntering(s: Store, tries: array2<seq<Slot>>, rows: seq<seq<int>>, maxs: seq<nat>, who: map<nat, Key>)
    requires Making(s, tries, rows, maxs, who, |maxs|, 0, 0)
    ensures Entering(s, tries, rows, maxs, who, 0, 0, 0)
  {
    forall key | IsKey(maxs, key)
      ensures Holding(s.mem, s.owner, s.views, SlotAt(tries, maxs, key), SupportsOf(rows, maxs, key),
          SeenAt(rows, maxs, key, 0, 0, 0)) {
      assert Before(key, |maxs|, 0, 0);
      SeenAll(rows, maxs, key.p, key.q, key.r);
    }
  }
}
