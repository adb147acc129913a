// Keeping two variables of a table constraint arc consistent.
module TableArcs {
  import opened Trail
  import opened Layout
  import opened Sets
  import opened Stores
  import opened BitScan
  import opened Region
  import opened Holes
  import opened Domains
  import opened DomainPairs
  import opened WordTests
  import opened Enumeration
  import opened LinearTerms
  import opened Tables

  lemma SlotShape(s: Store, slot: Slot)
    requires s.Valid() && IsSlot(s.views, slot) && slot.Dom?
    ensures Shape(s.mem, s.owner, slot.d) && Stale(s.mem, slot.d) == SlotSet(s.views, slot)
  {
    assert Shape(s.mem, s.owner, slot.d);
  }

  // b_DM_DISJOINT_cc on a variable or integer y and a support set.
  method DisjointFrom(s: Store, y: nat, slot: Slot) returns (r: bool)
    requires s.Valid() && y in s.views && IsSlot(s.views, slot) && !slot.Absent?
    ensures r <==> SlotSet(s.views, slot) !! Domain(s.views[y])
  {
    VarBounds(s, y);
    var bound := Bound(s.mem, y);
    assert Shape(s.mem, s.owner, y);
    match slot
    case Fixed(n) =>
      if bound {
        r := s.mem[y].n != n;
      } else {
        r := DmTrue(s.mem, s.owner, y, n);
        r := !r;
      }
    case Dom(d) =>
      SlotShape(s, slot);
      if bound {
        r := DmTrue(s.mem, s.owner, d, s.mem[y].n);
        r := !r;
      } else {
        r := DmDisjoint(s.mem, s.owner, y, d);
      }
  }

  // The test of exclude_ac_unsupported_from_fd on the support set of one value.
  method Unsupported(s: Store, y: nat, trie: seq<Slot>, k: int) returns (r: bool)
    requires s.Valid() && y in s.views && IsTrie(s.views, trie) && 0 <= k < |trie|
    ensures r <==> !HasSupport(s.views, trie, k, Domain(s.views[y]))
  {
    if trie[k].Absent? {
      r := true;
    } else {
      r := DisjointFrom(s, y, trie[k]);
    }
  }

  // Changing x, which is not in the trie, does not change what the trie says.
  lemma TrieFrame(v1: map<nat, View>, v2: map<nat, View>, trie: seq<Slot>, x: nat)
    requires IsTrie(v1, trie) && Apart(trie, x) && Changed(v1, v2, x)
    ensures IsTrie(v2, trie) && forall k, dy :: HasSupport(v2, trie, k, dy) <==> HasSupport(v1, trie, k, dy)
    ensures forall k :: 0 <= k < |trie| ==> SlotSet(v2, trie[k]) == SlotSet(v1, trie[k])
  {
    forall k | 0 <= k < |trie| ensures IsSlot(v2, trie[k]) && SlotSet(v2, trie[k]) == SlotSet(v1, trie[k]) {
      assert IsSlot(v1, trie[k]);
    }
  }

  // dx with the unsupported values below k gone.
  ghost function SupportedBelow(views: map<nat, View>, trie: seq<Slot>, dx: set<int>, dy: set<int>, k: int): set<int>
    requires IsTrie(views, trie)
  {
    set v | v in dx && (v < k ==> HasSupport(views, trie, v, dy))
  }

  lemma BelowStep(views: map<nat, View>, trie: seq<Slot>, dx: set<int>, dy: set<int>, k: int, next: int,
      described: set<int>)
    requires IsTrie(views, trie) && k < next && (forall v :: v in described && k < v ==> next <= v)
    requires SupportedBelow(views, trie, dx, dy, k) <= described
    ensures HasSupport(views, trie, k, dy) ==>
      SupportedBelow(views, trie, dx, dy, next) == SupportedBelow(views, trie, dx, dy, k)
    ensures !HasSupport(views, trie, k, dy) ==>
      SupportedBelow(views, trie, dx, dy, next) == Outside(SupportedBelow(views, trie, dx, dy, k), k, k)
  {
    forall v | v in dx && k < v < next ensures v !in SupportedBelow(views, trie, dx, dy, k) {
    }
  }

  lemma BelowLast(views: map<nat, View>, trie: seq<Slot>, dx: set<int>, dy: set<int>, k: int)
    requires IsTrie(views, trie) && forall v :: v in dx ==> v <= k
    ensures HasSupport(views, trie, k, dy) ==> Supported(views, trie, dx, dy) == SupportedBelow(views, trie, dx, dy, k)
    ensures !HasSupport(views, trie, k, dy) ==>
      Supported(views, trie, dx, dy) == Outside(SupportedBelow(views, trie, dx, dy, k), k, k)
  {
  }

  // The pass so far over the domain of x, standing at k.
  ghost predicate Passing(s: Store, views0: map<nat, View>, x: nat, y: nat, trie: seq<Slot>, v0: View, k: int,
      last: int)
    reads s
  {
    && s.Valid() && x in views0 && y in views0 && IsTrie(views0, trie) && Apart(trie, x) && Changed(views0, s.views, x)
    && StandsAt(s, x, k, last) && Consistent(v0)
    && (forall v :: v in Domain(v0) ==> 0 <= v <= last) && 0 <= k && last < |trie|
    && if x != y then Becomes(v0, s.views[x], SupportedBelow(views0, trie, Domain(v0), Domain(views0[y]), k), true)
       else SelfBelow(views0, trie, v0, s.views[x], k)
  }

  // What a finished pass comes to.
  ghost predicate Passed(views0: map<nat, View>, x: nat, y: nat, trie: seq<Slot>, v0: View, v: View, ok: bool)
    requires IsTrie(views0, trie) && y in views0
  {
    if x != y then Becomes(v0, v, Supported(views0, trie, Domain(v0), Domain(views0[y])), ok)
        else SelfPruned(views0, trie, v0, v, ok)
  }

  // ---- One variable at both places ----

  // k supports itself.
  ghost predicate Selfed(views: map<nat, View>, trie: seq<Slot>, k: int)
    requires IsTrie(views, trie)
  {
    0 <= k < |trie| && k in SlotSet(views, trie[k])
  }

  // What value k is checked against: the values from k on, and those left below it.
  ghost function Ahead(d: set<int>, r: set<int>, k: int): set<int> {
    set u | u in d && (u < k ==> u in r)
  }

  // Of d exactly the values stay that have a support among those that were left when their turn came.
  ghost predicate SelfKept(views: map<nat, View>, trie: seq<Slot>, d: set<int>, r: set<int>)
    requires IsTrie(views, trie)
  {
    r <= d && forall k :: k in d ==> (k in r <==> HasSupport(views, trie, k, Ahead(d, r, k)))
  }

  // The same for the values below k; the others are untouched.
  ghost predicate SelfKeptBelow(views: map<nat, View>, trie: seq<Slot>, d: set<int>, r: set<int>, k: int)
    requires IsTrie(views, trie)
  {
    r <= d && forall u :: u in d ==> (u in r <==> (u < k ==> HasSupport(views, trie, u, Ahead(d, r, u))))
  }

  // Failure means that nothing is left.
  ghost predicate SelfPruned(views: map<nat, View>, trie: seq<Slot>, v0: View, v: View, ok: bool)
    requires IsTrie(views, trie)
  {
    && SelfKept(views, trie, Between(Domain(v0), 0, |trie| - 1), if ok then Domain(v) else {})
    && (ok ==> Domain(v) != {}) && (Consistent(v0) ==> Consistent(v)) && (v0.bits ==> v.bits)
  }

  ghost predicate SelfBelow(views: map<nat, View>, trie: seq<Slot>, v0: View, v: View, k: int)
    requires IsTrie(views, trie)
  {
    && SelfKeptBelow(views, trie, Domain(v0), Domain(v), k) && Domain(v) != {}
    && (Consistent(v0) ==> Consistent(v)) && (v0.bits ==> v.bits)
  }

  // A value that supports itself stays, and what stays has a support in d.
  lemma SelfedStays(views: map<nat, View>, trie: seq<Slot>, d: set<int>, r: set<int>, k: int)
    requires IsTrie(views, trie) && SelfKept(views, trie, d, r) && k in d
    ensures Selfed(views, trie, k) ==> k in r
    ensures k in r ==> HasSupport(views, trie, k, d)
  {
    if Selfed(views, trie, k) {
      assert k in SlotSet(views, trie[k]) && k in Ahead(d, r, k);
    }
    if k in r {
      var b := Overlap(SlotSet(views, trie[k]), Ahead(d, r, k));
      assert b in d;
    }
  }

  // The values left are determined.
  lemma {:induction false} SelfKeptUnique(views: map<nat, View>, trie: seq<Slot>, d: set<int>, r1: set<int>,
      r2: set<int>, k: int)
    requires IsTrie(views, trie) && SelfKept(views, trie, d, r1) && SelfKept(views, trie, d, r2)
    ensures forall u :: u in d && 0 <= u < k ==> (u in r1 <==> u in r2)
    decreases k
  {
    if k > 0 {
      SelfKeptUnique(views, trie, d, r1, r2, k - 1);
      if k - 1 in d {
        forall u | u in d && u < 0 ensures u !in r1 && u !in r2 {
        }
        assert Ahead(d, r1, k - 1) == Ahead(d, r2, k - 1);
      }
    }
  }

  // The pass skips no value.
  lemma NoneBetween(v1: View, v2: View, k: int, next: int, ok: bool, gone: bool)
    requires Consistent(v1)
    requires if gone then Becomes(v1, v2, Outside(Domain(v1), k, k), ok) else ok && v2 == v1
    requires ok ==> forall v :: v in v1.described && k < v < next ==> v !in Domain(v2)
    ensures forall u :: u in Domain(v1) && k < u ==> next <= u
  {
    forall u | u in Domain(v1) && k < u ensures next <= u {
      assert u in Outside(Domain(v1), k, k) && u in v1.described;
    }
  }

  lemma SelfStep(views: map<nat, View>, trie: seq<Slot>, v0: View, v1: View, v2: View, k: int, next: int, ok: bool,
      gone: bool)
    requires IsTrie(views, trie) && k < next && Consistent(v0) && SelfBelow(views, trie, v0, v1, k)
    requires gone <==> !HasSupport(views, trie, k, Domain(v1))
    requires if gone then Becomes(v1, v2, Outside(Domain(v1), k, k), ok) else ok && v2 == v1
    requires ok ==> forall v :: v in v1.described && k < v < next ==> v !in Domain(v2)
    ensures ok ==> SelfBelow(views, trie, v0, v2, next)
    ensures !ok ==> SelfKept(views, trie, Domain(v0), {}) && (v0.bits ==> v2.bits)
  {
    var d, r1, r2 := Domain(v0), Domain(v1), if ok then Domain(v2) else {};
    assert Ahead(d, r1, k) == r1;
    NoneBetween(v1, v2, k, next, ok, gone);
    forall u | u in d ensures u in r2 <==> (u < next ==> HasSupport(views, trie, u, Ahead(d, r2, u))) {
      if u <= k {
        assert Ahead(d, r2, u) == Ahead(d, r1, u);
      }
    }
  }

  // ---- The pass ----

  // One value of x: taken out when it has no support, then on to the next.
  method PassValue(s: Store, ghost views0: map<nat, View>, x: nat, y: nat, trie: seq<Slot>, ghost v0: View, k: int,
      last: int)
    returns (ok: bool, done: bool, next: int)
    requires Passing(s, views0, x, y, trie, v0, k, last)
    modifies s`mem, s`owner, s`trail, s`views
    ensures s.Valid() && Changed(views0, s.views, x)
    ensures !ok || done ==> Passed(views0, x, y, trie, v0, s.views[x], ok)
    ensures ok && !done ==> k < next && Passing(s, views0, x, y, trie, v0, next, last)
  {
    ghost var v1 := s.views[x];
    TrieFrame(views0, s.views, trie, x);
    var gone := Unsupported(s, y, trie, k);
    ok, done, next := PassStep(s, x, k, last, !gone);
    ghost var k' := if ok && !done then next else last + 1;
    if x != y {
      OtherStep(views0, trie, Domain(views0[y]), v0, v1, s.views[x], k, last, k', ok, gone, done);
    } else {
      SelfStep(views0, trie, v0, v1, s.views[x], k, k', ok, gone);
    }
  }

  lemma OtherStep(views: map<nat, View>, trie: seq<Slot>, dy: set<int>, v0: View, v1: View, v2: View, k: int, last: int,
      next: int, ok: bool, gone: bool, done: bool)
    requires IsTrie(views, trie) && Consistent(v0) && k < next && (gone <==> !HasSupport(views, trie, k, dy))
    requires Becomes(v0, v1, SupportedBelow(views, trie, Domain(v0), dy, k), true)
    requires forall v :: v in Domain(v0) ==> v <= last
    requires if gone then Becomes(v1, v2, Outside(Domain(v1), k, k), ok) else ok && v2 == v1
    requires ok && done ==> k == last
    requires ok && !done ==> forall v :: v in v1.described && k < v ==> next <= v
    ensures !ok || done ==> Becomes(v0, v2, Supported(views, trie, Domain(v0), dy), ok)
    ensures ok && !done ==> Becomes(v0, v2, SupportedBelow(views, trie, Domain(v0), dy, next), true)
  {
    var dx := Domain(v0);
    var before := SupportedBelow(views, trie, dx, dy, k);
    if gone {
      LaterBecomes(v0, v1, v2, before, Outside(before, k, k), ok);
    }
    if !ok {
      NoneLeft(views, trie, dx, dy, k);
    } else if done {
      BelowLast(views, trie, dx, dy, k);
    } else {
      BelowStep(views, trie, dx, dy, k, next, v1.described);
    }
  }

  lemma NoneLeft(views: map<nat, View>, trie: seq<Slot>, dx: set<int>, dy: set<int>, k: int)
    requires IsTrie(views, trie) && !HasSupport(views, trie, k, dy)
    ensures Supported(views, trie, dx, dy) <= Outside(SupportedBelow(views, trie, dx, dy, k), k, k)
  {
  }

  // exclude_ac_unsupported_from_fd: what is left of x are its values with a support in y. When y is x itself, the
  // values are checked against what is left of x meanwhile.
  method ExcludeUnsupported(s: Store, x: nat, y: nat, trie: seq<Slot>) returns (ok: bool)
    requires s.Valid() && x in s.views && y in s.views && Consistent(s.views[x])
    requires IsTrie(s.views, trie) && Apart(trie, x)
    modifies s`mem, s`owner, s`trail, s`views
    ensures s.Valid() && Changed(old(s.views), s.views, x)
    ensures Passed(old(s.views), x, y, trie, old(s.views[x]), s.views[x], ok)
  {
    ghost var views0 := s.views;
    ok := RegionOf(s, x, 0, |trie| - 1);
    ghost var v1 := s.views[x];
    if !ok {
      CutPassed(views0, x, y, trie, v1, v1, false, false);
      return;
    }
    TrieFrame(views0, s.views, trie, x);
    VarBounds(s, x);
    if Bound(s.mem, x) {
      var gone := Unsupported(s, y, trie, s.mem[x].n);
      BoundPassed(views0, x, y, trie, v1, !gone);
      CutPassed(views0, x, y, trie, v1, v1, true, !gone);
      return !gone;
    }
    var k, last := Start(s, x);
    while true
      invariant Passing(s, views0, x, y, trie, v1, k, last)
      decreases last - k
    {
      var done, next;
      ok, done, next := PassValue(s, views0, x, y, trie, v1, k, last);
      if !ok || done {
        CutPassed(views0, x, y, trie, v1, s.views[x], true, ok);
        return;
      }
      k := next;
    }
  }

  // An integer, or a variable that the cut has bound.
  lemma BoundPassed(views0: map<nat, View>, x: nat, y: nat, trie: seq<Slot>, v1: View, ok: bool)
    requires IsTrie(views0, trie) && y in views0 && v1.cell.Num? && 0 <= v1.cell.n < |trie|
    requires ok <==> HasSupport(views0, trie, v1.cell.n, if x != y then Domain(views0[y]) else Domain(v1))
    ensures Passed(views0, x, y, trie, v1, v1, ok)
  {
    var n, dy := v1.cell.n, Domain(views0[y]);
    assert Supported(views0, trie, Domain(v1), dy) == if HasSupport(views0, trie, n, dy) then {n} else {};
    if x == y && ok {
      var b := Overlap(SlotSet(views0, trie[n]), Domain(v1));
    }
  }

  // The cut to the values of the trie takes nothing that has a support.
  lemma CutPassed(views0: map<nat, View>, x: nat, y: nat, trie: seq<Slot>, v1: View, v2: View, cutOk: bool, ok: bool)
    requires IsTrie(views0, trie) && x in views0 && y in views0
    requires Becomes(views0[x], v1, Between(Domain(views0[x]), 0, |trie| - 1), cutOk)
    requires if cutOk then Passed(views0, x, y, trie, v1, v2, ok) else v2 == v1 && !ok
    ensures Passed(views0, x, y, trie, views0[x], v2, ok)
  {
    var d, cut := Domain(views0[x]), Between(Domain(views0[x]), 0, |trie| - 1);
    forall k | k in d && Selfed(views0, trie, k) ensures k in cut {
    }
    CutSupported(views0, trie, d, Domain(views0[y]));
    if x != y && cutOk {
      LaterBecomes(views0[x], v1, v2, cut, Supported(views0, trie, cut, Domain(views0[y])), ok);
    }
  }

  lemma CutSupported(views: map<nat, View>, trie: seq<Slot>, dx: set<int>, dy: set<int>)
    requires IsTrie(views, trie)
    ensures Supported(views, trie, Between(dx, 0, |trie| - 1), dy) == Supported(views, trie, dx, dy)
  {
  }

  // varorint_domain_region
  method RegionOf(s: Store, x: nat, from: int, to: int) returns (ok: bool)
    requires s.Valid() && x in s.views
    modifies s`mem, s`owner, s`trail, s`views
    ensures s.Valid() && Changed(old(s.views), s.views, x)
    ensures Becomes(old(s.views[x]), s.views[x], Between(Domain(old(s.views[x])), from, to), ok)
  {
    VarBounds(s, x);
    if Bound(s.mem, x) {
      ok := from <= s.mem[x].n <= to;
      assert ok ==> s.mem[x].n in Between(Domain(s.views[x]), from, to);
    } else {
      ok := Restrict(s, x, from, to);
    }
  }

  // b_CFD_INS: x was bound to val; y keeps the supports of val.
  method Instantiated(s: Store, val: int, y: nat, trie: seq<Slot>) returns (ok: bool)
    requires s.Valid() && y in s.views && IsTrie(s.views, trie) && Apart(trie, y) && 0 <= val < |trie|
    requires !trie[val].Absent?
    modifies s`mem, s`owner, s`trail, s`views
    ensures s.Valid() && Changed(old(s.views), s.views, y)
    ensures Becomes(old(s.views[y]), s.views[y], Domain(old(s.views[y])) * SlotSet(old(s.views), trie[val]), ok)
  {
    VarBounds(s, y);
    ghost var d, sup := Domain(s.views[y]), SlotSet(s.views, trie[val]);
    assert IsSlot(s.views, trie[val]);
    if Bound(s.mem, y) {
      if trie[val].Fixed? {
        ok := s.mem[y].n == trie[val].n;
      } else {
        SlotShape(s, trie[val]);
        ok := DmTrue(s.mem, s.owner, trie[val].d, s.mem[y].n);
      }
      assert d * sup == if ok then {s.mem[y].n} else {};
    } else if trie[val].Fixed? {
      assert Shape(s.mem, s.owner, y);
      var n := trie[val].n;
      ok := DmTrue(s.mem, s.owner, y, n);
      assert d * sup == if ok then {n} else {};
      if ok {
        Assign(s, y, n);
      }
    } else {
      ok := DmIntersect(s, y, trie[val].d);
    }
  }

  // ---- A value leaves x ----

  // The values of dy whose support by ex is not missed.
  ghost function Left(views: map<nat, View>, txy: seq<Slot>, tyx: seq<Slot>, ex: int, dy: set<int>,
      dx: set<int>): set<int>
    requires IsTrie(views, txy) && IsTrie(views, tyx) && 0 <= ex < |txy|
  {
    set b | b in dy && (b in SlotSet(views, txy[ex]) ==> HasSupport(views, tyx, b, dx))
  }

  // The same for the values below k only; sx are the supports of ex.
  ghost function LeftBelow(views: map<nat, View>, sx: set<int>, tyx: seq<Slot>, dy: set<int>, dx: set<int>,
      k: int): set<int>
    requires IsTrie(views, tyx)
  {
    set b | b in dy && (b in sx && b < k ==> HasSupport(views, tyx, b, dx))
  }

  lemma LeftStep(views: map<nat, View>, sx: set<int>, tyx: seq<Slot>, dy: set<int>, dx: set<int>, k: int)
    requires IsTrie(views, tyx) && k in sx
    ensures HasSupport(views, tyx, k, dx) ==>
      LeftBelow(views, sx, tyx, dy, dx, k + 1) == LeftBelow(views, sx, tyx, dy, dx, k)
    ensures k !in LeftBelow(views, sx, tyx, dy, dx, k) ==>
      LeftBelow(views, sx, tyx, dy, dx, k + 1) == LeftBelow(views, sx, tyx, dy, dx, k)
    ensures !HasSupport(views, tyx, k, dx) ==>
        LeftBelow(views, sx, tyx, dy, dx, k + 1) == Outside(LeftBelow(views, sx, tyx, dy, dx, k), k, k)
  {
  }

  lemma LeftSkip(views: map<nat, View>, sx: set<int>, tyx: seq<Slot>, dy: set<int>, dx: set<int>, k: int, next: int)
    requires IsTrie(views, tyx) && k < next && forall v :: k < v < next ==> v !in sx
    ensures LeftBelow(views, sx, tyx, dy, dx, next) == LeftBelow(views, sx, tyx, dy, dx, k + 1)
  {
  }

  // An exclusion is pending for x and y: all that is fixed while it is handled.
  ghost predicate Pending(s: Store, views0: map<nat, View>, x: nat, y: nat, tyx: seq<Slot>)
    reads s
  {
    && s.Valid() && x in views0 && y in views0 && x != y && IsTrie(views0, tyx) && Apart(tyx, y)
    && views0[x].cell == Ref && Changed(views0, s.views, y) && Consistent(views0[y])
  }

  // One support b of the excluded value: y loses it when x supports it no more.
  method Recheck(s: Store, ghost views0: map<nat, View>, x: nat, y: nat, tyx: seq<Slot>, b: int, ghost sx: set<int>)
    returns (ok: bool)
    requires Pending(s, views0, x, y, tyx) && 0 <= b < |tyx| && !tyx[b].Absent?
    requires b in sx
    requires Becomes(views0[y], s.views[y], LeftBelow(views0, sx, tyx, Domain(views0[y]), Domain(views0[x]), b), true)
    modifies s`mem, s`owner, s`trail, s`views
    ensures s.Valid() && Changed(views0, s.views, y)
    ensures Becomes(views0[y], s.views[y], LeftBelow(views0, sx, tyx, Domain(views0[y]), Domain(views0[x]), b + 1), ok)
  {
    ghost var dy, dx := Domain(views0[y]), Domain(views0[x]);
    ghost var before := LeftBelow(views0, sx, tyx, dy, dx, b);
    LeftStep(views0, sx, tyx, dy, dx, b);
    TrieFrame(views0, s.views, tyx, y);
    assert Shape(s.mem, s.owner, y);
    var isIn := DmTrue(s.mem, s.owner, y, b);
    ok := true;
    if isIn {
      assert IsSlot(s.views, tyx[b]);
      var gone := DisjointFrom(s, x, tyx[b]);
      if gone {
        ok := SetFalse(s, y, b);
        LaterBecomes(views0[y], old(s.views[y]), s.views[y], before, Outside(before, b, b), ok);
      }
    }
  }

  lemma MateSlot(views: map<nat, View>, txy: seq<Slot>, tyx: seq<Slot>, ex: int, b: int)
    requires IsTrie(views, txy) && IsTrie(views, tyx) && Mates(views, txy, tyx) && 0 <= ex < |txy|
    requires b in SlotSet(views, txy[ex])
    ensures 0 <= b < |tyx| && !tyx[b].Absent?
  {
    assert Stored(views, txy, ex, b);
  }

  // b_CFD_DOM: ex has left x, which is not bound; y loses what only ex supported.
  method Excluded(s: Store, x: nat, ex: int, y: nat, txy: seq<Slot>, tyx: seq<Slot>) returns (ok: bool)
    requires s.Valid() && x in s.views && y in s.views && x != y && Consistent(s.views[y])
    requires IsTrie(s.views, txy) && IsTrie(s.views, tyx) && Mates(s.views, txy, tyx) && Apart(txy, y) && Apart(tyx, y)
    requires 0 <= ex < |txy| && !txy[ex].Absent?
    modifies s`mem, s`owner, s`trail, s`views
    ensures s.Valid() && Changed(old(s.views), s.views, y)
    ensures old(s.views[x]).cell.Num? || old(s.views[y]).cell.Num? ==> ok && s.views == old(s.views)
    ensures var v := old(s.views);
      !v[x].cell.Num? && !v[y].cell.Num? ==>
          Becomes(v[y], s.views[y], Left(v, txy, tyx, ex, Domain(v[y]), Domain(v[x])), ok)
  {
    ghost var views0 := s.views;
    VarBounds(s, x);
    VarBounds(s, y);
    if Bound(s.mem, x) || Bound(s.mem, y) {
      return true;
    }
    assert Shape(s.mem, s.owner, x) && Shape(s.mem, s.owner, y) && IsSlot(views0, txy[ex]);
    ghost var sx, dy, dx := SlotSet(views0, txy[ex]), Domain(views0[y]), Domain(views0[x]);
    var b, last := SlotBounds(s, txy[ex]);
    FirstLeft(views0, sx, tyx, dy, dx, b, last);
    DomainNotEmpty(s, y);
    assert Left(views0, txy, tyx, ex, dy, dx) == LeftBelow(views0, sx, tyx, dy, dx, last + 1);
    ok := RecheckAll(s, views0, x, y, txy, tyx, ex, b, last, sx);
  }

  // The supports of the excluded value, one after the other.
  method RecheckAll(s: Store, ghost views0: map<nat, View>, x: nat, y: nat, txy: seq<Slot>, tyx: seq<Slot>, ex: int,
      b0: int, last: int, ghost sx: set<int>)
    returns (ok: bool)
    requires Pending(s, views0, x, y, tyx) && IsTrie(views0, txy) && Mates(views0, txy, tyx) && Apart(txy, y)
    requires 0 <= ex < |txy| && sx == SlotSet(views0, txy[ex]) && Bounds(sx, b0, last)
    requires Becomes(views0[y], s.views[y], LeftBelow(views0, sx, tyx, Domain(views0[y]), Domain(views0[x]), b0), true)
    modifies s`mem, s`owner, s`trail, s`views
    ensures s.Valid() && Changed(views0, s.views, y)
    ensures Becomes(views0[y], s.views[y],
      LeftBelow(views0, sx, tyx, Domain(views0[y]), Domain(views0[x]), last + 1), ok)
  {
    ghost var dy, dx := Domain(views0[y]), Domain(views0[x]);
    var b := b0;
    while true
      invariant Pending(s, views0, x, y, tyx) && b in sx && b <= last
      invariant Becomes(views0[y], s.views[y], LeftBelow(views0, sx, tyx, dy, dx, b), true)
      decreases last - b
    {
      MateSlot(views0, txy, tyx, ex, b);
      ok := Recheck(s, views0, x, y, tyx, b, sx);
      if !ok {
        assert LeftBelow(views0, sx, tyx, dy, dx, last + 1) <= LeftBelow(views0, sx, tyx, dy, dx, b + 1);
        return;
      }
      if b == last {
        return;
      }
      TrieFrame(views0, s.views, txy, y);
      ghost var was := b;
      b := NextInSlot(s, txy[ex], b, last);
      LeftSkip(views0, sx, tyx, dy, dx, was, b);
    }
  }

  // The bounds of a stored support set.
  method SlotBounds(s: Store, slot: Slot) returns (b: int, last: int)
    requires s.Valid() && IsSlot(s.views, slot) && !slot.Absent?
    ensures Bounds(SlotSet(s.views, slot), b, last)
  {
    match slot {
      case Fixed(n) =>
        b, last := n, n;
      case Dom(d) =>
        SlotShape(s, slot);
        StaleBounds(s.mem, s.owner, d);
        b, last := First(s.mem, d), Last(s.mem, d);
    }
  }

  // The next member after b.
  method NextInSlot(s: Store, slot: Slot, b: int, ghost last: int) returns (next: int)
    requires s.Valid() && IsSlot(s.views, slot) && slot.Dom? && b < last
    requires b in SlotSet(s.views, slot) && last in SlotSet(s.views, slot)
    ensures b < next && next in SlotSet(s.views, slot) && forall v :: b < v < next ==> v !in SlotSet(s.views, slot)
  {
    SlotShape(s, slot);
    StaleBounds(s.mem, s.owner, slot.d);
    next := StepIn(s.mem, s.owner, slot.d, b, Last(s.mem, slot.d));
  }

  lemma FirstLeft(views: map<nat, View>, sx: set<int>, tyx: seq<Slot>, dy: set<int>, dx: set<int>, b: int, last: int)
    requires IsTrie(views, tyx) && Bounds(sx, b, last)
    ensures LeftBelow(views, sx, tyx, dy, dx, b) == dy
    ensures LeftBelow(views, sx, tyx, dy, dx, last + 1) ==
        set v | v in dy && (v in sx ==> HasSupport(views, tyx, v, dx))
  {
  }

  // While values in owed have left x without y being told, y is arc consistent with them added. Handling ex settles ex.
  lemma ExclusionPaid(views: map<nat, View>, txy: seq<Slot>, tyx: seq<Slot>, ex: int, dy: set<int>, dx: set<int>,
      owed: set<int>)
    requires IsTrie(views, txy) && IsTrie(views, tyx) && Mates(views, txy, tyx) && 0 <= ex < |txy|
    requires ArcConsistent(views, tyx, dy, dx + owed)
    ensures ArcConsistent(views, tyx, Left(views, txy, tyx, ex, dy, dx), dx + (owed - {ex}))
  {
    forall b | b in Left(views, txy, tyx, ex, dy, dx) ensures HasSupport(views, tyx, b, dx + (owed - {ex})) {
      assert HasSupport(views, tyx, b, dx + owed);
      var a := Overlap(SlotSet(views, tyx[b]), dx + owed);
      if a == ex {
        assert Stored(views, tyx, b, a);
      }
    }
  }

  // With nothing else owed, exactly the supported values of y stay.
  lemma LastExclusion(views: map<nat, View>, txy: seq<Slot>, tyx: seq<Slot>, ex: int, dy: set<int>, dx: set<int>)
    requires IsTrie(views, txy) && IsTrie(views, tyx) && Mates(views, txy, tyx) && 0 <= ex < |txy|
    requires ArcConsistent(views, tyx, dy, dx + {ex})
    ensures Left(views, txy, tyx, ex, dy, dx) == Supported(views, tyx, dy, dx)
    ensures ArcConsistent(views, tyx, Supported(views, tyx, dy, dx), dx)
  {
    ExclusionPaid(views, txy, tyx, ex, dy, dx, {ex});
    assert dx + ({ex} - {ex}) == dx;
  }

  // After x was bound to val, y and x are arc consistent both ways.
  lemma InstantiatedArc(views: map<nat, View>, txy: seq<Slot>, tyx: seq<Slot>, val: int, dy: set<int>)
    requires IsTrie(views, txy) && IsTrie(views, tyx) && Mates(views, txy, tyx) && 0 <= val < |txy|
    ensures dy * SlotSet(views, txy[val]) == Supported(views, tyx, dy, {val})
    ensures ArcConsistent(views, txy, {val}, dy * SlotSet(views, txy[val])) <==> dy * SlotSet(views, txy[val]) != {}
  {
    var r := dy * SlotSet(views, txy[val]);
    forall b ensures b in SlotSet(views, txy[val]) <==> HasSupport(views, tyx, b, {val}) {
      assert Stored(views, txy, val, b) <==> Stored(views, tyx, b, val);
    }
    if r != {} {
      var b := SomeMember(r);
      assert b in SlotSet(views, txy[val]) && b in r;
    }
  }
}
