// Walking through a domain from first to last while values are taken out on the way.
module Enumeration {
  import opened Trail
  import opened Layout
  import opened Stores
  import opened BitScan
  import opened Region
  import opened Holes
  import opened Domains

  // e is where the enumeration of d stands, max where it ends.
  ghost predicate StandsAt(s: Store, d: nat, e: int, max: int)
    reads s
  {
    && d in s.views && max in s.views[d].described && (forall v :: v in s.views[d].described ==> v <= max)
    && e <= max && (IsIT(s.mem, d) || e in s.views[d].described)
  }

  method Start(s: Store, d: nat) returns (e: int, max: int)
    requires s.Valid() && d in s.views
    ensures StandsAt(s, d, e, max) && e in s.views[d].described && forall v :: v in s.views[d].described ==> e <= v
  {
    assert Shape(s.mem, s.owner, d);
    StaleBounds(s.mem, s.owner, d);
    e, max := First(s.mem, d), Last(s.mem, d);
  }

  lemma Readable(s: Store, d: nat, e: int, max: int)
    requires s.Valid() && StandsAt(s, d, e, max)
    ensures NextReadable(s.mem, d, e, s.views[d].described)
  {
    assert Shape(s.mem, s.owner, d);
    if !IsIT(s.mem, d) {
      ReadableAfter(s, d, e, s.views[d].described, e);
    }
  }

  // The next member above e, or just the next value in an interval.
  method NextValue(s: Store, d: nat, e: int, max: int, ghost dom: set<int>) returns (r: int)
    requires s.Valid() && d in s.views && e < max && max in s.views[d].described
    requires forall v :: v in s.views[d].described ==> v <= max
    requires NextReadable(s.mem, d, e, dom) && forall v :: v in dom && v > e ==> v in s.views[d].described
    ensures StandsAt(s, d, r, max) && e < r && forall v :: v in dom && e < v ==> r <= v
  {
    assert Shape(s.mem, s.owner, d);
    StaleBounds(s.mem, s.owner, d);
    r := e + 1;
    if !IsIT(s.mem, d) {
      BitIsIn(s.mem, s.owner, d, max);
      WordInBlock(s.mem, s.owner, d, max);
      r := DomainNextBv(s.mem, Bv(s.mem, d), r, max);
    }
  }

  lemma BitIsIn(mem: seq<Cell>, owner: seq<int>, d: nat, v: int)
    requires Shape(mem, owner, d) && !IsIT(mem, d) && v in Stale(mem, d)
    ensures BvBit(mem, Bv(mem, d), v) && First(mem, d) <= v <= Last(mem, d)
  {
    assert InStale(mem, d, v);
  }

  // One turn of a pass that takes out the values to drop: remove e unless it is kept, and go on to the next value.
  method PassStep(s: Store, d: nat, e: int, max: int, keep: bool) returns (ok: bool, done: bool, next: int)
    requires s.Valid() && StandsAt(s, d, e, max)
    modifies s`mem, s`owner, s`trail, s`views
    ensures s.Valid() && Changed(old(s.views), s.views, d)
    ensures keep ==> ok && s.views == old(s.views)
    ensures !keep ==> Becomes(old(s.views[d]), s.views[d], Outside(Domain(old(s.views[d])), e, e), ok)
    ensures ok && done ==> e == max
    ensures s.views[d].bits <==>
      old(s.views[d]).bits || (!keep && old(s.views[d]).cell == Ref && Inner(old(s.views[d]).described, e))
    ensures ok && !done ==>
      StandsAt(s, d, next, max) && e < next && forall v :: v in old(s.views[d]).described && e < v ==> next <= v
  {
    ghost var dom := s.views[d].described;
    ok, done, next := true, true, e;
    Readable(s, d, e, max);
    if !keep {
      ok := SetFalse(s, d, e);
      if !ok {
        return;
      }
    }
    if e == max {
      return;
    }
    MaxStays(s, d, old(s.views)[d], e, max);
    next := NextValue(s, d, e, max, dom);
    done := false;
  }

  lemma MaxStays(s: Store, d: nat, v: View, e: int, max: int)
    requires s.Valid() && d in s.views && max in v.described && e != max
    requires forall u :: u in v.described ==> u <= max
    requires s.views[d].described <= v.described
    requires forall u :: u in v.described && u != e ==> u in s.views[d].described
    ensures max in s.views[d].described && forall u :: u in s.views[d].described ==> u <= max
  {
  }
}
