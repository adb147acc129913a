// The heap with its value trail and choice points, and what each variable in it means.
module Stores {
  import opened Trail
  import opened Layout
  import opened Sets

  // A variable as the constraint solver sees it: its value cell, the set its other cells describe, and whether a bit
  // vector holds that set.
  datatype View = View(cell: Cell, described: set<int>, bits: bool)

  // The values a variable can still take.
  ghost function Domain(v: View): set<int> {
    if v.cell.Num? then {v.cell.n} else v.described
  }

  ghost function ViewOf(mem: seq<Cell>, d: nat): View
    requires d < |mem|
  {
    View(mem[d], Stale(mem, d), !IsIT(mem, d))
  }

  ghost predicate Described(mem: seq<Cell>, owner: seq<int>, views: map<nat, View>) {
    && |owner| == |mem|
    && forall d {:trigger Shape(mem, owner, d)} :: d in views ==> Shape(mem, owner, d) && views[d] == ViewOf(mem, d)
  }

  // The state a choice point was created in.
  datatype Snap = Snap(mem: seq<Cell>, owner: seq<int>, views: map<nat, View>)

  ghost predicate Ordered(choices: seq<Choice>) {
    forall j, k :: 0 <= j < k < |choices| ==>
      choices[j].heapTop <= choices[k].heapTop && choices[j].trailTop <= choices[k].trailTop
  }

  // Every choice point can get back the state it was created in.
  ghost predicate AllRecover(mem: seq<Cell>, trail: seq<Entry>, choices: seq<Choice>, snaps: seq<Snap>) {
    && |snaps| == |choices|
    && forall k :: 0 <= k < |choices| ==> Recovers(mem, trail, choices[k], snaps[k].mem)
  }

  ghost predicate SnapsDescribed(snaps: seq<Snap>) {
    forall k :: 0 <= k < |snaps| ==> Described(snaps[k].mem, snaps[k].owner, snaps[k].views)
  }

  // HB and the trail top of the newest choice point.
  function HeapTop(choices: seq<Choice>): nat {
    if choices == [] then 0 else choices[|choices| - 1].heapTop
  }

  function TrailTop(choices: seq<Choice>): nat {
    if choices == [] then 0 else choices[|choices| - 1].trailTop
  }

  class Store {
    var mem: seq<Cell>
    var hb: nat
    var trail: seq<Entry>
    var choices: seq<Choice>
    ghost var owner: seq<int>
    ghost var views: map<nat, View>
    ghost var snaps: seq<Snap>

    // What every single write keeps.
    ghost predicate Sane()
      reads this
    {
      && hb == HeapTop(choices) && Ordered(choices)
      && |owner| == |mem| && Within(trail, |mem|)
      && AllRecover(mem, trail, choices, snaps) && SnapsDescribed(snaps)
    }

    // What every operation keeps.
    ghost predicate Valid()
      reads this
    {
      Sane() && Described(mem, owner, views)
    }

    constructor ()
      ensures Valid() && views == map[] && choices == [] && snaps == [] && mem == []
    {
      mem, hb, trail, choices := [], 0, [], [];
      owner, views, snaps := [], map[], [];
    }

    // PUSHTRAILC with the cell's present content.
    method PushTrail(a: nat)
      requires Sane() && a < |mem|
      modifies this`trail
      ensures Sane() && trail == old(trail) + [Entry(a, mem[a])]
    {
      forall k | 0 <= k < |choices| ensures Recovers(mem, trail + [Entry(a, mem[a])], choices[k], snaps[k].mem) {
        RecoversPush(mem, trail, choices[k], snaps[k].mem, a);
      }
      trail := trail + [Entry(a, mem[a])];
    }

    // A cell may be overwritten when it is newer than the newest choice point or on the trail since.
    method Write(a: nat, c: Cell, ghost i: nat)
      requires Sane() && a < |mem|
      requires a >= hb || (TrailTop(choices) <= i < |trail| && trail[i].addr == a)
      modifies this`mem
      ensures Sane() && mem == old(mem)[a := c]
    {
      forall k | 0 <= k < |choices| ensures Recovers(mem[a := c], trail, choices[k], snaps[k].mem) {
        if k < |choices| - 1 {
          assert choices[k].heapTop <= choices[|choices| - 1].heapTop;
        }
        RecoversWrite(mem, trail, choices[k], snaps[k].mem, a, c, i);
      }
      mem := mem[a := c];
    }

    // The pattern of every trailed update: push the old content when the guard address is old, then write.
    method Update(a: nat, c: Cell, push: bool)
      requires Sane() && a < |mem| && (a < hb ==> push)
      modifies this`mem, this`trail
      ensures Sane() && mem == old(mem)[a := c]
      ensures trail == old(trail) + if push then [Entry(a, old(mem)[a])] else []
    {
      assert TrailTop(choices) <= |trail| by {
        if choices != [] {
          assert Recovers(mem, trail, choices[|choices| - 1], snaps[|choices| - 1].mem);
        }
      }
      if push {
        PushTrail(a);
      }
      Write(a, c, |trail| - if push then 1 else 0);
    }

    // New cells on top of the heap, all belonging to d.
    method Alloc(cells: seq<Cell>, ghost d: int)
      requires Sane()
      modifies this`mem, this`owner
      ensures Sane() && mem == old(mem) + cells
      ensures |owner| == |mem| && owner == old(owner) + seq(|cells|, i => d)
    {
      forall k | 0 <= k < |choices| ensures Recovers(mem + cells, trail, choices[k], snaps[k].mem) {
        RecoversGrow(mem, trail, choices[k], snaps[k].mem, cells);
      }
      mem := mem + cells;
      owner := owner + seq(|cells|, i => d);
    }

    // A new choice point remembers the present state.
    method PushChoice()
      requires Valid()
      modifies this`hb, this`choices, this`snaps
      ensures Valid() && choices == old(choices) + [Choice(|mem|, |trail|)]
      ensures snaps == old(snaps) + [Snap(mem, owner, views)]
    {
      ghost var c := Choice(|mem|, |trail|);
      forall k | 0 <= k < |choices| ensures choices[k].heapTop <= |mem| && choices[k].trailTop <= |trail| {
        assert Recovers(mem, trail, choices[k], snaps[k].mem);
      }
      assert trail[..|trail|] == trail && trail[|trail|..] == [] && mem[..|mem|] == mem;
      assert Recovers(mem, trail, c, mem);
      choices := choices + [Choice(|mem|, |trail|)];
      snaps := snaps + [Snap(mem, owner, views)];
      hb := |mem|;
    }

    // Pop entries down to trail top t, writing each old content back.
    method UndoTrailing(t: nat)
      requires t <= |trail| && Within(trail, |mem|)
      modifies this`mem, this`trail
      ensures trail == old(trail)[..t] && mem == Undo(old(mem), old(trail)[t..])
    {
      while |trail| > t
        invariant t <= |trail| <= |old(trail)| && trail == old(trail)[..|trail|]
        invariant |mem| == |old(mem)| && Within(trail, |mem|)
        invariant Undo(mem, trail[t..]) == Undo(old(mem), old(trail)[t..])
      {
        var e := trail[|trail| - 1];
        assert trail[t..][..|trail| - 1 - t] == trail[..|trail| - 1][t..];
        trail := trail[..|trail| - 1];
        mem := mem[e.addr := e.val];
      }
    }

    // On failure the newest choice point takes over again, in exactly the state it was created in.
    method Backtrack()
      requires Valid() && choices != []
      modifies this`mem, this`trail, this`owner, this`views
      ensures Valid()
      ensures Snap(mem, owner, views) == snaps[|snaps| - 1]
      ensures |trail| == TrailTop(choices)
    {
      var c := choices[|choices| - 1];
      ghost var n := snaps[|choices| - 1];
      assert Recovers(mem, trail, c, n.mem);
      ghost var mem', trail' := Undo(mem, trail[c.trailTop..])[..c.heapTop], trail[..c.trailTop];
      forall k | 0 <= k < |choices| ensures Recovers(mem', trail', choices[k], snaps[k].mem) {
        assert Recovers(mem, trail, choices[k], snaps[k].mem);
        if k < |choices| - 1 {
          assert choices[k].heapTop <= c.heapTop;
        }
        RecoversCut(mem, trail, choices[k], snaps[k].mem, c);
      }
      UndoTrailing(c.trailTop);
      mem := mem[..c.heapTop];
      owner, views := n.owner, n.views;
    }

    // Dropping choice points keeps the state and the trail; older choice points can still recover.
    method Cut(n: nat)
      requires Valid() && n <= |choices|
      modifies this`hb, this`choices, this`snaps
      ensures Valid() && choices == old(choices)[..n] && snaps == old(snaps)[..n]
    {
      choices, snaps := choices[..n], snaps[..n];
      hb := if n == 0 then 0 else choices[n - 1].heapTop;
    }

    // After an operation that touched only variable d, the other views still hold.
    ghost method Settle(mem0: seq<Cell>, owner0: seq<int>, d: nat)
      requires Sane() && Described(mem0, owner0, views) && OnlyOf(mem0, mem, owner0, owner, d)
      requires Shape(mem, owner, d)
      modifies this`views
      ensures Valid() && views == old(views)[d := ViewOf(mem, d)]
    {
      forall e | e in views && e != d ensures Shape(mem, owner, e) && views[e] == ViewOf(mem, e) {
        assert Shape(mem0, owner0, e);
        ShapeFrame(mem0, mem, owner0, owner, d, e);
      }
      views := views[d := ViewOf(mem, d)];
    }

    // Variables that were built outside the views join them.
    ghost method Adopt(news: map<nat, View>)
      requires Valid() && Described(mem, owner, views + news)
      modifies this`views
      ensures Valid() && views == old(views) + news
    {
      views := views + news;
    }

    // A fresh variable over from..to: an interval domain.
    method NewVar(from: int, to: int) returns (d: nat)
      requires Valid() && from < to
      modifies this`mem, this`owner, this`views
      ensures Valid() && d == |old(mem)| && d !in old(views)
      ensures views == old(views)[d := View(Ref, Range(from, to), false)]
      ensures OnlyOf(old(mem), mem, old(owner), owner, d) && IsIT(mem, d)
    {
      d := |mem|;
      forall e | e in views ensures e < d {
        assert Shape(mem, owner, e);
      }
      Alloc([Ref, Num(IT_DOMAIN), Num(0), Num(0), Num(to - from + 1), Num(from), Num(to), Num(0), Num(0), Num(0)], d);
      FreshShape(old(mem), mem, owner, d, from, to);
      Settle(old(mem), old(owner), d);
    }
  }

  lemma FreshShape(mem0: seq<Cell>, mem: seq<Cell>, owner: seq<int>, d: nat, from: int, to: int)
    requires |mem0| == d && from < to && |owner| == |mem|
    requires mem == mem0 + [Ref, Num(IT_DOMAIN), Num(0), Num(0), Num(to - from + 1), Num(from), Num(to), Num(0), Num(0),
        Num(0)]
    requires forall a :: d <= a < d + SIZE_OF_DV ==> owner[a] == d
    ensures Shape(mem, owner, d) && ViewOf(mem, d) == View(Ref, Range(from, to), false)
  {
    assert First(mem, d) == from && Last(mem, d) == to && IsIT(mem, d) && Size(mem, d) == to - from + 1;
    forall v: int ensures v in Stale(mem, d) <==> v in Range(from, to) {
      assert InRange(from, v, to) <==> InStale(mem, d, v);
    }
    assert Stale(mem, d) == Range(from, to);
    RangeSize(from, to);
  }
}
