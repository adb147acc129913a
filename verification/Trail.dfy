// The value trail: old contents of memory cells, written back in reverse on backtracking.
module Trail {

  // A memory word: an unbound variable's reference to itself, or a number.
  datatype Cell = Ref | Num(n: int)

  datatype Entry = Entry(addr: nat, val: Cell)

  // What a choice point remembers: the heap top (HB) and the trail top at its creation.
  datatype Choice = Choice(heapTop: nat, trailTop: nat)

  // The memory after popping all of t, newest entry first.
  ghost function Undo(mem: seq<Cell>, t: seq<Entry>): (m: seq<Cell>)
    ensures |m| == |mem|
    decreases |t|
  {
    if |t| == 0 then mem
    else
      var e := t[|t| - 1];
      Undo(if e.addr < |mem| then mem[e.addr := e.val] else mem, t[..|t| - 1])
  }

  // Entries for other cells do not look at cell a.
  lemma {:induction false} UndoElsewhere(mem: seq<Cell>, t: seq<Entry>, a: nat, v: Cell, b: nat)
    requires a < |mem| && b < |mem| && b != a
    ensures Undo(mem[a := v], t)[b] == Undo(mem, t)[b]
    decreases |t|
  {
    if |t| > 0 {
      var e, t' := t[|t| - 1], t[..|t| - 1];
      if e.addr < |mem| {
        if e.addr == a {
          assert mem[a := v][a := e.val] == mem[a := e.val];
        } else {
          assert mem[a := v][e.addr := e.val] == mem[e.addr := e.val][a := v];
          UndoElsewhere(mem[e.addr := e.val], t', a, v, b);
        }
      } else {
        UndoElsewhere(mem, t', a, v, b);
      }
    }
  }

  // Once a cell is on the trail, what is written to it later does not matter.
  lemma {:induction false} UndoForgets(mem: seq<Cell>, t: seq<Entry>, a: nat, v: Cell, i: nat)
    requires a < |mem| && i < |t| && t[i].addr == a
    ensures Undo(mem[a := v], t) == Undo(mem, t)
    decreases |t|
  {
    var e, t' := t[|t| - 1], t[..|t| - 1];
    if e.addr == a {
      assert mem[a := v][a := e.val] == mem[a := e.val];
    } else if e.addr < |mem| {
      assert mem[a := v][e.addr := e.val] == mem[e.addr := e.val][a := v];
      UndoForgets(mem[e.addr := e.val], t', a, v, i);
    } else {
      UndoForgets(mem, t', a, v, i);
    }
  }

  lemma {:induction false} UndoAppend(mem: seq<Cell>, s: seq<Entry>, t: seq<Entry>)
    ensures Undo(mem, s + t) == Undo(Undo(mem, t), s)
    decreases |t|
  {
    if |t| == 0 {
      assert s + t == s;
    } else {
      var e := t[|t| - 1];
      var m := if e.addr < |mem| then mem[e.addr := e.val] else mem;
      assert (s + t)[..|s + t| - 1] == s + t[..|t| - 1];
      UndoAppend(m, s, t[..|t| - 1]);
    }
  }

  ghost predicate Within(t: seq<Entry>, n: nat) {
    forall i :: 0 <= i < |t| ==> t[i].addr < n
  }

  // Cells above those the entries name can be cut off or added freely.
  lemma {:induction false} UndoCut(mem: seq<Cell>, t: seq<Entry>, n: nat)
    requires n <= |mem| && Within(t, n)
    ensures Undo(mem[..n], t) == Undo(mem, t)[..n]
    decreases |t|
  {
    if |t| > 0 {
      var e, t' := t[|t| - 1], t[..|t| - 1];
      assert e.addr < n;
      assert mem[..n][e.addr := e.val] == mem[e.addr := e.val][..n];
      assert Within(t', n);
      UndoCut(mem[e.addr := e.val], t', n);
    }
  }

  // From mem and the entries since choice point c, the cells c saw can be recovered.
  ghost predicate Recovers(mem: seq<Cell>, trail: seq<Entry>, c: Choice, saved: seq<Cell>) {
    && |saved| == c.heapTop <= |mem| && c.trailTop <= |trail|
    && Within(trail[..c.trailTop], c.heapTop)
    && Undo(mem, trail[c.trailTop..])[..c.heapTop] == saved
  }

  // A new entry with the cell's present value changes nothing.
  lemma RecoversPush(mem: seq<Cell>, trail: seq<Entry>, c: Choice, saved: seq<Cell>, a: nat)
    requires Recovers(mem, trail, c, saved) && a < |mem|
    ensures Recovers(mem, trail + [Entry(a, mem[a])], c, saved)
  {
    var t, t' := trail[c.trailTop..], trail + [Entry(a, mem[a])];
    assert t'[c.trailTop..] == t + [Entry(a, mem[a])];
    assert t'[..c.trailTop] == trail[..c.trailTop];
    assert (t + [Entry(a, mem[a])])[..|t|] == t;
    assert mem[a := mem[a]] == mem;
  }

  // A cell newer than the choice point, or already on the trail since, may be overwritten.
  lemma RecoversWrite(mem: seq<Cell>, trail: seq<Entry>, c: Choice, saved: seq<Cell>, a: nat, v: Cell, i: nat)
    requires Recovers(mem, trail, c, saved) && a < |mem|
    requires a >= c.heapTop || (c.trailTop <= i < |trail| && trail[i].addr == a)
    ensures Recovers(mem[a := v], trail, c, saved)
  {
    var t := trail[c.trailTop..];
    if a >= c.heapTop {
      forall b | 0 <= b < c.heapTop ensures Undo(mem[a := v], t)[b] == Undo(mem, t)[b] {
        UndoElsewhere(mem, t, a, v, b);
      }
      assert Undo(mem[a := v], t)[..c.heapTop] == Undo(mem, t)[..c.heapTop];
    } else {
      assert t[i - c.trailTop].addr == a;
      UndoForgets(mem, t, a, v, i - c.trailTop);
    }
  }

  // New cells do not disturb old ones.
  lemma RecoversGrow(mem: seq<Cell>, trail: seq<Entry>, c: Choice, saved: seq<Cell>, cells: seq<Cell>)
    requires Recovers(mem, trail, c, saved) && Within(trail, |mem|)
    ensures Recovers(mem + cells, trail, c, saved)
  {
    var t, m := trail[c.trailTop..], mem + cells;
    assert Within(t, |mem|);
    UndoCut(m, t, |mem|);
    assert m[..|mem|] == mem;
    assert Undo(m, t)[..c.heapTop] == Undo(m, t)[..|mem|][..c.heapTop];
  }

  lemma UndoBetween(mem: seq<Cell>, trail: seq<Entry>, i: nat, j: nat)
    requires i <= j <= |trail|
    ensures Undo(mem, trail[i..]) == Undo(Undo(mem, trail[j..]), trail[i..j])
  {
    assert trail[i..] == trail[i..j] + trail[j..];
    UndoAppend(mem, trail[i..j], trail[j..]);
  }

  lemma WithinPart(trail: seq<Entry>, i: nat, j: nat, n: nat)
    requires i <= j <= |trail| && Within(trail[..j], n)
    ensures Within(trail[i..j], n)
  {
    forall k | 0 <= k < j - i ensures trail[i..j][k].addr < n {
      assert trail[i..j][k] == trail[..j][i + k];
    }
  }

  // Going back to a newer choice point keeps the older ones recoverable.
  lemma RecoversCut(mem: seq<Cell>, trail: seq<Entry>, c: Choice, saved: seq<Cell>, n: Choice)
    requires Recovers(mem, trail, c, saved)
    requires c.trailTop <= n.trailTop <= |trail| && c.heapTop <= n.heapTop <= |mem|
    requires Within(trail[..n.trailTop], n.heapTop)
    ensures Recovers(Undo(mem, trail[n.trailTop..])[..n.heapTop], trail[..n.trailTop], c, saved)
  {
    var s, m, t' := trail[c.trailTop..n.trailTop], Undo(mem, trail[n.trailTop..]), trail[..n.trailTop];
    UndoBetween(mem, trail, c.trailTop, n.trailTop);
    WithinPart(trail, c.trailTop, n.trailTop, n.heapTop);
    UndoCut(m, s, n.heapTop);
    assert t'[c.trailTop..] == s;
    assert t'[..c.trailTop] == trail[..c.trailTop];
    SameBelow(Undo(m, s), n.heapTop, c.heapTop);
  }

  lemma SameBelow(m: seq<Cell>, n: nat, h: nat)
    requires h <= n <= |m|
    ensures m[..n][..h] == m[..h]
  {
  }
}
