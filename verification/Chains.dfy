// Doubly linked chains of clause cells in memory, and the clause lists they stand for.
module Chains {

  // A list cell: the clause it wraps, the next cell and the previous one.
  datatype Cell = Cell(clause: nat, next: int, prev: int)

  // A chain header: first and last cell.
  datatype Bucket = Bucket(list: int, tail: int)

  // nil_sym and NULL
  const NIL: int := -1

  // The cells ch, in this order, form the doubly linked chain of b.
  ghost predicate Linked(cells: seq<Cell>, ch: seq<nat>, b: Bucket) {
    && (forall i :: 0 <= i < |ch| ==> ch[i] < |cells|)
    && (forall i, j :: 0 <= i < j < |ch| ==> ch[i] != ch[j])
    && b == Ends(ch)
    && (forall i :: 0 <= i < |ch| ==> cells[ch[i]].next == After(ch, i) && cells[ch[i]].prev == Before(ch, i))
  }

  ghost function Ends(ch: seq<nat>): Bucket {
    if ch == [] then Bucket(NIL, NIL) else Bucket(ch[0], ch[|ch| - 1])
  }

  ghost function After(ch: seq<nat>, i: int): int {
    if 0 <= i && i + 1 < |ch| then ch[i + 1] else NIL
  }

  ghost function Before(ch: seq<nat>, i: int): int {
    if 0 < i <= |ch| then ch[i - 1] else NIL
  }

  ghost function ClauseAt(cells: seq<Cell>, a: nat): nat {
    if a < |cells| then cells[a].clause else 0
  }

  // The clauses on a chain.
  ghost function ClausesOf(cells: seq<Cell>, ch: seq<nat>): (s: seq<nat>)
    ensures |s| == |ch|
  {
    seq(|ch|, i requires 0 <= i < |ch| => ClauseAt(cells, ch[i]))
  }

  lemma ClausesAre(cells: seq<Cell>, ch: seq<nat>, s: seq<nat>)
    requires |s| == |ch| && forall i :: 0 <= i < |ch| ==> ClauseAt(cells, ch[i]) == s[i]
    ensures ClausesOf(cells, ch) == s
  {
  }

  // All cells of ch belong to chain j.
  ghost predicate Owned(owner: seq<int>, ch: seq<nat>, j: int) {
    forall i :: 0 <= i < |ch| ==> ch[i] < |owner| && owner[ch[i]] == j
  }

  // Chains whose cells did not change are as before.
  lemma SameChain(cells: seq<Cell>, cells': seq<Cell>, ch: seq<nat>, b: Bucket)
    requires Linked(cells, ch, b) && |cells| <= |cells'|
    requires forall i :: 0 <= i < |ch| ==> cells'[ch[i]] == cells[ch[i]]
    ensures Linked(cells', ch, b) && ClausesOf(cells', ch) == ClausesOf(cells, ch)
  {
  }

  // A new cell at the end.
  ghost predicate Appended(cells: seq<Cell>, cells': seq<Cell>, ch: seq<nat>, c: nat) {
    && |cells'| == |cells| + 1 && cells'[|cells|] == Cell(c, NIL, Ends(ch).tail)
    && forall a :: 0 <= a < |cells| ==> cells'[a] == if a == Ends(ch).tail then cells[a].(next := |cells|) else cells[a]
  }

  lemma AtEnd(ch: seq<nat>, p: nat, i: int)
    requires 0 <= i <= |ch|
    ensures (ch + [p])[i] == if i == |ch| then p else ch[i]
    ensures After(ch + [p], i) == if i == |ch| then NIL else if i == |ch| - 1 then p else After(ch, i)
    ensures Before(ch + [p], i) == if i == |ch| then Ends(ch).tail else Before(ch, i)
  {
  }

  lemma AppendLinked(cells: seq<Cell>, cells': seq<Cell>, ch: seq<nat>, b: Bucket, c: nat)
    requires Linked(cells, ch, b) && Appended(cells, cells', ch, c)
    ensures Linked(cells', ch + [|cells|], Bucket(if ch == [] then |cells| else b.list, |cells|))
    ensures ClausesOf(cells', ch + [|cells|]) == ClausesOf(cells, ch) + [c]
  {
    var p := |cells|;
    var ch', s := ch + [p], ClausesOf(cells, ch) + [c];
    forall i | 0 <= i < |ch'|
      ensures ch'[i] < |cells'| && cells'[ch'[i]].next == After(ch', i) && cells'[ch'[i]].prev == Before(ch', i)
      ensures ClauseAt(cells', ch'[i]) == s[i] {
      AtEnd(ch, p, i);
      assert 0 <= i < |ch| - 1 ==> ch[i] != ch[|ch| - 1];
    }
    forall i, k | 0 <= i < k < |ch'| ensures ch'[i] != ch'[k] {
      AtEnd(ch, p, i);
      AtEnd(ch, p, k);
    }
    ClausesAre(cells', ch', s);
  }

  // The address at position i of a chain with p in front.
  lemma InFront(p: nat, ch: seq<nat>, i: int)
    requires 0 <= i <= |ch|
    ensures ([p] + ch)[i] == if i == 0 then p else ch[i - 1]
    ensures After([p] + ch, i) == if i == 0 then Ends(ch).list else After(ch, i - 1)
    ensures Before([p] + ch, i) == if i == 0 then NIL else if i == 1 then p else Before(ch, i - 1)
  {
  }

  // A new cell in front.
  ghost predicate Prepended(cells: seq<Cell>, cells': seq<Cell>, ch: seq<nat>, c: nat) {
    && |cells'| == |cells| + 1 && cells'[|cells|] == Cell(c, Ends(ch).list, NIL)
    && forall a :: 0 <= a < |cells| ==> cells'[a] == if a == Ends(ch).list then cells[a].(prev := |cells|) else cells[a]
  }

  lemma PrependLinked(cells: seq<Cell>, cells': seq<Cell>, ch: seq<nat>, b: Bucket, c: nat)
    requires Linked(cells, ch, b) && Prepended(cells, cells', ch, c)
    ensures Linked(cells', [|cells|] + ch, Bucket(|cells|, if ch == [] then |cells| else b.tail))
    ensures ClausesOf(cells', [|cells|] + ch) == [c] + ClausesOf(cells, ch)
  {
    var p := |cells|;
    var ch', s := [p] + ch, [c] + ClausesOf(cells, ch);
    forall i | 0 <= i < |ch'|
      ensures ch'[i] < |cells'| && cells'[ch'[i]].next == After(ch', i) && cells'[ch'[i]].prev == Before(ch', i)
      ensures ClauseAt(cells', ch'[i]) == s[i] {
      InFront(p, ch, i);
      assert 1 < i < |ch| + 1 ==> ch[i - 1] != ch[0];
    }
    forall i, k | 0 <= i < k < |ch'| ensures ch'[i] != ch'[k] {
      InFront(p, ch, i);
      InFront(p, ch, k);
    }
    ClausesAre(cells', ch', s);
  }

  function Without<T>(s: seq<T>, i: int): seq<T>
    requires 0 <= i < |s|
  {
    s[..i] + s[i + 1..]
  }

  lemma WithoutAt<T>(s: seq<T>, i: int, k: int)
    requires 0 <= i < |s| && 0 <= k < |s| - 1
    ensures Without(s, i)[k] == s[if k < i then k else k + 1]
  {
  }

  lemma WithoutLinks(ch: seq<nat>, i: int, k: int)
    requires 0 <= i < |ch| && 0 <= k < |ch| - 1
    ensures Without(ch, i)[k] == ch[if k < i then k else k + 1]
    ensures After(Without(ch, i), k) == if k == i - 1 then After(ch, i) else After(ch, if k < i then k else k + 1)
    ensures Before(Without(ch, i), k) == if k == i then Before(ch, i) else Before(ch, if k < i then k else k + 1)
  {
  }

  // cells' is cells with the neighbours of the i-th cell joined.
  ghost predicate Joined(cells: seq<Cell>, cells': seq<Cell>, ch: seq<nat>, i: int)
    requires 0 <= i < |ch| && forall k :: 0 <= k < |ch| ==> ch[k] < |cells|
  {
    && |cells'| == |cells|
    && (forall k :: 0 <= k < |ch| && k != i - 1 && k != i && k != i + 1 ==> cells'[ch[k]] == cells[ch[k]])
    && (i > 0 ==> cells'[ch[i - 1]] == cells[ch[i - 1]].(next := After(ch, i)))
    && (i + 1 < |ch| ==> cells'[ch[i + 1]] == cells[ch[i + 1]].(prev := Before(ch, i)))
  }

  // Taking out the i-th cell.
  lemma RemoveLinked(cells: seq<Cell>, cells': seq<Cell>, ch: seq<nat>, b: Bucket, i: int)
    requires Linked(cells, ch, b) && 0 <= i < |ch| && Joined(cells, cells', ch, i)
    ensures Linked(cells', Without(ch, i), Ends(Without(ch, i)))
  {
    var ch' := Without(ch, i);
    forall k | 0 <= k < |ch'| ensures cells'[ch'[k]].next == After(ch', k) && cells'[ch'[k]].prev == Before(ch', k) {
      WithoutLinks(ch, i, k);
      JoinedAt(cells, cells', ch, b, i, k);
    }
    forall k, l | 0 <= k < l < |ch'| ensures ch'[k] != ch'[l] {
      WithoutLinks(ch, i, k);
      WithoutLinks(ch, i, l);
    }
    forall k | 0 <= k < |ch'| ensures ch'[k] < |cells'| {
      WithoutLinks(ch, i, k);
    }
  }

  lemma JoinedAt(cells: seq<Cell>, cells': seq<Cell>, ch: seq<nat>, b: Bucket, i: int, k: int)
    requires Linked(cells, ch, b) && 0 <= i < |ch| && Joined(cells, cells', ch, i) && 0 <= k < |ch| - 1
    ensures var o := if k < i then k else k + 1;
      && cells'[ch[o]].next == (if k == i - 1 then After(ch, i) else After(ch, o))
      && cells'[ch[o]].prev == (if k == i then Before(ch, i) else Before(ch, o))
      && cells'[ch[o]].clause == cells[ch[o]].clause
  {
  }

  lemma RemoveClauses(cells: seq<Cell>, cells': seq<Cell>, ch: seq<nat>, b: Bucket, i: int)
    requires Linked(cells, ch, b) && 0 <= i < |ch| && Joined(cells, cells', ch, i)
    ensures ClausesOf(cells', Without(ch, i)) == Without(ClausesOf(cells, ch), i)
  {
    var l := ClausesOf(cells, ch);
    var ch', s := Without(ch, i), Without(l, i);
    forall k | 0 <= k < |ch'| ensures ClauseAt(cells', ch'[k]) == s[k] {
      WithoutAt(ch, i, k);
      WithoutAt(l, i, k);
      JoinedAt(cells, cells', ch, b, i, k);
    }
    ClausesAre(cells', ch', s);
  }

  // ---- Clause lists ----

  // A clause belongs to bucket j when its head does not discriminate or hashes there.
  predicate Belongs(hash: int, j: int, size: nat)
    requires size > 0
  {
    hash == 0 || hash % size == j
  }

  ghost function HashOf(heads: seq<nat>, c: nat): int {
    if c < |heads| then heads[c] else 0
  }

  // The clauses of s that belong to bucket j, in order.
  ghost function Sub(heads: seq<nat>, s: seq<nat>, j: int, size: nat): (r: seq<nat>)
    requires size > 0
    decreases |s|
  {
    if s == [] then []
    else
      var rest := Sub(heads, s[..|s| - 1], j, size);
      if Belongs(HashOf(heads, s[|s| - 1]), j, size) then rest + [s[|s| - 1]] else rest
  }

  lemma {:induction false} SubConcat(heads: seq<nat>, s: seq<nat>, t: seq<nat>, j: int, size: nat)
    requires size > 0
    ensures Sub(heads, s + t, j, size) == Sub(heads, s, j, size) + Sub(heads, t, j, size)
    decreases |t|
  {
    if t == [] {
      assert s + t == s;
    } else {
      assert (s + t)[..|s + t| - 1] == s + t[..|t| - 1];
      SubConcat(heads, s, t[..|t| - 1], j, size);
    }
  }

  lemma SubOne(heads: seq<nat>, c: nat, j: int, size: nat)
    requires size > 0
    ensures Sub(heads, [c], j, size) == if Belongs(HashOf(heads, c), j, size) then [c] else []
  {
    assert [c][..0] == [];
  }

  lemma SubSnoc(heads: seq<nat>, all: seq<nat>, p: nat, size: nat)
    requires size > 0 && p < |all|
    ensures forall k :: 0 <= k < size ==>
      Sub(heads, all[..p + 1], k, size) == Sub(heads, all[..p], k, size) + if Belongs(HashOf(heads, all[p]), k, size)
          then [all[p]] else []
  {
    assert all[..p + 1][..p] == all[..p];
  }

  // A new clause's head does not change where the others belong.
  lemma {:induction false} SubNewHead(heads: seq<nat>, h: nat, s: seq<nat>, j: int, size: nat)
    requires size > 0 && forall i :: 0 <= i < |s| ==> s[i] < |heads|
    ensures Sub(heads + [h], s, j, size) == Sub(heads, s, j, size)
    decreases |s|
  {
    if s != [] {
      SubNewHead(heads, h, s[..|s| - 1], j, size);
    }
  }

  // s without clause c.
  ghost function Minus(s: seq<nat>, c: nat): (r: seq<nat>)
    decreases |s|
  {
    if s == [] then []
    else if s[|s| - 1] == c then Minus(s[..|s| - 1], c) else Minus(s[..|s| - 1], c) + [s[|s| - 1]]
  }

  lemma {:induction false} MinusAbsent(s: seq<nat>, c: nat)
    requires c !in s
    ensures Minus(s, c) == s
    decreases |s|
  {
    if s != [] {
      assert s[|s| - 1] != c;
      MinusAbsent(s[..|s| - 1], c);
    }
  }

  // Taking out the only occurrence.
  lemma {:induction false} MinusAt(s: seq<nat>, i: int)
    requires 0 <= i < |s| && forall k :: 0 <= k < |s| && k != i ==> s[k] != s[i]
    ensures Minus(s, s[i]) == Without(s, i)
    decreases |s|
  {
    var m := |s| - 1;
    if i == m {
      assert s[i] !in s[..m];
      MinusAbsent(s[..m], s[i]);
    } else {
      MinusAt(s[..m], i);
      assert Without(s, i) == Without(s[..m], i) + [s[m]];
    }
  }

  lemma {:induction false} SubMinus(heads: seq<nat>, s: seq<nat>, c: nat, j: int, size: nat)
    requires size > 0
    ensures Sub(heads, Minus(s, c), j, size) == Minus(Sub(heads, s, j, size), c)
    decreases |s|
  {
    if s != [] {
      var m := |s| - 1;
      SubMinus(heads, s[..m], c, j, size);
      if s[m] != c {
        SubConcat(heads, Minus(s[..m], c), [s[m]], j, size);
        SubOne(heads, s[m], j, size);
        if Belongs(HashOf(heads, s[m]), j, size) {
          var t := Sub(heads, s[..m], j, size) + [s[m]];
          assert t[..|t| - 1] == Sub(heads, s[..m], j, size);
        }
      } else if Belongs(HashOf(heads, s[m]), j, size) {
        var t := Sub(heads, s[..m], j, size) + [s[m]];
        assert t[..|t| - 1] == Sub(heads, s[..m], j, size);
      }
    }
  }

  // Only clauses of s that belong are in the sub-list.
  lemma {:induction false} SubMembers(heads: seq<nat>, s: seq<nat>, j: int, size: nat, c: nat)
    requires size > 0
    ensures c in Sub(heads, s, j, size) <==> c in s && Belongs(HashOf(heads, c), j, size)
    decreases |s|
  {
    if s != [] {
      var m := |s| - 1;
      SubMembers(heads, s[..m], j, size, c);
      assert s == s[..m] + [s[m]];
    }
  }

  // No clause occurs twice.
  ghost predicate NoRepeats(s: seq<nat>) {
    forall i, k :: 0 <= i < k < |s| ==> s[i] != s[k]
  }

  lemma MinusOnly(s: seq<nat>, i: int)
    requires NoRepeats(s) && 0 <= i < |s|
    ensures Minus(s, s[i]) == Without(s, i)
  {
    forall k | 0 <= k < |s| && k != i ensures s[k] != s[i] {
      assert k < i || i < k;
    }
    MinusAt(s, i);
  }

  lemma {:induction false} SubNoRepeats(heads: seq<nat>, s: seq<nat>, j: int, size: nat)
    requires size > 0 && NoRepeats(s)
    ensures NoRepeats(Sub(heads, s, j, size))
    decreases |s|
  {
    if s != [] {
      var m := |s| - 1;
      SubNoRepeats(heads, s[..m], j, size);
      SubMembers(heads, s[..m], j, size, s[m]);
      assert s[m] !in s[..m];
    }
  }

  // ---- Keyed access ----

  // Could a clause with this hash match a goal whose first argument hashes to key?
  predicate MayMatch(hash: int, key: int) {
    key == 0 || hash == 0 || hash == key
  }

  // The clauses of s that may match, in order.
  ghost function Matching(heads: seq<nat>, s: seq<nat>, key: int): (r: seq<nat>)
    decreases |s|
  {
    if s == [] then []
    else
      var rest := Matching(heads, s[..|s| - 1], key);
      if MayMatch(HashOf(heads, s[|s| - 1]), key) then rest + [s[|s| - 1]] else rest
  }

  // The bucket of a key holds every clause that may match it, in the order of the whole list.
  lemma {:induction false} BucketSuffices(heads: seq<nat>, s: seq<nat>, key: nat, size: nat)
    requires size > 0 && key != 0
    ensures Matching(heads, Sub(heads, s, key % size, size), key) == Matching(heads, s, key)
    decreases |s|
  {
    if s != [] {
      var m := |s| - 1;
      BucketSuffices(heads, s[..m], key, size);
      var rest := Sub(heads, s[..m], key % size, size);
      assert (rest + [s[m]])[..|rest|] == rest;
    }
  }

  // ---- Records ----

  // death of a clause that has not been stamped dead
  const ALIVE: int := 0xFFFFFFFFFFFFFF

  // A clause record without its head: its cell on the all-clauses chain and its time stamps.
  datatype Record = Record(ref: int, birth: int, death: int)

  ghost predicate Lives(records: seq<Record>, c: nat) {
    c < |records| && records[c].death == ALIVE
  }

  // How many clauses of s are not stamped dead.
  ghost function LiveCount(records: seq<Record>, s: seq<nat>): int
    decreases |s|
  {
    if s == [] then 0 else LiveCount(records, s[..|s| - 1]) + if Lives(records, s[|s| - 1]) then 1 else 0
  }

  lemma {:induction false} LiveSame(records: seq<Record>, records': seq<Record>, s: seq<nat>)
    requires forall i :: 0 <= i < |s| ==> Lives(records', s[i]) == Lives(records, s[i])
    ensures LiveCount(records', s) == LiveCount(records, s)
    decreases |s|
  {
    if s != [] {
      LiveSame(records, records', s[..|s| - 1]);
    }
  }

  lemma {:induction false} LiveConcat(records: seq<Record>, s: seq<nat>, t: seq<nat>)
    ensures LiveCount(records, s + t) == LiveCount(records, s) + LiveCount(records, t)
    decreases |t|
  {
    if t == [] {
      assert s + t == s;
    } else {
      assert (s + t)[..|s + t| - 1] == s + t[..|t| - 1];
      LiveConcat(records, s, t[..|t| - 1]);
    }
  }

  lemma LiveOne(records: seq<Record>, c: nat)
    ensures LiveCount(records, [c]) == if Lives(records, c) then 1 else 0
  {
    assert [c][..0] == [];
  }

  lemma LiveWithout(records: seq<Record>, s: seq<nat>, i: int)
    requires 0 <= i < |s|
    ensures LiveCount(records, Without(s, i)) == LiveCount(records, s) - if Lives(records, s[i]) then 1 else 0
  {
    assert s == s[..i] + ([s[i]] + s[i + 1..]);
    LiveConcat(records, s[..i], [s[i]] + s[i + 1..]);
    LiveConcat(records, [s[i]], s[i + 1..]);
    LiveConcat(records, s[..i], s[i + 1..]);
    LiveOne(records, s[i]);
  }

  // Stamping one clause of s dead.
  lemma {:induction false} LiveStamp(records: seq<Record>, s: seq<nat>, i: int, t: int)
    requires NoRepeats(s) && 0 <= i < |s| && Lives(records, s[i]) && t != ALIVE
    ensures LiveCount(records[s[i] := records[s[i]].(death := t)], s) == LiveCount(records, s) - 1
    decreases |s|
  {
    var m := |s| - 1;
    var records' := records[s[i] := records[s[i]].(death := t)];
    if i == m {
      LiveSame(records, records', s[..m]);
    } else {
      LiveStamp(records, s[..m], i, t);
    }
  }

  // ---- Logical views ----

  // A call made at time t sees the clauses born by then that were not dead by then.
  ghost predicate VisibleAt(records: seq<Record>, c: nat, t: int) {
    c < |records| && records[c].birth <= t < records[c].death
  }

  // What such a call sees of s, in order.
  ghost function Visible(records: seq<Record>, s: seq<nat>, t: int): (r: seq<nat>)
    decreases |s|
  {
    if s == [] then []
    else
      var rest := Visible(records, s[..|s| - 1], t);
      if VisibleAt(records, s[|s| - 1], t) then rest + [s[|s| - 1]] else rest
  }

  // Births and deaths lie in the past.
  ghost predicate Stamped(records: seq<Record>, now: int) {
    && now < ALIVE
    && forall c :: 0 <= c < |records| ==>
      records[c].birth <= now && (records[c].death == ALIVE || records[c].death <= now)
  }

  lemma {:induction false} VisibleSame(records: seq<Record>, records': seq<Record>, s: seq<nat>, t: int)
    requires forall i :: 0 <= i < |s| ==> VisibleAt(records', s[i], t) == VisibleAt(records, s[i], t)
    ensures Visible(records', s, t) == Visible(records, s, t)
    decreases |s|
  {
    if s != [] {
      VisibleSame(records, records', s[..|s| - 1], t);
    }
  }

  lemma {:induction false} VisibleConcat(records: seq<Record>, s: seq<nat>, u: seq<nat>, t: int)
    ensures Visible(records, s + u, t) == Visible(records, s, t) + Visible(records, u, t)
    decreases |u|
  {
    if u == [] {
      assert s + u == s;
    } else {
      assert (s + u)[..|s + u| - 1] == s + u[..|u| - 1];
      VisibleConcat(records, s, u[..|u| - 1], t);
    }
  }

  lemma VisibleOne(records: seq<Record>, c: nat, t: int)
    ensures Visible(records, [c], t) == if VisibleAt(records, c, t) then [c] else []
  {
    assert [c][..0] == [];
  }

  // A clause born now is seen by the calls made from now on.
  lemma VisibleGrow(records: seq<Record>, r: Record, all: seq<nat>, now: int, t: int)
    requires r.birth == now && r.death == ALIVE && t < ALIVE && forall i :: 0 <= i < |all| ==> all[i] < |records|
    ensures var c, one := |records|, if t < now then [] else [|records|];
      && Visible(records + [r], all + [c], t) == Visible(records, all, t) + one
      && Visible(records + [r], [c] + all, t) == one + Visible(records, all, t)
  {
    VisibleSame(records, records + [r], all, t);
    VisibleConcat(records + [r], all, [|records|], t);
    VisibleConcat(records + [r], [|records|], all, t);
    VisibleOne(records + [r], |records|, t);
  }

  // Taking a clause off the list takes it out of every view.
  lemma {:induction false} VisibleMinus(records: seq<Record>, s: seq<nat>, c: nat, t: int)
    ensures Visible(records, Minus(s, c), t) == Minus(Visible(records, s, t), c)
    decreases |s|
  {
    if s != [] {
      var m := |s| - 1;
      VisibleMinus(records, s[..m], c, t);
      var rest := Visible(records, s[..m], t);
      assert (rest + [s[m]])[..|rest|] == rest;
      if s[m] != c {
        VisibleConcat(records, Minus(s[..m], c), [s[m]], t);
        VisibleOne(records, s[m], t);
      }
    }
  }

  // A clause stamped dead now is seen only by the calls made before.
  lemma {:induction false} VisibleStamp(records: seq<Record>, s: seq<nat>, c: nat, now: int, t: int)
    requires c < |records| && records[c].death == ALIVE && now <= ALIVE && t < ALIVE
    ensures Visible(records[c := records[c].(death := now)], s, t) ==
      if t < now then Visible(records, s, t) else Minus(Visible(records, s, t), c)
    decreases |s|
  {
    if s != [] {
      var m := |s| - 1;
      VisibleStamp(records, s[..m], c, now, t);
      var rest := Visible(records, s[..m], t);
      assert (rest + [s[m]])[..|rest|] == rest;
    }
  }

  // A call made at time t sees the clause, and its head may match the key.
  ghost predicate Answers(records: seq<Record>, heads: seq<nat>, c: nat, key: int, t: int) {
    VisibleAt(records, c, t) && MayMatch(HashOf(heads, c), key)
  }

  ghost predicate NoneAnswers(records: seq<Record>, heads: seq<nat>, s: seq<nat>, key: int, t: int) {
    forall k :: 0 <= k < |s| ==> !Answers(records, heads, s[k], key, t)
  }

  ghost function CellFrom(ch: seq<nat>, p: int): int {
    if 0 <= p < |ch| then ch[p] else NIL
  }

  // Every clause on the all-clauses chain refers back to its own cell.
  ghost predicate RefsOwn(records: seq<Record>, all: seq<nat>, ch: seq<nat>) {
    |all| == |ch| && forall i :: 0 <= i < |all| ==> all[i] < |records| && records[all[i]].ref == ch[i]
  }

  lemma RefsDistinct(records: seq<Record>, all: seq<nat>, ch: seq<nat>)
    requires RefsOwn(records, all, ch) && forall i, j :: 0 <= i < j < |ch| ==> ch[i] != ch[j]
    ensures NoRepeats(all)
  {
    forall i, k | 0 <= i < k < |all| ensures all[i] != all[k] {
      assert records[all[i]].ref == ch[i] && records[all[k]].ref == ch[k];
    }
  }

  lemma RefsWithout(records: seq<Record>, all: seq<nat>, ch: seq<nat>, i: int)
    requires RefsOwn(records, all, ch) && 0 <= i < |all|
    ensures RefsOwn(records, Without(all, i), Without(ch, i))
  {
    forall k | 0 <= k < |all| - 1
      ensures Without(all, i)[k] < |records| && records[Without(all, i)[k]].ref == Without(ch, i)[k] {
      WithoutAt(all, i, k);
      WithoutAt(ch, i, k);
    }
  }

  // A new clause at either end keeps bucket and list in step.
  lemma SubGrow(heads: seq<nat>, h: nat, all: seq<nat>, j: int, size: nat)
    requires size > 0 && forall i :: 0 <= i < |all| ==> all[i] < |heads|
    ensures var c, one := |heads|, if Belongs(h, j, size) then [|heads|] else [];
      && Sub(heads + [h], all + [c], j, size) == Sub(heads, all, j, size) + one
      && Sub(heads + [h], [c] + all, j, size) == one + Sub(heads, all, j, size)
  {
    var c := |heads|;
    SubConcat(heads + [h], all, [c], j, size);
    SubConcat(heads + [h], [c], all, j, size);
    SubOne(heads + [h], c, j, size);
    SubNewHead(heads, h, all, j, size);
  }

  lemma LiveGrow(records: seq<Record>, r: Record, all: seq<nat>)
    requires r.death == ALIVE && forall i :: 0 <= i < |all| ==> all[i] < |records|
    ensures LiveCount(records + [r], all + [|records|]) == LiveCount(records, all) + 1
    ensures LiveCount(records + [r], [|records|] + all) == LiveCount(records, all) + 1
  {
    LiveSame(records, records + [r], all);
    LiveConcat(records + [r], all, [|records|]);
    LiveConcat(records + [r], [|records|], all);
    LiveOne(records + [r], |records|);
  }

  lemma RefsGrow(records: seq<Record>, r: Record, all: seq<nat>, ch: seq<nat>)
    requires RefsOwn(records, all, ch) && r.ref >= 0
    ensures RefsOwn(records + [r], all + [|records|], ch + [r.ref])
    ensures RefsOwn(records + [r], [|records|] + all, [r.ref] + ch)
  {
  }

  // The lists of the buckets are the sub-lists of the last list, whose cells the records refer to.
  ghost predicate InStep(records: seq<Record>, heads: seq<nat>, lists: seq<seq<nat>>, size: nat, allCells: seq<nat>) {
    && size > 0 && |lists| == size + 1 && |heads| == |records|
    && (forall j :: 0 <= j < size ==> lists[j] == Sub(heads, lists[size], j, size))
    && RefsOwn(records, lists[size], allCells)
  }

  lemma AppendInStep(records: seq<Record>, heads: seq<nat>, lists: seq<seq<nat>>, lists': seq<seq<nat>>, size: nat,
      ch: seq<nat>, h: nat, r: Record)
    requires InStep(records, heads, lists, size, ch) && |lists'| == size + 1 && r.ref >= 0 && r.death == ALIVE
    requires lists'[size] == lists[size] + [|heads|]
    requires forall k :: 0 <= k < size ==> lists'[k] == lists[k] + if Belongs(h, k, size) then [|heads|] else []
    ensures InStep(records + [r], heads + [h], lists', size, ch + [r.ref])
    ensures LiveCount(records + [r], lists'[size]) == LiveCount(records, lists[size]) + 1
  {
    forall k | 0 <= k < size ensures lists'[k] == Sub(heads + [h], lists'[size], k, size) {
      SubGrow(heads, h, lists[size], k, size);
    }
    RefsGrow(records, r, lists[size], ch);
    LiveGrow(records, r, lists[size]);
  }

  lemma PrependInStep(records: seq<Record>, heads: seq<nat>, lists: seq<seq<nat>>, lists': seq<seq<nat>>, size: nat,
      ch: seq<nat>, h: nat, r: Record)
    requires InStep(records, heads, lists, size, ch) && |lists'| == size + 1 && r.ref >= 0 && r.death == ALIVE
    requires lists'[size] == [|heads|] + lists[size]
    requires forall k :: 0 <= k < size ==> lists'[k] == (if Belongs(h, k, size) then [|heads|] else []) + lists[k]
    ensures InStep(records + [r], heads + [h], lists', size, [r.ref] + ch)
    ensures LiveCount(records + [r], lists'[size]) == LiveCount(records, lists[size]) + 1
  {
    forall k | 0 <= k < size ensures lists'[k] == Sub(heads + [h], lists'[size], k, size) {
      SubGrow(heads, h, lists[size], k, size);
    }
    RefsGrow(records, r, lists[size], ch);
    LiveGrow(records, r, lists[size]);
  }

  lemma RemoveInStep(records: seq<Record>, heads: seq<nat>, lists: seq<seq<nat>>, lists': seq<seq<nat>>, size: nat,
      ch: seq<nat>, i: int)
    requires InStep(records, heads, lists, size, ch) && |lists'| == size + 1 && 0 <= i < |lists[size]|
    requires NoRepeats(lists[size])
    requires lists'[size] == Without(lists[size], i)
    requires forall k :: 0 <= k < size ==> lists'[k] == Minus(lists[k], lists[size][i])
    ensures InStep(records, heads, lists', size, Without(ch, i)) && lists'[size] == Minus(lists[size], lists[size][i])
  {
    MinusOnly(lists[size], i);
    forall k | 0 <= k < size ensures lists'[k] == Sub(heads, lists'[size], k, size) {
      SubMinus(heads, lists[size], lists[size][i], k, size);
    }
    RefsWithout(records, lists[size], ch, i);
  }
}
