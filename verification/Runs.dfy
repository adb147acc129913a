// Whole runs: whatever is done after a choice point, failing back to it restores the store.
module Runs {
  import opened Trail
  import opened Layout
  import opened Sets
  import opened Stores
  import opened BitScan
  import opened Region
  import opened Holes
  import opened Domains
  import opened DomainPairs
  import opened LinearTerms

  // One operation of the running program. Variables are given by their place in the order of creation.
  datatype Op =
    | New(from: int, to: int)
    | Region(x: nat, from: int, to: int)
    | Exclude(x: nat, elm: int)
    | ExcludeRange(x: nat, from: int, to: int)
    | ExcludeAll(x: nat, y: nat)
    | Intersect(x: nat, y: nat)
    | Bind(x: nat, val: int)
    | Push
    | Commit(keep: nat)
    | Fail

  predicate OnPair(op: Op) {
    op.ExcludeAll? || op.Intersect?
  }

  predicate OnVar(op: Op) {
    OnPair(op) || op.Region? || op.Exclude? || op.ExcludeRange? || op.Bind?
  }

  // The variables of an update exist; those of a pair differ.
  predicate Names(op: Op, n: nat) {
    OnVar(op) && op.x < n && (OnPair(op) ==> op.y < n && op.x != op.y)
  }

  // vars are variables of the store; marks[k] of them existed when choice point k was created.
  ghost predicate Live(s: Store, vars: seq<nat>, marks: seq<nat>)
    reads s
  {
    && s.Valid() && |marks| == |s.choices| && (forall v :: v in vars ==> v in s.views)
    && (forall k :: 0 <= k < |marks| ==> marks[k] <= |vars|)
    && (forall j, k :: 0 <= j < k < |marks| ==> marks[j] <= marks[k])
    && forall k, j :: 0 <= k < |marks| && 0 <= j < marks[k] ==> vars[j] in s.snaps[k].views
  }

  // The choice points up to base are still there.
  ghost predicate Above(s: Store, base: nat, choices0: seq<Choice>, snaps0: seq<Snap>)
    reads s
  {
    && base < |s.choices| == |s.snaps| && base < |choices0| == |snaps0|
    && s.choices[..base + 1] == choices0[..base + 1] && s.snaps[..base + 1] == snaps0[..base + 1]
  }

  lemma LiveKeeps(s: Store, vars: seq<nat>, marks: seq<nat>, views0: map<nat, View>)
    requires s.Valid() && |marks| == |s.choices| && (forall v :: v in vars ==> v in views0)
    requires views0.Keys <= s.views.Keys
    requires forall k :: 0 <= k < |marks| ==> marks[k] <= |vars|
    requires forall j, k :: 0 <= j < k < |marks| ==> marks[j] <= marks[k]
    requires forall k, j :: 0 <= k < |marks| && 0 <= j < marks[k] ==> vars[j] in s.snaps[k].views
    ensures Live(s, vars, marks)
  {
  }

  // What an update does to the variables; pairs only when both are unbound and different.
  ghost predicate Effect(op: Op, vars: seq<nat>, v0: map<nat, View>, v1: map<nat, View>, ok: bool)
    requires Names(op, |vars|) && forall v :: v in vars ==> v in v0 && v in v1
  {
    var d := vars[op.x];
    match op
    case Region(_, from, to) =>
      if v0[d].cell == Ref then CutTo(v0, v1, d, Between(Domain(v0[d]), from, to), ok) else ok && v1 == v0
    case Exclude(_, elm) => CutTo(v0, v1, d, Outside(Domain(v0[d]), elm, elm), ok)
    case ExcludeRange(_, from, to) =>
      if from <= to then CutTo(v0, v1, d, Outside(Domain(v0[d]), from, to), ok) else ok && v1 == v0
    case Bind(_, val) =>
      if v0[d].cell.Num? then ok && v1 == v0
      else if val in Domain(v0[d]) then ok && v1 == v0[d := v0[d].(cell := Num(val))]
      else !ok && v1 == v0
    case ExcludeAll(_, y) => PairEffect(v0, v1, d, vars[y], Domain(v0[d]) - Domain(v0[vars[y]]), ok)
    case Intersect(_, y) => PairEffect(v0, v1, d, vars[y], Domain(v0[d]) * Domain(v0[vars[y]]), ok)
    case _ => true
  }

  ghost predicate PairEffect(v0: map<nat, View>, v1: map<nat, View>, d: nat, e: nat, r: set<int>, ok: bool)
    requires d in v0 && e in v0
  {
    if d == e || v0[d].cell.Num? || v0[e].cell.Num? then ok && v1 == v0 else CutTo(v0, v1, d, r, ok)
  }

  ghost predicate CutTo(v0: map<nat, View>, v1: map<nat, View>, d: nat, r: set<int>, ok: bool)
    requires d in v0
  {
    Changed(v0, v1, d) && Becomes(v0[d], v1[d], r, ok)
  }

  // An update of one variable. It fails, as the program does, when nothing is left.
  method Narrowing(s: Store, op: Op, vars: seq<nat>, ghost marks: seq<nat>) returns (ok: bool)
    requires Live(s, vars, marks) && Names(op, |vars|)
    modifies s`mem, s`owner, s`trail, s`views
    ensures Live(s, vars, marks) && Effect(op, vars, old(s.views), s.views, ok)
  {
    var d := vars[op.x];
    VarBounds(s, d);
    ok := true;
    match op
    case Region(x, from, to) =>
      if !Bound(s.mem, d) {
        ok := Restrict(s, d, from, to);
      }
    case Exclude(x, elm) => ok := SetFalse(s, d, elm);
    case ExcludeRange(x, from, to) =>
      if from <= to {
        ok := ExcludeInterval(s, d, from, to);
      }
    case Bind(x, val) =>
      if !Bound(s.mem, d) {
        ok := DmTrue(s.mem, s.owner, d, val);
        if ok {
          Assign(s, d, val);
        }
      }
    case ExcludeAll(x, y) => ok := Pairwise(s, op, vars);
    case Intersect(x, y) => ok := Pairwise(s, op, vars);
    LiveKeeps(s, vars, marks, old(s.views));
  }

  method Pairwise(s: Store, op: Op, vars: seq<nat>) returns (ok: bool)
    requires s.Valid() && OnPair(op) && Names(op, |vars|) && forall v :: v in vars ==> v in s.views
    modifies s`mem, s`owner, s`trail, s`views
    ensures s.Valid() && s.views.Keys == old(s.views).Keys && Effect(op, vars, old(s.views), s.views, ok)
  {
    var d, e := vars[op.x], vars[op.y];
    VarBounds(s, d);
    VarBounds(s, e);
    ok := true;
    if d != e && !Bound(s.mem, d) && !Bound(s.mem, e) {
      if op.Intersect? {
        ok := DmIntersect(s, d, e);
      } else {
        ok := ExcludeDom(s, e, d);
      }
    }
  }

  // Failing: the newest choice point takes over, and what was created since is forgotten.
  method FailBack(s: Store, vars: seq<nat>, marks: seq<nat>) returns (vars': seq<nat>)
    requires Live(s, vars, marks) && s.choices != []
    modifies s`mem, s`trail, s`owner, s`views
    ensures Live(s, vars', marks) && Snap(s.mem, s.owner, s.views) == s.snaps[|s.snaps| - 1]
  {
    s.Backtrack();
    vars' := vars[..marks[|marks| - 1]];
  }

  method ChoicePoint(s: Store, vars: seq<nat>, marks: seq<nat>) returns (marks': seq<nat>)
    requires Live(s, vars, marks)
    modifies s`hb, s`choices, s`snaps
    ensures Live(s, vars, marks') && s.choices == old(s.choices) + [Choice(|s.mem|, |s.trail|)]
    ensures s.snaps == old(s.snaps) + [Snap(s.mem, s.owner, s.views)] && |s.snaps| == |s.choices|
  {
    s.PushChoice();
    marks' := marks + [|vars|];
  }

  method Create(s: Store, from: int, to: int, vars: seq<nat>, ghost marks: seq<nat>) returns (vars': seq<nat>)
    requires Live(s, vars, marks) && from < to
    modifies s`mem, s`owner, s`views
    ensures Live(s, vars', marks) && vars' == vars + [|old(s.mem)|]
    ensures s.views == old(s.views)[|old(s.mem)| := View(Ref, Range(from, to), false)]
  {
    var d := s.NewVar(from, to);
    vars' := vars + [d];
  }

  method Commit(s: Store, keep: nat, ghost vars: seq<nat>, marks: seq<nat>) returns (marks': seq<nat>)
    requires Live(s, vars, marks) && keep <= |s.choices|
    modifies s`hb, s`choices, s`snaps
    ensures Live(s, vars, marks') && s.choices == old(s.choices)[..keep] && s.snaps == old(s.snaps)[..keep]
  {
    s.Cut(keep);
    marks' := marks[..keep];
  }

  // What an operation does when it does anything; base is the choice point that may not be cut.
  twostate predicate Performed(s: Store, op: Op, base: nat, vars: seq<nat>, vars': seq<nat>)
    reads s
    requires forall v :: v in vars ==> v in old(s.views)
    requires old(s.snaps) != []
  {
    var last := old(s.snaps)[|old(s.snaps)| - 1];
    match op
    case New(from, to) => from < to ==>
      && vars' == vars + [|old(s.mem)|]
      && s.views == old(s.views)[|old(s.mem)| := View(Ref, Range(from, to), false)]
    case Push => s.snaps == old(s.snaps) + [Snap(old(s.mem), old(s.owner), old(s.views))]
    case Commit(keep) => base < keep <= |old(s.choices)| ==> s.choices == old(s.choices)[..keep]
    case Fail => Snap(s.mem, s.owner, s.views) == last
    case _ => Names(op, |vars|) ==> Updated(op, vars, old(s.views), s.views, Snap(s.mem, s.owner, s.views) == last)
  }

  // The update was made, or it failed and the last choice point took over.
  ghost predicate Updated(op: Op, vars: seq<nat>, v0: map<nat, View>, v: map<nat, View>, back: bool)
    requires Names(op, |vars|) && forall w :: w in vars ==> w in v0
  {
    exists v1, ok :: (forall w :: w in vars ==> w in v1) && Effect(op, vars, v0, v1, ok) && if ok then v == v1 else back
  }

  method ChangeOrFail(s: Store, op: Op, vars: seq<nat>, marks: seq<nat>) returns (vars': seq<nat>)
    requires Live(s, vars, marks) && Names(op, |vars|) && s.choices != []
    modifies s`mem, s`owner, s`trail, s`views
    ensures Live(s, vars', marks) && |s.snaps| == |s.choices|
    ensures Updated(op, vars, old(s.views), s.views, Snap(s.mem, s.owner, s.views) == s.snaps[|s.snaps| - 1])
  {
    vars' := vars;
    var ok := Narrowing(s, op, vars, marks);
    ghost var v1 := s.views;
    if !ok {
      vars' := FailBack(s, vars, marks);
    }
    assert Effect(op, vars, old(s.views), v1, ok);
  }

  // A creation, a choice point, a cut or a failure.
  method Control(s: Store, op: Op, base: nat, vars: seq<nat>, marks: seq<nat>, ghost choices0: seq<Choice>,
      ghost snaps0: seq<Snap>)
    returns (vars': seq<nat>, marks': seq<nat>)
    requires Live(s, vars, marks) && Above(s, base, choices0, snaps0) && !OnVar(op)
    modifies s
    ensures Live(s, vars', marks') && Above(s, base, choices0, snaps0) && Performed(s, op, base, vars, vars')
  {
    vars', marks' := vars, marks;
    if op.New? {
      if op.from < op.to {
        vars' := Create(s, op.from, op.to, vars, marks);
      }
    } else if op.Push? {
      marks' := ChoicePoint(s, vars, marks);
    } else if op.Fail? {
      vars' := FailBack(s, vars, marks);
    } else if base < op.keep <= |s.choices| {
      marks' := Commit(s, op.keep, vars, marks);
    }
  }

  method Perform(s: Store, op: Op, base: nat, vars: seq<nat>, marks: seq<nat>, ghost choices0: seq<Choice>,
      ghost snaps0: seq<Snap>)
    returns (vars': seq<nat>, marks': seq<nat>)
    requires Live(s, vars, marks) && Above(s, base, choices0, snaps0)
    modifies s
    ensures Live(s, vars', marks') && Above(s, base, choices0, snaps0) && Performed(s, op, base, vars, vars')
  {
    vars', marks' := vars, marks;
    if Names(op, |vars|) {
      vars' := ChangeOrFail(s, op, vars, marks);
    } else if !OnVar(op) {
      vars', marks' := Control(s, op, base, vars, marks, choices0, snaps0);
    }
  }

  // A choice point, any operations after it, and failure back to it: the store is what it was.
  method Speculate(s: Store, ops: seq<Op>, vars: seq<nat>, marks: seq<nat>)
    requires Live(s, vars, marks)
    modifies s
    ensures s.Valid() && s.mem == old(s.mem) && s.views == old(s.views) && s.owner == old(s.owner)
    ensures s.choices == old(s.choices) && s.snaps == old(s.snaps) && s.hb == old(s.hb) && |s.trail| == |old(s.trail)|
  {
    var base := |s.choices|;
    ghost var here := Snap(s.mem, s.owner, s.views);
    var vs := vars;
    var ms := ChoicePoint(s, vars, marks);
    ghost var choices0, snaps0 := s.choices, s.snaps;
    var i := 0;
    while i < |ops|
      invariant 0 <= i <= |ops| && Live(s, vs, ms) && Above(s, base, choices0, snaps0)
    {
      vs, ms := Perform(s, ops[i], base, vs, ms, choices0, snaps0);
      i := i + 1;
    }
    s.Cut(base + 1);
    s.Backtrack();
    assert s.choices == choices0 && s.snaps == snaps0 && snaps0[base] == here;
    s.Cut(base);
  }
}
