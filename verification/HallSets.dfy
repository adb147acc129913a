// Hall sets: pruning for all-different from one variable's domain.
module HallSets {
  import opened Trail
  import opened Layout
  import opened Sets
  import opened Stores
  import opened Region
  import opened LinearTerms
  import opened DomainPairs
  import opened WordTests

  // ---- The theorem: pigeonholes ----

  // Values for the variables, all different.
  ghost predicate AllDifferent(doms: seq<set<int>>, w: seq<int>) {
    && |w| == |doms| && (forall i :: 0 <= i < |w| ==> w[i] in doms[i])
    && forall i, j :: 0 <= i < j < |w| ==> w[i] != w[j]
  }

  ghost function Image(w: seq<int>, group: set<int>): set<int>
    requires forall i :: i in group ==> 0 <= i < |w|
  {
    set i | i in group :: w[i]
  }

  lemma {:induction false} ImageSize(w: seq<int>, group: set<int>)
    requires forall i :: i in group ==> 0 <= i < |w|
    requires forall i, j :: 0 <= i < j < |w| ==> w[i] != w[j]
    ensures |Image(w, group)| == |group|
    decreases |group|
  {
    if group == {} {
      assert Image(w, group) == {};
    } else {
      var i := SomeMember(group);
      var rest := group - {i};
      ImageSize(w, rest);
      assert w[i] !in Image(w, rest);
      assert Image(w, group) == Image(w, rest) + {w[i]};
    }
  }

  // The variables of group all have domains inside d.
  ghost predicate Crowd(doms: seq<set<int>>, group: set<int>, d: set<int>) {
    forall i :: i in group ==> 0 <= i < |doms| && doms[i] <= d
  }

  lemma CrowdImage(doms: seq<set<int>>, group: set<int>, d: set<int>, w: seq<int>)
    requires Crowd(doms, group, d) && AllDifferent(doms, w)
    ensures |group| <= |d|
    ensures |group| == |d| ==> Image(w, group) == d
  {
    ImageSize(w, group);
    forall v | v in Image(w, group) ensures v in d {
      var i :| i in group && v == w[i];
    }
    SubsetSize(Image(w, group), d);
  }

  // More variables than values: no assignment.
  lemma TooCrowded(doms: seq<set<int>>, group: set<int>, d: set<int>)
    requires Crowd(doms, group, d) && |group| > |d|
    ensures forall w :: !AllDifferent(doms, w)
  {
    forall w ensures !AllDifferent(doms, w) {
      if AllDifferent(doms, w) {
        CrowdImage(doms, group, d, w);
      }
    }
  }

  // As many variables as values: nobody else takes one of them.
  lemma Occupied(doms: seq<set<int>>, group: set<int>, d: set<int>, w: seq<int>, j: int)
    requires Crowd(doms, group, d) && |group| == |d| && AllDifferent(doms, w) && 0 <= j < |doms| && j !in group
    ensures w[j] !in d
  {
    CrowdImage(doms, group, d, w);
    forall i | i in group ensures w[i] != w[j] {
      assert i < j || j < i;
    }
  }

  // ---- The code ----

  // x and the other variables, x first.
  ghost predicate Others(views: map<nat, View>, x: nat, xs: seq<nat>) {
    x in views && AreVars(views, xs) && Distinct(xs) && x !in xs
  }

  ghost function DomsWith(views: map<nat, View>, x: nat, xs: seq<nat>): (doms: seq<set<int>>)
    requires Others(views, x, xs)
    ensures |doms| == |xs| + 1
  {
    [Domain(views[x])] + DomsOf(views, xs)
  }

  // 0 for x, and k + 1 for the unbound variables among the first n whose domain is inside x's.
  ghost function HallGroup(views: map<nat, View>, x: nat, xs: seq<nat>, n: nat): (group: set<int>)
    requires Others(views, x, xs) && n <= |xs|
  {
    set i | 0 <= i <= n && Inside(views, x, xs, i)
  }

  ghost predicate Inside(views: map<nat, View>, x: nat, xs: seq<nat>, i: int)
    requires Others(views, x, xs)
  {
    i == 0 || (0 < i <= |xs| && views[xs[i - 1]].cell == Ref && Domain(views[xs[i - 1]]) <= Domain(views[x]))
  }

  ghost predicate Counted(views: map<nat, View>, x: nat, xs: seq<nat>, n: int, group: set<int>)
    requires Others(views, x, xs)
  {
    0 <= n <= |xs| && group == HallGroup(views, x, xs, n)
  }

  lemma HallGroupStep(views: map<nat, View>, x: nat, xs: seq<nat>, k: nat)
    requires Others(views, x, xs) && k < |xs|
    ensures HallGroup(views, x, xs, k + 1) == HallGroup(views, x, xs, k) + if Inside(views, x, xs, k + 1) then {k + 1}
        else {}
    ensures k + 1 !in HallGroup(views, x, xs, k)
  {
  }

  // The variables that are left cannot add more than their number.
  lemma {:induction false} HallGroupGrowth(views: map<nat, View>, x: nat, xs: seq<nat>, k: nat, n: nat)
    requires Others(views, x, xs) && k <= n <= |xs|
    ensures |HallGroup(views, x, xs, n)| <= |HallGroup(views, x, xs, k)| + (n - k)
    decreases n - k
  {
    if k < n {
      HallGroupGrowth(views, x, xs, k + 1, n);
      HallGroupStep(views, x, xs, k);
    }
  }

  // The flag of the k-th variable: is its domain inside x's?
  ghost predicate Flagged(views: map<nat, View>, xs: seq<nat>, n: int, group: set<int>, flags: seq<int>)
    requires AreVars(views, xs)
  {
    0 <= n <= |xs| < |flags| &&
    forall k :: 0 <= k < n && views[xs[k]].cell == Ref ==> (flags[|xs| - k] == 0 <==> k + 1 !in group)
  }

  // The counting loop over one of the two lists, here the variables from..to of both put together.
  // stop: too few variables are left for a Hall set.
  method CountIncluded(s: Store, x: nat, xs: seq<nat>, from: int, to: int, size: int, count0: int, flags: array<int>,
      ghost group0: set<int>)
    returns (stop: bool, count: int, ghost group: set<int>)
    requires s.Valid() && Others(s.views, x, xs) && s.views[x].cell == Ref && 0 <= from <= to <= |xs| < flags.Length
    requires Counted(s.views, x, xs, from, group0) && Flagged(s.views, xs, from, group0, flags[..])
    requires count0 == |group0|
    modifies flags
    ensures stop ==> |HallGroup(s.views, x, xs, |xs|)| < size
    ensures !stop ==>
      Counted(s.views, x, xs, to, group) && Flagged(s.views, xs, to, group, flags[..]) && count == |group|
  {
    count, group := count0, group0;
    var numElmsLeft := |xs| - from;
    var k := from;
    while k < to
      invariant from <= k <= to && numElmsLeft == |xs| - k
      invariant Counted(s.views, x, xs, k, group) && Flagged(s.views, xs, k, group, flags[..]) && count == |group|
    {
      if count + numElmsLeft < size {
        HallGroupGrowth(s.views, x, xs, k, |xs|);
        return true, count, group;
      }
      count, group := CountOne(s, x, xs, k, count, flags, group);
      k := k + 1;
      numElmsLeft := numElmsLeft - 1;
    }
    stop := false;
  }

  lemma FlagStep(views: map<nat, View>, xs: seq<nat>, k: int, group: set<int>, flags: seq<int>, group': set<int>,
      flags': seq<int>, isIn: bool)
    requires AreVars(views, xs) && 0 <= k < |xs| < |flags| && Flagged(views, xs, k, group, flags) && k + 1 !in group
    requires group' == group + if isIn then {k + 1} else {}
    requires flags' == (if views[xs[k]].cell == Ref then flags[|xs| - k := if isIn then 1 else 0] else flags)
    ensures Flagged(views, xs, k + 1, group', flags')
  {
  }

  method CountOne(s: Store, x: nat, xs: seq<nat>, k: int, count0: int, flags: array<int>, ghost group0: set<int>)
    returns (count: int, ghost group: set<int>)
    requires s.Valid() && Others(s.views, x, xs) && s.views[x].cell == Ref && 0 <= k < |xs| < flags.Length
    requires Counted(s.views, x, xs, k, group0) && Flagged(s.views, xs, k, group0, flags[..]) && count0 == |group0|
    modifies flags
    ensures Counted(s.views, x, xs, k + 1, group) && Flagged(s.views, xs, k + 1, group, flags[..]) && count == |group|
  {
    count := count0;
    ghost var flags0 := flags[..];
    HallGroupStep(s.views, x, xs, k);
    group := HallGroup(s.views, x, xs, k + 1);
    DerefView(s, xs[k]);
    var isIn := false;
    var elm := Deref(s.mem, xs[k]);
    if elm.Susp? {
      isIn := IncludedIn(s, x, elm.d);
      if isIn {
        count := count + 1;
        flags[|xs| - k] := 1;
      } else {
        flags[|xs| - k] := 0;
      }
    }
    FlagStep(s.views, xs, k, group0, flags0, group, flags[..], isIn);
  }

  // DOMAIN_INCLUDE on two unbound variables
  method IncludedIn(s: Store, x: nat, d: nat) returns (isIn: bool)
    requires s.Valid() && x in s.views && d in s.views && s.views[x].cell == Ref && s.views[d].cell == Ref
    ensures isIn <==> Domain(s.views[d]) <= Domain(s.views[x])
  {
    assert Shape(s.mem, s.owner, x) && Shape(s.mem, s.owner, d);
    isIn := DomainInclude(s.mem, s.owner, x, d);
  }

  // The variables before n are done: those outside the group lose the values of d.
  ghost predicate Excluded(views0: map<nat, View>, views: map<nat, View>, xs: seq<nat>, d: set<int>, group: set<int>,
      n: int)
    requires AreVars(views0, xs)
  {
    && AreVars(views, xs) && OnlyVars(views0, views, xs)
    && (forall k :: 0 <= k < n && k < |xs| ==>
         Domain(views[xs[k]]) == if views0[xs[k]].cell == Ref && k + 1 !in group then Domain(views0[xs[k]]) - d
             else Domain(views0[xs[k]]))
    && (forall k :: 0 <= k && n <= k < |xs| ==> views[xs[k]] == views0[xs[k]])
  }

  lemma ExcludedStep(views0: map<nat, View>, v1: map<nat, View>, v2: map<nat, View>, xs: seq<nat>, d: set<int>,
      group: set<int>, k: int)
    requires AreVars(views0, xs) && Distinct(xs) && 0 <= k < |xs| && Excluded(views0, v1, xs, d, group, k)
    requires Changed(v1, v2, xs[k])
    requires Domain(v2[xs[k]]) == if views0[xs[k]].cell == Ref && k + 1 !in group then Domain(views0[xs[k]]) - d
        else Domain(views0[xs[k]])
    ensures Excluded(views0, v2, xs, d, group, k + 1)
  {
    DomsStep(v1, v2, xs, k);
    OnlyVarsStep(views0, v1, v2, xs, xs[k]);
  }

  // A variable outside the group that would lose all its values.
  ghost predicate OffGroup(views: map<nat, View>, x: nat, xs: seq<nat>, group: set<int>, k: int)
    requires Others(views, x, xs)
  {
    0 <= k < |xs| && k + 1 !in group && Inside(views, x, xs, k + 1)
  }

  ghost predicate Emptied(views: map<nat, View>, x: nat, xs: seq<nat>, group: set<int>)
    requires Others(views, x, xs)
  {
    exists k :: OffGroup(views, x, xs, group, k)
  }

  // The group is everything inside the domain of x.
  lemma NoneEmptied(views: map<nat, View>, x: nat, xs: seq<nat>)
    requires Others(views, x, xs)
    ensures !Emptied(views, x, xs, HallGroup(views, x, xs, |xs|))
  {
    forall k ensures !OffGroup(views, x, xs, HallGroup(views, x, xs, |xs|), k) {
    }
  }

  // One turn of the excluding loop.
  method ExcludeOne(s: Store, x: nat, xs: seq<nat>, k: int, flag: int, ghost views0: map<nat, View>,
      ghost group: set<int>)
    returns (ok: bool)
    requires s.Valid() && Others(views0, x, xs) && 0 <= k < |xs| && x in s.views && s.views[x] == views0[x]
    requires views0[x].cell == Ref
    requires Excluded(views0, s.views, xs, Domain(views0[x]), group, k)
    requires views0[xs[k]].cell == Ref ==> (flag == 0 <==> k + 1 !in group)
    modifies s`mem, s`owner, s`trail, s`views
    ensures s.Valid() && AreVars(s.views, xs) && OnlyVars(views0, s.views, xs)
    ensures ok ==> Excluded(views0, s.views, xs, Domain(views0[x]), group, k + 1)
    ensures !ok ==> OffGroup(views0, x, xs, group, k)
  {
    DerefView(s, xs[k]);
    var elm := Deref(s.mem, xs[k]);
    ok := true;
    if elm.Susp? && flag == 0 {
      ok := ExcludeDom(s, x, elm.d);
      OnlyVarsStep(views0, old(s.views), s.views, xs, xs[k]);
      if !ok {
        EmptyDifference(Domain(views0[xs[k]]), Domain(views0[x]));
        return;
      }
    }
    ExcludedStep(views0, old(s.views), s.views, xs, Domain(views0[x]), group, k);
  }

  lemma EmptyDifference(a: set<int>, b: set<int>)
    requires a - b == {}
    ensures a <= b
  {
    forall v | v in a ensures v in b {
      assert v !in b ==> v in a - b;
    }
  }

  // The excluding loop over one of the two lists.
  method ExcludeList(s: Store, x: nat, xs: seq<nat>, from: int, to: int, flags: array<int>, ghost views0: map<nat,
      View>, ghost group: set<int>)
    returns (ok: bool)
    requires s.Valid() && Others(views0, x, xs) && 0 <= from <= to <= |xs| < flags.Length && views0[x].cell == Ref
    requires x in s.views && s.views[x] == views0[x]
    requires Excluded(views0, s.views, xs, Domain(views0[x]), group, from)
    requires Flagged(views0, xs, |xs|, group, flags[..])
    modifies s`mem, s`owner, s`trail, s`views
    ensures s.Valid() && AreVars(s.views, xs) && OnlyVars(views0, s.views, xs)
    ensures ok ==> Excluded(views0, s.views, xs, Domain(views0[x]), group, to)
    ensures !ok ==> Emptied(views0, x, xs, group)
  {
    var numElmsLeft := |xs| - from;
    var k := from;
    while k < to
      invariant from <= k <= to && numElmsLeft == |xs| - k && s.Valid()
      invariant x in s.views && s.views[x] == views0[x]
      invariant Excluded(views0, s.views, xs, Domain(views0[x]), group, k)
    {
      assert views0[xs[k]].cell == Ref ==> (flags[..][|xs| - k] == 0 <==> k + 1 !in group);
      ok := ExcludeOne(s, x, xs, k, flags[numElmsLeft], views0, group);
      if !ok {
        return;
      }
      k := k + 1;
      numElmsLeft := numElmsLeft - 1;
    }
    ok := true;
  }

  // No all-different assignment is lost; failure means there is none.
  ghost predicate KeepsAssignments(d0: seq<set<int>>, d1: seq<set<int>>, ok: bool) {
    && |d0| == |d1|
    && (ok ==> forall i :: 0 <= i < |d0| ==> d1[i] <= d0[i])
    && (forall w :: AllDifferent(d0, w) ==> ok && AllDifferent(d1, w))
  }

  lemma GroupCrowd(views: map<nat, View>, x: nat, xs: seq<nat>, group: set<int>)
    requires Others(views, x, xs) && Counted(views, x, xs, |xs|, group)
    ensures Crowd(DomsWith(views, x, xs), group, Domain(views[x]))
  {
    forall i | i in group ensures 0 <= i < |xs| + 1 && DomsWith(views, x, xs)[i] <= Domain(views[x]) {
      if i > 0 {
        assert (i - 1) + 1 in group;
      }
    }
  }

  // After the exclusion every assignment is still there.
  lemma ExcludedFits(views0: map<nat, View>, views: map<nat, View>, x: nat, xs: seq<nat>, group: set<int>, w: seq<int>,
      i: int)
    requires Others(views0, x, xs) && Others(views, x, xs) && Counted(views0, x, xs, |xs|, group)
    requires views[x] == views0[x]
    requires |group| == |Domain(views0[x])| && Excluded(views0, views, xs, Domain(views0[x]), group, |xs|)
    requires AllDifferent(DomsWith(views0, x, xs), w) && 0 <= i <= |xs|
    ensures w[i] in DomsWith(views, x, xs)[i]
  {
    if i > 0 && i !in group {
      GroupCrowd(views0, x, xs, group);
      Occupied(DomsWith(views0, x, xs), group, Domain(views0[x]), w, i);
    }
    if i > 0 {
      assert (i - 1) + 1 == i && w[i] in Domain(views0[xs[i - 1]]);
    }
  }

  lemma ExcludedKeeps(views0: map<nat, View>, views: map<nat, View>, x: nat, xs: seq<nat>, group: set<int>)
    requires Others(views0, x, xs) && Others(views, x, xs) && Counted(views0, x, xs, |xs|, group)
    requires views[x] == views0[x]
    requires |group| == |Domain(views0[x])| && Excluded(views0, views, xs, Domain(views0[x]), group, |xs|)
    ensures KeepsAssignments(DomsWith(views0, x, xs), DomsWith(views, x, xs), true)
  {
    var d0, d1 := DomsWith(views0, x, xs), DomsWith(views, x, xs);
    forall i | 0 <= i < |d0| ensures d1[i] <= d0[i] {
      assert i > 0 ==> d0[i] == Domain(views0[xs[i - 1]]) && d1[i] == Domain(views[xs[i - 1]]);
    }
    forall w | AllDifferent(d0, w) ensures AllDifferent(d1, w) {
      forall i | 0 <= i < |w| ensures w[i] in d1[i] {
        ExcludedFits(views0, views, x, xs, group, w, i);
      }
    }
  }

  // What the propagator does: it fails on too many variables inside the domain of x, and takes the domain from all
  // others on just enough.
  ghost predicate HallPruned(v0: map<nat, View>, v1: map<nat, View>, x: nat, xs: seq<nat>, ok: bool)
    requires Others(v0, x, xs)
  {
    var h, d := HallGroup(v0, x, xs, |xs|), Domain(v0[x]);
    && (v0[x].cell.Num? || |h| < |d| ==> ok && v1 == v0)
    && (v0[x].cell == Ref && |h| > |d| ==> !ok)
    && (v0[x].cell == Ref && |h| == |d| ==> ok && Excluded(v0, v1, xs, d, h, |xs|))
  }

  // b_ALLDISTINCT_CHECK_HALL_VAR_cccc: left and right are the variables on either side of x.
  method CheckHallVar(s: Store, x: nat, left: seq<nat>, right: seq<nat>) returns (ok: bool)
    requires s.Valid() && Others(s.views, x, left + right)
    modifies s`mem, s`owner, s`trail, s`views
    ensures s.Valid() && Others(s.views, x, left + right) && OnlyVars(old(s.views), s.views, left + right)
    ensures HallPruned(old(s.views), s.views, x, left + right, ok)
    ensures KeepsAssignments(DomsWith(old(s.views), x, left + right), DomsWith(s.views, x, left + right), ok)
  {
    ghost var views0 := s.views;
    DerefView(s, x);
    if Bound(s.mem, x) {
      return true;
    }
    var xs := left + right;
    var flags := new int[|xs| + 1];
    assert Shape(s.mem, s.owner, x);
    var size := Size(s.mem, x);
    var stop, count;
    ghost var group;
    assert HallGroup(s.views, x, xs, 0) == {0};
    stop, count, group := CountIncluded(s, x, xs, 0, |left|, size, 1, flags, {0});
    if stop {
      return true;
    }
    stop, count, group := CountIncluded(s, x, xs, |left|, |xs|, size, count, flags, group);
    if stop {
      return true;
    }
    GroupCrowd(views0, x, xs, group);
    if count > size {
      TooCrowded(DomsWith(views0, x, xs), group, Domain(views0[x]));
      return false;
    }
    if count < size {
      return true;
    }
    ok := ExcludeBoth(s, x, left, right, flags, views0, group);
    ExcludedKeeps(views0, s.views, x, xs, group);
  }

  // The excluding loop over both lists. No domain is emptied: one that would be is inside x's.
  method ExcludeBoth(s: Store, x: nat, left: seq<nat>, right: seq<nat>, flags: array<int>, ghost views0: map<nat, View>,
      ghost group: set<int>)
    returns (ok: bool)
    requires s.Valid() && views0 == s.views && Others(views0, x, left + right) && |left + right| < flags.Length
    requires views0[x].cell == Ref
    requires group == HallGroup(views0, x, left + right, |left + right|)
    requires Flagged(views0, left + right, |left + right|, group, flags[..])
    modifies s`mem, s`owner, s`trail, s`views
    ensures s.Valid() && AreVars(s.views, left + right) && OnlyVars(views0, s.views, left + right)
    ensures ok && Excluded(views0, s.views, left + right, Domain(views0[x]), group, |left + right|)
  {
    var xs := left + right;
    NoneEmptied(views0, x, xs);
    ok := ExcludeList(s, x, xs, 0, |left|, flags, views0, group);
    if ok {
      ok := ExcludeList(s, x, xs, |left|, |xs|, flags, views0, group);
    }
  }
}
