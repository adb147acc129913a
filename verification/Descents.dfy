// Variables that are narrowed more than once, also after they were bound: what is true of them all along.
module Descents {
  import opened Trail
  import opened Stores
  import opened Region

  // t is a value the variable can still take, also by the description a binding leaves behind.
  ghost predicate Keeps(v: View, t: int) {
    t in v.described && (v.cell.Num? ==> v.cell.n == t)
  }

  // What becomes of a variable: its description shrinks, a value it is bound to was possible, and an integer stays.
  ghost predicate Descends(v0: View, v: View) {
    && v.described <= v0.described && (v0.cell.Num? ==> v.cell == v0.cell)
    && (v0.cell == Ref && v.cell.Num? ==> v.cell.n in v0.described)
  }

  ghost predicate AllDescend(views0: map<nat, View>, views: map<nat, View>, st: seq<nat>) {
    forall k :: 0 <= k < |st| ==> st[k] in views0 && st[k] in views && Descends(views0[st[k]], views[st[k]])
  }

  lemma DescendsOn(views0: map<nat, View>, v1: map<nat, View>, v2: map<nat, View>, st: seq<nat>)
    requires AllDescend(views0, v1, st) && AllDescend(v1, v2, st)
    ensures AllDescend(views0, v2, st)
  {
    forall k | 0 <= k < |st| ensures Descends(views0[st[k]], v2[st[k]]) {
      assert Descends(views0[st[k]], v1[st[k]]) && Descends(v1[st[k]], v2[st[k]]);
    }
  }

  lemma DescendsStep(views0: map<nat, View>, v1: map<nat, View>, v2: map<nat, View>, st: seq<nat>, k: int, r: set<int>)
    requires AllDescend(views0, v1, st) && 0 <= k < |st| && Changed(v1, v2, st[k]) && views0[st[k]].cell == Ref
    requires r <= v1[st[k]].described && Narrows(v1[st[k]], r, v2[st[k]])
    ensures AllDescend(views0, v2, st)
  {
    forall j | 0 <= j < |st| ensures Descends(views0[st[j]], v2[st[j]]) {
      assert Descends(views0[st[j]], v1[st[j]]);
      if st[j] == st[k] && |r| == 1 {
        assert v2[st[k]].cell.n in r;
      }
    }
  }
}
