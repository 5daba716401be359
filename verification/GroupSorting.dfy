/** Ordering the groups for replication, parents first. */
module GroupSorting {
  import opened Collections

  datatype Group = Group(id: Id, parentGroupId: Option<Id>)

  /** No parent group is set (an empty id counts as none). */
  predicate Parentless(g: Group) {
    g.parentGroupId.None? || g.parentGroupId.value.name == ""
  }

  ghost predicate DistinctGroups(groups: seq<Group>) {
    forall i, j :: 0 <= i < j < |groups| ==> groups[i].id != groups[j].id
  }

  /** Each member of the chain names the next one as its parent. */
  ghost predicate Chain(groups: seq<Group>, chain: seq<Group>) {
    && chain != []
    && (forall i :: 0 <= i < |chain| ==> chain[i] in groups)
    && (forall i :: 0 <= i < |chain| - 1 ==> ChildOf(chain[i], chain[i + 1]))
  }

  ghost predicate ChildOf(g: Group, parent: Group) {
    !Parentless(g) && g.parentGroupId == Some(parent.id)
  }

  /** The parents of g lead to a group without parent. */
  ghost predicate Rooted(groups: seq<Group>, g: Group) {
    exists chain :: Chain(groups, chain) && chain[0] == g && Parentless(chain[|chain| - 1])
  }

  /** The parents of g lead to a group whose parent is missing. */
  ghost predicate Orphaned(groups: seq<Group>, g: Group) {
    exists chain :: Chain(groups, chain) && chain[0] == g && MissesParent(groups, chain[|chain| - 1])
  }

  ghost predicate MissesParent(groups: seq<Group>, g: Group) {
    !Parentless(g) && forall p :: p in groups ==> g.parentGroupId != Some(p.id)
  }

  /** The parents of g lead into a cycle. */
  ghost predicate Cyclic(groups: seq<Group>, g: Group) {
    exists chain :: Chain(groups, chain) && chain[0] == g && !Distinct(chain)
  }

  /** Everything at or before place i has its parent, if any, further in front. */
  ghost predicate ParentBefore(sorted: seq<Group>, i: nat)
    requires i < |sorted|
  {
    Parentless(sorted[i]) || exists j :: 0 <= j < i && ChildOf(sorted[i], sorted[j])
  }

  /** What holds of the sorted groups at any time. */
  ghost predicate Good(groups: seq<Group>, sorted: seq<Group>) {
    && (forall g :: g in sorted ==> Rooted(groups, g))
    && (forall i :: 0 <= i < |sorted| ==> ParentBefore(sorted, i))
  }

  /** One pass over the groups still to be added. */
  method Pass(ghost groups: seq<Group>, sorted0: seq<Group>, ids0: seq<Id>, objs: seq<Group>)
    returns (sorted: seq<Group>, groupIds: seq<Id>, notAdded: seq<Group>)
    requires Split(groups, sorted0, objs) && IdsOf(sorted0, ids0) && Good(groups, sorted0)
    ensures Split(groups, sorted, notAdded) && IdsOf(sorted, groupIds) && Good(groups, sorted)
    ensures |sorted| - |sorted0| + |notAdded| == |objs|
    ensures |notAdded| <= |objs|
    ensures |notAdded| == |objs| ==> forall g :: g in notAdded ==> !Addable(groupIds, g)
  {
    sorted, groupIds, notAdded := sorted0, ids0, [];
    PassStarts(groups, sorted, objs);
    assert |ids0| == |sorted0|;
    hide Good, Pending, IdsOf, Split;
    for k := 0 to |objs|
      invariant Pending(groups, sorted, notAdded, objs, k) && IdsOf(sorted, groupIds) && Good(groups, sorted)
      invariant |sorted| - |sorted0| + |notAdded| == k && |sorted| >= |sorted0|
      invariant ids0 <= groupIds && |groupIds| == |sorted|
      invariant forall g :: g in notAdded ==> !Addable(ids0, g)
    {
      var obj := objs[k];
      if Parentless(obj) || obj.parentGroupId.value in groupIds {
        Take(groups, sorted, groupIds, notAdded, objs, k);
        IdsGrow(sorted, groupIds, obj);
        sorted := sorted + [obj];
        groupIds := groupIds + [obj.id];
      } else {
        Skip(groups, sorted, notAdded, objs, k);
        assert forall x :: x in ids0 ==> x in groupIds;
        notAdded := notAdded + [obj];
      }
    }
    PassOver(groups, sorted, notAdded, objs);
  }

  /** Repeated passes: a group is taken as soon as its parent has been taken, until a pass takes none. */
  method SortGroups(groups: seq<Group>) returns (sorted: seq<Group>)
    requires DistinctGroups(groups)
    ensures Distinct(sorted)
    ensures forall i :: 0 <= i < |sorted| ==> ParentBefore(sorted, i)
    ensures forall g :: g in sorted <==> g in groups && Rooted(groups, g)
  {
    sorted := [];
    var groupIds: seq<Id> := [];
    var objs := groups;
    ghost var rest := groups;
    while true
      invariant Split(groups, sorted, objs) && IdsOf(sorted, groupIds) && Good(groups, sorted)
      decreases |objs|
    {
      var notAdded;
      sorted, groupIds, notAdded := Pass(groups, sorted, groupIds, objs);
      rest := notAdded;
      if notAdded == [] {
        break;
      }
      if |notAdded| == |objs| {
        LeftOutNotRooted(groups, sorted, groupIds, notAdded);
        break;
      }
      objs := notAdded;
    }
    SplitMembers(groups, sorted, rest);
    GroupsDistinct(groups);
    SplitDistinct(groups, sorted, rest);
  }

  ghost predicate IdsOf(sorted: seq<Group>, ids: seq<Id>) {
    |ids| == |sorted| && forall i :: 0 <= i < |ids| ==> ids[i] == sorted[i].id
  }

  ghost predicate Addable(groupIds: seq<Id>, g: Group) {
    Parentless(g) || g.parentGroupId.value in groupIds
  }

  lemma GroupsDistinct(groups: seq<Group>)
    requires DistinctGroups(groups)
    ensures Distinct(groups)
  {
  }

  /** During a pass: k of the groups have been looked at. */
  ghost predicate Pending(groups: seq<Group>, sorted: seq<Group>, notAdded: seq<Group>, objs: seq<Group>, k: nat) {
    k <= |objs| && Split(groups, sorted, notAdded + objs[k..])
  }

  lemma IdsGrow(sorted: seq<Group>, ids: seq<Id>, obj: Group)
    requires IdsOf(sorted, ids)
    ensures IdsOf(sorted + [obj], ids + [obj.id])
  {
  }

  lemma PassStarts(groups: seq<Group>, sorted: seq<Group>, objs: seq<Group>)
    requires Split(groups, sorted, objs)
    ensures Pending(groups, sorted, [], objs, 0)
  {
    assert [] + objs[0..] == objs;
  }

  lemma PassOver(groups: seq<Group>, sorted: seq<Group>, notAdded: seq<Group>, objs: seq<Group>)
    requires Pending(groups, sorted, notAdded, objs, |objs|)
    ensures Split(groups, sorted, notAdded)
  {
    assert notAdded + objs[|objs|..] == notAdded;
  }

  lemma Skip(groups: seq<Group>, sorted: seq<Group>, notAdded: seq<Group>, objs: seq<Group>, k: nat)
    requires k < |objs| && Pending(groups, sorted, notAdded, objs, k)
    ensures Pending(groups, sorted, notAdded + [objs[k]], objs, k + 1)
  {
    assert notAdded + objs[k..] == (notAdded + [objs[k]]) + objs[k + 1..];
  }

  lemma Take(groups: seq<Group>, sorted: seq<Group>, groupIds: seq<Id>, notAdded: seq<Group>, objs: seq<Group>, k: nat)
    requires k < |objs| && Pending(groups, sorted, notAdded, objs, k)
    requires IdsOf(sorted, groupIds) && Addable(groupIds, objs[k]) && Good(groups, sorted)
    ensures Pending(groups, sorted + [objs[k]], notAdded, objs, k + 1)
    ensures Good(groups, sorted + [objs[k]])
  {
    var obj := objs[k];
    assert objs[k..] == [obj] + objs[k + 1..];
    Adopt(groups, sorted, groupIds, notAdded + objs[k..], obj);
  }

  lemma Adopt(groups: seq<Group>, sorted: seq<Group>, groupIds: seq<Id>, rest: seq<Group>, obj: Group)
    requires Split(groups, sorted, rest) && obj in rest
    requires IdsOf(sorted, groupIds) && Addable(groupIds, obj) && Good(groups, sorted)
    ensures Good(groups, sorted + [obj])
  {
    SplitMembers(groups, sorted, rest);
    if Parentless(obj) {
      assert Chain(groups, [obj]);
    } else {
      var i :| 0 <= i < |groupIds| && groupIds[i] == obj.parentGroupId.value;
      assert sorted[i] in sorted && ChildOf(obj, sorted[i]) && (sorted + [obj])[i] == sorted[i];
      var chain :| Chain(groups, chain) && chain[0] == sorted[i] && Parentless(chain[|chain| - 1]);
      ExtendChain(groups, obj, chain);
    }
    forall i | 0 <= i < |sorted| ensures ParentBefore(sorted + [obj], i) {
      assert ParentBefore(sorted, i);
      if !Parentless(sorted[i]) {
        var j :| 0 <= j < i && ChildOf(sorted[i], sorted[j]);
        assert (sorted + [obj])[j] == sorted[j];
      }
    }
  }

  lemma ExtendChain(groups: seq<Group>, g: Group, chain: seq<Group>)
    requires Chain(groups, chain) && g in groups && ChildOf(g, chain[0])
    ensures Chain(groups, [g] + chain)
  {
    var longer := [g] + chain;
    forall i | 0 <= i < |longer| - 1 ensures ChildOf(longer[i], longer[i + 1]) {
      if i > 0 { assert ChildOf(chain[i - 1], chain[i]); }
    }
  }

  lemma LeftOutNotRooted(groups: seq<Group>, sorted: seq<Group>, groupIds: seq<Id>, rest: seq<Group>)
    requires DistinctGroups(groups) && Split(groups, sorted, rest) && IdsOf(sorted, groupIds)
    requires forall g :: g in rest ==> !Addable(groupIds, g)
    ensures forall g :: g in rest ==> !Rooted(groups, g)
  {
    SplitMembers(groups, sorted, rest);
    forall g | g in rest ensures !Rooted(groups, g) {
      forall chain | Chain(groups, chain) && chain[0] == g ensures !Parentless(chain[|chain| - 1]) {
        StaysLeftOut(groups, sorted, groupIds, rest, chain, |chain| - 1);
      }
    }
  }

  lemma {:induction false} StaysLeftOut(groups: seq<Group>, sorted: seq<Group>, groupIds: seq<Id>, rest: seq<Group>,
                                        chain: seq<Group>, i: nat)
    requires Split(groups, sorted, rest) && IdsOf(sorted, groupIds)
    requires forall g :: g in rest ==> !Addable(groupIds, g)
    requires Chain(groups, chain) && chain[0] in rest && i < |chain|
    ensures chain[i] in rest
  {
    if i == 0 {
    } else {
      StaysLeftOut(groups, sorted, groupIds, rest, chain, i - 1);
      SplitMembers(groups, sorted, rest);
      assert ChildOf(chain[i - 1], chain[i]);
      assert !Addable(groupIds, chain[i - 1]);
      forall j | 0 <= j < |sorted| ensures sorted[j] != chain[i] {
        assert groupIds[j] in groupIds;
      }
    }
  }

  // ----- who is left out -----

  lemma SameGroup(groups: seq<Group>, a: Group, b: Group)
    requires DistinctGroups(groups) && a in groups && b in groups && a.id == b.id
    ensures a == b
  {
    var i :| 0 <= i < |groups| && groups[i] == a;
    var j :| 0 <= j < |groups| && groups[j] == b;
  }

  /** Two chains from the same group agree as far as both go. */
  lemma {:induction false} ChainsAgree(groups: seq<Group>, a: seq<Group>, b: seq<Group>, i: nat)
    requires DistinctGroups(groups) && Chain(groups, a) && Chain(groups, b) && a[0] == b[0]
    requires i < |a| && i < |b|
    ensures a[i] == b[i]
  {
    if i == 0 {
    } else {
      ChainsAgree(groups, a, b, i - 1);
      assert ChildOf(a[i - 1], a[i]) && ChildOf(b[i - 1], b[i]);
      SameGroup(groups, a[i], b[i]);
    }
  }

  /** Following the parents of g for the given number of steps, or until there is nothing to follow. */
  lemma {:induction false} Follow(groups: seq<Group>, g: Group, steps: nat) returns (chain: seq<Group>)
    requires g in groups
    ensures Chain(groups, chain) && chain[0] == g
    ensures Parentless(chain[|chain| - 1]) || MissesParent(groups, chain[|chain| - 1]) || |chain| == steps + 1
  {
    if steps == 0 {
      chain := [g];
    } else {
      var before := Follow(groups, g, steps - 1);
      var last := before[|before| - 1];
      if Parentless(last) || MissesParent(groups, last) {
        chain := before;
      } else {
        var p :| p in groups && last.parentGroupId == Some(p.id);
        chain := before + [p];
        forall i | 0 <= i < |chain| - 1 ensures ChildOf(chain[i], chain[i + 1]) {
          if i < |before| - 1 { assert ChildOf(before[i], before[i + 1]); }
        }
      }
    }
  }

  /** A group is left out exactly when its ancestors lead to a missing group or into a cycle. */
  lemma LeftOutExactly(groups: seq<Group>, g: Group)
    requires DistinctGroups(groups) && g in groups
    ensures !Rooted(groups, g) <==> Orphaned(groups, g) || Cyclic(groups, g)
  {
    var chain := Follow(groups, g, |Elements(groups)|);
    var last := chain[|chain| - 1];
    if !Parentless(last) && !MissesParent(groups, last) {
      var i, j := Pigeonhole(chain, Elements(groups));
      assert Cyclic(groups, g);
    }
    if Rooted(groups, g) {
      var root :| Chain(groups, root) && root[0] == g && Parentless(root[|root| - 1]);
      forall c | Chain(groups, c) && c[0] == g ensures !MissesParent(groups, c[|c| - 1]) && Distinct(c) {
        RootedChain(groups, root, c);
      }
    }
  }

  /** Beside a chain to a root, any other chain from the same group is a part of it. */
  lemma RootedChain(groups: seq<Group>, root: seq<Group>, c: seq<Group>)
    requires DistinctGroups(groups) && Chain(groups, root) && Parentless(root[|root| - 1])
    requires Chain(groups, c) && c[0] == root[0]
    ensures |c| <= |root| && !MissesParent(groups, c[|c| - 1]) && Distinct(c)
  {
    assert |c| > |root| ==> ChildOf(c[|root| - 1], c[|root|]);
    if |c| > |root| {
      ChainsAgree(groups, c, root, |root| - 1);
      assert false;
    }
    ChainsAgree(groups, c, root, |c| - 1);
    if |c| < |root| { assert ChildOf(root[|c| - 1], root[|c|]); }
    forall i, j | 0 <= i < j < |c| ensures c[i] != c[j] {
      ChainsAgree(groups, c, root, i);
      ChainsAgree(groups, c, root, j);
      RootDistinct(groups, root, i, j);
    }
  }

  /** If two places held the same group, so would all later pairs, up to the root, which has no parent. */
  lemma {:induction false} RootDistinct(groups: seq<Group>, root: seq<Group>, i: nat, j: nat)
    requires DistinctGroups(groups) && Chain(groups, root) && Parentless(root[|root| - 1])
    requires i < j < |root|
    ensures root[i] != root[j]
    decreases |root| - j
  {
    assert ChildOf(root[i], root[i + 1]);
    if j + 1 == |root| {
    } else {
      RootDistinct(groups, root, i + 1, j + 1);
      assert ChildOf(root[j], root[j + 1]);
      if root[i] == root[j] { SameGroup(groups, root[i + 1], root[j + 1]); }
    }
  }
}
