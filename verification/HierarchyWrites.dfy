/**
 The reads that come before a write to the hierarchy: the climb from a target to the top, and the
 walk down an active tree. Rows are locked as they are met.
 */
module HierarchyWrites {
  import opened Options
  import opened TransferStates
  import opened Forest
  import opened FileTrees

  datatype ParentCheck = Valid | Changed | InsideItself | HasCycle | NotFolder | OtherWorkspace | OtherSpace

  /** Every node from `p` up to the top is active and is not the forbidden one, and there is a top. */
  ghost predicate ClearAbove(t: Tree, p: Id, forbidden: Option<Id>) {
    && RootedSomehow(Parents(t), p)
    && forall r: Id :: Under(Parents(t), p, r) ==> Active(t, r) && forbidden != Some(r)
  }

  /** Where a node may be hung. */
  ghost predicate LegalTarget(t: Tree, target: Option<Id>, forbidden: Option<Id>, workspace: nat, space: nat) {
    target.Some? ==> Houses(t, target.value, workspace, space) && ClearAbove(t, target.value, forbidden)
  }

  /** A finished climb over active nodes has shown that the way is clear. */
  lemma FinishedClimbIsClear(t: Tree, path: seq<Id>, forbidden: Option<Id>)
    requires IsChain(Parents(t), path, None) && |path| > 0
    requires forall i :: 0 <= i < |path| ==> Active(t, path[i]) && forbidden != Some(path[i])
    ensures ClearAbove(t, path[0], forbidden)
  {
    ChainRooted(Parents(t), path, 0);
    forall r: Id | Under(Parents(t), path[0], r) ensures Active(t, r) && forbidden != Some(r) {
      var k: nat :| Reaches(Parents(t), path[0], r, k);
      ChainIsAll(Parents(t), path, r, k);
    }
  }

  /**
   The climb that every write makes before it hangs a node somewhere. It accepts exactly the legal
   targets, and then has locked every ancestor.
   */
  method LockAndValidateActiveParent(tree: Tree, parent: Option<Id>, forbidden: Option<Id>, workspace: nat, space: nat)
    returns (r: ParentCheck, lockedIds: seq<Id>)
    ensures r == Valid <==> LegalTarget(tree, parent, forbidden, workspace, space)
    ensures r == Valid <==>
      (parent.Some? ==>
         && parent.value in tree && tree[parent.value].isFolder
         && tree[parent.value].workspace == workspace && tree[parent.value].space == space
         && RootedSomehow(Parents(tree), parent.value)
         && forall a: Id :: Under(Parents(tree), parent.value, a) ==> a in tree && tree[a].archivedAt.None? && forbidden != Some(a))
    ensures r == Valid ==> IsChain(Parents(tree), lockedIds, None) && (parent.Some? <==> |lockedIds| > 0)
    ensures r == Valid && parent.Some? ==> lockedIds[0] == parent.value
    ensures r == Valid && forbidden.Some? ==> forbidden.value !in lockedIds
    ensures r == InsideItself ==> forbidden.Some? && Under(Parents(tree), parent.value, forbidden.value)
    ensures r == HasCycle ==> !RootedSomehow(Parents(tree), parent.value)
    ensures r == Changed ==> exists a: Id :: Under(Parents(tree), parent.value, a) && !(a in tree && tree[a].archivedAt.None?)
    ensures r in {NotFolder, OtherWorkspace, OtherSpace} ==>
      var p := parent.value;
      && p in tree && tree[p].archivedAt.None? && forbidden != Some(p)
      && r == if !tree[p].isFolder then NotFolder else if tree[p].workspace != workspace then OtherWorkspace else OtherSpace
  {
    lockedIds := [];
    if parent.None? {
      return Valid, lockedIds;
    }
    var visited: set<Id> := {};
    var ancestorId := parent;
    assert Reaches(Parents(tree), parent.value, parent.value, 0);
    while ancestorId.Some?
      invariant IsChain(Parents(tree), lockedIds, ancestorId)
      invariant lockedIds == [] ==> ancestorId == parent
      invariant lockedIds != [] ==> lockedIds[0] == parent.value && Houses(tree, parent.value, workspace, space)
      invariant forall i :: 0 <= i < |lockedIds| ==> Active(tree, lockedIds[i]) && forbidden != Some(lockedIds[i])
      invariant forall i, j :: 0 <= i < j < |lockedIds| ==> lockedIds[i] != lockedIds[j]
      invariant forall x :: x in visited <==> x in lockedIds
      decreases tree.Keys - visited
    {
      var x := ancestorId.value;
      if lockedIds != [] {
        ChainReaches(Parents(tree), lockedIds, ancestorId, |lockedIds|);
      }
      assert Under(Parents(tree), parent.value, x);
      if forbidden == Some(x) {
        return InsideItself, lockedIds;
      }
      if x in visited {
        RevisitMeansCycle(Parents(tree), lockedIds, x);
        return HasCycle, lockedIds;
      }
      if x !in tree || tree[x].archivedAt.Some? {
        return Changed, lockedIds;
      }
      if lockedIds == [] {
        if !tree[x].isFolder {
          return NotFolder, lockedIds;
        }
        if tree[x].workspace != workspace {
          return OtherWorkspace, lockedIds;
        }
        if tree[x].space != space {
          return OtherSpace, lockedIds;
        }
      }
      visited := visited + {x};
      lockedIds := lockedIds + [x];
      ancestorId := tree[x].parent;
    }
    FinishedClimbIsClear(tree, lockedIds, forbidden);
    return Valid, lockedIds;
  }

  function ActiveParents(t: Tree): ParentMap {
    map x | x in t && t[x].archivedAt.None? :: t[x].parent
  }

  /** The root and what can be reached from it through active children. */
  ghost function ActiveBelow(t: Tree, root: Id): set<Id> {
    set x | x in t && t[x].archivedAt.None? && Under(ActiveParents(t), x, root)
  }

  function ActiveChildren(t: Tree, parentIds: set<Id>): set<Id> {
    set x | x in t && t[x].archivedAt.None? && t[x].parent.Some? && t[x].parent.value in parentIds
  }

  lemma ChildIsBelow(t: Tree, root: Id, x: Id)
    requires Active(t, x) && t[x].parent.Some? && t[x].parent.value in ActiveBelow(t, root)
    ensures x in ActiveBelow(t, root)
  {
    var k: nat :| Reaches(ActiveParents(t), t[x].parent.value, root, k);
    assert Reaches(ActiveParents(t), x, root, k + 1);
  }

  lemma {:induction false} ClosedHoldsAll(t: Tree, root: Id, found: set<Id>, x: Id, k: nat)
    requires root in found && ActiveChildren(t, found) <= found
    requires Active(t, x) && Active(t, root) && Reaches(ActiveParents(t), x, root, k)
    ensures x in found
    decreases k
  {
    if k > 0 {
      var p := t[x].parent.value;
      assert p in ActiveParents(t) || k == 1;
      ClosedHoldsAll(t, root, found, p, k - 1);
      assert x in ActiveChildren(t, found);
    }
  }

  /** The state of the walk: `frontier` is the last level found, and everything above it has been expanded. */
  ghost predicate Walked(t: Tree, root: Id, visited: set<Id>, frontier: set<Id>) {
    && Active(t, root)
    && root in visited
    && frontier <= visited <= ActiveBelow(t, root)
    && ActiveChildren(t, visited - frontier) <= visited
    && forall x :: x in visited && x != root ==> t[x].parent.Some? && t[x].parent.value in visited - frontier
  }

  lemma WalkStep(t: Tree, root: Id, visited: set<Id>, frontier: set<Id>)
    requires Walked(t, root, visited, frontier) && ActiveChildren(t, frontier) !! visited
    ensures Walked(t, root, visited + ActiveChildren(t, frontier), ActiveChildren(t, frontier))
  {
    var children := ActiveChildren(t, frontier);
    forall x | x in children ensures x in ActiveBelow(t, root) {
      ChildIsBelow(t, root, x);
    }
    assert visited + children - children == visited;
    forall x | x in ActiveChildren(t, visited) ensures x in visited + children {
      assert x in ActiveChildren(t, visited - frontier) || x in children;
    }
  }

  lemma WalkMetItself(t: Tree, root: Id, visited: set<Id>, frontier: set<Id>, c: Id)
    requires Walked(t, root, visited, frontier) && c in ActiveChildren(t, frontier) && c in visited
    ensures OnCycle(ActiveParents(t), root)
  {
    assert c == root;
    var k: nat :| Reaches(ActiveParents(t), t[root].parent.value, root, k);
    assert Reaches(ActiveParents(t), root, root, k + 1);
  }

  lemma WalkDone(t: Tree, root: Id, visited: set<Id>, frontier: set<Id>)
    requires Walked(t, root, visited, frontier) && ActiveChildren(t, frontier) == {}
    ensures visited == ActiveBelow(t, root)
  {
    forall x | x in ActiveChildren(t, visited) ensures x in visited {
      assert x in ActiveChildren(t, visited - frontier) || x in ActiveChildren(t, frontier);
    }
    forall x | x in ActiveBelow(t, root) ensures x in visited {
      var k: nat :| Reaches(ActiveParents(t), x, root, k);
      ClosedHoldsAll(t, root, visited, x, k);
    }
  }

  /** Level by level. Nothing is returned for a root that is not active or that lies on a cycle. */
  method CollectLockedActiveTree(tree: Tree, root: Id) returns (rows: Option<seq<Id>>)
    ensures rows.None? ==> !Active(tree, root) || OnCycle(ActiveParents(tree), root)
    ensures rows.Some? ==> Active(tree, root) && ListsOnce(rows.value, ActiveBelow(tree, root))
    ensures rows.Some? ==> |rows.value| > 0 && rows.value[0] == root
  {
    if root !in tree || tree[root].archivedAt.Some? {
      return None;
    }
    var collected := [root];
    var visited := {root};
    var parentIds := {root};
    assert Reaches(ActiveParents(tree), root, root, 0);
    while ActiveChildren(tree, parentIds) != {}
      invariant Walked(tree, root, visited, parentIds)
      invariant ListsOnce(collected, visited)
      invariant |collected| > 0 && collected[0] == root
      decreases tree.Keys - visited
    {
      var children := ActiveChildren(tree, parentIds);
      if !(children !! visited) {
        var c :| c in children && c in visited;
        WalkMetItself(tree, root, visited, parentIds, c);
        return None;
      }
      WalkStep(tree, root, visited, parentIds);
      var c :| c in children;
      assert c in tree.Keys - visited;
      var level := ListRows(children);
      ListsBoth(collected, level, visited, children);
      collected := collected + level;
      visited := visited + children;
      parentIds := children;
    }
    WalkDone(tree, root, visited, parentIds);
    return Some(collected);
  }
}
