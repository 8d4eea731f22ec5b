/** What a copy of a folder is: one new row for each active row of its tree, hung together in the same way. */
module TreeCopies {
  import opened Options
  import opened TransferStates
  import opened Forest
  import opened FileTrees
  import opened HierarchyWrites

  /** In a tree in order these are all the active nodes below the root. */
  lemma ActiveBelowIsWholeSubtree(t: Tree, root: Id)
    requires TreeOk(t) && Active(t, root)
    ensures ActiveBelow(t, root) == set x | x in SubtreeRows(t, root) && t[x].archivedAt.None?
  {
    forall x | x in ActiveBelow(t, root) ensures x in SubtreeRows(t, root) {
      var k: nat :| Reaches(ActiveParents(t), x, root, k);
      ActiveClimbIsClimb(t, x, root, k);
    }
    forall x | x in SubtreeRows(t, root) && t[x].archivedAt.None? ensures x in ActiveBelow(t, root) {
      var k: nat :| Reaches(Parents(t), x, root, k);
      ClimbFromActiveIsActive(t, x, root, k);
    }
  }

  lemma {:induction false} ActiveClimbIsClimb(t: Tree, x: Id, root: Id, k: nat)
    requires Reaches(ActiveParents(t), x, root, k)
    ensures Reaches(Parents(t), x, root, k)
    decreases k
  {
    if k > 0 {
      ActiveClimbIsClimb(t, t[x].parent.value, root, k - 1);
    }
  }

  lemma {:induction false} ClimbFromActiveIsActive(t: Tree, x: Id, root: Id, k: nat)
    requires TreeOk(t) && Active(t, x) && Reaches(Parents(t), x, root, k)
    ensures Reaches(ActiveParents(t), x, root, k)
    decreases k
  {
    if k > 0 {
      assert x in Parents(t);
      ClimbFromActiveIsActive(t, t[x].parent.value, root, k - 1);
    }
  }

  /** The row that stands for the copy of `x`. */
  function CopiedRow(t: Tree, x: Id, root: Id, target: Option<Id>, idMap: map<Id, Id>): Node
    requires x in t
  {
    var parent :=
      if x == root then target
      else if t[x].parent.Some? && t[x].parent.value in idMap then Some(idMap[t[x].parent.value])
      else None;
    t[x].(parent := parent, archivedAt := None, originalParent := None)
  }

  predicate Injective(m: map<Id, Id>) {
    forall x, y :: x in m && y in m && m[x] == m[y] ==> x == y
  }

  /** `after` is `t` with a copy of the active tree below `root` hung under `target`. */
  ghost predicate IsCopy(t: Tree, after: Tree, root: Id, target: Option<Id>, idMap: map<Id, Id>) {
    && idMap.Keys == ActiveBelow(t, root)
    && Injective(idMap)
    && idMap.Values !! t.Keys
    && after.Keys == t.Keys + idMap.Values
    && (forall x :: x in t ==> after[x] == t[x])
    && (forall x :: x in idMap ==> after[idMap[x]] == CopiedRow(t, x, root, target, idMap))
  }

  /** The tree with the copied rows in it. */
  function WithCopy(t: Tree, root: Id, target: Option<Id>, idMap: map<Id, Id>): Tree
    requires idMap.Keys <= t.Keys && Injective(idMap)
  {
    t + map x | x in idMap :: idMap[x] := CopiedRow(t, x, root, target, idMap)
  }

  lemma WithCopyIsCopy(t: Tree, root: Id, target: Option<Id>, idMap: map<Id, Id>)
    requires idMap.Keys <= t.Keys && Injective(idMap) && idMap.Values !! t.Keys && idMap.Keys == ActiveBelow(t, root)
    ensures IsCopy(t, WithCopy(t, root, target, idMap), root, target, idMap)
  {
    var copies := map x | x in idMap :: idMap[x] := CopiedRow(t, x, root, target, idMap);
    forall z ensures z in copies <==> z in idMap.Values {
    }
    assert copies.Keys == idMap.Values;
    forall x | x in idMap ensures idMap[x] in copies && copies[idMap[x]] == CopiedRow(t, x, root, target, idMap) {
    }
  }

  /** Active rows that hang from the root and lack no active child are the active tree below it. */
  lemma CollectedIsActiveBelow(t: Tree, snapshot: ParentMap, root: Id)
    requires Placed(t) && HangsFrom(snapshot, root)
    requires forall x :: x in snapshot ==> Active(t, x) && t[x].parent == snapshot[x]
    requires forall y :: Active(t, y) && t[y].parent.Some? && t[y].parent.value in snapshot ==> y in snapshot
    ensures snapshot.Keys == ActiveBelow(t, root)
  {
    forall x | x in snapshot ensures x in ActiveBelow(t, root) {
      assert x in Parents(t);
      var k: nat :| Rooted(Parents(t), x, k);
      CollectedReaches(t, snapshot, root, x, k);
    }
    forall x | x in ActiveBelow(t, root) ensures x in snapshot {
      var k: nat :| Reaches(ActiveParents(t), x, root, k);
      ReachedIsCollected(t, snapshot, root, x, k);
    }
  }

  lemma {:induction false} CollectedReaches(t: Tree, snapshot: ParentMap, root: Id, x: Id, k: nat)
    requires HangsFrom(snapshot, root) && x in snapshot && Rooted(Parents(t), x, k)
    requires forall x :: x in snapshot ==> Active(t, x) && t[x].parent == snapshot[x]
    ensures exists j: nat :: Reaches(ActiveParents(t), x, root, j)
    decreases k
  {
    if x == root {
      assert Reaches(ActiveParents(t), x, root, 0);
    } else {
      CollectedReaches(t, snapshot, root, snapshot[x].value, k - 1);
      var j: nat :| Reaches(ActiveParents(t), snapshot[x].value, root, j);
      assert Reaches(ActiveParents(t), x, root, j + 1);
    }
  }

  lemma {:induction false} ReachedIsCollected(t: Tree, snapshot: ParentMap, root: Id, x: Id, k: nat)
    requires root in snapshot && Reaches(ActiveParents(t), x, root, k)
    requires forall y :: Active(t, y) && t[y].parent.Some? && t[y].parent.value in snapshot ==> y in snapshot
    ensures x in snapshot
    decreases k
  {
    if k > 0 {
      ReachedIsCollected(t, snapshot, root, t[x].parent.value, k - 1);
    }
  }

  lemma ParentIsBelow(t: Tree, root: Id, x: Id, k: nat)
    requires Active(t, root) && Active(t, x) && x != root && Reaches(ActiveParents(t), x, root, k)
    ensures k > 0 && t[x].parent.Some? && t[x].parent.value in ActiveBelow(t, root)
    ensures Reaches(ActiveParents(t), t[x].parent.value, root, k - 1)
  {
    var p := t[x].parent.value;
    assert Reaches(ActiveParents(t), p, root, k - 1);
    assert p == root || Up(ActiveParents(t), p).Some?;
  }

  /** The copy has the shape of the original: the bijection carries parents to parents and keeps the contents. */
  lemma CopyIsIsomorphic(t: Tree, after: Tree, root: Id, target: Option<Id>, idMap: map<Id, Id>, x: Id, y: Id)
    requires Active(t, root) && IsCopy(t, after, root, target, idMap) && x in idMap && y in idMap
    ensures x != root ==> (after[idMap[x]].parent == Some(idMap[y]) <==> t[x].parent == Some(y))
    ensures x == root ==> after[idMap[x]].parent == target
    ensures after[idMap[x]].objectKey == t[x].objectKey && after[idMap[x]].isFolder == t[x].isFolder
    ensures after[idMap[x]].workspace == t[x].workspace && after[idMap[x]].space == t[x].space
    ensures after[idMap[x]].archivedAt.None? && after[idMap[x]].originalParent.None?
  {
    if x != root {
      var k: nat :| Reaches(ActiveParents(t), x, root, k);
      ParentIsBelow(t, root, x, k);
    }
  }

  lemma {:induction false} OldClimbEnds(t: Tree, after: Tree, x: Id, k: nat)
    requires NoDangling(Parents(t)) && x in t && Rooted(Parents(t), x, k)
    requires forall y :: y in t ==> y in after && after[y] == t[y]
    ensures Rooted(Parents(after), x, k)
    decreases k
  {
    if t[x].parent.Some? {
      assert x in Parents(t);
      OldClimbEnds(t, after, t[x].parent.value, k - 1);
    }
  }

  /** The parents of a copy are the copies of the parents, up to the copy of the root. */
  predicate ParentsCarried(ps: ParentMap, copied: ParentMap, root: Id, idMap: map<Id, Id>) {
    forall y :: y in idMap && y != root ==>
      Up(ps, y).Some? && Up(ps, y).value in idMap && Up(copied, idMap[y]) == Some(idMap[Up(ps, y).value])
  }

  lemma {:induction false} NewClimbEnds(ps: ParentMap, copied: ParentMap, root: Id, idMap: map<Id, Id>, x: Id, k: nat, above: nat)
    requires ParentsCarried(ps, copied, root, idMap) && root in idMap && x in idMap
    requires Reaches(ps, x, root, k) && Rooted(copied, idMap[root], above)
    ensures RootedSomehow(copied, idMap[x])
    decreases k
  {
    if x != root {
      var p := Up(ps, x).value;
      NewClimbEnds(ps, copied, root, idMap, p, k - 1, above);
      var j: nat :| Rooted(copied, idMap[p], j);
      assert Rooted(copied, idMap[x], j + 1);
    }
  }

  lemma CopyParent(t: Tree, after: Tree, root: Id, target: Option<Id>, idMap: map<Id, Id>, x: Id)
    requires Active(t, root) && IsCopy(t, after, root, target, idMap) && x in idMap
    ensures idMap[x] in after
    ensures x == root ==> Up(Parents(after), idMap[x]) == target
    ensures x != root ==>
      t[x].parent.Some? && t[x].parent.value in idMap && Up(Parents(after), idMap[x]) == Some(idMap[t[x].parent.value])
  {
    assert idMap[x] in idMap.Values;
    if x != root {
      var k: nat :| Reaches(ActiveParents(t), x, root, k);
      ParentIsBelow(t, root, x, k);
    }
  }

  /** The new rows hang from the target or from each other. */
  lemma CopiesHangApart(t: Tree, after: Tree, root: Id, target: Option<Id>, idMap: map<Id, Id>)
    requires Active(t, root) && IsCopy(t, after, root, target, idMap)
    ensures forall z :: z in after && z !in t && after[z].parent.Some? ==> after[z].parent == target || after[z].parent.value !in t
  {
    forall z | z in after && z !in t && after[z].parent.Some? ensures after[z].parent == target || after[z].parent.value !in t {
      var x :| x in idMap && idMap[x] == z;
      CopyParent(t, after, root, target, idMap, x);
      if x != root {
        assert idMap[t[x].parent.value] in idMap.Values;
      }
    }
  }

  lemma CopyKeepsForest(t: Tree, after: Tree, root: Id, target: Option<Id>, idMap: map<Id, Id>)
    requires Placed(t) && Active(t, root) && IsCopy(t, after, root, target, idMap)
    requires target.Some? ==> target.value in t
    ensures Acyclic(Parents(after))
  {
    var ps, copied := ActiveParents(t), Parents(after);
    forall y | y in idMap && y != root
      ensures Up(ps, y).Some? && Up(ps, y).value in idMap && Up(copied, idMap[y]) == Some(idMap[Up(ps, y).value])
    {
      CopyParent(t, after, root, target, idMap, y);
    }
    assert Reaches(ps, root, root, 0);
    CopyParent(t, after, root, target, idMap, root);
    var above := 1;
    if target.Some? {
      assert target.value in Parents(t);
      var j: nat :| Rooted(Parents(t), target.value, j);
      OldClimbEnds(t, after, target.value, j);
      above := j + 1;
    }
    assert Rooted(copied, idMap[root], above);
    forall z | z in Parents(after) ensures RootedSomehow(Parents(after), z) {
      if z in t {
        assert z in Parents(t);
        var k: nat :| Rooted(Parents(t), z, k);
        OldClimbEnds(t, after, z, k);
      } else {
        var x :| x in idMap && idMap[x] == z;
        var k: nat :| Reaches(ps, x, root, k);
        NewClimbEnds(ps, copied, root, idMap, x, k, above);
      }
    }
  }

  lemma CopiedParents(t: Tree, after: Tree, root: Id, target: Option<Id>, idMap: map<Id, Id>, x: Id)
    requires Placed(t) && Active(t, root) && IsCopy(t, after, root, target, idMap) && x in idMap
    requires target.Some? ==> Active(t, target.value) && Houses(t, target.value, t[root].workspace, t[root].space)
    ensures var z := idMap[x];
      && z in after && after[z].archivedAt.None?
      && (after[z].parent.Some? ==>
            after[z].parent.value in after
            && after[after[z].parent.value].archivedAt.None?
            && Houses(after, after[z].parent.value, after[z].workspace, after[z].space))
  {
    CopyParent(t, after, root, target, idMap, x);
    if x != root {
      var p := t[x].parent.value;
      CopyParent(t, after, root, target, idMap, p);
      assert Houses(t, p, t[x].workspace, t[x].space);
    }
  }

  /** A copied tree is as much in order as the tree it was copied in. */
  lemma CopyOk(t: Tree, after: Tree, root: Id, target: Option<Id>, idMap: map<Id, Id>)
    requires Placed(t) && Active(t, root) && IsCopy(t, after, root, target, idMap)
    requires target.Some? ==> Active(t, target.value) && Houses(t, target.value, t[root].workspace, t[root].space)
    ensures Placed(after) && (Ordered(t) ==> Ordered(after))
  {
    CopyKeepsForest(t, after, root, target, idMap);
    forall z | z in after && z !in t
      ensures after[z].archivedAt.None? && after[z].originalParent.None?
      ensures after[z].parent.Some? ==>
        after[z].parent.value in after
        && after[after[z].parent.value].archivedAt.None?
        && Houses(after, after[z].parent.value, after[z].workspace, after[z].space)
    {
      var x :| x in idMap && idMap[x] == z;
      CopiedParents(t, after, root, target, idMap, x);
    }
    forall z | z in t && t[z].parent.Some? ensures t[z].parent.value in t {
      assert z in Parents(t);
    }
  }

  /** Nothing inside the copied folder is a legal target for its copy. */
  lemma CannotCopyIntoItself(t: Tree, root: Id, target: Id)
    requires root in t && Under(Parents(t), target, root)
    ensures !LegalTarget(t, Some(target), Some(root), t[root].workspace, t[root].space)
  {
  }
}
