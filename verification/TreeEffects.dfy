/** What each write makes of the rows, said of the two tables alone. */
module TreeEffects {
  import opened Options
  import opened TransferStates
  import opened Forest
  import opened FileTrees
  import opened HierarchyWrites
  import opened TreeCopies

  predicate SameContent(a: Node, b: Node) {
    a.isFolder == b.isFolder && a.workspace == b.workspace && a.space == b.space && a.objectKey == b.objectKey
  }

  /** The node hangs where it was asked to, top level included; nothing else has changed. */
  predicate IsMove(before: Tree, after: Tree, x: Id, target: Option<Id>) {
    && x in before && after.Keys == before.Keys
    && after[x].parent == target && SameContent(after[x], before[x])
    && after[x].archivedAt == before[x].archivedAt && after[x].originalParent == before[x].originalParent
    && forall y :: y in before && y != x ==> after[y] == before[y]
  }

  /** One row more: active, at the target, a folder unless it has content. */
  predicate IsCreation(before: Tree, after: Tree, x: Id, target: Option<Id>, workspace: nat, space: nat, objectKey: Option<ObjectKey>) {
    && x !in before && after.Keys == before.Keys + {x}
    && after[x].parent == target && after[x].archivedAt.None? && after[x].originalParent.None?
    && after[x].workspace == workspace && after[x].space == space
    && after[x].objectKey == objectKey && (after[x].isFolder <==> objectKey.None?)
    && forall y :: y in before ==> after[y] == before[y]
  }

  /** Everything at and below the root is in the trash, with the time and the place it had if it was there before. */
  ghost predicate IsArchiving(before: Tree, after: Tree, root: Id, now: Time) {
    && after.Keys == before.Keys
    && (forall y :: y in before && Under(Parents(before), y, root) ==>
          && after[y].archivedAt == Some(if before[y].archivedAt.Some? then before[y].archivedAt.value else now)
          && after[y].originalParent == (if before[y].originalParent.Some? then before[y].originalParent else before[y].parent)
          && after[y].parent == before[y].parent && SameContent(after[y], before[y]))
    && forall y :: y in before && !Under(Parents(before), y, root) ==> after[y] == before[y]
  }

  /** The rows at and below the root that have its timestamp are active again, the root at the target and the others where they were. */
  ghost predicate IsRestoration(before: Tree, after: Tree, root: Id, target: Option<Id>) {
    && root in before && after.Keys == before.Keys
    && (forall y :: y in before && Under(Parents(before), y, root) && before[y].archivedAt == before[root].archivedAt ==>
          && after[y].archivedAt.None? && after[y].originalParent.None? && SameContent(after[y], before[y])
          && after[y].parent == if y == root then target else before[y].parent)
    && forall y :: y in before && !(Under(Parents(before), y, root) && before[y].archivedAt == before[root].archivedAt) ==>
         after[y] == before[y]
  }

  /** Exactly the rows at and below the root are gone. */
  ghost predicate IsDeletion(before: Tree, after: Tree, root: Id) {
    && (forall y :: y in after <==> y in before && !Under(Parents(before), y, root))
    && forall y :: y in after ==> after[y] == before[y]
  }

  /**
   For each active row at and below the root there is one new row, active and of the same content; the new root
   hangs from the target, and the others hang from each other as the rows do that they were made from.
   */
  ghost predicate IsCopying(before: Tree, after: Tree, root: Id, target: Option<Id>, idMap: map<Id, Id>) {
    && idMap.Keys == ActiveBelow(before, root) && root in idMap && idMap.Values !! before.Keys
    && (forall x, y :: x in idMap && y in idMap && idMap[x] == idMap[y] ==> x == y)
    && (forall y :: y in after <==> y in before || y in idMap.Values)
    && (forall y :: y in before ==> after[y] == before[y])
    && forall x :: x in idMap ==>
         && idMap[x] in after && x in before && IsCopyOf(after[idMap[x]], before[x])
         && if x == root then after[idMap[x]].parent == target
            else before[x].parent.Some? && before[x].parent.value in idMap && after[idMap[x]].parent == Some(idMap[before[x].parent.value])
  }

  predicate IsCopyOf(a: Node, b: Node) {
    a.archivedAt.None? && a.originalParent.None? && SameContent(a, b)
  }

  lemma MovedIsMove(t: Tree, x: Id, target: Option<Id>)
    requires x in t
    ensures IsMove(t, Moved(t, x, target), x, target)
  {
  }

  lemma NewIsCreation(t: Tree, x: Id, target: Option<Id>, workspace: nat, space: nat, objectKey: Option<ObjectKey>)
    requires x !in t
    ensures IsCreation(t, WithNew(t, x, target, workspace, space, objectKey), x, target, workspace, space, objectKey)
  {
  }

  lemma ArchivedIsArchiving(t: Tree, root: Id, now: Time)
    ensures IsArchiving(t, Archived(t, SubtreeRows(t, root).Keys, now), root, now)
  {
  }

  lemma RestoredIsRestoration(t: Tree, root: Id, target: Option<Id>)
    requires root in t
    ensures IsRestoration(t, Restored(t, SubtreeRows(t, root).Keys, root, target), root, target)
  {
    assert Reaches(Parents(t), root, root, 0);
    assert Under(Parents(t), root, root);
  }

  lemma RemovedIsDeletion(t: Tree, root: Id)
    ensures IsDeletion(t, t - SubtreeRows(t, root).Keys, root)
  {
  }

  lemma CopyIsCopying(t: Tree, after: Tree, root: Id, target: Option<Id>, idMap: map<Id, Id>)
    requires Active(t, root) && IsCopy(t, after, root, target, idMap)
    ensures IsCopying(t, after, root, target, idMap)
  {
    assert Reaches(ActiveParents(t), root, root, 0);
    assert root in idMap.Keys;
    forall x | x in idMap
      ensures idMap[x] in after && IsCopyOf(after[idMap[x]], t[x])
      ensures x == root ==> after[idMap[x]].parent == target
      ensures x != root ==>
        t[x].parent.Some? && t[x].parent.value in idMap && after[idMap[x]].parent == Some(idMap[t[x].parent.value])
    {
      CopyParent(t, after, root, target, idMap, x);
    }
  }
}
