/** The file-node repository run by one caller: what each operation accepts, and the rows it leaves behind. */
module FileNodeStores {
  import opened Options
  import opened TransferStates
  import opened Forest
  import opened FileTrees
  import opened HierarchyWrites
  import opened TreeCopies
  import opened TreeEffects

  class FileNodeStore {
    var tree: Tree

    constructor ()
      ensures tree == map[]
    {
      tree := map[];
    }

    /** A move succeeds exactly when the node is active and the target is legal for it. */
    method Move(id: Id, parent: Option<Id>) returns (moved: bool)
      modifies this
      ensures moved <==> old(Active(tree, id) && LegalTarget(tree, parent, Some(id), tree[id].workspace, tree[id].space))
      ensures tree == if moved then Moved(old(tree), id, parent) else old(tree)
      ensures moved ==> IsMove(old(tree), tree, id, parent)
      ensures old(TreeOk(tree)) ==> TreeOk(tree)
    {
      if id !in tree {
        return false;
      }
      if tree[id].archivedAt.Some? {
        return false;
      }
      var check, path := LockAndValidateActiveParent(tree, parent, Some(id), tree[id].workspace, tree[id].space);
      if check != Valid {
        return false;
      }
      if parent.Some? {
        assert Under(Parents(tree), parent.value, parent.value) by {
          assert Reaches(Parents(tree), parent.value, parent.value, 0);
        }
      }
      if TreeOk(tree) {
        MovedOk(tree, id, parent, path);
      }
      MovedIsMove(tree, id, parent);
      tree := tree[id := tree[id].(parent := parent)];
      return true;
    }

    /** A creation succeeds exactly when the target is legal. */
    method CreateFolder(id: Id, parent: Option<Id>, workspace: nat, space: nat) returns (created: bool)
      requires id !in tree
      modifies this
      ensures created <==> old(LegalTarget(tree, parent, None, workspace, space))
      ensures tree == if created then WithNew(old(tree), id, parent, workspace, space, None) else old(tree)
      ensures created ==> IsCreation(old(tree), tree, id, parent, workspace, space, None)
      ensures old(TreeOk(tree)) ==> TreeOk(tree)
    {
      var check, path := LockAndValidateActiveParent(tree, parent, None, workspace, space);
      if check != Valid {
        return false;
      }
      if parent.Some? {
        assert Under(Parents(tree), parent.value, parent.value) by {
          assert Reaches(Parents(tree), parent.value, parent.value, 0);
        }
      }
      if TreeOk(tree) {
        WithNewOk(tree, id, parent, path, workspace, space, None);
      }
      NewIsCreation(tree, id, parent, workspace, space, None);
      tree := tree[id := Node(parent, None, None, true, workspace, space, None)];
      return true;
    }

    /** `rows` is what the locked listing of the subtree returned, root first. */
    ghost predicate Lists(rows: seq<Id>, root: Id)
      reads this
    {
      && root in tree
      && |rows| > 0 && rows[0] == root
      && (forall i, j :: 0 <= i < j < |rows| ==> rows[i] != rows[j])
      && (forall x :: x in rows <==> x in SubtreeRows(tree, root))
    }

    /**
     Row by row; a row that is in the trash already keeps the time it got there. The trash stays in order
     exactly when no such row hangs below an active one and is ahead of the clock.
     */
    method ArchiveTree(root: Id, rows: seq<Id>, now: Time)
      requires Lists(rows, root)
      modifies this
      ensures tree == Archived(old(tree), SubtreeRows(old(tree), root).Keys, now)
      ensures IsArchiving(old(tree), tree, root, now)
      ensures old(TreeOk(tree)) ==> (TreeOk(tree) <==> Fits(old(tree), SubtreeRows(old(tree), root).Keys, now))
    {
      if TreeOk(tree) {
        SubtreeHangs(tree, root);
        ArchivedOk(tree, SubtreeRows(tree, root).Keys, now);
      }
      ArchivedIsArchiving(tree, root, now);
      StampRows(root, rows, now);
    }

    method StampRows(root: Id, rows: seq<Id>, now: Time)
      requires Lists(rows, root)
      modifies this
      ensures tree == Archived(old(tree), SubtreeRows(old(tree), root).Keys, now)
    {
      ghost var before := tree;
      ghost var after := Archived(before, SubtreeRows(tree, root).Keys, now);
      ghost var done: set<Id> := {};
      RowsAreTree(rows, root);
      for i := 0 to |rows|
        invariant tree.Keys == before.Keys
        invariant forall j :: 0 <= j < |rows| ==> (rows[j] in done <==> j < i)
        invariant done <= SubtreeRows(before, root).Keys
        invariant forall x :: x in tree ==> tree[x] == if x in done then after[x] else before[x]
      {
        StampRow(rows[i], now);
        done := done + {rows[i]};
      }
      assert forall x :: x in SubtreeRows(before, root) ==> x in done;
      assert tree == after;
    }

    /** What is in the trash already keeps the time it got there and the place it came from. */
    method StampRow(x: Id, now: Time)
      requires x in tree
      modifies this
      ensures tree == old(tree)[x := ArchivedRow(old(tree)[x], now)]
    {
      var row := tree[x];
      var archivedAt := if row.archivedAt.Some? then row.archivedAt else Some(now);
      var originalParent := if row.originalParent.Some? then row.originalParent else row.parent;
      tree := tree[x := row.(archivedAt := archivedAt, originalParent := originalParent)];
    }

    lemma RowsAreTree(rows: seq<Id>, root: Id)
      requires Lists(rows, root)
      ensures forall j :: 0 <= j < |rows| ==> rows[j] in SubtreeRows(tree, root) && rows[j] in tree
      ensures forall x :: x in SubtreeRows(tree, root) ==> exists j :: 0 <= j < |rows| && rows[j] == x
    {
      forall x | x in SubtreeRows(tree, root) ensures exists j :: 0 <= j < |rows| && rows[j] == x {
        assert x in rows;
      }
      forall j | 0 <= j < |rows| ensures rows[j] in SubtreeRows(tree, root) && rows[j] in tree {
        assert rows[j] in rows;
      }
    }

    /** An archived root comes back, with the rows archived at the same moment, below a legal target. */
    method RestoreTree(root: Id, rows: seq<Id>, choice: Option<Option<Id>>) returns (restored: bool)
      requires Lists(rows, root)
      modifies this
      ensures var target := if choice.Some? then choice.value else old(tree)[root].originalParent;
        && (restored <==>
              (old(tree)[root].archivedAt.Some? &&
               LegalTarget(old(tree), target, Some(root), old(tree)[root].workspace, old(tree)[root].space)))
        && tree == (if restored then Restored(old(tree), SubtreeRows(old(tree), root).Keys, root, target) else old(tree))
        && (restored ==> IsRestoration(old(tree), tree, root, target))
      ensures old(TreeOk(tree)) ==> TreeOk(tree)
    {
      var source := tree[root];
      if source.archivedAt.None? {
        return false;
      }
      var target := if choice.Some? then choice.value else source.originalParent;
      var check, path := LockAndValidateActiveParent(tree, target, Some(root), source.workspace, source.space);
      if check != Valid {
        return false;
      }
      if TreeOk(tree) {
        if target.Some? {
          assert Under(Parents(tree), target.value, target.value) by {
            assert Reaches(Parents(tree), target.value, target.value, 0);
          }
        }
        SubtreeHangs(tree, root);
        RestoredOk(tree, SubtreeRows(tree, root), root, target, path);
      }
      RestoredIsRestoration(tree, root, target);
      ReviveRows(root, rows, target);
      return true;
    }

    method ReviveRows(root: Id, rows: seq<Id>, target: Option<Id>)
      requires Lists(rows, root) && tree[root].archivedAt.Some?
      modifies this
      ensures tree == Restored(old(tree), SubtreeRows(old(tree), root).Keys, root, target)
    {
      ghost var before := tree;
      ghost var after := Restored(before, SubtreeRows(tree, root).Keys, root, target);
      ghost var done: set<Id> := {};
      RowsAreTree(rows, root);
      var restoreArchivedAt := tree[root].archivedAt;
      for i := 0 to |rows|
        invariant tree.Keys == before.Keys
        invariant forall j :: 0 <= j < |rows| ==> (rows[j] in done <==> j < i)
        invariant done <= SubtreeRows(before, root).Keys
        invariant forall x :: x in tree ==> tree[x] == if x in done then after[x] else before[x]
      {
        var row := tree[rows[i]];
        if rows[i] == root || row.archivedAt == restoreArchivedAt {
          var parent := if rows[i] == root then target else row.parent;
          tree := tree[rows[i] := row.(parent := parent, archivedAt := None, originalParent := None)];
        }
        done := done + {rows[i]};
      }
      assert forall x :: x in SubtreeRows(before, root) ==> x in done;
      assert tree == after;
    }

    /**
     Copies exactly when the root is active and the target is legal for it. `newIds` are unused ids, drawn
     at random in the source.
     */
    method CopyTree(root: Id, target: Option<Id>, newIds: seq<Id>) returns (idMap: Option<map<Id, Id>>)
      requires |newIds| >= |tree|
      requires forall i :: 0 <= i < |newIds| ==> newIds[i] !in tree
      requires forall i, j :: 0 <= i < j < |newIds| ==> newIds[i] != newIds[j]
      modifies this
      ensures idMap.None? ==> tree == old(tree)
      ensures idMap.Some? ==>
        && IsCopy(old(tree), tree, root, target, idMap.value) && IsCopying(old(tree), tree, root, target, idMap.value)
        && old(Active(tree, root) && LegalTarget(tree, target, Some(root), tree[root].workspace, tree[root].space))
      ensures old(TreeOk(tree) && Active(tree, root) && LegalTarget(tree, target, Some(root), tree[root].workspace, tree[root].space))
        ==> idMap.Some? && TreeOk(tree)
    {
      var rows := CollectLockedActiveTree(tree, root);
      if rows.None? {
        if TreeOk(tree) {
          NoActiveCycle(tree, root);
        }
        return None;
      }
      var check, path := LockAndValidateActiveParent(tree, target, Some(root), tree[root].workspace, tree[root].space);
      if check != Valid {
        return None;
      }
      if target.Some? {
        assert Under(Parents(tree), target.value, target.value) by {
          assert Reaches(Parents(tree), target.value, target.value, 0);
        }
      }
      ghost var before := tree;
      var copyIds := DrawIds(tree, rows.value, newIds);
      assert copyIds.Keys == ActiveBelow(before, root);
      InsertCopies(root, target, rows.value, copyIds);
      CopyIsCopying(before, tree, root, target, copyIds);
      if TreeOk(before) {
        CopyOk(before, tree, root, target, copyIds);
      }
      return Some(copyIds);
    }

    method InsertCopies(root: Id, target: Option<Id>, rows: seq<Id>, idMap: map<Id, Id>)
      requires forall x :: x in rows <==> x in idMap
      requires forall x :: x in idMap ==> Active(tree, x)
      requires Injective(idMap) && idMap.Values !! tree.Keys
      modifies this
      ensures tree.Keys == old(tree).Keys + idMap.Values
      ensures forall x :: x in old(tree) ==> tree[x] == old(tree)[x]
      ensures forall x :: x in idMap && x in old(tree) ==> tree[idMap[x]] == CopiedRow(old(tree), x, root, target, idMap)
    {
      ghost var before := tree;
      ghost var made: set<Id> := {};
      for i := 0 to |rows|
        invariant made == set j | 0 <= j < i :: idMap[rows[j]]
        invariant tree.Keys == before.Keys + made
        invariant forall x :: x in before ==> tree[x] == before[x]
        invariant forall x :: x in idMap && idMap[x] in made ==> tree[idMap[x]] == CopiedRow(before, x, root, target, idMap)
      {
        var row := rows[i];
        var copiedId := idMap[row];
        var copiedParent := target;
        if row != root {
          var parent := tree[row].parent;
          copiedParent := if parent.Some? && parent.value in idMap then Some(idMap[parent.value]) else None;
        }
        tree := tree[copiedId := tree[row].(parent := copiedParent, archivedAt := None, originalParent := None)];
        made := made + {copiedId};
      }
      forall x | x in idMap ensures idMap[x] in made {
        var j :| 0 <= j < |rows| && rows[j] == x;
      }
      assert made == idMap.Values;
    }
  }

  lemma NoActiveCycle(t: Tree, root: Id)
    requires TreeOk(t)
    ensures !OnCycle(ActiveParents(t), root)
  {
    AcyclicIffNoCycle(Parents(t));
    assert !OnCycle(Parents(t), root);
    forall k: nat | k > 0 ensures !Reaches(ActiveParents(t), root, root, k) {
      if Reaches(ActiveParents(t), root, root, k) {
        ActiveClimbIsClimb(t, root, root, k);
      }
    }
  }

  method DrawIds(tree: Tree, rows: seq<Id>, newIds: seq<Id>) returns (idMap: map<Id, Id>)
    requires forall x :: x in rows ==> x in tree
    requires forall i, j :: 0 <= i < j < |rows| ==> rows[i] != rows[j]
    requires |newIds| >= |tree|
    requires forall i :: 0 <= i < |newIds| ==> newIds[i] !in tree
    requires forall i, j :: 0 <= i < j < |newIds| ==> newIds[i] != newIds[j]
    ensures forall x :: x in rows <==> x in idMap
    ensures Injective(idMap) && idMap.Values !! tree.Keys
  {
    RowsFit(tree, rows);
    idMap := map[];
    for i := 0 to |rows|
      invariant forall x :: x in idMap <==> x in rows[..i]
      invariant forall j :: 0 <= j < i ==> idMap[rows[j]] == newIds[j]
    {
      idMap := idMap[rows[i] := newIds[i]];
    }
    forall x, y | x in idMap && y in idMap && idMap[x] == idMap[y] ensures x == y {
      var i :| 0 <= i < |rows| && rows[i] == x;
      var j :| 0 <= j < |rows| && rows[j] == y;
    }
    forall z | z in idMap.Values ensures z !in tree {
      var x :| x in idMap && idMap[x] == z;
      var i :| 0 <= i < |rows| && rows[i] == x;
    }
  }

  lemma {:induction false} RowsFit(tree: Tree, rows: seq<Id>)
    requires forall x :: x in rows ==> x in tree
    requires forall i, j :: 0 <= i < j < |rows| ==> rows[i] != rows[j]
    ensures |rows| <= |tree|
    decreases |rows|
  {
    if |rows| > 0 {
      var last := rows[|rows| - 1];
      RowsFit(tree - {last}, rows[..|rows| - 1]);
      assert (tree - {last}).Keys == tree.Keys - {last};
      assert |tree - {last}| == |(tree - {last}).Keys| && |tree| == |tree.Keys|;
    }
  }
}
