/**
 The rows of the file tree, the conditions they always meet, and what each write does to them once
 its checks have passed.
 */
module FileTrees {
  import opened Options
  import opened TransferStates
  import opened Forest

  type ObjectKey = nat

  /** The space of files that belong to one owner each. */
  const PERSONAL: nat := 0

  datatype Node = Node(
    parent: Option<Id>,
    archivedAt: Option<Time>,
    originalParent: Option<Id>,
    isFolder: bool,
    workspace: nat,
    space: nat,
    objectKey: Option<ObjectKey>)

  type Tree = map<Id, Node>

  function Parents(t: Tree): ParentMap {
    map x | x in t :: t[x].parent
  }

  predicate Active(t: Tree, x: Id) {
    x in t && t[x].archivedAt.None?
  }

  /** An active node counts as archived at the end of time. */
  predicate NoLater(a: Option<Time>, b: Option<Time>) {
    b.None? || (a.Some? && a.value <= b.value)
  }

  /** A node is archived no later than its parent; below an archived node nothing is active. */
  predicate Ordered(t: Tree) {
    forall x :: x in t && t[x].parent.Some? && t[x].parent.value in t ==>
      NoLater(t[x].archivedAt, t[t[x].parent.value].archivedAt)
  }

  /** Parents are folders of the same workspace and space. */
  predicate Housed(t: Tree) {
    forall x :: x in t && t[x].parent.Some? && t[x].parent.value in t ==>
      Houses(t, t[x].parent.value, t[x].workspace, t[x].space)
  }

  predicate Houses(t: Tree, p: Id, workspace: nat, space: nat) {
    p in t && t[p].isFolder && t[p].workspace == workspace && t[p].space == space
  }

  /** An archived node remembers where it hung; an active one has nothing to remember. */
  predicate Remembers(t: Tree) {
    forall x :: x in t ==>
      (t[x].archivedAt.None? ==> t[x].originalParent.None?) &&
      (t[x].archivedAt.Some? && t[x].originalParent.None? ==> t[x].parent.None?)
  }

  /** What holds of the places of nodes, whatever the clocks say. */
  ghost predicate Placed(t: Tree) {
    && Acyclic(Parents(t))
    && NoDangling(Parents(t))
    && Housed(t)
    && Remembers(t)
  }

  ghost predicate TreeOk(t: Tree) {
    Placed(t) && Ordered(t)
  }

  /** Nothing that goes into the trash at `now` lies directly above a node that got there later. */
  predicate Fits(t: Tree, ids: set<Id>, now: Time) {
    forall x :: x in ids && x in t && t[x].archivedAt.Some? && t[x].parent.Some? && t[x].parent.value in ids && Active(t, t[x].parent.value) ==>
      t[x].archivedAt.value <= now
  }

  predicate ArchivedBy(t: Tree, clock: Time) {
    forall x :: x in t && t[x].archivedAt.Some? ==> t[x].archivedAt.value <= clock
  }

  /** No row outside `ids` has its parent inside. */
  predicate ChildClosed(t: Tree, ids: set<Id>) {
    forall x :: x in t && t[x].parent.Some? && t[x].parent.value in ids ==> x in ids
  }

  /** A snapshot of the rows at and below a root: id to parent. */
  ghost function SubtreeRows(t: Tree, root: Id): ParentMap {
    map x | x in t && Under(Parents(t), x, root) :: t[x].parent
  }

  /** Apart from the root, every row's parent is a row too. */
  predicate HangsFrom(snapshot: ParentMap, root: Id) {
    && root in snapshot
    && forall x :: x in snapshot && x != root ==> snapshot[x].Some? && snapshot[x].value in snapshot
  }

  lemma SubtreeHangs(t: Tree, root: Id)
    requires NoDangling(Parents(t)) && root in t
    ensures HangsFrom(SubtreeRows(t, root), root)
    ensures ChildClosed(t, SubtreeRows(t, root).Keys)
  {
    var ps := Parents(t);
    assert Reaches(ps, root, root, 0);
    forall x | x in SubtreeRows(t, root) && x != root
      ensures t[x].parent.Some? && t[x].parent.value in SubtreeRows(t, root)
    {
      var k: nat :| Reaches(ps, x, root, k);
      assert Reaches(ps, t[x].parent.value, root, k - 1);
      assert x in ps;
    }
    forall x | x in t && t[x].parent.Some? && t[x].parent.value in SubtreeRows(t, root)
      ensures x in SubtreeRows(t, root)
    {
      var k: nat :| Reaches(ps, t[x].parent.value, root, k);
      assert Reaches(ps, x, root, k + 1);
    }
  }

  /** What a listing from below a root returns hangs from the root, wherever the root itself was seen to hang. */
  lemma ListingHangs(t: Tree, root: Id, parent: Option<Id>)
    ensures HangsFrom(SubtreeRows(t, root)[root := parent], root)
  {
    var ps, rows := Parents(t), SubtreeRows(t, root)[root := parent];
    forall x | x in rows && x != root ensures rows[x].Some? && rows[x].value in rows {
      var k: nat :| Reaches(ps, x, root, k);
      assert Reaches(ps, t[x].parent.value, root, k - 1);
      assert t[x].parent.value == root || Up(ps, t[x].parent.value).Some?;
    }
  }

  /** A snapshot that hangs from its root, still agrees with the tree and lacks no child is the subtree of the moment. */
  lemma SnapshotIsSubtree(t: Tree, snapshot: ParentMap, root: Id)
    requires Acyclic(Parents(t)) && HangsFrom(snapshot, root) && ChildClosed(t, snapshot.Keys)
    requires forall x :: x in snapshot ==> x in t && t[x].parent == snapshot[x]
    ensures snapshot == SubtreeRows(t, root)
  {
    forall x | x in snapshot ensures x in SubtreeRows(t, root) {
      assert x in Parents(t);
      var k: nat :| Rooted(Parents(t), x, k);
      HangingReaches(t, snapshot, root, x, k);
    }
    forall x | x in SubtreeRows(t, root) ensures x in snapshot {
      var k: nat :| Reaches(Parents(t), x, root, k);
      ReachingIsInside(t, snapshot.Keys, root, x, k);
    }
  }

  lemma {:induction false} HangingReaches(t: Tree, snapshot: ParentMap, root: Id, x: Id, k: nat)
    requires HangsFrom(snapshot, root) && x in snapshot && Rooted(Parents(t), x, k)
    requires forall x :: x in snapshot ==> x in t && t[x].parent == snapshot[x]
    ensures Under(Parents(t), x, root)
    decreases k
  {
    if x == root {
      assert Reaches(Parents(t), x, root, 0);
    } else {
      HangingReaches(t, snapshot, root, snapshot[x].value, k - 1);
      var j: nat :| Reaches(Parents(t), snapshot[x].value, root, j);
      assert Reaches(Parents(t), x, root, j + 1);
    }
  }

  lemma {:induction false} ReachingIsInside(t: Tree, ids: set<Id>, root: Id, x: Id, k: nat)
    requires root in ids && ChildClosed(t, ids) && Reaches(Parents(t), x, root, k)
    ensures x in ids
    decreases k
  {
    if k > 0 {
      ReachingIsInside(t, ids, root, t[x].parent.value, k - 1);
    }
  }

  /** Timestamps only fall on the way down. */
  lemma {:induction false} NoLaterThanAncestor(t: Tree, x: Id, r: Id, k: nat)
    requires Ordered(t) && NoDangling(Parents(t)) && x in t && Reaches(Parents(t), x, r, k)
    ensures r in t && NoLater(t[x].archivedAt, t[r].archivedAt)
    decreases k
  {
    if k > 0 {
      assert x in Parents(t);
      NoLaterThanAncestor(t, t[x].parent.value, r, k - 1);
    }
  }

  /** The same for a snapshot that hangs from its root and still agrees with the tree. */
  lemma {:induction false} NoLaterThanRoot(t: Tree, snapshot: ParentMap, root: Id, x: Id, k: nat)
    requires Ordered(t) && HangsFrom(snapshot, root) && x in snapshot
    requires forall y :: y in snapshot ==> y in t && t[y].parent == snapshot[y]
    requires Rooted(Parents(t), x, k)
    ensures NoLater(t[x].archivedAt, t[root].archivedAt)
    decreases k
  {
    if x != root {
      NoLaterThanRoot(t, snapshot, root, snapshot[x].value, k - 1);
    }
  }

  // ---------- what the writes do ----------

  function Moved(t: Tree, x: Id, target: Option<Id>): Tree
    requires x in t
  {
    t[x := t[x].(parent := target)]
  }

  /** A new node: a file if it has content, and a folder otherwise. */
  function WithNew(t: Tree, x: Id, target: Option<Id>, workspace: nat, space: nat, objectKey: Option<ObjectKey>): Tree {
    t[x := Node(target, None, None, objectKey.None?, workspace, space, objectKey)]
  }

  function ArchivedRow(n: Node, now: Time): Node {
    n.(archivedAt := if n.archivedAt.Some? then n.archivedAt else Some(now),
       originalParent := if n.originalParent.Some? then n.originalParent else n.parent)
  }

  function Archived(t: Tree, ids: set<Id>, now: Time): Tree {
    map x | x in t :: if x in ids then ArchivedRow(t[x], now) else t[x]
  }

  /** The rows that went into the trash together with the root. */
  function RestoreBatch(t: Tree, ids: set<Id>, root: Id): set<Id>
    requires root in t && ids <= t.Keys
  {
    set x | x in ids && (x == root || t[x].archivedAt == t[root].archivedAt)
  }

  function Restored(t: Tree, ids: set<Id>, root: Id, target: Option<Id>): Tree
    requires root in t && ids <= t.Keys
  {
    map x | x in t ::
      if x !in RestoreBatch(t, ids, root) then t[x]
      else t[x].(archivedAt := None, originalParent := None, parent := if x == root then target else t[x].parent)
  }

  // ---------- the writes keep the tree in order ----------

  lemma {:induction false} ChainAvoids(t: Tree, path: seq<Id>, n: Id, i: nat)
    requires IsChain(Parents(t), path, None) && n !in path && i < |path|
    ensures RootedAvoiding(Parents(t), path[i], n, |path| - i)
    decreases |path| - i
  {
    if i < |path| - 1 {
      ChainAvoids(t, path, n, i + 1);
    }
  }

  /** The checked way from a target to the top, along which a node may be hung. */
  predicate Checked(t: Tree, target: Option<Id>, path: seq<Id>, n: Id, workspace: nat, space: nat) {
    && IsChain(Parents(t), path, None)
    && n !in path
    && (target.Some? ==>
          (|path| > 0 && path[0] == target.value && Active(t, target.value) && Houses(t, target.value, workspace, space)))
  }

  lemma HangKeepsForest(t: Tree, n: Id, target: Option<Id>, path: seq<Id>, workspace: nat, space: nat)
    requires Placed(t) && Checked(t, target, path, n, workspace, space)
    ensures Acyclic(Parents(t)[n := target]) && NoDangling(Parents(t)[n := target])
  {
    if target.Some? {
      ChainAvoids(t, path, n, 0);
    }
    ReattachKeepsAcyclic(Parents(t), n, target, |path|);
  }

  lemma MovedOk(t: Tree, n: Id, target: Option<Id>, path: seq<Id>)
    requires Placed(t) && Active(t, n) && Checked(t, target, path, n, t[n].workspace, t[n].space)
    ensures Placed(Moved(t, n, target)) && (Ordered(t) ==> Ordered(Moved(t, n, target)))
  {
    HangKeepsForest(t, n, target, path, t[n].workspace, t[n].space);
    assert Parents(Moved(t, n, target)) == Parents(t)[n := target];
  }

  lemma WithNewOk(t: Tree, n: Id, target: Option<Id>, path: seq<Id>, workspace: nat, space: nat, objectKey: Option<ObjectKey>)
    requires Placed(t) && n !in t && Checked(t, target, path, n, workspace, space)
    ensures Placed(WithNew(t, n, target, workspace, space, objectKey))
    ensures Ordered(t) ==> Ordered(WithNew(t, n, target, workspace, space, objectKey))
  {
    HangKeepsForest(t, n, target, path, workspace, space);
    var after := WithNew(t, n, target, workspace, space, objectKey);
    assert Parents(after) == Parents(t)[n := target];
    forall x | x in after && after[x].parent.Some? ensures after[x].parent.value != n {
      if x in t {
        assert x in Parents(t);
      }
    }
  }

  /** Archiving keeps all places; it keeps the order of the trash exactly when the clock fits. */
  lemma ArchivedOk(t: Tree, ids: set<Id>, now: Time)
    requires Placed(t) && ChildClosed(t, ids)
    ensures Placed(Archived(t, ids, now))
    ensures Ordered(t) ==> (Ordered(Archived(t, ids, now)) <==> Fits(t, ids, now))
  {
    var after := Archived(t, ids, now);
    assert Parents(after) == Parents(t);
    if Ordered(t) && Ordered(after) {
      forall x | x in ids && x in t && t[x].archivedAt.Some? && t[x].parent.Some? && t[x].parent.value in ids && Active(t, t[x].parent.value)
        ensures t[x].archivedAt.value <= now
      {
        assert NoLater(after[x].archivedAt, after[t[x].parent.value].archivedAt);
      }
    }
  }

  /** From outside the set, nothing hangs directly below an active node of it but what went into the trash by then. */
  predicate OutsideFits(t: Tree, ids: set<Id>, now: Time) {
    forall x :: x in t && x !in ids && t[x].parent.Some? && t[x].parent.value in ids && Active(t, t[x].parent.value) ==>
      t[x].archivedAt.Some? && t[x].archivedAt.value <= now
  }

  /**
   A database may let the transaction see children as they were when it began, while others, at a lower
   isolation level, hang nodes below rows that it has not locked yet. The set is then not closed under
   children any more; the trash stays in order exactly when nothing of that kind has come in.
   */
  lemma ArchivedOnOldSnapshot(t: Tree, ids: set<Id>, now: Time)
    requires Placed(t) && Ordered(t)
    ensures Placed(Archived(t, ids, now))
    ensures Ordered(Archived(t, ids, now)) <==> Fits(t, ids, now) && OutsideFits(t, ids, now)
  {
    var after := Archived(t, ids, now);
    assert Parents(after) == Parents(t);
    if Ordered(after) {
      forall x | x in t && t[x].parent.Some? && t[x].parent.value in ids && Active(t, t[x].parent.value)
        ensures t[x].archivedAt.Some? ==> t[x].archivedAt.value <= now
        ensures x !in ids ==> t[x].archivedAt.Some?
      {
        assert NoLater(after[x].archivedAt, after[t[x].parent.value].archivedAt);
      }
    }
  }

  /** So a node that is moved into a folder between the listing and the lock of an archiving stays active below it. */
  lemma LateMoveBreaksTrash(t: Tree, now: Time) returns (moved: Tree, after: Tree)
    requires t == map[0 := Node(None, None, None, true, 0, 0, None), 1 := Node(None, None, None, true, 0, 0, None)]
    ensures ChildClosed(t, {0}) && LegalBefore(t, 1, 0) && moved == Moved(t, 1, Some(0))
    ensures after == Archived(moved, {0}, now) && Active(after, 1) && after[1].parent == Some(0) && !Active(after, 0)
    ensures !OutsideFits(moved, {0}, now)
  {
    moved := Moved(t, 1, Some(0));
    after := Archived(moved, {0}, now);
    assert moved[1].parent == Some(0) && Active(moved, 0);
  }

  /** An active node and an active folder of its workspace and space at the top level. */
  predicate LegalBefore(t: Tree, x: Id, p: Id) {
    Active(t, x) && Active(t, p) && t[p].parent.None? && Houses(t, p, t[x].workspace, t[x].space)
  }

  /** The rows that go when the database deletes `ids` and, by the foreign key of the parent, all that is below them. */
  ghost function Cascaded(t: Tree, ids: set<Id>): set<Id> {
    set x | x in t && exists r :: r in ids && Under(Parents(t), x, r)
  }

  /** The same for a deletion: it takes exactly the rows that it has checked when none has come in below them. */
  lemma RemovedOnOldSnapshot(t: Tree, ids: set<Id>)
    requires Placed(t) && ids <= t.Keys
    ensures Placed(t - Cascaded(t, ids)) && (Ordered(t) ==> Ordered(t - Cascaded(t, ids)))
    ensures Cascaded(t, ids) == ids <==> ChildClosed(t, ids)
  {
    CascadeIsClosed(t, ids);
    RemovedOk(t, Cascaded(t, ids));
    if ChildClosed(t, ids) {
      forall x | x in Cascaded(t, ids) ensures x in ids {
        var r :| r in ids && Under(Parents(t), x, r);
        var k: nat :| Reaches(Parents(t), x, r, k);
        ReachingIsInside(t, ids, r, x, k);
      }
    }
  }

  lemma CascadeIsClosed(t: Tree, ids: set<Id>)
    requires ids <= t.Keys
    ensures ids <= Cascaded(t, ids) && ChildClosed(t, Cascaded(t, ids))
  {
    forall x | x in ids ensures x in Cascaded(t, ids) {
      assert Reaches(Parents(t), x, x, 0);
      assert Under(Parents(t), x, x);
    }
    forall x | x in t && t[x].parent.Some? && t[x].parent.value in Cascaded(t, ids) ensures x in Cascaded(t, ids) {
      var r :| r in ids && Under(Parents(t), t[x].parent.value, r);
      var k: nat :| Reaches(Parents(t), t[x].parent.value, r, k);
      assert Reaches(Parents(t), x, r, k + 1);
      assert Under(Parents(t), x, r);
    }
  }

  /** With two clocks that disagree, a folder comes back from the trash with an active node below one that stays there. */
  lemma UnfitClockBreaksTrash(t: Tree) returns (last: Tree, back: Tree)
    requires t == map[
      0 := Node(None, None, None, true, 0, 0, None),
      1 := Node(Some(0), None, None, true, 0, 0, None),
      2 := Node(Some(1), None, None, true, 0, 0, None)]
    ensures last == Archived(Archived(t, {2}, 3), {1, 2}, 5) && !Fits(last, {0, 1, 2}, 3)
    ensures back == Restored(Archived(last, {0, 1, 2}, 3), {0, 1, 2}, 0, None)
    ensures Active(back, 2) && back[2].parent == Some(1) && !Active(back, 1)
  {
    last := Archived(Archived(t, {2}, 3), {1, 2}, 5);
    back := Restored(Archived(last, {0, 1, 2}, 3), {0, 1, 2}, 0, None);
    assert last[1].archivedAt == Some(5) && Active(last, 0);
  }

  /** Restoring by equal timestamp takes a row's parent along with the row, up to the root. */
  lemma RestoreBatchClosed(t: Tree, snapshot: ParentMap, root: Id)
    requires TreeOk(t) && HangsFrom(snapshot, root) && root in t && t[root].archivedAt.Some?
    requires forall y :: y in snapshot ==> y in t && t[y].parent == snapshot[y]
    ensures forall x :: x in RestoreBatch(t, snapshot.Keys, root) && x != root ==>
      t[x].parent.Some? && t[x].parent.value in RestoreBatch(t, snapshot.Keys, root)
  {
    forall x | x in RestoreBatch(t, snapshot.Keys, root) && x != root
      ensures t[x].parent.Some? && t[x].parent.value in RestoreBatch(t, snapshot.Keys, root)
    {
      var q := t[x].parent.value;
      assert q in Parents(t);
      var k: nat :| Rooted(Parents(t), q, k);
      NoLaterThanRoot(t, snapshot, root, q, k);
    }
  }

  lemma RestoredOk(t: Tree, snapshot: ParentMap, root: Id, target: Option<Id>, path: seq<Id>)
    requires Placed(t) && HangsFrom(snapshot, root) && root in t && t[root].archivedAt.Some?
    requires forall y :: y in snapshot ==> y in t && t[y].parent == snapshot[y]
    requires Checked(t, target, path, root, t[root].workspace, t[root].space)
    ensures Placed(Restored(t, snapshot.Keys, root, target))
    ensures Ordered(t) ==> Ordered(Restored(t, snapshot.Keys, root, target))
  {
    if Ordered(t) {
      RestoreBatchClosed(t, snapshot, root);
    }
    HangKeepsForest(t, root, target, path, t[root].workspace, t[root].space);
    assert Parents(Restored(t, snapshot.Keys, root, target)) == Parents(t)[root := target];
  }

  lemma RemovedOk(t: Tree, ids: set<Id>)
    requires Placed(t) && ChildClosed(t, ids)
    ensures Placed(t - ids) && (Ordered(t) ==> Ordered(t - ids))
  {
    RemovalKeepsAcyclic(Parents(t), ids);
    assert Parents(t - ids) == Parents(t) - ids;
    forall x | x in Parents(t - ids) && Parents(t - ids)[x].Some? ensures Parents(t - ids)[x].value in Parents(t - ids) {
      assert x in Parents(t);
    }
  }

  // ---------- what the order of timestamps is for ----------

  /** Every ancestor of an active node is active. */
  lemma AncestorsOfActiveAreActive(t: Tree, x: Id, r: Id)
    requires TreeOk(t) && Active(t, x) && Under(Parents(t), x, r)
    ensures Active(t, r)
  {
    var k: nat :| Reaches(Parents(t), x, r, k);
    NoLaterThanAncestor(t, x, r, k);
  }

  /** What lies below a node that was archived before the cutoff was archived before the cutoff as well. */
  lemma TrashBelowIsOlder(t: Tree, root: Id, x: Id, cutoff: Time)
    requires TreeOk(t) && x in t && Under(Parents(t), x, root)
    requires root in t && t[root].archivedAt.Some? && t[root].archivedAt.value < cutoff
    ensures t[x].archivedAt.Some? && t[x].archivedAt.value < cutoff
  {
    var k: nat :| Reaches(Parents(t), x, root, k);
    NoLaterThanAncestor(t, x, root, k);
  }

  /**
   Archiving a folder and restoring it to where it was gives the tree back exactly when nothing
   below the folder already carries the very timestamp that the archiving writes.
   */
  lemma ArchiveThenRestore(t: Tree, root: Id, now: Time)
    requires TreeOk(t) && Active(t, root)
    ensures var ids := SubtreeRows(t, root).Keys; var trash := Archived(t, ids, now);
      Restored(trash, ids, root, trash[root].originalParent) == t
      <==> forall x :: x in ids ==> t[x].archivedAt != Some(now)
  {
    var ids := SubtreeRows(t, root).Keys;
    var trash := Archived(t, ids, now);
    var back := Restored(trash, ids, root, t[root].parent);
    assert Reaches(Parents(t), root, root, 0);
    if x :| x in ids && t[x].archivedAt == Some(now) {
      assert back[x].archivedAt.None?;
    } else {
      forall x | x in t ensures back[x] == t[x] {
      }
      assert back.Keys == t.Keys;
    }
  }
}
