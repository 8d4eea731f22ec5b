/**
 The three key columns of a file row and the unique index over them. The keys are derived from the other
 columns by every write; the index turns "no two active siblings share a name" into a single-row check.
 */
module NameKeys {
  import opened Options
  import opened TransferStates
  import opened Forest
  import opened FileTrees
  import opened FileNames

  datatype NameKey = ActiveKey(folded: string) | ArchivedKey(id: Id)

  datatype Keys = Keys(directory: Option<Id>, name: NameKey, ownerScope: Option<nat>)

  datatype Row = Row(node: Node, name: string, owner: Option<nat>, keys: Keys)

  type Rows = map<Id, Row>

  /** A personal file without an owner has no keys: the write is refused. */
  function StorageKeys(fold: char -> char, archived: bool, id: Id, name: string, owner: Option<nat>, parent: Option<Id>, space: nat)
    : Option<Keys>
  {
    if space == PERSONAL && owner.None? then None
    else Some(Keys(parent,
                   if archived then ArchivedKey(id) else ActiveKey(ConflictKey(fold, name)),
                   if space == PERSONAL then owner else None))
  }

  predicate HasKeys(fold: char -> char, x: Id, row: Row) {
    StorageKeys(fold, row.node.archivedAt.Some?, x, row.name, row.owner, row.node.parent, row.node.space) == Some(row.keys)
  }

  predicate Coherent(fold: char -> char, rows: Rows) {
    forall x :: x in rows ==> HasKeys(fold, x, rows[x])
  }

  datatype IndexKey = IndexKey(workspace: nat, space: nat, ownerScope: Option<nat>, directory: Option<Id>, name: NameKey)

  function IndexOfRow(row: Row): IndexKey {
    IndexKey(row.node.workspace, row.node.space, row.keys.ownerScope, row.keys.directory, row.keys.name)
  }

  predicate Unique(rows: Rows) {
    forall x, y :: x in rows && y in rows && IndexOfRow(rows[x]) == IndexOfRow(rows[y]) ==> x == y
  }

  /** Two rows lie side by side: same folder, same workspace and space, and for personal files the same owner. */
  predicate SameShelf(a: Row, b: Row) {
    && a.node.workspace == b.node.workspace && a.node.space == b.node.space && a.node.parent == b.node.parent
    && (a.node.space == PERSONAL ==> a.owner == b.owner)
  }

  predicate Clash(fold: char -> char, a: Row, b: Row) {
    && a.node.archivedAt.None? && b.node.archivedAt.None?
    && SameShelf(a, b) && ConflictKey(fold, a.name) == ConflictKey(fold, b.name)
  }

  lemma SameIndexIsClash(fold: char -> char, x: Id, a: Row, y: Id, b: Row)
    requires HasKeys(fold, x, a) && HasKeys(fold, y, b) && x != y
    ensures IndexOfRow(a) == IndexOfRow(b) <==> Clash(fold, a, b)
  {
  }

  /** What the index means: active siblings have names that differ, and archived rows are in nobody's way. */
  lemma UniqueIffNamesDiffer(fold: char -> char, rows: Rows)
    requires Coherent(fold, rows)
    ensures Unique(rows) <==> forall x, y :: x in rows && y in rows && x != y ==> !Clash(fold, rows[x], rows[y])
  {
    forall x, y | x in rows && y in rows && x != y
      ensures IndexOfRow(rows[x]) == IndexOfRow(rows[y]) <==> Clash(fold, rows[x], rows[y])
    {
      SameIndexIsClash(fold, x, rows[x], y, rows[y]);
    }
  }

  function TreeOf(rows: Rows): Tree {
    map x | x in rows :: rows[x].node
  }

  // ---------- one transaction, row by row ----------

  function Partly(rows: Rows, after: Rows, order: seq<Id>, k: nat): Rows
    requires k <= |order| && forall i :: 0 <= i < |order| ==> order[i] in after
  {
    rows + map x | x in order[..k] :: after[x]
  }

  /** The first `k` statements all pass. */
  predicate NeverClashes(rows: Rows, after: Rows, order: seq<Id>, k: nat)
    requires k <= |order| && forall i :: 0 <= i < |order| ==> order[i] in after
  {
    (k > 0 ==> NeverClashes(rows, after, order, k - 1)) && Unique(Partly(rows, after, order, k))
  }

  lemma PartlyCoherent(fold: char -> char, rows: Rows, after: Rows, order: seq<Id>, k: nat)
    requires Coherent(fold, rows) && Coherent(fold, after)
    requires k <= |order| && forall i :: 0 <= i < |order| ==> order[i] in after
    ensures Coherent(fold, Partly(rows, after, order, k))
  {
    forall x | x in Partly(rows, after, order, k) ensures HasKeys(fold, x, Partly(rows, after, order, k)[x]) {
      assert HasKeys(fold, x, if x in order[..k] then after[x] else rows[x]);
    }
  }

  /**
   A transaction that writes only over archived or absent rows clashes on the way only if it
   clashes in the end: a row not written yet is archived and in nobody's way.
   */
  lemma EndDecides(fold: char -> char, rows: Rows, after: Rows, order: seq<Id>)
    requires Coherent(fold, rows) && Coherent(fold, after)
    requires forall i :: 0 <= i < |order| ==> order[i] in after
    requires forall x :: x in after && x in rows ==> rows[x].node.archivedAt.Some?
    ensures NeverClashes(rows, after, order, |order|) <==> Unique(Partly(rows, after, order, |order|))
  {
    if Unique(Partly(rows, after, order, |order|)) {
      UniqueOnTheWay(fold, rows, after, order, |order|);
    }
  }

  lemma {:induction false} UniqueOnTheWay(fold: char -> char, rows: Rows, after: Rows, order: seq<Id>, k: nat)
    requires Coherent(fold, rows) && Coherent(fold, after)
    requires k <= |order| && forall i :: 0 <= i < |order| ==> order[i] in after
    requires forall x :: x in after && x in rows ==> rows[x].node.archivedAt.Some?
    requires Unique(Partly(rows, after, order, |order|))
    ensures NeverClashes(rows, after, order, k)
    decreases k
  {
    if k > 0 {
      UniqueOnTheWay(fold, rows, after, order, k - 1);
    }
    var now, end := Partly(rows, after, order, k), Partly(rows, after, order, |order|);
    PartlyCoherent(fold, rows, after, order, k);
    PartlyCoherent(fold, rows, after, order, |order|);
    forall x | x in now && now[x].node.archivedAt.None? ensures x in end && end[x] == now[x] {
      assert x in order[..k] ==> x in order;
    }
    UniqueIffNamesDiffer(fold, end);
    UniqueIffNamesDiffer(fold, now);
  }

  /** Rows that go into the trash cannot clash, wherever the transaction stands. */
  lemma {:induction false} TrashNeverClashes(fold: char -> char, rows: Rows, after: Rows, order: seq<Id>, k: nat)
    requires Coherent(fold, rows) && Coherent(fold, after) && Unique(rows)
    requires k <= |order| && forall i :: 0 <= i < |order| ==> order[i] in after
    requires forall x :: x in after ==> after[x].node.archivedAt.Some?
    ensures NeverClashes(rows, after, order, k)
    decreases k
  {
    if k > 0 {
      TrashNeverClashes(fold, rows, after, order, k - 1);
    }
    TrashIsUnique(fold, rows, after, order, k);
  }

  lemma TrashIsUnique(fold: char -> char, rows: Rows, after: Rows, order: seq<Id>, k: nat)
    requires Coherent(fold, rows) && Coherent(fold, after) && Unique(rows)
    requires k <= |order| && forall i :: 0 <= i < |order| ==> order[i] in after
    requires forall x :: x in after ==> after[x].node.archivedAt.Some?
    ensures Unique(Partly(rows, after, order, k))
  {
    PartlyCoherent(fold, rows, after, order, k);
    UniqueIffNamesDiffer(fold, rows);
    UniqueIffNamesDiffer(fold, Partly(rows, after, order, k));
  }

  predicate Covers(order: seq<Id>, after: Rows) {
    && (forall i :: 0 <= i < |order| ==> order[i] in after)
    && (forall x :: x in after ==> x in order)
  }

  lemma PartlyWhole(rows: Rows, after: Rows, order: seq<Id>)
    requires Covers(order, after)
    ensures Partly(rows, after, order, |order|) == rows + after
  {
    assert order[..|order|] == order;
  }

  lemma {:induction false} ClashStops(rows: Rows, after: Rows, order: seq<Id>, j: nat, k: nat)
    requires j <= k <= |order| && forall i :: 0 <= i < |order| ==> order[i] in after
    requires NeverClashes(rows, after, order, k)
    ensures NeverClashes(rows, after, order, j)
    decreases k
  {
    if j < k {
      ClashStops(rows, after, order, j, k - 1);
    }
  }

  lemma PartlyNext(rows: Rows, after: Rows, order: seq<Id>, k: nat)
    requires k < |order| && forall i :: 0 <= i < |order| ==> order[i] in after
    ensures Partly(rows, after, order, k + 1) == Partly(rows, after, order, k)[order[k] := after[order[k]]]
  {
    assert order[..k + 1] == order[..k] + [order[k]];
  }

  /** The check of a single row against the index. */
  predicate KeyTaken(rows: Rows, x: Id, row: Row) {
    exists y :: y in rows && y != x && IndexOfRow(rows[y]) == IndexOfRow(row)
  }

  lemma KeyTakenIffNotUnique(rows: Rows, x: Id, row: Row)
    requires Unique(rows)
    ensures KeyTaken(rows, x, row) <==> !Unique(rows[x := row])
  {
    var after := rows[x := row];
    if y :| y in rows && y != x && IndexOfRow(rows[y]) == IndexOfRow(row) {
      assert IndexOfRow(after[x]) == IndexOfRow(after[y]);
    }
  }
}
