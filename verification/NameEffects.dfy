/** What each write of names makes of the table, said of the rows alone. */
module NameEffects {
  import opened Options
  import opened TransferStates
  import opened Forest
  import opened FileTrees
  import opened FileNames
  import opened FileNameSearch
  import opened NameKeys

  /** A row of these columns, with the keys that go with them. */
  predicate IsRow(fold: char -> char, x: Id, row: Row, node: Node, name: string, owner: Option<nat>) {
    && row.node == node && row.name == name && row.owner == owner
    && row.keys.directory == node.parent && row.keys.ownerScope == (if node.space == PERSONAL then owner else None)
    && row.keys.name == match node.archivedAt case None => ActiveKey(ConflictKey(fold, name)) case Some(_) => ArchivedKey(x)
  }

  /** The name belongs to some other active row of that folder, among personal files to one of the same owner. */
  predicate IsTaken(fold: char -> char, rows: Rows, except: set<Id>, node: Node, name: string, owner: Option<nat>) {
    exists y :: y in rows && y !in except && HasName(fold, rows[y], node, name, owner)
  }

  predicate HasName(fold: char -> char, row: Row, node: Node, name: string, owner: Option<nat>) {
    && row.node.archivedAt.None? && row.node.parent == node.parent
    && row.node.workspace == node.workspace && row.node.space == node.space && (node.space == PERSONAL ==> row.owner == owner)
    && ConflictKey(fold, row.name) == ConflictKey(fold, name)
  }

  /** The name asked for, trimmed, if it is not taken, and otherwise with the least number from 2 to 9999 that makes it free. */
  ghost predicate IsChosen(fold: char -> char, rows: Rows, except: set<Id>, node: Node, asked: string, owner: Option<nat>, r: NameResult) {
    match Normalize(fold, asked)
    case Refused(_) => r == Normalize(fold, asked)
    case Accepted(name) =>
      if !IsTaken(fold, rows, except, node, name, owner) then r == Accepted(name)
      else
        match r
        case Accepted(chosen) =>
          && !IsTaken(fold, rows, except, node, chosen, owner)
          && (exists n: nat :: 2 <= n < 10_000 && chosen == Candidate(fold, name, n) && AllTaken(fold, rows, except, node, name, owner, n))
        case Refused(reason) => reason == NoneFree && AllTaken(fold, rows, except, node, name, owner, 10_000)
  }

  predicate AllTaken(fold: char -> char, rows: Rows, except: set<Id>, node: Node, name: string, owner: Option<nat>, limit: nat) {
    forall k: nat :: 2 <= k < limit ==> IsTaken(fold, rows, except, node, Candidate(fold, name, k), owner)
  }

  /** One row is written, new or old; all others are as they were. */
  predicate IsOneWrite(before: Rows, after: Rows, x: Id) {
    x in after && after == before[x := after[x]]
  }

  /** The rows named go into the trash, those that are there already with the time and the place they had. */
  predicate IsTrashing(fold: char -> char, before: Rows, after: Rows, ids: set<Id>, now: Time) {
    && after.Keys == before.Keys
    && (forall y :: y in before && y !in ids ==> after[y] == before[y])
    && forall y :: y in before && y in ids ==>
         IsRow(fold, y, after[y], InTrash(before[y].node, now), before[y].name, before[y].owner)
  }

  /** The row as it must be after an archiving at that time. */
  function InTrash(was: Node, now: Time): Node {
    was.(archivedAt := Some(if was.archivedAt.Some? then was.archivedAt.value else now),
         originalParent := if was.originalParent.Some? then was.originalParent else was.parent)
  }

  /** The rows of the batch are active again, the root at the target under its new name and the others as they were. */
  predicate IsComeback(fold: char -> char, before: Rows, after: Rows, batch: set<Id>, root: Id, target: Option<Id>, name: string) {
    && after.Keys == before.Keys
    && (forall y :: y in before && y !in batch ==> after[y] == before[y])
    && forall y :: y in before && y in batch ==>
         var n := before[y].node;
         IsRow(fold, y, after[y], Node(if y == root then target else n.parent, None, None, n.isFolder, n.workspace, n.space, n.objectKey),
               if y == root then name else before[y].name, before[y].owner)
  }

  /** One new row for each row that is copied, with its content, its owner and, below the root, its name. */
  ghost predicate IsDouble(fold: char -> char, before: Rows, after: Rows, root: Id, target: Option<Id>, name: string, idMap: map<Id, Id>) {
    && (forall y :: y in after <==> y in before || y in idMap.Values)
    && (forall y :: y in before ==> after[y] == before[y])
    && forall x :: x in idMap ==> x in before && idMap[x] in after && IsDoubleOf(fold, before[x], after[idMap[x]], x, root, target, name, idMap)
  }

  predicate IsDoubleOf(fold: char -> char, was: Row, row: Row, x: Id, root: Id, target: Option<Id>, name: string, idMap: map<Id, Id>)
    requires x in idMap
  {
    var n := was.node;
    if x == root then IsRow(fold, idMap[x], row, Node(target, None, None, n.isFolder, n.workspace, n.space, n.objectKey), name, was.owner)
    else
      && n.parent.Some? && n.parent.value in idMap
      && IsRow(fold, idMap[x], row, Node(Some(idMap[n.parent.value]), None, None, n.isFolder, n.workspace, n.space, n.objectKey),
               was.name, was.owner)
  }
}
