/**
 The file table with its derived keys and its unique index, and the transactions that write names: each one
 keeps the keys coherent, and commits exactly when the names allow it.
 */
module FileCatalogs {
  import opened Options
  import opened TransferStates
  import opened Forest
  import opened FileTrees
  import opened FileNames
  import opened FileNameSearch
  import opened NameKeys
  import opened NameEffects
  import opened HierarchyWrites
  import opened TreeCopies

  /** The row as it is written: with the keys that go with its other columns. */
  function Keyed(fold: char -> char, x: Id, node: Node, name: string, owner: Option<nat>): Option<Row> {
    var keys := StorageKeys(fold, node.archivedAt.Some?, x, name, owner, node.parent, node.space);
    if keys.None? then None else Some(Row(node, name, owner, keys.value))
  }

  function Rewritten(fold: char -> char, x: Id, row: Row, node: Node, name: string): Row
    requires HasKeys(fold, x, row) && node.space == row.node.space
  {
    Keyed(fold, x, node, name, row.owner).value
  }

  /** An active row beside a place, by the columns that the name search filters on. */
  predicate Beside(row: Row, place: Row) {
    && row.node.archivedAt.None?
    && row.keys.directory == place.keys.directory && row.keys.ownerScope == place.keys.ownerScope
    && row.node.parent == place.node.parent && row.node.space == place.node.space
    && row.node.workspace == place.node.workspace
  }

  function SiblingKeys(fold: char -> char, rows: Rows, place: Row, exclude: set<Id>): set<string> {
    set x | x in rows && x !in exclude && Beside(rows[x], place) :: ConflictKey(fold, rows[x].name)
  }

  /** The search looks at the right rows: a name is missing from those keys exactly when nothing clashes with it. */
  lemma SiblingKeysAreClashes(fold: char -> char, rows: Rows, x: Id, row: Row, exclude: set<Id>)
    requires Coherent(fold, rows) && HasKeys(fold, x, row) && row.node.archivedAt.None?
    ensures ConflictKey(fold, row.name) !in SiblingKeys(fold, rows, row, exclude)
      <==> forall y :: y in rows && y !in exclude ==> !Clash(fold, row, rows[y])
  {
    forall y | y in rows && y !in exclude
      ensures Clash(fold, row, rows[y]) <==> Beside(rows[y], row) && ConflictKey(fold, rows[y].name) == ConflictKey(fold, row.name)
    {
      assert HasKeys(fold, y, rows[y]);
    }
  }

  /** One active row, new or old: it fits unless some other row clashes with it. */
  lemma OneRowFits(fold: char -> char, rows: Rows, x: Id, row: Row)
    requires Coherent(fold, rows) && Unique(rows) && HasKeys(fold, x, row) && row.node.archivedAt.None?
    ensures Unique(rows[x := row]) <==> forall y :: y in rows && y != x ==> !Clash(fold, row, rows[y])
  {
    var after := rows[x := row];
    UniqueIffNamesDiffer(fold, rows);
    UniqueIffNamesDiffer(fold, after);
    if Unique(after) {
      forall y | y in rows && y != x ensures !Clash(fold, row, rows[y]) {
        assert !Clash(fold, after[x], after[y]);
      }
    }
  }

  // ---------- restoring ----------

  /** What the tree guarantees about a batch that is to come back below `target`. */
  predicate CanComeBack(rows: Rows, batch: set<Id>, root: Id, target: Option<Id>) {
    && root in batch && batch <= rows.Keys
    && (forall x :: x in batch ==> rows[x].node.archivedAt.Some?)
    && (forall x :: x in batch && x != root ==> rows[x].node.parent.Some? && rows[x].node.parent.value in batch)
    && (target.Some? ==> target.value !in batch)
    && (forall y :: y in rows && rows[y].node.archivedAt.None? && rows[y].node.parent.Some? ==>
          rows[y].node.parent.value !in batch)
  }

  lemma ParentOfActiveIsActive(t: Tree, y: Id)
    requires TreeOk(t) && Active(t, y) && t[y].parent.Some?
    ensures Active(t, t[y].parent.value)
  {
    assert y in Parents(t);
  }

  /** A tree in order gives just that, when the target is active. */
  lemma BatchCanComeBack(rows: Rows, root: Id, target: Option<Id>)
    requires TreeOk(TreeOf(rows)) && root in rows && rows[root].node.archivedAt.Some?
    requires target.Some? ==> Active(TreeOf(rows), target.value)
    ensures CanComeBack(rows, RestoreBatch(TreeOf(rows), SubtreeRows(TreeOf(rows), root).Keys, root), root, target)
  {
    var t := TreeOf(rows);
    SubtreeHangs(t, root);
    RestoreBatchClosed(t, SubtreeRows(t, root), root);
    var batch := RestoreBatch(t, SubtreeRows(t, root).Keys, root);
    forall y | y in rows && rows[y].node.archivedAt.None? && rows[y].node.parent.Some?
      ensures rows[y].node.parent.value !in batch
    {
      ParentOfActiveIsActive(t, y);
    }
  }

  function BackRow(fold: char -> char, rows: Rows, x: Id, root: Id, target: Option<Id>, name: string): Row
    requires Coherent(fold, rows) && x in rows
  {
    var node := rows[x].node.(archivedAt := None, originalParent := None,
                              parent := if x == root then target else rows[x].node.parent);
    Rewritten(fold, x, rows[x], node, if x == root then name else rows[x].name)
  }

  function BackRows(fold: char -> char, rows: Rows, batch: set<Id>, root: Id, target: Option<Id>, name: string): Rows
    requires Coherent(fold, rows) && batch <= rows.Keys
  {
    map x | x in batch :: BackRow(fold, rows, x, root, target, name)
  }

  predicate RootFits(fold: char -> char, rows: Rows, batch: set<Id>, root: Id, target: Option<Id>, name: string)
    requires Coherent(fold, rows) && root in rows
  {
    forall v :: v in rows && v !in batch ==> !Clash(fold, BackRow(fold, rows, root, root, target, name), rows[v])
  }

  /** Two rows of the batch, other than the root, that had the same name in the same folder. */
  predicate AreTwins(fold: char -> char, rows: Rows, batch: set<Id>, root: Id, x: Id, y: Id) {
    && x in batch && y in batch && x in rows && y in rows && x != y && x != root && y != root
    && SameShelf(rows[x], rows[y]) && ConflictKey(fold, rows[x].name) == ConflictKey(fold, rows[y].name)
  }

  ghost predicate HasTwins(fold: char -> char, rows: Rows, batch: set<Id>, root: Id) {
    exists x, y :: AreTwins(fold, rows, batch, root, x, y)
  }

  lemma BackPairClash(fold: char -> char, rows: Rows, batch: set<Id>, root: Id, target: Option<Id>, name: string, x: Id, y: Id)
    requires Coherent(fold, rows) && CanComeBack(rows, batch, root, target) && RootFits(fold, rows, batch, root, target, name)
    requires x in batch && y in rows && x != y
    ensures var end := rows + BackRows(fold, rows, batch, root, target, name);
      Clash(fold, end[x], end[y]) <==> AreTwins(fold, rows, batch, root, x, y)
  {
    if y !in batch {
      BackBesideOld(fold, rows, batch, root, target, name, x, y);
    } else {
      assert HasKeys(fold, x, rows[x]) && HasKeys(fold, y, rows[y]);
    }
  }

  /** A row that comes back meets no row that has stayed: the root has a free name, and the others come below the batch. */
  lemma BackBesideOld(fold: char -> char, rows: Rows, batch: set<Id>, root: Id, target: Option<Id>, name: string, x: Id, y: Id)
    requires Coherent(fold, rows) && CanComeBack(rows, batch, root, target) && RootFits(fold, rows, batch, root, target, name)
    requires x in batch && y in rows && y !in batch
    ensures !Clash(fold, (rows + BackRows(fold, rows, batch, root, target, name))[x], rows[y])
  {
    assert HasKeys(fold, x, rows[x]) && HasKeys(fold, y, rows[y]);
  }

  lemma BackIsCoherent(fold: char -> char, rows: Rows, batch: set<Id>, root: Id, target: Option<Id>, name: string)
    requires Coherent(fold, rows) && batch <= rows.Keys
    ensures Coherent(fold, BackRows(fold, rows, batch, root, target, name))
    ensures Coherent(fold, rows + BackRows(fold, rows, batch, root, target, name))
  {
    forall x | x in batch ensures HasKeys(fold, x, BackRow(fold, rows, x, root, target, name)) {
      assert HasKeys(fold, x, rows[x]);
    }
  }

  /**
   A restoration whose root has got a free name clashes exactly when two rows that come back with it
   had one name in one folder.
   */
  lemma RestoreClashesOnlyOnTwins(fold: char -> char, rows: Rows, batch: set<Id>, root: Id, target: Option<Id>, name: string)
    requires Coherent(fold, rows) && Unique(rows) && CanComeBack(rows, batch, root, target)
    requires RootFits(fold, rows, batch, root, target, name)
    ensures Unique(rows + BackRows(fold, rows, batch, root, target, name)) <==> !HasTwins(fold, rows, batch, root)
  {
    var end := rows + BackRows(fold, rows, batch, root, target, name);
    BackIsCoherent(fold, rows, batch, root, target, name);
    UniqueIffNamesDiffer(fold, end);
    if Unique(end) {
      forall x, y ensures !AreTwins(fold, rows, batch, root, x, y) {
        if AreTwins(fold, rows, batch, root, x, y) {
          BackPairClash(fold, rows, batch, root, target, name, x, y);
        }
      }
    }
    if forall x, y :: !AreTwins(fold, rows, batch, root, x, y) {
      forall x, y | x in end && y in end && x != y ensures !Clash(fold, end[x], end[y]) {
        BackPairFits(fold, rows, batch, root, target, name, x, y);
      }
    }
  }

  lemma BackPairFits(fold: char -> char, rows: Rows, batch: set<Id>, root: Id, target: Option<Id>, name: string, x: Id, y: Id)
    requires Coherent(fold, rows) && Unique(rows) && CanComeBack(rows, batch, root, target)
    requires RootFits(fold, rows, batch, root, target, name) && x in rows && y in rows && x != y
    requires !AreTwins(fold, rows, batch, root, x, y) && !AreTwins(fold, rows, batch, root, y, x)
    ensures var end := rows + BackRows(fold, rows, batch, root, target, name); !Clash(fold, end[x], end[y])
  {
    if x in batch {
      BackPairClash(fold, rows, batch, root, target, name, x, y);
    } else if y in batch {
      BackPairClash(fold, rows, batch, root, target, name, y, x);
    } else {
      SameIndexIsClash(fold, x, rows[x], y, rows[y]);
    }
  }

  // ---------- copying ----------

  function CopyRow(fold: char -> char, rows: Rows, x: Id, root: Id, target: Option<Id>, name: string, idMap: map<Id, Id>): Row
    requires Coherent(fold, rows) && x in rows && x in idMap
  {
    assert HasKeys(fold, x, rows[x]);
    var node := CopiedRow(TreeOf(rows), x, root, target, idMap);
    Keyed(fold, idMap[x], node, if x == root then name else rows[x].name, rows[x].owner).value
  }

  function CopyRows(fold: char -> char, rows: Rows, root: Id, target: Option<Id>, name: string, idMap: map<Id, Id>): Rows
    requires Coherent(fold, rows) && idMap.Keys <= rows.Keys && Injective(idMap)
  {
    map x | x in idMap :: idMap[x] := CopyRow(fold, rows, x, root, target, name, idMap)
  }

  /** What the tree guarantees about the rows that are copied. */
  predicate CanBeCopied(rows: Rows, root: Id, target: Option<Id>, idMap: map<Id, Id>) {
    && root in idMap && idMap.Keys <= rows.Keys && Injective(idMap) && idMap.Values !! rows.Keys
    && NoDangling(Parents(TreeOf(rows)))
    && (forall x :: x in idMap ==> rows[x].node.archivedAt.None?)
    && (forall x :: x in idMap && x != root ==> rows[x].node.parent.Some? && rows[x].node.parent.value in idMap)
    && (target.Some? ==> target.value in rows)
  }

  /** The locked walk over a tree in order collects just such rows. */
  lemma TreeCanBeCopied(rows: Rows, root: Id, target: Option<Id>, idMap: map<Id, Id>)
    requires TreeOk(TreeOf(rows)) && Active(TreeOf(rows), root) && (target.Some? ==> target.value in rows)
    requires idMap.Keys == ActiveBelow(TreeOf(rows), root) && Injective(idMap) && idMap.Values !! rows.Keys
    ensures CanBeCopied(rows, root, target, idMap)
  {
    var t := TreeOf(rows);
    assert Reaches(ActiveParents(t), root, root, 0);
    assert root in idMap.Keys;
    forall x | x in idMap && x != root ensures rows[x].node.parent.Some? && rows[x].node.parent.value in idMap {
      assert x in idMap.Keys;
      var k: nat :| Reaches(ActiveParents(t), x, root, k);
      ParentIsBelow(t, root, x, k);
      assert rows[x].node.parent.value in idMap.Keys;
    }
  }

  lemma CopyBesideOld(fold: char -> char, rows: Rows, root: Id, target: Option<Id>, name: string, idMap: map<Id, Id>, x: Id, y: Id)
    requires Coherent(fold, rows) && CanBeCopied(rows, root, target, idMap) && x in idMap && x != root && y in rows
    ensures !Clash(fold, CopyRow(fold, rows, x, root, target, name, idMap), rows[y])
  {
    var p := rows[x].node.parent.value;
    assert idMap[p] in idMap.Values;
    assert y in Parents(TreeOf(rows));
  }

  lemma CopyBesideCopy(fold: char -> char, rows: Rows, root: Id, target: Option<Id>, name: string, idMap: map<Id, Id>, x: Id, y: Id)
    requires Coherent(fold, rows) && Unique(rows) && CanBeCopied(rows, root, target, idMap)
    requires x in idMap && y in idMap && x != root && x != y
    ensures !Clash(fold, CopyRow(fold, rows, x, root, target, name, idMap), CopyRow(fold, rows, y, root, target, name, idMap))
  {
    var p := rows[x].node.parent.value;
    assert idMap[p] in idMap.Values;
    SameIndexIsClash(fold, x, rows[x], y, rows[y]);
  }

  lemma CopiesAreCoherent(fold: char -> char, rows: Rows, root: Id, target: Option<Id>, name: string, idMap: map<Id, Id>)
    requires Coherent(fold, rows) && idMap.Keys <= rows.Keys && Injective(idMap)
    ensures Coherent(fold, CopyRows(fold, rows, root, target, name, idMap))
  {
    forall x | x in idMap ensures HasKeys(fold, idMap[x], CopyRow(fold, rows, x, root, target, name, idMap)) {
      assert HasKeys(fold, x, rows[x]);
    }
  }

  lemma UnionIsCoherent(fold: char -> char, rows: Rows, more: Rows)
    requires Coherent(fold, rows) && Coherent(fold, more)
    ensures Coherent(fold, rows + more)
  {
  }

  predicate CopyRootFits(fold: char -> char, rows: Rows, root: Id, target: Option<Id>, name: string, idMap: map<Id, Id>)
    requires Coherent(fold, rows) && root in rows && root in idMap
  {
    forall y :: y in rows ==> !Clash(fold, CopyRow(fold, rows, root, root, target, name, idMap), rows[y])
  }

  lemma CopyIsThere(fold: char -> char, rows: Rows, root: Id, target: Option<Id>, name: string, idMap: map<Id, Id>, x: Id)
    requires Coherent(fold, rows) && CanBeCopied(rows, root, target, idMap) && x in idMap
    ensures var end := rows + CopyRows(fold, rows, root, target, name, idMap);
      idMap[x] in end && idMap[x] !in rows && end[idMap[x]] == CopyRow(fold, rows, x, root, target, name, idMap)
  {
    assert idMap[x] in idMap.Values;
  }

  /** Inside the copy nothing can clash; only the copy of the root can meet a name that is taken. */
  lemma CopyClashesOnlyAtRoot(fold: char -> char, rows: Rows, root: Id, target: Option<Id>, name: string, idMap: map<Id, Id>)
    requires Coherent(fold, rows) && Unique(rows) && CanBeCopied(rows, root, target, idMap)
    ensures Unique(rows + CopyRows(fold, rows, root, target, name, idMap))
      <==> CopyRootFits(fold, rows, root, target, name, idMap)
  {
    if Unique(rows + CopyRows(fold, rows, root, target, name, idMap)) {
      FittingCopyHasFreeRoot(fold, rows, root, target, name, idMap);
    }
    if CopyRootFits(fold, rows, root, target, name, idMap) {
      FreeRootMakesCopyFit(fold, rows, root, target, name, idMap);
    }
  }

  lemma FittingCopyHasFreeRoot(fold: char -> char, rows: Rows, root: Id, target: Option<Id>, name: string, idMap: map<Id, Id>)
    requires Coherent(fold, rows) && CanBeCopied(rows, root, target, idMap)
    requires Unique(rows + CopyRows(fold, rows, root, target, name, idMap))
    ensures CopyRootFits(fold, rows, root, target, name, idMap)
  {
    var end := rows + CopyRows(fold, rows, root, target, name, idMap);
    CopiesAreCoherent(fold, rows, root, target, name, idMap);
    CopyIsThere(fold, rows, root, target, name, idMap, root);
    forall y | y in rows ensures !Clash(fold, CopyRow(fold, rows, root, root, target, name, idMap), rows[y]) {
      SameIndexIsClash(fold, idMap[root], end[idMap[root]], y, end[y]);
    }
  }

  lemma FreeRootMakesCopyFit(fold: char -> char, rows: Rows, root: Id, target: Option<Id>, name: string, idMap: map<Id, Id>)
    requires Coherent(fold, rows) && Unique(rows) && CanBeCopied(rows, root, target, idMap)
    requires CopyRootFits(fold, rows, root, target, name, idMap)
    ensures Unique(rows + CopyRows(fold, rows, root, target, name, idMap))
  {
    CopiesAreCoherent(fold, rows, root, target, name, idMap);
    UnionIsCoherent(fold, rows, CopyRows(fold, rows, root, target, name, idMap));
    CopyPairsFit(fold, rows, root, target, name, idMap);
    UniqueIffNamesDiffer(fold, rows + CopyRows(fold, rows, root, target, name, idMap));
  }

  lemma CopyPairsFit(fold: char -> char, rows: Rows, root: Id, target: Option<Id>, name: string, idMap: map<Id, Id>)
    requires Coherent(fold, rows) && Unique(rows) && CanBeCopied(rows, root, target, idMap)
    requires CopyRootFits(fold, rows, root, target, name, idMap)
    ensures var end := rows + CopyRows(fold, rows, root, target, name, idMap);
      forall u, v :: u in end && v in end && u != v ==> !Clash(fold, end[u], end[v])
  {
    var end := rows + CopyRows(fold, rows, root, target, name, idMap);
    forall u, v | u in end && v in end && u != v ensures !Clash(fold, end[u], end[v]) {
      CopyPairFits(fold, rows, root, target, name, idMap, u, v);
    }
  }

  lemma CopyPairFits(fold: char -> char, rows: Rows, root: Id, target: Option<Id>, name: string, idMap: map<Id, Id>, u: Id, v: Id)
    requires Coherent(fold, rows) && Unique(rows) && CanBeCopied(rows, root, target, idMap)
    requires CopyRootFits(fold, rows, root, target, name, idMap)
    requires var end := rows + CopyRows(fold, rows, root, target, name, idMap); u in end && v in end && u != v
    ensures var end := rows + CopyRows(fold, rows, root, target, name, idMap); !Clash(fold, end[u], end[v])
  {
    var end := rows + CopyRows(fold, rows, root, target, name, idMap);
    if u in rows && v in rows {
      UniqueIffNamesDiffer(fold, rows);
    } else if u in rows {
      var y :| y in idMap && idMap[y] == v;
      if y != root {
        CopyBesideOld(fold, rows, root, target, name, idMap, y, u);
      }
    } else {
      var x :| x in idMap && idMap[x] == u;
      if v in rows {
        if x != root {
          CopyBesideOld(fold, rows, root, target, name, idMap, x, v);
        }
      } else {
        var y :| y in idMap && idMap[y] == v;
        if x != root {
          CopyBesideCopy(fold, rows, root, target, name, idMap, x, y);
        } else {
          CopyBesideCopy(fold, rows, root, target, name, idMap, y, x);
        }
      }
    }
  }

  // ---------- archiving ----------

  function Ids(order: seq<Id>): set<Id> {
    set x | x in order
  }

  function TrashRows(fold: char -> char, rows: Rows, ids: seq<Id>, now: Time): Rows
    requires Coherent(fold, rows)
  {
    map x | x in ids && x in rows :: Rewritten(fold, x, rows[x], ArchivedRow(rows[x].node, now), rows[x].name)
  }

  lemma TrashIsCoherent(fold: char -> char, rows: Rows, ids: seq<Id>, now: Time)
    requires Coherent(fold, rows) && forall i :: 0 <= i < |ids| ==> ids[i] in rows
    ensures Coherent(fold, TrashRows(fold, rows, ids, now)) && Covers(ids, TrashRows(fold, rows, ids, now))
  {
    forall x | x in ids && x in rows
      ensures HasKeys(fold, x, Rewritten(fold, x, rows[x], ArchivedRow(rows[x].node, now), rows[x].name))
    {
      assert HasKeys(fold, x, rows[x]);
    }
  }

  lemma TrashEffect(fold: char -> char, rows: Rows, ids: seq<Id>, now: Time)
    requires Coherent(fold, rows) && forall i :: 0 <= i < |ids| ==> ids[i] in rows
    ensures var end := rows + TrashRows(fold, rows, ids, now);
      && TreeOf(end) == Archived(TreeOf(rows), Ids(ids), now)
      && forall x :: x in end && x in rows ==> end[x].name == rows[x].name && end[x].owner == rows[x].owner
  {
    var end := rows + TrashRows(fold, rows, ids, now);
    forall x | x in rows
      ensures end[x].node == (if x in Ids(ids) then ArchivedRow(rows[x].node, now) else rows[x].node)
      ensures end[x].name == rows[x].name && end[x].owner == rows[x].owner
    {
      assert HasKeys(fold, x, rows[x]);
    }
    assert end.Keys == rows.Keys;
  }

  function ArchivedAtOnce(rows: Rows, now: Time): set<Id> {
    set x | x in rows && rows[x].node.archivedAt == Some(now)
  }

  lemma WasActive(fold: char -> char, rows: Rows, ids: seq<Id>, now: Time, x: Id)
    requires Coherent(fold, rows) && forall i :: 0 <= i < |ids| ==> ids[i] in rows
    requires ArchivedAtOnce(rows, now) == {}
    requires var end := rows + TrashRows(fold, rows, ids, now); x in end && x in ArchivedAtOnce(end, now)
    ensures x in rows && rows[x].node.archivedAt.None?
    ensures var end := rows + TrashRows(fold, rows, ids, now);
      end[x].name == rows[x].name && end[x].owner == rows[x].owner
      && end[x].node.parent == rows[x].node.parent && end[x].node.space == rows[x].node.space
      && end[x].node.workspace == rows[x].node.workspace
  {
    var end := rows + TrashRows(fold, rows, ids, now);
    TrashEffect(fold, rows, ids, now);
    assert TreeOf(end)[x] == end[x].node && x !in ArchivedAtOnce(rows, now);
  }

  /** What one archiving puts into the trash together holds no twins, so it can come back together. */
  lemma OneArchivingHasNoTwins(fold: char -> char, rows: Rows, ids: seq<Id>, now: Time, root: Id, x: Id, y: Id)
    requires Coherent(fold, rows) && Unique(rows) && forall i :: 0 <= i < |ids| ==> ids[i] in rows
    requires ArchivedAtOnce(rows, now) == {}
    ensures var end := rows + TrashRows(fold, rows, ids, now);
      !AreTwins(fold, end, ArchivedAtOnce(end, now), root, x, y)
  {
    var end := rows + TrashRows(fold, rows, ids, now);
    TrashEffect(fold, rows, ids, now);
    if AreTwins(fold, end, ArchivedAtOnce(end, now), root, x, y) {
      WasActive(fold, rows, ids, now, x);
      WasActive(fold, rows, ids, now, y);
      SameIndexIsClash(fold, x, rows[x], y, rows[y]);
    }
  }

  // ---------- the table ----------

  /** Where an upload or a restoration looks for siblings does not depend on the name it wants. */
  lemma SamePlace(fold: char -> char, rows: Rows, a: Row, b: Row, exclude: set<Id>)
    requires a.node == b.node && a.keys.directory == b.keys.directory && a.keys.ownerScope == b.keys.ownerScope
    ensures SiblingKeys(fold, rows, a, exclude) == SiblingKeys(fold, rows, b, exclude)
  {
  }

  /** The row that an upload may replace: active, with content, and with the keys of the requested name. */
  predicate IsExpectedTarget(row: Row, expected: Keys, parent: Option<Id>, workspace: nat, space: nat) {
    && row.node.objectKey.Some? && row.node.archivedAt.None? && row.keys == expected
    && row.node.parent == parent && row.node.space == space && row.node.workspace == workspace
  }

  /** A row can be written when personal files have an owner, and fits when its name is not taken. */
  lemma KeyedIsRow(fold: char -> char, rows: Rows, x: Id, node: Node, name: string, owner: Option<nat>)
    requires node.archivedAt.None?
    ensures var row := Keyed(fold, x, node, name, owner);
      && (row.Some? <==> (node.space == PERSONAL ==> owner.Some?))
      && (row.Some? ==>
            && IsRow(fold, x, row.value, node, name, owner)
            && (IsTaken(fold, rows, {x}, node, name, owner) <==> exists y :: y in rows && y != x && Clash(fold, row.value, rows[y])))
  {
    var row := Keyed(fold, x, node, name, owner);
    if row.Some? {
      forall y | y in rows ensures Clash(fold, row.value, rows[y]) <==> HasName(fold, rows[y], node, name, owner) {
      }
    }
  }

  /** The keys that a search must avoid are those of the names that are taken. */
  lemma SiblingKeysAreTaken(fold: char -> char, rows: Rows, x: Id, place: Row, exclude: set<Id>, name: string)
    requires Coherent(fold, rows) && HasKeys(fold, x, place)
    ensures ConflictKey(fold, name) in SiblingKeys(fold, rows, place, exclude)
      <==> IsTaken(fold, rows, exclude, place.node, name, place.owner)
  {
    forall y | y in rows
      ensures Beside(rows[y], place) && ConflictKey(fold, rows[y].name) == ConflictKey(fold, name)
        <==> HasName(fold, rows[y], place.node, name, place.owner)
    {
      assert HasKeys(fold, y, rows[y]);
    }
  }

  lemma ResolvedIsChosen(fold: char -> char, rows: Rows, x: Id, place: Row, exclude: set<Id>, asked: string, r: NameResult)
    requires Coherent(fold, rows) && HasKeys(fold, x, place)
    requires IsResolved(fold, asked, SiblingKeys(fold, rows, place, exclude), r)
    ensures IsChosen(fold, rows, exclude, place.node, asked, place.owner, r)
  {
    if Normalize(fold, asked).Accepted? {
      var name, taken := Normalize(fold, asked).name, SiblingKeys(fold, rows, place, exclude);
      SiblingKeysAreTaken(fold, rows, x, place, exclude, name);
      if ConflictKey(fold, name) in taken {
        if r.Accepted? {
          SiblingKeysAreTaken(fold, rows, x, place, exclude, r.name);
          var n: nat :| FIRST_NUMBER <= n < NUMBER_LIMIT && r.name == Candidate(fold, name, n)
            && AllTakenBelow(CandidateKeys(fold, name), taken, n);
          AllKeysTaken(fold, rows, x, place, exclude, name, n);
        } else {
          AllKeysTaken(fold, rows, x, place, exclude, name, NUMBER_LIMIT);
        }
      }
    }
  }

  lemma AllKeysTaken(fold: char -> char, rows: Rows, x: Id, place: Row, exclude: set<Id>, name: string, limit: nat)
    requires Coherent(fold, rows) && HasKeys(fold, x, place)
    requires AllTakenBelow(CandidateKeys(fold, name), SiblingKeys(fold, rows, place, exclude), limit)
    ensures AllTaken(fold, rows, exclude, place.node, name, place.owner, limit)
  {
    forall k: nat | 2 <= k < limit ensures IsTaken(fold, rows, exclude, place.node, Candidate(fold, name, k), place.owner) {
      assert CandidateKeys(fold, name)(k) in SiblingKeys(fold, rows, place, exclude);
      SiblingKeysAreTaken(fold, rows, x, place, exclude, Candidate(fold, name, k));
    }
  }

  lemma TrashIsTrashing(fold: char -> char, rows: Rows, ids: seq<Id>, now: Time)
    requires Coherent(fold, rows) && forall i :: 0 <= i < |ids| ==> ids[i] in rows
    ensures IsTrashing(fold, rows, rows + TrashRows(fold, rows, ids, now), Ids(ids), now)
  {
    var after := rows + TrashRows(fold, rows, ids, now);
    assert after.Keys == rows.Keys;
    forall y | y in rows && y in Ids(ids)
      ensures IsRow(fold, y, after[y], InTrash(rows[y].node, now), rows[y].name, rows[y].owner)
    {
      assert HasKeys(fold, y, rows[y]);
    }
  }

  lemma BackIsComeback(fold: char -> char, rows: Rows, batch: set<Id>, root: Id, target: Option<Id>, name: string)
    requires Coherent(fold, rows) && batch <= rows.Keys
    ensures IsComeback(fold, rows, rows + BackRows(fold, rows, batch, root, target, name), batch, root, target, name)
  {
    var after := rows + BackRows(fold, rows, batch, root, target, name);
    assert after.Keys == rows.Keys;
    forall y | y in rows && y in batch
      ensures var n := rows[y].node;
        IsRow(fold, y, after[y], Node(if y == root then target else n.parent, None, None, n.isFolder, n.workspace, n.space, n.objectKey),
              if y == root then name else rows[y].name, rows[y].owner)
    {
      assert HasKeys(fold, y, rows[y]);
    }
  }

  lemma CopiesAreDoubles(fold: char -> char, rows: Rows, root: Id, target: Option<Id>, name: string, idMap: map<Id, Id>)
    requires Coherent(fold, rows) && CanBeCopied(rows, root, target, idMap)
    ensures IsDouble(fold, rows, rows + CopyRows(fold, rows, root, target, name, idMap), root, target, name, idMap)
  {
    var after := rows + CopyRows(fold, rows, root, target, name, idMap);
    forall x | x in idMap
      ensures idMap[x] in after && IsDoubleOf(fold, rows[x], after[idMap[x]], x, root, target, name, idMap)
    {
      CopyIsThere(fold, rows, root, target, name, idMap, x);
      assert HasKeys(fold, x, rows[x]);
    }
  }

  /** The name of the new root is in the way exactly when it is taken at the target. */
  lemma CopyFitsUnlessTaken(fold: char -> char, rows: Rows, root: Id, target: Option<Id>, name: string, idMap: map<Id, Id>)
    requires Coherent(fold, rows) && CanBeCopied(rows, root, target, idMap)
    ensures CopyRootFits(fold, rows, root, target, name, idMap) <==>
      !IsTaken(fold, rows, {idMap[root]}, rows[root].node.(parent := target), name, rows[root].owner)
  {
    assert HasKeys(fold, root, rows[root]) && idMap[root] in idMap.Values;
    KeyedIsRow(fold, rows, idMap[root], CopiedRow(TreeOf(rows), root, root, target, idMap), name, rows[root].owner);
    forall y | y in rows
      ensures HasName(fold, rows[y], rows[root].node.(parent := target), name, rows[root].owner) <==>
        HasName(fold, rows[y], CopiedRow(TreeOf(rows), root, root, target, idMap), name, rows[root].owner)
    {
    }
  }

  class FileCatalog {
    const fold: char -> char
    var rows: Rows

    ghost predicate Valid()
      reads this
    {
      KeepsMarks(fold) && Coherent(fold, rows) && Unique(rows)
    }

    constructor (fold: char -> char)
      requires KeepsMarks(fold)
      ensures Valid() && rows == map[] && this.fold == fold
    {
      this.fold := fold;
      rows := map[];
    }

    /** One statement: it is refused exactly when it would break the unique index. */
    method WriteRow(x: Id, row: Row) returns (written: bool)
      requires Unique(rows)
      modifies this`rows
      ensures written <==> Unique(old(rows)[x := row])
      ensures rows == if written then old(rows)[x := row] else old(rows)
    {
      KeyTakenIffNotUnique(rows, x, row);
      if KeyTaken(rows, x, row) {
        return false;
      }
      rows := rows[x := row];
      return true;
    }

    /** Row after row; the first refusal undoes the transaction. */
    method Commit(order: seq<Id>, after: Rows) returns (committed: bool)
      requires Unique(rows) && forall i :: 0 <= i < |order| ==> order[i] in after
      modifies this`rows
      ensures committed <==> NeverClashes(old(rows), after, order, |order|)
      ensures rows == if committed then Partly(old(rows), after, order, |order|) else old(rows)
    {
      var before := rows;
      assert Partly(before, after, order, 0) == before;
      for i := 0 to |order|
        invariant rows == Partly(before, after, order, i)
        invariant NeverClashes(before, after, order, i)
      {
        PartlyNext(before, after, order, i);
        var written := WriteRow(order[i], after[order[i]]);
        if !written {
          if NeverClashes(before, after, order, |order|) {
            ClashStops(before, after, order, i + 1, |order|);
          }
          rows := before;
          return false;
        }
      }
      return true;
    }

    /** One active row is written when it has keys and no other row clashes with it. */
    method WriteActive(id: Id, node: Node, name: string, owner: Option<nat>) returns (committed: bool)
      requires Valid() && node.archivedAt.None?
      modifies this`rows
      ensures Valid()
      ensures var row := Keyed(fold, id, node, name, owner);
        && (committed <==> row.Some? && forall y :: y in old(rows) && y != id ==> !Clash(fold, row.value, old(rows)[y]))
        && rows == if committed then old(rows)[id := row.value] else old(rows)
      ensures committed <==> (node.space == PERSONAL ==> owner.Some?) && !IsTaken(fold, old(rows), {id}, node, name, owner)
      ensures committed ==> IsOneWrite(old(rows), rows, id) && IsRow(fold, id, rows[id], node, name, owner)
    {
      var row := Keyed(fold, id, node, name, owner);
      KeyedIsRow(fold, rows, id, node, name, owner);
      if row.None? {
        return false;
      }
      OneRowFits(fold, rows, id, row.value);
      committed := WriteRow(id, row.value);
    }

    method CreateFolder(id: Id, parent: Option<Id>, workspace: nat, space: nat, name: string, owner: Option<nat>) returns (committed: bool)
      requires Valid() && id !in rows
      modifies this`rows
      ensures Valid()
      ensures var node := Node(parent, None, None, true, workspace, space, None);
        && (committed <==> (space == PERSONAL ==> owner.Some?) && !IsTaken(fold, old(rows), {id}, node, name, owner))
        && (committed ==> IsOneWrite(old(rows), rows, id) && IsRow(fold, id, rows[id], node, name, owner))
      ensures !committed ==> rows == old(rows)
    {
      committed := WriteActive(id, Node(parent, None, None, true, workspace, space, None), name, owner);
    }

    /** A new name, a new parent, or both. */
    method UpdateNodeIdentity(id: Id, name: Option<string>, parent: Option<Option<Id>>) returns (committed: bool)
      requires Valid()
      modifies this`rows
      ensures Valid()
      ensures !committed ==> rows == old(rows)
      ensures !(id in old(rows) && old(rows)[id].node.archivedAt.None?) ==> !committed
      ensures id in old(rows) && old(rows)[id].node.archivedAt.None? ==>
        var was := old(rows)[id];
        var node := was.node.(parent := if parent.Some? then parent.value else was.node.parent);
        var wanted := if name.Some? then name.value else was.name;
        && (committed <==> !IsTaken(fold, old(rows), {id}, node, wanted, was.owner))
        && (committed ==> IsOneWrite(old(rows), rows, id) && IsRow(fold, id, rows[id], node, wanted, was.owner))
    {
      if id !in rows {
        return false;
      }
      var was := rows[id];
      if was.node.archivedAt.Some? {
        return false;
      }
      assert HasKeys(fold, id, was);
      var node := was.node.(parent := if parent.Some? then parent.value else was.node.parent);
      committed := WriteActive(id, node, if name.Some? then name.value else was.name, was.owner);
    }

    /** A new file under a name that is looked for among the siblings: it never clashes. */
    method UploadRenamed(id: Id, node: Node, requested: string, owner: Option<nat>) returns (name: NameResult, committed: bool)
      requires Valid() && id !in rows && node.archivedAt.None?
      modifies this`rows
      ensures Valid()
      ensures committed <==> name.Accepted? && (node.space == PERSONAL ==> owner.Some?)
      ensures committed ==> IsOneWrite(old(rows), rows, id) && IsRow(fold, id, rows[id], node, name.name, owner)
      ensures (node.space == PERSONAL ==> owner.Some?) ==> IsChosen(fold, old(rows), {}, node, requested, owner, name)
      ensures !committed ==> rows == old(rows)
      ensures var place := Keyed(fold, id, node, requested, owner);
        (&& Normalize(fold, requested).Accepted? && place.Some?
         && |SiblingKeys(fold, old(rows), place.value, {})| < CandidateCount(Normalize(fold, requested).name)) ==> committed
    {
      var place := Keyed(fold, id, node, requested, owner);
      if place.None? {
        return Refused(NotValid), false;
      }
      name := ResolveAvailableName(fold, requested, SiblingKeys(fold, rows, place.value, {}));
      ResolvedIsChosen(fold, rows, id, place.value, {}, requested, name);
      if name.Refused? {
        return name, false;
      }
      ghost var row := Keyed(fold, id, node, name.name, owner).value;
      SamePlace(fold, rows, place.value, row, {});
      SiblingKeysAreClashes(fold, rows, id, row, {});
      committed := WriteActive(id, node, name.name, owner);
    }

    /** Replacing the content of the expected file leaves its place in the index, so it never clashes. */
    method UploadReplaced(id: Id, requested: string, parent: Option<Id>, workspace: nat, space: nat, owner: Option<nat>, objectKey: ObjectKey)
      returns (committed: bool)
      requires Valid()
      modifies this`rows
      ensures Valid()
      ensures var expected := StorageKeys(fold, false, id, requested, owner, parent, space);
        committed <==> expected.Some? && id in old(rows) && IsExpectedTarget(old(rows)[id], expected.value, parent, workspace, space)
      ensures committed ==>
        && rows.Keys == old(rows).Keys && IndexOfRow(rows[id]) == IndexOfRow(old(rows)[id])
        && IsOneWrite(old(rows), rows, id)
        && IsRow(fold, id, rows[id], old(rows)[id].node.(objectKey := Some(objectKey)), requested,
                 if owner.Some? then owner else old(rows)[id].owner)
      ensures !committed ==> rows == old(rows)
    {
      var expected := StorageKeys(fold, false, id, requested, owner, parent, space);
      if expected.None? || id !in rows || !IsExpectedTarget(rows[id], expected.value, parent, workspace, space) {
        return false;
      }
      var was := rows[id];
      assert HasKeys(fold, id, was);
      var owner' := if owner.Some? then owner else was.owner;
      var node := was.node.(objectKey := Some(objectKey));
      ghost var row := Keyed(fold, id, node, requested, owner').value;
      forall y | y in rows && y != id ensures !Clash(fold, row, rows[y]) {
        SameIndexIsClash(fold, id, row, y, rows[y]);
      }
      committed := WriteActive(id, node, requested, owner');
    }

    /** Archiving commits whatever the names are. */
    method ArchiveTree(ids: seq<Id>, now: Time) returns (committed: bool)
      requires Valid() && forall i :: 0 <= i < |ids| ==> ids[i] in rows
      modifies this`rows
      ensures Valid() && committed
      ensures IsTrashing(fold, old(rows), rows, Ids(ids), now)
    {
      var after := TrashRows(fold, rows, ids, now);
      TrashIsCoherent(fold, rows, ids, now);
      TrashNeverClashes(fold, rows, after, ids, |ids|);
      PartlyCoherent(fold, rows, after, ids, |ids|);
      PartlyWhole(rows, after, ids);
      TrashIsTrashing(fold, rows, ids, now);
      committed := Commit(ids, after);
    }

    /** `order` lists the batch. The root takes a free name; what else can fail are twins inside the batch. */
    method RestoreTree(root: Id, order: seq<Id>, target: Option<Id>, desired: string) returns (name: NameResult, committed: bool)
      requires Valid() && root in rows && CanComeBack(rows, Ids(order), root, target)
      modifies this`rows
      ensures Valid()
      ensures var batch := Ids(order);
        && (name.Refused? ==> !committed)
        && (name.Accepted? ==> (committed <==> !HasTwins(fold, old(rows), batch, root)))
        && (committed ==> IsComeback(fold, old(rows), rows, batch, root, target, name.name))
        && (!committed ==> rows == old(rows))
        && IsChosen(fold, old(rows), batch, old(rows)[root].node.(parent := target), desired, old(rows)[root].owner, name)
        && (&& Normalize(fold, desired).Accepted?
            && |SiblingKeys(fold, old(rows), BackRow(fold, old(rows), root, root, target, desired), batch)|
               < CandidateCount(Normalize(fold, desired).name)
            ==> name.Accepted?)
    {
      var batch := Ids(order);
      var place := BackRow(fold, rows, root, root, target, desired);
      name := ResolveAvailableName(fold, desired, SiblingKeys(fold, rows, place, batch));
      RootNameIsChosen(fold, rows, batch, root, target, desired, name);
      if name.Refused? {
        return name, false;
      }
      RestorationIs(fold, rows, order, root, target, desired, name.name);
      committed := Commit(order, BackRows(fold, rows, batch, root, target, name.name));
    }

    /** `order` lists the rows that are copied. Only the name of the new root can be in the way. */
    method CopyTree(root: Id, order: seq<Id>, target: Option<Id>, name: string, idMap: map<Id, Id>) returns (committed: bool)
      requires Valid() && CanBeCopied(rows, root, target, idMap)
      requires forall x :: x in order <==> x in idMap
      modifies this`rows
      ensures Valid()
      ensures committed <==> !IsTaken(fold, old(rows), {idMap[root]}, old(rows)[root].node.(parent := target), name, old(rows)[root].owner)
      ensures committed ==> IsDouble(fold, old(rows), rows, root, target, name, idMap)
      ensures !committed ==> rows == old(rows)
    {
      var after := CopyRows(fold, rows, root, target, name, idMap);
      var newIds := seq(|order|, i requires 0 <= i < |order| => assert order[i] in order; idMap[order[i]]);
      NewIdsCover(order, idMap, newIds, after);
      CopiesAreCoherent(fold, rows, root, target, name, idMap);
      UnionIsCoherent(fold, rows, after);
      CopyClashesOnlyAtRoot(fold, rows, root, target, name, idMap);
      CopyFitsUnlessTaken(fold, rows, root, target, name, idMap);
      CopiesAreDoubles(fold, rows, root, target, name, idMap);
      EndDecides(fold, rows, after, newIds);
      PartlyWhole(rows, after, newIds);
      committed := Commit(newIds, after);
    }
  }

  /** A restoration under the name that the search has found: when it goes through, and what it does. */
  lemma RestorationIs(fold: char -> char, rows: Rows, order: seq<Id>, root: Id, target: Option<Id>, desired: string, name: string)
    requires Coherent(fold, rows) && Unique(rows) && CanComeBack(rows, Ids(order), root, target)
    requires IsResolved(fold, desired, SiblingKeys(fold, rows, BackRow(fold, rows, root, root, target, desired), Ids(order)), Accepted(name))
    ensures var after := BackRows(fold, rows, Ids(order), root, target, name);
      && Covers(order, after) && Coherent(fold, rows + after) && Partly(rows, after, order, |order|) == rows + after
      && (NeverClashes(rows, after, order, |order|) <==> !HasTwins(fold, rows, Ids(order), root))
      && IsComeback(fold, rows, rows + after, Ids(order), root, target, name)
  {
    NameIsFree(fold, desired, SiblingKeys(fold, rows, BackRow(fold, rows, root, root, target, desired), Ids(order)), name);
    RootFitsUnderFreeName(fold, rows, Ids(order), root, target, desired, name);
    BackIsCoherent(fold, rows, Ids(order), root, target, name);
    BackIsComeback(fold, rows, Ids(order), root, target, name);
    BackCommitsUnlessTwins(fold, rows, order, root, target, name);
  }

  lemma NameIsFree(fold: char -> char, desired: string, taken: set<string>, name: string)
    requires IsResolved(fold, desired, taken, Accepted(name))
    ensures ConflictKey(fold, name) !in taken
  {
  }

  lemma BackCommitsUnlessTwins(fold: char -> char, rows: Rows, order: seq<Id>, root: Id, target: Option<Id>, name: string)
    requires Coherent(fold, rows) && Unique(rows) && CanComeBack(rows, Ids(order), root, target)
    requires RootFits(fold, rows, Ids(order), root, target, name)
    ensures var after := BackRows(fold, rows, Ids(order), root, target, name);
      && Covers(order, after) && Partly(rows, after, order, |order|) == rows + after
      && (NeverClashes(rows, after, order, |order|) <==> !HasTwins(fold, rows, Ids(order), root))
  {
    var after := BackRows(fold, rows, Ids(order), root, target, name);
    RestoreClashesOnlyOnTwins(fold, rows, Ids(order), root, target, name);
    BackIsCoherent(fold, rows, Ids(order), root, target, name);
    BackIsCovered(fold, rows, order, root, target, name);
    EndDecides(fold, rows, after, order);
    PartlyWhole(rows, after, order);
  }

  lemma BackIsCovered(fold: char -> char, rows: Rows, order: seq<Id>, root: Id, target: Option<Id>, name: string)
    requires Coherent(fold, rows) && CanComeBack(rows, Ids(order), root, target)
    ensures var after := BackRows(fold, rows, Ids(order), root, target, name);
      Covers(order, after) && forall x :: x in after && x in rows ==> rows[x].node.archivedAt.Some?
  {
  }

  lemma RootNameIsChosen(fold: char -> char, rows: Rows, batch: set<Id>, root: Id, target: Option<Id>, desired: string, r: NameResult)
    requires Coherent(fold, rows) && root in rows
    requires IsResolved(fold, desired, SiblingKeys(fold, rows, BackRow(fold, rows, root, root, target, desired), batch), r)
    ensures IsChosen(fold, rows, batch, rows[root].node.(parent := target), desired, rows[root].owner, r)
  {
    var place := BackRow(fold, rows, root, root, target, desired);
    assert HasKeys(fold, root, rows[root]);
    ResolvedIsChosen(fold, rows, root, place, batch, desired, r);
    SamePlaceTaken(fold, rows, batch, place.node, rows[root].node.(parent := target), desired, rows[root].owner, r);
  }

  lemma SamePlaceTaken(fold: char -> char, rows: Rows, except: set<Id>, a: Node, b: Node, asked: string, owner: Option<nat>, r: NameResult)
    requires a.parent == b.parent && a.workspace == b.workspace && a.space == b.space
    requires IsChosen(fold, rows, except, a, asked, owner, r)
    ensures IsChosen(fold, rows, except, b, asked, owner, r)
  {
    forall name: string ensures IsTaken(fold, rows, except, a, name, owner) <==> IsTaken(fold, rows, except, b, name, owner) {
      forall y | y in rows ensures HasName(fold, rows[y], a, name, owner) <==> HasName(fold, rows[y], b, name, owner) {
      }
    }
  }

  lemma NewIdsCover(order: seq<Id>, idMap: map<Id, Id>, newIds: seq<Id>, after: Rows)
    requires forall x :: x in order <==> x in idMap
    requires |newIds| == |order| && forall i :: 0 <= i < |order| ==> order[i] in idMap && newIds[i] == idMap[order[i]]
    requires after.Keys == idMap.Values
    ensures Covers(newIds, after)
  {
    forall i | 0 <= i < |newIds| ensures newIds[i] in after {
      assert order[i] in idMap && idMap[order[i]] in idMap.Values;
    }
    forall z | z in after ensures z in newIds {
      var x :| x in idMap && idMap[x] == z;
      var i :| 0 <= i < |order| && order[i] == x;
      assert newIds[i] == z;
    }
  }

  lemma RootFitsUnderFreeName(fold: char -> char, rows: Rows, batch: set<Id>, root: Id, target: Option<Id>, desired: string, name: string)
    requires Coherent(fold, rows) && root in rows
    requires ConflictKey(fold, name) !in SiblingKeys(fold, rows, BackRow(fold, rows, root, root, target, desired), batch)
    ensures RootFits(fold, rows, batch, root, target, name)
  {
    var row := BackRow(fold, rows, root, root, target, name);
    assert HasKeys(fold, root, rows[root]);
    SamePlace(fold, rows, BackRow(fold, rows, root, root, target, desired), row, batch);
    SiblingKeysAreClashes(fold, rows, root, row, batch);
  }
}
