/**
 Moves, creations of folders and of uploaded files, copies, archivings, restorations and deletions running at the same time. A
 transaction takes row locks one at a time, reads a row only in a later statement, and writes and
 commits last. Between any two statements the other transactions may do anything that their own
 locks allow. Any transaction may give up at any time.

 A statement sees what is committed when it runs. Each transaction reads a clock of its own; nothing is
 assumed about the readings, unless a lemma says so.
 */
module TreeTransactions {
  import opened Options
  import opened TransferStates
  import opened Forest
  import opened FileTrees
  import opened HierarchyWrites
  import opened TreeCopies
  import opened TreeEffects

  type TxId = nat

  datatype Request =
    | Move(node: Id, to: Option<Id>)
    | Create(node: Id, to: Option<Id>, workspace: nat, space: nat, objectKey: Option<ObjectKey>)
    | Copy(node: Id, to: Option<Id>, copyIds: map<Id, Id>)
    | Archive(node: Id)
    | Restore(node: Id, choice: Option<Option<Id>>)
    | Delete(node: Id, cutoff: Option<Time>)

  datatype Phase =
    | LockFirst(todo: set<Id>)   // the rows that the request names
    | LockTree(todo: set<Id>)    // the rows of the snapshot
    | CheckRows                  // read the rows of the snapshot again
    | CheckChildren              // count the children outside the snapshot
    | FindChildren(parents: set<Id>)                               // list the active children of one level
    | LockChildren(todo: set<Id>, children: set<Id>, parents: set<Id>)
    | CheckLevel(children: set<Id>, parents: set<Id>)              // read them again
    | Climb                      // lock the next ancestor of the target
    | ReadAncestor               // read the ancestor just locked
    | Ready(now: Time)           // write and commit

  /** `path` holds the ancestors visited so far and `cursor` the next one. */
  datatype Tx = Tx(
    request: Request,
    phase: Phase,
    snapshot: ParentMap,
    target: Option<Id>,
    path: seq<Id>,
    cursor: Option<Id>)

  datatype Store = Store(tree: Tree, locks: map<Id, TxId>, txs: map<TxId, Tx>)

  datatype Step =
    | Begin(t: TxId, request: Request)
    | BeginDelete(t: TxId, node: Id, rows: ParentMap, cutoff: Option<Time>)
    | Lock(t: TxId, row: Id)
    | Proceed(t: TxId, now: Time)
    | Commit(t: TxId)
    | GiveUp(t: TxId)

  predicate Held(s: Store, t: TxId, x: Id) {
    x in s.locks && s.locks[x] == t
  }

  function Released(s: Store, t: TxId): Store {
    s.(locks := map x | x in s.locks && s.locks[x] != t :: s.locks[x], txs := s.txs - {t})
  }

  function With(s: Store, t: TxId, tx: Tx): Store {
    s.(txs := s.txs[t := tx])
  }

  function ToSet(x: Option<Id>): set<Id> {
    if x.Some? then {x.value} else {}
  }

  /** The node that must not be found above the target. */
  function Forbidden(r: Request): Option<Id> {
    if r.Move? || r.Restore? || r.Copy? then Some(r.node) else None
  }

  function Started(r: Request): Option<Tx> {
    match r
    case Move(node, to) => Some(Tx(r, LockFirst({node} + ToSet(to)), map[], to, [], to))
    case Create(_, to, _, _, _) => Some(Tx(r, Climb, map[], to, [], to))
    case Copy(node, _, _) => Some(Tx(r, LockFirst({node}), map[], None, [], None))
    case Archive(node) => Some(Tx(r, LockFirst({node}), map[], None, [], None))
    case Restore(node, _) => Some(Tx(r, LockFirst({node}), map[], None, [], None))
    case Delete(_, _) => None
  }

  /** The phase after a row has been locked, if the transaction wants its lock. */
  function AfterLock(tx: Tx, x: Id): Option<Phase> {
    match tx.phase
    case LockFirst(todo) => if x in todo then Some(LockFirst(todo - {x})) else None
    case LockTree(todo) => if x in todo then Some(LockTree(todo - {x})) else None
    case LockChildren(todo, children, parents) => if x in todo then Some(LockChildren(todo - {x}, children, parents)) else None
    case Climb => if tx.cursor == Some(x) then Some(ReadAncestor) else None
    case _ => None
  }

  /** On its way up a transaction meets neither the node it is about to hang nor the same row twice. */
  predicate MustStop(tx: Tx, x: Id) {
    tx.phase.Climb? && (Forbidden(tx.request) == Some(x) || x in tx.path)
  }

  /** Locking a row: it waits for another holder, and it gives up when the row is gone. */
  function LockStep(s: Store, t: TxId, x: Id): Store
    requires t in s.txs
  {
    var tx := s.txs[t];
    var next := AfterLock(tx, x);
    if next.None? then s
    else if MustStop(tx, x) || x !in s.tree then Released(s, t)
    else if x in s.locks && s.locks[x] != t then s
    else With(s.(locks := s.locks[x := t]), t, tx.(phase := next.value))
  }

  predicate MayHouse(tree: Tree, r: Request, p: Id)
    requires p in tree
  {
    match r
    case Move(node, _) => node in tree && Houses(tree, p, tree[node].workspace, tree[node].space)
    case Restore(node, _) => node in tree && Houses(tree, p, tree[node].workspace, tree[node].space)
    case Copy(node, _, _) => node in tree && Houses(tree, p, tree[node].workspace, tree[node].space)
    case Create(_, _, workspace, space, _) => Houses(tree, p, workspace, space)
    case _ => true
  }

  predicate RowsUnchanged(tree: Tree, snapshot: ParentMap) {
    forall x :: x in snapshot ==> x in tree && tree[x].parent == snapshot[x]
  }

  predicate AllBefore(tree: Tree, ids: set<Id>, cutoff: Time) {
    forall x :: x in ids && x in tree ==> tree[x].archivedAt.Some? && tree[x].archivedAt.value < cutoff
  }

  /** What a transaction does after a statement that reads. */
  datatype Outcome = Wait | Leave | Go(next: Tx)

  /** The ancestor at the cursor joins the path. */
  function OneUp(tree: Tree, tx: Tx): Tx
    requires tx.cursor.Some? && tx.cursor.value in tree
  {
    tx.(phase := Climb, path := tx.path + [tx.cursor.value], cursor := tree[tx.cursor.value].parent)
  }

  /** Reading the ancestor that was locked last. */
  function ReadAncestorOf(tree: Tree, tx: Tx): Outcome {
    if tx.cursor.None? then Wait
    else
      var x := tx.cursor.value;
      if !Active(tree, x) || (tx.path == [] && !MayHouse(tree, tx.request, x)) then Leave
      else Go(OneUp(tree, tx))
  }

  /** A level of children is locked once it is known; without children the walk is over and the climb begins. */
  function FindLevel(tree: Tree, tx: Tx, parents: set<Id>): Outcome
    requires tx.request.Copy?
  {
    var children := ActiveChildren(tree, parents);
    if children == {} then Go(tx.(phase := Climb, target := tx.request.to, cursor := tx.request.to))
    else if children !! tx.snapshot.Keys then Go(tx.(phase := LockChildren(children, children, parents)))
    else Leave
  }

  /** The children count if they are all still active and below the level. */
  function CollectLevel(tree: Tree, tx: Tx, children: set<Id>, parents: set<Id>): Outcome {
    if children <= ActiveChildren(tree, parents)
    then Go(tx.(phase := FindChildren(children), snapshot := tx.snapshot + map x | x in children :: tree[x].parent))
    else Leave
  }

  /** The rows that the request names are locked. */
  ghost function FirstRead(tree: Tree, tx: Tx): Outcome {
    match tx.request
    case Move(node, _) => if Active(tree, node) then Go(tx.(phase := Climb)) else Leave
    case Copy(node, _, _) =>
      if Active(tree, node) then Go(tx.(phase := FindChildren({node}), snapshot := map[node := tree[node].parent])) else Leave
    case Archive(node) => TakeSnapshot(tree, tx, node)
    case Restore(node, _) => TakeSnapshot(tree, tx, node)
    case _ => Wait
  }

  ghost function TakeSnapshot(tree: Tree, tx: Tx, node: Id): Outcome {
    if node !in tree then Leave
    else
      var rows := SubtreeRows(tree, node);
      Go(tx.(phase := LockTree(rows.Keys - {node}), snapshot := rows))
  }

  function ReadRows(tree: Tree, tx: Tx): Outcome {
    if
      && RowsUnchanged(tree, tx.snapshot)
      && (tx.request.Delete? && tx.request.cutoff.Some? ==> AllBefore(tree, tx.snapshot.Keys, tx.request.cutoff.value))
    then Go(tx.(phase := CheckChildren))
    else Leave
  }

  function CountChildren(tree: Tree, tx: Tx, now: Time): Outcome {
    if !ChildClosed(tree, tx.snapshot.Keys) then Leave
    else if tx.request.Restore? then
      if tx.request.node !in tree || tree[tx.request.node].archivedAt.None? then Leave
      else
        var target := RestoreTarget(tree, tx.request.node, tx.request.choice);
        Go(tx.(phase := Climb, target := target, cursor := target))
    else Go(tx.(phase := Ready(now)))
  }

  ghost function Next(tree: Tree, tx: Tx, now: Time): Outcome {
    match tx.phase
    case LockFirst(todo) => if todo == {} then FirstRead(tree, tx) else Wait
    case LockTree(todo) => if todo == {} then Go(tx.(phase := CheckRows)) else Wait
    case CheckRows => ReadRows(tree, tx)
    case CheckChildren => CountChildren(tree, tx, now)
    case FindChildren(parents) => if tx.request.Copy? then FindLevel(tree, tx, parents) else Wait
    case LockChildren(todo, children, parents) => if todo == {} then Go(tx.(phase := CheckLevel(children, parents))) else Wait
    case CheckLevel(children, parents) => CollectLevel(tree, tx, children, parents)
    case Climb => if tx.cursor.None? then Go(tx.(phase := Ready(now))) else Wait
    case ReadAncestor => ReadAncestorOf(tree, tx)
    case Ready(_) => Wait
  }

  ghost function ProceedStep(s: Store, t: TxId, now: Time): Store
    requires t in s.txs
  {
    match Next(s.tree, s.txs[t], now)
    case Wait => s
    case Leave => Released(s, t)
    case Go(next) => With(s, t, next)
  }

  /** Each row of the copy has an id of its own that is not in use. */
  predicate CopyIdsFit(tree: Tree, rows: set<Id>, copyIds: map<Id, Id>) {
    rows <= copyIds.Keys && rows <= tree.Keys && Injective(Drawn(rows, copyIds)) && Drawn(rows, copyIds).Values !! tree.Keys
  }

  function Drawn(rows: set<Id>, copyIds: map<Id, Id>): map<Id, Id> {
    map x | x in rows && x in copyIds :: copyIds[x]
  }

  function Written(tree: Tree, tx: Tx): Tree
    requires tx.phase.Ready?
  {
    match tx.request
    case Move(node, _) => if node in tree then Moved(tree, node, tx.target) else tree
    case Create(node, _, workspace, space, objectKey) =>
      if node in tree then tree else WithNew(tree, node, tx.target, workspace, space, objectKey)
    case Copy(node, _, copyIds) =>
      if CopyIdsFit(tree, tx.snapshot.Keys, copyIds) then WithCopy(tree, node, tx.target, Drawn(tx.snapshot.Keys, copyIds)) else tree
    case Archive(_) => Archived(tree, tx.snapshot.Keys, tx.phase.now)
    case Restore(node, _) =>
      if node in tree && tx.snapshot.Keys <= tree.Keys then Restored(tree, tx.snapshot.Keys, node, tx.target) else tree
    case Delete(_, _) => tree - tx.snapshot.Keys
  }

  /** A deletion starts from rows that were listed before, at some time: the root, and whatever hung from it. */
  function Deletion(node: Id, rows: ParentMap, cutoff: Option<Time>): Tx {
    Tx(Delete(node, cutoff), LockTree(rows.Keys), rows, None, [], None)
  }

  /** The write and the release of all locks. */
  function Committed(s: Store, t: TxId): Store
    requires t in s.txs && s.txs[t].phase.Ready?
  {
    Released(s.(tree := Written(s.tree, s.txs[t])), t)
  }

  ghost function Apply(s: Store, step: Step): Store {
    match step
    case Begin(t, request) =>
      if t in s.txs || Started(request).None? then s else With(s, t, Started(request).value)
    case BeginDelete(t, node, rows, cutoff) =>
      if t in s.txs || !HangsFrom(rows, node) then s
      else With(s, t, Deletion(node, rows, cutoff))
    case Lock(t, x) => if t in s.txs then LockStep(s, t, x) else s
    case Proceed(t, now) => if t in s.txs then ProceedStep(s, t, now) else s
    case Commit(t) =>
      if t in s.txs && s.txs[t].phase.Ready? then Committed(s, t) else s
    case GiveUp(t) => Released(s, t)
  }

  ghost function Run(s: Store, steps: seq<Step>): Store
    decreases |steps|
  {
    if steps == [] then s else Run(Apply(s, steps[0]), steps[1..])
  }

  ghost predicate Initial(s: Store) {
    TreeOk(s.tree) && s.locks == map[] && s.txs == map[]
  }

  // ---------- the invariant ----------

  predicate PathOk(s: Store, t: TxId, tx: Tx) {
    && IsChain(Parents(s.tree), tx.path, tx.cursor)
    && (tx.path == [] ==> tx.cursor == tx.target)
    && (forall i :: 0 <= i < |tx.path| ==> Held(s, t, tx.path[i]) && Active(s.tree, tx.path[i]))
    && (Forbidden(tx.request).Some? ==> Forbidden(tx.request).value !in tx.path)
    && (tx.path != [] ==> tx.target == Some(tx.path[0]) && MayHouse(s.tree, tx.request, tx.path[0]))
  }

  /** The level that a copy is about to collect. */
  function Children(tx: Tx): set<Id> {
    if tx.phase.LockChildren? || tx.phase.CheckLevel? then tx.phase.children else {}
  }

  /** The rows whose active children are all known. */
  function Closed(tx: Tx): set<Id> {
    if tx.phase.FindChildren? then tx.snapshot.Keys - tx.phase.parents else tx.snapshot.Keys
  }

  /** What a copy has collected: active rows hanging from the root, and below the levels done no other active ones. */
  predicate CollectedOk(s: Store, tx: Tx) {
    tx.request.Copy? && !tx.phase.LockFirst? ==>
      && HangsFrom(tx.snapshot, tx.request.node)
      && (forall x :: x in tx.snapshot ==> Active(s.tree, x) && s.tree[x].parent == tx.snapshot[x])
      && (forall y :: y in s.tree && s.tree[y].archivedAt.None? && s.tree[y].parent.Some? && s.tree[y].parent.value in Closed(tx) ==>
            y in tx.snapshot || y in Children(tx))
      && (tx.phase.FindChildren? || tx.phase.LockChildren? || tx.phase.CheckLevel? ==> tx.phase.parents <= tx.snapshot.Keys)
  }

  /** The locks a transaction has by now. */
  predicate LocksOk(s: Store, t: TxId, tx: Tx) {
    && (tx.request.Move? || tx.request.Archive? || tx.request.Restore? || tx.request.Copy? ==>
          Held(s, t, tx.request.node) || (tx.phase.LockFirst? && tx.request.node in tx.phase.todo))
    && (forall x :: x in tx.snapshot ==> Held(s, t, x) || (tx.phase.LockTree? && x in tx.phase.todo))
    && (forall x :: x in Children(tx) ==> Held(s, t, x) || (tx.phase.LockChildren? && x in tx.phase.todo))
  }

  predicate UsesTree(r: Request) {
    r.Archive? || r.Restore? || r.Delete?
  }

  /** What a transaction has checked about the rows of its snapshot. */
  predicate SnapshotOk(s: Store, tx: Tx) {
    && (UsesTree(tx.request) && !tx.phase.LockFirst? ==> HangsFrom(tx.snapshot, tx.request.node))
    && (UsesTree(tx.request) && (tx.phase.CheckChildren? || tx.phase.Climb? || tx.phase.ReadAncestor? || tx.phase.Ready?) ==>
          RowsUnchanged(s.tree, tx.snapshot))
    && (UsesTree(tx.request) && (tx.phase.Climb? || tx.phase.ReadAncestor? || tx.phase.Ready?) ==>
          ChildClosed(s.tree, tx.snapshot.Keys))
    && (tx.request.Delete? && tx.request.cutoff.Some? && (tx.phase.CheckChildren? || tx.phase.Ready?) ==>
          AllBefore(s.tree, tx.snapshot.Keys, tx.request.cutoff.value))
  }

  /** What a transaction that will hang a node has found out on its way up. */
  predicate ClimbOk(s: Store, t: TxId, tx: Tx) {
    tx.phase.Climb? || tx.phase.ReadAncestor? || (tx.phase.Ready? && !tx.request.Archive? && !tx.request.Delete?) ==>
      && !tx.request.Archive? && !tx.request.Delete?
      && PathOk(s, t, tx)
      && (tx.request.Move? ==> Active(s.tree, tx.request.node))
      && (tx.request.Restore? ==> tx.request.node in s.tree && s.tree[tx.request.node].archivedAt.Some?)
      && (tx.phase.ReadAncestor? ==>
            tx.cursor.Some? && Held(s, t, tx.cursor.value) && Forbidden(tx.request) != tx.cursor)
      && (tx.phase.Ready? ==> tx.cursor.None?)
  }

  /** Where a restored node goes: to the place asked for, or back to the one it remembers. */
  function RestoreTarget(tree: Tree, node: Id, choice: Option<Option<Id>>): Option<Id>
    requires node in tree
  {
    if choice.Some? then choice.value else tree[node].originalParent
  }

  predicate TargetOk(s: Store, tx: Tx) {
    && (tx.request.Move? || tx.request.Create? ==> tx.target == tx.request.to)
    && (tx.phase.Climb? || tx.phase.ReadAncestor? || tx.phase.Ready? ==>
          && (tx.request.Copy? ==> tx.target == tx.request.to)
          && (tx.request.Restore? ==>
                tx.request.node in s.tree && tx.target == RestoreTarget(s.tree, tx.request.node, tx.request.choice)))
  }

  predicate PhaseOk(tx: Tx) {
    && (tx.phase.LockTree? || tx.phase.CheckRows? || tx.phase.CheckChildren? ==> UsesTree(tx.request))
    && (tx.phase.FindChildren? || tx.phase.LockChildren? || tx.phase.CheckLevel? ==> tx.request.Copy?)
    && (tx.phase.LockFirst? ==> tx.snapshot == map[] && tx.path == [] && (tx.request.Move? ==> tx.cursor == tx.target))
    && ((UsesTree(tx.request) || tx.request.Copy?) && !tx.phase.Climb? && !tx.phase.ReadAncestor? && !tx.phase.Ready? ==> tx.path == [])
  }

  predicate TxOk(s: Store, t: TxId, tx: Tx) {
    PhaseOk(tx) && LocksOk(s, t, tx) && SnapshotOk(s, tx) && CollectedOk(s, tx) && ClimbOk(s, t, tx)
    && TargetOk(s, tx)
  }

  ghost predicate Inv(s: Store) {
    && Placed(s.tree)
    && (forall x :: x in s.locks ==> s.locks[x] in s.txs && x in s.tree)
    && (forall t :: t in s.txs ==> TxOk(s, t, s.txs[t]))
  }

  // ---------- other transactions are not disturbed ----------

  /**
   What a step of one transaction may do to the tree, seen from another transaction `u`: rows that
   `u` has locked stay as they are, and no row is newly hung, or newly active, below them.
   */
  ghost predicate Respects(s: Store, after: Store, u: TxId) {
    && (forall x :: Held(s, u, x) ==> Held(after, u, x))
    && (forall x :: Held(s, u, x) && x in s.tree ==> x in after.tree && after.tree[x] == s.tree[x])
    && (forall x :: x in after.tree && after.tree[x].parent.Some? && Held(s, u, after.tree[x].parent.value) ==>
          x in s.tree && s.tree[x].parent == after.tree[x].parent && (Active(after.tree, x) ==> Active(s.tree, x)))
  }

  lemma OtherSnapshotKept(s: Store, after: Store, u: TxId, tx: Tx)
    requires TxOk(s, u, tx) && Respects(s, after, u)
    ensures SnapshotOk(after, tx)
  {
  }

  lemma OtherCollectedKept(s: Store, after: Store, u: TxId, tx: Tx)
    requires TxOk(s, u, tx) && Respects(s, after, u)
    ensures CollectedOk(after, tx)
  {
  }

  lemma OtherTargetKept(s: Store, after: Store, u: TxId, tx: Tx)
    requires TxOk(s, u, tx) && Respects(s, after, u)
    ensures TargetOk(after, tx)
  {
  }

  lemma OtherClimbKept(s: Store, after: Store, u: TxId, tx: Tx)
    requires TxOk(s, u, tx) && Respects(s, after, u)
    ensures ClimbOk(after, u, tx)
  {
  }

  lemma OtherKept(s: Store, after: Store, u: TxId, tx: Tx)
    requires TxOk(s, u, tx) && Respects(s, after, u)
    ensures TxOk(after, u, tx)
  {
    OtherSnapshotKept(s, after, u, tx);
    OtherCollectedKept(s, after, u, tx);
    OtherClimbKept(s, after, u, tx);
    OtherTargetKept(s, after, u, tx);
  }

  /** A transaction that ends without writing leaves the others as they were. */
  lemma ReleasedKeepsInv(s: Store, t: TxId)
    requires Inv(s)
    ensures Inv(Released(s, t))
  {
    var after := Released(s, t);
    forall u | u in after.txs ensures TxOk(after, u, after.txs[u]) {
      ReleaseRespects(s, t, u);
      OtherKept(s, after, u, s.txs[u]);
    }
  }

  lemma ReleaseRespects(s: Store, t: TxId, u: TxId)
    requires u != t
    ensures Respects(s, Released(s, t), u)
  {
  }

  /** A transaction goes on by itself. */
  lemma MovesOn(s: Store, t: TxId, next: Tx)
    requires Inv(s) && t in s.txs && TxOk(s, t, next)
    ensures Inv(With(s, t, next))
  {
    GoesOn(s, t, next);
  }

  lemma SameView(s: Store, after: Store, u: TxId, tx: Tx)
    requires TxOk(s, u, tx) && after.tree == s.tree && after.locks == s.locks
    ensures TxOk(after, u, tx)
  {
  }

  // ---------- each step keeps the invariant ----------

  lemma LockedKeepsLocks(s: Store, t: TxId, tx: Tx, x: Id)
    requires TxOk(s, t, tx) && AfterLock(tx, x).Some? && !MustStop(tx, x)
    ensures var after := s.(locks := s.locks[x := t]);
      PhaseOk(tx.(phase := AfterLock(tx, x).value)) && LocksOk(after, t, tx.(phase := AfterLock(tx, x).value))
  {
  }

  lemma LockedKeepsRest(s: Store, t: TxId, tx: Tx, x: Id)
    requires TxOk(s, t, tx) && AfterLock(tx, x).Some? && !MustStop(tx, x)
    ensures var after := s.(locks := s.locks[x := t]); var next := tx.(phase := AfterLock(tx, x).value);
      SnapshotOk(after, next) && CollectedOk(after, next) && ClimbOk(after, t, next) && TargetOk(after, next)
  {
  }

  lemma LocksGrow(s: Store, t: TxId, x: Id)
    requires Inv(s) && t in s.txs && x in s.tree && (x in s.locks ==> s.locks[x] == t)
    ensures var locked := s.(locks := s.locks[x := t]);
      && (forall y :: y in locked.locks ==> locked.locks[y] in s.txs && y in s.tree)
      && forall u :: u in s.txs && u != t ==> TxOk(locked, u, s.txs[u])
  {
    var locked := s.(locks := s.locks[x := t]);
    forall u | u in s.txs && u != t ensures TxOk(locked, u, s.txs[u]) {
      OtherKept(s, locked, u, s.txs[u]);
    }
  }

  lemma LockedOk(s: Store, t: TxId, tx: Tx, x: Id)
    requires TxOk(s, t, tx) && AfterLock(tx, x).Some? && !MustStop(tx, x)
    ensures TxOk(s.(locks := s.locks[x := t]), t, tx.(phase := AfterLock(tx, x).value))
  {
    LockedKeepsLocks(s, t, tx, x);
    LockedKeepsRest(s, t, tx, x);
  }

  /** Locks and rows as they are, with one transaction gone on. */
  lemma GoesOn(s: Store, t: TxId, next: Tx)
    requires Placed(s.tree) && (forall x :: x in s.locks ==> s.locks[x] in s.txs && x in s.tree)
    requires t in s.txs && TxOk(s, t, next) && forall u :: u in s.txs && u != t ==> TxOk(s, u, s.txs[u])
    ensures Inv(With(s, t, next))
  {
    var after := With(s, t, next);
    forall u | u in after.txs ensures TxOk(after, u, after.txs[u]) {
      SameView(s, after, u, after.txs[u]);
    }
  }

  lemma TakesLock(s: Store, t: TxId, x: Id)
    requires Inv(s) && t in s.txs && x in s.tree && (x in s.locks ==> s.locks[x] == t)
    requires AfterLock(s.txs[t], x).Some? && !MustStop(s.txs[t], x)
    ensures Inv(With(s.(locks := s.locks[x := t]), t, s.txs[t].(phase := AfterLock(s.txs[t], x).value)))
  {
    LocksGrow(s, t, x);
    LockedOk(s, t, s.txs[t], x);
    GoesOn(s.(locks := s.locks[x := t]), t, s.txs[t].(phase := AfterLock(s.txs[t], x).value));
  }

  lemma LockKeepsInv(s: Store, t: TxId, x: Id)
    requires Inv(s) && t in s.txs
    ensures Inv(LockStep(s, t, x))
  {
    ReleasedKeepsInv(s, t);
    if AfterLock(s.txs[t], x).Some? && !MustStop(s.txs[t], x) && x in s.tree && (x in s.locks ==> s.locks[x] == t) {
      TakesLock(s, t, x);
    }
  }

  lemma FirstReadOk(s: Store, t: TxId, tx: Tx)
    requires TxOk(s, t, tx) && NoDangling(Parents(s.tree)) && tx.phase == LockFirst({}) && FirstRead(s.tree, tx).Go?
    ensures TxOk(s, t, FirstRead(s.tree, tx).next)
  {
    if tx.request.Archive? || tx.request.Restore? {
      SubtreeHangs(s.tree, tx.request.node);
    }
  }

  lemma TreeReadOk(s: Store, t: TxId, tx: Tx, now: Time)
    requires TxOk(s, t, tx) && UsesTree(tx.request) && Next(s.tree, tx, now).Go?
    requires tx.phase == LockTree({}) || tx.phase.CheckRows? || tx.phase.CheckChildren?
    ensures TxOk(s, t, Next(s.tree, tx, now).next)
  {
  }

  lemma ClimbReadOk(s: Store, t: TxId, tx: Tx, now: Time)
    requires TxOk(s, t, tx) && tx.phase.Climb? && tx.cursor.None?
    ensures TxOk(s, t, tx.(phase := Ready(now)))
  {
  }

  /** An ancestor that was read and found fit joins the path. */
  lemma AncestorJoins(s: Store, t: TxId, tx: Tx)
    requires TxOk(s, t, tx) && tx.phase.ReadAncestor? && ReadAncestorOf(s.tree, tx).Go?
    ensures TxOk(s, t, ReadAncestorOf(s.tree, tx).next)
  {
    assert PathOk(s, t, OneUp(s.tree, tx));
  }

  lemma LevelFoundOk(s: Store, t: TxId, tx: Tx)
    requires TxOk(s, t, tx) && tx.phase.FindChildren? && FindLevel(s.tree, tx, tx.phase.parents).Go?
    ensures TxOk(s, t, FindLevel(s.tree, tx, tx.phase.parents).next)
  {
    LevelIsKnown(s, t, tx);
  }

  lemma LevelIsKnown(s: Store, t: TxId, tx: Tx)
    requires TxOk(s, t, tx) && tx.phase.FindChildren? && FindLevel(s.tree, tx, tx.phase.parents).Go?
    ensures CollectedOk(s, FindLevel(s.tree, tx, tx.phase.parents).next)
  {
  }

  lemma LevelLockedOk(s: Store, t: TxId, tx: Tx)
    requires TxOk(s, t, tx) && tx.phase.LockChildren? && tx.phase.todo == {}
    ensures TxOk(s, t, tx.(phase := CheckLevel(tx.phase.children, tx.phase.parents)))
  {
  }

  lemma LevelCollectedOk(s: Store, t: TxId, tx: Tx)
    requires TxOk(s, t, tx) && tx.phase.CheckLevel? && CollectLevel(s.tree, tx, tx.phase.children, tx.phase.parents).Go?
    ensures TxOk(s, t, CollectLevel(s.tree, tx, tx.phase.children, tx.phase.parents).next)
  {
    LevelIsCollected(s, t, tx);
  }

  lemma LevelIsCollected(s: Store, t: TxId, tx: Tx)
    requires TxOk(s, t, tx) && tx.phase.CheckLevel? && CollectLevel(s.tree, tx, tx.phase.children, tx.phase.parents).Go?
    ensures CollectedOk(s, CollectLevel(s.tree, tx, tx.phase.children, tx.phase.parents).next)
  {
  }

  lemma NextOk(s: Store, t: TxId, tx: Tx, now: Time)
    requires TxOk(s, t, tx) && NoDangling(Parents(s.tree)) && Next(s.tree, tx, now).Go?
    ensures TxOk(s, t, Next(s.tree, tx, now).next)
  {
    match tx.phase
    case LockFirst(_) => FirstReadOk(s, t, tx);
    case LockTree(_) => TreeReadOk(s, t, tx, now);
    case CheckRows => TreeReadOk(s, t, tx, now);
    case CheckChildren => TreeReadOk(s, t, tx, now);
    case FindChildren(_) => LevelFoundOk(s, t, tx);
    case LockChildren(_, _, _) => LevelLockedOk(s, t, tx);
    case CheckLevel(_, _) => LevelCollectedOk(s, t, tx);
    case Climb => ClimbReadOk(s, t, tx, now);
    case ReadAncestor => AncestorJoins(s, t, tx);
    case Ready(_) =>
  }

  lemma ProceedKeepsInv(s: Store, t: TxId, now: Time)
    requires Inv(s) && t in s.txs
    ensures Inv(ProceedStep(s, t, now))
  {
    match Next(s.tree, s.txs[t], now)
    case Wait =>
    case Leave => ReleasedKeepsInv(s, t);
    case Go(next) =>
      NextOk(s, t, s.txs[t], now);
      MovesOn(s, t, next);
  }

  /** A finished climb is the check that the writes rely on. */
  lemma ReadyIsChecked(s: Store, t: TxId, tx: Tx)
    requires TxOk(s, t, tx) && tx.phase.Ready? && Placed(s.tree)
    requires tx.request.Move? || tx.request.Restore? || tx.request.Copy?
    ensures var n := tx.request.node;
      n in s.tree && Checked(s.tree, tx.target, tx.path, n, s.tree[n].workspace, s.tree[n].space)
  {
  }

  lemma CreateIsChecked(s: Store, t: TxId, tx: Tx)
    requires TxOk(s, t, tx) && tx.phase.Ready? && Placed(s.tree) && tx.request.Create? && tx.request.node !in s.tree
    ensures var r := tx.request;
      Checked(s.tree, tx.target, tx.path, r.node, r.workspace, r.space)
  {
  }

  lemma HangingWrittenOk(s: Store, t: TxId, tx: Tx)
    requires TxOk(s, t, tx) && tx.phase.Ready? && Placed(s.tree)
    requires tx.request.Move? || tx.request.Create?
    ensures Placed(Written(s.tree, tx)) && (Ordered(s.tree) ==> Ordered(Written(s.tree, tx)))
  {
    if tx.request.Move? {
      ReadyIsChecked(s, t, tx);
      MovedOk(s.tree, tx.request.node, tx.target, tx.path);
    } else if tx.request.node !in s.tree {
      CreateIsChecked(s, t, tx);
      WithNewOk(s.tree, tx.request.node, tx.target, tx.path, tx.request.workspace, tx.request.space, tx.request.objectKey);
    }
  }

  lemma RestoreWrittenOk(s: Store, t: TxId, tx: Tx)
    requires TxOk(s, t, tx) && tx.phase.Ready? && Placed(s.tree) && tx.request.Restore?
    ensures Placed(Written(s.tree, tx)) && (Ordered(s.tree) ==> Ordered(Written(s.tree, tx)))
  {
    ReadyIsChecked(s, t, tx);
    RestoredOk(s.tree, tx.snapshot, tx.request.node, tx.target, tx.path);
  }

  /** What a copy has collected is the active tree below its root, in the very state in which it commits. */
  lemma CollectedIsTree(s: Store, t: TxId, tx: Tx)
    requires TxOk(s, t, tx) && tx.phase.Ready? && Placed(s.tree) && tx.request.Copy?
    ensures Active(s.tree, tx.request.node) && tx.snapshot.Keys == ActiveBelow(s.tree, tx.request.node)
  {
    CollectedIsActiveBelow(s.tree, tx.snapshot, tx.request.node);
  }

  lemma CopyIsWritten(s: Store, t: TxId, tx: Tx)
    requires TxOk(s, t, tx) && tx.phase.Ready? && Placed(s.tree) && tx.request.Copy?
    requires CopyIdsFit(s.tree, tx.snapshot.Keys, tx.request.copyIds)
    ensures IsCopy(s.tree, Written(s.tree, tx), tx.request.node, tx.target, Drawn(tx.snapshot.Keys, tx.request.copyIds))
  {
    CollectedIsTree(s, t, tx);
    CollectedIsCopied(s.tree, tx);
  }

  lemma CollectedIsCopied(tree: Tree, tx: Tx)
    requires tx.phase.Ready? && tx.request.Copy? && tx.snapshot.Keys == ActiveBelow(tree, tx.request.node)
    requires CopyIdsFit(tree, tx.snapshot.Keys, tx.request.copyIds)
    ensures IsCopy(tree, Written(tree, tx), tx.request.node, tx.target, Drawn(tx.snapshot.Keys, tx.request.copyIds))
  {
    assert Drawn(tx.snapshot.Keys, tx.request.copyIds).Keys == tx.snapshot.Keys;
    WithCopyIsCopy(tree, tx.request.node, tx.target, Drawn(tx.snapshot.Keys, tx.request.copyIds));
  }

  lemma CopyWrittenOk(s: Store, t: TxId, tx: Tx)
    requires TxOk(s, t, tx) && tx.phase.Ready? && Placed(s.tree) && tx.request.Copy?
    ensures Placed(Written(s.tree, tx)) && (Ordered(s.tree) ==> Ordered(Written(s.tree, tx)))
  {
    if CopyIdsFit(s.tree, tx.snapshot.Keys, tx.request.copyIds) {
      CollectedIsTree(s, t, tx);
      CopyIsWritten(s, t, tx);
      ReadyIsChecked(s, t, tx);
      CopyOk(s.tree, Written(s.tree, tx), tx.request.node, tx.target, Drawn(tx.snapshot.Keys, tx.request.copyIds));
    }
  }

  lemma WrittenOk(s: Store, t: TxId, tx: Tx)
    requires TxOk(s, t, tx) && tx.phase.Ready? && Placed(s.tree)
    ensures Placed(Written(s.tree, tx))
    ensures Ordered(s.tree) ==> (Ordered(Written(s.tree, tx)) <==> (tx.request.Archive? ==> Fits(s.tree, tx.snapshot.Keys, tx.phase.now)))
  {
    match tx.request
    case Move(_, _) => HangingWrittenOk(s, t, tx);
    case Create(_, _, _, _, _) => HangingWrittenOk(s, t, tx);
    case Copy(_, _, _) => CopyWrittenOk(s, t, tx);
    case Archive(_) => ArchivedOk(s.tree, tx.snapshot.Keys, tx.phase.now);
    case Restore(_, _) => RestoreWrittenOk(s, t, tx);
    case Delete(_, _) => RemovedOk(s.tree, tx.snapshot.Keys);
  }

  predicate LockedByNoOther(s: Store, t: TxId, x: Id) {
    x in s.locks ==> s.locks[x] == t
  }

  predicate LocksOnRows(s: Store) {
    forall x :: x in s.locks ==> x in s.tree
  }

  /** Rows outside the writer's locks stay, and no row is hung or made active below a row that another has locked. */
  ghost predicate UnderLocks(s: Store, t: TxId, after: Tree) {
    && (forall x :: x in s.tree && !Held(s, t, x) ==> x in after && after[x] == s.tree[x])
    && (forall x :: x in after && after[x].parent.Some? ==>
          || (x in s.tree && s.tree[x].parent == after[x].parent && (Active(after, x) ==> Active(s.tree, x)))
          || LockedByNoOther(s, t, after[x].parent.value))
  }

  lemma TargetIsHeld(s: Store, t: TxId, tx: Tx)
    requires TxOk(s, t, tx) && tx.phase.Ready? && Placed(s.tree) && !tx.request.Archive? && !tx.request.Delete?
    ensures tx.target.Some? ==> Held(s, t, tx.target.value)
  {
    assert PathOk(s, t, tx) && tx.cursor.None?;
  }

  lemma HangingUnderLocks(s: Store, t: TxId, tx: Tx)
    requires TxOk(s, t, tx) && tx.phase.Ready? && Placed(s.tree)
    requires tx.request.Move? || tx.request.Create?
    ensures UnderLocks(s, t, Written(s.tree, tx))
  {
    TargetIsHeld(s, t, tx);
  }

  lemma SnapshotIsHeld(s: Store, t: TxId, tx: Tx)
    requires TxOk(s, t, tx) && tx.phase.Ready? && Placed(s.tree) && UsesTree(tx.request)
    ensures forall x :: x in tx.snapshot ==> Held(s, t, x) && x in s.tree
  {
  }

  lemma RestoreUnderLocks(s: Store, t: TxId, snapshot: ParentMap, root: Id, target: Option<Id>)
    requires HangsFrom(snapshot, root) && RowsUnchanged(s.tree, snapshot) && snapshot.Keys <= s.tree.Keys
    requires (forall x :: x in snapshot ==> Held(s, t, x)) && (target.Some? ==> Held(s, t, target.value))
    ensures UnderLocks(s, t, Restored(s.tree, snapshot.Keys, root, target))
  {
    RestoredRows(s.tree, snapshot.Keys, root, target);
  }

  lemma RestoringUnderLocks(s: Store, t: TxId, tx: Tx)
    requires TxOk(s, t, tx) && tx.phase.Ready? && Placed(s.tree) && tx.request.Restore?
    ensures UnderLocks(s, t, Written(s.tree, tx))
  {
    TargetIsHeld(s, t, tx);
    SnapshotIsHeld(s, t, tx);
    RestoreUnderLocks(s, t, tx.snapshot, tx.request.node, tx.target);
  }

  /** A restoration changes the parent of no row but the root, and no row outside the snapshot. */
  lemma RestoredRows(tree: Tree, ids: set<Id>, root: Id, target: Option<Id>)
    requires root in ids && ids <= tree.Keys
    ensures var after := Restored(tree, ids, root, target);
      && after.Keys == tree.Keys
      && (forall x :: x in tree && x !in ids ==> after[x] == tree[x])
      && (forall x :: x in tree && x != root ==> after[x].parent == tree[x].parent)
      && after[root].parent == target
      && (forall x :: x in tree ==> after[x].archivedAt.None? || after[x].archivedAt == tree[x].archivedAt)
  {
  }

  lemma ArchivingUnderLocks(s: Store, t: TxId, tx: Tx)
    requires TxOk(s, t, tx) && tx.phase.Ready? && Placed(s.tree)
    requires tx.request.Archive? || tx.request.Delete?
    ensures UnderLocks(s, t, Written(s.tree, tx))
  {
  }

  lemma CopyUnderLocks(s: Store, t: TxId, after: Tree, root: Id, target: Option<Id>, idMap: map<Id, Id>)
    requires Active(s.tree, root) && IsCopy(s.tree, after, root, target, idMap)
    requires LocksOnRows(s) && (target.Some? ==> Held(s, t, target.value))
    ensures UnderLocks(s, t, after)
  {
    CopiesHangApart(s.tree, after, root, target, idMap);
  }

  lemma CopyingUnderLocks(s: Store, t: TxId, tx: Tx)
    requires TxOk(s, t, tx) && tx.phase.Ready? && Placed(s.tree) && tx.request.Copy? && LocksOnRows(s)
    ensures UnderLocks(s, t, Written(s.tree, tx))
  {
    if CopyIdsFit(s.tree, tx.snapshot.Keys, tx.request.copyIds) {
      CollectedIsTree(s, t, tx);
      CopyIsWritten(s, t, tx);
      TargetIsHeld(s, t, tx);
      CopyUnderLocks(s, t, Written(s.tree, tx), tx.request.node, tx.target, Drawn(tx.snapshot.Keys, tx.request.copyIds));
    } else {
      assert Written(s.tree, tx) == s.tree;
    }
  }

  lemma WritesUnderLocks(s: Store, t: TxId, tx: Tx)
    requires TxOk(s, t, tx) && tx.phase.Ready? && Placed(s.tree) && LocksOnRows(s)
    ensures UnderLocks(s, t, Written(s.tree, tx))
  {
    match tx.request
    case Move(_, _) => HangingUnderLocks(s, t, tx);
    case Create(_, _, _, _, _) => HangingUnderLocks(s, t, tx);
    case Copy(_, _, _) => CopyingUnderLocks(s, t, tx);
    case Restore(_, _) => RestoringUnderLocks(s, t, tx);
    case Archive(_) => ArchivingUnderLocks(s, t, tx);
    case Delete(_, _) => ArchivingUnderLocks(s, t, tx);
  }

  lemma UnderLocksRespects(s: Store, t: TxId, tree: Tree, u: TxId)
    requires UnderLocks(s, t, tree) && u != t
    ensures Respects(s, Released(s.(tree := tree), t), u)
  {
  }

  lemma OthersKeptByWrite(s: Store, t: TxId, tree: Tree)
    requires Inv(s) && UnderLocks(s, t, tree)
    ensures var after := Released(s.(tree := tree), t);
      && LocksOnRows(after)
      && forall u :: u in after.txs ==> TxOk(after, u, after.txs[u])
  {
    var after := Released(s.(tree := tree), t);
    forall u | u in after.txs ensures TxOk(after, u, after.txs[u]) {
      UnderLocksRespects(s, t, tree, u);
      OtherKept(s, after, u, s.txs[u]);
    }
  }

  lemma CommitKeepsInv(s: Store, t: TxId)
    requires Inv(s) && t in s.txs && s.txs[t].phase.Ready?
    ensures Inv(Committed(s, t))
  {
    WrittenOk(s, t, s.txs[t]);
    WritesUnderLocks(s, t, s.txs[t]);
    OthersKeptByWrite(s, t, Written(s.tree, s.txs[t]));
  }

  lemma BeginKeepsInv(s: Store, t: TxId, tx: Tx)
    requires Inv(s) && t !in s.txs && TxOk(s, t, tx)
    ensures Inv(With(s, t, tx))
  {
    var after := With(s, t, tx);
    forall u | u in after.txs ensures TxOk(after, u, after.txs[u]) {
      SameView(s, after, u, after.txs[u]);
    }
  }

  lemma StartedOk(s: Store, t: TxId, r: Request)
    requires Started(r).Some?
    ensures TxOk(s, t, Started(r).value)
  {
  }

  lemma DeletionOk(s: Store, t: TxId, node: Id, rows: ParentMap, cutoff: Option<Time>)
    requires HangsFrom(rows, node)
    ensures TxOk(s, t, Deletion(node, rows, cutoff))
  {
  }

  lemma StepKeepsInv(s: Store, step: Step)
    requires Inv(s)
    ensures Inv(Apply(s, step))
  {
    match step
    case Begin(t, request) =>
      if t !in s.txs && Started(request).Some? {
        StartedOk(s, t, request);
        BeginKeepsInv(s, t, Started(request).value);
      }
    case BeginDelete(t, node, rows, cutoff) =>
      if t !in s.txs && HangsFrom(rows, node) {
        DeletionOk(s, t, node, rows, cutoff);
        BeginKeepsInv(s, t, Deletion(node, rows, cutoff));
      }
    case Lock(t, x) =>
      if t in s.txs {
        LockKeepsInv(s, t, x);
      }
    case Proceed(t, now) =>
      if t in s.txs {
        ProceedKeepsInv(s, t, now);
      }
    case Commit(t) =>
      if t in s.txs && s.txs[t].phase.Ready? {
        CommitKeepsInv(s, t);
      }
    case GiveUp(t) => ReleasedKeepsInv(s, t);
  }

  lemma {:induction false} RunKeepsInv(s: Store, steps: seq<Step>)
    requires Inv(s)
    ensures Inv(Run(s, steps))
    decreases |steps|
  {
    if steps != [] {
      StepKeepsInv(s, steps[0]);
      RunKeepsInv(Apply(s, steps[0]), steps[1..]);
    }
  }

  // ---------- the order of the trash ----------

  /** An archiving that commits does so with a reading that is not behind the trash it finds below active folders. */
  predicate StepFits(s: Store, step: Step) {
    step.Commit? && step.t in s.txs && s.txs[step.t].phase.Ready? && s.txs[step.t].request.Archive? ==>
      Fits(s.tree, s.txs[step.t].snapshot.Keys, s.txs[step.t].phase.now)
  }

  ghost predicate ClocksFit(s: Store, steps: seq<Step>)
    decreases |steps|
  {
    steps != [] ==> StepFits(s, steps[0]) && ClocksFit(Apply(s, steps[0]), steps[1..])
  }

  /** In every state of the run timestamps only fall on the way down, and below the trash nothing is active. */
  ghost predicate OrderedThroughout(s: Store, steps: seq<Step>)
    decreases |steps|
  {
    Ordered(s.tree) && (steps != [] ==> OrderedThroughout(Apply(s, steps[0]), steps[1..]))
  }

  lemma StepKeepsOrder(s: Store, step: Step)
    requires Inv(s) && Ordered(s.tree)
    ensures Ordered(Apply(s, step).tree) <==> StepFits(s, step)
  {
    if step.Commit? && step.t in s.txs && s.txs[step.t].phase.Ready? {
      WrittenOk(s, step.t, s.txs[step.t]);
    }
  }

  /** Whatever runs at the same time, the trash stays in order exactly when the clock of every archiving that commits fits. */
  lemma {:induction false} TrashInOrderIffClocksFit(s: Store, steps: seq<Step>)
    requires Inv(s) && Ordered(s.tree)
    ensures OrderedThroughout(s, steps) <==> ClocksFit(s, steps)
    ensures ClocksFit(s, steps) ==> Ordered(Run(s, steps).tree)
    decreases |steps|
  {
    if steps != [] {
      StepKeepsOrder(s, steps[0]);
      StepKeepsInv(s, steps[0]);
      if StepFits(s, steps[0]) {
        TrashInOrderIffClocksFit(Apply(s, steps[0]), steps[1..]);
      }
    }
  }

  lemma {:induction false} RunKeepsTree(s: Store, steps: seq<Step>)
    requires Initial(s) && ClocksFit(s, steps)
    ensures Inv(Run(s, steps)) && TreeOk(Run(s, steps).tree)
  {
    RunKeepsInv(s, steps);
    TrashInOrderIffClocksFit(s, steps);
  }

  /** No reading is behind one before it. */
  predicate OneClock(steps: seq<Step>, clock: Time)
    decreases |steps|
  {
    steps != [] ==>
      && (steps[0].Proceed? ==> steps[0].now >= clock)
      && OneClock(steps[1..], if steps[0].Proceed? then steps[0].now else clock)
  }

  /** All timestamps lie behind the clock, and each archiving that is ready is as far as the trash below it. */
  ghost predicate Timed(s: Store, clock: Time) {
    && Inv(s) && ArchivedBy(s.tree, clock)
    && forall t :: t in s.txs && s.txs[t].phase.Ready? && s.txs[t].request.Archive? ==>
         s.txs[t].phase.now <= clock && Fits(s.tree, s.txs[t].snapshot.Keys, s.txs[t].phase.now)
  }

  lemma ArchivingStillFits(s: Store, t: TxId, tree: Tree, u: TxId, tx: Tx)
    requires TxOk(s, u, tx) && tx.phase.Ready? && tx.request.Archive? && Fits(s.tree, tx.snapshot.Keys, tx.phase.now)
    requires u != t && UnderLocks(s, t, tree) && Placed(s.tree)
    ensures Fits(tree, tx.snapshot.Keys, tx.phase.now)
  {
    SnapshotIsHeld(s, u, tx);
  }

  lemma ArchivingsStillFit(s: Store, t: TxId, tree: Tree, clock: Time)
    requires Timed(s, clock) && UnderLocks(s, t, tree)
    ensures forall u :: u in s.txs && u != t && s.txs[u].phase.Ready? && s.txs[u].request.Archive? ==>
      Fits(tree, s.txs[u].snapshot.Keys, s.txs[u].phase.now)
  {
    forall u | u in s.txs && u != t && s.txs[u].phase.Ready? && s.txs[u].request.Archive?
      ensures Fits(tree, s.txs[u].snapshot.Keys, s.txs[u].phase.now)
    {
      ArchivingStillFits(s, t, tree, u, s.txs[u]);
    }
  }

  lemma CommitStaysTimed(s: Store, t: TxId, clock: Time)
    requires Timed(s, clock) && t in s.txs && s.txs[t].phase.Ready?
    ensures Timed(Committed(s, t), clock)
  {
    CommitKeepsInv(s, t);
    WritesUnderLocks(s, t, s.txs[t]);
    WrittenArchivedBy(s.tree, s.txs[t], clock);
    ArchivingsStillFit(s, t, Written(s.tree, s.txs[t]), clock);
    StaysTimed(s, t, Committed(s, t), clock);
  }

  lemma StaysTimed(s: Store, t: TxId, after: Store, clock: Time)
    requires Timed(s, clock) && Inv(after) && ArchivedBy(after.tree, clock) && after.txs == s.txs - {t}
    requires forall u :: u in s.txs && u != t && s.txs[u].phase.Ready? && s.txs[u].request.Archive? ==>
      Fits(after.tree, s.txs[u].snapshot.Keys, s.txs[u].phase.now)
    ensures Timed(after, clock)
  {
  }

  lemma WrittenArchivedBy(tree: Tree, tx: Tx, clock: Time)
    requires ArchivedBy(tree, clock) && tx.phase.Ready? && (tx.request.Archive? ==> tx.phase.now <= clock)
    ensures ArchivedBy(Written(tree, tx), clock)
  {
    if tx.request.Copy? && CopyIdsFit(tree, tx.snapshot.Keys, tx.request.copyIds) {
      CopiesAreActive(tree, tx.request.node, tx.target, Drawn(tx.snapshot.Keys, tx.request.copyIds));
    }
  }

  lemma CopiesAreActive(tree: Tree, root: Id, target: Option<Id>, idMap: map<Id, Id>)
    requires idMap.Keys <= tree.Keys && Injective(idMap)
    ensures forall z :: z in WithCopy(tree, root, target, idMap) ==>
      WithCopy(tree, root, target, idMap)[z].archivedAt.None? || (z in tree && WithCopy(tree, root, target, idMap)[z] == tree[z])
  {
  }

  /** A step that writes nothing; a transaction that gets ready by it carries the reading of this step. */
  predicate OnlyReads(s: Store, after: Store, now: Time) {
    && after.tree == s.tree
    && forall t :: t in after.txs && after.txs[t].phase.Ready? ==> (t in s.txs && s.txs[t] == after.txs[t]) || after.txs[t].phase.now == now
  }

  lemma ReadingStaysTimed(s: Store, after: Store, clock: Time, now: Time)
    requires Timed(s, clock) && clock <= now && OnlyReads(s, after, now) && Inv(after)
    ensures Timed(after, now)
  {
  }

  lemma StepOnlyReads(s: Store, step: Step, clock: Time)
    requires !(step.Commit? && step.t in s.txs && s.txs[step.t].phase.Ready?)
    ensures OnlyReads(s, Apply(s, step), if step.Proceed? then step.now else clock)
  {
  }

  lemma StepStaysTimed(s: Store, step: Step, clock: Time)
    requires Timed(s, clock) && (step.Proceed? ==> step.now >= clock)
    ensures Timed(Apply(s, step), if step.Proceed? then step.now else clock)
  {
    StepKeepsInv(s, step);
    if step.Commit? && step.t in s.txs && s.txs[step.t].phase.Ready? {
      CommitStaysTimed(s, step.t, clock);
    } else {
      StepOnlyReads(s, step, clock);
      ReadingStaysTimed(s, Apply(s, step), clock, if step.Proceed? then step.now else clock);
    }
  }

  lemma {:induction false} TimedRun(s: Store, steps: seq<Step>, clock: Time)
    requires Timed(s, clock) && OneClock(steps, clock)
    ensures ClocksFit(s, steps)
    decreases |steps|
  {
    if steps != [] {
      StepStaysTimed(s, steps[0], clock);
      TimedRun(Apply(s, steps[0]), steps[1..], if steps[0].Proceed? then steps[0].now else clock);
    }
  }

  /** Servers that share one clock are enough. */
  lemma {:induction false} OneClockFits(s: Store, steps: seq<Step>, clock: Time)
    requires Initial(s) && ArchivedBy(s.tree, clock) && OneClock(steps, clock)
    ensures ClocksFit(s, steps)
  {
    TimedRun(s, steps, clock);
  }

  // ---------- what every interleaving guarantees ----------

  /** What a request does to the tree when nobody else is there; `target` is where it hangs a node. */
  ghost predicate DoneAlone(before: Tree, r: Request, target: Option<Id>, now: Time, after: Tree) {
    match r
    case Move(node, to) =>
      && target == to && Active(before, node)
      && LegalTarget(before, to, Some(node), before[node].workspace, before[node].space)
      && IsMove(before, after, node, to)
    case Create(node, to, workspace, space, objectKey) =>
      && target == to && LegalTarget(before, to, None, workspace, space)
      && if node in before then after == before else IsCreation(before, after, node, to, workspace, space, objectKey)
    case Copy(node, to, copyIds) =>
      && target == to && Active(before, node)
      && LegalTarget(before, to, Some(node), before[node].workspace, before[node].space)
      && var rows := ActiveBelow(before, node);
         if CopyIdsFit(before, rows, copyIds) then IsCopying(before, after, node, to, Drawn(rows, copyIds)) else after == before
    case Archive(node) => node in before && IsArchiving(before, after, node, now)
    case Restore(node, choice) =>
      && node in before && before[node].archivedAt.Some? && target == (if choice.Some? then choice.value else before[node].originalParent)
      && LegalTarget(before, target, Some(node), before[node].workspace, before[node].space)
      && IsRestoration(before, after, node, target)
    case Delete(node, cutoff) =>
      && node in before
      && IsDeletion(before, after, node)
      && (cutoff.Some? ==> forall x :: x in before && x !in after ==>
            before[x].archivedAt.Some? && before[x].archivedAt.value < cutoff.value)
  }

  lemma TargetIsLegal(s: Store, t: TxId, tx: Tx)
    requires TxOk(s, t, tx) && tx.phase.Ready? && !tx.request.Archive? && !tx.request.Delete? && tx.target.Some?
    ensures tx.target.value in s.tree && MayHouse(s.tree, tx.request, tx.target.value)
    ensures ClearAbove(s.tree, tx.target.value, Forbidden(tx.request))
  {
    FinishedClimbIsClear(s.tree, tx.path, Forbidden(tx.request));
  }

  lemma MoveIsDoneAlone(s: Store, t: TxId, tx: Tx)
    requires TxOk(s, t, tx) && tx.phase.Ready? && Placed(s.tree) && tx.request.Move?
    ensures DoneAlone(s.tree, tx.request, tx.target, tx.phase.now, Written(s.tree, tx))
  {
    if tx.target.Some? {
      TargetIsLegal(s, t, tx);
    }
    MovedIsMove(s.tree, tx.request.node, tx.target);
  }

  lemma CreateIsDoneAlone(s: Store, t: TxId, tx: Tx)
    requires TxOk(s, t, tx) && tx.phase.Ready? && Placed(s.tree) && tx.request.Create?
    ensures DoneAlone(s.tree, tx.request, tx.target, tx.phase.now, Written(s.tree, tx))
  {
    if tx.target.Some? {
      TargetIsLegal(s, t, tx);
    }
    var r := tx.request;
    if r.node !in s.tree {
      NewIsCreation(s.tree, r.node, tx.target, r.workspace, r.space, r.objectKey);
    }
  }

  lemma CopyIsDoneAlone(s: Store, t: TxId, tx: Tx)
    requires TxOk(s, t, tx) && tx.phase.Ready? && Placed(s.tree) && tx.request.Copy?
    ensures DoneAlone(s.tree, tx.request, tx.target, tx.phase.now, Written(s.tree, tx))
  {
    CollectedIsTree(s, t, tx);
    if tx.target.Some? {
      TargetIsLegal(s, t, tx);
    }
    if CopyIdsFit(s.tree, tx.snapshot.Keys, tx.request.copyIds) {
      CollectedIsCopied(s.tree, tx);
      CopyIsCopying(s.tree, Written(s.tree, tx), tx.request.node, tx.target, Drawn(tx.snapshot.Keys, tx.request.copyIds));
    }
  }

  lemma RestoreIsDoneAlone(s: Store, t: TxId, tx: Tx)
    requires TxOk(s, t, tx) && tx.phase.Ready? && Placed(s.tree) && tx.request.Restore?
    ensures DoneAlone(s.tree, tx.request, tx.target, tx.phase.now, Written(s.tree, tx))
  {
    if tx.target.Some? {
      TargetIsLegal(s, t, tx);
    }
    SnapshotIsSubtree(s.tree, tx.snapshot, tx.request.node);
    RestoredIsRestoration(s.tree, tx.request.node, tx.target);
  }

  lemma TreeIsDoneAlone(s: Store, t: TxId, tx: Tx)
    requires TxOk(s, t, tx) && tx.phase.Ready? && Placed(s.tree) && (tx.request.Archive? || tx.request.Delete?)
    ensures DoneAlone(s.tree, tx.request, tx.target, tx.phase.now, Written(s.tree, tx))
  {
    SnapshotIsSubtree(s.tree, tx.snapshot, tx.request.node);
    ArchivedIsArchiving(s.tree, tx.request.node, tx.phase.now);
    RemovedIsDeletion(s.tree, tx.request.node);
  }

  lemma WrittenIsDoneAlone(s: Store, t: TxId, tx: Tx)
    requires TxOk(s, t, tx) && tx.phase.Ready? && Placed(s.tree)
    ensures DoneAlone(s.tree, tx.request, tx.target, tx.phase.now, Written(s.tree, tx))
  {
    match tx.request
    case Create(_, _, _, _, _) => CreateIsDoneAlone(s, t, tx);
    case Archive(_) => TreeIsDoneAlone(s, t, tx);
    case Delete(_, _) => TreeIsDoneAlone(s, t, tx);
    case Move(_, _) => MoveIsDoneAlone(s, t, tx);
    case Copy(_, _, _) => CopyIsDoneAlone(s, t, tx);
    case Restore(_, _) => RestoreIsDoneAlone(s, t, tx);
  }

  /**
   Every transaction that commits, in whatever interleaving, does to the state in which it commits exactly what
   its request would have done alone.
   */
  lemma {:induction false} CommitsAreSequential(s: Store, steps: seq<Step>, t: TxId)
    requires Initial(s) && t in Run(s, steps).txs && Run(s, steps).txs[t].phase.Ready?
    ensures var now := Run(s, steps);
      DoneAlone(now.tree, now.txs[t].request, now.txs[t].target, now.txs[t].phase.now, Apply(now, Commit(t)).tree)
  {
    RunKeepsInv(s, steps);
    CommitIsDoneAlone(Run(s, steps), t);
  }

  lemma CommitIsDoneAlone(s: Store, t: TxId)
    requires Inv(s) && t in s.txs && s.txs[t].phase.Ready?
    ensures DoneAlone(s.tree, s.txs[t].request, s.txs[t].target, s.txs[t].phase.now, Apply(s, Commit(t)).tree)
  {
    CommitWrites(s, t);
    WrittenIsDoneAlone(s, t, s.txs[t]);
  }

  lemma CommitWrites(s: Store, t: TxId)
    requires t in s.txs && s.txs[t].phase.Ready?
    ensures Apply(s, Commit(t)).tree == Written(s.tree, s.txs[t])
  {
  }

  datatype Done = Done(request: Request, target: Option<Id>, now: Time, after: Tree)

  /** The requests of `history`, one after another and each alone, lead from one tree to the other. */
  ghost predicate Leads(before: Tree, history: seq<Done>, after: Tree)
    decreases |history|
  {
    if history == [] then before == after
    else
      && DoneAlone(before, history[0].request, history[0].target, history[0].now, history[0].after)
      && Leads(history[0].after, history[1..], after)
  }

  /** So the tree has no other histories than sequential ones: those of the commits, in their order. */
  lemma {:induction false} RunIsSequential(s: Store, steps: seq<Step>) returns (history: seq<Done>)
    requires Inv(s)
    ensures Leads(s.tree, history, Run(s, steps).tree) && |history| <= |steps|
    decreases |steps|
  {
    history := [];
    if steps != [] {
      var step, next := steps[0], Apply(s, steps[0]);
      StepKeepsInv(s, step);
      history := RunIsSequential(next, steps[1..]);
      if step.Commit? && step.t in s.txs && s.txs[step.t].phase.Ready? {
        var tx := s.txs[step.t];
        CommitIsDoneAlone(s, step.t);
        var done := Done(tx.request, tx.target, tx.phase.now, next.tree);
        assert ([done] + history)[1..] == history;
        history := [done] + history;
      } else {
        StepOnlyReads(s, step, 0);
      }
    }
  }

  /** No interleaving makes a node its own ancestor, or leaves a parent pointer without its row. */
  lemma {:induction false} ForestStaysForest(s: Store, steps: seq<Step>)
    requires Initial(s)
    ensures forall x :: !OnCycle(Parents(Run(s, steps).tree), x)
    ensures NoDangling(Parents(Run(s, steps).tree))
  {
    RunKeepsInv(s, steps);
    AcyclicIffNoCycle(Parents(Run(s, steps).tree));
  }

  /** With clocks that fit, no interleaving leaves an active node anywhere below an archived one, or in a place it does not belong. */
  lemma {:induction false} NothingActiveBelowArchived(s: Store, steps: seq<Step>, x: Id, r: Id)
    requires Initial(s) && ClocksFit(s, steps)
    requires Active(Run(s, steps).tree, x) && Under(Parents(Run(s, steps).tree), x, r)
    ensures Active(Run(s, steps).tree, r)
    ensures Run(s, steps).tree[r].archivedAt.None?
    ensures r != x ==>
      && Run(s, steps).tree[r].isFolder
      && Run(s, steps).tree[r].workspace == Run(s, steps).tree[x].workspace
      && Run(s, steps).tree[r].space == Run(s, steps).tree[x].space
  {
    RunKeepsTree(s, steps);
    var t := Run(s, steps).tree;
    AncestorsOfActiveAreActive(t, x, r);
    if r != x {
      var k: nat :| Reaches(Parents(t), x, r, k);
      HousedByAncestor(t, x, r, k);
    }
  }

  lemma {:induction false} HousedByAncestor(t: Tree, x: Id, r: Id, k: nat)
    requires TreeOk(t) && x in t && Reaches(Parents(t), x, r, k) && k > 0
    ensures Houses(t, r, t[x].workspace, t[x].space)
    decreases k
  {
    var p := t[x].parent.value;
    assert x in Parents(t);
    if k > 1 {
      HousedByAncestor(t, p, r, k - 1);
    }
  }

  /** With clocks that fit, timestamps fall on the way down, so old trash has only older trash below it. */
  lemma {:induction false} TrashOrderHolds(s: Store, steps: seq<Step>, root: Id, x: Id, cutoff: Time)
    requires Initial(s) && ClocksFit(s, steps)
    requires var t := Run(s, steps).tree;
      root in t && x in t && t[root].archivedAt.Some? && t[root].archivedAt.value < cutoff && Under(Parents(t), x, root)
    ensures var t := Run(s, steps).tree; t[x].archivedAt.Some? && t[x].archivedAt.value < cutoff
  {
    RunKeepsTree(s, steps);
    TrashBelowIsOlder(Run(s, steps).tree, root, x, cutoff);
  }

  /** Trash cleaning deletes only nodes archived before the cutoff, and with each of them all of its children. */
  lemma {:induction false} CleanupDeletesOnlyOldTrash(s: Store, steps: seq<Step>, t: TxId, x: Id)
    requires Initial(s)
    requires var now := Run(s, steps);
      t in now.txs && now.txs[t].request.Delete? && now.txs[t].request.cutoff.Some?
      && x in now.tree && x !in Apply(now, Commit(t)).tree
    ensures var now := Run(s, steps);
      && now.tree[x].archivedAt.Some?
      && now.tree[x].archivedAt.value < now.txs[t].request.cutoff.value
      && forall y :: y in now.tree && now.tree[y].parent == Some(x) ==> y !in Apply(now, Commit(t)).tree
  {
    RunKeepsInv(s, steps);
    DeletionStep(Run(s, steps), t, x);
  }

  lemma DeletionStep(s: Store, t: TxId, x: Id)
    requires Inv(s) && t in s.txs && s.txs[t].request.Delete? && s.txs[t].request.cutoff.Some?
    requires x in s.tree && x !in Apply(s, Commit(t)).tree
    ensures s.tree[x].archivedAt.Some? && s.tree[x].archivedAt.value < s.txs[t].request.cutoff.value
    ensures forall y :: y in s.tree && s.tree[y].parent == Some(x) ==> y !in Apply(s, Commit(t)).tree
  {
    assert TxOk(s, t, s.txs[t]);
  }

  /** A committed restoration revives rows together with their parents, from the restored root down. */
  lemma {:induction false} RestorationIsClosed(s: Store, steps: seq<Step>, t: TxId, x: Id)
    requires Initial(s) && ClocksFit(s, steps)
    requires var now := Run(s, steps);
      t in now.txs && now.txs[t].request.Restore? && now.txs[t].phase.Ready?
      && x in now.tree && !Active(now.tree, x) && Active(Apply(now, Commit(t)).tree, x)
      && x != now.txs[t].request.node
    ensures var now := Run(s, steps);
      && now.tree[x].parent.Some?
      && !Active(now.tree, now.tree[x].parent.value)
      && Active(Apply(now, Commit(t)).tree, now.tree[x].parent.value)
      && now.tree[x].archivedAt == now.tree[now.txs[t].request.node].archivedAt
  {
    var now := Run(s, steps);
    RunKeepsTree(s, steps);
    RestorationCommits(now, t, x);
  }

  lemma RestorationCommits(s: Store, t: TxId, x: Id)
    requires Inv(s) && Ordered(s.tree) && t in s.txs && s.txs[t].request.Restore? && s.txs[t].phase.Ready?
    requires x in s.tree && !Active(s.tree, x) && Active(Apply(s, Commit(t)).tree, x) && x != s.txs[t].request.node
    ensures s.tree[x].parent.Some? && !Active(s.tree, s.tree[x].parent.value)
    ensures Active(Apply(s, Commit(t)).tree, s.tree[x].parent.value)
    ensures s.tree[x].archivedAt == s.tree[s.txs[t].request.node].archivedAt
  {
    CommitWrites(s, t);
    RestorationStep(s, t, s.txs[t], x);
  }

  lemma RestorationStep(now: Store, t: TxId, tx: Tx, x: Id)
    requires TxOk(now, t, tx) && Placed(now.tree) && Ordered(now.tree) && tx.request.Restore? && tx.phase.Ready?
    requires x in now.tree && !Active(now.tree, x) && Active(Written(now.tree, tx), x) && x != tx.request.node
    ensures now.tree[x].parent.Some? && !Active(now.tree, now.tree[x].parent.value)
    ensures Active(Written(now.tree, tx), now.tree[x].parent.value)
    ensures now.tree[x].archivedAt == now.tree[tx.request.node].archivedAt
  {
    RestoreBatchClosed(now.tree, tx.snapshot, tx.request.node);
  }
}
