/** A transaction that meets no other one comes through: no request is refused that may be done. */
module TreeRuns {
  import opened Options
  import opened TransferStates
  import opened Forest
  import opened FileTrees
  import opened HierarchyWrites
  import opened TreeCopies
  import opened TreeEffects
  import opened TreeTransactions

  lemma {:induction false} RunJoins(s: Store, a: seq<Step>, b: seq<Step>)
    ensures Run(s, a + b) == Run(Run(s, a), b)
    decreases |a|
  {
    if a == [] {
      assert a + b == b;
    } else {
      assert (a + b)[0] == a[0] && (a + b)[1..] == a[1..] + b;
      RunJoins(Apply(s, a[0]), a[1..], b);
    }
  }

  lemma OneStep(s: Store, step: Step)
    ensures Run(s, [step]) == Apply(s, step)
  {
    assert [step][1..] == [];
    assert Run(Apply(s, step), []) == Apply(s, step);
  }

  /** All locks are this transaction's. */
  predicate Undisturbed(s: Store, t: TxId) {
    forall x :: x in s.locks ==> s.locks[x] == t
  }

  /** The tree is as it was, and so are the other transactions; this one has come to `tx`. */
  ghost predicate ComesTo(s: Store, end: Store, t: TxId, tx: Tx) {
    && end.tree == s.tree && end.txs == s.txs[t := tx] && Undisturbed(end, t) && Inv(end)
  }

  lemma StepsJoin(s: Store, a: seq<Step>, b: seq<Step>, t: TxId, tx: Tx, next: Tx)
    requires ComesTo(s, Run(s, a), t, tx) && ComesTo(Run(s, a), Run(Run(s, a), b), t, next)
    ensures ComesTo(s, Run(s, a + b), t, next)
  {
    RunJoins(s, a, b);
    ComesFurther(s, Run(s, a), Run(Run(s, a), b), t, tx, next);
  }

  lemma ComesFurther(s: Store, mid: Store, end: Store, t: TxId, tx: Tx, next: Tx)
    requires ComesTo(s, mid, t, tx) && ComesTo(mid, end, t, next)
    ensures ComesTo(s, end, t, next)
  {
    assert mid.txs[t := next] == s.txs[t := next];
  }

  lemma ProceedGoes(s: Store, t: TxId, now: Time, next: Tx)
    requires t in s.txs && Next(s.tree, s.txs[t], now) == Go(next)
    ensures Run(s, [Proceed(t, now)]) == With(s, t, next)
  {
    OneStep(s, Proceed(t, now));
  }

  lemma Proceeds(s: Store, t: TxId, now: Time, next: Tx)
    requires Inv(s) && t in s.txs && Undisturbed(s, t) && Next(s.tree, s.txs[t], now) == Go(next)
    ensures ComesTo(s, Run(s, [Proceed(t, now)]), t, next)
  {
    ProceedGoes(s, t, now, next);
    NextOk(s, t, s.txs[t], now);
    MovesOn(s, t, next);
  }

  lemma ProceedsFurther(s: Store, steps: seq<Step>, t: TxId, tx: Tx, now: Time, next: Tx)
    requires ComesTo(s, Run(s, steps), t, tx) && Next(s.tree, tx, now) == Go(next)
    ensures ComesTo(s, Run(s, steps + [Proceed(t, now)]), t, next)
  {
    Proceeds(Run(s, steps), t, now, next);
    StepsJoin(s, steps, [Proceed(t, now)], t, tx, next);
  }

  lemma Locks(s: Store, t: TxId, x: Id)
    requires Inv(s) && t in s.txs && Undisturbed(s, t) && x in s.tree
    requires AfterLock(s.txs[t], x).Some? && !MustStop(s.txs[t], x)
    ensures ComesTo(s, Run(s, [Lock(t, x)]), t, s.txs[t].(phase := AfterLock(s.txs[t], x).value))
  {
    OneStep(s, Lock(t, x));
    StepKeepsInv(s, Lock(t, x));
    LockGoes(s, t, x);
  }

  lemma LockGoes(s: Store, t: TxId, x: Id)
    requires t in s.txs && Undisturbed(s, t) && x in s.tree && AfterLock(s.txs[t], x).Some? && !MustStop(s.txs[t], x)
    ensures var end := Apply(s, Lock(t, x));
      end.tree == s.tree && end.txs == s.txs[t := s.txs[t].(phase := AfterLock(s.txs[t], x).value)] && Undisturbed(end, t)
  {
  }

  // ---------- locking ----------

  predicate LocksRows(phase: Phase) {
    phase.LockFirst? || phase.LockTree? || phase.LockChildren?
  }

  function AllLocked(phase: Phase): Phase
    requires LocksRows(phase)
  {
    match phase
    case LockFirst(_) => LockFirst({})
    case LockTree(_) => LockTree({})
    case LockChildren(_, children, parents) => LockChildren({}, children, parents)
  }

  lemma LocksOne(s: Store, t: TxId, x: Id) returns (next: Tx)
    requires Inv(s) && t in s.txs && Undisturbed(s, t) && LocksRows(s.txs[t].phase) && x in s.txs[t].phase.todo && x in s.tree
    ensures ComesTo(s, Run(s, [Lock(t, x)]), t, next)
    ensures LocksRows(next.phase) && next.phase.todo == s.txs[t].phase.todo - {x} && AllLocked(next.phase) == AllLocked(s.txs[t].phase)
    ensures next == s.txs[t].(phase := next.phase)
  {
    Locks(s, t, x);
    next := s.txs[t].(phase := AfterLock(s.txs[t], x).value);
  }

  lemma {:induction false} LocksAll(s: Store, t: TxId, todo: set<Id>) returns (steps: seq<Step>)
    requires Inv(s) && t in s.txs && Undisturbed(s, t) && LocksRows(s.txs[t].phase) && todo == s.txs[t].phase.todo <= s.tree.Keys
    ensures ComesTo(s, Run(s, steps), t, s.txs[t].(phase := AllLocked(s.txs[t].phase)))
    decreases todo
  {
    steps := [];
    if todo != {} {
      var x :| x in todo;
      var next := LocksOne(s, t, x);
      var mid := Run(s, [Lock(t, x)]);
      var rest := LocksAll(mid, t, todo - {x});
      steps := [Lock(t, x)] + rest;
      StepsJoin(s, [Lock(t, x)], rest, t, next, s.txs[t].(phase := AllLocked(s.txs[t].phase)));
    }
  }

  // ---------- climbing ----------

  /** The way up from the cursor is clear. */
  ghost predicate WayIsClear(tree: Tree, tx: Tx) {
    tx.cursor.Some? ==>
      && ClearAbove(tree, tx.cursor.value, Forbidden(tx.request))
      && (tx.path == [] ==> tx.cursor.value in tree && MayHouse(tree, tx.request, tx.cursor.value))
  }

  /** One ancestor is locked and read, and the way goes on from its parent. */
  lemma ClimbsOne(s: Store, t: TxId, tx: Tx, now: Time) returns (steps: seq<Step>)
    requires Inv(s) && t in s.txs && tx == s.txs[t] && Undisturbed(s, t)
    requires tx.phase.Climb? && tx.cursor.Some? && WayIsClear(s.tree, tx)
    ensures tx.cursor.value in s.tree && ComesTo(s, Run(s, steps), t, OneUp(s.tree, tx))
    ensures WayIsClear(s.tree, OneUp(s.tree, tx))
  {
    var x := tx.cursor.value;
    CursorIsClear(s, t, tx);
    Locks(s, t, x);
    var mid := Run(s, [Lock(t, x)]);
    AncestorIsFit(s.tree, tx, now);
    Proceeds(mid, t, now, OneUp(s.tree, tx));
    StepsJoin(s, [Lock(t, x)], [Proceed(t, now)], t, tx.(phase := ReadAncestor), OneUp(s.tree, tx));
    steps := [Lock(t, x)] + [Proceed(t, now)];
  }

  lemma AncestorIsFit(tree: Tree, tx: Tx, now: Time)
    requires tx.cursor.Some? && WayIsClear(tree, tx) && Active(tree, tx.cursor.value)
    ensures Next(tree, tx.(phase := ReadAncestor), now) == Go(OneUp(tree, tx))
    ensures WayIsClear(tree, OneUp(tree, tx))
  {
    if tree[tx.cursor.value].parent.Some? {
      ParentIsClear(tree, tx.cursor.value, Forbidden(tx.request));
    }
  }

  lemma CursorIsClear(s: Store, t: TxId, tx: Tx)
    requires TxOk(s, t, tx) && Placed(s.tree) && tx.phase.Climb? && tx.cursor.Some? && WayIsClear(s.tree, tx)
    ensures Active(s.tree, tx.cursor.value) && !MustStop(tx, tx.cursor.value)
  {
    var x := tx.cursor.value;
    assert Reaches(Parents(s.tree), x, x, 0);
    assert Under(Parents(s.tree), x, x);
    if x in tx.path {
      AcyclicIffNoCycle(Parents(s.tree));
      RevisitMeansCycle(Parents(s.tree), tx.path, x);
      assert false;
    }
  }

  lemma ParentIsClear(tree: Tree, x: Id, forbidden: Option<Id>)
    requires x in tree && ClearAbove(tree, x, forbidden) && tree[x].parent.Some?
    ensures ClearAbove(tree, tree[x].parent.value, forbidden)
  {
    var p := tree[x].parent.value;
    forall r: Id | Under(Parents(tree), p, r) ensures Active(tree, r) && forbidden != Some(r) {
      var k: nat :| Reaches(Parents(tree), p, r, k);
      assert Reaches(Parents(tree), x, r, k + 1);
      assert Under(Parents(tree), x, r);
    }
    var k: nat :| Rooted(Parents(tree), x, k);
    assert Rooted(Parents(tree), p, k - 1);
  }

  /** So a clear way is climbed to the top. */
  lemma {:induction false} Climbs(s: Store, t: TxId, tx: Tx, now: Time, k: nat) returns (steps: seq<Step>, top: Tx)
    requires Inv(s) && t in s.txs && tx == s.txs[t] && Undisturbed(s, t) && tx.phase.Climb? && WayIsClear(s.tree, tx)
    requires tx.cursor.Some? ==> Rooted(Parents(s.tree), tx.cursor.value, k)
    ensures ComesTo(s, Run(s, steps), t, top)
    ensures top.phase == Ready(now) && top.request == tx.request && top.target == tx.target && top.snapshot == tx.snapshot
    decreases k
  {
    if tx.cursor.None? {
      top := tx.(phase := Ready(now));
      Proceeds(s, t, now, top);
      steps := [Proceed(t, now)];
    } else {
      var one := ClimbsOne(s, t, tx, now);
      var rest;
      rest, top := Climbs(Run(s, one), t, OneUp(s.tree, tx), now, k - 1);
      StepsJoin(s, one, rest, t, OneUp(s.tree, tx), top);
      steps := one + rest;
    }
  }

  // ---------- the requests ----------

  /** Everything that a request asks of the tree. */
  ghost predicate MayBeDone(tree: Tree, r: Request) {
    match r
    case Move(node, to) => Active(tree, node) && LegalTarget(tree, to, Some(node), tree[node].workspace, tree[node].space)
    case Create(_, to, workspace, space, _) => LegalTarget(tree, to, None, workspace, space)
    case Copy(node, to, _) => Active(tree, node) && LegalTarget(tree, to, Some(node), tree[node].workspace, tree[node].space)
    case Archive(node) => node in tree
    case Restore(node, choice) =>
      && node in tree && tree[node].archivedAt.Some?
      && LegalTarget(tree, RestoreTarget(tree, node, choice), Some(node), tree[node].workspace, tree[node].space)
    case Delete(node, cutoff) =>
      && node in tree
      && forall x :: x in SubtreeRows(tree, node) && cutoff.Some? ==> tree[x].archivedAt.Some? && tree[x].archivedAt.value < cutoff.value
  }

  lemma LegalIsClear(tree: Tree, tx: Tx, workspace: nat, space: nat)
    requires LegalTarget(tree, tx.cursor, Forbidden(tx.request), workspace, space)
    requires forall p :: p in tree && Houses(tree, p, workspace, space) ==> MayHouse(tree, tx.request, p)
    ensures WayIsClear(tree, tx)
    ensures tx.cursor.Some? ==> RootedSomehow(Parents(tree), tx.cursor.value)
  {
  }

  /** From the foot of the way on. */
  lemma ClimbsFromTarget(s: Store, t: TxId, tx: Tx, now: Time, workspace: nat, space: nat) returns (steps: seq<Step>, top: Tx)
    requires Inv(s) && t in s.txs && tx == s.txs[t] && Undisturbed(s, t) && tx.phase.Climb?
    requires LegalTarget(s.tree, tx.cursor, Forbidden(tx.request), workspace, space)
    requires forall p :: p in s.tree && Houses(s.tree, p, workspace, space) ==> MayHouse(s.tree, tx.request, p)
    ensures ComesTo(s, Run(s, steps), t, top)
    ensures top.phase == Ready(now) && top.request == tx.request && top.target == tx.target && top.snapshot == tx.snapshot
  {
    LegalIsClear(s.tree, tx, workspace, space);
    var k: nat := 0;
    if tx.cursor.Some? {
      k :| Rooted(Parents(s.tree), tx.cursor.value, k);
    }
    steps, top := Climbs(s, t, tx, now, k);
  }

  lemma Begins(s: Store, t: TxId, r: Request)
    requires Inv(s) && t !in s.txs && Undisturbed(s, t) && Started(r).Some?
    ensures ComesTo(s, Run(s, [Begin(t, r)]), t, Started(r).value)
  {
    OneStep(s, Begin(t, r));
    StartedOk(s, t, r);
    BeginKeepsInv(s, t, Started(r).value);
  }

  lemma DeletionBegins(s: Store, t: TxId, node: Id, rows: ParentMap, cutoff: Option<Time>)
    requires Inv(s) && t !in s.txs && Undisturbed(s, t) && HangsFrom(rows, node)
    ensures ComesTo(s, Run(s, [BeginDelete(t, node, rows, cutoff)]), t, Deletion(node, rows, cutoff))
  {
    OneStep(s, BeginDelete(t, node, rows, cutoff));
    DeletionOk(s, t, node, rows, cutoff);
    BeginKeepsInv(s, t, Deletion(node, rows, cutoff));
  }

  /** The rows that the request names are locked, and the first read goes well. */
  lemma ReadsFirst(s: Store, t: TxId, tx: Tx, now: Time, next: Tx) returns (steps: seq<Step>)
    requires Inv(s) && t in s.txs && tx == s.txs[t] && Undisturbed(s, t) && tx.phase.LockFirst? && tx.phase.todo <= s.tree.Keys
    requires FirstRead(s.tree, tx.(phase := LockFirst({}))) == Go(next)
    ensures ComesTo(s, Run(s, steps), t, next)
  {
    var locks := LocksAll(s, t, tx.phase.todo);
    ProceedsFurther(s, locks, t, tx.(phase := LockFirst({})), now, next);
    steps := locks + [Proceed(t, now)];
  }

  /** A snapshot that is the subtree of the moment is locked and found unchanged and whole. */
  lemma ChecksTree(s: Store, t: TxId, tx: Tx, now: Time, next: Tx) returns (steps: seq<Step>)
    requires Inv(s) && t in s.txs && tx == s.txs[t] && Undisturbed(s, t) && tx.phase.LockTree? && tx.phase.todo <= s.tree.Keys
    requires RowsUnchanged(s.tree, tx.snapshot)
    requires tx.request.Delete? && tx.request.cutoff.Some? ==> AllBefore(s.tree, tx.snapshot.Keys, tx.request.cutoff.value)
    requires CountChildren(s.tree, tx.(phase := CheckChildren), now) == Go(next)
    ensures ComesTo(s, Run(s, steps), t, next)
  {
    var locks := LocksAll(s, t, tx.phase.todo);
    var go := [Proceed(t, now)];
    TreePasses(s.tree, tx, now);
    ProceedsFurther(s, locks, t, tx.(phase := LockTree({})), now, tx.(phase := CheckRows));
    ProceedsFurther(s, locks + go, t, tx.(phase := CheckRows), now, tx.(phase := CheckChildren));
    ProceedsFurther(s, locks + go + go, t, tx.(phase := CheckChildren), now, next);
    steps := locks + go + go + go;
  }

  lemma TreePasses(tree: Tree, tx: Tx, now: Time)
    requires RowsUnchanged(tree, tx.snapshot)
    requires tx.request.Delete? && tx.request.cutoff.Some? ==> AllBefore(tree, tx.snapshot.Keys, tx.request.cutoff.value)
    ensures Next(tree, tx.(phase := LockTree({})), now) == Go(tx.(phase := CheckRows))
    ensures Next(tree, tx.(phase := CheckRows), now) == Go(tx.(phase := CheckChildren))
    ensures Next(tree, tx.(phase := CheckChildren), now) == CountChildren(tree, tx.(phase := CheckChildren), now)
  {
  }

  /** What the snapshot of a locked root is good for. */
  lemma SnapshotIsWhole(tree: Tree, node: Id)
    requires Placed(tree) && node in tree
    ensures var rows := SubtreeRows(tree, node);
      HangsFrom(rows, node) && ChildClosed(tree, rows.Keys) && RowsUnchanged(tree, rows) && rows.Keys <= tree.Keys
  {
    SubtreeHangs(tree, node);
  }

  // ---------- collecting a tree, level by level ----------

  /** No child of the last level has been collected yet. */
  predicate LevelIsLast(tx: Tx, parents: set<Id>) {
    && parents <= tx.snapshot.Keys
    && forall y :: y in tx.snapshot && y != tx.request.node && tx.snapshot[y].Some? ==> tx.snapshot[y].value !in parents
  }

  lemma LevelIsNew(s: Store, t: TxId, tx: Tx, parents: set<Id>)
    requires TxOk(s, t, tx) && Placed(s.tree) && tx.request.Copy? && tx.phase == FindChildren(parents) && LevelIsLast(tx, parents)
    ensures ActiveChildren(s.tree, parents) !! tx.snapshot.Keys
  {
    forall y | y in ActiveChildren(s.tree, parents) ensures y !in tx.snapshot {
      if y in tx.snapshot {
        assert y == tx.request.node;
        var p := s.tree[y].parent.value;
        assert p in Parents(s.tree);
        var k: nat :| Rooted(Parents(s.tree), p, k);
        HangingReaches(s.tree, tx.snapshot, y, p, k);
        var j: nat :| Reaches(Parents(s.tree), p, y, j);
        assert Reaches(Parents(s.tree), y, y, j + 1);
        AcyclicIffNoCycle(Parents(s.tree));
        assert OnCycle(Parents(s.tree), y);
        assert false;
      }
    }
  }

  /** The transaction with the next level collected. */
  function WithLevel(tree: Tree, tx: Tx, children: set<Id>): Tx
    requires children <= tree.Keys
  {
    tx.(phase := FindChildren(children), snapshot := tx.snapshot + map x | x in children :: tree[x].parent)
  }

  lemma LevelGoes(tree: Tree, tx: Tx, parents: set<Id>, now: Time)
    requires tx.request.Copy? && tx.phase == FindChildren(parents)
    requires var children := ActiveChildren(tree, parents); children != {} && children !! tx.snapshot.Keys
    ensures var children := ActiveChildren(tree, parents);
      && Next(tree, tx, now) == Go(tx.(phase := LockChildren(children, children, parents)))
      && Next(tree, tx.(phase := LockChildren({}, children, parents)), now) == Go(tx.(phase := CheckLevel(children, parents)))
      && Next(tree, tx.(phase := CheckLevel(children, parents)), now) == Go(WithLevel(tree, tx, children))
  {
  }

  /** The next level is found, locked, read again and collected. */
  lemma CollectsOne(s: Store, t: TxId, tx: Tx, parents: set<Id>, now: Time) returns (steps: seq<Step>)
    requires Inv(s) && t in s.txs && tx == s.txs[t] && Undisturbed(s, t) && tx.request.Copy?
    requires tx.phase == FindChildren(parents) && LevelIsLast(tx, parents) && ActiveChildren(s.tree, parents) != {}
    ensures ComesTo(s, Run(s, steps), t, WithLevel(s.tree, tx, ActiveChildren(s.tree, parents)))
  {
    var children := ActiveChildren(s.tree, parents);
    LevelIsNew(s, t, tx, parents);
    LevelGoes(s.tree, tx, parents, now);
    var one := [Proceed(t, now)];
    var found, locked := tx.(phase := LockChildren(children, children, parents)), tx.(phase := LockChildren({}, children, parents));
    Proceeds(s, t, now, found);
    var locks := LocksAll(Run(s, one), t, children);
    StepsJoin(s, one, locks, t, found, locked);
    ProceedsFurther(s, one + locks, t, locked, now, tx.(phase := CheckLevel(children, parents)));
    ProceedsFurther(s, one + locks + one, t, tx.(phase := CheckLevel(children, parents)), now, WithLevel(s.tree, tx, children));
    steps := one + locks + one + one;
  }

  lemma NextLevelIsLast(s: Store, t: TxId, tx: Tx, parents: set<Id>)
    requires TxOk(s, t, tx) && tx.request.Copy? && tx.phase == FindChildren(parents) && LevelIsLast(tx, parents)
    requires ActiveChildren(s.tree, parents) !! tx.snapshot.Keys
    ensures LevelIsLast(WithLevel(s.tree, tx, ActiveChildren(s.tree, parents)), ActiveChildren(s.tree, parents))
  {
  }

  lemma {:induction false} Collects(s: Store, t: TxId, tx: Tx, parents: set<Id>, now: Time) returns (steps: seq<Step>, next: Tx)
    requires Inv(s) && t in s.txs && tx == s.txs[t] && Undisturbed(s, t) && tx.request.Copy?
    requires tx.phase == FindChildren(parents) && LevelIsLast(tx, parents)
    ensures ComesTo(s, Run(s, steps), t, next)
    ensures next.request == tx.request && next.phase == Climb && next.target == next.cursor == tx.request.to && next.path == tx.path
    decreases s.tree.Keys - tx.snapshot.Keys
  {
    var children := ActiveChildren(s.tree, parents);
    if children == {} {
      next := tx.(phase := Climb, target := tx.request.to, cursor := tx.request.to);
      Proceeds(s, t, now, next);
      steps := [Proceed(t, now)];
    } else {
      var one := CollectsOne(s, t, tx, parents, now);
      var mid := WithLevel(s.tree, tx, children);
      LevelIsNew(s, t, tx, parents);
      NextLevelIsLast(s, t, tx, parents);
      SmallerRest(s.tree.Keys, tx.snapshot.Keys, mid.snapshot.Keys, children);
      var rest;
      rest, next := Collects(Run(s, one), t, mid, children, now);
      StepsJoin(s, one, rest, t, mid, next);
      steps := one + rest;
    }
  }

  lemma SmallerRest(all: set<Id>, before: set<Id>, after: set<Id>, more: set<Id>)
    requires more != {} && more <= all && more !! before && after == before + more
    ensures all - after < all - before
  {
    var x :| x in more;
    assert x in all - before && x !in all - after;
  }

  // ---------- all the way ----------

  /** Ready to commit what was asked. */
  predicate IsReady(tx: Tx, r: Request, now: Time) {
    tx.phase == Ready(now) && tx.request == r
  }

  lemma MoveGetsReady(s: Store, t: TxId, r: Request, now: Time) returns (steps: seq<Step>, top: Tx)
    requires Inv(s) && t !in s.txs && Undisturbed(s, t) && r.Move? && MayBeDone(s.tree, r)
    ensures ComesTo(s, Run(s, steps), t, top) && IsReady(top, r, now)
  {
    var tx := Started(r).value;
    Begins(s, t, r);
    var begin := [Begin(t, r)];
    TargetIsRow(s.tree, r.to, Some(r.node), s.tree[r.node].workspace, s.tree[r.node].space);
    var first := ReadsFirst(Run(s, begin), t, tx, now, tx.(phase := Climb));
    StepsJoin(s, begin, first, t, tx, tx.(phase := Climb));
    var climb;
    climb, top := ClimbsFromTarget(Run(s, begin + first), t, tx.(phase := Climb), now, s.tree[r.node].workspace, s.tree[r.node].space);
    StepsJoin(s, begin + first, climb, t, tx.(phase := Climb), top);
    steps := begin + first + climb;
  }

  lemma TargetIsRow(tree: Tree, target: Option<Id>, forbidden: Option<Id>, workspace: nat, space: nat)
    requires LegalTarget(tree, target, forbidden, workspace, space)
    ensures ToSet(target) <= tree.Keys
  {
  }

  lemma CreationGetsReady(s: Store, t: TxId, r: Request, now: Time) returns (steps: seq<Step>, top: Tx)
    requires Inv(s) && t !in s.txs && Undisturbed(s, t) && r.Create? && MayBeDone(s.tree, r)
    ensures ComesTo(s, Run(s, steps), t, top) && IsReady(top, r, now)
  {
    var tx := Started(r).value;
    Begins(s, t, r);
    var begin := [Begin(t, r)];
    var climb;
    climb, top := ClimbsFromTarget(Run(s, begin), t, tx, now, r.workspace, r.space);
    StepsJoin(s, begin, climb, t, tx, top);
    steps := begin + climb;
  }

  lemma CopyGetsReady(s: Store, t: TxId, r: Request, now: Time) returns (steps: seq<Step>, top: Tx)
    requires Inv(s) && t !in s.txs && Undisturbed(s, t) && r.Copy? && MayBeDone(s.tree, r)
    ensures ComesTo(s, Run(s, steps), t, top) && IsReady(top, r, now)
  {
    var tx, n := Started(r).value, r.node;
    var root := tx.(phase := FindChildren({n}), snapshot := map[n := s.tree[n].parent]);
    Begins(s, t, r);
    var begin := [Begin(t, r)];
    var first := ReadsFirst(Run(s, begin), t, tx, now, root);
    StepsJoin(s, begin, first, t, tx, root);
    var collects, foot := Collects(Run(s, begin + first), t, root, {n}, now);
    StepsJoin(s, begin + first, collects, t, root, foot);
    var climb;
    climb, top := ClimbsFromTarget(Run(s, begin + first + collects), t, foot, now, s.tree[n].workspace, s.tree[n].space);
    StepsJoin(s, begin + first + collects, climb, t, foot, top);
    steps := begin + first + collects + climb;
  }

  /** A snapshot is taken under the lock of its root, and all its rows are locked and checked. */
  lemma TreeGetsChecked(s: Store, t: TxId, r: Request, now: Time, next: Tx) returns (steps: seq<Step>)
    requires Inv(s) && t !in s.txs && Undisturbed(s, t) && (r.Archive? || r.Restore?) && r.node in s.tree
    requires CountChildren(s.tree, Snapshotted(s.tree, r).(phase := CheckChildren), now) == Go(next)
    ensures ComesTo(s, Run(s, steps), t, next)
  {
    var tx, taken := Started(r).value, Snapshotted(s.tree, r);
    Begins(s, t, r);
    var begin := [Begin(t, r)];
    var first := ReadsFirst(Run(s, begin), t, tx, now, taken);
    StepsJoin(s, begin, first, t, tx, taken);
    SnapshotIsWhole(s.tree, r.node);
    var checks := ChecksTree(Run(s, begin + first), t, taken, now, next);
    StepsJoin(s, begin + first, checks, t, taken, next);
    steps := begin + first + checks;
  }

  ghost function Snapshotted(tree: Tree, r: Request): Tx
    requires r.Archive? || r.Restore?
  {
    var rows := SubtreeRows(tree, r.node);
    Started(r).value.(phase := LockTree(rows.Keys - {r.node}), snapshot := rows)
  }

  lemma ArchivingGetsReady(s: Store, t: TxId, r: Request, now: Time) returns (steps: seq<Step>, top: Tx)
    requires Inv(s) && t !in s.txs && Undisturbed(s, t) && r.Archive? && MayBeDone(s.tree, r)
    ensures ComesTo(s, Run(s, steps), t, top) && IsReady(top, r, now)
  {
    SnapshotIsWhole(s.tree, r.node);
    top := Snapshotted(s.tree, r).(phase := Ready(now));
    steps := TreeGetsChecked(s, t, r, now, top);
  }

  lemma RestorationGetsReady(s: Store, t: TxId, r: Request, now: Time) returns (steps: seq<Step>, top: Tx)
    requires Inv(s) && t !in s.txs && Undisturbed(s, t) && r.Restore? && MayBeDone(s.tree, r)
    ensures ComesTo(s, Run(s, steps), t, top) && IsReady(top, r, now)
  {
    SnapshotIsWhole(s.tree, r.node);
    var target := RestoreTarget(s.tree, r.node, r.choice);
    var foot := Snapshotted(s.tree, r).(phase := Climb, target := target, cursor := target);
    var checks := TreeGetsChecked(s, t, r, now, foot);
    var climb;
    climb, top := ClimbsFromTarget(Run(s, checks), t, foot, now, s.tree[r.node].workspace, s.tree[r.node].space);
    StepsJoin(s, checks, climb, t, foot, top);
    steps := checks + climb;
  }

  lemma DeletionGetsReady(s: Store, t: TxId, r: Request, now: Time) returns (steps: seq<Step>, top: Tx)
    requires Inv(s) && t !in s.txs && Undisturbed(s, t) && r.Delete? && MayBeDone(s.tree, r)
    ensures ComesTo(s, Run(s, steps), t, top) && IsReady(top, r, now)
  {
    var rows := SubtreeRows(s.tree, r.node);
    var tx := Deletion(r.node, rows, r.cutoff);
    SnapshotIsWhole(s.tree, r.node);
    DeletionBegins(s, t, r.node, rows, r.cutoff);
    var begin := [BeginDelete(t, r.node, rows, r.cutoff)];
    top := tx.(phase := Ready(now));
    var checks := ChecksTree(Run(s, begin), t, tx, now, top);
    StepsJoin(s, begin, checks, t, tx, top);
    steps := begin + checks;
  }

  lemma GetsReady(s: Store, t: TxId, r: Request, now: Time) returns (steps: seq<Step>, top: Tx)
    requires Inv(s) && t !in s.txs && Undisturbed(s, t) && MayBeDone(s.tree, r)
    ensures ComesTo(s, Run(s, steps), t, top) && IsReady(top, r, now)
  {
    match r
    case Move(_, _) => steps, top := MoveGetsReady(s, t, r, now);
    case Create(_, _, _, _, _) => steps, top := CreationGetsReady(s, t, r, now);
    case Copy(_, _, _) => steps, top := CopyGetsReady(s, t, r, now);
    case Archive(_) => steps, top := ArchivingGetsReady(s, t, r, now);
    case Restore(_, _) => steps, top := RestorationGetsReady(s, t, r, now);
    case Delete(_, _) => steps, top := DeletionGetsReady(s, t, r, now);
  }

  /**
   Whatever may be done gets done: a transaction that runs while nobody else holds a lock comes through, does
   what was asked, gives its locks back, and leaves the transactions that have begun in the meantime alone.
   */
  lemma UndisturbedRequestsComeThrough(s: Store, t: TxId, r: Request, now: Time) returns (steps: seq<Step>, target: Option<Id>)
    requires Inv(s) && t !in s.txs && s.locks == map[] && MayBeDone(s.tree, r)
    ensures var end := Run(s, steps);
      end.txs == s.txs && end.locks == map[] && DoneAlone(s.tree, r, target, now, end.tree)
  {
    var ready, top := GetsReady(s, t, r, now);
    steps, target := ready + [Commit(t)], top.target;
    CommitEnds(s, ready, t, top);
  }

  lemma CommitEnds(s: Store, ready: seq<Step>, t: TxId, top: Tx)
    requires t !in s.txs && ComesTo(s, Run(s, ready), t, top) && top.phase.Ready?
    ensures var end := Run(s, ready + [Commit(t)]);
      end.txs == s.txs && end.locks == map[] && DoneAlone(s.tree, top.request, top.target, top.phase.now, end.tree)
  {
    var mid := Run(s, ready);
    RunJoins(s, ready, [Commit(t)]);
    OneStep(mid, Commit(t));
    CommitIsDoneAlone(mid, t);
    assert mid.txs - {t} == s.txs;
  }

  /** And nothing else ever is: what commits in any interleaving may be done in the state in which it commits. */
  lemma CommitsMayBeDone(s: Store, steps: seq<Step>, t: TxId)
    requires Initial(s) && t in Run(s, steps).txs && Run(s, steps).txs[t].phase.Ready?
    ensures MayBeDone(Run(s, steps).tree, Run(s, steps).txs[t].request)
  {
    RunKeepsInv(s, steps);
    var now := Run(s, steps);
    CommitIsDoneAlone(now, t);
    DoneMayBeDone(now.tree, now.txs[t].request, now.txs[t].target, now.txs[t].phase.now, Apply(now, Commit(t)).tree);
  }

  lemma DoneMayBeDone(before: Tree, r: Request, target: Option<Id>, now: Time, after: Tree)
    requires DoneAlone(before, r, target, now, after)
    ensures MayBeDone(before, r)
  {
  }
}
