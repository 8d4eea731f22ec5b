/**
 The tree that a share looks at: it is loaded from the top down, checked for cycles, and read from then on.
 The rows are taken as they stand; a file system that changes during the load is not part of the model.
 */
module ShareTrees {
  import opened Options
  import opened Forest
  import opened FileTrees

  datatype Item = Item(parent: Option<Id>, isFolder: bool, archived: bool, workspace: nat, space: nat, owner: Option<nat>)

  type Items = map<Id, Item>

  function ParentsOf(items: Items): ParentMap {
    map x | x in items :: items[x].parent
  }

  predicate SameScope(a: Item, b: Item) {
    a.workspace == b.workspace && a.space == b.space && (a.space == PERSONAL ==> a.owner == b.owner)
  }

  /** What the listing of a folder returns: its active children within the scope. */
  function Children(drive: Items, scope: Item, p: Id): set<Id> {
    set x | x in drive && drive[x].parent == Some(p) && !drive[x].archived && SameScope(drive[x], scope)
  }

  /** The links that a load follows downwards. */
  function Links(drive: Items, scope: Item): ParentMap {
    map x | x in drive && drive[x].parent.Some? && drive[x].parent.value in drive && drive[drive[x].parent.value].isFolder
      && !drive[x].archived && SameScope(drive[x], scope) :: drive[x].parent
  }

  ghost predicate UnderSome(ps: ParentMap, x: Id, roots: set<Id>) {
    exists r :: r in roots && Under(ps, x, r)
  }

  /** Everything that can be reached from the roots through folders. */
  ghost function Closure(drive: Items, scope: Item, roots: set<Id>): set<Id> {
    set x | x in drive && UnderSome(Links(drive, scope), x, roots)
  }

  // ---------- the check for cycles ----------

  /** A finished piece of the check: the climb from every node of the chain ends where the chain ends. */
  lemma {:induction false} ChainEndsWell(ps: ParentMap, path: seq<Id>, cursor: Option<Id>, i: nat)
    requires IsChain(ps, path, cursor) && i < |path|
    requires cursor.Some? ==> RootedSomehow(ps, cursor.value)
    ensures RootedSomehow(ps, path[i])
    decreases |path| - i
  {
    if i == |path| - 1 {
      if cursor.Some? {
        var k: nat :| Rooted(ps, cursor.value, k);
        assert Rooted(ps, path[i], k + 1);
      } else {
        assert Rooted(ps, path[i], 1);
      }
    } else {
      ChainEndsWell(ps, path, cursor, i + 1);
      var k: nat :| Rooted(ps, path[i + 1], k);
      assert Rooted(ps, path[i], k + 1);
    }
  }

  /** One climb of the check, up to a node that is resolved already. */
  method ClimbToResolved(items: Items, start: Id, resolved: set<Id>) returns (path: set<Id>, cycle: bool)
    requires start in items
    requires forall x :: x in resolved ==> x in items && RootedSomehow(ParentsOf(items), x)
    ensures cycle ==> !Acyclic(ParentsOf(items))
    ensures !cycle ==> path <= items.Keys && forall x :: x in path ==> RootedSomehow(ParentsOf(items), x)
    ensures !cycle ==> start in path || start in resolved
  {
    ghost var ps := ParentsOf(items);
    ghost var chain: seq<Id> := [];
    path := {};
    var current := Some(start);
    while current.Some? && current.value in items && current.value !in resolved
      invariant IsChain(ps, chain, current)
      invariant chain == [] ==> current == Some(start)
      invariant chain != [] ==> chain[0] == start
      invariant forall x :: x in path <==> x in chain
      decreases items.Keys - path
    {
      var x := current.value;
      if x in path {
        RevisitMeansCycle(ps, chain, x);
        assert chain[0] in ps;
        return path, true;
      }
      path := path + {x};
      chain := chain + [x];
      current := items[x].parent;
    }
    if current.Some? && current.value !in items {
      assert Rooted(ps, current.value, 1);
    }
    forall x | x in path ensures x in items && RootedSomehow(ps, x) {
      var i :| 0 <= i < |chain| && chain[i] == x;
      ChainEndsWell(ps, chain, current, i);
    }
    return path, false;
  }

  /** The check with its memo accepts exactly the parent relations without a cycle. */
  method AssertTreeAcyclic(items: Items) returns (ok: bool)
    ensures ok <==> Acyclic(ParentsOf(items))
  {
    var nodes := ListRows(items.Keys);
    var resolved: set<Id> := {};
    for i := 0 to |nodes|
      invariant forall x :: x in resolved ==> x in items && RootedSomehow(ParentsOf(items), x)
      invariant forall j :: 0 <= j < i ==> nodes[j] in resolved
    {
      assert nodes[i] in items.Keys;
      if nodes[i] !in resolved {
        var path, cycle := ClimbToResolved(items, nodes[i], resolved);
        if cycle {
          return false;
        }
        resolved := resolved + path;
      }
    }
    forall x | x in ParentsOf(items) ensures RootedSomehow(ParentsOf(items), x) {
      assert x in nodes;
    }
    return true;
  }

  // ---------- loading ----------

  /** `byId` are the nodes of a loaded tree and `byParent` the children of each of its folders. */
  datatype LoadedTree = LoadedTree(byId: Items, byParent: map<Id, seq<Id>>)

  function ChildrenIn(items: Items, p: Id): set<Id> {
    set x | x in items && items[x].parent == Some(p)
  }

  ghost predicate WellLoaded(tree: LoadedTree) {
    && Acyclic(ParentsOf(tree.byId))
    && (forall p :: p in tree.byParent <==> p in tree.byId && tree.byId[p].isFolder)
    && (forall p :: p in tree.byParent ==> ListsOnce(tree.byParent[p], ChildrenIn(tree.byId, p)))
  }

  predicate AllInScope(drive: Items, scope: Item, ids: set<Id>) {
    forall x :: x in ids ==> x in drive && !drive[x].archived && SameScope(drive[x], scope)
  }

  function IdsOf(rows: seq<Id>): set<Id> {
    set x | x in rows
  }

  /** The state of the load: the folders in `pending` are known, and the first `done` of them are expanded. */
  ghost predicate Loading(drive: Items, scope: Item, roots: set<Id>, found: set<Id>, pending: seq<Id>, done: nat) {
    && done <= |pending|
    && roots <= found <= Closure(drive, scope, roots)
    && AllInScope(drive, scope, found)
    && ListsOnce(pending, FoldersIn(drive, found))
    && (forall i :: 0 <= i < done ==> Children(drive, scope, pending[i]) <= found)
  }

  function FoldersIn(drive: Items, ids: set<Id>): set<Id> {
    set x | x in ids && x in drive && drive[x].isFolder
  }

  lemma ChildIsReached(drive: Items, scope: Item, roots: set<Id>, p: Id, x: Id)
    requires p in Closure(drive, scope, roots) && drive[p].isFolder && x in Children(drive, scope, p)
    ensures x in Closure(drive, scope, roots)
  {
    var links := Links(drive, scope);
    var r :| r in roots && Under(links, p, r);
    var k: nat :| Reaches(links, p, r, k);
    assert Reaches(links, x, r, k + 1);
    assert Under(links, x, r);
  }

  lemma ExpandStep(drive: Items, scope: Item, roots: set<Id>, found: set<Id>, pending: seq<Id>, done: nat, more: seq<Id>)
    requires Loading(drive, scope, roots, found, pending, done) && done < |pending|
    requires ListsOnce(more, FoldersIn(drive, Children(drive, scope, pending[done])) - FoldersIn(drive, found))
    ensures Loading(drive, scope, roots, found + Children(drive, scope, pending[done]), pending + more, done + 1)
  {
    var p := pending[done];
    var children := Children(drive, scope, p);
    assert p in FoldersIn(drive, found);
    forall x | x in children ensures x in Closure(drive, scope, roots) {
      ChildIsReached(drive, scope, roots, p, x);
    }
    ListsBoth(pending, more, FoldersIn(drive, found), FoldersIn(drive, children) - FoldersIn(drive, found));
    assert FoldersIn(drive, found + children) == FoldersIn(drive, found) + (FoldersIn(drive, children) - FoldersIn(drive, found));
  }

  lemma {:induction false} ReachedIsFound(drive: Items, scope: Item, roots: set<Id>, found: set<Id>, pending: seq<Id>, x: Id, r: Id, k: nat)
    requires Loading(drive, scope, roots, found, pending, |pending|)
    requires x in drive && r in roots && Reaches(Links(drive, scope), x, r, k)
    ensures x in found
    decreases k
  {
    if k > 0 {
      var p := drive[x].parent.value;
      ReachedIsFound(drive, scope, roots, found, pending, p, r, k - 1);
      assert p in FoldersIn(drive, found);
      var i :| 0 <= i < |pending| && pending[i] == p;
      assert x in Children(drive, scope, p);
    }
  }

  lemma LoadingEnds(drive: Items, scope: Item, roots: set<Id>, found: set<Id>, pending: seq<Id>)
    requires Loading(drive, scope, roots, found, pending, |pending|)
    ensures found == Closure(drive, scope, roots)
  {
    forall x | x in Closure(drive, scope, roots) ensures x in found {
      var r :| r in roots && Under(Links(drive, scope), x, r);
      var k: nat :| Reaches(Links(drive, scope), x, r, k);
      ReachedIsFound(drive, scope, roots, found, pending, x, r, k);
    }
  }

  function Restrict(drive: Items, ids: set<Id>): Items {
    map x | x in ids && x in drive :: drive[x]
  }

  /** One folder of the work list: its children are recorded, and the folders among them that are new are scheduled. */
  method Expand(drive: Items, children: set<Id>, scheduled: set<Id>) returns (siblings: seq<Id>, more: seq<Id>)
    requires children <= drive.Keys
    ensures ListsOnce(siblings, children)
    ensures ListsOnce(more, FoldersIn(drive, children) - scheduled)
  {
    var listed := ListRows(children);
    siblings, more := [], [];
    for i := 0 to |listed|
      invariant siblings == listed[..i]
      invariant forall x :: x in more <==> x in listed[..i] && x in drive && drive[x].isFolder && x !in scheduled
      invariant forall j, k :: 0 <= j < k < |more| ==> more[j] != more[k]
    {
      var child := listed[i];
      assert child in listed && child !in listed[..i];
      siblings := siblings + [child];
      if drive[child].isFolder && child !in scheduled {
        more := more + [child];
      }
    }
    assert listed[..|listed|] == listed;
  }

  lemma ScopeIsClosed(drive: Items, scope: Item, found: set<Id>, p: Id)
    requires AllInScope(drive, scope, found) && Children(drive, scope, p) <= found
    ensures ChildrenIn(Restrict(drive, found), p) == Children(drive, scope, p)
  {
  }

  /**
   The nodes found are the roots and, of the workspace and space of the first one, and for personal files of its
   owner, the active children of the folders found: all of them, and nothing else.
   */
  ghost predicate HoldsTree(drive: Items, first: Item, roots: set<Id>, found: set<Id>) {
    && roots <= found <= drive.Keys
    && (forall x :: x in roots ==>
          && drive[x].workspace == first.workspace && drive[x].space == first.space
          && (first.space == PERSONAL ==> drive[x].owner == first.owner))
    && (forall x :: x in found && x !in roots ==>
          && !drive[x].archived && drive[x].workspace == first.workspace && drive[x].space == first.space
          && (first.space == PERSONAL ==> drive[x].owner == first.owner)
          && drive[x].parent.Some? && drive[x].parent.value in found && drive[drive[x].parent.value].isFolder)
    && forall x ::
         (&& x in drive && !drive[x].archived && drive[x].workspace == first.workspace && drive[x].space == first.space
          && (first.space == PERSONAL ==> drive[x].owner == first.owner)
          && drive[x].parent.Some? && drive[x].parent.value in found && drive[drive[x].parent.value].isFolder) ==> x in found
  }

  lemma ClosureHoldsTree(drive: Items, first: Item, roots: set<Id>)
    requires roots <= drive.Keys && AllInScope(drive, first, roots)
    ensures HoldsTree(drive, first, roots, Closure(drive, first, roots))
  {
    var links, found := Links(drive, first), Closure(drive, first, roots);
    forall r | r in roots ensures r in found {
      assert Reaches(links, r, r, 0);
      assert Under(links, r, r);
    }
    forall x | x in found && x !in roots ensures x in links && drive[x].parent.value in found {
      ParentIsFound(drive, first, roots, x);
    }
    forall x | x in links && drive[x].parent.value in found ensures x in found {
      ChildIsFound(drive, first, roots, x);
    }
  }

  lemma ParentIsFound(drive: Items, first: Item, roots: set<Id>, x: Id)
    requires x in Closure(drive, first, roots) && x !in roots
    ensures x in Links(drive, first) && drive[x].parent.value in Closure(drive, first, roots)
  {
    var links := Links(drive, first);
    var r :| r in roots && Under(links, x, r);
    var k: nat :| Reaches(links, x, r, k);
    assert Reaches(links, drive[x].parent.value, r, k - 1);
    assert Under(links, drive[x].parent.value, r);
  }

  lemma ChildIsFound(drive: Items, first: Item, roots: set<Id>, x: Id)
    requires x in Links(drive, first) && drive[x].parent.value in Closure(drive, first, roots)
    ensures x in Closure(drive, first, roots)
  {
    var links := Links(drive, first);
    var r :| r in roots && Under(links, drive[x].parent.value, r);
    var k: nat :| Reaches(links, drive[x].parent.value, r, k);
    assert Reaches(links, x, r, k + 1);
    assert Under(links, x, r);
  }

  /**
   The load ends. It is refused exactly when the roots are of different scopes or what they reach holds
   a cycle; otherwise it holds just what can be reached from the roots through folders.
   */
  method LoadActiveTree(drive: Items, roots: seq<Id>) returns (r: Option<LoadedTree>)
    requires |roots| > 0 && forall i, j :: 0 <= i < j < |roots| ==> roots[i] != roots[j]
    requires forall x :: x in roots ==> x in drive && !drive[x].archived
    ensures roots[0] in roots
    ensures var scope := drive[roots[0]]; var found := Restrict(drive, Closure(drive, scope, IdsOf(roots)));
      && (r.Some? <==> AllInScope(drive, scope, IdsOf(roots)) && Acyclic(ParentsOf(found)))
      && (r.Some? ==> r.value.byId == found && WellLoaded(r.value))
    ensures r.Some? ==> HoldsTree(drive, drive[roots[0]], IdsOf(roots), r.value.byId.Keys)
  {
    assert roots[0] in roots;
    var scope := drive[roots[0]];
    if exists x :: x in roots && !SameScope(drive[x], scope) {
      return None;
    }
    var found, pending, byParent := WorkOff(drive, scope, roots);
    LoadingEnds(drive, scope, IdsOf(roots), found, pending);
    var byId := Restrict(drive, found);
    var ok := AssertTreeAcyclic(byId);
    if !ok {
      return None;
    }
    ListingIsTree(drive, scope, IdsOf(roots), found, pending, byParent);
    ClosureHoldsTree(drive, scope, IdsOf(roots));
    return Some(LoadedTree(byId, byParent));
  }

  /** The work list: folder after folder is expanded, until no new one turns up. */
  method WorkOff(drive: Items, scope: Item, roots: seq<Id>) returns (found: set<Id>, pending: seq<Id>, byParent: map<Id, seq<Id>>)
    requires forall i, j :: 0 <= i < j < |roots| ==> roots[i] != roots[j]
    requires IdsOf(roots) <= drive.Keys && AllInScope(drive, scope, IdsOf(roots))
    ensures Loading(drive, scope, IdsOf(roots), found, pending, |pending|)
    ensures Listed(drive, scope, byParent, pending, |pending|)
  {
    found := IdsOf(roots);
    pending := RootFolders(drive, roots);
    RootsAreReached(drive, scope, found);
    byParent := map[];
    var i := 0;
    while i < |pending|
      invariant Loading(drive, scope, IdsOf(roots), found, pending, i)
      invariant Listed(drive, scope, byParent, pending, i)
      decreases drive.Keys - IdsOf(pending[..i])
    {
      var p := pending[i];
      assert p in FoldersIn(drive, found);
      var children := Children(drive, scope, p);
      var siblings, more := Expand(drive, children, FoldersIn(drive, found));
      ExpandStep(drive, scope, IdsOf(roots), found, pending, i, more);
      ListOneMore(drive, scope, byParent, pending, i, siblings, more);
      assert p !in pending[..i] && p in drive.Keys - IdsOf(pending[..i]);
      byParent := byParent[p := siblings];
      found := found + children;
      pending := pending + more;
      i := i + 1;
    }
  }

  /** The children of the first `done` folders have been recorded. */
  ghost predicate Listed(drive: Items, scope: Item, byParent: map<Id, seq<Id>>, pending: seq<Id>, done: nat) {
    && done <= |pending|
    && (forall p :: p in byParent <==> p in pending[..done])
    && (forall p :: p in byParent ==> ListsOnce(byParent[p], Children(drive, scope, p)))
  }

  lemma ListOneMore(drive: Items, scope: Item, byParent: map<Id, seq<Id>>, pending: seq<Id>, done: nat, siblings: seq<Id>, more: seq<Id>)
    requires Listed(drive, scope, byParent, pending, done) && done < |pending|
    requires ListsOnce(siblings, Children(drive, scope, pending[done]))
    ensures Listed(drive, scope, byParent[pending[done] := siblings], pending + more, done + 1)
  {
    assert (pending + more)[..done + 1] == pending[..done] + [pending[done]];
  }

  lemma ListingIsTree(drive: Items, scope: Item, roots: set<Id>, found: set<Id>, pending: seq<Id>, byParent: map<Id, seq<Id>>)
    requires Loading(drive, scope, roots, found, pending, |pending|) && Listed(drive, scope, byParent, pending, |pending|)
    ensures var byId := Restrict(drive, found);
      && (forall p :: p in byParent <==> p in byId && byId[p].isFolder)
      && (forall p :: p in byParent ==> ListsOnce(byParent[p], ChildrenIn(byId, p)))
  {
    assert pending[..|pending|] == pending;
    forall p | p in byParent ensures ListsOnce(byParent[p], ChildrenIn(Restrict(drive, found), p)) {
      var j :| 0 <= j < |pending| && pending[j] == p;
      ScopeIsClosed(drive, scope, found, p);
    }
  }

  method RootFolders(drive: Items, roots: seq<Id>) returns (pending: seq<Id>)
    requires forall i, j :: 0 <= i < j < |roots| ==> roots[i] != roots[j]
    requires forall x :: x in roots ==> x in drive
    ensures ListsOnce(pending, FoldersIn(drive, IdsOf(roots)))
  {
    pending := [];
    for i := 0 to |roots|
      invariant forall x :: x in pending <==> x in roots[..i] && x in drive && drive[x].isFolder
      invariant forall j, k :: 0 <= j < k < |pending| ==> pending[j] != pending[k]
    {
      assert roots[i] in roots && roots[i] !in roots[..i];
      if drive[roots[i]].isFolder {
        pending := pending + [roots[i]];
      }
    }
    assert roots[..|roots|] == roots;
  }

  lemma RootsAreReached(drive: Items, scope: Item, roots: set<Id>)
    requires roots <= drive.Keys
    ensures roots <= Closure(drive, scope, roots)
  {
    forall x | x in roots ensures x in Closure(drive, scope, roots) {
      assert Reaches(Links(drive, scope), x, x, 0);
      assert Under(Links(drive, scope), x, x);
    }
  }
}
