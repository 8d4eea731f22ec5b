/** What a share covers: the descendants of its nodes, the selections inside a folder, and the roles of all of them. */
module ShareScopes {
  import opened Options
  import opened Forest
  import opened FileTrees
  import opened ShareTrees

  /** Only folders have children. */
  predicate FolderParents(items: Items) {
    forall x :: x in items && items[x].parent.Some? && items[x].parent.value in items ==> items[items[x].parent.value].isFolder
  }

  ghost function Subtree(items: Items, r: Id): set<Id> {
    set x | x in items && Under(ParentsOf(items), x, r)
  }

  ghost function StrictlyBelow(items: Items, r: Id): set<Id> {
    set x | x in items && StrictlyUnder(ParentsOf(items), x, r)
  }

  // ---------- facts about trees ----------

  lemma NoCycleAt(ps: ParentMap, x: Id)
    requires Acyclic(ps)
    ensures !StrictlyUnder(ps, x, x)
  {
    AcyclicIffNoCycle(ps);
    assert !OnCycle(ps, x);
  }

  lemma UnderSplits(ps: ParentMap, x: Id, r: Id)
    ensures Under(ps, x, r) <==> x == r || StrictlyUnder(ps, x, r)
    ensures StrictlyUnder(ps, x, r) <==> Up(ps, x).Some? && Under(ps, Up(ps, x).value, r)
  {
    assert Reaches(ps, r, r, 0);
    if Up(ps, x).Some? && Under(ps, Up(ps, x).value, r) {
      var k: nat :| Reaches(ps, Up(ps, x).value, r, k);
      assert Reaches(ps, x, r, k + 1);
    }
    if StrictlyUnder(ps, x, r) {
      var k: nat :| k > 0 && Reaches(ps, x, r, k);
      assert Reaches(ps, Up(ps, x).value, r, k - 1);
    }
  }

  lemma UnderComposes(ps: ParentMap, x: Id, y: Id, z: Id)
    requires Under(ps, x, y) && Under(ps, y, z)
    ensures Under(ps, x, z)
    ensures StrictlyUnder(ps, x, y) || StrictlyUnder(ps, y, z) ==> StrictlyUnder(ps, x, z)
  {
    var j: nat :| Reaches(ps, x, y, j);
    var k: nat :| Reaches(ps, y, z, k);
    ReachesCompose(ps, x, y, z, j, k);
    if StrictlyUnder(ps, x, y) {
      var j': nat :| j' > 0 && Reaches(ps, x, y, j');
      ReachesCompose(ps, x, y, z, j', k);
    }
    if StrictlyUnder(ps, y, z) {
      var k': nat :| k' > 0 && Reaches(ps, y, z, k');
      ReachesCompose(ps, x, y, z, j, k');
    }
  }

  /** Two nodes above one node lie above one another. */
  lemma AboveIsALine(ps: ParentMap, x: Id, y: Id, z: Id)
    requires Under(ps, x, y) && Under(ps, x, z)
    ensures Under(ps, y, z) || Under(ps, z, y)
  {
    var j: nat :| Reaches(ps, x, y, j);
    var k: nat :| Reaches(ps, x, z, k);
    if j <= k {
      ReachesSplit(ps, x, y, z, j, k);
    } else {
      ReachesSplit(ps, x, z, y, k, j);
    }
  }

  lemma SiblingsApart(items: Items, p: Id, c: Id, d: Id, x: Id)
    requires Acyclic(ParentsOf(items)) && c in ChildrenIn(items, p) && d in ChildrenIn(items, p) && c != d
    ensures !(x in Subtree(items, c) && x in Subtree(items, d))
  {
    var ps := ParentsOf(items);
    if x in Subtree(items, c) && x in Subtree(items, d) {
      AboveIsALine(ps, x, c, d);
      SiblingNotAbove(items, p, c, d);
      SiblingNotAbove(items, p, d, c);
    }
  }

  lemma SiblingNotAbove(items: Items, p: Id, c: Id, d: Id)
    requires Acyclic(ParentsOf(items)) && c in ChildrenIn(items, p) && d in ChildrenIn(items, p) && c != d
    ensures !Under(ParentsOf(items), c, d)
  {
    var ps := ParentsOf(items);
    UnderSplits(ps, c, d);
    if Under(ps, c, d) {
      assert Reaches(ps, p, p, 0);
      UnderSplits(ps, d, p);
      UnderComposes(ps, d, p, d);
      NoCycleAt(ps, d);
    }
  }

  lemma {:induction false} LastStep(items: Items, x: Id, p: Id, k: nat) returns (c: Id)
    requires k > 0 && Reaches(ParentsOf(items), x, p, k)
    ensures c in ChildrenIn(items, p) && Reaches(ParentsOf(items), x, c, k - 1)
    decreases k
  {
    if k == 1 {
      c := x;
    } else {
      c := LastStep(items, items[x].parent.value, p, k - 1);
    }
  }

  ghost function SubtreesOf(items: Items, list: seq<Id>): set<Id> {
    set x | x in items && UnderSome(ParentsOf(items), x, IdsOf(list))
  }

  /** Below a folder lie the subtrees of its children. */
  lemma BelowIsChildren(items: Items, p: Id, children: seq<Id>)
    requires ListsOnce(children, ChildrenIn(items, p))
    ensures SubtreesOf(items, children) == StrictlyBelow(items, p)
  {
    var ps := ParentsOf(items);
    forall x | x in StrictlyBelow(items, p) ensures x in SubtreesOf(items, children) {
      var k: nat :| k > 0 && Reaches(ps, x, p, k);
      var c := LastStep(items, x, p, k);
      assert c in IdsOf(children) && Under(ps, x, c);
    }
    forall x | x in SubtreesOf(items, children) ensures x in StrictlyBelow(items, p) {
      var c :| c in IdsOf(children) && Under(ps, x, c);
      assert Reaches(ps, p, p, 0);
      assert Reaches(ps, c, p, 1);
      UnderComposes(ps, x, c, p);
    }
  }

  // ---------- the descendants ----------

  lemma SubtreesGrow(items: Items, list: seq<Id>, j: nat)
    requires j < |list|
    ensures SubtreesOf(items, list[..j + 1]) == SubtreesOf(items, list[..j]) + Subtree(items, list[j])
  {
    assert IdsOf(list[..j + 1]) == IdsOf(list[..j]) + {list[j]};
    var ps := ParentsOf(items);
    forall x | x in items
      ensures UnderSome(ps, x, IdsOf(list[..j + 1])) <==> UnderSome(ps, x, IdsOf(list[..j])) || Under(ps, x, list[j])
    {
      if Under(ps, x, list[j]) {
        assert list[j] in IdsOf(list[..j + 1]);
      }
    }
  }

  lemma NextChildIsNew(items: Items, p: Id, children: seq<Id>, j: nat)
    requires Acyclic(ParentsOf(items)) && ListsOnce(children, ChildrenIn(items, p)) && j < |children|
    ensures Subtree(items, children[j]) !! SubtreesOf(items, children[..j])
    ensures children[j] in items && Subtree(items, children[j]) == {children[j]} + StrictlyBelow(items, children[j])
    ensures children[j] !in StrictlyBelow(items, children[j])
  {
    var ps, c := ParentsOf(items), children[j];
    assert c in children;
    NoCycleAt(ps, c);
    forall x | x in items ensures Under(ps, x, c) <==> x == c || StrictlyUnder(ps, x, c) {
      UnderSplits(ps, x, c);
    }
    forall x | x in Subtree(items, c) ensures x !in SubtreesOf(items, children[..j]) {
      if x in SubtreesOf(items, children[..j]) {
        var d :| d in IdsOf(children[..j]) && Under(ps, x, d);
        var i :| 0 <= i < j && children[i] == d;
        assert d in children;
        SiblingsApart(items, p, c, d, x);
      }
    }
  }

  /**
   Depth first, with the set of nodes seen so far. In a loaded tree no node is met twice, so the guard
   against that never fires, and each node below `p` is listed once.
   */
  method Visit(tree: LoadedTree, p: Id, visited: set<Id>) returns (seen: set<Id>, collected: seq<Id>)
    requires WellLoaded(tree) && FolderParents(tree.byId) && p in tree.byId
    requires visited <= tree.byId.Keys && StrictlyBelow(tree.byId, p) !! visited
    ensures seen == visited + StrictlyBelow(tree.byId, p)
    ensures ListsOnce(collected, StrictlyBelow(tree.byId, p))
    decreases tree.byId.Keys - visited
  {
    var items := tree.byId;
    seen, collected := visited, [];
    if p !in tree.byParent {
      NothingBelowFiles(items, p);
      return;
    }
    var children := tree.byParent[p];
    BelowIsChildren(items, p, children);
    for j := 0 to |children|
      invariant seen == visited + SubtreesOf(items, children[..j])
      invariant ListsOnce(collected, SubtreesOf(items, children[..j]))
    {
      var c := children[j];
      NextChildIsNew(items, p, children, j);
      SubtreesGrow(items, children, j);
      ChildBelow(items, p, children, j);
      assert c !in seen;
      var below: seq<Id>;
      ghost var before := seen;
      seen, below := Visit(tree, c, seen + {c});
      ListsBoth([c], below, {c}, StrictlyBelow(items, c));
      ListsBoth(collected, [c] + below, SubtreesOf(items, children[..j]), Subtree(items, c));
      collected := collected + ([c] + below);
    }
    assert children[..|children|] == children;
  }

  lemma NothingBelowFiles(items: Items, p: Id)
    requires FolderParents(items) && p in items && !items[p].isFolder
    ensures StrictlyBelow(items, p) == {}
  {
    forall x | x in StrictlyBelow(items, p) ensures false {
      var k: nat :| k > 0 && Reaches(ParentsOf(items), x, p, k);
      var c := LastStep(items, x, p, k);
    }
  }

  lemma ChildBelow(items: Items, p: Id, children: seq<Id>, j: nat)
    requires ListsOnce(children, ChildrenIn(items, p)) && j < |children|
    ensures Subtree(items, children[j]) <= StrictlyBelow(items, p)
  {
    assert children[j] in children;
    BelowIsChildren(items, p, children);
    forall x | x in Subtree(items, children[j]) ensures x in SubtreesOf(items, children) {
      assert children[j] in IdsOf(children);
    }
  }

  method CollectDescendants(tree: LoadedTree, root: Id) returns (collected: seq<Id>)
    requires WellLoaded(tree) && FolderParents(tree.byId) && root in tree.byId
    ensures ListsOnce(collected, StrictlyBelow(tree.byId, root))
  {
    NoCycleAt(ParentsOf(tree.byId), root);
    var seen;
    seen, collected := Visit(tree, root, {root});
  }

  // ---------- the climbs ----------

  /** All links out of `s` stay inside without meeting `root`, or lead to the cursor. */
  predicate Closed(ps: ParentMap, s: set<Id>, root: Id, cursor: Option<Id>) {
    forall v :: v in s && Up(ps, v).Some? ==> Up(ps, v) == cursor || (Up(ps, v).value in s && Up(ps, v).value != root)
  }

  lemma {:induction false} ClosedAvoids(ps: ParentMap, s: set<Id>, root: Id, x: Id, k: nat)
    requires Closed(ps, s, root, None) && x in s && k > 0
    ensures !Reaches(ps, x, root, k)
    decreases k
  {
    if Up(ps, x).Some? && k > 1 {
      ClosedAvoids(ps, s, root, Up(ps, x).value, k - 1);
    }
  }

  lemma NextIsAbove(ps: ParentMap, x: Id, y: Id)
    requires Under(ps, x, y) && Up(ps, y).Some?
    ensures StrictlyUnder(ps, x, Up(ps, y).value)
  {
    var z := Up(ps, y).value;
    assert Reaches(ps, z, z, 0);
    assert Reaches(ps, y, z, 1);
    UnderComposes(ps, x, y, z);
  }

  /** Whether `root` is a proper ancestor of `x`. A cycle on the way ends the search. */
  method IsDescendant(items: Items, x: Id, root: Id) returns (r: bool)
    requires x in items
    ensures r <==> StrictlyUnder(ParentsOf(items), x, root)
  {
    ghost var ps := ParentsOf(items);
    var visited := {x};
    var parentId := items[x].parent;
    UnderSplits(ps, x, x);
    if parentId.Some? {
      NextIsAbove(ps, x, x);
    }
    while parentId.Some?
      invariant x in visited && Closed(ps, visited, root, parentId)
      invariant parentId.Some? ==> StrictlyUnder(ps, x, parentId.value)
      decreases items.Keys - visited, if parentId.Some? && parentId.value in items then 1 else 0, parentId.Some?
    {
      var p := parentId.value;
      if p == root {
        return true;
      }
      if p in visited {
        forall k: nat | k > 0 ensures !Reaches(ps, x, root, k) {
          ClosedAvoids(ps, visited, root, x, k);
        }
        return false;
      }
      visited := visited + {p};
      UnderSplits(ps, x, p);
      if p in items && items[p].parent.Some? {
        NextIsAbove(ps, x, p);
      }
      parentId := if p in items then items[p].parent else None;
    }
    forall k: nat | k > 0 ensures !Reaches(ps, x, root, k) {
      ClosedAvoids(ps, visited, root, x, k);
    }
    return false;
  }

  /** `s` is a selected folder between `x` and the root. */
  predicate IsSelectedFolder(items: Items, selected: set<Id>, s: Id) {
    s in selected && s in items && items[s].isFolder
  }

  ghost predicate Covers(items: Items, root: Id, selected: set<Id>, x: Id, s: Id) {
    && IsSelectedFolder(items, selected, s)
    && StrictlyUnder(ParentsOf(items), x, s) && StrictlyUnder(ParentsOf(items), s, root)
  }

  ghost predicate IsCovered(items: Items, root: Id, selected: set<Id>, x: Id) {
    exists s :: Covers(items, root, selected, x, s)
  }

  lemma CursorIsNew(ps: ParentMap, visited: set<Id>, p: Id)
    requires Acyclic(ps) && forall v :: v in visited ==> StrictlyUnder(ps, v, p)
    ensures p !in visited
  {
    NoCycleAt(ps, p);
  }

  /** The climb that drops a selection when a selected folder lies above it. */
  method ClimbIsCovered(items: Items, root: Id, selected: set<Id>, id: Id) returns (covered: bool)
    requires Acyclic(ParentsOf(items)) && id in items && StrictlyUnder(ParentsOf(items), id, root)
    ensures covered <==> IsCovered(items, root, selected, id)
  {
    ghost var ps := ParentsOf(items);
    var visited := {id};
    var parentId := items[id].parent;
    UnderSplits(ps, id, root);
    forall s ensures StrictlyUnder(ps, id, s) ==> parentId.Some? && Under(ps, parentId.value, s) {
      UnderSplits(ps, id, s);
    }
    UnderSplits(ps, id, id);
    NextIsAbove(ps, id, id);
    while parentId.Some? && parentId.value != root
      invariant parentId.Some? && StrictlyUnder(ps, id, parentId.value) && Under(ps, parentId.value, root)
      invariant forall s :: Covers(items, root, selected, id, s) ==> Under(ps, parentId.value, s)
      invariant visited <= items.Keys && forall v :: v in visited ==> StrictlyUnder(ps, v, parentId.value)
      decreases items.Keys - visited
    {
      var p := parentId.value;
      CursorIsNew(ps, visited, p);
      UnderSplits(ps, p, root);
      assert p in items;
      visited := visited + {p};
      if p in selected && items[p].isFolder {
        assert Covers(items, root, selected, id, p);
        return true;
      }
      parentId := items[p].parent;
      ClimbsOn(items, root, selected, id, visited, p);
    }
    if IsCovered(items, root, selected, id) {
      var s :| Covers(items, root, selected, id, s);
      UnderComposes(ps, s, root, s);
      NoCycleAt(ps, s);
    }
    return false;
  }

  lemma ClimbsOn(items: Items, root: Id, selected: set<Id>, id: Id, visited: set<Id>, p: Id)
    requires var ps := ParentsOf(items); StrictlyUnder(ps, id, p) && StrictlyUnder(ps, p, root)
    requires !IsSelectedFolder(items, selected, p)
    requires forall s :: Covers(items, root, selected, id, s) ==> Under(ParentsOf(items), p, s)
    requires forall v :: v in visited ==> v == p || StrictlyUnder(ParentsOf(items), v, p)
    ensures var ps := ParentsOf(items);
      && Up(ps, p).Some? && StrictlyUnder(ps, id, Up(ps, p).value) && Under(ps, Up(ps, p).value, root)
      && (forall s :: Covers(items, root, selected, id, s) ==> Under(ps, Up(ps, p).value, s))
      && (forall v :: v in visited ==> StrictlyUnder(ps, v, Up(ps, p).value))
  {
    var ps := ParentsOf(items);
    UnderSplits(ps, p, root);
    UnderSplits(ps, id, p);
    NextIsAbove(ps, id, p);
    forall s | Covers(items, root, selected, id, s) ensures Under(ps, Up(ps, p).value, s) {
      UnderSplits(ps, p, s);
    }
    forall v | v in visited ensures StrictlyUnder(ps, v, Up(ps, p).value) {
      UnderSplits(ps, v, p);
      NextIsAbove(ps, v, p);
    }
  }

  /** Refused when a selection is not below the root; otherwise the selections that no other one covers, in their order. */
  method RemoveCoveredSelections(selectedIds: seq<Id>, root: Id, items: Items) returns (kept: Option<seq<Id>>)
    requires Acyclic(ParentsOf(items))
    ensures kept.Some? <==> forall x :: x in selectedIds ==> x in items && StrictlyUnder(ParentsOf(items), x, root)
    ensures kept.Some? ==> forall x :: x in kept.value <==> x in selectedIds && !IsCovered(items, root, IdsOf(selectedIds), x)
  {
    var selected := IdsOf(selectedIds);
    for i := 0 to |selectedIds|
      invariant forall x :: x in selectedIds[..i] ==> x in items && StrictlyUnder(ParentsOf(items), x, root)
    {
      assert selectedIds[i] in selectedIds;
      if selectedIds[i] !in items {
        return None;
      }
      var below := IsDescendant(items, selectedIds[i], root);
      if !below {
        return None;
      }
    }
    var rest: seq<Id> := [];
    for i := 0 to |selectedIds|
      invariant forall x :: x in rest <==> x in selectedIds[..i] && !IsCovered(items, root, selected, x)
    {
      var covered := ClimbIsCovered(items, root, selected, selectedIds[i]);
      if !covered {
        rest := rest + [selectedIds[i]];
      }
    }
    assert selectedIds[..|selectedIds|] == selectedIds;
    return Some(rest);
  }

  ghost function Kept(items: Items, root: Id, selected: set<Id>): set<Id> {
    set x | x in selected && !IsCovered(items, root, selected, x)
  }

  ghost predicate AllBelow(items: Items, root: Id, selected: set<Id>) {
    forall x :: x in selected ==> x in items && StrictlyUnder(ParentsOf(items), x, root)
  }

  /** Whoever has something below is a folder. */
  lemma AncestorIsFolder(items: Items, x: Id, s: Id)
    requires FolderParents(items) && x in items && s in items && StrictlyUnder(ParentsOf(items), x, s)
    ensures items[s].isFolder
  {
    var k: nat :| k > 0 && Reaches(ParentsOf(items), x, s, k);
    var c := LastStep(items, x, s, k);
  }

  /** No kept selection lies below another one. */
  lemma KeptIsAntichain(items: Items, root: Id, selected: set<Id>, x: Id, y: Id)
    requires FolderParents(items) && AllBelow(items, root, selected)
    requires x in Kept(items, root, selected) && y in Kept(items, root, selected)
    ensures !StrictlyUnder(ParentsOf(items), x, y)
  {
    if StrictlyUnder(ParentsOf(items), x, y) {
      AncestorIsFolder(items, x, y);
      assert Covers(items, root, selected, x, y);
    }
  }

  /** Above each selection, or at it, there is a kept one. */
  lemma {:induction false} KeptAbove(items: Items, root: Id, selected: set<Id>, x: Id, k: nat) returns (y: Id)
    requires Acyclic(ParentsOf(items)) && AllBelow(items, root, selected) && x in selected
    requires Rooted(ParentsOf(items), x, k)
    ensures y in Kept(items, root, selected) && Under(ParentsOf(items), x, y)
    decreases k
  {
    var ps := ParentsOf(items);
    if IsCovered(items, root, selected, x) {
      var s :| Covers(items, root, selected, x, s);
      var j: nat :| j > 0 && Reaches(ps, x, s, j);
      RootedAbove(ps, x, s, j, k);
      y := KeptAbove(items, root, selected, s, k - j);
      UnderComposes(ps, x, s, y);
    } else {
      y := x;
      UnderSplits(ps, x, x);
    }
  }

  /** Dropping the covered selections loses nothing: the same nodes lie at or below them. */
  lemma KeptHasSameClosure(items: Items, root: Id, selected: set<Id>, x: Id)
    requires Acyclic(ParentsOf(items)) && AllBelow(items, root, selected)
    ensures UnderSome(ParentsOf(items), x, Kept(items, root, selected)) <==> UnderSome(ParentsOf(items), x, selected)
  {
    var ps := ParentsOf(items);
    if UnderSome(ps, x, selected) {
      var s :| s in selected && Under(ps, x, s);
      assert s in ps;
      var k: nat :| Rooted(ps, s, k);
      var y := KeptAbove(items, root, selected, s, k);
      UnderComposes(ps, x, s, y);
    }
  }

  ghost predicate Between(items: Items, root: Id, x: Id, a: Id) {
    StrictlyUnder(ParentsOf(items), x, a) && StrictlyUnder(ParentsOf(items), a, root)
  }

  /** The proper ancestors of a node below the root, from the top down; refused for a node elsewhere. */
  method GetAncestorsWithinRoot(items: Items, x: Id, root: Id) returns (ancestors: Option<seq<Id>>)
    requires Acyclic(ParentsOf(items)) && x in items
    ensures ancestors.Some? <==> StrictlyUnder(ParentsOf(items), x, root)
    ensures ancestors.Some? ==> forall a :: a in ancestors.value <==> Between(items, root, x, a)
  {
    ghost var ps := ParentsOf(items);
    var list: seq<Id> := [];
    var visited := {x};
    var parentId := items[x].parent;
    UnderSplits(ps, x, x);
    forall a ensures StrictlyUnder(ps, x, a) <==> parentId.Some? && Under(ps, parentId.value, a) {
      UnderSplits(ps, x, a);
    }
    if parentId.Some? {
      NextIsAbove(ps, x, x);
    }
    while parentId.Some? && parentId.value != root
      invariant forall a :: StrictlyUnder(ps, x, a) <==> a in list || (parentId.Some? && Under(ps, parentId.value, a))
      invariant root !in list
      invariant parentId.Some? ==> forall a :: a in list ==> StrictlyUnder(ps, a, parentId.value)
      invariant parentId.Some? ==> forall v :: v in visited ==> StrictlyUnder(ps, v, parentId.value)
      decreases items.Keys - visited, parentId.Some?
    {
      var p := parentId.value;
      CursorIsNew(ps, visited, p);
      visited := visited + {p};
      if p !in items {
        UnderSplits(ps, p, root);
        return None;
      }
      forall a ensures Under(ps, p, a) <==> a == p || (Up(ps, p).Some? && Under(ps, Up(ps, p).value, a)) {
        UnderSplits(ps, p, a);
      }
      parentId := items[p].parent;
      if parentId.Some? {
        forall v | StrictlyUnder(ps, v, p) || v == p ensures StrictlyUnder(ps, v, parentId.value) {
          UnderSplits(ps, v, p);
          NextIsAbove(ps, v, p);
        }
      }
      list := [p] + list;
    }
    if parentId.None? {
      return None;
    }
    assert Reaches(ps, root, root, 0);
    forall a ensures a in list <==> Between(items, root, x, a) {
      if Between(items, root, x, a) && a !in list {
        UnderComposes(ps, a, root, a);
        NoCycleAt(ps, a);
      }
    }
    return Some(list);
  }

  // ---------- roles ----------

  datatype Role = Descendant | Navigation | Selected | Root

  function Priority(role: Role): nat {
    match role
    case Descendant => 0
    case Navigation => 1
    case Selected => 2
    case Root => 3
  }

  /** A role is only ever replaced by one of a higher priority. */
  function SetRole(roles: map<Id, Role>, id: Id, role: Role): map<Id, Role> {
    if id !in roles || Priority(role) > Priority(roles[id]) then roles[id := role] else roles
  }

  function Higher(current: Option<Role>, role: Role): Role {
    if current.None? || Priority(role) > Priority(current.value) then role else current.value
  }

  function RoleIn(roles: map<Id, Role>, x: Id): Option<Role> {
    if x in roles then Some(roles[x]) else None
  }

  method SetRoles(roles: map<Id, Role>, ids: seq<Id>, role: Role) returns (r: map<Id, Role>)
    ensures forall x: Id :: RoleIn(r, x) == if x in ids then Some(Higher(RoleIn(roles, x), role)) else RoleIn(roles, x)
  {
    r := roles;
    for i := 0 to |ids|
      invariant forall x: Id :: RoleIn(r, x) == if x in ids[..i] then Some(Higher(RoleIn(roles, x), role)) else RoleIn(roles, x)
    {
      r := SetRole(r, ids[i], role);
    }
    assert ids[..|ids|] == ids;
  }

  /** The role of a node, given the selections that count. */
  ghost function RoleOf(items: Items, root: Id, kept: set<Id>, x: Id): Option<Role> {
    if x == root then Some(Root)
    else if x in kept then Some(Selected)
    else if exists k :: k in kept && Between(items, root, k, x) then Some(Navigation)
    else if exists k :: k in kept && x in StrictlyBelow(items, k) then Some(Descendant)
    else None
  }

  lemma RoleOfOneMore(items: Items, root: Id, kept: set<Id>, k: Id, x: Id)
    ensures RoleOf(items, root, kept + {k}, x) ==
      if x == root then Some(Root)
      else if x == k || RoleOf(items, root, kept, x) == Some(Selected) then Some(Selected)
      else if Between(items, root, k, x) || RoleOf(items, root, kept, x) == Some(Navigation) then Some(Navigation)
      else if x in StrictlyBelow(items, k) then Some(Descendant)
      else RoleOf(items, root, kept, x)
  {
    if Between(items, root, k, x) {
      assert k in kept + {k};
    }
    if x in StrictlyBelow(items, k) {
      assert k in kept + {k};
    }
    if j :| j in kept && Between(items, root, j, x) {
      assert j in kept + {k};
    }
    if j :| j in kept && x in StrictlyBelow(items, j) {
      assert j in kept + {k};
    }
  }

  /** What one kept selection adds to the roles. */
  method AddSelection(tree: LoadedTree, root: Id, roles: map<Id, Role>, ghost kept: set<Id>, k: Id) returns (r: map<Id, Role>)
    requires WellLoaded(tree) && FolderParents(tree.byId) && k in tree.byId && StrictlyUnder(ParentsOf(tree.byId), k, root)
    requires forall x: Id :: RoleIn(roles, x) == RoleOf(tree.byId, root, kept, x)
    ensures forall x: Id :: RoleIn(r, x) == RoleOf(tree.byId, root, kept + {k}, x)
  {
    var items := tree.byId;
    NoCycleAt(ParentsOf(items), root);
    var ancestors := GetAncestorsWithinRoot(items, k, root);
    var upwards := SetRoles(roles, ancestors.value, Navigation);
    var chosen := SetRole(upwards, k, Selected);
    var below: seq<Id> := [];
    if items[k].isFolder {
      below := CollectDescendants(tree, k);
    } else {
      NothingBelowFiles(items, k);
    }
    r := SetRoles(chosen, below, Descendant);
    forall x: Id ensures RoleIn(r, x) == RoleOf(items, root, kept + {k}, x) {
      RoleOfOneMore(items, root, kept, k, x);
      assert RoleIn(upwards, x) == if Between(items, root, k, x) then Some(Higher(RoleIn(roles, x), Navigation)) else RoleIn(roles, x);
      assert RoleIn(chosen, x) == if x == k then Some(Higher(RoleIn(upwards, x), Selected)) else RoleIn(upwards, x);
      assert x in below <==> x in StrictlyBelow(items, k);
    }
  }

  /** The roles of a selection inside a folder. They depend on the set of selections and not on their order. */
  method ResolveSelectedScope(tree: LoadedTree, root: Id, selectedIds: seq<Id>) returns (roles: Option<map<Id, Role>>)
    requires WellLoaded(tree) && FolderParents(tree.byId)
    ensures roles.Some? <==> selectedIds != [] && AllBelow(tree.byId, root, IdsOf(selectedIds))
    ensures roles.Some? ==> forall x: Id ::
      RoleIn(roles.value, x) == RoleOf(tree.byId, root, Kept(tree.byId, root, IdsOf(selectedIds)), x)
  {
    if selectedIds == [] {
      return None;
    }
    var kept := RemoveCoveredSelections(selectedIds, root, tree.byId);
    if kept.None? {
      return None;
    }
    var table: map<Id, Role> := map[root := Root];
    for i := 0 to |kept.value|
      invariant forall x: Id :: RoleIn(table, x) == RoleOf(tree.byId, root, IdsOf(kept.value[..i]), x)
    {
      assert kept.value[i] in kept.value;
      table := AddSelection(tree, root, table, IdsOf(kept.value[..i]), kept.value[i]);
      assert IdsOf(kept.value[..i + 1]) == IdsOf(kept.value[..i]) + {kept.value[i]};
    }
    assert kept.value[..|kept.value|] == kept.value;
    assert IdsOf(kept.value) == Kept(tree.byId, root, IdsOf(selectedIds));
    return Some(table);
  }

  method ResolveEntireFolderScope(tree: LoadedTree, root: Id) returns (roles: map<Id, Role>)
    requires WellLoaded(tree) && FolderParents(tree.byId) && root in tree.byId
    ensures forall x: Id ::
      RoleIn(roles, x) == (if x == root then Some(Root) else if x in StrictlyBelow(tree.byId, root) then Some(Descendant) else None)
  {
    var below := CollectDescendants(tree, root);
    roles := SetRoles(map[root := Root], below, Descendant);
  }

  /** Each node has one role for one reason: the kinds of nodes do not overlap, so priorities never decide. */
  lemma RolesDoNotCompete(items: Items, root: Id, selected: set<Id>, x: Id, j: Id, k: Id)
    requires FolderParents(items) && Acyclic(ParentsOf(items)) && AllBelow(items, root, selected)
    requires j in Kept(items, root, selected) && k in Kept(items, root, selected)
    ensures !(x == j && Between(items, root, k, x)) && !(x == j && x in StrictlyBelow(items, k))
    ensures !(Between(items, root, j, x) && x in StrictlyBelow(items, k))
    ensures x == root ==> x != j && !Between(items, root, j, x) && x !in StrictlyBelow(items, k)
  {
    var ps := ParentsOf(items);
    KeptIsAntichain(items, root, selected, j, k);
    KeptIsAntichain(items, root, selected, k, j);
    NoCycleAt(ps, root);
    UnderSplits(ps, j, x);
    UnderSplits(ps, x, k);
    UnderSplits(ps, k, root);
    if Between(items, root, j, x) && x in StrictlyBelow(items, k) {
      UnderComposes(ps, j, x, k);
    }
    if x == root && x in StrictlyBelow(items, k) {
      UnderComposes(ps, k, root, k);
      NoCycleAt(ps, k);
    }
  }

  /** The nodes with a role hang together: the parent of each of them has one too, up to the root. */
  lemma RolesAreClosed(items: Items, root: Id, selected: set<Id>, x: Id)
    requires AllBelow(items, root, selected) && Acyclic(ParentsOf(items))
    requires x != root && RoleOf(items, root, Kept(items, root, selected), x).Some?
    ensures x in items && items[x].parent.Some?
    ensures RoleOf(items, root, Kept(items, root, selected), items[x].parent.value).Some?
  {
    var ps, kept := ParentsOf(items), Kept(items, root, selected);
    if x in kept {
      UnderSplits(ps, x, x);
      RoleAbove(items, root, kept, x, x);
    } else if k :| k in kept && Between(items, root, k, x) {
      RoleAbove(items, root, kept, k, x);
    } else {
      var k :| k in kept && x in StrictlyBelow(items, k);
      UnderSplits(ps, x, k);
      var p := Up(ps, x).value;
      UnderSplits(ps, p, k);
      if p != k {
        UnderSplits(ps, p, k);
        assert p in StrictlyBelow(items, k);
      }
    }
  }

  lemma RoleAbove(items: Items, root: Id, kept: set<Id>, k: Id, x: Id)
    requires k in kept && Under(ParentsOf(items), k, x) && StrictlyUnder(ParentsOf(items), x, root)
    ensures Up(ParentsOf(items), x).Some? && RoleOf(items, root, kept, Up(ParentsOf(items), x).value).Some?
  {
    var ps := ParentsOf(items);
    UnderSplits(ps, x, root);
    var p := Up(ps, x).value;
    UnderSplits(ps, p, root);
    NextIsAbove(ps, k, x);
    if p != root {
      assert Between(items, root, k, p);
    }
  }

  /** What a selection shares: its kept nodes with all their descendants make up all that lies at or below any selection. */
  lemma SharedIsClosure(items: Items, root: Id, selected: set<Id>, x: Id)
    requires FolderParents(items) && Acyclic(ParentsOf(items)) && AllBelow(items, root, selected) && x in items
    ensures RoleOf(items, root, Kept(items, root, selected), x) in {Some(Selected), Some(Descendant)}
      <==> UnderSome(ParentsOf(items), x, selected)
  {
    var ps, kept := ParentsOf(items), Kept(items, root, selected);
    KeptHasSameClosure(items, root, selected, x);
    if k :| k in kept && Under(ps, x, k) {
      UnderSplits(ps, x, k);
      RolesDoNotCompete(items, root, selected, x, k, k);
      forall j | j in kept ensures !Between(items, root, j, x) {
        RolesDoNotCompete(items, root, selected, x, j, k);
        if x == k {
          RolesDoNotCompete(items, root, selected, x, k, j);
        }
      }
    } else {
      if x in kept {
        UnderSplits(ps, x, x);
      }
      forall k | k in kept ensures x !in StrictlyBelow(items, k) {
        UnderSplits(ps, x, k);
      }
    }
  }

  // ---------- a scope of several items ----------

  /** The requested items that no requested folder has below it. */
  ghost function TopItems(items: Items, requested: set<Id>): set<Id> {
    set x | x in requested && forall c :: c in requested && c in items && items[c].isFolder ==> !StrictlyUnder(ParentsOf(items), x, c)
  }

  method NormalizeRoots(items: Items, requested: seq<Id>) returns (roots: seq<Id>)
    requires Acyclic(ParentsOf(items)) && forall x :: x in requested ==> x in items
    ensures forall x :: x in roots <==> x in TopItems(items, IdsOf(requested))
  {
    roots := [];
    for i := 0 to |requested|
      invariant forall x :: x in roots <==> x in requested[..i] && x in TopItems(items, IdsOf(requested))
    {
      var x := requested[i];
      var covered := false;
      NoCycleAt(ParentsOf(items), x);
      for j := 0 to |requested|
        invariant covered <==> exists c :: c in requested[..j] && items[c].isFolder && StrictlyUnder(ParentsOf(items), x, c)
      {
        var c := requested[j];
        if c != x && items[c].isFolder {
          var below := IsDescendant(items, x, c);
          covered := covered || below;
        }
      }
      assert requested[..|requested|] == requested;
      if !covered {
        roots := roots + [x];
      }
    }
    assert requested[..|requested|] == requested;
  }

  lemma {:induction false} TopAbove(items: Items, requested: set<Id>, x: Id, k: nat) returns (y: Id)
    requires requested <= items.Keys && x in requested && Rooted(ParentsOf(items), x, k)
    ensures y in TopItems(items, requested) && Under(ParentsOf(items), x, y)
    decreases k
  {
    var ps := ParentsOf(items);
    if x in TopItems(items, requested) {
      y := x;
      UnderSplits(ps, x, x);
    } else {
      var c :| c in requested && c in items && items[c].isFolder && StrictlyUnder(ps, x, c);
      var j: nat :| j > 0 && Reaches(ps, x, c, j);
      RootedAbove(ps, x, c, j, k);
      y := TopAbove(items, requested, c, k - j);
      UnderComposes(ps, x, c, y);
    }
  }

  /** The top items share just what the requested ones would, and none of them lies below another. */
  lemma TopItemsSuffice(items: Items, requested: set<Id>, x: Id)
    requires Acyclic(ParentsOf(items)) && FolderParents(items) && requested <= items.Keys
    ensures UnderSome(ParentsOf(items), x, TopItems(items, requested)) <==> UnderSome(ParentsOf(items), x, requested)
    ensures forall a, b :: a in TopItems(items, requested) && b in TopItems(items, requested) ==> !StrictlyUnder(ParentsOf(items), a, b)
  {
    var ps := ParentsOf(items);
    if UnderSome(ps, x, requested) {
      var r :| r in requested && Under(ps, x, r);
      assert r in ps;
      var k: nat :| Rooted(ps, r, k);
      var y := TopAbove(items, requested, r, k);
      UnderComposes(ps, x, r, y);
    }
    forall a, b | a in TopItems(items, requested) && b in TopItems(items, requested) ensures !StrictlyUnder(ps, a, b) {
      if StrictlyUnder(ps, a, b) {
        AncestorIsFolder(items, a, b);
      }
    }
  }

  ghost function ItemRole(items: Items, roots: set<Id>, x: Id): Option<Role> {
    if x in roots then Some(Root)
    else if exists r :: r in roots && x in StrictlyBelow(items, r) then Some(Descendant)
    else None
  }

  method ResolveItemScope(tree: LoadedTree, requested: seq<Id>) returns (roles: map<Id, Role>)
    requires WellLoaded(tree) && FolderParents(tree.byId) && forall x :: x in requested ==> x in tree.byId
    ensures forall x: Id :: RoleIn(roles, x) == ItemRole(tree.byId, TopItems(tree.byId, IdsOf(requested)), x)
  {
    var items := tree.byId;
    var roots := NormalizeRoots(items, requested);
    roles := map[];
    for i := 0 to |roots|
      invariant forall x: Id :: RoleIn(roles, x) == ItemRole(items, IdsOf(roots[..i]), x)
    {
      assert roots[i] in roots;
      roles := AddItem(tree, roles, IdsOf(roots[..i]), roots[i]);
      assert IdsOf(roots[..i + 1]) == IdsOf(roots[..i]) + {roots[i]};
    }
    assert roots[..|roots|] == roots;
    assert IdsOf(roots) == TopItems(items, IdsOf(requested));
  }

  method AddItem(tree: LoadedTree, roles: map<Id, Role>, ghost roots: set<Id>, r: Id) returns (next: map<Id, Role>)
    requires WellLoaded(tree) && FolderParents(tree.byId) && r in tree.byId
    requires forall x: Id :: RoleIn(roles, x) == ItemRole(tree.byId, roots, x)
    ensures forall x: Id :: RoleIn(next, x) == ItemRole(tree.byId, roots + {r}, x)
  {
    var items := tree.byId;
    var chosen := SetRole(roles, r, Root);
    var below: seq<Id> := [];
    if items[r].isFolder {
      below := CollectDescendants(tree, r);
    } else {
      NothingBelowFiles(items, r);
    }
    next := SetRoles(chosen, below, Descendant);
    forall x: Id ensures RoleIn(next, x) == ItemRole(items, roots + {r}, x) {
      assert RoleIn(chosen, x) == if x == r then Some(Root) else RoleIn(roles, x);
      assert x in below <==> x in StrictlyBelow(items, r);
      if x in StrictlyBelow(items, r) {
        assert r in roots + {r};
      }
      if j :| j in roots && x in StrictlyBelow(items, j) {
        assert j in roots + {r};
      }
    }
  }

  // ---------- a folder loaded from the top ----------

  lemma {:induction false} LinksAreParents(drive: Items, scope: Item, roots: set<Id>, x: Id, r: Id, k: nat)
    requires x in Closure(drive, scope, roots) && r in roots && Reaches(Links(drive, scope), x, r, k)
    ensures Reaches(ParentsOf(Restrict(drive, Closure(drive, scope, roots))), x, r, k)
    decreases k
  {
    if k > 0 {
      var p := drive[x].parent.value;
      assert Under(Links(drive, scope), p, r);
      LinksAreParents(drive, scope, roots, p, r, k - 1);
    }
  }

  /** In a tree loaded from one folder all parents are folders: the work list went through folders only. */
  lemma LoadedFolderHasFolderParents(drive: Items, scope: Item, root: Id)
    requires root in drive && Acyclic(ParentsOf(Restrict(drive, Closure(drive, scope, {root}))))
    ensures FolderParents(Restrict(drive, Closure(drive, scope, {root})))
  {
    var found := Restrict(drive, Closure(drive, scope, {root}));
    var ps := ParentsOf(found);
    forall x | x in found && found[x].parent.Some? && found[x].parent.value in found ensures found[found[x].parent.value].isFolder {
      var p := found[x].parent.value;
      if x == root {
        var k: nat :| Reaches(Links(drive, scope), p, root, k);
        LinksAreParents(drive, scope, {root}, p, root, k);
        UnderSplits(ps, root, root);
        NoCycleAt(ps, root);
        assert false;
      } else {
        var k: nat :| Reaches(Links(drive, scope), x, root, k);
        assert k > 0 && x in Links(drive, scope);
      }
    }
  }

  lemma EntireFolderIsFound(drive: Items, root: Id)
    requires root in drive
    ensures var found := Restrict(drive, Closure(drive, drive[root], {root}));
      forall x :: x != root ==> (x in found <==> x in StrictlyBelow(found, root))
  {
    var found := Restrict(drive, Closure(drive, drive[root], {root}));
    forall x | x in found && x != root ensures x in StrictlyBelow(found, root) {
      var k: nat :| Reaches(Links(drive, drive[root]), x, root, k);
      LinksAreParents(drive, drive[root], {root}, x, root, k);
    }
  }

  /** Creating a share on a folder: load, check, and give out the roles. */
  method ResolveFolderCreateScope(drive: Items, root: Id, entire: bool, selectedIds: seq<Id>) returns (roles: Option<map<Id, Role>>)
    requires root in drive && !drive[root].archived
    ensures var found := Restrict(drive, Closure(drive, drive[root], {root}));
      && (roles.Some? <==>
            drive[root].isFolder && Acyclic(ParentsOf(found))
            && (entire || (selectedIds != [] && AllBelow(found, root, IdsOf(selectedIds)))))
      && (roles.Some? && entire ==> forall x: Id ::
            RoleIn(roles.value, x) == (if x == root then Some(Root) else if x in found then Some(Descendant) else None))
      && (roles.Some? && !entire ==> forall x: Id ::
            RoleIn(roles.value, x) == RoleOf(found, root, Kept(found, root, IdsOf(selectedIds)), x))
  {
    if !drive[root].isFolder {
      return None;
    }
    ghost var found := Restrict(drive, Closure(drive, drive[root], {root}));
    assert IdsOf([root]) == {root};
    var tree := LoadActiveTree(drive, [root]);
    if tree.None? {
      return None;
    }
    LoadedFolderHasFolderParents(drive, drive[root], root);
    RootsAreReached(drive, drive[root], {root});
    if entire {
      EntireFolderIsFound(drive, root);
      var table := ResolveEntireFolderScope(tree.value, root);
      return Some(table);
    }
    roles := ResolveSelectedScope(tree.value, root, selectedIds);
  }

  // ---------- access from below ----------

  function ActiveParentsOf(drive: Items): ParentMap {
    map x | x in drive && !drive[x].archived :: drive[x].parent
  }

  /** The root is an active folder of the share's workspace, and the node is of its scope. */
  predicate RootServes(drive: Items, root: Id, workspace: nat, node: Id)
    requires node in drive
  {
    root in drive && !drive[root].archived && drive[root].isFolder && drive[root].workspace == workspace
    && SameScope(drive[node], drive[root])
  }

  ghost predicate ComesTo(drive: Items, root: Id, node: Id)
    requires node in drive
  {
    node == root || (drive[node].parent.Some? && Under(ActiveParentsOf(drive), drive[node].parent.value, root))
  }

  lemma NotAbove(ps: ParentMap, s: set<Id>, root: Id, x: Id)
    requires Closed(ps, s, root, None) && x in s && x != root
    ensures !Under(ps, x, root)
  {
    forall k: nat ensures !Reaches(ps, x, root, k) {
      if k > 0 {
        ClosedAvoids(ps, s, root, x, k);
      }
    }
  }

  /** The climb from the node comes to the root, over rows that exist and are active. */
  method IsWithinDynamicFolder(drive: Items, root: Id, workspace: nat, node: Id) returns (r: bool)
    requires node in drive
    ensures r <==>
      && root in drive && !drive[root].archived && drive[root].isFolder && drive[root].workspace == workspace
      && drive[node].workspace == workspace && drive[node].space == drive[root].space
      && (drive[root].space == PERSONAL ==> drive[node].owner == drive[root].owner)
      && ComesTo(drive, root, node)
  {
    if !RootServes(drive, root, workspace, node) {
      return false;
    }
    if node == root {
      return true;
    }
    ghost var ps := ActiveParentsOf(drive);
    var visited := {node};
    ghost var climbed: set<Id> := {};
    var parentId := drive[node].parent;
    if parentId.Some? {
      UnderSplits(ps, parentId.value, parentId.value);
    }
    while parentId.Some?
      invariant parentId.Some? ==> drive[node].parent.Some?
      invariant Closed(ps, climbed, root, parentId) && root !in climbed
      invariant drive[node].parent.Some? ==> drive[node].parent.value in climbed || parentId == drive[node].parent
      invariant parentId.Some? ==> Under(ps, drive[node].parent.value, parentId.value)
      invariant visited == {node} + climbed && visited <= drive.Keys
      decreases drive.Keys - visited, parentId.Some?
    {
      var p := parentId.value;
      if p == root {
        return true;
      }
      if p in visited {
        NotAbove(ps, climbed + {p}, root, drive[node].parent.value);
        return false;
      }
      if p !in drive || drive[p].archived {
        NotAbove(ps, climbed + {p}, root, drive[node].parent.value);
        return false;
      }
      visited := visited + {p};
      climbed := climbed + {p};
      if drive[p].parent.Some? {
        NextIsAbove(ps, drive[node].parent.value, p);
        UnderSplits(ps, drive[node].parent.value, drive[p].parent.value);
      }
      parentId := drive[p].parent;
    }
    if drive[node].parent.Some? {
      NotAbove(ps, climbed, root, drive[node].parent.value);
    }
    return false;
  }

  /** Each row hangs below a folder of its own scope. */
  predicate HousedByOwner(drive: Items) {
    forall x :: x in drive && drive[x].parent.Some? ==>
      var p := drive[x].parent.value; p in drive && drive[p].isFolder && SameScope(drive[x], drive[p])
  }

  lemma {:induction false} ClimbIsLinked(drive: Items, root: Id, x: Id, k: nat)
    requires HousedByOwner(drive) && root in drive && x in drive && !drive[x].archived && SameScope(drive[x], drive[root])
    requires Reaches(ActiveParentsOf(drive), x, root, k)
    ensures Reaches(Links(drive, drive[root]), x, root, k)
    decreases k
  {
    if k > 0 {
      var p := drive[x].parent.value;
      if k > 1 {
        assert p in ActiveParentsOf(drive);
        ClimbIsLinked(drive, root, p, k - 1);
      } else {
        assert p == root;
      }
      assert x in Links(drive, drive[root]);
    }
  }

  lemma {:induction false} LinkedIsClimb(drive: Items, root: Id, x: Id, k: nat)
    requires root in drive && Reaches(Links(drive, drive[root]), x, root, k)
    ensures Reaches(ActiveParentsOf(drive), x, root, k)
    decreases k
  {
    if k > 0 {
      LinkedIsClimb(drive, root, drive[x].parent.value, k - 1);
    }
  }

  /** Looking up from a node and listing down from the folder agree, when folders and files of one owner keep together. */
  lemma UpwardAgreesWithDownward(drive: Items, root: Id, node: Id)
    requires HousedByOwner(drive) && root in drive && node in drive && !drive[root].archived && drive[root].isFolder && !drive[node].archived
    ensures RootServes(drive, root, drive[root].workspace, node) && ComesTo(drive, root, node)
      <==> node in Closure(drive, drive[root], {root})
  {
    var ps, links := ActiveParentsOf(drive), Links(drive, drive[root]);
    UnderSplits(ps, node, root);
    if SameScope(drive[node], drive[root]) && Under(ps, node, root) {
      var k: nat :| Reaches(ps, node, root, k);
      ClimbIsLinked(drive, root, node, k);
      assert Under(links, node, root);
    }
    if node in Closure(drive, drive[root], {root}) {
      var k: nat :| Reaches(links, node, root, k);
      LinkedIsClimb(drive, root, node, k);
      assert Under(ps, node, root);
      assert k == 0 || node in links;
    }
  }
}
