/**
 The parent-pointer forest that the file tables encode: every row names at most one parent.
 A parent that has no row of its own ends the climb, like a parent of null.
 */
module Forest {
  import opened Options

  type Id = nat
  type ParentMap = map<Id, Option<Id>>

  function Up(ps: ParentMap, x: Id): Option<Id> {
    if x in ps then ps[x] else None
  }

  /** `y` is `k` steps above `x`. */
  predicate Reaches(ps: ParentMap, x: Id, y: Id, k: nat)
    decreases k
  {
    if k == 0 then x == y
    else Up(ps, x).Some? && Reaches(ps, Up(ps, x).value, y, k - 1)
  }

  /** `r` is `x` itself or one of its ancestors. */
  ghost predicate Under(ps: ParentMap, x: Id, r: Id) {
    exists k: nat :: Reaches(ps, x, r, k)
  }

  /** The climb from `x` ends after fewer than `k` steps. */
  predicate Rooted(ps: ParentMap, x: Id, k: nat)
    decreases k
  {
    k > 0 && (Up(ps, x).None? || Rooted(ps, Up(ps, x).value, k - 1))
  }

  ghost predicate RootedSomehow(ps: ParentMap, x: Id) {
    exists k: nat :: Rooted(ps, x, k)
  }

  ghost predicate Acyclic(ps: ParentMap) {
    forall x :: x in ps ==> RootedSomehow(ps, x)
  }

  /** `y` is a proper ancestor of `x`. */
  ghost predicate StrictlyUnder(ps: ParentMap, x: Id, y: Id) {
    exists k: nat :: k > 0 && Reaches(ps, x, y, k)
  }

  ghost predicate OnCycle(ps: ParentMap, x: Id) {
    StrictlyUnder(ps, x, x)
  }

  /** Every parent that is named has a row. */
  predicate NoDangling(ps: ParentMap) {
    forall x :: x in ps && ps[x].Some? ==> ps[x].value in ps
  }

  lemma {:induction false} ReachesCompose(ps: ParentMap, x: Id, y: Id, z: Id, j: nat, k: nat)
    requires Reaches(ps, x, y, j) && Reaches(ps, y, z, k)
    ensures Reaches(ps, x, z, j + k)
    decreases j
  {
    if j > 0 {
      ReachesCompose(ps, Up(ps, x).value, y, z, j - 1, k);
    }
  }

  /** Two climbs from one node meet the same nodes: the longer goes through the end of the shorter. */
  lemma {:induction false} ReachesSplit(ps: ParentMap, x: Id, y: Id, z: Id, j: nat, k: nat)
    requires j <= k && Reaches(ps, x, y, j) && Reaches(ps, x, z, k)
    ensures Reaches(ps, y, z, k - j)
    decreases j
  {
    if j > 0 {
      ReachesSplit(ps, Up(ps, x).value, y, z, j - 1, k - 1);
    }
  }

  lemma {:induction false} RootedMonotone(ps: ParentMap, x: Id, j: nat, k: nat)
    requires j <= k && Rooted(ps, x, j)
    ensures Rooted(ps, x, k)
    decreases j
  {
    if Up(ps, x).Some? {
      RootedMonotone(ps, Up(ps, x).value, j - 1, k - 1);
    }
  }

  /** Whatever lies above a node whose climb ends has a strictly shorter climb. */
  lemma {:induction false} RootedAbove(ps: ParentMap, x: Id, y: Id, j: nat, k: nat)
    requires Rooted(ps, x, k) && Reaches(ps, x, y, j)
    ensures j < k && Rooted(ps, y, k - j)
    decreases j
  {
    if j > 0 {
      RootedAbove(ps, Up(ps, x).value, y, j - 1, k - 1);
    }
  }

  lemma {:induction false} RootedHasNoCycle(ps: ParentMap, x: Id, j: nat, k: nat)
    requires Rooted(ps, x, k) && Reaches(ps, x, x, j)
    ensures j == 0
    decreases k
  {
    RootedAbove(ps, x, x, j, k);
    if j > 0 {
      RootedHasNoCycle(ps, x, j, k - j);
    }
  }

  /** Climbing with a set of visited nodes, as the code does, ends when there is no cycle. */
  lemma ClimbEnds(ps: ParentMap, x: Id, visited: set<Id>) returns (k: nat)
    requires forall y :: !OnCycle(ps, y)
    requires forall v :: v in visited ==> v in ps && StrictlyUnder(ps, v, x)
    ensures Rooted(ps, x, k)
    decreases ps.Keys - visited
  {
    assert !OnCycle(ps, x);
    if Up(ps, x).None? {
      k := 1;
    } else {
      var y := Up(ps, x).value;
      var next := visited + {x};
      forall v | v in next ensures v in ps && StrictlyUnder(ps, v, y) {
        if v == x {
          assert Reaches(ps, y, y, 0);
          assert Reaches(ps, x, y, 1);
        } else {
          var j: nat :| j > 0 && Reaches(ps, v, x, j);
          assert Reaches(ps, y, y, 0);
          ReachesCompose(ps, v, x, y, j, 1);
        }
      }
      var rest := ClimbEnds(ps, y, next);
      k := rest + 1;
    }
  }

  /** The two readings of "acyclic" agree: every climb ends exactly when no node is its own ancestor. */
  lemma AcyclicIffNoCycle(ps: ParentMap)
    ensures Acyclic(ps) <==> forall x :: !OnCycle(ps, x)
  {
    if Acyclic(ps) {
      forall x ensures !OnCycle(ps, x) {
        if OnCycle(ps, x) {
          var j: nat :| j > 0 && Reaches(ps, x, x, j);
          assert x in ps;
          var k: nat :| Rooted(ps, x, k);
          RootedHasNoCycle(ps, x, j, k);
        }
      }
    }
    if forall x :: !OnCycle(ps, x) {
      forall x | x in ps ensures RootedSomehow(ps, x) {
        var k := ClimbEnds(ps, x, {});
      }
    }
  }

  /** The climb from `x` ends without meeting `n`. */
  predicate RootedAvoiding(ps: ParentMap, x: Id, n: Id, k: nat)
    decreases k
  {
    k > 0 && x != n && (Up(ps, x).None? || RootedAvoiding(ps, Up(ps, x).value, n, k - 1))
  }

  lemma {:induction false} AvoidingSurvives(ps: ParentMap, x: Id, n: Id, p: Option<Id>, k: nat)
    requires RootedAvoiding(ps, x, n, k)
    ensures Rooted(ps[n := p], x, k)
    decreases k
  {
    if Up(ps, x).Some? {
      AvoidingSurvives(ps, Up(ps, x).value, n, p, k - 1);
    }
  }

  lemma {:induction false} RootedAfterReattach(ps: ParentMap, n: Id, p: Option<Id>, above: nat, x: Id, k: nat)
    requires Rooted(ps, x, k)
    requires p.Some? ==> Rooted(ps[n := p], p.value, above)
    ensures RootedSomehow(ps[n := p], x)
    decreases k
  {
    var after := ps[n := p];
    if x == n {
      assert Rooted(after, x, if p.Some? then above + 1 else 1);
    } else if Up(ps, x).None? {
      assert Rooted(after, x, 1);
    } else {
      var y := Up(ps, x).value;
      RootedAfterReattach(ps, n, p, above, y, k - 1);
      var j: nat :| Rooted(after, y, j);
      assert Rooted(after, x, j + 1);
    }
  }

  /**
   Hanging `n` (old or new) below `p` keeps the forest acyclic when the climb from `p` ends and
   avoids `n`. This is what a move, a creation and a restoration check before they write.
   */
  lemma ReattachKeepsAcyclic(ps: ParentMap, n: Id, p: Option<Id>, k: nat)
    requires Acyclic(ps)
    requires p.Some? ==> RootedAvoiding(ps, p.value, n, k)
    ensures Acyclic(ps[n := p])
  {
    if p.Some? {
      AvoidingSurvives(ps, p.value, n, p, k);
    }
    var after := ps[n := p];
    forall x | x in after ensures RootedSomehow(after, x) {
      if x in ps {
        var j: nat :| Rooted(ps, x, j);
        RootedAfterReattach(ps, n, p, k, x, j);
      } else {
        assert x == n;
        assert Rooted(after, x, if p.Some? then k + 1 else 1);
      }
    }
  }

  lemma {:induction false} RootedAfterRemoval(ps: ParentMap, gone: set<Id>, x: Id, k: nat)
    requires Rooted(ps, x, k)
    ensures RootedSomehow(ps - gone, x)
    decreases k
  {
    var after := ps - gone;
    if x in gone || Up(ps, x).None? {
      assert Rooted(after, x, 1);
    } else {
      RootedAfterRemoval(ps, gone, Up(ps, x).value, k - 1);
      var j: nat :| Rooted(after, Up(ps, x).value, j);
      assert Rooted(after, x, j + 1);
    }
  }

  lemma RemovalKeepsAcyclic(ps: ParentMap, gone: set<Id>)
    requires Acyclic(ps)
    ensures Acyclic(ps - gone)
  {
    var after := ps - gone;
    forall x | x in after ensures RootedSomehow(after, x) {
      var k: nat :| Rooted(ps, x, k);
      RootedAfterRemoval(ps, gone, x, k);
    }
  }

  // ---------- a climb written down ----------

  /** Each node of `path` is followed by its parent; the last one's parent is `cursor`. */
  predicate IsChain(ps: ParentMap, path: seq<Id>, cursor: Option<Id>) {
    && (forall i :: 0 <= i < |path| ==> path[i] in ps)
    && (forall i :: 0 <= i < |path| - 1 ==> ps[path[i]] == Some(path[i + 1]))
    && (|path| > 0 ==> ps[path[|path| - 1]] == cursor)
  }

  lemma {:induction false} ChainReaches(ps: ParentMap, path: seq<Id>, cursor: Option<Id>, k: nat)
    requires IsChain(ps, path, cursor) && |path| > 0 && k <= |path|
    requires k == |path| ==> cursor.Some?
    ensures Reaches(ps, path[0], if k < |path| then path[k] else cursor.value, k)
  {
    if k > 0 {
      ChainReaches(ps, path, cursor, k - 1);
      var y := if k < |path| then path[k] else cursor.value;
      assert Reaches(ps, y, y, 0);
      assert Reaches(ps, path[k - 1], y, 1);
      ReachesCompose(ps, path[0], path[k - 1], y, k - 1, 1);
    }
  }

  /** A chain that has come to the top holds everything above its first node. */
  lemma ChainIsAll(ps: ParentMap, path: seq<Id>, r: Id, k: nat)
    requires IsChain(ps, path, None) && |path| > 0 && Reaches(ps, path[0], r, k)
    ensures k < |path| && path[k] == r
  {
    if k < |path| {
      ChainReaches(ps, path, None, k);
      ReachesSplit(ps, path[0], path[k], r, k, k);
    } else {
      ChainReaches(ps, path, None, |path| - 1);
      ReachesSplit(ps, path[0], path[|path| - 1], r, |path| - 1, k);
      assert false;
    }
  }

  lemma {:induction false} ChainRooted(ps: ParentMap, path: seq<Id>, i: nat)
    requires IsChain(ps, path, None) && i < |path|
    ensures Rooted(ps, path[i], |path| - i)
    decreases |path| - i
  {
    if i < |path| - 1 {
      ChainRooted(ps, path, i + 1);
    }
  }

  /** A climb that meets a node again never ends. */
  lemma RevisitMeansCycle(ps: ParentMap, path: seq<Id>, cursor: Id)
    requires IsChain(ps, path, Some(cursor)) && cursor in path
    ensures !RootedSomehow(ps, path[0])
  {
    var i :| 0 <= i < |path| && path[i] == cursor;
    ChainReaches(ps, path, Some(cursor), i);
    ChainReaches(ps, path, Some(cursor), |path|);
    ReachesSplit(ps, path[0], cursor, cursor, i, |path|);
    if RootedSomehow(ps, path[0]) {
      var k: nat :| Rooted(ps, path[0], k);
      RootedAbove(ps, path[0], cursor, i, k);
      RootedHasNoCycle(ps, cursor, |path| - i, k - i);
      assert false;
    }
  }

  // ---------- sets of nodes as lists ----------

  ghost predicate ListsOnce(rows: seq<Id>, ids: set<Id>) {
    && (forall x :: x in rows <==> x in ids)
    && (forall i, j :: 0 <= i < j < |rows| ==> rows[i] != rows[j])
  }

  lemma ListsBoth(a: seq<Id>, b: seq<Id>, s: set<Id>, t: set<Id>)
    requires ListsOnce(a, s) && ListsOnce(b, t) && s !! t
    ensures ListsOnce(a + b, s + t)
  {
    forall i, j | 0 <= i < j < |a + b| ensures (a + b)[i] != (a + b)[j] {
      if i < |a| <= j {
        assert a[i] in s && b[j - |a|] in t;
      } else if i < |a| {
        assert (a + b)[i] == a[i] && (a + b)[j] == a[j];
      } else {
        assert (a + b)[i] == b[i - |a|] && (a + b)[j] == b[j - |a|];
      }
    }
  }

  /** Any order of a set of rows. */
  method ListRows(ids: set<Id>) returns (rows: seq<Id>)
    ensures ListsOnce(rows, ids)
  {
    rows := [];
    var left := ids;
    while left != {}
      invariant left <= ids && ListsOnce(rows, ids - left)
      decreases left
    {
      var x :| x in left;
      left := left - {x};
      rows := rows + [x];
    }
  }
}
