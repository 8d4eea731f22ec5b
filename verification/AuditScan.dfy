/**
 The listing of audit events: batch after batch, each starting behind the last row of the one before. Texts stand
 for themselves by their rank in the order of the database.
 */
module AuditScan {
  import opened Options

  datatype Row = Row(id: nat, createdAt: int, action: int, actor: int, failed: bool)

  datatype SortField = CreatedAt | Action | Actor

  datatype Order = Order(field: SortField, ascending: bool)

  function SortValue(field: SortField, r: Row): int {
    match field
    case CreatedAt => r.createdAt
    case Action => r.action
    case Actor => r.actor
  }

  /** The order of the listing: the chosen column, and then the newest first; `createdAt` itself breaks ties in its own direction. */
  predicate Before(o: Order, a: Row, b: Row) {
    var u, v := SortValue(o.field, a), SortValue(o.field, b);
    if u != v then (u < v) == o.ascending
    else if o.field == CreatedAt then (if o.ascending then a.id < b.id else a.id > b.id)
    else if a.createdAt != b.createdAt then a.createdAt > b.createdAt
    else a.id > b.id
  }

  /** The condition that selects the rows behind the cursor. */
  predicate KeysetAfter(o: Order, cursor: Row, r: Row) {
    if o.field == CreatedAt then
      if o.ascending then r.createdAt > cursor.createdAt || (r.createdAt == cursor.createdAt && r.id > cursor.id)
      else r.createdAt < cursor.createdAt || (r.createdAt == cursor.createdAt && r.id < cursor.id)
    else
      var value, here := SortValue(o.field, cursor), SortValue(o.field, r);
      || (if o.ascending then here > value else here < value)
      || (here == value && r.createdAt < cursor.createdAt)
      || (here == value && r.createdAt == cursor.createdAt && r.id < cursor.id)
  }

  /** For every column and direction the condition selects just what comes later in the order. */
  lemma KeysetIsOrder(o: Order, cursor: Row, r: Row)
    ensures KeysetAfter(o, cursor, r) <==> Before(o, cursor, r)
  {
  }

  lemma OrderIsTotal(o: Order, a: Row, b: Row, c: Row)
    ensures !Before(o, a, a)
    ensures Before(o, a, b) && Before(o, b, c) ==> Before(o, a, c)
    ensures a.id != b.id ==> Before(o, a, b) || Before(o, b, a)
  {
  }

  // ---------- filter and sort ----------

  function Filter(p: Row -> bool, s: seq<Row>): (r: seq<Row>)
    ensures |r| <= |s|
  {
    if s == [] then [] else if p(s[0]) then [s[0]] + Filter(p, s[1..]) else Filter(p, s[1..])
  }

  function Insert(o: Order, x: Row, s: seq<Row>): (r: seq<Row>)
    ensures |r| == |s| + 1
  {
    if s == [] || Before(o, x, s[0]) then [x] + s else [s[0]] + Insert(o, x, s[1..])
  }

  function Sort(o: Order, s: seq<Row>): (r: seq<Row>)
    ensures |r| == |s|
  {
    if s == [] then [] else Insert(o, s[0], Sort(o, s[1..]))
  }

  lemma {:induction false} FilterKeepsMembers(p: Row -> bool, s: seq<Row>)
    ensures forall x :: x in Filter(p, s) <==> x in s && p(x)
  {
    if s != [] {
      FilterKeepsMembers(p, s[1..]);
      assert s == [s[0]] + s[1..];
    }
  }

  lemma {:induction false} InsertAddsMember(o: Order, x: Row, s: seq<Row>)
    ensures forall y :: y in Insert(o, x, s) <==> y == x || y in s
  {
    if s != [] {
      InsertAddsMember(o, x, s[1..]);
      assert s == [s[0]] + s[1..];
    }
  }

  /** Sorting loses nothing and adds nothing. */
  lemma {:induction false} SortKeepsMembers(o: Order, s: seq<Row>)
    ensures forall y :: y in Sort(o, s) <==> y in s
  {
    if s != [] {
      SortKeepsMembers(o, s[1..]);
      InsertAddsMember(o, s[0], Sort(o, s[1..]));
      assert s == [s[0]] + s[1..];
    }
  }

  predicate Sorted(o: Order, s: seq<Row>) {
    forall i, j :: 0 <= i < j < |s| ==> Before(o, s[i], s[j])
  }

  predicate UniqueIds(s: seq<Row>) {
    forall i, j :: 0 <= i < j < |s| ==> s[i].id != s[j].id
  }

  lemma {:induction false} InsertSorts(o: Order, x: Row, s: seq<Row>)
    requires Sorted(o, s) && forall y :: y in s ==> y.id != x.id
    ensures Sorted(o, Insert(o, x, s))
  {
    if s != [] {
      var rest := s[1..];
      if Before(o, x, s[0]) {
        forall j | 0 <= j < |s| ensures Before(o, x, s[j]) {
          OrderIsTotal(o, x, s[0], s[j]);
        }
      } else {
        InsertSorts(o, x, rest);
        InsertAddsMember(o, x, rest);
        OrderIsTotal(o, x, s[0], x);
        forall y | y in Insert(o, x, rest) ensures Before(o, s[0], y) {
          assert y == x || y in rest;
        }
      }
    }
  }

  lemma {:induction false} SortSorts(o: Order, s: seq<Row>)
    requires UniqueIds(s)
    ensures Sorted(o, Sort(o, s))
  {
    if s != [] {
      SortSorts(o, s[1..]);
      SortKeepsMembers(o, s[1..]);
      forall y | y in Sort(o, s[1..]) ensures y.id != s[0].id {
        var j :| 0 <= j < |s[1..]| && s[1..][j] == y;
        assert s[j + 1] == y;
      }
      InsertSorts(o, s[0], Sort(o, s[1..]));
    }
  }

  lemma InsertInFront(o: Order, x: Row, s: seq<Row>)
    requires forall y :: y in s ==> Before(o, x, y)
    ensures Insert(o, x, s) == [x] + s
  {
  }

  lemma {:induction false} FilterAfterInsert(o: Order, p: Row -> bool, x: Row, s: seq<Row>)
    requires Sorted(o, s)
    ensures Filter(p, Insert(o, x, s)) == if p(x) then Insert(o, x, Filter(p, s)) else Filter(p, s)
  {
    if s == [] {
    } else if Before(o, x, s[0]) {
      assert ([x] + s)[1..] == s;
      forall y | y in s ensures Before(o, x, y) {
        var j :| 0 <= j < |s| && s[j] == y;
        OrderIsTotal(o, x, s[0], y);
      }
      if p(x) {
        FilterKeepsMembers(p, s);
        InsertInFront(o, x, Filter(p, s));
      }
    } else {
      FilterAfterInsert(o, p, x, s[1..]);
      assert ([s[0]] + Insert(o, x, s[1..]))[1..] == Insert(o, x, s[1..]);
      if p(s[0]) {
        assert ([s[0]] + Filter(p, s[1..]))[1..] == Filter(p, s[1..]);
      }
    }
  }

  /** Filtering before sorting or after it comes to the same. */
  lemma {:induction false} FilterCommutesWithSort(o: Order, p: Row -> bool, s: seq<Row>)
    requires UniqueIds(s)
    ensures Filter(p, Sort(o, s)) == Sort(o, Filter(p, s))
  {
    if s != [] {
      SortSorts(o, s[1..]);
      FilterCommutesWithSort(o, p, s[1..]);
      FilterAfterInsert(o, p, s[0], Sort(o, s[1..]));
      if p(s[0]) {
        assert ([s[0]] + Filter(p, s[1..]))[1..] == Filter(p, s[1..]);
      }
    }
  }

  function Both(p: Row -> bool, q: Row -> bool): Row -> bool {
    r => p(r) && q(r)
  }

  lemma {:induction false} FilterTwice(p: Row -> bool, q: Row -> bool, s: seq<Row>)
    ensures Filter(Both(p, q), s) == Filter(q, Filter(p, s))
  {
    if s != [] {
      FilterTwice(p, q, s[1..]);
      if p(s[0]) {
        assert ([s[0]] + Filter(p, s[1..]))[1..] == Filter(p, s[1..]);
      }
    }
  }

  lemma {:induction false} FilterJoins(p: Row -> bool, a: seq<Row>, b: seq<Row>)
    ensures Filter(p, a + b) == Filter(p, a) + Filter(p, b)
  {
    if a == [] {
      assert a + b == b;
    } else {
      assert (a + b)[1..] == a[1..] + b;
      FilterJoins(p, a[1..], b);
    }
  }

  function Behind(o: Order, cursor: Option<Row>): Row -> bool {
    r => cursor.None? || KeysetAfter(o, cursor.value, r)
  }

  lemma NotBehind(o: Order, s: seq<Row>, k: nat, i: nat)
    requires Sorted(o, s) && i < k <= |s|
    ensures !KeysetAfter(o, s[k - 1], s[i])
  {
    KeysetIsOrder(o, s[k - 1], s[i]);
    OrderIsTotal(o, s[i], s[k - 1], s[i]);
  }

  function CursorAt(s: seq<Row>, k: nat): Option<Row>
    requires k <= |s|
  {
    if k == 0 then None else Some(s[k - 1])
  }

  /** Behind the row at `k - 1` of a sorted list comes the list from `k` on. */
  lemma BehindIsRest(o: Order, s: seq<Row>, k: nat)
    requires Sorted(o, s) && k <= |s|
    ensures Filter(Behind(o, CursorAt(s, k)), s) == s[k..]
  {
    var p := Behind(o, CursorAt(s, k));
    if k == 0 {
      SplitByIndex(p, s, 0);
    } else {
      forall i | 0 <= i < k ensures !p(s[i]) {
        NotBehind(o, s, k, i);
      }
      forall i | k <= i < |s| ensures p(s[i]) {
        KeysetIsOrder(o, s[k - 1], s[i]);
      }
      SplitByIndex(p, s, k);
    }
  }

  lemma {:induction false} SplitByIndex(p: Row -> bool, s: seq<Row>, k: nat)
    requires k <= |s|
    requires forall i :: 0 <= i < k ==> !p(s[i])
    requires forall i :: k <= i < |s| ==> p(s[i])
    ensures Filter(p, s) == s[k..]
    decreases |s|
  {
    if s != [] {
      var rest := s[1..];
      assert forall i :: 0 <= i < |rest| ==> rest[i] == s[i + 1];
      SplitByIndex(p, rest, if k > 0 then k - 1 else 0);
    }
  }

  // ---------- the scan ----------

  function FirstOf(s: seq<Row>, n: nat): seq<Row> {
    if |s| <= n then s else s[..n]
  }

  /** What the database returns: the first rows in order that meet the condition. */
  function Query(table: seq<Row>, condition: Row -> bool, o: Order, take: nat): seq<Row> {
    FirstOf(Sort(o, Filter(condition, table)), take)
  }

  function Slice(s: seq<Row>, offset: nat, limit: nat): seq<Row> {
    if offset >= |s| then [] else FirstOf(s[offset..], limit)
  }

  function HasFailed(): Row -> bool {
    (r: Row) => r.failed
  }

  function Failures(s: seq<Row>): nat {
    |Filter(HasFailed(), s)|
  }

  function ActorsOf(s: seq<Row>): set<int> {
    set r | r in s :: r.actor
  }

  function ActionsOf(s: seq<Row>): set<int> {
    set r | r in s :: r.action
  }

  datatype Page = Page(items: seq<Row>, total: nat, success: nat, failed: nat, actors: set<int>, actions: set<int>)

  /** The page as one would define it: filter, sort, and cut. */
  function SimplePage(events: seq<Row>, offset: nat, limit: nat): Page {
    Page(Slice(events, offset, limit), |events|, |events| - Failures(events), Failures(events),
         ActorsOf(events), ActionsOf(events))
  }

  function Listing(table: seq<Row>, condition: Row -> bool, matches: Row -> bool, o: Order): seq<Row> {
    Filter(matches, Sort(o, Filter(condition, table)))
  }

  /** One event more on the page. */
  function WithEvent(page: Page, r: Row, offset: nat, limit: nat): Page {
    Page(if page.total >= offset && |page.items| < limit then page.items + [r] else page.items,
         page.total + 1,
         if r.failed then page.success else page.success + 1,
         if r.failed then page.failed + 1 else page.failed,
         page.actors + {r.actor}, page.actions + {r.action})
  }

  lemma SliceAppends(s: seq<Row>, r: Row, offset: nat, limit: nat)
    ensures Slice(s + [r], offset, limit)
      == if |s| >= offset && |Slice(s, offset, limit)| < limit then Slice(s, offset, limit) + [r] else Slice(s, offset, limit)
  {
    var more := s + [r];
    if offset <= |s| {
      assert more[offset..] == s[offset..] + [r];
      if |s| - offset >= limit {
        assert more[offset..][..limit] == s[offset..][..limit];
      }
    }
  }

  lemma FacetsAppend(s: seq<Row>, r: Row)
    ensures ActorsOf(s + [r]) == ActorsOf(s) + {r.actor} && ActionsOf(s + [r]) == ActionsOf(s) + {r.action}
  {
    assert forall x :: x in s + [r] <==> x in s || x == r;
  }

  lemma OneMoreEvent(events: seq<Row>, r: Row, offset: nat, limit: nat)
    ensures SimplePage(events + [r], offset, limit) == WithEvent(SimplePage(events, offset, limit), r, offset, limit)
  {
    FilterJoins(HasFailed(), events, [r]);
    SliceAppends(events, r, offset, limit);
    FacetsAppend(events, r);
  }

  /** The rows behind the cursor, straight from the table. */
  lemma QueryIsNextBatch(table: seq<Row>, condition: Row -> bool, o: Order, k: nat, cursor: Option<Row>, batch: nat)
    requires UniqueIds(table)
    requires var s := Sort(o, Filter(condition, table)); k <= |s| && cursor == CursorAt(s, k)
    ensures var s := Sort(o, Filter(condition, table));
      Query(table, Both(condition, Behind(o, cursor)), o, batch) == FirstOf(s[k..], batch)
  {
    var behind := Behind(o, cursor);
    FilterTwice(condition, behind, table);
    FilterKeepsIds(condition, table);
    FilterCommutesWithSort(o, behind, Filter(condition, table));
    SortSorts(o, Filter(condition, table));
    BehindIsRest(o, Sort(o, Filter(condition, table)), k);
  }

  lemma {:induction false} FilterKeepsIds(p: Row -> bool, s: seq<Row>)
    requires UniqueIds(s)
    ensures UniqueIds(Filter(p, s))
  {
    if s != [] {
      FilterKeepsIds(p, s[1..]);
      FilterKeepsMembers(p, s[1..]);
      forall y | y in Filter(p, s[1..]) ensures y.id != s[0].id {
        var j :| 0 <= j < |s[1..]| && s[1..][j] == y;
        assert s[j + 1] == y;
      }
    }
  }

  lemma OneMoreRow(matches: Row -> bool, seen: seq<Row>, r: Row, offset: nat, limit: nat)
    ensures var page := SimplePage(Filter(matches, seen), offset, limit);
      SimplePage(Filter(matches, seen + [r]), offset, limit) == if matches(r) then WithEvent(page, r, offset, limit) else page
  {
    FilterJoins(matches, seen, [r]);
    assert Filter(matches, [r]) == if matches(r) then [r] else [];
    OneMoreEvent(Filter(matches, seen), r, offset, limit);
    assert Filter(matches, seen) + [] == Filter(matches, seen);
  }

  method AddBatch(page: Page, rows: seq<Row>, matches: Row -> bool, ghost before: seq<Row>, offset: nat, limit: nat) returns (next: Page)
    requires page == SimplePage(Filter(matches, before), offset, limit)
    ensures next == SimplePage(Filter(matches, before + rows), offset, limit)
  {
    next := page;
    assert before + rows[..0] == before;
    for i := 0 to |rows|
      invariant next == SimplePage(Filter(matches, before + rows[..i]), offset, limit)
    {
      OneMoreRow(matches, before + rows[..i], rows[i], offset, limit);
      assert before + rows[..i + 1] == before + rows[..i] + [rows[i]];
      if matches(rows[i]) {
        next := WithEvent(next, rows[i], offset, limit);
      }
    }
    assert rows[..|rows|] == rows;
  }

  method NextBatch(table: seq<Row>, condition: Row -> bool, o: Order, cursor: Option<Row>, batch: nat, ghost k: nat) returns (rows: seq<Row>)
    requires UniqueIds(table)
    requires var s := Sort(o, Filter(condition, table)); k <= |s| && cursor == CursorAt(s, k)
    ensures rows == FirstOf(Sort(o, Filter(condition, table))[k..], batch)
  {
    QueryIsNextBatch(table, condition, o, k, cursor, batch);
    rows := Query(table, Both(condition, Behind(o, cursor)), o, batch);
  }

  lemma BatchAdvances(s: seq<Row>, k: nat, batch: nat)
    requires k <= |s| && batch > 0
    ensures var rows := FirstOf(s[k..], batch);
      && k + |rows| <= |s| && s[..k] + rows == s[..k + |rows|]
      && (|rows| < batch ==> s[..k + |rows|] == s)
      && (|rows| == batch ==> CursorAt(s, k + |rows|) == Some(rows[|rows| - 1]))
  {
  }

  // ---------- what is on a page ----------

  /** Which of two events comes first, column by column and direction by direction. */
  predicate Precedes(o: Order, a: Row, b: Row) {
    match o
    case Order(CreatedAt, true) => a.createdAt < b.createdAt || (a.createdAt == b.createdAt && a.id < b.id)
    case Order(CreatedAt, false) => a.createdAt > b.createdAt || (a.createdAt == b.createdAt && a.id > b.id)
    case Order(Action, true) => a.action < b.action || (a.action == b.action && IsNewer(a, b))
    case Order(Action, false) => a.action > b.action || (a.action == b.action && IsNewer(a, b))
    case Order(Actor, true) => a.actor < b.actor || (a.actor == b.actor && IsNewer(a, b))
    case Order(Actor, false) => a.actor > b.actor || (a.actor == b.actor && IsNewer(a, b))
  }

  predicate IsNewer(a: Row, b: Row) {
    a.createdAt > b.createdAt || (a.createdAt == b.createdAt && a.id > b.id)
  }

  /** `events` are the rows of the table that meet both conditions, each once and in order. */
  predicate ListsMatches(events: seq<Row>, table: seq<Row>, condition: Row -> bool, matches: Row -> bool, o: Order) {
    && (forall r :: r in events ==> r in table && condition(r) && matches(r))
    && (forall r :: r in table && condition(r) && matches(r) ==> r in events)
    && (forall i, j :: 0 <= i < j < |events| ==> Precedes(o, events[i], events[j]))
  }

  /** From the offset on, as many as the limit allows, and the counts and facets of all. */
  predicate ShowsEvents(page: Page, events: seq<Row>, offset: int, limit: int) {
    && |page.items| == (if |events| <= offset then 0 else if |events| - offset < limit then |events| - offset else limit)
    && (forall i :: 0 <= i < |page.items| ==> 0 <= offset + i < |events| && page.items[i] == events[offset + i])
    && page.total == |events|
    && page.failed == |WithResult(events, true)| && page.success == |WithResult(events, false)|
    && (forall a :: a in page.actors ==> exists r :: r in events && r.actor == a) && (forall r :: r in events ==> r.actor in page.actors)
    && (forall a :: a in page.actions ==> exists r :: r in events && r.action == a) && (forall r :: r in events ==> r.action in page.actions)
  }

  lemma ListingListsMatches(table: seq<Row>, condition: Row -> bool, matches: Row -> bool, o: Order)
    requires UniqueIds(table)
    ensures ListsMatches(Listing(table, condition, matches, o), table, condition, matches, o)
  {
    var chosen := Filter(condition, table);
    FilterKeepsMembers(condition, table);
    FilterKeepsUnique(condition, table);
    SortKeepsMembers(o, chosen);
    SortSorts(o, chosen);
    FilterKeepsMembers(matches, Sort(o, chosen));
    FilterKeepsSorted(o, matches, Sort(o, chosen));
  }

  lemma {:induction false} FilterKeepsUnique(p: Row -> bool, s: seq<Row>)
    requires UniqueIds(s)
    ensures UniqueIds(Filter(p, s))
  {
    if s != [] {
      FilterKeepsUnique(p, s[1..]);
      FilterKeepsMembers(p, s[1..]);
      forall r | r in Filter(p, s[1..]) ensures r.id != s[0].id {
        var j :| 0 <= j < |s[1..]| && s[1..][j] == r;
        assert s[j + 1] == r;
      }
    }
  }

  lemma {:induction false} FilterKeepsSorted(o: Order, p: Row -> bool, s: seq<Row>)
    requires Sorted(o, s)
    ensures Sorted(o, Filter(p, s))
  {
    if s != [] {
      FilterKeepsSorted(o, p, s[1..]);
      FilterKeepsMembers(p, s[1..]);
      forall r | r in Filter(p, s[1..]) ensures Before(o, s[0], r) {
        var j :| 0 <= j < |s[1..]| && s[1..][j] == r;
        assert s[j + 1] == r;
      }
    }
  }

  lemma ListingIsSorted(table: seq<Row>, condition: Row -> bool, matches: Row -> bool, o: Order)
    requires UniqueIds(table)
    ensures Sorted(o, Listing(table, condition, matches, o))
  {
    FilterKeepsUnique(condition, table);
    SortSorts(o, Filter(condition, table));
    FilterKeepsSorted(o, matches, Sort(o, Filter(condition, table)));
  }

  /** The rows with that result. */
  function WithResult(s: seq<Row>, failed: bool): set<Row> {
    set r | r in s && r.failed == failed
  }

  lemma OneMoreResult(x: Row, s: seq<Row>, failed: bool)
    ensures WithResult([x] + s, failed) == WithResult(s, failed) + if x.failed == failed then {x} else {}
  {
    assert forall r :: r in [x] + s <==> r == x || r in s;
  }

  lemma {:induction false} CountsAre(s: seq<Row>)
    requires forall i, j :: 0 <= i < j < |s| ==> s[i] != s[j]
    ensures Failures(s) == |WithResult(s, true)| && |s| - Failures(s) == |WithResult(s, false)|
  {
    if s != [] {
      CountsAre(s[1..]);
      assert s == [s[0]] + s[1..];
      assert s[0] !in s[1..];
      OneMoreResult(s[0], s[1..], true);
      OneMoreResult(s[0], s[1..], false);
    }
  }

  lemma SimplePageShows(o: Order, events: seq<Row>, offset: nat, limit: nat)
    requires Sorted(o, events)
    ensures ShowsEvents(SimplePage(events, offset, limit), events, offset, limit)
  {
    forall i, j | 0 <= i < j < |events| ensures events[i] != events[j] {
      OrderIsTotal(o, events[i], events[j], events[i]);
    }
    CountsAre(events);
  }

  function ClampLimit(limit: Option<int>): (r: nat)
    ensures 1 <= r <= 500
  {
    if limit.None? then 100 else if limit.value < 1 then 1 else if limit.value > 500 then 500 else limit.value
  }

  function ClampOffset(offset: Option<int>): nat {
    if offset.None? || offset.value < 0 then 0 else offset.value
  }

  /**
   The scan ends for every batch size, meets each row once and in order, and its page is the one that
   filtering, sorting and cutting the whole table gives.
   */
  method ListEvents(table: seq<Row>, condition: Row -> bool, matches: Row -> bool, o: Order,
                    askedOffset: Option<int>, askedLimit: Option<int>, batch: nat)
    returns (page: Page, ghost events: seq<Row>)
    requires UniqueIds(table) && batch > 0
    ensures page == SimplePage(Listing(table, condition, matches, o), ClampOffset(askedOffset), ClampLimit(askedLimit))
    ensures ListsMatches(events, table, condition, matches, o)
    ensures ShowsEvents(page, events,
      if askedOffset.Some? && askedOffset.value > 0 then askedOffset.value else 0,
      if askedLimit.None? then 100 else if askedLimit.value < 1 then 1 else if askedLimit.value > 500 then 500 else askedLimit.value)
  {
    var offset, limit := ClampOffset(askedOffset), ClampLimit(askedLimit);
    events := Listing(table, condition, matches, o);
    ListingListsMatches(table, condition, matches, o);
    ListingIsSorted(table, condition, matches, o);
    SimplePageShows(o, events, offset, limit);
    page := Scan(table, condition, matches, o, offset, limit, batch);
  }

  /** The scan itself. */
  method Scan(table: seq<Row>, condition: Row -> bool, matches: Row -> bool, o: Order, offset: nat, limit: nat, batch: nat)
    returns (page: Page)
    requires UniqueIds(table) && batch > 0
    ensures page == SimplePage(Listing(table, condition, matches, o), offset, limit)
  {
    ghost var s: seq<Row> := Sort(o, Filter(condition, table));
    ghost var k: nat := 0;
    var cursor: Option<Row> := None;
    page := Page([], 0, 0, 0, {}, {});
    assert s[..0] == [];
    while true
      invariant k <= |s| && cursor == CursorAt(s, k)
      invariant page == SimplePage(Filter(matches, s[..k]), offset, limit)
      decreases |s| - k
    {
      var rows := NextBatch(table, condition, o, cursor, batch, k);
      BatchAdvances(s, k, batch);
      page := AddBatch(page, rows, matches, s[..k], offset, limit);
      k := k + |rows|;
      if |rows| < batch {
        return;
      }
      cursor := Some(rows[|rows| - 1]);
    }
  }
}
