/** Cursor pagination by (created_at, id) descending (app/modules/question/repository.py; the
    other repositories repeat it). A row is its key and the columns the filters look at. */
module Keyset {
  import opened Options

  datatype Key = Key(createdAt: int, id: nat)
  datatype Row<T> = Row(key: Key, data: T)
  datatype Page<T> = Page(items: seq<Row<T>>, next: Option<Key>, hasMore: bool)

  /** `a` is listed before `b`: newest first, then largest id. */
  predicate Before(a: Key, b: Key) {
    a.createdAt > b.createdAt || (a.createdAt == b.createdAt && a.id > b.id)
  }

  predicate Under(cursor: Option<Key>, key: Key) {
    cursor.None? || Before(cursor.value, key)
  }

  /** The rows of the WHERE clause. */
  function Select<T(==,!new)>(table: seq<Row<T>>, filter: T -> bool, cursor: Option<Key>): (rows: seq<Row<T>>)
    ensures forall r :: r in rows <==> r in table && filter(r.data) && Under(cursor, r.key)
  {
    if table == [] then []
    else
      var last := table[|table| - 1];
      assert table == table[..|table| - 1] + [last];
      Select(table[..|table| - 1], filter, cursor)
        + if filter(last.data) && Under(cursor, last.key) then [last] else []
  }

  function Insert<T(==,!new)>(row: Row<T>, sorted: seq<Row<T>>): (rows: seq<Row<T>>)
    ensures |rows| == |sorted| + 1
    ensures forall r :: r in rows <==> r == row || r in sorted
  {
    if sorted == [] then [row]
    else
      var last := |sorted| - 1;
      assert sorted == sorted[..last] + [sorted[last]];
      if Before(row.key, sorted[last].key) then Insert(row, sorted[..last]) + [sorted[last]] else sorted + [row]
  }

  /** ORDER BY created_at DESC, id DESC. */
  function SortDescending<T(==,!new)>(rows: seq<Row<T>>): (sorted: seq<Row<T>>)
    ensures |sorted| == |rows| && forall r :: r in sorted <==> r in rows
  {
    if rows == [] then []
    else
      assert rows == rows[..|rows| - 1] + [rows[|rows| - 1]];
      Insert(rows[|rows| - 1], SortDescending(rows[..|rows| - 1]))
  }

  function Take<T>(rows: seq<T>, n: nat): seq<T> {
    if |rows| <= n then rows else rows[..n]
  }

  function FullList<T(==,!new)>(table: seq<Row<T>>, filter: T -> bool, cursor: Option<Key>): seq<Row<T>> {
    SortDescending(Select(table, filter, cursor))
  }

  /** `list_for_tenant`: one row more than the page is fetched to see whether there are more. */
  method ListForTenant<T(==,!new)>(table: seq<Row<T>>, filter: T -> bool, cursor: Option<Key>, limit: nat)
      returns (page: Page<T>)
    ensures page == PageOf(table, filter, cursor, limit)
  {
    var rows := FullList(table, filter, cursor);
    TakenTwice(rows, limit);
    rows := Take(rows, limit + 1);
    var hasMore := |rows| > limit;
    var items := Take(rows, limit);
    var next := if hasMore && items != [] then Some(items[|items| - 1].key) else None;
    return Page(items, next, hasMore);
  }

  lemma TakenTwice<T>(rows: seq<T>, limit: nat)
    ensures Take(Take(rows, limit + 1), limit) == Take(rows, limit)
    ensures |Take(rows, limit + 1)| > limit <==> |rows| > limit
  {
  }

  function FirstPage<T(==,!new)>(all: seq<Row<T>>, limit: nat): Page<T> {
    var items := Take(all, limit);
    Page(items, if |all| > limit && items != [] then Some(items[|items| - 1].key) else None, |all| > limit)
  }

  function PageOf<T(==,!new)>(table: seq<Row<T>>, filter: T -> bool, cursor: Option<Key>, limit: nat): Page<T> {
    FirstPage(FullList(table, filter, cursor), limit)
  }

  /** What a client collects that follows the cursors, and in how many calls; `tables` are the
      states of the table the calls see. */
  datatype Collected<T> = Collected(rows: seq<Row<T>>, calls: nat, finished: bool)

  function Walk<T(==,!new)>(tables: seq<seq<Row<T>>>, filter: T -> bool, cursor: Option<Key>,
      limit: nat): (c: Collected<T>)
    ensures c.calls <= |tables|
    decreases |tables|
  {
    if tables == [] then Collected([], 0, false)
    else
      var page := PageOf(tables[0], filter, cursor, limit);
      if page.next.None? then Collected(page.items, 1, true)
      else
        var rest := Walk(tables[1..], filter, page.next, limit);
        Collected(page.items + rest.rows, rest.calls + 1, rest.finished)
  }

  // Order

  ghost predicate UniqueIds<T(!new)>(table: seq<Row<T>>) {
    forall i, j | 0 <= i < j < |table| :: table[i].key.id != table[j].key.id
  }

  ghost predicate Descending<T(!new)>(rows: seq<Row<T>>) {
    forall i, j | 0 <= i < j < |rows| :: Before(rows[i].key, rows[j].key)
  }

  lemma {:induction false} InsertDescends<T(!new)>(row: Row<T>, sorted: seq<Row<T>>)
    requires Descending(sorted) && forall r | r in sorted :: r.key.id != row.key.id
    ensures Descending(Insert(row, sorted))
  {
    if sorted != [] && Before(row.key, sorted[|sorted| - 1].key) {
      var front, last := sorted[..|sorted| - 1], sorted[|sorted| - 1];
      InsertDescends(row, front);
      var inner := Insert(row, front);
      forall i | 0 <= i < |inner| ensures Before(inner[i].key, last.key) { assert inner[i] in inner; }
    }
  }

  lemma {:induction false} SelectKeepsUnique<T(!new)>(table: seq<Row<T>>, filter: T -> bool, cursor: Option<Key>)
    requires UniqueIds(table)
    ensures UniqueIds(Select(table, filter, cursor))
  {
    if table == [] {
    } else {
      var front, last := table[..|table| - 1], table[|table| - 1];
      SelectKeepsUnique(front, filter, cursor);
      var rows := Select(front, filter, cursor);
      forall i | 0 <= i < |rows| ensures rows[i].key.id != last.key.id { assert rows[i] in rows; }
    }
  }

  lemma {:induction false} SortDescends<T(!new)>(rows: seq<Row<T>>)
    requires UniqueIds(rows)
    ensures Descending(SortDescending(rows))
  {
    if rows == [] {
    } else {
      SortDescends(rows[..|rows| - 1]);
      InsertDescends(rows[|rows| - 1], SortDescending(rows[..|rows| - 1]));
    }
  }

  /** The full list is the matching rows, each once, newest first. */
  lemma FullListDescends<T(!new)>(table: seq<Row<T>>, filter: T -> bool, cursor: Option<Key>)
    requires UniqueIds(table)
    ensures Descending(FullList(table, filter, cursor))
    ensures forall r :: r in FullList(table, filter, cursor) <==> r in table && filter(r.data) && Under(cursor, r.key)
  {
    SelectKeepsUnique(table, filter, cursor);
    SortDescends(Select(table, filter, cursor));
  }

  lemma KeysDiffer<T(!new)>(rows: seq<Row<T>>)
    requires Descending(rows)
    ensures forall i, j | 0 <= i < |rows| && 0 <= j < |rows| && rows[i].key == rows[j].key :: i == j
  {
    assert forall i, j | 0 <= i < j < |rows| :: rows[i].key != rows[j].key;
  }

  /** Newest first, and among rows of one time the largest id first. */
  lemma NewestFirst<T(!new)>(table: seq<Row<T>>, filter: T -> bool, i: nat, j: nat)
    requires UniqueIds(table) && i < j < |FullList(table, filter, None)|
    ensures var all := FullList(table, filter, None);
      all[i].key.createdAt > all[j].key.createdAt
      || (all[i].key.createdAt == all[j].key.createdAt && all[i].key.id > all[j].key.id)
  {
    FullListDescends(table, filter, None);
  }

  /** There is only one way to list a set of rows in order. */
  lemma {:induction false} OneDescendingList<T(!new)>(a: seq<Row<T>>, b: seq<Row<T>>)
    requires Descending(a) && Descending(b) && forall r :: r in a <==> r in b
    ensures a == b
    decreases |a|
  {
    if b == [] {
    } else {
      SomeMember(b);
    }
    if a == [] {
    } else {
      assert a[0] in a;
      SameHead(a, b);
      RestHasSameRows(a, b);
      OneDescendingList(a[1..], b[1..]);
    }
  }

  lemma SomeMember<T(!new)>(rows: seq<Row<T>>)
    requires rows != []
    ensures exists r :: r in rows
  {
    assert rows[0] in rows;
  }

  lemma SameHead<T(!new)>(a: seq<Row<T>>, b: seq<Row<T>>)
    requires Descending(a) && Descending(b) && a != [] && b != [] && a[0] in b && b[0] in a
    ensures a[0] == b[0]
  {
    var i :| 0 <= i < |b| && b[i] == a[0];
    var j :| 0 <= j < |a| && a[j] == b[0];
    assert forall k | 0 < k < |b| :: Before(b[0].key, b[k].key);
    assert forall k | 0 < k < |a| :: Before(a[0].key, a[k].key);
  }

  lemma RestHasSameRows<T(!new)>(a: seq<Row<T>>, b: seq<Row<T>>)
    requires Descending(a) && Descending(b) && a != [] && b != [] && a[0] == b[0] && forall r :: r in a <==> r in b
    ensures forall r :: r in a[1..] <==> r in b[1..]
  {
    HeadNotInRest(a);
    HeadNotInRest(b);
    forall r ensures r in a[1..] <==> r in b[1..] {
      assert r in a <==> r == a[0] || r in a[1..];
      assert r in b <==> r == b[0] || r in b[1..];
    }
  }

  lemma HeadNotInRest<T(!new)>(a: seq<Row<T>>)
    requires Descending(a) && a != []
    ensures a[0] !in a[1..]
  {
    KeysDiffer(a);
  }

  // One page

  ghost predicate Offers<T(!new)>(table: seq<Row<T>>, filter: T -> bool, row: Row<T>) {
    row in table && filter(row.data)
  }

  lemma FirstPageInOrder<T(!new)>(all: seq<Row<T>>, limit: nat)
    requires Descending(all) && limit > 0
    ensures var page := FirstPage(all, limit);
      && |page.items| <= limit && Descending(page.items) && (page.hasMore <==> page.next.Some?)
      && (forall i | 0 <= i < |page.items| ::
            page.items[i] in all && (page.next.Some? ==> !Before(page.next.value, page.items[i].key)))
      && (page.next.Some? ==> exists i | 0 <= i < |all| :: all[i].key == page.next.value)
  {
    if |all| > limit { assert FirstPage(all, limit).next == Some(all[limit - 1].key); }
  }

  /** The rows of a page match, lie below the incoming cursor, and come in order with none
      below the outgoing one. */
  lemma PageIsSound<T(!new)>(table: seq<Row<T>>, filter: T -> bool, cursor: Option<Key>, limit: nat)
    requires UniqueIds(table) && limit > 0
    ensures var page := PageOf(table, filter, cursor, limit);
      && |page.items| <= limit && Descending(page.items) && (page.hasMore <==> page.next.Some?)
      && (forall i | 0 <= i < |page.items| ::
            Offers(table, filter, page.items[i]) && Under(cursor, page.items[i].key)
            && (page.next.Some? ==> !Before(page.next.value, page.items[i].key)))
      && (page.next.Some? ==> Under(cursor, page.next.value))
  {
    var all := FullList(table, filter, cursor);
    FullListDescends(table, filter, cursor);
    FirstPageInOrder(all, limit);
    var page := FirstPage(all, limit);
    if page.next.Some? {
      var i :| 0 <= i < |all| && all[i].key == page.next.value;
      assert all[i] in all;
    }
  }

  /** A matching row below the incoming cursor is on the page or below the outgoing cursor. */
  lemma PageIsComplete<T(!new)>(table: seq<Row<T>>, filter: T -> bool, cursor: Option<Key>, limit: nat, row: Row<T>)
    requires UniqueIds(table) && limit > 0
    requires row in table && filter(row.data) && Under(cursor, row.key)
    ensures var page := PageOf(table, filter, cursor, limit);
      row in page.items || (page.next.Some? && Under(page.next, row.key))
  {
    var all := FullList(table, filter, cursor);
    FullListDescends(table, filter, cursor);
    var i :| 0 <= i < |all| && all[i] == row;
    if |all| > limit && i < limit { assert all[..limit][i] == row; }
  }

  // Whole walks

  ghost predicate AllUnique<T(!new)>(tables: seq<seq<Row<T>>>) {
    forall i | 0 <= i < |tables| :: UniqueIds(tables[i])
  }

  /** Whatever changes between the calls, the collected keys strictly decrease, so no row comes
      twice. */
  lemma {:induction false} WalkDescends<T(!new)>(tables: seq<seq<Row<T>>>, filter: T -> bool, cursor: Option<Key>,
      limit: nat)
    requires AllUnique(tables) && limit > 0
    ensures var rows := Walk(tables, filter, cursor, limit).rows;
      Descending(rows) && forall i | 0 <= i < |rows| :: Under(cursor, rows[i].key)
    decreases |tables|
  {
    if tables == [] {
    } else {
      var page := PageOf(tables[0], filter, cursor, limit);
      PageIsSound(tables[0], filter, cursor, limit);
      if page.next.Some? {
        WalkDescends(tables[1..], filter, page.next, limit);
        PagesJoin(page.items, Walk(tables[1..], filter, page.next, limit).rows, cursor, page.next.value);
      }
    }
  }

  lemma PagesJoin<T(!new)>(items: seq<Row<T>>, rest: seq<Row<T>>, cursor: Option<Key>, next: Key)
    requires Descending(items) && Descending(rest) && Under(cursor, next)
    requires forall i | 0 <= i < |items| :: Under(cursor, items[i].key) && !Before(next, items[i].key)
    requires forall i | 0 <= i < |rest| :: Before(next, rest[i].key)
    ensures Descending(items + rest)
    ensures forall i | 0 <= i < |items + rest| :: Under(cursor, (items + rest)[i].key)
  {
  }

  /** Every collected row matched in the table one of the calls saw. */
  lemma {:induction false} WalkIsSound<T(!new)>(tables: seq<seq<Row<T>>>, filter: T -> bool, cursor: Option<Key>,
      limit: nat, row: Row<T>)
    requires AllUnique(tables) && limit > 0 && row in Walk(tables, filter, cursor, limit).rows
    ensures exists i :: 0 <= i < Walk(tables, filter, cursor, limit).calls && Offers(tables[i], filter, row)
    decreases |tables|
  {
    var page := PageOf(tables[0], filter, cursor, limit);
    PageIsSound(tables[0], filter, cursor, limit);
    if row in page.items {
      var k :| 0 <= k < |page.items| && page.items[k] == row;
      assert Offers(tables[0], filter, page.items[k]);
    } else {
      WalkIsSound(tables[1..], filter, page.next, limit, row);
      var i :| 0 <= i < Walk(tables[1..], filter, page.next, limit).calls && Offers(tables[1..][i], filter, row);
      assert tables[1..][i] == tables[i + 1];
    }
  }

  ghost predicate OffersKey<T(!new)>(table: seq<Row<T>>, filter: T -> bool, key: Key) {
    exists row :: row in table && row.key == key && filter(row.data)
  }

  /** A key that is there and matches at every call of a finished walk is collected. */
  lemma {:induction false} WalkCollects<T(!new)>(tables: seq<seq<Row<T>>>, filter: T -> bool, cursor: Option<Key>,
      limit: nat, key: Key) returns (row: Row<T>)
    requires AllUnique(tables) && limit > 0 && Walk(tables, filter, cursor, limit).finished && Under(cursor, key)
    requires forall i | 0 <= i < Walk(tables, filter, cursor, limit).calls :: OffersKey(tables[i], filter, key)
    ensures row in Walk(tables, filter, cursor, limit).rows && row.key == key
    decreases |tables|
  {
    assert OffersKey(tables[0], filter, key);
    row :| row in tables[0] && row.key == key && filter(row.data);
    var page := PageOf(tables[0], filter, cursor, limit);
    PageIsComplete(tables[0], filter, cursor, limit, row);
    if row !in page.items {
      var rest := tables[1..];
      assert forall i | 0 <= i < |rest| :: rest[i] == tables[i + 1];
      row := WalkCollects(rest, filter, page.next, limit, key);
    }
  }

  /** Rows inserted, deleted or edited between the calls of a finished walk do not disturb the
      others: a row there and matching throughout is collected exactly once, and nothing is
      collected that was not there. */
  lemma WalkCollectsOnce<T(!new)>(tables: seq<seq<Row<T>>>, filter: T -> bool, limit: nat, key: Key)
    requires AllUnique(tables) && limit > 0 && Walk(tables, filter, None, limit).finished
    requires forall i | 0 <= i < Walk(tables, filter, None, limit).calls :: OffersKey(tables[i], filter, key)
    ensures var rows := Walk(tables, filter, None, limit).rows;
      exists i :: 0 <= i < |rows| && rows[i].key == key && forall j | 0 <= j < |rows| && rows[j].key == key :: j == i
  {
    WalkDescends(tables, filter, None, limit);
    var row := WalkCollects(tables, filter, None, limit, key);
    var rows := Walk(tables, filter, None, limit).rows;
    var i :| 0 <= i < |rows| && rows[i] == row;
    KeysDiffer(rows);
  }

  // A table that does not change

  /** Calls needed for `n` rows. */
  function CallsFor(n: nat, limit: nat): nat
    requires limit > 0
  {
    if n <= limit then 1 else 1 + CallsFor(n - limit, limit)
  }

  /** That is n / limit rounded up, and at least one. */
  lemma {:induction false} CallsAreCeiling(n: nat, limit: nat)
    requires limit > 0
    ensures CallsFor(n, limit) >= 1 && n <= CallsFor(n, limit) * limit
    ensures n > 0 ==> (CallsFor(n, limit) - 1) * limit < n
    ensures n == 0 ==> CallsFor(n, limit) == 1
  {
    if n > limit { CallsAreCeiling(n - limit, limit); }
  }

  /** The rest of the list is the list below the last row taken. */
  lemma RestOfList<T(!new)>(table: seq<Row<T>>, filter: T -> bool, cursor: Option<Key>, n: nat)
    requires UniqueIds(table) && 0 < n < |FullList(table, filter, cursor)|
    ensures var all := FullList(table, filter, cursor);
      FullList(table, filter, Some(all[n - 1].key)) == all[n..]
  {
    var all := FullList(table, filter, cursor);
    var below := FullList(table, filter, Some(all[n - 1].key));
    FullListDescends(table, filter, cursor);
    FullListDescends(table, filter, Some(all[n - 1].key));
    RowsBelow(all, n);
    assert all[n - 1] in all;
    forall r ensures r in all[n..] <==> r in below {
      if r in below { assert Under(cursor, r.key); }
    }
    OneDescendingList(all[n..], below);
  }

  lemma RowsBelow<T(!new)>(all: seq<Row<T>>, n: nat)
    requires Descending(all) && 0 < n < |all|
    ensures Descending(all[n..])
    ensures forall r :: r in all[n..] <==> r in all && Before(all[n - 1].key, r.key)
  {
    forall r ensures r in all[n..] <==> r in all && Before(all[n - 1].key, r.key) {
      if r in all[n..] {
        var i :| 0 <= i < |all| - n && all[n..][i] == r;
        assert all[n + i] == r;
      }
      if r in all && Before(all[n - 1].key, r.key) {
        var i :| 0 <= i < |all| && all[i] == r;
        assert i >= n;
        assert all[n..][i - n] == r;
      }
    }
  }

  /** The table as `calls` calls see it when nothing changes. */
  function Unchanged<T>(table: seq<Row<T>>, calls: nat): (tables: seq<seq<Row<T>>>)
    ensures |tables| == calls
  {
    if calls == 0 then [] else [table] + Unchanged(table, calls - 1)
  }

  lemma UnchangedWalkEnds<T(!new)>(table: seq<Row<T>>, calls: nat, filter: T -> bool, cursor: Option<Key>,
      limit: nat, all: seq<Row<T>>)
    requires limit > 0 && calls > 0 && all == FullList(table, filter, cursor) && |all| <= limit
    ensures Walk(Unchanged(table, calls), filter, cursor, limit) == Collected(all, 1, true)
  {
  }

  lemma UnchangedWalkGoesOn<T(!new)>(table: seq<Row<T>>, calls: nat, filter: T -> bool, cursor: Option<Key>,
      limit: nat, all: seq<Row<T>>)
    requires limit > 0 && calls > 0 && all == FullList(table, filter, cursor) && |all| > limit
    ensures var rest := Walk(Unchanged(table, calls - 1), filter, Some(all[limit - 1].key), limit);
      Walk(Unchanged(table, calls), filter, cursor, limit)
          == Collected(all[..limit] + rest.rows, rest.calls + 1, rest.finished)
  {
    assert Unchanged(table, calls)[1..] == Unchanged(table, calls - 1);
    assert FirstPage(all, limit) == Page(all[..limit], Some(all[limit - 1].key), true);
  }

  /** The pages of a list. */
  function ListWalk<T>(all: seq<Row<T>>, calls: nat, limit: nat): Collected<T>
    requires limit > 0
  {
    if calls == 0 then Collected([], 0, false)
    else if |all| <= limit then Collected(all, 1, true)
    else
      var rest := ListWalk(all[limit..], calls - 1, limit);
      Collected(all[..limit] + rest.rows, rest.calls + 1, rest.finished)
  }

  lemma {:induction false} ListWalkTakesAll<T>(all: seq<Row<T>>, calls: nat, limit: nat)
    requires limit > 0
    ensures var walk := ListWalk(all, calls, limit);
      && (walk.finished <==> calls >= CallsFor(|all|, limit))
      && (walk.finished ==> walk == Collected(all, CallsFor(|all|, limit), true))
  {
    if calls > 0 && |all| > limit {
      ListWalkTakesAll(all[limit..], calls - 1, limit);
      assert all == all[..limit] + all[limit..];
    }
  }

  lemma LastPageAlike<T(!new)>(table: seq<Row<T>>, calls: nat, filter: T -> bool, cursor: Option<Key>, limit: nat,
      all: seq<Row<T>>)
    requires limit > 0 && all == FullList(table, filter, cursor) && (calls == 0 || |all| <= limit)
    ensures Walk(Unchanged(table, calls), filter, cursor, limit) == ListWalk(all, calls, limit)
  {
    if calls > 0 { UnchangedWalkEnds(table, calls, filter, cursor, limit, all); }
  }

  lemma OneMorePageAlike<T(!new)>(table: seq<Row<T>>, calls: nat, filter: T -> bool, cursor: Option<Key>, limit: nat,
      all: seq<Row<T>>)
    requires limit > 0 && all == FullList(table, filter, cursor) && calls > 0 && |all| > limit
    requires Walk(Unchanged(table, calls - 1), filter, Some(all[limit - 1].key), limit)
              == ListWalk(all[limit..], calls - 1, limit)
    ensures Walk(Unchanged(table, calls), filter, cursor, limit) == ListWalk(all, calls, limit)
  {
    UnchangedWalkGoesOn(table, calls, filter, cursor, limit, all);
  }

  lemma {:induction false} UnchangedWalkIsListWalk<T(!new)>(table: seq<Row<T>>, calls: nat, filter: T -> bool,
      cursor: Option<Key>, limit: nat, all: seq<Row<T>>)
    requires UniqueIds(table) && limit > 0 && all == FullList(table, filter, cursor)
    ensures Walk(Unchanged(table, calls), filter, cursor, limit) == ListWalk(all, calls, limit)
    decreases calls
  {
    if calls > 0 && |all| > limit {
      RestOfList(table, filter, cursor, limit);
      UnchangedWalkIsListWalk(table, calls - 1, filter, Some(all[limit - 1].key), limit, all[limit..]);
      OneMorePageAlike(table, calls, filter, cursor, limit, all);
    } else {
      LastPageAlike(table, calls, filter, cursor, limit, all);
    }
  }

  /** On a table that does not change, following the cursors yields the full sorted list, in
      n / limit calls rounded up (one when the list is empty). */
  lemma UnchangedWalk<T(!new)>(table: seq<Row<T>>, calls: nat, filter: T -> bool, limit: nat)
    requires UniqueIds(table) && limit > 0
    ensures var all := FullList(table, filter, None);
      var walk := Walk(Unchanged(table, calls), filter, None, limit);
      && (walk.finished <==> calls >= CallsFor(|all|, limit))
      && (walk.finished ==> walk == Collected(all, CallsFor(|all|, limit), true))
  {
    UnchangedWalkIsListWalk(table, calls, filter, None, limit, FullList(table, filter, None));
    ListWalkTakesAll(FullList(table, filter, None), calls, limit);
  }

  // The text of a cursor, before base64

  /** `f"{created_at.isoformat()}|{entity_id}"`. */
  function Frame(createdAt: string, id: string): string {
    createdAt + "|" + id
  }

  /** `raw.split("|", maxsplit=1)` into exactly two parts. */
  function Unframe(raw: string): Option<(string, string)> {
    if raw == "" then None
    else if raw[0] == '|' then Some(("", raw[1..]))
    else
      match Unframe(raw[1..])
      case None => None
      case Some(parts) => Some(([raw[0]] + parts.0, parts.1))
  }

  /** A cursor splits back into what it was made of if and only if the time has no bar. */
  lemma {:induction false} CursorRoundTrip(createdAt: string, id: string)
    ensures Unframe(Frame(createdAt, id)) == Some((createdAt, id)) <==> '|' !in createdAt
  {
    var raw := Frame(createdAt, id);
    if createdAt == "" {
      assert raw[0] == '|' && raw[1..] == id;
    } else {
      assert raw[1..] == Frame(createdAt[1..], id);
      assert createdAt == [createdAt[0]] + createdAt[1..];
      CursorRoundTrip(createdAt[1..], id);
    }
  }
}
