/** Reordering rows under a unique constraint on (group, order index): park the listed rows
    above 100000, flush, assign the requested indexes, flush (reorder_question_set and
    reorder_course). The group is a question set, a course or a module. */
module Reorder {
  import opened Options

  datatype Row = Row(group: nat, order: nat)
  type Table = map<nat, Row>

  const PARKING: nat := 100000

  predicate Unique(t: Table) {
    forall x, y | x in t && y in t && x != y :: t[x] != t[y]
  }

  /** One more than the largest index of the group, or 1. */
  function NextIndex(rows: seq<Row>, group: nat): (n: nat)
    ensures n > 0 && forall i | 0 <= i < |rows| && rows[i].group == group :: rows[i].order < n
    ensures n == 1 || exists i :: 0 <= i < |rows| && rows[i].group == group && rows[i].order == n - 1
  {
    if rows == [] then 1
    else
      var n := NextIndex(rows[..|rows| - 1], group);
      var last := rows[|rows| - 1];
      if last.group == group && last.order >= n then last.order + 1 else n
  }

  /** One UPDATE of one row; the constraint is checked at once. */
  function Update(t: Table, x: nat, order: nat): Option<Table>
    requires x in t
  {
    var row := t[x].(order := order);
    if exists y :: y in t && y != x && t[y] == row then None else Some(t[x := row])
  }

  /** A flush updates rows one by one, in an order the caller does not choose. */
  function Flush(t: Table, target: map<nat, nat>, rows: seq<nat>): (r: Option<Table>)
    requires forall x | x in rows :: x in t && x in target
    ensures r.Some? ==> r.value.Keys == t.Keys
    decreases |rows|
  {
    if rows == [] then Some(t)
    else
      match Update(t, rows[0], target[rows[0]])
      case None => None
      case Some(u) => Flush(u, target, rows[1..])
  }

  /** `rows` lists each of `ids` once. */
  ghost predicate Arrangement(rows: seq<nat>, ids: set<nat>) {
    && (forall i, j | 0 <= i < j < |rows| :: rows[i] != rows[j])
    && (forall x :: x in rows <==> x in ids)
  }

  function Assigned(t: Table, target: map<nat, nat>): Table {
    map x | x in t :: if x in target then t[x].(order := target[x]) else t[x]
  }

  /** No row takes an index that another row of its group has or takes. */
  ghost predicate Safe(t: Table, target: map<nat, nat>)
    requires target.Keys <= t.Keys
  {
    && (forall x, y | x in target && y in t && x != y && t[x].group == t[y].group :: target[x] != t[y].order)
    && (forall x, y | x in target && y in target && x != y && t[x].group == t[y].group :: target[x] != target[y])
  }

  lemma UpdateKeepsUnique(t: Table, x: nat, order: nat)
    requires Unique(t) && x in t && Update(t, x, order).Some?
    ensures Unique(Update(t, x, order).value)
  {
  }

  /** Whatever a flush has done so far, the constraint holds. */
  lemma {:induction false} FlushKeepsUnique(t: Table, target: map<nat, nat>, rows: seq<nat>)
    requires Unique(t) && forall x | x in rows :: x in t && x in target
    requires Flush(t, target, rows).Some?
    ensures Unique(Flush(t, target, rows).value)
    decreases |rows|
  {
    if rows == [] {
    } else {
      UpdateKeepsUnique(t, rows[0], target[rows[0]]);
      FlushKeepsUnique(Update(t, rows[0], target[rows[0]]).value, target, rows[1..]);
    }
  }

  /** A flush changes order indexes and nothing else. */
  lemma {:induction false} FlushKeepsGroups(t: Table, target: map<nat, nat>, rows: seq<nat>)
    requires forall x | x in rows :: x in t && x in target
    requires Flush(t, target, rows).Some?
    ensures forall x | x in t :: Flush(t, target, rows).value[x].group == t[x].group
    decreases |rows|
  {
    if rows == [] {
    } else {
      FlushKeepsGroups(Update(t, rows[0], target[rows[0]]).value, target, rows[1..]);
    }
  }

  function Restrict(target: map<nat, nat>, done: set<nat>): map<nat, nat> {
    map x | x in target && x in done :: target[x]
  }

  lemma {:induction false} SafeFlushFrom(t: Table, target: map<nat, nat>, done: set<nat>, rows: seq<nat>)
    requires target.Keys <= t.Keys && Safe(t, target)
    requires done <= target.Keys && Arrangement(rows, target.Keys - done)
    ensures Flush(Assigned(t, Restrict(target, done)), target, rows) == Some(Assigned(t, target))
    decreases |rows|
  {
    var now := Assigned(t, Restrict(target, done));
    if rows == [] {
      assert done == target.Keys by {
        forall x | x in target ensures x in done { assert x !in rows; }
      }
      assert Restrict(target, done) == target;
    } else {
      var x := rows[0];
      assert x in rows;
      SafeUpdate(t, target, done, x);
      RestArrangement(rows, target.Keys - done);
      assert target.Keys - (done + {x}) == target.Keys - done - {x};
      SafeFlushFrom(t, target, done + {x}, rows[1..]);
    }
  }

  lemma SafeUpdate(t: Table, target: map<nat, nat>, done: set<nat>, x: nat)
    requires target.Keys <= t.Keys && Safe(t, target)
    requires done <= target.Keys && x in target && x !in done
    ensures Update(Assigned(t, Restrict(target, done)), x, target[x]) == Some(Assigned(t, Restrict(target, done + {x})))
  {
    var now := Assigned(t, Restrict(target, done));
    forall y | y in now && y != x ensures now[y] != now[x].(order := target[x]) {
      assert now[y].group == t[y].group && now[x].group == t[x].group;
      assert now[y].order == if y in done then target[y] else t[y].order;
    }
    assert now[x := now[x].(order := target[x])] == Assigned(t, Restrict(target, done + {x}));
  }

  lemma RestArrangement(rows: seq<nat>, ids: set<nat>)
    requires rows != [] && Arrangement(rows, ids)
    ensures Arrangement(rows[1..], ids - {rows[0]})
  {
    forall y ensures y in rows[1..] <==> y in ids - {rows[0]} {
      assert y in rows <==> y == rows[0] || y in rows[1..];
    }
  }

  lemma SafeFlush(t: Table, target: map<nat, nat>, rows: seq<nat>)
    requires target.Keys <= t.Keys && Safe(t, target) && Arrangement(rows, target.Keys)
    ensures Flush(t, target, rows) == Some(Assigned(t, target))
  {
    assert Assigned(t, Restrict(target, {})) == t;
    assert target.Keys - {} == target.Keys;
    SafeFlushFrom(t, target, {}, rows);
  }

  // Without safety some order of the rows collides

  lemma {:induction false} SomeArrangement(ids: set<nat>) returns (rows: seq<nat>)
    ensures Arrangement(rows, ids)
    decreases |ids|
  {
    if ids == {} {
      rows := [];
    } else {
      var x :| x in ids;
      var rest := SomeArrangement(ids - {x});
      rows := [x] + rest;
    }
  }

  lemma UnsafeFlush(t: Table, target: map<nat, nat>) returns (rows: seq<nat>)
    requires Unique(t) && target.Keys <= t.Keys && !Safe(t, target)
    ensures Arrangement(rows, target.Keys) && Flush(t, target, rows) == None
  {
    if x, y :| x in target && y in t && x != y && t[x].group == t[y].group && target[x] == t[y].order {
      rows := OccupiedFirst(t, target, x, y);
    } else {
      var x, y :| x in target && y in target && x != y && t[x].group == t[y].group && target[x] == target[y];
      rows := SameTargetFirst(t, target, x, y);
    }
  }

  lemma OccupiedFirst(t: Table, target: map<nat, nat>, x: nat, y: nat) returns (rows: seq<nat>)
    requires target.Keys <= t.Keys
    requires x in target && y in t && x != y && t[x].group == t[y].group && target[x] == t[y].order
    ensures Arrangement(rows, target.Keys) && Flush(t, target, rows) == None
  {
    var rest := SomeArrangement(target.Keys - {x});
    rows := [x] + rest;
    OccupiedCollides(t, target, x, y, rest);
  }

  lemma SameTargetFirst(t: Table, target: map<nat, nat>, x: nat, y: nat) returns (rows: seq<nat>)
    requires target.Keys <= t.Keys
    requires x in target && y in target && x != y && t[x].group == t[y].group && target[x] == target[y]
    ensures Arrangement(rows, target.Keys) && Flush(t, target, rows) == None
  {
    var rest := SomeArrangement(target.Keys - {x, y});
    rows := [x, y] + rest;
    SameTargetCollides(t, target, x, y, rest);
  }

  lemma OccupiedCollides(t: Table, target: map<nat, nat>, x: nat, y: nat, rest: seq<nat>)
    requires target.Keys <= t.Keys && forall z | z in rest :: z in target
    requires x in target && y in t && x != y && t[x].group == t[y].group && target[x] == t[y].order
    ensures Flush(t, target, [x] + rest) == None
  {
    var rows := [x] + rest;
    assert t[y] == t[x].(order := target[x]) && rows[0] == x;
  }

  lemma SameTargetCollides(t: Table, target: map<nat, nat>, x: nat, y: nat, rest: seq<nat>)
    requires target.Keys <= t.Keys && forall z | z in rest :: z in target
    requires x in target && y in target && x != y && t[x].group == t[y].group && target[x] == target[y]
    ensures Flush(t, target, [x, y] + rest) == None
  {
    var rows := [x, y] + rest;
    assert rows[1..] == [y] + rest;
    if Update(t, x, target[x]).Some? {
      var u := Update(t, x, target[x]).value;
      assert u[x] == u[y].(order := target[y]);
      assert Update(u, y, target[y]) == None;
      assert rows[1..][0] == y;
    }
  }

  // The two phases

  /** `enumerate(items, start=1)`: the i-th listed row is parked at 100000 + i. */
  function Parked(ids: seq<nat>): (parked: map<nat, nat>)
    ensures forall x :: x in parked <==> x in ids
  {
    if ids == [] then map[]
    else
      var last := |ids| - 1;
      assert ids == ids[..last] + [ids[last]];
      Parked(ids[..last])[ids[last] := PARKING + |ids|]
  }

  predicate Distinct(ids: seq<nat>) {
    forall i, j | 0 <= i < j < |ids| :: ids[i] != ids[j]
  }

  lemma {:induction false} ParkedPlace(ids: seq<nat>, i: nat)
    requires Distinct(ids) && i < |ids|
    ensures Parked(ids)[ids[i]] == PARKING + i + 1
  {
    var last := |ids| - 1;
    if i < last {
      assert ids[..last][i] == ids[i];
      ParkedPlace(ids[..last], i);
    }
  }

  /** Parking places are distinct and lie just above 100000. */
  lemma ParkedPlaces(ids: seq<nat>)
    requires Distinct(ids)
    ensures forall x, y | x in ids && y in ids && x != y :: Parked(ids)[x] != Parked(ids)[y]
    ensures forall x | x in ids :: PARKING < Parked(ids)[x] <= PARKING + |ids|
  {
    var parked := Parked(ids);
    forall i: nat | i < |ids| ensures parked[ids[i]] == PARKING + i + 1 { ParkedPlace(ids, i); }
  }

  /** One entry of a reorder request. */
  datatype OrderRequest = OrderRequest(row: nat, orderIndex: nat)

  function IdsOf(request: seq<OrderRequest>): (ids: seq<nat>)
    ensures |ids| == |request| && forall i | 0 <= i < |ids| :: ids[i] == request[i].row
  {
    seq(|request|, i requires 0 <= i < |request| => request[i].row)
  }

  function TargetOf(request: seq<OrderRequest>): (target: map<nat, nat>)
    ensures forall x :: x in target <==> x in IdsOf(request)
  {
    if request == [] then map[]
    else
      var last := |request| - 1;
      assert IdsOf(request) == IdsOf(request[..last]) + [request[last].row];
      TargetOf(request[..last])[request[last].row := request[last].orderIndex]
  }

  lemma FrontIds(request: seq<OrderRequest>)
    requires request != [] && Distinct(IdsOf(request))
    ensures Distinct(IdsOf(request[..|request| - 1]))
    ensures forall k | 0 <= k < |request| - 1 :: request[k].row != request[|request| - 1].row
  {
    var last := |request| - 1;
    assert IdsOf(request) == IdsOf(request[..last]) + [request[last].row];
    forall k | 0 <= k < last
      ensures request[k].row != request[last].row
    {
      assert IdsOf(request)[k] != IdsOf(request)[last];
    }
  }

  /** Each listed row's target is the index the request gives it. */
  lemma {:induction false} TargetIsRequested(request: seq<OrderRequest>, i: nat)
    requires Distinct(IdsOf(request)) && i < |request|
    ensures request[i].row in TargetOf(request) && TargetOf(request)[request[i].row] == request[i].orderIndex
  {
    if i < |request| - 1 {
      FrontIds(request);
      TargetIsRequested(request[..|request| - 1], i);
    }
  }

  /** An order in which a flush can update the listed rows. */
  predicate FlushOrder(rows: seq<nat>, ids: seq<nat>) {
    Distinct(rows) && (forall x | x in rows :: x in ids) && (forall x | x in ids :: x in rows)
  }

  /** The parking loop. */
  method ParkAll(ids: seq<nat>) returns (parked: map<nat, nat>)
    ensures parked == Parked(ids)
  {
    parked := map[];
    for k := 0 to |ids|
      invariant parked == Parked(ids[..k])
    {
      assert ids[..k + 1][..k] == ids[..k];
      parked := parked[ids[k] := PARKING + k + 1];
    }
    assert ids[..|ids|] == ids;
  }

  /** The assigning loop: each listed row takes the index requested for it. */
  method AssignAll(request: seq<OrderRequest>) returns (target: map<nat, nat>)
    ensures target == TargetOf(request)
  {
    target := map[];
    for k := 0 to |request|
      invariant target == TargetOf(request[..k])
    {
      assert request[..k + 1][..k] == request[..k];
      target := target[request[k].row := request[k].orderIndex];
    }
    assert request[..|request|] == request;
  }

  function TwoPhase(t: Table, ids: seq<nat>, request: map<nat, nat>, first: seq<nat>, second: seq<nat>): Option<Table>
    requires forall x | x in first :: x in t && x in Parked(ids)
    requires forall x | x in second :: x in t && x in request
  {
    match Flush(t, Parked(ids), first)
    case None => None
    case Some(u) => Flush(u, request, second)
  }

  /** What two flushes leave: a table of the same rows and groups that satisfies the constraint. */
  lemma TwoPhaseKeeps(t: Table, ids: seq<nat>, target: map<nat, nat>, first: seq<nat>, second: seq<nat>)
    requires Unique(t)
    requires forall x | x in first :: x in t && x in Parked(ids)
    requires forall x | x in second :: x in t && x in target
    requires TwoPhase(t, ids, target, first, second).Some?
    ensures var u := TwoPhase(t, ids, target, first, second).value;
      Unique(u) && u.Keys == t.Keys && forall x | x in u :: u[x].group == t[x].group
  {
    var parked := Flush(t, Parked(ids), first).value;
    FlushKeepsUnique(t, Parked(ids), first);
    FlushKeepsGroups(t, Parked(ids), first);
    FlushKeepsUnique(parked, target, second);
    FlushKeepsGroups(parked, target, second);
  }

  /** The condition on the request, checkable beforehand: within a group, unlisted rows keep
      clear of the parking places in use and of the requested indexes, and a listed row's old
      and requested index clash neither with another's parking place nor, when requested,
      with another's requested index. */
  ghost predicate Reorderable(t: Table, ids: seq<nat>, request: map<nat, nat>)
    requires forall x | x in ids :: x in t && x in request
  {
    && (forall x, y | x in ids && y in t && y !in ids && t[x].group == t[y].group ::
          t[y].order != Parked(ids)[x] && t[y].order != request[x])
    && (forall x, y | x in ids && y in ids && x != y && t[x].group == t[y].group ::
          t[x].order != Parked(ids)[y] && request[x] != Parked(ids)[y] && request[x] != request[y])
  }

  /** Listed rows exist, each once, and the request names exactly them. */
  ghost predicate WellFormed(t: Table, ids: seq<nat>, request: map<nat, nat>) {
    && Distinct(ids)
    && (forall x | x in ids :: x in t)
    && (forall x :: x in request <==> x in ids)
  }

  lemma ParkingIsSafe(t: Table, ids: seq<nat>, request: map<nat, nat>)
    requires Unique(t) && WellFormed(t, ids, request) && Reorderable(t, ids, request)
    ensures Safe(t, Parked(ids))
  {
    ParkedPlaces(ids);
  }

  lemma AssigningIsSafe(t: Table, ids: seq<nat>, request: map<nat, nat>)
    requires WellFormed(t, ids, request) && Reorderable(t, ids, request)
    ensures Safe(Assigned(t, Parked(ids)), request)
  {
    var u := Assigned(t, Parked(ids));
    assert forall x | x in t :: u[x].group == t[x].group;
  }

  lemma SafeIsReorderable(t: Table, ids: seq<nat>, request: map<nat, nat>)
    requires WellFormed(t, ids, request)
    requires Safe(t, Parked(ids)) && Safe(Assigned(t, Parked(ids)), request)
    ensures Reorderable(t, ids, request)
  {
    var u := Assigned(t, Parked(ids));
    forall x, y | x in ids && y in t && y !in ids && t[x].group == t[y].group
      ensures t[y].order != Parked(ids)[x] && t[y].order != request[x] { assert u[y] == t[y]; }
    forall x, y | x in ids && y in ids && x != y && t[x].group == t[y].group
      ensures t[x].order != Parked(ids)[y] && request[x] != Parked(ids)[y]
              && request[x] != request[y] { assert u[y].order == Parked(ids)[y]; }
  }

  lemma ReorderableSucceeds(t: Table, ids: seq<nat>, request: map<nat, nat>, first: seq<nat>, second: seq<nat>)
    requires Unique(t) && WellFormed(t, ids, request) && Reorderable(t, ids, request)
    requires Arrangement(first, request.Keys) && Arrangement(second, request.Keys)
    ensures TwoPhase(t, ids, request, first, second) == Some(Assigned(t, request))
  {
    assert Parked(ids).Keys == request.Keys;
    ParkingIsSafe(t, ids, request);
    AssigningIsSafe(t, ids, request);
    SafeFlushes(t, Parked(ids), request, first, second);
  }

  lemma SafeFlushes(t: Table, park: map<nat, nat>, request: map<nat, nat>, first: seq<nat>, second: seq<nat>)
    requires park.Keys == request.Keys <= t.Keys
    requires Safe(t, park) && Safe(Assigned(t, park), request)
    requires Arrangement(first, request.Keys) && Arrangement(second, request.Keys)
    ensures Flush(t, park, first) == Some(Assigned(t, park))
    ensures Flush(Assigned(t, park), request, second) == Some(Assigned(t, request))
  {
    SafeFlush(t, park, first);
    SafeFlush(Assigned(t, park), request, second);
    assert Assigned(Assigned(t, park), request) == Assigned(t, request);
  }

  lemma OtherwiseSomeOrderFails(t: Table, ids: seq<nat>, request: map<nat, nat>)
      returns (first: seq<nat>, second: seq<nat>)
    requires Unique(t) && WellFormed(t, ids, request) && !Reorderable(t, ids, request)
    ensures Arrangement(first, request.Keys) && Arrangement(second, request.Keys)
    ensures TwoPhase(t, ids, request, first, second) == None
  {
    var park, u := Parked(ids), Assigned(t, Parked(ids));
    assert park.Keys == request.Keys;
    if !Safe(t, park) {
      first := UnsafeFlush(t, park);
      second := first;
    } else {
      first := SomeArrangement(request.Keys);
      SafeFlush(t, park, first);
      FlushKeepsUnique(t, park, first);
      if Safe(u, request) { SafeIsReorderable(t, ids, request); }
      second := UnsafeFlush(u, request);
    }
  }

  /** A reorder goes through, and leaves exactly the requested indexes with every other row
      untouched, in every order of the rows within both flushes, if and only if the request
      is reorderable. */
  lemma ReorderNeverCollides(t: Table, ids: seq<nat>, request: map<nat, nat>)
    requires Unique(t) && WellFormed(t, ids, request)
    ensures Reorderable(t, ids, request) <==>
            forall first, second | Arrangement(first, request.Keys) && Arrangement(second, request.Keys) ::
              TwoPhase(t, ids, request, first, second) == Some(Assigned(t, request))
  {
    if Reorderable(t, ids, request) {
      forall first, second | Arrangement(first, request.Keys) && Arrangement(second, request.Keys)
        ensures TwoPhase(t, ids, request, first, second) == Some(Assigned(t, request))
      {
        ReorderableSucceeds(t, ids, request, first, second);
      }
    } else {
      var first, second := OtherwiseSomeOrderFails(t, ids, request);
    }
  }

  // The same for a request as the services receive it

  /** Every index of the groups concerned, old or requested, stays below the parking range. */
  ghost predicate BelowParking(t: Table, request: seq<OrderRequest>)
    requires forall x | x in IdsOf(request) :: x in t
  {
    && (forall x, y | x in IdsOf(request) && y in t && t[x].group == t[y].group :: t[y].order <= PARKING)
    && (forall i | 0 <= i < |request| :: request[i].orderIndex <= PARKING)
  }

  /** Within a group the requested indexes are distinct and no unlisted row has one of them. */
  ghost predicate Clear(t: Table, request: seq<OrderRequest>)
    requires forall x | x in IdsOf(request) :: x in t
  {
    && (forall i, j | 0 <= i < j < |request| && t[request[i].row].group == t[request[j].row].group ::
          request[i].orderIndex != request[j].orderIndex)
    && (forall i, y | 0 <= i < |request| && y in t && y !in IdsOf(request) && t[y].group == t[request[i].row].group ::
          t[y].order != request[i].orderIndex)
  }

  lemma RequestIsWellFormed(t: Table, request: seq<OrderRequest>)
    requires Distinct(IdsOf(request)) && forall x | x in IdsOf(request) :: x in t
    ensures WellFormed(t, IdsOf(request), TargetOf(request))
  {
  }

  /** No listed row takes an index that another row of its group keeps or takes. */
  ghost predicate TargetsFree(t: Table, ids: seq<nat>, target: map<nat, nat>)
    requires forall x | x in ids :: x in t && x in target
  {
    && (forall x, y | x in ids && y in ids && x != y && t[x].group == t[y].group :: target[x] != target[y])
    && (forall x, y | x in ids && y in t && y !in ids && t[x].group == t[y].group :: t[y].order != target[x])
  }

  lemma ClearFreesTargets(t: Table, request: seq<OrderRequest>)
    requires WellFormed(t, IdsOf(request), TargetOf(request)) && Clear(t, request)
    ensures TargetsFree(t, IdsOf(request), TargetOf(request))
  {
    var ids, target := IdsOf(request), TargetOf(request);
    forall x, y | x in ids && y in ids && x != y && t[x].group == t[y].group ensures target[x] != target[y] {
      var i := PlaceOf(request, x);
      var j := PlaceOf(request, y);
      assert i < j || j < i;
    }
    forall x, y | x in ids && y in t && y !in ids && t[x].group == t[y].group ensures t[y].order != target[x] {
      var i := PlaceOf(request, x);
    }
  }

  lemma PlaceOf(request: seq<OrderRequest>, x: nat) returns (i: nat)
    requires Distinct(IdsOf(request)) && x in IdsOf(request)
    ensures i < |request| && request[i].row == x && TargetOf(request)[x] == request[i].orderIndex
  {
    i :| i < |request| && IdsOf(request)[i] == x;
    TargetIsRequested(request, i);
  }

  lemma BelowParkingAvoids(t: Table, request: seq<OrderRequest>)
    requires WellFormed(t, IdsOf(request), TargetOf(request)) && BelowParking(t, request)
    ensures forall x, y | x in IdsOf(request) && y in t && t[x].group == t[y].group ::
            t[y].order <= PARKING < Parked(IdsOf(request))[x]
    ensures forall x, y | x in IdsOf(request) && y in IdsOf(request) ::
            TargetOf(request)[x] != Parked(IdsOf(request))[y]
  {
    var ids, target := IdsOf(request), TargetOf(request);
    ParkedPlaces(ids);
    forall x | x in ids ensures target[x] <= PARKING {
      var i: nat :| i < |ids| && ids[i] == x;
      TargetIsRequested(request, i);
    }
  }

  lemma ClearIsReorderable(t: Table, request: seq<OrderRequest>)
    requires WellFormed(t, IdsOf(request), TargetOf(request))
    requires BelowParking(t, request) && Clear(t, request)
    ensures Reorderable(t, IdsOf(request), TargetOf(request))
  {
    ClearFreesTargets(t, request);
    BelowParkingAvoids(t, request);
  }

  lemma ArrangementIsFlushOrder(rows: seq<nat>, request: seq<OrderRequest>)
    ensures Arrangement(rows, TargetOf(request).Keys) <==> FlushOrder(rows, IdsOf(request))
  {
  }

  /** A row that asks for an index which a row outside the flush holds makes the flush fail,
      whatever the order. */
  lemma {:induction false} OccupantBlocks(t: Table, target: map<nat, nat>, rows: seq<nat>, x: nat, y: nat)
    requires forall z | z in rows :: z in t && z in target
    requires x in rows && y in t && y !in rows && t[x].group == t[y].group && target[x] == t[y].order
    ensures Flush(t, target, rows).None?
    decreases |rows|
  {
    if rows[0] == x {
      assert t[y] == t[x].(order := target[x]);
    } else if Update(t, rows[0], target[rows[0]]).Some? {
      OccupantBlocks(Update(t, rows[0], target[rows[0]]).value, target, rows[1..], x, y);
    }
  }

  /** So do two rows of a group that ask for the same index. */
  lemma {:induction false} SameTargetBlocks(t: Table, target: map<nat, nat>, rows: seq<nat>, x: nat, y: nat)
    requires Distinct(rows) && forall z | z in rows :: z in t && z in target
    requires x in rows && y in rows && x != y && t[x].group == t[y].group && target[x] == target[y]
    ensures Flush(t, target, rows).None?
    decreases |rows|
  {
    if Update(t, rows[0], target[rows[0]]).Some? {
      var u, rest := Update(t, rows[0], target[rows[0]]).value, rows[1..];
      NotAgain(rows);
      if rows[0] == x {
        OccupantBlocks(u, target, rest, y, x);
      } else if rows[0] == y {
        OccupantBlocks(u, target, rest, x, y);
      } else {
        SameTargetBlocks(u, target, rest, x, y);
      }
    }
  }

  lemma NotAgain(rows: seq<nat>)
    requires rows != [] && Distinct(rows)
    ensures Distinct(rows[1..]) && rows[0] !in rows[1..]
  {
  }

  /** A flush leaves the rows it does not update alone. */
  lemma {:induction false} FlushKeepsOthers(t: Table, target: map<nat, nat>, rows: seq<nat>, y: nat)
    requires forall z | z in rows :: z in t && z in target
    requires y in t && y !in rows && Flush(t, target, rows).Some?
    ensures Flush(t, target, rows).value[y] == t[y]
    decreases |rows|
  {
    if rows == [] {
    } else {
      FlushKeepsOthers(Update(t, rows[0], target[rows[0]]).value, target, rows[1..], y);
    }
  }

  /** A request whose indexes are not clear fails in every order of the rows. */
  lemma UnclearFails(t: Table, request: seq<OrderRequest>, first: seq<nat>, second: seq<nat>)
    requires Distinct(IdsOf(request)) && (forall x | x in IdsOf(request) :: x in t) && !Clear(t, request)
    requires FlushOrder(first, IdsOf(request)) && FlushOrder(second, IdsOf(request))
    ensures TwoPhase(t, IdsOf(request), TargetOf(request), first, second).None?
  {
    var half := Flush(t, Parked(IdsOf(request)), first);
    if half.Some? {
      FlushKeepsGroups(t, Parked(IdsOf(request)), first);
      forall y | y in t && y !in IdsOf(request) ensures half.value[y] == t[y] {
        FlushKeepsOthers(t, Parked(IdsOf(request)), first, y);
      }
      UnclearSecondFlush(t, half.value, request, second);
    }
  }

  lemma UnclearSecondFlush(t: Table, u: Table, request: seq<OrderRequest>, second: seq<nat>)
    requires Distinct(IdsOf(request)) && (forall x | x in IdsOf(request) :: x in t) && !Clear(t, request)
    requires u.Keys == t.Keys && (forall x | x in t :: u[x].group == t[x].group)
    requires forall y | y in t && y !in IdsOf(request) :: u[y] == t[y]
    requires FlushOrder(second, IdsOf(request))
    ensures Flush(u, TargetOf(request), second).None?
  {
    if i, j :| 0 <= i < j < |request| && t[request[i].row].group == t[request[j].row].group
                    && request[i].orderIndex == request[j].orderIndex {
      SameRequestBlocks(u, request, second, i, j);
    } else {
      var i, y :| 0 <= i < |request| && y in t && y !in IdsOf(request)
                  && t[y].group == t[request[i].row].group && t[y].order == request[i].orderIndex;
      UnlistedBlocks(u, request, second, i, y);
    }
  }

  lemma SameRequestBlocks(u: Table, request: seq<OrderRequest>, rows: seq<nat>, i: nat, j: nat)
    requires Distinct(IdsOf(request)) && (forall x | x in IdsOf(request) :: x in u) && FlushOrder(rows, IdsOf(request))
    requires i < j < |request| && u[request[i].row].group == u[request[j].row].group
    requires request[i].orderIndex == request[j].orderIndex
    ensures Flush(u, TargetOf(request), rows).None?
  {
    TargetIsRequested(request, i);
    TargetIsRequested(request, j);
    assert IdsOf(request)[i] != IdsOf(request)[j];
    SameTargetBlocks(u, TargetOf(request), rows, request[i].row, request[j].row);
  }

  lemma UnlistedBlocks(u: Table, request: seq<OrderRequest>, rows: seq<nat>, i: nat, y: nat)
    requires Distinct(IdsOf(request)) && (forall x | x in IdsOf(request) :: x in u) && FlushOrder(rows, IdsOf(request))
    requires i < |request| && y in u && y !in IdsOf(request)
    requires u[y].group == u[request[i].row].group && u[y].order == request[i].orderIndex
    ensures Flush(u, TargetOf(request), rows).None?
  {
    TargetIsRequested(request, i);
    assert IdsOf(request)[i] in IdsOf(request);
    OccupantBlocks(u, TargetOf(request), rows, request[i].row, y);
  }

  /** With old and requested indexes up to 100000, a request naming existing rows once each
      leaves exactly the requested table when its indexes are distinct and clear of unlisted
      rows, and fails when they are not, in every order of the rows within either flush. */
  lemma SucceedsIffClear(t: Table, request: seq<OrderRequest>, first: seq<nat>, second: seq<nat>)
    requires Unique(t) && Distinct(IdsOf(request)) && (forall x | x in IdsOf(request) :: x in t)
    requires BelowParking(t, request)
    requires FlushOrder(first, IdsOf(request)) && FlushOrder(second, IdsOf(request))
    ensures TwoPhase(t, IdsOf(request), TargetOf(request), first, second)
            == if Clear(t, request) then Some(Assigned(t, TargetOf(request))) else None
  {
    if Clear(t, request) {
      RequestIsWellFormed(t, request);
      ClearIsReorderable(t, request);
      ArrangementIsFlushOrder(first, request);
      ArrangementIsFlushOrder(second, request);
      ReorderableSucceeds(t, IdsOf(request), TargetOf(request), first, second);
    } else {
      UnclearFails(t, request, first, second);
    }
  }

  /** Beyond 100000 the parking range gets in the way: moving row 1 to index 2 fails although
      row 0, at 100001, is not in its way. */
  lemma ParkingCollides()
    ensures var t: Table, request := map[0 := Row(0, 100001), 1 := Row(0, 1)], [OrderRequest(1, 2)];
      && Unique(t) && Clear(t, request)
      && TwoPhase(t, [1], map[1 := 2], [1], [1]) == None
  {
    var t: Table := map[0 := Row(0, 100001), 1 := Row(0, 1)];
    var request := [OrderRequest(1, 2)];
    assert IdsOf(request) == [1];
    assert Parked([1]) == map[1 := 100001] by { assert Parked([1][..0]) == map[]; }
    assert t[0] == t[1].(order := 100001);
    assert Update(t, 1, 100001) == None;
    assert [1][0] == 1;
  }
}
