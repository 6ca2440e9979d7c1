/** Grouping records by an id in a dictionary of lists and taking the groups in order of the
    id, as both attendance summaries do. */
module Grouping {

  function RecordsOf<R>(records: seq<R>, idOf: R -> nat, id: nat): seq<R> {
    if records == [] then []
    else
      var last := records[|records| - 1];
      RecordsOf(records[..|records| - 1], idOf, id) + if idOf(last) == id then [last] else []
  }

  lemma {:induction false} GroupMembers<R(!new)>(records: seq<R>, idOf: R -> nat, id: nat)
    ensures forall r :: r in RecordsOf(records, idOf, id) <==> r in records && idOf(r) == id
  {
    if records == [] {
    } else {
      GroupMembers(records[..|records| - 1], idOf, id);
      assert records == records[..|records| - 1] + [records[|records| - 1]];
    }
  }

  ghost predicate Increasing(ids: seq<nat>) {
    forall i, j | 0 <= i < j < |ids| :: ids[i] < ids[j]
  }

  /** `ids` are the ids of the records, each once, in order. */
  ghost predicate IdsInOrder<R>(ids: seq<nat>, records: seq<R>, idOf: R -> nat) {
    Increasing(ids) && forall id :: id in ids <==> RecordsOf(records, idOf, id) != []
  }

  /** The `defaultdict(list)` loop. */
  method GroupBy<R>(records: seq<R>, idOf: R -> nat) returns (grouped: map<nat, seq<R>>)
    ensures forall id :: id in grouped <==> RecordsOf(records, idOf, id) != []
    ensures forall id | id in grouped :: grouped[id] == RecordsOf(records, idOf, id)
  {
    grouped := map[];
    for k := 0 to |records|
      invariant forall id :: id in grouped <==> RecordsOf(records[..k], idOf, id) != []
      invariant forall id | id in grouped :: grouped[id] == RecordsOf(records[..k], idOf, id)
    {
      assert records[..k + 1][..k] == records[..k];
      var id := idOf(records[k]);
      grouped := grouped[id := (if id in grouped then grouped[id] else []) + [records[k]]];
    }
    assert records[..|records|] == records;
  }

  lemma {:induction false} SmallestExists(ids: set<nat>) returns (m: nat)
    requires ids != {}
    ensures m in ids && forall id | id in ids :: m <= id
    decreases |ids|
  {
    var k :| k in ids;
    var others := ids - {k};
    assert forall id | id in ids :: id == k || id in others;
    if others == {} {
      m := k;
    } else {
      var n := SmallestExists(others);
      m := if n < k then n else k;
    }
  }

  /** `sorted(grouped.items())`, by key. */
  method SortedKeys<R>(grouped: map<nat, seq<R>>) returns (ids: seq<nat>)
    ensures Increasing(ids) && forall id :: id in ids <==> id in grouped
  {
    ids := [];
    var rest := grouped.Keys;
    while rest != {}
      invariant rest <= grouped.Keys && Increasing(ids)
      invariant forall id :: id in grouped <==> id in ids || id in rest
      invariant forall i, id | 0 <= i < |ids| && id in rest :: ids[i] < id
      decreases |rest|
    {
      ghost var m := SmallestExists(rest);
      var next :| next in rest && forall id | id in rest :: next <= id;
      ids := ids + [next];
      rest := rest - {next};
    }
  }

  /** The list of items made of the groups, in order of the ids. */
  method MakeItems<R, I>(ids: seq<nat>, grouped: map<nat, seq<R>>, make: (nat, seq<R>) -> I) returns (items: seq<I>)
    requires forall id | id in ids :: id in grouped
    ensures |items| == |ids| && forall k | 0 <= k < |ids| :: items[k] == make(ids[k], grouped[ids[k]])
  {
    items := [];
    for k := 0 to |ids|
      invariant |items| == k && forall j | 0 <= j < k :: items[j] == make(ids[j], grouped[ids[j]])
    {
      items := items + [make(ids[k], grouped[ids[k]])];
    }
  }

  // The groups partition the records

  function GroupSizes<R>(ids: seq<nat>, records: seq<R>, idOf: R -> nat): nat {
    if ids == [] then 0
    else GroupSizes(ids[..|ids| - 1], records, idOf) + |RecordsOf(records, idOf, ids[|ids| - 1])|
  }

  lemma {:induction false} OneMoreRecord<R>(ids: seq<nat>, records: seq<R>, idOf: R -> nat)
    requires Increasing(ids) && records != []
    ensures GroupSizes(ids, records, idOf)
            == GroupSizes(ids, records[..|records| - 1], idOf) + if idOf(records[|records| - 1]) in ids then 1 else 0
    decreases |ids|
  {
    if ids == [] {
    } else {
      var front := ids[..|ids| - 1];
      OneMoreRecord(front, records, idOf);
      assert ids == front + [ids[|ids| - 1]];
      assert forall i | 0 <= i < |front| :: front[i] < ids[|ids| - 1];
    }
  }

  lemma {:induction false} NoRecords<R>(ids: seq<nat>, idOf: R -> nat)
    ensures GroupSizes(ids, [], idOf) == 0
  {
    if ids == [] {
    } else {
      NoRecords(ids[..|ids| - 1], idOf);
    }
  }

  /** When the ids cover the records, the sizes of the groups add up to the number of records. */
  lemma {:induction false} GroupsPartition<R>(ids: seq<nat>, records: seq<R>, idOf: R -> nat)
    requires Increasing(ids) && forall r | r in records :: idOf(r) in ids
    ensures GroupSizes(ids, records, idOf) == |records|
    decreases |records|
  {
    if records == [] {
      NoRecords(ids, idOf);
    } else {
      GroupsPartition(ids, records[..|records| - 1], idOf);
      OneMoreRecord(ids, records, idOf);
    }
  }
}
