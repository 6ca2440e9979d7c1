/** What every reachable state of the question sets keeps. */
module QuestionSetInvariants {
  import opened Options
  import opened QuestionSets
  import Reorder

  // Counters

  lemma {:induction false} SumValuesWithout<K>(counter: map<K, nat>, key: K)
    requires key in counter
    ensures SumValues(counter) == counter[key] + SumValues(counter - {key})
    decreases |counter|
  {
    var k :| k in counter && SumValues(counter) == counter[k] + SumValues(counter - {k});
    if k != key {
      SumValuesWithout(counter - {k}, key);
      SumValuesWithout(counter - {key}, k);
      assert counter - {k} - {key} == counter - {key} - {k};
    }
  }

  lemma BumpAddsOne<K>(counter: map<K, nat>, key: K)
    ensures SumValues(Bump(counter, key)) == SumValues(counter) + 1
  {
    SumValuesWithout(Bump(counter, key), key);
    if key in counter {
      SumValuesWithout(counter, key);
      assert Bump(counter, key) - {key} == counter - {key};
    } else {
      assert Bump(counter, key) - {key} == counter;
    }
  }

  /** A tally's counts are the numbers of lines with each key, and add up to all lines. */
  lemma {:induction false} TallyCounts<K>(lines: seq<Line>, keyOf: Line -> K)
    ensures SumValues(Tally(lines, keyOf)) == |lines|
    ensures forall k :: CountFor(Tally(lines, keyOf), k) == Occurrences(lines, keyOf, k)
    ensures forall k | k in Tally(lines, keyOf) :: Tally(lines, keyOf)[k] > 0
  {
    if lines == [] {
    } else {
      var front, last := lines[..|lines| - 1], lines[|lines| - 1];
      TallyCounts(front, keyOf);
      BumpAddsOne(Tally(front, keyOf), keyOf(last));
      forall k ensures CountFor(Tally(lines, keyOf), k) == Occurrences(lines, keyOf, k) {
        assert CountFor(Tally(front, keyOf), k) == Occurrences(front, keyOf, k);
      }
    }
  }

  ghost function CountFor<K>(counter: map<K, nat>, key: K): nat {
    if key in counter then counter[key] else 0
  }

  // The invariant

  ghost predicate DistinctIds(items: seq<Item>) {
    forall i, j | 0 <= i < j < |items| :: items[i].id != items[j].id
  }

  /** The two unique constraints of the items table. */
  ghost predicate UniqueItems(items: seq<Item>) {
    forall i, j | 0 <= i < j < |items| && items[i].set_ == items[j].set_ ::
      items[i].orderIndex != items[j].orderIndex && items[i].question != items[j].question
  }

  ghost predicate Sound(s: Store) {
    && Linked(s.items, s.questions)
    && DistinctIds(s.items) && UniqueItems(s.items)
    && (forall i | 0 <= i < |s.items| :: s.items[i].set_ < |s.sets| && s.items[i].id < s.issued)
  }

  /** Each distribution counts every item of its set once. */
  ghost predicate Counted(s: Store)
    requires Linked(s.items, s.questions)
  {
    forall x: nat | x < |s.sets| ::
      && SumValues(s.sets[x].difficulties) == |SetLines(s.questions, s.items, x)|
      && SumValues(s.sets[x].topics) == |SetLines(s.questions, s.items, x)|
  }

  ghost predicate Inv(s: Store) {
    Sound(s) && Counted(s)
  }

  /** The derived columns are those of the set's items and their questions now. */
  ghost predicate UpToDate(s: Store, x: nat)
    requires Linked(s.items, s.questions) && x < |s.sets|
  {
    TotalRight(s, x) && CountsRight(s, x)
  }

  ghost predicate TotalRight(s: Store, x: nat)
    requires Linked(s.items, s.questions) && x < |s.sets|
  {
    s.sets[x].totalMarks == Total(SetLines(s.questions, s.items, x))
  }

  ghost predicate CountsRight(s: Store, x: nat)
    requires Linked(s.items, s.questions) && x < |s.sets|
  {
    var lines := SetLines(s.questions, s.items, x);
    && (forall d :: CountFor(s.sets[x].difficulties, d) == Occurrences(lines, DifficultyOf, d))
    && (forall t :: CountFor(s.sets[x].topics, t) == Occurrences(lines, TopicOf, t))
  }

  // How the lines of a set change

  lemma {:induction false} LinesUnderEdit(before: seq<Question>, after: seq<Question>, items: seq<Item>, x: nat)
    requires Linked(items, before) && Linked(items, after)
    ensures |SetLines(before, items, x)| == |SetLines(after, items, x)|
  {
    if items == [] {
    } else {
      LinesUnderEdit(before, after, items[..|items| - 1], x);
    }
  }

  lemma {:induction false} LinesUnderReorder(questions: seq<Question>, items: seq<Item>, moved: seq<Item>, x: nat)
    requires Linked(items, questions) && |moved| == |items|
    requires forall i | 0 <= i < |items| :: moved[i] == items[i].(orderIndex := moved[i].orderIndex)
    ensures Linked(moved, questions)
    ensures |SetLines(questions, moved, x)| == |SetLines(questions, items, x)|
  {
    if items == [] {
    } else {
      LinesUnderReorder(questions, items[..|items| - 1], moved[..|items| - 1], x);
    }
  }

  lemma {:induction false} LinesOfOtherSets(questions: seq<Question>, items: seq<Item>, id: nat, x: nat)
    requires Linked(items, questions)
    requires forall i | 0 <= i < |items| && items[i].id == id :: items[i].set_ != x
    ensures SetLines(questions, WithoutItem(items, id), x) == SetLines(questions, items, x)
  {
    if items == [] {
    } else {
      var front, last := items[..|items| - 1], items[|items| - 1];
      LinesOfOtherSets(questions, front, id, x);
      var rest := WithoutItem(front, id);
      assert rest + [] == rest && (rest + [last])[..|rest|] == rest;
      assert SetLines(questions, front, x) + [] == SetLines(questions, front, x);
    }
  }

  lemma {:induction false} WithoutItemStaysSound(items: seq<Item>, id: nat)
    requires DistinctIds(items) && UniqueItems(items)
    ensures DistinctIds(WithoutItem(items, id)) && UniqueItems(WithoutItem(items, id))
  {
    if items == [] {
    } else {
      WithoutItemStaysSound(items[..|items| - 1], id);
    }
  }

  // Items as rows of the reordered table

  lemma {:induction false} RowOfItem(items: seq<Item>, i: nat)
    requires DistinctIds(items) && i < |items|
    ensures items[i].id in RowsOf(items)
            && RowsOf(items)[items[i].id] == Reorder.Row(items[i].set_, items[i].orderIndex)
  {
    if i < |items| - 1 { RowOfItem(items[..|items| - 1], i); }
  }

  lemma RowOfEachItem(items: seq<Item>)
    requires DistinctIds(items)
    ensures forall i | 0 <= i < |items| ::
              items[i].id in RowsOf(items) && RowsOf(items)[items[i].id]
                  == Reorder.Row(items[i].set_, items[i].orderIndex)
  {
    forall i | 0 <= i < |items|
      ensures items[i].id in RowsOf(items)
              && RowsOf(items)[items[i].id] == Reorder.Row(items[i].set_, items[i].orderIndex)
    {
      RowOfItem(items, i);
    }
  }

  lemma RowsAreUnique(items: seq<Item>)
    requires DistinctIds(items) && UniqueItems(items)
    ensures Reorder.Unique(RowsOf(items))
  {
    var t := RowsOf(items);
    forall x, y | x in t && y in t && x != y ensures t[x] != t[y] {
      var i :| 0 <= i < |items| && items[i].id == x;
      var j :| 0 <= j < |items| && items[j].id == y;
      RowOfItem(items, i);
      RowOfItem(items, j);
    }
  }

  /** Items moved to the order indexes of a table that satisfies the constraint satisfy it. */
  lemma UniqueAfterReorder(items: seq<Item>, t: Reorder.Table)
    requires DistinctIds(items) && Reorder.Unique(t) && t.Keys == RowsOf(items).Keys
    requires forall x | x in t :: t[x].group == RowsOf(items)[x].group
    ensures forall i, j | 0 <= i < j < |items| && items[i].set_ == items[j].set_ ::
              WithOrders(items, t)[i].orderIndex != WithOrders(items, t)[j].orderIndex
  {
    forall i, j | 0 <= i < j < |items| && items[i].set_ == items[j].set_
      ensures WithOrders(items, t)[i].orderIndex != WithOrders(items, t)[j].orderIndex
    {
      RowOfItem(items, i);
      RowOfItem(items, j);
      assert t[items[i].id] != t[items[j].id];
    }
  }

  // Steps

  lemma EditPreserves(s: Store, q: nat, question: Question)
    requires Inv(s)
    ensures Inv(UpdateQuestion(s, q, question).0)
  {
    var t := UpdateQuestion(s, q, question).0;
    forall x: nat | x < |s.sets| ensures |SetLines(t.questions, t.items, x)| == |SetLines(s.questions, s.items, x)| {
      LinesUnderEdit(s.questions, t.questions, s.items, x);
    }
  }

  lemma NewQuestionPreserves(s: Store, question: Question)
    requires Inv(s)
    ensures Inv(CreateQuestion(s, question).0)
  {
    var t := CreateQuestion(s, question).0;
    forall x: nat | x < |s.sets| ensures |SetLines(t.questions, t.items, x)| == |SetLines(s.questions, s.items, x)| {
      LinesUnderEdit(s.questions, t.questions, s.items, x);
    }
  }

  lemma {:induction false} NoLinesForNewSet(questions: seq<Question>, items: seq<Item>, x: nat)
    requires Linked(items, questions) && forall i | 0 <= i < |items| :: items[i].set_ != x
    ensures SetLines(questions, items, x) == []
  {
    if items == [] {
    } else {
      NoLinesForNewSet(questions, items[..|items| - 1], x);
    }
  }

  lemma NewSetPreserves(s: Store)
    requires Inv(s)
    ensures Inv(CreateSet(s).0)
  {
    NoLinesForNewSet(s.questions, s.items, |s.sets|);
  }

  /** A set's row recalculated from items that changed for that set only. */
  lemma RecalculationPreserves(s: Store, t: Store, x: nat)
    requires Inv(s) && Sound(t) && x < |s.sets| && t.questions == s.questions
    requires t.sets == s.sets[x := Recalculated(t.questions, t.items, x)]
    requires forall y: nat | y < |s.sets| && y != x ::
              SetLines(t.questions, t.items, y) == SetLines(s.questions, s.items, y)
    ensures Inv(t) && UpToDate(t, x)
  {
    TallyCounts(SetLines(t.questions, t.items, x), DifficultyOf);
    TallyCounts(SetLines(t.questions, t.items, x), TopicOf);
  }

  lemma LinesWithOneMore(questions: seq<Question>, items: seq<Item>, item: Item, x: nat)
    requires Linked(items, questions) && item.question < |questions| && item.set_ != x
    ensures SetLines(questions, items + [item], x) == SetLines(questions, items, x)
  {
    assert (items + [item])[..|items|] == items;
    assert SetLines(questions, items, x) + [] == SetLines(questions, items, x);
  }

  lemma AddedItemIsSound(s: Store, t: Store, item: Item)
    requires Sound(s) && t == s.(items := s.items + [item], issued := s.issued + 1, sets := t.sets)
              && |t.sets| == |s.sets|
    requires item.id == s.issued && item.set_ < |s.sets| && item.question < |s.questions|
    requires !QuestionTaken(s.items, item.set_, item.question) && !IndexTaken(s.items, item.set_, item.orderIndex)
    ensures Sound(t)
  {
  }

  lemma AddPreserves(s: Store, set_: nat, q: nat, orderIndex: Option<nat>, marksOverride: Option<nat>)
    requires Inv(s)
    ensures Inv(AddItem(s, set_, q, orderIndex, marksOverride).0)
    ensures AddItem(s, set_, q, orderIndex, marksOverride).1.Done? ==>
              UpToDate(AddItem(s, set_, q, orderIndex, marksOverride).0, set_)
  {
    var t := AddItem(s, set_, q, orderIndex, marksOverride).0;
    if AddItem(s, set_, q, orderIndex, marksOverride).1.Done? {
      var item := t.items[|s.items|];
      assert t.items == s.items + [item];
      AddedItemIsSound(s, t, item);
      forall y: nat | y < |s.sets| && y != set_
        ensures SetLines(t.questions, t.items, y) == SetLines(s.questions, s.items, y)
      {
        LinesWithOneMore(s.questions, s.items, item, y);
      }
      RecalculationPreserves(s, t, set_);
    }
  }

  lemma RemovedItemIsSound(s: Store, t: Store, id: nat)
    requires Sound(s) && t == s.(items := WithoutItem(s.items, id), sets := t.sets) && |t.sets| == |s.sets|
    ensures Sound(t)
  {
    WithoutItemStaysSound(s.items, id);
    forall i | 0 <= i < |t.items|
      ensures t.items[i].question < |t.questions| && t.items[i].set_ < |t.sets| && t.items[i].id < t.issued
    {
      assert t.items[i] in s.items;
    }
  }

  lemma RemovePreserves(s: Store, set_: nat, id: nat)
    requires Inv(s)
    ensures Inv(RemoveItem(s, set_, id).0)
    ensures RemoveItem(s, set_, id).1.Done? ==> UpToDate(RemoveItem(s, set_, id).0, set_)
  {
    var t := RemoveItem(s, set_, id).0;
    if RemoveItem(s, set_, id).1.Done? {
      RemovedItemIsSound(s, t, id);
      forall y: nat | y < |s.sets| && y != set_
        ensures SetLines(t.questions, t.items, y) == SetLines(s.questions, s.items, y)
      {
        LinesOfOtherSets(s.questions, s.items, id, y);
      }
      RecalculationPreserves(s, t, set_);
    }
  }

  lemma ReorderPreserves(s: Store, set_: nat, request: seq<Reorder.OrderRequest>, first: seq<nat>, second: seq<nat>)
    requires Inv(s)
    ensures Inv(ReorderItems(s, set_, request, first, second).0)
  {
    if ReorderItems(s, set_, request, first, second).1.Done? {
      Reorder.ParkedPlaces(Reorder.IdsOf(request));
      RowsAreUnique(s.items);
      Reorder.TwoPhaseKeeps(RowsOf(s.items), Reorder.IdsOf(request), Reorder.TargetOf(request), first, second);
      var u := Reorder.TwoPhase(RowsOf(s.items), Reorder.IdsOf(request), Reorder.TargetOf(request), first,
          second).value;
      MovedItemsPreserve(s, u);
    }
  }

  lemma MovedItemsPreserve(s: Store, u: Reorder.Table)
    requires Inv(s) && Reorder.Unique(u) && u.Keys == RowsOf(s.items).Keys
    requires forall x | x in u :: u[x].group == RowsOf(s.items)[x].group
    ensures Inv(s.(items := WithOrders(s.items, u)))
  {
    var moved := WithOrders(s.items, u);
    UniqueAfterReorder(s.items, u);
    forall x: nat | x < |s.sets| ensures |SetLines(s.questions, moved, x)| == |SetLines(s.questions, s.items, x)| {
      LinesUnderReorder(s.questions, s.items, moved, x);
    }
  }

  lemma StepPreserves(s: Store, request: Request)
    requires Inv(s)
    ensures Inv(Step(s, request).0)
  {
    match request
    case NewQuestion(question) => NewQuestionPreserves(s, question);
    case EditQuestion(id, question) => EditPreserves(s, id, question);
    case NewSet => NewSetPreserves(s);
    case Add(set_, q, orderIndex, marksOverride) => AddPreserves(s, set_, q, orderIndex, marksOverride);
    case Remove(set_, item) => RemovePreserves(s, set_, item);
    case Reordering(set_, orders, first, second) => ReorderPreserves(s, set_, orders, first, second);
  }

  lemma {:induction false} RunPreserves(s: Store, requests: seq<Request>)
    requires Inv(s)
    ensures Inv(Run(s, requests))
    decreases |requests|
  {
    if requests == [] {
    } else {
      StepPreserves(s, requests[0]);
      RunPreserves(Step(s, requests[0]).0, requests[1..]);
    }
  }

  // Main results

  /** In every reachable state the items of a set have distinct questions and indexes. */
  lemma ItemsStayDistinct(requests: seq<Request>, i: nat, j: nat)
    requires var s := Run(EMPTY, requests); i < j < |s.items| && s.items[i].set_ == s.items[j].set_
    ensures var s := Run(EMPTY, requests);
      s.items[i].question != s.items[j].question && s.items[i].orderIndex != s.items[j].orderIndex
          && s.items[i].id != s.items[j].id
  {
    RunPreserves(EMPTY, requests);
  }

  /** In every reachable state both distributions of every set add up to its number of items,
      and no two items of a set share an order index or a question. */
  lemma DistributionsCountItems(requests: seq<Request>, x: nat)
    requires x < |Run(EMPTY, requests).sets|
    ensures var s := Run(EMPTY, requests);
      && Linked(s.items, s.questions) && UniqueItems(s.items)
      && SumValues(s.sets[x].difficulties) == |SetLines(s.questions, s.items, x)|
      && SumValues(s.sets[x].topics) == |SetLines(s.questions, s.items, x)|
  {
    RunPreserves(EMPTY, requests);
  }

  /** Right after an item is added to or removed from a set, each count is the number of its
      items with that key and the total is the sum of their marks. */
  lemma UpToDateAfterChange(requests: seq<Request>, last: Request)
    requires last.Add? || last.Remove?
    requires Step(Run(EMPTY, requests), last).1.Done?
    ensures last.set_ < |Step(Run(EMPTY, requests), last).0.sets|
            && UpToDate(Step(Run(EMPTY, requests), last).0, last.set_)
  {
    RunPreserves(EMPTY, requests);
    ChangeIsUpToDate(Run(EMPTY, requests), last);
  }

  lemma ChangeIsUpToDate(s: Store, change: Request)
    requires Inv(s) && (change.Add? || change.Remove?) && Step(s, change).1.Done?
    ensures change.set_ < |Step(s, change).0.sets| && UpToDate(Step(s, change).0, change.set_)
  {
    match change
    case Add(set_, q, orderIndex, marksOverride) => AddPreserves(s, set_, q, orderIndex, marksOverride);
    case Remove(set_, item) => RemovePreserves(s, set_, item);
  }

  /** An item added without an index gets one no item of the set has. */
  lemma DefaultIndexIsFree(s: Store, set_: nat, q: nat, marksOverride: Option<nat>)
    requires Sound(s) && set_ < |s.sets| && q < |s.questions|
    ensures AddItem(s, set_, q, None, marksOverride).1.Done? <==> !QuestionTaken(s.items, set_, q)
  {
  }

  // Reordering

  /** The requested indexes are distinct and no unlisted item of the set has one of them. */
  ghost predicate ItemsClear(items: seq<Item>, set_: nat, request: seq<Reorder.OrderRequest>) {
    && (forall i, j | 0 <= i < j < |request| :: request[i].orderIndex != request[j].orderIndex)
    && (forall k, i | 0 <= k < |items| && items[k].set_ == set_ && items[k].id !in Reorder.IdsOf(request)
        && 0 <= i < |request| ::
          items[k].orderIndex != request[i].orderIndex)
  }

  ghost predicate ItemsBelowParking(items: seq<Item>, set_: nat, request: seq<Reorder.OrderRequest>) {
    && (forall k | 0 <= k < |items| && items[k].set_ == set_ :: items[k].orderIndex <= Reorder.PARKING)
    && (forall i | 0 <= i < |request| :: request[i].orderIndex <= Reorder.PARKING)
  }

  /** Exactly the listed items have moved, each to the index asked for. */
  ghost predicate MovedAsRequested(items: seq<Item>, moved: seq<Item>, request: seq<Reorder.OrderRequest>) {
    && |moved| == |items|
    && (forall k | 0 <= k < |items| && items[k].id !in Reorder.IdsOf(request) :: moved[k] == items[k])
    && (forall k, i | 0 <= k < |items| && 0 <= i < |request| && items[k].id == request[i].row ::
          moved[k] == items[k].(orderIndex := request[i].orderIndex))
  }

  ghost predicate Listed(items: seq<Item>, set_: nat, request: seq<Reorder.OrderRequest>) {
    Reorder.Distinct(Reorder.IdsOf(request)) && forall i | 0 <= i < |request| :: ItemOfSet(items, request[i].row, set_)
  }

  lemma ListedRows(items: seq<Item>, set_: nat, request: seq<Reorder.OrderRequest>)
    requires DistinctIds(items) && Listed(items, set_, request)
    ensures forall x | x in Reorder.IdsOf(request) :: x in RowsOf(items) && RowsOf(items)[x].group == set_
  {
    RowOfEachItem(items);
    forall x | x in Reorder.IdsOf(request) ensures x in RowsOf(items) && RowsOf(items)[x].group == set_ {
      var i :| 0 <= i < |request| && Reorder.IdsOf(request)[i] == x;
      assert ItemOfSet(items, request[i].row, set_);
    }
  }

  lemma ClearItemsAreClear(items: seq<Item>, set_: nat, request: seq<Reorder.OrderRequest>)
    requires DistinctIds(items) && forall x | x in Reorder.IdsOf(request) ::
              x in RowsOf(items) && RowsOf(items)[x].group == set_
    ensures ItemsClear(items, set_, request) <==> Reorder.Clear(RowsOf(items), request)
  {
    RowOfEachItem(items);
    var t := RowsOf(items);
    assert forall i | 0 <= i < |request| :: Reorder.IdsOf(request)[i] in Reorder.IdsOf(request);
  }

  lemma ItemsBelowAreBelow(items: seq<Item>, set_: nat, request: seq<Reorder.OrderRequest>)
    requires DistinctIds(items) && forall x | x in Reorder.IdsOf(request) ::
              x in RowsOf(items) && RowsOf(items)[x].group == set_
    requires ItemsBelowParking(items, set_, request)
    ensures Reorder.BelowParking(RowsOf(items), request)
  {
    RowOfEachItem(items);
  }

  lemma AssignedItems(items: seq<Item>, request: seq<Reorder.OrderRequest>)
    requires DistinctIds(items) && Reorder.Distinct(Reorder.IdsOf(request))
    ensures MovedAsRequested(items, WithOrders(items, Reorder.Assigned(RowsOf(items), Reorder.TargetOf(request))),
            request)
  {
    RowOfEachItem(items);
    forall i: nat | i < |request|
      ensures request[i].row in Reorder.TargetOf(request)
              && Reorder.TargetOf(request)[request[i].row] == request[i].orderIndex
    {
      Reorder.TargetIsRequested(request, i);
    }
  }

  lemma OutcomeOfFlushes(s: Store, set_: nat, request: seq<Reorder.OrderRequest>, first: seq<nat>, second: seq<nat>)
    requires DistinctIds(s.items) && set_ < |s.sets| && Listed(s.items, set_, request)
    requires Reorder.FlushOrder(first, Reorder.IdsOf(request)) && Reorder.FlushOrder(second, Reorder.IdsOf(request))
    ensures (forall x | x in Reorder.IdsOf(request) :: x in RowsOf(s.items))
    ensures var moved := Reorder.TwoPhase(RowsOf(s.items), Reorder.IdsOf(request), Reorder.TargetOf(request), first,
            second);
      ReorderItems(s, set_, request, first, second) ==
      if moved.None? then (s, Failed(OrderConflict)) else (s.(items := WithOrders(s.items, moved.value)), Done(set_))
  {
    ListedRows(s.items, set_, request);
  }

  /** With old and requested indexes of the set up to 100000, a reorder of items of the set, in
      every order of the rows within either flush, moves exactly them to the indexes asked for
      when those are distinct and clear of unlisted items, and is refused without a trace when
      they are not. */
  lemma ReorderWorksIff(s: Store, set_: nat, request: seq<Reorder.OrderRequest>, first: seq<nat>, second: seq<nat>)
    requires Inv(s) && set_ < |s.sets| && Listed(s.items, set_, request)
    requires ItemsBelowParking(s.items, set_, request)
    requires Reorder.FlushOrder(first, Reorder.IdsOf(request)) && Reorder.FlushOrder(second, Reorder.IdsOf(request))
    ensures var (t, outcome) := ReorderItems(s, set_, request, first, second);
      if ItemsClear(s.items, set_, request) then
        outcome == Done(set_) && t == s.(items := t.items) && MovedAsRequested(s.items, t.items, request)
      else
        (t, outcome) == (s, Failed(OrderConflict))
  {
    RowsAreUnique(s.items);
    ListedRows(s.items, set_, request);
    ClearItemsAreClear(s.items, set_, request);
    ItemsBelowAreBelow(s.items, set_, request);
    Reorder.SucceedsIffClear(RowsOf(s.items), request, first, second);
    OutcomeOfFlushes(s, set_, request, first, second);
    AssignedItems(s.items, request);
  }
}
