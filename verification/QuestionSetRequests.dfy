/** What each request about questions and sets does to the rows it names, when it is refused, and
    what it leaves alone. */
module QuestionSetRequests {
  import opened Options
  import opened QuestionSets
  import opened QuestionSetInvariants
  import QuestionSetTotals
  import Reorder

  /** A refused request changes nothing. */
  lemma RefusedChangesNothing(s: Store, request: Request)
    requires Linked(s.items, s.questions) && Step(s, request).1.Failed?
    ensures Step(s, request).0 == s
  {
  }

  /** Questions come and change as asked, unless they would lose more marks than they give. */
  lemma QuestionsAsAsked(s: Store, q: nat, question: Question)
    requires Linked(s.items, s.questions)
    ensures var (t, outcome) := Step(s, NewQuestion(question));
      && (outcome.Done? <==> question.negativeMarks <= question.marks)
      && (outcome.Done? ==> outcome == Done(|s.questions|) && t == s.(questions := s.questions + [question]))
      && (outcome.Failed? ==> outcome.error == InvalidMarks)
    ensures var (t, outcome) := Step(s, EditQuestion(q, question));
      && (outcome.Done? <==> q < |s.questions| && question.negativeMarks <= question.marks)
      && (outcome.Done? ==> outcome == Done(q) && t == s.(questions := s.questions[q := question]))
      && (outcome.Failed? ==> outcome.error == if q < |s.questions| then InvalidMarks else QuestionNotFound)
    ensures Step(s, NewSet) == (s.(sets := s.sets + [SetRow(0, map[], map[])]), Done(|s.sets|))
  {
  }

  // The lines of a set

  ghost function Places(items: seq<Item>, x: nat): set<nat> {
    set i: nat | i < |items| && items[i].set_ == x
  }

  lemma PlacesWithLast(items: seq<Item>, x: nat)
    requires items != []
    ensures Places(items, x) == Places(items[..|items| - 1], x)
              + if items[|items| - 1].set_ == x then {|items| - 1} else {}
    ensures |items| - 1 !in Places(items[..|items| - 1], x)
  {
  }

  /** A set has a line for each of its items. */
  lemma {:induction false} AsManyLines(questions: seq<Question>, items: seq<Item>, x: nat)
    requires Linked(items, questions)
    ensures |SetLines(questions, items, x)| == |Places(items, x)|
  {
    if items == [] {
    } else {
      AsManyLines(questions, items[..|items| - 1], x);
      PlacesWithLast(items, x);
      QuestionSetTotals.LastLine(questions, items, x);
    }
  }

  /** The line of an item carries its question. */
  lemma {:induction false} LineOfItem(questions: seq<Question>, items: seq<Item>, x: nat, i: nat)
    requires Linked(items, questions) && i < |items| && items[i].set_ == x
    ensures Line(items[i], questions[items[i].question]) in SetLines(questions, items, x)
  {
    QuestionSetTotals.LastLine(questions, items, x);
    if i < |items| - 1 { LineOfItem(questions, items[..|items| - 1], x, i); }
  }

  /** The mark a set counts for an item. */
  ghost function Counts(item: Item, questions: seq<Question>): nat
    requires item.question < |questions|
  {
    match item.marksOverride
    case Some(marks) => marks
    case None => questions[item.question].marks
  }

  lemma OneMoreItem(questions: seq<Question>, items: seq<Item>, item: Item, x: nat)
    requires Linked(items, questions) && item.question < |questions|
    ensures Total(SetLines(questions, items + [item], x)) ==
            Total(SetLines(questions, items, x)) + if item.set_ == x then Counts(item, questions) else 0
  {
    assert (items + [item])[..|items + [item]| - 1] == items;
    QuestionSetTotals.LastLine(questions, items + [item], x);
  }

  // Adding

  ghost predicate CanAdd(s: Store, x: nat, q: nat, orderIndex: Option<nat>) {
    && x < |s.sets| && q < |s.questions|
    && (forall i | 0 <= i < |s.items| && s.items[i].set_ == x ::
          s.items[i].question != q && (orderIndex.Some? ==> s.items[i].orderIndex != orderIndex.value))
  }

  lemma AddedWhen(s: Store, x: nat, q: nat, orderIndex: Option<nat>, marksOverride: Option<nat>)
    requires Inv(s)
    ensures Step(s, Add(x, q, orderIndex, marksOverride)).1.Done? <==> CanAdd(s, x, q, orderIndex)
  {
    if orderIndex.None? { assert !IndexTaken(s.items, x, NextOrderIndex(s.items, x)); }
  }

  /** An item is added exactly when set and question exist, the set lacks the question, and an
      index asked for is free; it gets that index or the one after the largest. */
  lemma AddsAsAsked(s: Store, x: nat, q: nat, orderIndex: Option<nat>, marksOverride: Option<nat>)
    requires Inv(s)
    ensures var (t, outcome) := Step(s, Add(x, q, orderIndex, marksOverride));
      && (outcome.Done? <==> CanAdd(s, x, q, orderIndex))
      && (outcome.Failed? ==>
            outcome.error == if x >= |s.sets| then SetNotFound else if q >= |s.questions| then QuestionNotFound
                             else ItemConflict)
      && (outcome.Done? ==>
            && outcome == Done(s.issued) && t.issued == s.issued + 1 && t.questions == s.questions
            && |t.items| == |s.items| + 1 && t.items == s.items + [t.items[|s.items|]]
            && t.items[|s.items|] == Item(s.issued, x, q, t.items[|s.items|].orderIndex, marksOverride)
            && IndexChosen(s.items, x, orderIndex, t.items[|s.items|].orderIndex)
            && |t.sets| == |s.sets| && forall y | 0 <= y < |s.sets| && y != x :: t.sets[y] == s.sets[y])
  {
    AddedWhen(s, x, q, orderIndex, marksOverride);
  }

  ghost predicate IndexChosen(items: seq<Item>, x: nat, asked: Option<nat>, index: nat) {
    match asked
    case Some(given) => index == given
    case None =>
      && (forall i | 0 <= i < |items| && items[i].set_ == x :: items[i].orderIndex < index)
      && (index == 1 || exists i :: 0 <= i < |items| && items[i].set_ == x && items[i].orderIndex == index - 1)
  }

  /** From a right total, adding makes it the old one and the item's mark. */
  lemma AddCounts(s: Store, x: nat, q: nat, orderIndex: Option<nat>, marksOverride: Option<nat>)
    requires Inv(s) && Step(s, Add(x, q, orderIndex, marksOverride)).1.Done?
    requires x < |s.sets| && q < |s.questions| && TotalRight(s, x)
    ensures var t := Step(s, Add(x, q, orderIndex, marksOverride)).0;
      x < |t.sets| && t.sets[x].totalMarks == s.sets[x].totalMarks
        + if marksOverride.Some? then marksOverride.value else s.questions[q].marks
  {
    var t := Step(s, Add(x, q, orderIndex, marksOverride)).0;
    AddsAsAsked(s, x, q, orderIndex, marksOverride);
    ChangeIsUpToDate(s, Add(x, q, orderIndex, marksOverride));
    OneMoreItem(s.questions, s.items, t.items[|s.items|], x);
  }

  // Removing

  /** Taking the item with an id out of the table leaves all others in their order. */
  lemma {:induction false} WithoutOne(items: seq<Item>, id: nat, k: nat)
    requires DistinctIds(items) && k < |items| && items[k].id == id
    ensures WithoutItem(items, id) == items[..k] + items[k + 1..]
  {
    var front, last := items[..|items| - 1], |items| - 1;
    if k == last {
      WithoutNone(front, id);
      assert items[..k] == front && items[k + 1..] == [];
    } else {
      WithoutOne(front, id, k);
      assert items[k + 1..] == front[k + 1..] + [items[last]] && front[..k] == items[..k];
    }
  }

  lemma {:induction false} WithoutNone(items: seq<Item>, id: nat)
    requires forall i | 0 <= i < |items| :: items[i].id != id
    ensures WithoutItem(items, id) == items
  {
    if items == [] {
    } else {
      WithoutNone(items[..|items| - 1], id);
      assert items == items[..|items| - 1] + [items[|items| - 1]];
    }
  }

  /** An item is removed exactly when it is an item of the set; it alone goes, the others keep
      their order, and only its set's row is rewritten. */
  lemma RemovesAsAsked(s: Store, x: nat, id: nat) returns (k: nat)
    requires Inv(s)
    ensures Step(s, Remove(x, id)).1.Done? <==>
            x < |s.sets| && exists i :: 0 <= i < |s.items| && s.items[i].id == id && s.items[i].set_ == x
    ensures var outcome := Step(s, Remove(x, id)).1;
      outcome.Failed? ==> outcome.error == if x < |s.sets| then ItemNotFound else SetNotFound
    ensures var (t, outcome) := Step(s, Remove(x, id));
      outcome.Done? ==>
        && k < |s.items| && s.items[k].id == id && s.items[k].set_ == x
        && t.items == s.items[..k] + s.items[k + 1..]
        && (forall item :: item in t.items <==> item in s.items && item.id != id)
        && t.questions == s.questions && t.issued == s.issued
        && |t.sets| == |s.sets| && forall y | 0 <= y < |s.sets| && y != x :: t.sets[y] == s.sets[y]
  {
    var found := FindItem(s.items, id);
    k := if found.Some? then found.value else 0;
    if Step(s, Remove(x, id)).1.Done? {
      WithoutOne(s.items, id, k);
      OthersStay(s.items, k);
    }
  }

  lemma OthersStay(items: seq<Item>, k: nat)
    requires DistinctIds(items) && k < |items|
    ensures forall item :: item in items[..k] + items[k + 1..] <==> item in items && item.id != items[k].id
  {
    forall item ensures item in items[..k] + items[k + 1..] <==> item in items && item.id != items[k].id {
      assert items == items[..k] + [items[k]] + items[k + 1..];
      if item in items[..k] + items[k + 1..] {
        var i :| 0 <= i < |items| && i != k && items[i] == item;
      }
    }
  }

  ghost function Dropped(items: seq<Item>, k: nat): seq<Item>
    requires k < |items|
  {
    items[..k] + items[k + 1..]
  }

  lemma DroppedFromFront(items: seq<Item>, k: nat)
    requires k < |items|
    ensures var front, last := items[..|items| - 1], items[|items| - 1];
      && items == front + [last]
      && Dropped(items, k) == if k == |items| - 1 then front else Dropped(front, k) + [last]
  {
  }

  lemma DroppedLinked(questions: seq<Question>, items: seq<Item>, k: nat)
    requires Linked(items, questions) && k < |items|
    ensures Linked(Dropped(items, k), questions)
  {
  }

  lemma {:induction false} TotalWithout(questions: seq<Question>, items: seq<Item>, k: nat, x: nat)
    requires Linked(items, questions) && k < |items| && items[k].set_ == x
    ensures Linked(Dropped(items, k), questions)
    ensures Total(SetLines(questions, items, x)) ==
            Total(SetLines(questions, Dropped(items, k), x)) + Counts(items[k], questions)
  {
    var front, last := items[..|items| - 1], items[|items| - 1];
    DroppedLinked(questions, items, k);
    DroppedFromFront(items, k);
    OneMoreItem(questions, front, last, x);
    if k < |items| - 1 {
      TotalWithout(questions, front, k, x);
      OneMoreItem(questions, Dropped(front, k), last, x);
    }
  }

  lemma RemovedAt(s: Store, x: nat, id: nat, k: nat)
    requires Inv(s) && Step(s, Remove(x, id)).1.Done? && k < |s.items| && s.items[k].id == id
    ensures var t := Step(s, Remove(x, id)).0;
      t.items == Dropped(s.items, k) && t.questions == s.questions && s.items[k].set_ == x
  {
    var j := RemovesAsAsked(s, x, id);
    assert j == k;
  }

  /** From a right total, removing makes it the old one less the item's mark. */
  lemma RemoveCounts(s: Store, x: nat, id: nat, k: nat)
    requires Inv(s) && Step(s, Remove(x, id)).1.Done? && x < |s.sets| && TotalRight(s, x)
    requires k < |s.items| && s.items[k].id == id
    ensures var t := Step(s, Remove(x, id)).0;
      x < |t.sets| && t.sets[x].totalMarks == s.sets[x].totalMarks
        - if s.items[k].marksOverride.Some? then s.items[k].marksOverride.value
            else s.questions[s.items[k].question].marks
  {
    RemovedAt(s, x, id, k);
    ChangeIsUpToDate(s, Remove(x, id));
    TotalWithout(s.questions, s.items, k, x);
  }

  // Reordering

  /** A reorder rewrites order indexes only. */
  lemma ReorderTouches(s: Store, x: nat, orders: seq<Reorder.OrderRequest>, first: seq<nat>, second: seq<nat>)
    requires Linked(s.items, s.questions)
    ensures var t := Step(s, Reordering(x, orders, first, second)).0;
      && t == s.(items := t.items) && |t.items| == |s.items|
      && forall i | 0 <= i < |s.items| :: t.items[i] == s.items[i].(orderIndex := t.items[i].orderIndex)
  {
    QuestionSetTotals.ReorderMoves(s, Reordering(x, orders, first, second));
  }

  ghost predicate Repeats(orders: seq<Reorder.OrderRequest>) {
    exists i, j :: 0 <= i < j < |orders| && orders[i].row == orders[j].row
  }

  lemma RepeatsIff(orders: seq<Reorder.OrderRequest>)
    ensures Repeats(orders) <==> !Reorder.Distinct(Reorder.IdsOf(orders))
  {
    var ids := Reorder.IdsOf(orders);
    assert forall i | 0 <= i < |orders| :: ids[i] == orders[i].row;
  }

  ghost predicate HasItem(items: seq<Item>, id: nat, x: nat) {
    exists k :: 0 <= k < |items| && items[k].id == id && items[k].set_ == x
  }

  lemma HasItemIff(items: seq<Item>, id: nat, x: nat)
    requires DistinctIds(items)
    ensures HasItem(items, id, x) <==> ItemOfSet(items, id, x)
  {
    if !ItemOfSet(items, id, x) { NotInSet(items, id, x); }
  }

  /** A reorder is refused for a missing set, then for an item listed twice, then for one that is
      not in the set; otherwise the flushes decide. */
  lemma ReorderChecks(s: Store, x: nat, orders: seq<Reorder.OrderRequest>, first: seq<nat>, second: seq<nat>)
    requires Inv(s)
    ensures var outcome := Step(s, Reordering(x, orders, first, second)).1;
      var foreign := exists i :: 0 <= i < |orders| && !HasItem(s.items, orders[i].row, x);
      && (outcome == Failed(SetNotFound) <==> x >= |s.sets|)
      && (outcome == Failed(DuplicateItem) <==> x < |s.sets| && Repeats(orders))
      && (outcome == Failed(ItemNotFound) <==> x < |s.sets| && !Repeats(orders) && foreign)
      && (outcome.Failed? ==> outcome.error in {SetNotFound, DuplicateItem, ItemNotFound, NoFlushOrder, OrderConflict})
  {
    var ids := Reorder.IdsOf(orders);
    RepeatsIff(orders);
    forall i | 0 <= i < |orders|
      ensures ids[i] == orders[i].row && (HasItem(s.items, orders[i].row, x) <==> ItemOfSet(s.items, ids[i], x))
    {
      HasItemIff(s.items, orders[i].row, x);
    }
  }

  lemma NotInSet(items: seq<Item>, id: nat, x: nat)
    requires DistinctIds(items) && !ItemOfSet(items, id, x)
    ensures forall k | 0 <= k < |items| :: items[k].id != id || items[k].set_ != x
  {
    var found := FindItem(items, id);
    forall k | 0 <= k < |items| && items[k].id == id
      ensures items[k].set_ != x
    {
      assert found.Some? && k == found.value;
    }
  }
}
