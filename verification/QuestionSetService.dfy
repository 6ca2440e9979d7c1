/** The question-set part of the question service as it runs: tables updated in place, with the
    loops of the original. Each method does to its tables exactly what the corresponding
    request function says. */
module QuestionSetService {
  import opened Options
  import opened QuestionSets
  import Reorder

  // The loop of `_recalculate_question_set` reads the lines by order index; the order does not matter

  lemma {:induction false} InsertedTotal(line: Line, sorted: seq<Line>)
    ensures Total(InsertLine(line, sorted)) == Total(sorted) + SetMarks(line)
  {
    if sorted == [] {
    } else {
      var last := |sorted| - 1;
      InsertedTotal(line, sorted[..last]);
      var inner := InsertLine(line, sorted[..last]);
      assert (inner + [sorted[last]])[..|inner|] == inner && (sorted + [line])[..|sorted|] == sorted;
    }
  }

  lemma BumpsCommute<K>(counter: map<K, nat>, a: K, b: K)
    ensures Bump(Bump(counter, a), b) == Bump(Bump(counter, b), a)
  {
  }

  lemma OneMoreLine<K>(lines: seq<Line>, line: Line, keyOf: Line -> K)
    ensures Tally(lines + [line], keyOf) == Bump(Tally(lines, keyOf), keyOf(line))
  {
    assert (lines + [line])[..|lines|] == lines;
  }

  lemma {:induction false} InsertedTally<K>(line: Line, sorted: seq<Line>, keyOf: Line -> K)
    ensures Tally(InsertLine(line, sorted), keyOf) == Bump(Tally(sorted, keyOf), keyOf(line))
  {
    OneMoreLine(sorted, line, keyOf);
    if sorted == [] {
      assert [] + [line] == [line];
    } else if line.item.orderIndex < sorted[|sorted| - 1].item.orderIndex {
      var front, top := sorted[..|sorted| - 1], sorted[|sorted| - 1];
      InsertedTally(line, front, keyOf);
      OneMoreLine(InsertLine(line, front), top, keyOf);
      BumpsCommute(Tally(front, keyOf), keyOf(line), keyOf(top));
    }
  }

  /** Sorting the lines changes neither the total nor the counts. */
  lemma {:induction false} SortingKeepsTotals<K>(lines: seq<Line>, keyOf: Line -> K)
    ensures Total(SortLines(lines)) == Total(lines)
    ensures Tally(SortLines(lines), keyOf) == Tally(lines, keyOf)
  {
    if lines == [] {
    } else {
      var line, front := lines[|lines| - 1], lines[..|lines| - 1];
      SortingKeepsTotals(front, keyOf);
      InsertedTotal(line, SortLines(front));
      InsertedTally(line, SortLines(front), keyOf);
    }
  }

  lemma StillLinked(items: seq<Item>, questions: seq<Question>, item: Item)
    requires Linked(items, questions) && item.question < |questions|
    ensures Linked(items + [item], questions)
  {
  }

  class Service {
    var questions: seq<Question>
    var sets: seq<SetRow>
    var items: seq<Item>
    var issued: nat

    constructor ()
      ensures State() == EMPTY
    {
      questions, sets, items, issued := [], [], [], 0;
    }

    ghost function State(): Store
      reads this
    {
      Store(questions, sets, items, issued)
    }

    /** `_recalculate_question_set`. */
    method Recalculate(set_: nat)
      requires Linked(items, questions) && set_ < |sets|
      modifies this`sets
      ensures sets == old(sets)[set_ := Recalculated(questions, items, set_)]
    {
      var lines := SortLines(SetLines(questions, items, set_));
      var total := 0;
      var difficulties: map<string, nat>, topics: map<nat, nat> := map[], map[];
      for k := 0 to |lines|
        invariant total == Total(lines[..k])
        invariant difficulties == Tally(lines[..k], DifficultyOf) && topics == Tally(lines[..k], TopicOf)
      {
        assert lines[..k + 1][..k] == lines[..k];
        total := total + SetMarks(lines[k]);
        difficulties := Bump(difficulties, lines[k].question.difficulty);
        topics := Bump(topics, lines[k].question.topic);
      }
      assert lines[..|lines|] == lines;
      SortingKeepsTotals(SetLines(questions, items, set_), DifficultyOf);
      SortingKeepsTotals(SetLines(questions, items, set_), TopicOf);
      sets := sets[set_ := SetRow(total, difficulties, topics)];
    }

    method Add(set_: nat, q: nat, orderIndex: Option<nat>, marksOverride: Option<nat>) returns (outcome: Outcome)
      requires Linked(items, questions)
      modifies this`items, this`issued, this`sets
      ensures (State(), outcome) == AddItem(old(State()), set_, q, orderIndex, marksOverride)
    {
      if set_ >= |sets| { return Failed(SetNotFound); }
      if q >= |questions| { return Failed(QuestionNotFound); }
      if QuestionTaken(items, set_, q) { return Failed(ItemConflict); }
      var index := if orderIndex.Some? then orderIndex.value else NextOrderIndex(items, set_);
      if IndexTaken(items, set_, index) { return Failed(ItemConflict); }
      ghost var before := State();
      var item := Item(issued, set_, q, index, marksOverride);
      StillLinked(items, questions, item);
      items := items + [item];
      issued := issued + 1;
      Recalculate(set_);
      assert State() == before.(items := before.items + [item], issued := before.issued + 1,
                                sets := before.sets[set_ := Recalculated(questions, items, set_)]);
      return Done(issued - 1);
    }

    method Remove(set_: nat, id: nat) returns (outcome: Outcome)
      requires Linked(items, questions)
      modifies this`items, this`sets
      ensures (State(), outcome) == RemoveItem(old(State()), set_, id)
    {
      if set_ >= |sets| { return Failed(SetNotFound); }
      var i := FindItem(items, id);
      if i.None? || items[i.value].set_ != set_ { return Failed(ItemNotFound); }
      items := WithoutItem(items, id);
      Recalculate(set_);
      return Done(id);
    }

    /** `reorder_question_set`: park, flush, assign, flush; on a collision nothing is kept. */
    method ReorderSet(set_: nat, request: seq<Reorder.OrderRequest>, first: seq<nat>, second: seq<nat>)
        returns (outcome: Outcome)
      modifies this`items
      ensures (State(), outcome) == ReorderItems(old(State()), set_, request, first, second)
    {
      var ids := Reorder.IdsOf(request);
      if set_ >= |sets| { return Failed(SetNotFound); }
      if !Reorder.Distinct(ids) { return Failed(DuplicateItem); }
      for k := 0 to |ids|
        invariant forall j | 0 <= j < k :: ItemOfSet(items, ids[j], set_)
      {
        if !ItemOfSet(items, ids[k], set_) { return Failed(ItemNotFound); }
      }
      if !Reorder.FlushOrder(first, ids) || !Reorder.FlushOrder(second, ids) { return Failed(NoFlushOrder); }
      var parked := Reorder.ParkAll(ids);
      Reorder.ParkedPlaces(ids);
      var half := Reorder.Flush(RowsOf(items), parked, first);
      if half.None? { return Failed(OrderConflict); }
      var target := Reorder.AssignAll(request);
      var whole := Reorder.Flush(half.value, target, second);
      if whole.None? { return Failed(OrderConflict); }
      items := WithOrders(items, whole.value);
      return Done(set_);
    }
  }
}
