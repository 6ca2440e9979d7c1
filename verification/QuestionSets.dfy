/** Question sets and their derived totals (app/modules/question/service.py), for one tenant.

    Questions and sets are never deleted, so their ids are positions; items are, so they carry
    their id. Marks are hundredths as stored: a positive override below half a hundredth is
    stored as zero. */
module QuestionSets {
  import opened Options
  import Reorder

  datatype Question = Question(marks: nat, negativeMarks: nat, difficulty: string, topic: nat)
  datatype Item = Item(id: nat, set_: nat, question: nat, orderIndex: nat, marksOverride: Option<nat>)
  datatype SetRow = SetRow(totalMarks: nat, difficulties: map<string, nat>, topics: map<nat, nat>)
  datatype Store = Store(questions: seq<Question>, sets: seq<SetRow>, items: seq<Item>, issued: nat)

  const EMPTY := Store([], [], [], 0)

  /** An item joined with its question. */
  datatype Line = Line(item: Item, question: Question)

  /** A set with its items loaded. */
  datatype Detail = Detail(totalMarks: int, lines: seq<Line>)

  datatype Error =
    | SetNotFound | QuestionNotFound | InvalidMarks | ItemConflict | ItemNotFound | DuplicateItem
    | OrderConflict | NoFlushOrder
  datatype Outcome = Done(row: nat) | Failed(error: Error)

  // Marks and counters

  /** The mark a set counts for an item: its override when there is one. */
  function SetMarks(line: Line): nat {
    if line.item.marksOverride.Some? then line.item.marksOverride.value else line.question.marks
  }

  /** The mark an assessment copies: `marks_override or question.marks`, where zero is false. */
  function SnapshotMarks(line: Line): nat {
    if line.item.marksOverride.Some? && line.item.marksOverride.value != 0 then line.item.marksOverride.value
        else line.question.marks
  }

  function Total(lines: seq<Line>): nat {
    if lines == [] then 0 else Total(lines[..|lines| - 1]) + SetMarks(lines[|lines| - 1])
  }

  function SnapshotTotal(lines: seq<Line>): nat {
    if lines == [] then 0 else SnapshotTotal(lines[..|lines| - 1]) + SnapshotMarks(lines[|lines| - 1])
  }

  function DifficultyOf(line: Line): string {
    line.question.difficulty
  }

  function TopicOf(line: Line): nat {
    line.question.topic
  }

  /** One more of `key` in a counter. */
  function Bump<K>(counter: map<K, nat>, key: K): map<K, nat> {
    counter[key := (if key in counter then counter[key] else 0) + 1]
  }

  function Tally<K>(lines: seq<Line>, keyOf: Line -> K): map<K, nat> {
    if lines == [] then map[] else Bump(Tally(lines[..|lines| - 1], keyOf), keyOf(lines[|lines| - 1]))
  }

  /** How many lines have the key: what a counter should say. */
  ghost function Occurrences<K>(lines: seq<Line>, keyOf: Line -> K, key: K): nat {
    if lines == [] then 0
    else Occurrences(lines[..|lines| - 1], keyOf, key) + if keyOf(lines[|lines| - 1]) == key then 1 else 0
  }

  ghost function SumValues<K>(counter: map<K, nat>): nat {
    if counter == map[] then 0
    else
      var k :| k in counter;
      counter[k] + SumValues(counter - {k})
  }

  // Queries

  predicate Linked(items: seq<Item>, questions: seq<Question>) {
    forall i | 0 <= i < |items| :: items[i].question < |questions|
  }

  function SetLines(questions: seq<Question>, items: seq<Item>, set_: nat): (lines: seq<Line>)
    requires Linked(items, questions)
    ensures forall l | 0 <= l < |lines| :: lines[l].item in items && lines[l].item.set_ == set_
  {
    if items == [] then []
    else
      var last := items[|items| - 1];
      SetLines(questions, items[..|items| - 1], set_)
        + if last.set_ == set_ then [Line(last, questions[last.question])] else []
  }

  predicate DistinctKeys(lines: seq<Line>) {
    forall i, j | 0 <= i < j < |lines| ::
      lines[i].item.orderIndex != lines[j].item.orderIndex && lines[i].item.question != lines[j].item.question
  }

  function InsertLine(line: Line, sorted: seq<Line>): seq<Line> {
    if sorted == [] then [line]
    else
      var last := |sorted| - 1;
      if line.item.orderIndex < sorted[last].item.orderIndex then InsertLine(line, sorted[..last]) + [sorted[last]]
      else sorted + [line]
  }

  /** Lines by order index; lines of equal index keep their order. */
  function SortLines(lines: seq<Line>): seq<Line> {
    if lines == [] then [] else InsertLine(lines[|lines| - 1], SortLines(lines[..|lines| - 1]))
  }

  function FindItem(items: seq<Item>, id: nat): (r: Option<nat>)
    ensures r.Some? ==> r.value < |items| && items[r.value].id == id
    ensures r.None? ==> forall i | 0 <= i < |items| :: items[i].id != id
  {
    if items == [] then None
    else if items[|items| - 1].id == id then Some(|items| - 1)
    else FindItem(items[..|items| - 1], id)
  }

  /** `next_order_index`. */
  function NextOrderIndex(items: seq<Item>, set_: nat): (n: nat)
    ensures n > 0 && forall i | 0 <= i < |items| && items[i].set_ == set_ :: items[i].orderIndex < n
    ensures n == 1 || exists i :: 0 <= i < |items| && items[i].set_ == set_ && items[i].orderIndex == n - 1
  {
    var places := PlacesOf(items);
    assert forall i | 0 <= i < |items| :: places[i] == Reorder.Row(items[i].set_, items[i].orderIndex);
    Reorder.NextIndex(places, set_)
  }

  function PlacesOf(items: seq<Item>): (places: seq<Reorder.Row>)
    ensures |places| == |items|
    ensures forall i | 0 <= i < |items| :: places[i] == Reorder.Row(items[i].set_, items[i].orderIndex)
  {
    seq(|items|, i requires 0 <= i < |items| => Reorder.Row(items[i].set_, items[i].orderIndex))
  }

  function WithoutItem(items: seq<Item>, id: nat): (r: seq<Item>)
    ensures forall i | 0 <= i < |r| :: r[i] in items && r[i].id != id
  {
    if items == [] then []
    else WithoutItem(items[..|items| - 1], id) + if items[|items| - 1].id == id then [] else [items[|items| - 1]]
  }

  // Reordering

  /** The order columns of the items, as the unique constraint sees them. */
  function RowsOf(items: seq<Item>): (t: Reorder.Table)
    ensures forall x :: x in t <==> exists i :: 0 <= i < |items| && items[i].id == x
  {
    if items == [] then map[]
    else
      var last := items[|items| - 1];
      assert forall i | 0 <= i < |items| - 1 :: items[i] == items[..|items| - 1][i];
      RowsOf(items[..|items| - 1])[last.id := Reorder.Row(last.set_, last.orderIndex)]
  }

  function WithOrders(items: seq<Item>, t: Reorder.Table): (r: seq<Item>)
    ensures |r| == |items|
    ensures forall i | 0 <= i < |r| :: r[i] == items[i].(orderIndex := r[i].orderIndex)
    ensures forall i | 0 <= i < |r| && items[i].id in t :: r[i].orderIndex == t[items[i].id].order
  {
    seq(|items|, i requires 0 <= i < |items| =>
      if items[i].id in t then items[i].(orderIndex := t[items[i].id].order) else items[i])
  }

  // Requests

  function Recalculated(questions: seq<Question>, items: seq<Item>, set_: nat): SetRow
    requires Linked(items, questions)
  {
    var lines := SetLines(questions, items, set_);
    SetRow(Total(lines), Tally(lines, DifficultyOf), Tally(lines, TopicOf))
  }

  function CreateQuestion(s: Store, question: Question): (r: (Store, Outcome))
    requires Linked(s.items, s.questions)
    ensures Linked(r.0.items, r.0.questions)
  {
    if question.negativeMarks > question.marks then (s, Failed(InvalidMarks))
    else (s.(questions := s.questions + [question]), Done(|s.questions|))
  }

  function UpdateQuestion(s: Store, q: nat, question: Question): (r: (Store, Outcome))
    requires Linked(s.items, s.questions)
    ensures Linked(r.0.items, r.0.questions)
  {
    if q >= |s.questions| then (s, Failed(QuestionNotFound))
    else if question.negativeMarks > question.marks then (s, Failed(InvalidMarks))
    else (s.(questions := s.questions[q := question]), Done(q))
  }

  function CreateSet(s: Store): (Store, Outcome) {
    (s.(sets := s.sets + [SetRow(0, map[], map[])]), Done(|s.sets|))
  }

  predicate QuestionTaken(items: seq<Item>, set_: nat, q: nat) {
    exists i | 0 <= i < |items| :: items[i].set_ == set_ && items[i].question == q
  }

  predicate IndexTaken(items: seq<Item>, set_: nat, index: nat) {
    exists i | 0 <= i < |items| :: items[i].set_ == set_ && items[i].orderIndex == index
  }

  function AddItem(s: Store, set_: nat, q: nat, orderIndex: Option<nat>,
      marksOverride: Option<nat>): (r: (Store, Outcome))
    requires Linked(s.items, s.questions)
    ensures Linked(r.0.items, r.0.questions)
  {
    if set_ >= |s.sets| then (s, Failed(SetNotFound))
    else if q >= |s.questions| then (s, Failed(QuestionNotFound))
    else if QuestionTaken(s.items, set_, q) then (s, Failed(ItemConflict))
    else
      var index := if orderIndex.Some? then orderIndex.value else NextOrderIndex(s.items, set_);
      if IndexTaken(s.items, set_, index) then (s, Failed(ItemConflict))
      else
        var items := s.items + [Item(s.issued, set_, q, index, marksOverride)];
        (s.(items := items, issued := s.issued + 1, sets := s.sets[set_ := Recalculated(s.questions, items, set_)]),
            Done(s.issued))
  }

  function RemoveItem(s: Store, set_: nat, id: nat): (r: (Store, Outcome))
    requires Linked(s.items, s.questions)
    ensures Linked(r.0.items, r.0.questions)
  {
    if set_ >= |s.sets| then (s, Failed(SetNotFound))
    else
      var i := FindItem(s.items, id);
      if i.None? || s.items[i.value].set_ != set_ then (s, Failed(ItemNotFound))
      else
        var items := WithoutItem(s.items, id);
        (s.(items := items, sets := s.sets[set_ := Recalculated(s.questions, items, set_)]), Done(id))
  }

  /** Both flushes of `reorder_question_set`; `first` and `second` are the row orders the
      database happens to use. */
  function ReorderItems(s: Store, set_: nat, request: seq<Reorder.OrderRequest>, first: seq<nat>,
      second: seq<nat>): (Store, Outcome) {
    var ids := Reorder.IdsOf(request);
    if set_ >= |s.sets| then (s, Failed(SetNotFound))
    else if !Reorder.Distinct(ids) then (s, Failed(DuplicateItem))
    else if exists i | 0 <= i < |ids| :: !ItemOfSet(s.items, ids[i], set_) then (s, Failed(ItemNotFound))
    else if !Reorder.FlushOrder(first, ids) || !Reorder.FlushOrder(second, ids) then (s, Failed(NoFlushOrder))
    else
      Reorder.ParkedPlaces(ids);
      match Reorder.TwoPhase(RowsOf(s.items), ids, Reorder.TargetOf(request), first, second)
      case None => (s, Failed(OrderConflict))
      case Some(t) => (s.(items := WithOrders(s.items, t)), Done(set_))
  }

  predicate ItemOfSet(items: seq<Item>, id: nat, set_: nat) {
    var i := FindItem(items, id);
    i.Some? && items[i.value].set_ == set_
  }

  // Runs

  datatype Request =
    | NewQuestion(question: Question)
    | EditQuestion(id: nat, question: Question)
    | NewSet
    | Add(set_: nat, question_: nat, orderIndex: Option<nat>, marksOverride: Option<nat>)
    | Remove(set_: nat, item: nat)
    | Reordering(set_: nat, orders: seq<Reorder.OrderRequest>, first: seq<nat>, second: seq<nat>)

  function Step(s: Store, request: Request): (r: (Store, Outcome))
    requires Linked(s.items, s.questions)
    ensures Linked(r.0.items, r.0.questions)
  {
    match request
    case NewQuestion(question) => CreateQuestion(s, question)
    case EditQuestion(id, question) => UpdateQuestion(s, id, question)
    case NewSet => CreateSet(s)
    case Add(set_, q, orderIndex, marksOverride) => AddItem(s, set_, q, orderIndex, marksOverride)
    case Remove(set_, item) => RemoveItem(s, set_, item)
    case Reordering(set_, orders, first, second) => ReorderItems(s, set_, orders, first, second)
  }

  function Run(s: Store, requests: seq<Request>): (t: Store)
    requires Linked(s.items, s.questions)
    ensures Linked(t.items, t.questions)
    decreases |requests|
  {
    if requests == [] then s else Run(Step(s, requests[0]).0, requests[1..])
  }
}
