/** How long the derived columns of a question set stay right: nothing but an edit of a
    question that the set uses can make them stale. */
module QuestionSetTotals {
  import opened Options
  import opened QuestionSets
  import opened QuestionSetInvariants
  import opened Counting

  /** The set counts the question's own marks, not an override. */
  ghost predicate UsesMarks(items: seq<Item>, x: nat, q: nat) {
    exists i :: 0 <= i < |items| && items[i].set_ == x && items[i].question == q && items[i].marksOverride.None?
  }

  /** The request does not change the marks of a question whose marks the set counts. */
  ghost predicate KeepsMarks(s: Store, x: nat, request: Request)
    requires Linked(s.items, s.questions)
  {
    request.EditQuestion? && Step(s, request).1.Done? && UsesMarks(s.items, x, request.id) ==>
      request.question.marks == s.questions[request.id].marks
  }

  /** The request does not change the difficulty or topic of a question of the set. */
  ghost predicate KeepsLabels(s: Store, x: nat, request: Request)
    requires Linked(s.items, s.questions)
  {
    request.EditQuestion? && Step(s, request).1.Done? && QuestionTaken(s.items, x, request.id) ==>
      && request.question.difficulty == s.questions[request.id].difficulty
      && request.question.topic == s.questions[request.id].topic
  }

  ghost predicate RunKeepsMarks(s: Store, x: nat, requests: seq<Request>)
    requires Linked(s.items, s.questions)
    decreases |requests|
  {
    requests == [] || (KeepsMarks(s, x, requests[0]) && RunKeepsMarks(Step(s, requests[0]).0, x, requests[1..]))
  }

  ghost predicate RunKeepsLabels(s: Store, x: nat, requests: seq<Request>)
    requires Linked(s.items, s.questions)
    decreases |requests|
  {
    requests == [] || (KeepsLabels(s, x, requests[0]) && RunKeepsLabels(Step(s, requests[0]).0, x, requests[1..]))
  }

  /** A key that depends on the line's question only. */
  ghost predicate LabelOf<K(!new)>(keyOf: Line -> K, tag: Question -> K) {
    forall line :: keyOf(line) == tag(line.question)
  }

  // Editing a question

  /** An edit shifts the total by the change of marks when the set counts them. */
  lemma {:induction false} EditShiftsTotal(questions: seq<Question>, q: nat, question: Question, items: seq<Item>,
      x: nat)
    requires Linked(items, questions) && UniqueItems(items) && q < |questions|
    ensures Total(SetLines(questions[q := question], items, x)) ==
            Total(SetLines(questions, items, x)) + if UsesMarks(items, x, q) then question.marks - questions[q].marks
                else 0
  {
    if items == [] {
    } else {
      var front, last := items[..|items| - 1], items[|items| - 1];
      EditShiftsTotal(questions, q, question, front, x);
      UsesMarksStep(items, x, q);
      LastLine(questions, items, x);
      LastLine(questions[q := question], items, x);
    }
  }

  lemma UsesMarksStep(items: seq<Item>, x: nat, q: nat)
    requires items != [] && UniqueItems(items)
    ensures var last := items[|items| - 1];
      var here := last.set_ == x && last.question == q && last.marksOverride.None?;
      && (UsesMarks(items, x, q) <==> UsesMarks(items[..|items| - 1], x, q) || here)
      && !(UsesMarks(items[..|items| - 1], x, q) && here)
  {
    var front := items[..|items| - 1];
    assert forall i | 0 <= i < |front| :: front[i] == items[i];
  }

  /** The lines of a set, the last item's line apart. */
  lemma LastLine(questions: seq<Question>, items: seq<Item>, x: nat)
    requires Linked(items, questions) && items != []
    ensures var front, last := items[..|items| - 1], items[|items| - 1];
      var lines, before := SetLines(questions, items, x), SetLines(questions, front, x);
      if last.set_ == x then
        lines == before + [Line(last, questions[last.question])]
            && Total(lines) == Total(before) + SetMarks(lines[|before|])
      else lines == before
  {
    var front, last := items[..|items| - 1], items[|items| - 1];
    var lines, before := SetLines(questions, items, x), SetLines(questions, front, x);
    if last.set_ == x { assert lines[..|lines| - 1] == before; }
  }

  /** An edit of a question in the set moves one line from its old key to its new one. */
  lemma {:induction false} EditShiftsCounts<K(!new)>(
    questions: seq<Question>, q: nat, question: Question, items: seq<Item>, x: nat, keyOf: Line -> K,
        tag: Question -> K, key: K)
    requires Linked(items, questions) && UniqueItems(items) && q < |questions| && LabelOf(keyOf, tag)
    ensures Occurrences(SetLines(questions[q := question], items, x), keyOf, key) ==
            Occurrences(SetLines(questions, items, x), keyOf, key)
            + if QuestionTaken(items, x, q) then One(tag(question) == key) - One(tag(questions[q]) == key) else 0
  {
    if items == [] {
    } else {
      EditShiftsCounts(questions, q, question, items[..|items| - 1], x, keyOf, tag, key);
      TakenStep(items, x, q);
      LastCount(questions, items, x, keyOf, tag, key);
      LastCount(questions[q := question], items, x, keyOf, tag, key);
    }
  }

  lemma TakenStep(items: seq<Item>, x: nat, q: nat)
    requires items != [] && UniqueItems(items)
    ensures var last := items[|items| - 1];
      var here := last.set_ == x && last.question == q;
      && (QuestionTaken(items, x, q) <==> QuestionTaken(items[..|items| - 1], x, q) || here)
      && !(QuestionTaken(items[..|items| - 1], x, q) && here)
  {
    var front := items[..|items| - 1];
    assert forall i | 0 <= i < |front| :: front[i] == items[i];
  }

  lemma LastCount<K(!new)>(questions: seq<Question>, items: seq<Item>, x: nat, keyOf: Line -> K, tag: Question -> K,
      key: K)
    requires Linked(items, questions) && items != [] && LabelOf(keyOf, tag)
    ensures var front, last := items[..|items| - 1], items[|items| - 1];
      Occurrences(SetLines(questions, items, x), keyOf, key) ==
      Occurrences(SetLines(questions, front, x), keyOf, key)
          + One(last.set_ == x && tag(questions[last.question]) == key)
  {
    LastLine(questions, items, x);
    var last := items[|items| - 1];
    var lines, before := SetLines(questions, items, x), SetLines(questions, items[..|items| - 1], x);
    if last.set_ == x {
      assert lines[..|lines| - 1] == before && keyOf(lines[|lines| - 1]) == tag(questions[last.question]);
    }
  }

  // Requests that leave the lines of the set alone, but for their order indexes

  /** Moving items changes neither the total nor a count. */
  lemma {:induction false} MovedTotal(questions: seq<Question>, items: seq<Item>, moved: seq<Item>, x: nat)
    requires Linked(items, questions) && Linked(moved, questions) && |moved| == |items|
    requires forall i | 0 <= i < |items| :: moved[i] == items[i].(orderIndex := moved[i].orderIndex)
    ensures Total(SetLines(questions, moved, x)) == Total(SetLines(questions, items, x))
  {
    if items == [] {
    } else {
      MovedTotal(questions, items[..|items| - 1], moved[..|moved| - 1], x);
      LastLine(questions, items, x);
      LastLine(questions, moved, x);
    }
  }

  lemma {:induction false} MovedCounts<K(!new)>(
    questions: seq<Question>, items: seq<Item>, moved: seq<Item>, x: nat, keyOf: Line -> K, tag: Question -> K, key: K)
    requires Linked(items, questions) && Linked(moved, questions) && |moved| == |items| && LabelOf(keyOf, tag)
    requires forall i | 0 <= i < |items| :: moved[i] == items[i].(orderIndex := moved[i].orderIndex)
    ensures Occurrences(SetLines(questions, moved, x), keyOf, key)
            == Occurrences(SetLines(questions, items, x), keyOf, key)
  {
    if items == [] {
    } else {
      MovedCounts(questions, items[..|items| - 1], moved[..|moved| - 1], x, keyOf, tag, key);
      LastCount(questions, items, x, keyOf, tag, key);
      LastCount(questions, moved, x, keyOf, tag, key);
    }
  }

  lemma {:induction false} LinesWithNewQuestion(questions: seq<Question>, question: Question, items: seq<Item>, x: nat)
    requires Linked(items, questions)
    ensures SetLines(questions + [question], items, x) == SetLines(questions, items, x)
  {
    if items == [] {
    } else {
      LinesWithNewQuestion(questions, question, items[..|items| - 1], x);
    }
  }

  ghost predicate SameLines(s: Store, t: Store, x: nat)
    requires Linked(s.items, s.questions) && Linked(t.items, t.questions)
  {
    && x < |s.sets| && x < |t.sets| && t.sets[x] == s.sets[x]
    && SetLines(t.questions, t.items, x) == SetLines(s.questions, s.items, x)
  }

  lemma AddElsewhere(s: Store, x: nat, set_: nat, q: nat, orderIndex: Option<nat>, marksOverride: Option<nat>)
    requires Sound(s) && x < |s.sets| && set_ != x
    ensures SameLines(s, AddItem(s, set_, q, orderIndex, marksOverride).0, x)
  {
    var t := AddItem(s, set_, q, orderIndex, marksOverride).0;
    if t != s { LinesWithOneMore(s.questions, s.items, t.items[|s.items|], x); }
  }

  lemma RemoveElsewhere(s: Store, x: nat, set_: nat, id: nat)
    requires Sound(s) && x < |s.sets| && set_ != x
    ensures SameLines(s, RemoveItem(s, set_, id).0, x)
  {
    if RemoveItem(s, set_, id).1.Done? { LinesOfOtherSets(s.questions, s.items, id, x); }
  }

  /** Another set's items, a new set and a new question do not concern the set. */
  lemma OtherRequestsKeepLines(s: Store, x: nat, request: Request)
    requires Inv(s) && x < |s.sets| && !request.EditQuestion? && !request.Reordering?
    requires request.Add? || request.Remove? ==> request.set_ != x || !Step(s, request).1.Done?
    ensures SameLines(s, Step(s, request).0, x)
  {
    match request
    case NewQuestion(question) => LinesWithNewQuestion(s.questions, question, s.items, x);
    case NewSet =>
    case Add(set_, q, orderIndex, marksOverride) =>
      if set_ != x { AddElsewhere(s, x, set_, q, orderIndex, marksOverride); }
    case Remove(set_, id) => if set_ != x { RemoveElsewhere(s, x, set_, id); }
  }

  /** A reorder changes order indexes and nothing else. */
  lemma ReorderMoves(s: Store, request: Request)
    requires Linked(s.items, s.questions) && request.Reordering?
    ensures var t := Step(s, request).0;
      && t == s.(items := t.items) && |t.items| == |s.items|
      && forall i | 0 <= i < |s.items| :: t.items[i] == s.items[i].(orderIndex := t.items[i].orderIndex)
  {
  }

  // One request

  /** A right total is still right after any request if and only if the request does not change
      the marks of a question whose marks the set counts. */
  lemma TotalAfterStep(s: Store, x: nat, request: Request)
    requires Inv(s) && x < |s.sets| && TotalRight(s, x)
    ensures var t := Step(s, request).0; x < |t.sets| && (TotalRight(t, x) <==> KeepsMarks(s, x, request))
  {
    if request.EditQuestion? {
      if Step(s, request).1.Done? { EditShiftsTotal(s.questions, request.id, request.question, s.items, x); }
    } else if request.Reordering? {
      ReorderMoves(s, request);
      MovedTotal(s.questions, s.items, Step(s, request).0.items, x);
    } else {
      RecalculatedOrSame(s, x, request);
    }
  }

  lemma RecalculatedOrSame(s: Store, x: nat, request: Request)
    requires Inv(s) && x < |s.sets| && !request.EditQuestion? && !request.Reordering?
    ensures var t := Step(s, request).0; x < |t.sets| && (SameLines(s, t, x) || UpToDate(t, x))
  {
    if (request.Add? || request.Remove?) && request.set_ == x && Step(s, request).1.Done? {
      match request
      case Add(set_, q, orderIndex, marksOverride) => AddPreserves(s, set_, q, orderIndex, marksOverride);
      case Remove(set_, id) => RemovePreserves(s, set_, id);
    } else {
      OtherRequestsKeepLines(s, x, request);
    }
  }

  ghost predicate CountsAre<K(!new)>(counter: map<K, nat>, lines: seq<Line>, keyOf: Line -> K) {
    forall k :: CountFor(counter, k) == Occurrences(lines, keyOf, k)
  }

  /** One histogram under an edit: right still if and only if the key is kept. */
  lemma CountsAfterEdit<K(!new)>(s: Store, x: nat, q: nat, question: Question, counter: map<K, nat>,
      keyOf: Line -> K, tag: Question -> K)
    requires Inv(s) && q < |s.questions| && LabelOf(keyOf, tag)
    requires CountsAre(counter, SetLines(s.questions, s.items, x), keyOf)
    ensures CountsAre(counter, SetLines(s.questions[q := question], s.items, x), keyOf) <==>
            (QuestionTaken(s.items, x, q) ==> tag(question) == tag(s.questions[q]))
  {
    var before, after := SetLines(s.questions, s.items, x), SetLines(s.questions[q := question], s.items, x);
    forall k
      ensures Occurrences(after, keyOf, k) == Occurrences(before, keyOf, k)
              + if QuestionTaken(s.items, x, q) then One(tag(question) == k) - One(tag(s.questions[q]) == k) else 0
    {
      EditShiftsCounts(s.questions, q, question, s.items, x, keyOf, tag, k);
    }
    assert CountFor(counter, tag(question)) == Occurrences(before, keyOf, tag(question));
  }

  lemma CountsAfterMove<K(!new)>(s: Store, moved: seq<Item>, x: nat, counter: map<K, nat>, keyOf: Line -> K,
      tag: Question -> K)
    requires Linked(s.items, s.questions) && Linked(moved, s.questions) && |moved| == |s.items| && LabelOf(keyOf, tag)
    requires forall i | 0 <= i < |moved| :: moved[i] == s.items[i].(orderIndex := moved[i].orderIndex)
    requires CountsAre(counter, SetLines(s.questions, s.items, x), keyOf)
    ensures CountsAre(counter, SetLines(s.questions, moved, x), keyOf)
  {
    forall k
      ensures Occurrences(SetLines(s.questions, moved, x), keyOf, k)
              == Occurrences(SetLines(s.questions, s.items, x), keyOf, k)
    {
      MovedCounts(s.questions, s.items, moved, x, keyOf, tag, k);
    }
  }

  function Difficulty(question: Question): string { question.difficulty }
  function Topic(question: Question): nat { question.topic }

  /** Right histograms are still right after any request if and only if the request does not
      change the difficulty or topic of a question of the set. */
  lemma CountsAfterStep(s: Store, x: nat, request: Request)
    requires Inv(s) && x < |s.sets| && CountsRight(s, x)
    ensures var t := Step(s, request).0; x < |t.sets| && (CountsRight(t, x) <==> KeepsLabels(s, x, request))
  {
    var lines, row := SetLines(s.questions, s.items, x), s.sets[x];
    assert CountsAre(row.difficulties, lines, DifficultyOf) && CountsAre(row.topics, lines, TopicOf);
    assert LabelOf(DifficultyOf, Difficulty) && LabelOf(TopicOf, Topic);
    if request.EditQuestion? {
      if Step(s, request).1.Done? {
        CountsAfterEdit(s, x, request.id, request.question, row.difficulties, DifficultyOf, Difficulty);
        CountsAfterEdit(s, x, request.id, request.question, row.topics, TopicOf, Topic);
      }
    } else if request.Reordering? {
      ReorderMoves(s, request);
      CountsAfterMove(s, Step(s, request).0.items, x, row.difficulties, DifficultyOf, Difficulty);
      CountsAfterMove(s, Step(s, request).0.items, x, row.topics, TopicOf, Topic);
    } else {
      RecalculatedOrSame(s, x, request);
    }
  }

  // Whole runs

  /** Over any run that keeps the marks the set counts, a right total stays right. */
  lemma {:induction false} TotalStaysRight(s: Store, x: nat, requests: seq<Request>)
    requires Inv(s) && x < |s.sets| && TotalRight(s, x) && RunKeepsMarks(s, x, requests)
    ensures var t := Run(s, requests); x < |t.sets| && TotalRight(t, x)
    decreases |requests|
  {
    if requests == [] {
    } else {
      StepPreserves(s, requests[0]);
      TotalAfterStep(s, x, requests[0]);
      TotalStaysRight(Step(s, requests[0]).0, x, requests[1..]);
    }
  }

  /** The same for the histograms when difficulties and topics are kept. */
  lemma {:induction false} CountsStayRight(s: Store, x: nat, requests: seq<Request>)
    requires Inv(s) && x < |s.sets| && CountsRight(s, x) && RunKeepsLabels(s, x, requests)
    ensures var t := Run(s, requests); x < |t.sets| && CountsRight(t, x)
    decreases |requests|
  {
    if requests == [] {
    } else {
      StepPreserves(s, requests[0]);
      CountsAfterStep(s, x, requests[0]);
      CountsStayRight(Step(s, requests[0]).0, x, requests[1..]);
    }
  }

  ghost predicate ChangesItems(s: Store, change: Request, x: nat)
    requires Linked(s.items, s.questions)
  {
    (change.Add? || change.Remove?) && change.set_ == x && Step(s, change).1.Done?
  }

  /** From the empty store: after an item was added to or removed from the set, the total stays
      right as long as the marks it counts are kept, and the histograms as long as the
      difficulties and topics are, whatever else runs. */
  lemma RightSinceLastChange(before: seq<Request>, change: Request, after: seq<Request>, x: nat)
    requires ChangesItems(Run(EMPTY, before), change, x)
    ensures var s := Step(Run(EMPTY, before), change).0;
      var t := Run(s, after);
      && Inv(t) && x < |t.sets|
      && (RunKeepsMarks(s, x, after) ==> TotalRight(t, x))
      && (RunKeepsLabels(s, x, after) ==> CountsRight(t, x))
  {
    var s := Step(Run(EMPTY, before), change).0;
    RunPreserves(EMPTY, before);
    StepPreserves(Run(EMPTY, before), change);
    UpToDateAfterChange(before, change);
    RunPreserves(s, after);
    SetsStay(s, after, x);
    if RunKeepsMarks(s, x, after) { TotalStaysRight(s, x, after); }
    if RunKeepsLabels(s, x, after) { CountsStayRight(s, x, after); }
  }

  lemma {:induction false} SetsStay(s: Store, requests: seq<Request>, x: nat)
    requires Linked(s.items, s.questions) && x < |s.sets|
    ensures x < |Run(s, requests).sets|
    decreases |requests|
  {
    if requests == [] {
    } else {
      SetsStay(Step(s, requests[0]).0, requests[1..], x);
    }
  }

  // An edit that makes the total stale

  lemma FirstRequest(s: Store, t: Store, request: Request, rest: seq<Request>)
    requires Linked(s.items, s.questions) && t == Step(s, request).0
    ensures Run(s, [request] + rest) == Run(t, rest)
  {
    assert ([request] + rest)[1..] == rest;
  }

  lemma TotalsOfOne(line: Line)
    ensures Total([line]) == SetMarks(line) && SnapshotTotal([line]) == SnapshotMarks(line)
  {
    assert [line][..0] == [];
  }

  lemma LinesOfOne(item: Item, question: Question)
    requires item.question == 0
    ensures SetLines([question], [item], item.set_) == [Line(item, question)]
  {
    assert [item][..0] == [];
    assert SetLines([question], [], item.set_) == [];
  }

  lemma AddOne(question: Question)
    ensures var t := Step(Store([question], [SetRow(0, map[], map[])], [], 0), Add(0, 0, None, None)).0;
      t.questions == [question] && t.items == [Item(0, 0, 0, 1, None)] && |t.sets| == 1
          && t.sets[0].totalMarks == question.marks
  {
    LinesOfOne(Item(0, 0, 0, 1, None), question);
    TotalsOfOne(Line(Item(0, 0, 0, 1, None), question));
  }

  /** A question of 1.00 is added to a set and then edited to 0.50: the set still says 1.00. */
  lemma EditMakesTotalStale()
    ensures var before, after := Question(100, 0, "easy", 0), Question(50, 0, "easy", 0);
      var s := Run(EMPTY, [NewQuestion(before), NewSet, Add(0, 0, None, None), EditQuestion(0, after)]);
      |s.sets| == 1 && s.sets[0].totalMarks == 100 && Total(SetLines(s.questions, s.items, 0)) == 50
  {
    var before, after := Question(100, 0, "easy", 0), Question(50, 0, "easy", 0);
    var add, edit := Add(0, 0, None, None), EditQuestion(0, after);
    var one, two := Store([before], [], [], 0), Store([before], [SetRow(0, map[], map[])], [], 0);
    var three := Step(two, add).0;
    AddOne(before);
    FirstRequest(EMPTY, one, NewQuestion(before), [NewSet] + ([add] + ([edit] + [])));
    FirstRequest(one, two, NewSet, [add] + ([edit] + []));
    FirstRequest(two, three, add, [edit] + []);
    FirstRequest(three, Step(three, edit).0, edit, []);
    assert [NewQuestion(before)] + ([NewSet] + ([add] + ([edit] + []))) == [NewQuestion(before), NewSet, add, edit];
    StaleAfterEdit(three, after);
  }

  lemma StaleAfterEdit(s: Store, question: Question)
    requires |s.questions| == 1 && s.items == [Item(0, 0, 0, 1, None)] && question.negativeMarks <= question.marks
    ensures var t := Step(s, EditQuestion(0, question)).0;
      t.sets == s.sets && Total(SetLines(t.questions, t.items, 0)) == question.marks
  {
    assert Step(s, EditQuestion(0, question)).0.questions == [question];
    LinesOfOne(Item(0, 0, 0, 1, None), question);
    TotalsOfOne(Line(Item(0, 0, 0, 1, None), question));
  }
}
