/** Marks are conserved from a question set to the assessments made from it, which bounds
    every score and percentage. */
module AssessMarks {
  import opened Options
  import opened Assess
  import opened AssessInvariants
  import AssessHistory
  import Decimals
  import Q = QuestionSets
  import QI = QuestionSetInvariants
  import QT = QuestionSetTotals

  // The two spellings of an item's effective mark

  /** An override stored as zero counts as zero in the set and as missing in the assessment. */
  ghost predicate SameMark(line: Q.Line) {
    line.item.marksOverride == Some(0) ==> line.question.marks == 0
  }

  lemma {:induction false} TotalsAgree(lines: seq<Q.Line>)
    ensures Q.Total(lines) <= Q.SnapshotTotal(lines)
    ensures Q.Total(lines) == Q.SnapshotTotal(lines) <==> forall l | 0 <= l < |lines| :: SameMark(lines[l])
  {
    if lines == [] {
    } else {
      var last := |lines| - 1;
      TotalsAgree(lines[..last]);
      assert forall l | 0 <= l < last :: lines[..last][l] == lines[l];
    }
  }

  // Sorting loses nothing

  lemma {:induction false} InsertedTotal(line: Q.Line, sorted: seq<Q.Line>)
    ensures Q.SnapshotTotal(Q.InsertLine(line, sorted)) == Q.SnapshotTotal(sorted) + Q.SnapshotMarks(line)
    ensures |Q.InsertLine(line, sorted)| == |sorted| + 1
  {
    if sorted == [] {
    } else {
      var last := |sorted| - 1;
      InsertedTotal(line, sorted[..last]);
      var inner := Q.InsertLine(line, sorted[..last]);
      assert (inner + [sorted[last]])[..|inner|] == inner && (sorted + [line])[..|sorted|] == sorted;
    }
  }

  lemma {:induction false} SortedTotal(lines: seq<Q.Line>)
    ensures Q.SnapshotTotal(Q.SortLines(lines)) == Q.SnapshotTotal(lines) && |Q.SortLines(lines)| == |lines|
  {
    if lines == [] {
    } else {
      SortedTotal(lines[..|lines| - 1]);
      InsertedTotal(lines[|lines| - 1], Q.SortLines(lines[..|lines| - 1]));
    }
  }

  lemma {:induction false} InsertedLines(line: Q.Line, sorted: seq<Q.Line>)
    ensures multiset(Q.InsertLine(line, sorted)) == multiset(sorted) + multiset{line}
  {
    if sorted == [] {
    } else {
      var last := |sorted| - 1;
      InsertedLines(line, sorted[..last]);
      assert sorted == sorted[..last] + [sorted[last]];
    }
  }

  ghost predicate InOrder(lines: seq<Q.Line>) {
    forall i, j | 0 <= i < j < |lines| :: lines[i].item.orderIndex <= lines[j].item.orderIndex
  }

  lemma {:induction false} InsertedInOrder(line: Q.Line, sorted: seq<Q.Line>, top: nat)
    requires InOrder(sorted) && line.item.orderIndex <= top
    requires forall i | 0 <= i < |sorted| :: sorted[i].item.orderIndex <= top
    ensures InOrder(Q.InsertLine(line, sorted))
    ensures forall i | 0 <= i < |Q.InsertLine(line, sorted)| :: Q.InsertLine(line, sorted)[i].item.orderIndex <= top
  {
    if sorted == [] {
    } else {
      var last := |sorted| - 1;
      if line.item.orderIndex < sorted[last].item.orderIndex {
        InsertedInOrder(line, sorted[..last], sorted[last].item.orderIndex);
      }
    }
  }

  lemma {:induction false} SortedLines(lines: seq<Q.Line>)
    ensures multiset(Q.SortLines(lines)) == multiset(lines)
  {
    if lines == [] {
    } else {
      var front, last := lines[..|lines| - 1], lines[|lines| - 1];
      SortedLines(front);
      InsertedLines(last, Q.SortLines(front));
      assert lines == front + [last];
    }
  }

  lemma {:induction false} SortedByIndex(lines: seq<Q.Line>)
    ensures InOrder(Q.SortLines(lines))
  {
    if lines == [] {
    } else {
      var line, rest := lines[|lines| - 1], Q.SortLines(lines[..|lines| - 1]);
      SortedByIndex(lines[..|lines| - 1]);
      var top := if rest == [] then 0 else rest[|rest| - 1].item.orderIndex;
      InsertedInOrder(line, rest, if line.item.orderIndex < top then top else line.item.orderIndex);
    }
  }

  /** The questions are copied in the order of the items' indexes, none lost or repeated. */
  lemma SortedInOrder(lines: seq<Q.Line>)
    ensures InOrder(Q.SortLines(lines)) && multiset(Q.SortLines(lines)) == multiset(lines)
  {
    SortedByIndex(lines);
    SortedLines(lines);
  }

  /** Each question row copies its line. */
  lemma {:induction false} RowCopiesLine(a: nat, lines: seq<Q.Line>, k: nat)
    requires k < |lines|
    ensures var line := lines[k];
      QuestionRows(a, lines)[k] ==
      AssessmentQuestion(a, line.item.question, line.item.orderIndex,
          if line.item.marksOverride in {None, Some(0)} then line.question.marks else line.item.marksOverride.value,
          line.question.negativeMarks)
  {
    if k < |lines| - 1 { RowCopiesLine(a, lines[..|lines| - 1], k); }
  }

  // The questions of a new assessment

  /** The question row an assessment should have for a line of its set. */
  ghost predicate Copies(row: AssessmentQuestion, a: nat, line: Q.Line) {
    && row.assessment == a && row.question == line.item.question && row.orderIndex == line.item.orderIndex
    && row.negativeMarks == line.question.negativeMarks
    && row.marks == if line.item.marksOverride in {None, Some(0)} then line.question.marks
                    else line.item.marksOverride.value
  }

  /** A question for each line of the set, in the order of their indexes. */
  ghost predicate CopiesAll(rows: seq<AssessmentQuestion>, a: nat, lines: seq<Q.Line>) {
    && |rows| == |lines|
    && (forall i, j | 0 <= i < j < |rows| :: rows[i].orderIndex <= rows[j].orderIndex)
    && (forall i | 0 <= i < |rows| :: exists l :: l in lines && Copies(rows[i], a, l))
    && (forall l | l in lines :: exists i :: 0 <= i < |rows| && Copies(rows[i], a, l))
  }

  lemma RowsCopySet(a: nat, lines: seq<Q.Line>)
    ensures CopiesAll(QuestionRows(a, Q.SortLines(lines)), a, lines)
  {
    var sorted := Q.SortLines(lines);
    var rows := QuestionRows(a, sorted);
    SortedInOrder(lines);
    SortedTotal(lines);
    SameMembers(sorted, lines);
    forall k | 0 <= k < |sorted| ensures Copies(rows[k], a, sorted[k]) { RowCopiesLine(a, sorted, k); }
    forall i | 0 <= i < |rows| ensures exists l :: l in lines && Copies(rows[i], a, l) { assert sorted[i] in lines; }
  }

  /** A new assessment gets one section with the set's total, and the set's questions. */
  lemma CreateCopiesSet(s: Store, batch: Option<nat>, starts: Option<int>, ends: Option<int>, detail: Q.Detail)
    requires Step(s, Create(batch, starts, ends, ThisSet(detail))).1.Done?
    ensures var t := Step(s, Create(batch, starts, ends, ThisSet(detail))).0;
      && t.sections == s.sections + [Section(|s.assessments|, detail.totalMarks)]
      && |t.questions| >= |s.questions| && t.questions[..|s.questions|] == s.questions
      && CopiesAll(t.questions[|s.questions|..], |s.assessments|, detail.lines)
  {
    var t := Step(s, Create(batch, starts, ends, ThisSet(detail))).0;
    RowsCopySet(|s.assessments|, detail.lines);
    assert t.questions == s.questions + QuestionRows(|s.assessments|, Q.SortLines(detail.lines));
  }

  lemma SameMembers(xs: seq<Q.Line>, ys: seq<Q.Line>)
    requires multiset(xs) == multiset(ys)
    ensures forall l :: l in xs <==> l in ys
  {
    forall l ensures l in xs <==> l in ys { assert l in multiset(xs) <==> l in multiset(ys); }
  }

  lemma {:induction false} RowsCarryMarks(questions: seq<AssessmentQuestion>, a: nat, lines: seq<Q.Line>,
      chosen: set<nat>)
    requires forall q | |questions| <= q < |questions| + |lines| :: q in chosen
    requires forall q | 0 <= q < |questions| :: q !in chosen
    ensures MarksOver(questions + QuestionRows(a, lines), chosen) == Q.SnapshotTotal(lines)
  {
    if lines == [] {
      assert questions + QuestionRows(a, lines) == questions;
      NoneChosen(questions, chosen);
    } else {
      var last := |lines| - 1;
      var all := questions + QuestionRows(a, lines);
      RowsCarryMarks(questions, a, lines[..last], chosen);
      assert all[..|all| - 1] == questions + QuestionRows(a, lines[..last]);
    }
  }

  lemma {:induction false} NoneChosen(questions: seq<AssessmentQuestion>, chosen: set<nat>)
    requires forall q | 0 <= q < |questions| :: q !in chosen
    ensures MarksOver(questions, chosen) == 0
  {
    if questions == [] {
    } else {
      NoneChosen(questions[..|questions| - 1], chosen);
    }
  }

  lemma CreatedMarks(s: Store, batch: Option<nat>, starts: Option<int>, ends: Option<int>, detail: Q.Detail)
    requires Sound(s) && CreateAssessment(s, batch, starts, ends, ThisSet(detail)).1.Done?
    ensures var (t, outcome) := CreateAssessment(s, batch, starts, ends, ThisSet(detail));
      && outcome == Done(|s.assessments|) && |t.assessments| == |s.assessments| + 1 && |t.sections| == |s.sections| + 1
      && t.assessments[|s.assessments|].totalMarks == detail.totalMarks
      && t.sections[|s.sections|] == Section(|s.assessments|, detail.totalMarks)
      && MarksOf(t, |s.assessments|) == Q.SnapshotTotal(detail.lines)
  {
    var a, sorted := |s.assessments|, Q.SortLines(detail.lines);
    var t := CreateAssessment(s, batch, starts, ends, ThisSet(detail)).0;
    SortedTotal(detail.lines);
    RowsCarryMarks(s.questions, a, sorted, QuestionsOf(t.questions, a));
  }

  /** What an assessment made from set `x` looks like: its total, its section's total and the
      set's total are one number, and that is the sum of its questions' marks if and only if no
      override stored as zero hides a question's marks. */
  ghost predicate Conserves(s: Store, q: Q.Store, x: nat, batch: Option<nat>, starts: Option<int>, ends: Option<int>)
    requires Q.Linked(q.items, q.questions) && x < |q.sets|
  {
    var lines := Q.SetLines(q.questions, q.items, x);
    var (t, outcome) := Step(s, Create(batch, starts, ends, ThisSet(Q.Detail(q.sets[x].totalMarks, lines))));
    && outcome == Done(|s.assessments|) && |t.assessments| == |s.assessments| + 1 && |t.sections| == |s.sections| + 1
    && t.assessments[|s.assessments|].totalMarks == t.sections[|s.sections|].totalMarks == q.sets[x].totalMarks
    && (MarksOf(t, |s.assessments|) == q.sets[x].totalMarks <==> forall l | 0 <= l < |lines| :: SameMark(lines[l]))
  }

  lemma RightTotalConserves(s: Store, q: Q.Store, x: nat, batch: Option<nat>, starts: Option<int>, ends: Option<int>)
    requires Sound(s) && QI.Inv(q) && x < |q.sets| && QI.TotalRight(q, x)
    requires Q.SetLines(q.questions, q.items, x) != []
    ensures Conserves(s, q, x, batch, starts, ends)
  {
    var lines := Q.SetLines(q.questions, q.items, x);
    LinesAreDistinct(q.questions, q.items, x);
    CreatedMarks(s, batch, starts, ends, Q.Detail(q.sets[x].totalMarks, lines));
    TotalsAgree(lines);
  }

  /** The question sets after an item of set `x` was added or removed and more requests ran. */
  ghost function SetsAfter(before: seq<Q.Request>, change: Q.Request, after: seq<Q.Request>): (q: Q.Store)
    ensures Q.Linked(q.items, q.questions)
  {
    Q.Run(Q.Step(Q.Run(Q.EMPTY, before), change).0, after)
  }

  /** Marks are conserved in every reachable state of assessments and question sets: if since
      the last item added to or removed from a non-empty set no edit changed marks the set
      counts, then whatever else ran, reorders included, an assessment can be made of the set
      and carries its marks. */
  lemma MarksConserved(earlier: seq<Request>, before: seq<Q.Request>, change: Q.Request, after: seq<Q.Request>, x: nat,
                       batch: Option<nat>, starts: Option<int>, ends: Option<int>)
    requires QT.ChangesItems(Q.Run(Q.EMPTY, before), change, x)
    requires QT.RunKeepsMarks(Q.Step(Q.Run(Q.EMPTY, before), change).0, x, after)
    requires var q := SetsAfter(before, change, after); Q.SetLines(q.questions, q.items, x) != []
    ensures var q := SetsAfter(before, change, after);
      x < |q.sets| && Conserves(Run(EMPTY, earlier), q, x, batch, starts, ends)
  {
    AssessHistory.EmptyIsSound();
    RunPreserves(EMPTY, earlier);
    QT.RightSinceLastChange(before, change, after, x);
    RightTotalConserves(Run(EMPTY, earlier), SetsAfter(before, change, after), x, batch, starts, ends);
  }

  lemma HiddenMarks(item: Q.Item, question: Q.Question)
    requires item.question == 0 && item.marksOverride == Some(0)
    ensures var lines := Q.SetLines([question], [item], item.set_);
      Q.Total(lines) == 0 && Q.SnapshotTotal(lines) == question.marks
  {
    QT.LinesOfOne(item, question);
    QT.TotalsOfOne(Q.Line(item, question));
  }

  lemma AddHidden(question: Q.Question)
    ensures var s := Q.Store([question], [Q.SetRow(0, map[], map[])], [], 0);
      var t := Q.Step(s, Q.Add(0, 0, None, Some(0))).0;
      && t.questions == [question] && t.items == [Q.Item(0, 0, 0, 1, Some(0))]
      && |t.sets| == 1 && t.sets[0].totalMarks == 0
  {
    HiddenMarks(Q.Item(0, 0, 0, 1, Some(0)), question);
  }

  /** An override below half a hundredth is stored as zero: the set counts nothing for a
      question of 1.00, the assessment 1.00. */
  lemma OverrideStoredAsZero()
    ensures var q := Q.Run(Q.EMPTY, [Q.NewQuestion(Q.Question(100, 0, "easy", 0)), Q.NewSet,
            Q.Add(0, 0, None, Some(0))]);
      && |q.sets| == 1 && q.sets[0].totalMarks == 0 && Q.SnapshotTotal(Q.SetLines(q.questions, q.items, 0)) == 100
  {
    var question, add := Q.Question(100, 0, "easy", 0), Q.Add(0, 0, None, Some(0));
    var one, two := Q.Store([question], [], [], 0), Q.Store([question], [Q.SetRow(0, map[], map[])], [], 0);
    var three := Q.Step(two, add).0;
    AddHidden(question);
    HiddenMarks(Q.Item(0, 0, 0, 1, Some(0)), question);
    QT.FirstRequest(Q.EMPTY, one, Q.NewQuestion(question), [Q.NewSet, add]);
    QT.FirstRequest(one, two, Q.NewSet, [add]);
    QT.FirstRequest(two, three, add, []);
    assert [Q.NewQuestion(question)] + [Q.NewSet, add] == [Q.NewQuestion(question), Q.NewSet, add];
    assert [Q.NewSet] + [add] == [Q.NewSet, add] && [add] + [] == [add];
  }

  lemma {:induction false} LinesAreDistinct(questions: seq<Q.Question>, items: seq<Q.Item>, x: nat)
    requires Q.Linked(items, questions) && QI.UniqueItems(items)
    ensures Q.DistinctKeys(Q.SetLines(questions, items, x))
  {
    if items == [] {
    } else {
      var front := items[..|items| - 1];
      LinesAreDistinct(questions, front, x);
      var lines, before := Q.SetLines(questions, items, x), Q.SetLines(questions, front, x);
      forall i, j | 0 <= i < j < |lines|
        ensures lines[i].item.orderIndex != lines[j].item.orderIndex && lines[i].item.question != lines[j].item.question
      {
        assert lines[i] == before[i];
        var k :| 0 <= k < |front| && front[k] == before[i].item;
        assert items[k] == before[i].item;
      }
    }
  }

  // Balanced assessments stay balanced

  ghost predicate Balanced(s: Store, a: nat) {
    a < |s.assessments| && MarksOf(s, a) == s.assessments[a].totalMarks
  }

  lemma BalancedForever(s: Store, requests: seq<Request>, a: nat)
    requires Inv(s) && Balanced(s, a)
    ensures Balanced(Run(s, requests), a) && NegativesOf(Run(s, requests), a) == NegativesOf(s, a)
  {
    AssessHistory.RunEvolves(s, requests);
    var t := Run(s, requests);
    var rows := t.questions[|s.questions|..];
    assert t.questions == s.questions + rows;
    NewQuestionsAside(s.questions, rows, a);
  }

  /** On a balanced assessment every score lies between minus the negative marks and the
      total, and every percentage is at most 100.00. */
  lemma ScoreWithinTotal(s: Store, requests: seq<Request>, a: nat, i: nat, r: nat)
    requires Inv(s) && Balanced(s, a)
    requires var t := Run(s, requests);
      i < |t.attempts| && t.attempts[i].assessment == a && r < |t.results| && t.results[r].attempt == i
    ensures var t := Run(s, requests);
      && -(NegativesOf(s, a) as int) <= t.results[r].score <= s.assessments[a].totalMarks
      && t.results[r].percentage <= 10000
      && (t.results[r].score >= 0 ==> t.results[r].percentage >= 0)
      && (t.results[r].score == s.assessments[a].totalMarks > 0 ==> t.results[r].percentage == 10000)
  {
    AssessHistory.RunEvolves(s, requests);
    BalancedForever(s, requests, a);
    var t := Run(s, requests);
    assert ResultAgrees(t, r);
    Decimals.PercentageAtMostHundred(t.results[r].score, s.assessments[a].totalMarks);
  }

  /** So every result of such an assessment, in every later state, has a score between minus
      its negative marks and the set's total, and at most 100.00 percent. */
  lemma ConservedScoresWithinTotal(
    earlier: seq<Request>, before: seq<Q.Request>, change: Q.Request, after: seq<Q.Request>, x: nat,
    batch: Option<nat>, starts: Option<int>, ends: Option<int>, later: seq<Request>, r: nat)
    requires QT.ChangesItems(Q.Run(Q.EMPTY, before), change, x)
    requires QT.RunKeepsMarks(Q.Step(Q.Run(Q.EMPTY, before), change).0, x, after)
    requires var q := SetsAfter(before, change, after);
      var lines := Q.SetLines(q.questions, q.items, x);
      lines != [] && (forall l | 0 <= l < |lines| :: SameMark(lines[l])) && x < |q.sets|
    requires var u := After(earlier, SetsAfter(before, change, after), x, batch, starts, ends, later);
      r < |u.results| && u.results[r].assessment == |Run(EMPTY, earlier).assessments|
    ensures var q := SetsAfter(before, change, after);
      var u := After(earlier, q, x, batch, starts, ends, later);
      && -(NegativesOf(u, u.results[r].assessment) as int) <= u.results[r].score <= q.sets[x].totalMarks
      && u.results[r].percentage <= 10000
  {
    var s, q, a := Run(EMPTY, earlier), SetsAfter(before, change, after), |Run(EMPTY, earlier).assessments|;
    MarksConserved(earlier, before, change, after, x, batch, starts, ends);
    AssessHistory.EmptyIsSound();
    RunPreserves(EMPTY, earlier);
    var t := Created(s, q, x, batch, starts, ends);
    CreatePreserves(s, batch, starts, ends,
        ThisSet(Q.Detail(q.sets[x].totalMarks, Q.SetLines(q.questions, q.items, x))));
    RunPreserves(t, later);
    assert ResultAgrees(Run(t, later), r);
    BalancedForever(t, later, a);
    ScoreWithinTotal(t, later, a, Run(t, later).results[r].attempt, r);
  }

  ghost function Created(s: Store, q: Q.Store, x: nat, batch: Option<nat>, starts: Option<int>,
      ends: Option<int>): Store
    requires Q.Linked(q.items, q.questions) && x < |q.sets|
  {
    CreateAssessment(s, batch, starts, ends,
        ThisSet(Q.Detail(q.sets[x].totalMarks, Q.SetLines(q.questions, q.items, x)))).0
  }

  /** The assessments after one is made from the set and more requests ran. */
  ghost function After(earlier: seq<Request>, q: Q.Store, x: nat, batch: Option<nat>, starts: Option<int>,
      ends: Option<int>, later: seq<Request>): Store
    requires Q.Linked(q.items, q.questions) && x < |q.sets|
  {
    Run(Created(Run(EMPTY, earlier), q, x, batch, starts, ends), later)
  }

  // Marks hidden by an override stored as zero

  /** In every reachable state a result's score is at most the marks of its assessment's
      questions, so it exceeds the total, and its percentage 100.00, only when those do. */
  lemma ExcessNeedsHiddenMarks(requests: seq<Request>, r: nat)
    requires r < |Run(EMPTY, requests).results|
    ensures var s := Run(EMPTY, requests);
      var a := s.results[r].assessment;
      && a < |s.assessments| && s.results[r].score <= MarksOf(s, a)
      && (s.results[r].score > s.assessments[a].totalMarks ==> MarksOf(s, a) > s.assessments[a].totalMarks)
      && (s.results[r].percentage > 10000 ==> MarksOf(s, a) > s.assessments[a].totalMarks)
  {
    AssessHistory.EmptyIsSound();
    RunPreserves(EMPTY, requests);
    var s := Run(EMPTY, requests);
    assert ResultAgrees(s, r);
    var total := s.assessments[s.results[r].assessment].totalMarks;
    if s.results[r].score <= total { Decimals.PercentageAtMostHundred(s.results[r].score, total); }
  }
}
