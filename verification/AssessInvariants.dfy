/** What every reachable state of the assessment store keeps. */
module AssessInvariants {
  import opened Options
  import opened Assess
  import Decimals

  // The invariant

  ghost predicate Graded(s: Store, i: nat, q: nat, a: nat) {
    && a < |s.answers|
    && s.answers[a].attempt == i && s.answers[a].assessmentQuestion == q
    && s.answers[a].status != Pending
  }

  ghost predicate HasGradedAnswer(s: Store, i: nat, q: nat) {
    exists a: nat :: Graded(s, i, q, a)
  }

  /** Every question of the attempt's assessment has an evaluated answer. */
  ghost predicate Complete(s: Store, i: nat)
    requires i < |s.attempts|
  {
    forall q: nat | q < |s.questions| && s.questions[q].assessment == s.attempts[i].assessment ::
      HasGradedAnswer(s, i, q)
  }

  ghost predicate AnswerInPlace(s: Store, a: nat)
    requires a < |s.answers|
  {
    var answer := s.answers[a];
    && answer.attempt < |s.attempts| && answer.assessmentQuestion < |s.questions|
    && s.questions[answer.assessmentQuestion].assessment == s.attempts[answer.attempt].assessment
    && (answer.status == Pending ==> answer.score == None)
    && (answer.status != Pending ==>
          && answer.score.Some?
          && -(s.questions[answer.assessmentQuestion].negativeMarks as int) <= answer.score.value
             <= s.questions[answer.assessmentQuestion].marks)
  }

  /** Foreign keys, the unique constraint on answers, and scores within a question's marks. */
  ghost predicate Sound(s: Store) {
    && (forall q | 0 <= q < |s.questions| :: s.questions[q].assessment < |s.assessments|)
    && (forall i | 0 <= i < |s.attempts| :: s.attempts[i].assessment < |s.assessments|)
    && (forall a | 0 <= a < |s.answers| :: AnswerInPlace(s, a))
    && (forall a, b | 0 <= a < b < |s.answers| ::
          s.answers[a].attempt != s.answers[b].attempt
              || s.answers[a].assessmentQuestion != s.answers[b].assessmentQuestion)
    && (forall i, j | 0 <= i < j < |s.attempts| ::
          s.attempts[i].assessment != s.attempts[j].assessment || s.attempts[i].student != s.attempts[j].student)
  }

  /** Past STARTED, an attempt is EVALUATED exactly when all its questions are. */
  ghost predicate Decided(s: Store) {
    forall i: nat | i < |s.attempts| && s.attempts[i].status != Started ::
      s.attempts[i].status == AttemptStatus.Evaluated <==> Complete(s, i)
  }

  ghost predicate EvaluationAgrees(s: Store, e: nat)
    requires e < |s.evaluations|
  {
    var evaluation := s.evaluations[e];
    && evaluation.attempt < |s.attempts|
    && s.attempts[evaluation.attempt].status == AttemptStatus.Evaluated
    && s.attempts[evaluation.attempt].score == Some(evaluation.totalScore)
  }

  ghost predicate ResultAgrees(s: Store, r: nat)
    requires r < |s.results|
  {
    var result := s.results[r];
    && result.attempt < |s.attempts| && result.assessment < |s.assessments|
    && var attempt := s.attempts[result.attempt];
    && attempt.status == AttemptStatus.Evaluated
    && attempt.assessment == result.assessment && attempt.student == result.student
    && attempt.score == Some(result.score)
    && result.percentage == Decimals.Percentage(result.score, s.assessments[result.assessment].totalMarks)
  }

  ghost predicate HasRecords(s: Store, i: nat) {
    && (exists e :: 0 <= e < |s.evaluations| && s.evaluations[e].attempt == i)
    && (exists r :: 0 <= r < |s.results| && s.results[r].attempt == i)
  }

  /** Exactly one evaluation and one result for each EVALUATED attempt, agreeing with it, and
      none for the others. */
  ghost predicate Recorded(s: Store) {
    && (forall e: nat | e < |s.evaluations| :: EvaluationAgrees(s, e))
    && (forall r: nat | r < |s.results| :: ResultAgrees(s, r))
    && (forall e, f | 0 <= e < f < |s.evaluations| :: s.evaluations[e].attempt != s.evaluations[f].attempt)
    && (forall e, f | 0 <= e < f < |s.results| :: s.results[e].attempt != s.results[f].attempt)
    && (forall i: nat | i < |s.attempts| ::
          if s.attempts[i].status == AttemptStatus.Evaluated then HasRecords(s, i) else s.attempts[i].score == None)
  }

  /** The marks, or the negative marks, of the questions in `chosen`. */
  ghost function MarksOver(questions: seq<AssessmentQuestion>, chosen: set<nat>): nat {
    if questions == [] then 0
    else
      var last := |questions| - 1;
      MarksOver(questions[..last], chosen) + if last in chosen then questions[last].marks else 0
  }

  ghost function NegativesOver(questions: seq<AssessmentQuestion>, chosen: set<nat>): nat {
    if questions == [] then 0
    else
      var last := |questions| - 1;
      NegativesOver(questions[..last], chosen) + if last in chosen then questions[last].negativeMarks else 0
  }

  ghost function MarksOf(s: Store, assessment: nat): nat {
    MarksOver(s.questions, QuestionsOf(s.questions, assessment))
  }

  ghost function NegativesOf(s: Store, assessment: nat): nat {
    NegativesOver(s.questions, QuestionsOf(s.questions, assessment))
  }

  ghost predicate ScoreBounded(s: Store) {
    forall i | 0 <= i < |s.attempts| && s.attempts[i].score.Some? ::
      -(NegativesOf(s, s.attempts[i].assessment) as int) <= s.attempts[i].score.value
          <= MarksOf(s, s.attempts[i].assessment)
  }

  ghost predicate Inv(s: Store) {
    Sound(s) && Decided(s) && Recorded(s) && ScoreBounded(s)
  }

  // The cardinality test, by pigeonhole

  lemma SubsetSize(small: set<nat>, big: set<nat>)
    requires small <= big
    ensures |small| <= |big|
    ensures |small| >= |big| ==> small == big
  {
    assert big == small + (big - small);
  }

  /** The dictionary holds the attempt's answers, each under its question. */
  lemma {:induction false} DictionaryOfAnswers(answers: seq<Answer>, i: nat)
    requires forall a, b | 0 <= a < b < |answers| ::
               answers[a].attempt != answers[b].attempt
                   || answers[a].assessmentQuestion != answers[b].assessmentQuestion
    ensures forall q | q in AnswerByQuestion(answers, i) ::
              AnswerByQuestion(answers, i)[q] in answers && AnswerByQuestion(answers, i)[q].attempt == i
              && AnswerByQuestion(answers, i)[q].assessmentQuestion == q
    ensures forall a | 0 <= a < |answers| && answers[a].attempt == i ::
              answers[a].assessmentQuestion in AnswerByQuestion(answers, i)
              && AnswerByQuestion(answers, i)[answers[a].assessmentQuestion] == answers[a]
  {
    if answers == [] {
    } else {
      var last := |answers| - 1;
      var front := answers[..last];
      DictionaryOfAnswers(front, i);
      assert forall a | 0 <= a < last :: answers[a] == front[a];
    }
  }

  /** The code counts answers against questions; on a sound store that decides whether every
      question is answered and evaluated. */
  lemma CountingDecidesCompleteness(s: Store, i: nat)
    requires Sound(s) && i < |s.attempts|
    ensures AllAnswersEvaluated(s, i) <==> Complete(s, i)
  {
    var answered := AnswerByQuestion(s.answers, i);
    var asked := QuestionsOf(s.questions, s.attempts[i].assessment);
    DictionaryOfAnswers(s.answers, i);
    forall q | q in answered ensures q in asked {
      var a :| 0 <= a < |s.answers| && s.answers[a] == answered[q];
      assert AnswerInPlace(s, a);
    }
    SubsetSize(answered.Keys, asked);
    if AllAnswersEvaluated(s, i) {
      assert answered.Keys == asked;
      forall q | q in asked ensures HasGradedAnswer(s, i, q) {
        var a :| 0 <= a < |s.answers| && s.answers[a] == answered[q];
        assert Graded(s, i, q, a);
      }
    }
    if Complete(s, i) {
      forall q | q in asked ensures q in answered && answered[q].status != Pending {
        var a: nat :| Graded(s, i, q, a);
        assert answered[s.answers[a].assessmentQuestion] == s.answers[a];
      }
      assert answered.Keys == asked;
    }
  }

  // The sum of scores stays within the marks

  lemma {:induction false} AddChosen(questions: seq<AssessmentQuestion>, chosen: set<nat>, q: nat)
    requires q < |questions| && q !in chosen
    ensures MarksOver(questions, chosen + {q}) == MarksOver(questions, chosen) + questions[q].marks
    ensures NegativesOver(questions, chosen + {q}) == NegativesOver(questions, chosen) + questions[q].negativeMarks
  {
    var last := |questions| - 1;
    if q < last {
      AddChosen(questions[..last], chosen, q);
    } else {
      OutOfReach(questions[..last], chosen, q);
    }
  }

  lemma {:induction false} OutOfReach(questions: seq<AssessmentQuestion>, chosen: set<nat>, q: nat)
    requires q >= |questions|
    ensures MarksOver(questions, chosen + {q}) == MarksOver(questions, chosen)
    ensures NegativesOver(questions, chosen + {q}) == NegativesOver(questions, chosen)
  {
    if questions == [] {
    } else {
      OutOfReach(questions[..|questions| - 1], chosen, q);
    }
  }

  lemma {:induction false} Widen(questions: seq<AssessmentQuestion>, chosen: set<nat>, wider: set<nat>)
    requires chosen <= wider
    ensures MarksOver(questions, chosen) <= MarksOver(questions, wider)
    ensures NegativesOver(questions, chosen) <= NegativesOver(questions, wider)
  {
    if questions == [] {
    } else {
      Widen(questions[..|questions| - 1], chosen, wider);
    }
  }

  ghost function Answered(s: Store, n: nat, i: nat): set<nat>
    requires n <= |s.answers|
  {
    set a | 0 <= a < n && s.answers[a].attempt == i :: s.answers[a].assessmentQuestion
  }

  lemma {:induction false} ScoreWithinAnswered(s: Store, n: nat, i: nat)
    requires Sound(s) && n <= |s.answers|
    ensures -(NegativesOver(s.questions, Answered(s, n, i)) as int) <= ScoreSum(s.answers[..n], i)
              <= MarksOver(s.questions, Answered(s, n, i))
  {
    if n == 0 {
      Widen(s.questions, {}, Answered(s, n, i));
    } else {
      ScoreWithinAnswered(s, n - 1, i);
      var last := s.answers[n - 1];
      assert AnswerInPlace(s, n - 1);
      assert s.answers[..n][..n - 1] == s.answers[..n - 1];
      if last.attempt == i {
        assert Answered(s, n, i) == Answered(s, n - 1, i) + {last.assessmentQuestion};
        AddChosen(s.questions, Answered(s, n - 1, i), last.assessmentQuestion);
      } else {
        assert Answered(s, n, i) == Answered(s, n - 1, i);
      }
    }
  }

  lemma ScoreWithinMarks(s: Store, i: nat)
    requires Sound(s) && i < |s.attempts|
    ensures -(NegativesOf(s, s.attempts[i].assessment) as int) <= ScoreSum(s.answers, i)
            <= MarksOf(s, s.attempts[i].assessment)
  {
    var n := |s.answers|;
    ScoreWithinAnswered(s, n, i);
    assert s.answers[..n] == s.answers;
    forall q | q in Answered(s, n, i) ensures q in QuestionsOf(s.questions, s.attempts[i].assessment) {
      var a :| 0 <= a < n && s.answers[a].attempt == i && s.answers[a].assessmentQuestion == q;
      assert AnswerInPlace(s, a);
    }
    Widen(s.questions, Answered(s, n, i), QuestionsOf(s.questions, s.attempts[i].assessment));
  }

  // Steps

  /** Same questions for every assessment there was, and the same answers. */
  ghost predicate SameGrades(s: Store, t: Store) {
    && |s.attempts| <= |t.attempts|
    && (forall i: nat | i < |s.attempts| :: t.attempts[i].assessment == s.attempts[i].assessment)
    && s.answers == t.answers
    && (forall a | 0 <= a < |s.assessments| :: QuestionsOf(t.questions, a) == QuestionsOf(s.questions, a))
  }

  lemma CompletenessFrame(s: Store, t: Store, i: nat)
    requires SameGrades(s, t) && i < |s.attempts| && s.attempts[i].assessment < |s.assessments|
    ensures Complete(s, i) <==> Complete(t, i)
  {
    var a := s.attempts[i].assessment;
    assert QuestionsOf(t.questions, a) == QuestionsOf(s.questions, a);
    assert forall q: nat :: q in QuestionsOf(s.questions, a) <==> q < |s.questions| && s.questions[q].assessment == a;
    assert forall q: nat :: q in QuestionsOf(t.questions, a) <==> q < |t.questions| && t.questions[q].assessment == a;
    assert forall q, a: nat :: Graded(s, i, q, a) <==> Graded(t, i, q, a);
    assert forall q :: HasGradedAnswer(s, i, q) <==> HasGradedAnswer(t, i, q);
  }

  /** Rows that kept what the records say about them keep the records right. */
  lemma RecordsFrame(s: Store, t: Store)
    requires Recorded(s) && t.evaluations == s.evaluations
    requires |s.assessments| <= |t.assessments| && |s.attempts| <= |t.attempts| && |s.results| == |t.results|
    requires forall a | 0 <= a < |s.assessments| :: t.assessments[a].totalMarks == s.assessments[a].totalMarks
    requires forall i | 0 <= i < |s.attempts| ::
               && t.attempts[i].assessment == s.attempts[i].assessment && t.attempts[i].student == s.attempts[i].student
               && t.attempts[i].score == s.attempts[i].score
               && (t.attempts[i].status == AttemptStatus.Evaluated <==> s.attempts[i].status == AttemptStatus.Evaluated)
    requires forall i | |s.attempts| <= i < |t.attempts| ::
              t.attempts[i].status != AttemptStatus.Evaluated && t.attempts[i].score == None
    requires forall r | 0 <= r < |s.results| :: t.results[r] == s.results[r].(publishedAt := t.results[r].publishedAt)
    ensures Recorded(t)
  {
    forall e: nat | e < |s.evaluations| ensures EvaluationAgrees(t, e) { assert EvaluationAgrees(s, e); }
    forall r: nat | r < |s.results| ensures ResultAgrees(t, r) { assert ResultAgrees(s, r); }
    forall i | HasRecords(s, i) ensures HasRecords(t, i) {
      var r :| 0 <= r < |s.results| && s.results[r].attempt == i;
      assert t.results[r].attempt == i;
    }
  }

  /** Requests that only touch the window, the status or the batch of assessments. */
  lemma AssessmentRowsPreserve(s: Store, t: Store)
    requires Inv(s) && t == s.(assessments := t.assessments) && |t.assessments| == |s.assessments|
    requires forall a | 0 <= a < |s.assessments| :: t.assessments[a].totalMarks == s.assessments[a].totalMarks
    ensures Inv(t)
  {
    forall i: nat | i < |s.attempts| ensures Complete(s, i) <==> Complete(t, i) { CompletenessFrame(s, t, i); }
    forall a: nat | a < |s.answers| ensures AnswerInPlace(t, a) { assert AnswerInPlace(s, a); }
    RecordsFrame(s, t);
  }

  /** Rows appended for a new assessment leave the questions and marks of the others alone. */
  lemma {:induction false} NewQuestionsAside(questions: seq<AssessmentQuestion>, rows: seq<AssessmentQuestion>, b: nat)
    requires forall q | 0 <= q < |rows| :: rows[q].assessment != b
    ensures QuestionsOf(questions + rows, b) == QuestionsOf(questions, b)
    ensures MarksOver(questions + rows, QuestionsOf(questions, b)) == MarksOver(questions, QuestionsOf(questions, b))
    ensures NegativesOver(questions + rows, QuestionsOf(questions, b))
            == NegativesOver(questions, QuestionsOf(questions, b))
  {
    if rows == [] {
      assert questions + rows == questions;
    } else {
      var last := |rows| - 1;
      var all := questions + rows;
      NewQuestionsAside(questions, rows[..last], b);
      assert all[..|all| - 1] == questions + rows[..last];
    }
  }

  lemma AllQuestionsAside(s: Store, t: Store, rows: seq<AssessmentQuestion>)
    requires t.questions == s.questions + rows
    requires forall q | 0 <= q < |rows| :: rows[q].assessment == |s.assessments|
    ensures forall b: nat | b < |s.assessments| ::
              && QuestionsOf(t.questions, b) == QuestionsOf(s.questions, b)
              && MarksOf(t, b) == MarksOf(s, b) && NegativesOf(t, b) == NegativesOf(s, b)
  {
    forall b: nat | b < |s.assessments|
      ensures QuestionsOf(t.questions, b) == QuestionsOf(s.questions, b)
      ensures MarksOf(t, b) == MarksOf(s, b) && NegativesOf(t, b) == NegativesOf(s, b)
    {
      NewQuestionsAside(s.questions, rows, b);
    }
  }

  lemma CreatePreserves(s: Store, batch: Option<nat>, starts: Option<int>, ends: Option<int>, request: SetRequest)
    requires Inv(s)
    ensures Inv(CreateAssessment(s, batch, starts, ends, request).0)
  {
    var t := CreateAssessment(s, batch, starts, ends, request).0;
    var rows := t.questions[|s.questions|..];
    assert t.questions == s.questions + rows;
    assert forall q | 0 <= q < |rows| :: rows[q].assessment == |s.assessments|;
    AllQuestionsAside(s, t, rows);
    forall i: nat | i < |s.attempts| ensures Complete(s, i) <==> Complete(t, i) { CompletenessFrame(s, t, i); }
    forall a: nat | a < |s.answers| ensures AnswerInPlace(t, a) { assert AnswerInPlace(s, a); }
    RecordsFrame(s, t);
  }

  lemma StartPreserves(s: Store, a: nat, student: nat, standing: StudentStanding, key: Option<string>, now: int)
    requires Inv(s)
    ensures Inv(StartAttempt(s, a, student, standing, key, now).0)
  {
    var t := StartAttempt(s, a, student, standing, key, now).0;
    if t != s { NewAttemptPreserves(s, t, t.attempts[|s.attempts|]); }
  }

  /** A new attempt, the student's first at the assessment, is STARTED and has no score. */
  lemma NewAttemptPreserves(s: Store, t: Store, attempt: Attempt)
    requires Inv(s) && t == s.(attempts := s.attempts + [attempt])
    requires attempt.status == Started && attempt.score == None && attempt.assessment < |s.assessments|
    requires forall i | 0 <= i < |s.attempts| ::
              s.attempts[i].assessment != attempt.assessment || s.attempts[i].student != attempt.student
    ensures Inv(t)
  {
    forall i: nat | i < |s.attempts| ensures Complete(s, i) <==> Complete(t, i) { CompletenessFrame(s, t, i); }
    forall b: nat | b < |s.answers| ensures AnswerInPlace(t, b) { assert AnswerInPlace(s, b); }
    NewAttemptBounded(s, t, attempt);
    RecordsFrame(s, t);
  }

  lemma NewAttemptBounded(s: Store, t: Store, attempt: Attempt)
    requires ScoreBounded(s) && t == s.(attempts := s.attempts + [attempt]) && attempt.score == None
    ensures ScoreBounded(t)
  {
  }

  /** Everything an answer row says about completeness of the other attempts stays. */
  lemma OtherAttemptsFrame(s: Store, t: Store, i: nat, j: nat)
    requires t.questions == s.questions && |t.attempts| == |s.attempts|
    requires j < |s.attempts| && t.attempts[j].assessment == s.attempts[j].assessment && j != i
    requires |s.answers| <= |t.answers|
    requires forall a | 0 <= a < |s.answers| ::
              t.answers[a] == s.answers[a] || (t.answers[a].attempt == s.answers[a].attempt == i)
    requires forall a | |s.answers| <= a < |t.answers| :: t.answers[a].attempt == i
    ensures Complete(s, j) <==> Complete(t, j)
  {
    assert forall q, a: nat :: Graded(s, j, q, a) <==> Graded(t, j, q, a);
    assert forall q :: HasGradedAnswer(s, j, q) <==> HasGradedAnswer(t, j, q);
  }

  lemma ReplyPreserves(s: Store, i: nat, q: nat, content: Content, key: Option<string>, bank: Option<BankQuestion>)
    requires Inv(s)
    ensures Inv(SubmitAnswer(s, i, q, content, key, bank).0)
  {
    var t := SubmitAnswer(s, i, q, content, key, bank).0;
    if t != s {
      assert s.answers == t.answers[..|s.answers|];
      forall j: nat | j < |s.attempts| && j != i
        ensures Complete(s, j) <==> Complete(t, j)
      {
        OtherAttemptsFrame(s, t, i, j);
      }
      forall b: nat | b < |t.answers| ensures AnswerInPlace(t, b) { assert b < |s.answers| ==> AnswerInPlace(s, b); }
      RecordsFrame(s, t);
    }
  }

  /** Ready for `Finalize`: the invariant but for the attempt that is now complete. */
  ghost predicate ReadyToFinalize(t: Store, i: nat) {
    && Sound(t) && Recorded(t) && ScoreBounded(t)
    && i < |t.attempts| && Waiting(t.attempts[i].status) && Complete(t, i)
    && (forall j: nat | j < |t.attempts| && j != i && t.attempts[j].status != Started ::
          t.attempts[j].status == AttemptStatus.Evaluated <==> Complete(t, j))
  }

  lemma FinalizeDecides(t: Store, i: nat, grader: Option<nat>)
    requires ReadyToFinalize(t, i)
    ensures Sound(Finalize(t, i, grader)) && Decided(Finalize(t, i, grader)) && ScoreBounded(Finalize(t, i, grader))
  {
    var u := Finalize(t, i, grader);
    forall j: nat | j < |t.attempts| ensures Complete(t, j) <==> Complete(u, j) { CompletenessFrame(t, u, j); }
    forall b: nat | b < |t.answers| ensures AnswerInPlace(u, b) { assert AnswerInPlace(t, b); }
    ScoreWithinMarks(t, i);
  }

  /** The attempt has no evaluation and no result yet. */
  lemma NoRecordsYet(t: Store, i: nat)
    requires ReadyToFinalize(t, i)
    ensures forall e | 0 <= e < |t.evaluations| :: t.evaluations[e].attempt != i
    ensures forall r | 0 <= r < |t.results| :: t.results[r].attempt != i
    ensures FindResult(t.results, i) == None
  {
    forall e: nat | e < |t.evaluations| ensures t.evaluations[e].attempt != i { assert EvaluationAgrees(t, e); }
    forall r: nat | r < |t.results| ensures t.results[r].attempt != i { assert ResultAgrees(t, r); }
  }

  lemma FinalizeRecords(t: Store, i: nat, grader: Option<nat>)
    requires ReadyToFinalize(t, i)
    ensures Recorded(Finalize(t, i, grader))
  {
    var u := Finalize(t, i, grader);
    NoRecordsYet(t, i);
    forall e: nat | e < |u.evaluations|
      ensures EvaluationAgrees(u, e)
    {
      assert e < |t.evaluations| ==> EvaluationAgrees(t, e);
    }
    forall r: nat | r < |u.results| ensures ResultAgrees(u, r) { assert r < |t.results| ==> ResultAgrees(t, r); }
    forall j: nat | j < |u.attempts| && u.attempts[j].status == AttemptStatus.Evaluated ensures HasRecords(u, j) {
      FinalizeKeepsRecords(t, i, grader, j);
    }
  }

  lemma FinalizeKeepsRecords(t: Store, i: nat, grader: Option<nat>, j: nat)
    requires ReadyToFinalize(t, i)
    requires j < |t.attempts| && (j == i || t.attempts[j].status == AttemptStatus.Evaluated)
    ensures HasRecords(Finalize(t, i, grader), j)
  {
    var u := Finalize(t, i, grader);
    NoRecordsYet(t, i);
    if j == i {
      assert u.evaluations[|t.evaluations|].attempt == i && u.results[|t.results|].attempt == i;
    } else {
      assert HasRecords(t, j);
      var e :| 0 <= e < |t.evaluations| && t.evaluations[e].attempt == j;
      var r :| 0 <= r < |t.results| && t.results[r].attempt == j;
      assert u.evaluations[e].attempt == j && u.results[r].attempt == j;
    }
  }

  lemma SubmitPreserves(s: Store, i: nat, key: Option<string>, auto: bool, now: int)
    requires Inv(s)
    ensures Inv(SubmitAttempt(s, i, key, auto, now).0)
  {
    if i < |s.attempts| && Open(s.attempts[i].status) && exists a :: 0 <= a < |s.answers| && s.answers[a].attempt == i {
      var attempt := s.attempts[i];
      var closed := attempt.(submittedAt := Some(now), submitKey := if Keyed(key) then key else attempt.submitKey,
                             status := if auto then AutoSubmitted else Submitted);
      var t := s.(attempts := s.attempts[i := closed]);
      ClosedButUndecided(s, t, i);
      CountingDecidesCompleteness(t, i);
      if Complete(t, i) {
        FinalizeDecides(t, i, None);
        FinalizeRecords(t, i, None);
      }
    }
  }

  /** Closing an attempt keeps all but its own verdict. */
  lemma ClosedButUndecided(s: Store, t: Store, i: nat)
    requires Inv(s) && i < |s.attempts| && Open(s.attempts[i].status)
    requires |t.attempts| == |s.attempts| && t == s.(attempts := s.attempts[i := t.attempts[i]])
    requires Waiting(t.attempts[i].status) && t.attempts[i].assessment == s.attempts[i].assessment
    requires t.attempts[i].student == s.attempts[i].student && t.attempts[i].score == s.attempts[i].score
    ensures Sound(t) && Recorded(t) && ScoreBounded(t)
    ensures forall j: nat | j < |t.attempts| && j != i && t.attempts[j].status != Started ::
              t.attempts[j].status == AttemptStatus.Evaluated <==> Complete(t, j)
  {
    forall j: nat | j < |s.attempts| ensures Complete(s, j) <==> Complete(t, j) { CompletenessFrame(s, t, j); }
    forall b: nat | b < |s.answers| ensures AnswerInPlace(t, b) { assert AnswerInPlace(s, b); }
    RecordsFrame(s, t);
  }

  lemma GradePreserves(s: Store, a: nat, score: nat, grader: nat)
    requires Inv(s)
    ensures Inv(EvaluateAnswer(s, a, score, grader).0)
  {
    if a < |s.answers| && EvaluateAnswer(s, a, score, grader).1.Done? {
      assert AnswerInPlace(s, a);
      var i := s.answers[a].attempt;
      var t := s.(answers := s.answers[a := s.answers[a].(score := Some(score), status := ManualEvaluated,
          evaluatedBy := Some(grader))]);
      GradedButUndecided(s, t, a, i);
      CountingDecidesCompleteness(t, i);
      if Waiting(s.attempts[i].status) && Complete(t, i) {
        FinalizeDecides(t, i, Some(grader));
        FinalizeRecords(t, i, Some(grader));
      }
    }
  }

  /** Grading an answer keeps all but the verdict of its attempt, and completes no less. */
  lemma GradedButUndecided(s: Store, t: Store, a: nat, i: nat)
    requires Inv(s) && a < |s.answers| && s.answers[a].attempt == i
    requires |t.answers| == |s.answers| && t == s.(answers := s.answers[a := t.answers[a]])
    requires t.answers[a] == s.answers[a].(score := t.answers[a].score, status := ManualEvaluated,
              evaluatedBy := t.answers[a].evaluatedBy)
    requires t.answers[a].score.Some?
    requires s.answers[a].assessmentQuestion < |s.questions| ==>
               0 <= t.answers[a].score.value <= s.questions[s.answers[a].assessmentQuestion].marks
    ensures Sound(t) && Recorded(t) && ScoreBounded(t) && i < |s.attempts|
    ensures Complete(s, i) ==> Complete(t, i)
    ensures forall j: nat | j < |t.attempts| && j != i && t.attempts[j].status != Started ::
              t.attempts[j].status == AttemptStatus.Evaluated <==> Complete(t, j)
  {
    assert AnswerInPlace(s, a);
    forall j: nat | j < |s.attempts| && j != i
      ensures Complete(s, j) <==> Complete(t, j)
    {
      OtherAttemptsFrame(s, t, i, j);
    }
    forall q | HasGradedAnswer(s, i, q) ensures HasGradedAnswer(t, i, q) {
      var b: nat :| Graded(s, i, q, b);
      assert Graded(t, i, q, b);
    }
    forall b: nat | b < |s.answers| ensures AnswerInPlace(t, b) { assert AnswerInPlace(s, b); }
    RecordsFrame(s, t);
  }

  lemma PublishResultsPreserves(s: Store, a: nat, now: int)
    requires Inv(s)
    ensures Inv(PublishResults(s, a, now).0)
  {
    var t := PublishResults(s, a, now).0;
    forall i: nat | i < |s.attempts| ensures Complete(s, i) <==> Complete(t, i) { CompletenessFrame(s, t, i); }
    forall b: nat | b < |s.answers| ensures AnswerInPlace(t, b) { assert AnswerInPlace(s, b); }
    RecordsFrame(s, t);
  }

  lemma StepPreserves(s: Store, request: Request)
    requires Inv(s)
    ensures Inv(Step(s, request).0)
  {
    match request
    case Create(batch, starts, ends, set_) => CreatePreserves(s, batch, starts, ends, set_);
    case Update(a, batch, starts, ends) => AssessmentRowsPreserve(s, Step(s, request).0);
    case Schedule(a, starts, ends) => AssessmentRowsPreserve(s, Step(s, request).0);
    case Publish(a, force) => AssessmentRowsPreserve(s, Step(s, request).0);
    case Start(a, student, standing, key, now) => StartPreserves(s, a, student, standing, key, now);
    case Reply(i, q, content, key, bank) => ReplyPreserves(s, i, q, content, key, bank);
    case Submit(i, key, auto, now) => SubmitPreserves(s, i, key, auto, now);
    case Grade(a, score, grader) => GradePreserves(s, a, score, grader);
    case PublishAll(a, now) => PublishResultsPreserves(s, a, now);
  }

  lemma {:induction false} RunPreserves(s: Store, requests: seq<Request>)
    requires Inv(s)
    ensures Inv(Run(s, requests))
    decreases |requests|
  {
    if requests == [] {
    } else {
      StepPreserves(s, requests[0]);
      RunPreserves(Step(s, requests[0]).0, requests[1..]);
    }
  }
}
