/** The assessment service as it runs: tables updated in place, with the loops of the original.
    Each method does to its tables exactly what the corresponding request function says. */
module AssessService {
  import opened Options
  import opened Assess
  import Decimals
  import QuestionSets

  class Service {
    var assessments: seq<Assessment>
    var sections: seq<Section>
    var questions: seq<AssessmentQuestion>
    var attempts: seq<Attempt>
    var answers: seq<Answer>
    var evaluations: seq<Evaluation>
    var results: seq<Result>

    constructor ()
      ensures State() == EMPTY
    {
      assessments, sections, questions, attempts, answers, evaluations, results := [], [], [], [], [], [], [];
    }

    ghost function State(): Store
      reads this
    {
      Store(assessments, sections, questions, attempts, answers, evaluations, results)
    }

    method Create(batch: Option<nat>, startsAt: Option<int>, endsAt: Option<int>, request: SetRequest)
        returns (outcome: Outcome)
      modifies this
      ensures (State(), outcome) == CreateAssessment(old(State()), batch, startsAt, endsAt, request)
    {
      var a := |assessments|;
      match request {
        case MissingSet => return Failed(QuestionSetNotFound);
        case NoSet =>
          assessments := assessments + [Assessment(Draft, startsAt, endsAt, batch, 0)];
        case ThisSet(detail) =>
          if detail.lines == [] { return Failed(QuestionSetEmpty); }
          if !QuestionSets.DistinctKeys(detail.lines) { return Failed(AssessmentConflict); }
          sections := sections + [Section(a, detail.totalMarks)];
          AddQuestions(a, QuestionSets.SortLines(detail.lines));
          assessments := assessments + [Assessment(Draft, startsAt, endsAt, batch, detail.totalMarks)];
      }
      return Done(a);
    }

    method AddQuestions(a: nat, lines: seq<QuestionSets.Line>)
      modifies this`questions
      ensures questions == old(questions) + QuestionRows(a, lines)
    {
      for k := 0 to |lines|
        invariant questions == old(questions) + QuestionRows(a, lines[..k])
      {
        assert lines[..k + 1][..k] == lines[..k];
        questions := questions + [AssessmentQuestion(a, lines[k].item.question, lines[k].item.orderIndex,
                                                     QuestionSets.SnapshotMarks(lines[k]),
                                                     lines[k].question.negativeMarks)];
      }
      assert lines[..|lines|] == lines;
    }

    method Update(a: nat, batch: Option<nat>, startsAt: Option<int>, endsAt: Option<int>) returns (outcome: Outcome)
      modifies this`assessments
      ensures (State(), outcome) == UpdateAssessment(old(State()), a, batch, startsAt, endsAt)
    {
      if a >= |assessments| { return Failed(AssessmentNotFound); }
      if assessments[a].status !in {Draft, Scheduled} { return Failed(AssessmentLocked); }
      assessments := assessments[a := assessments[a].(batch := batch, startsAt := startsAt, endsAt := endsAt)];
      return Done(a);
    }

    method Schedule(a: nat, startsAt: int, endsAt: int) returns (outcome: Outcome)
      modifies this`assessments
      ensures (State(), outcome) == ScheduleAssessment(old(State()), a, startsAt, endsAt)
    {
      if a >= |assessments| { return Failed(AssessmentNotFound); }
      if QuestionsOf(questions, a) == {} { return Failed(AssessmentHasNoQuestions); }
      assessments := assessments[a := assessments[a].(startsAt := Some(startsAt), endsAt := Some(endsAt),
          status := Scheduled)];
      return Done(a);
    }

    method Publish(a: nat, force: bool) returns (outcome: Outcome)
      modifies this`assessments
      ensures (State(), outcome) == PublishAssessment(old(State()), a, force)
    {
      if a >= |assessments| { return Failed(AssessmentNotFound); }
      if assessments[a].status !in {Draft, Scheduled, Live} { return Failed(PublishNotAllowed); }
      if !force && (assessments[a].startsAt.None? || assessments[a].endsAt.None?) { return Failed(ScheduleRequired); }
      assessments := assessments[a := assessments[a].(status := Live)];
      return Done(a);
    }

    method Start(a: nat, student: nat, standing: StudentStanding, key: Option<string>, now: int)
        returns (outcome: Outcome)
      modifies this`attempts
      ensures (State(), outcome) == StartAttempt(old(State()), a, student, standing, key, now)
    {
      if a >= |assessments| { return Failed(AssessmentNotFound); }
      var error := StartError(assessments[a], standing, now);
      if error.Some? { return Failed(error.value); }
      var existing := FindAttempt(attempts, a, student);
      if existing.Some? { return Done(existing.value); }
      attempts := attempts + [Attempt(a, student, Started, None, None, if Keyed(key) then key else None, None)];
      return Done(|attempts| - 1);
    }

    method Reply(i: nat, q: nat, content: Content, key: Option<string>, bank: Option<BankQuestion>)
        returns (outcome: Outcome)
      modifies this`answers
      ensures (State(), outcome) == SubmitAnswer(old(State()), i, q, content, key, bank)
    {
      if i >= |attempts| { return Failed(AttemptNotFound); }
      if !Open(attempts[i].status) { return Failed(AttemptNotOpen); }
      if q >= |questions| || questions[q].assessment != attempts[i].assessment {
        return Failed(AssessmentQuestionNotFound);
      }
      var existing := FindAnswer(answers, i, q);
      if existing.Some? {
        if Keyed(key) && answers[existing.value].key == key { return Done(existing.value); }
        return Failed(AnswerAlreadySubmitted);
      }
      if bank.None? { return Failed(QuestionNotFound); }
      var answer := Answer(i, q, questions[q].question, content, key, Pending, None, None, None);
      answers := answers + [AutoEvaluate(answer, questions[q], bank.value)];
      return Done(|answers| - 1);
    }

    /** `_all_answers_evaluated`: fill the dictionary, compare sizes, look at every answer kept. */
    method AllEvaluated(i: nat) returns (all: bool)
      requires i < |attempts|
      ensures all == AllAnswersEvaluated(State(), i)
    {
      var byQuestion: map<nat, Answer> := map[];
      for k := 0 to |answers|
        invariant byQuestion == AnswerByQuestion(answers[..k], i)
      {
        assert answers[..k + 1][..k] == answers[..k];
        if answers[k].attempt == i { byQuestion := byQuestion[answers[k].assessmentQuestion := answers[k]]; }
      }
      assert answers[..|answers|] == answers;
      if |byQuestion| < |QuestionsOf(questions, attempts[i].assessment)| { return false; }
      var rest := byQuestion.Keys;
      while rest != {}
        invariant rest <= byQuestion.Keys
        invariant forall q | q in byQuestion && q !in rest :: byQuestion[q].status != Pending
        decreases |rest|
      {
        var q :| q in rest;
        if byQuestion[q].status == Pending { return false; }
        rest := rest - {q};
      }
      return true;
    }

    method FinalizeAttempt(i: nat, grader: Option<nat>)
      requires i < |attempts| && attempts[i].assessment < |assessments|
      modifies this`attempts, this`evaluations, this`results
      ensures State() == Finalize(old(State()), i, grader)
    {
      var total := 0;
      for k := 0 to |answers|
        invariant total == ScoreSum(answers[..k], i)
      {
        assert answers[..k + 1][..k] == answers[..k];
        if answers[k].attempt == i { total := total + ScoreOf(answers[k]); }
      }
      assert answers[..|answers|] == answers;
      var attempt := attempts[i];
      attempts := attempts[i := attempt.(score := Some(total), status := AttemptStatus.Evaluated)];
      evaluations := evaluations + [Evaluation(i, grader, total)];
      var existing := FindResult(results, i);
      var percentage := Decimals.Percentage(total, assessments[attempt.assessment].totalMarks);
      if existing.None? {
        results := results + [Result(attempt.assessment, attempt.student, i, total, percentage, None)];
      } else {
        results := results[existing.value := results[existing.value].(score := total, percentage := percentage)];
      }
    }

    method Submit(i: nat, key: Option<string>, auto: bool, now: int) returns (outcome: Outcome)
      modifies this`attempts, this`evaluations, this`results
      ensures (State(), outcome) == SubmitAttempt(old(State()), i, key, auto, now)
    {
      if i >= |attempts| { return Failed(AttemptNotFound); }
      if !Open(attempts[i].status) { return Done(i); }
      if forall a | 0 <= a < |answers| :: answers[a].attempt != i { return Failed(AttemptHasNoAnswers); }
      if attempts[i].assessment >= |assessments| { return Failed(AssessmentNotFound); }
      attempts := attempts[i := attempts[i].(submittedAt := Some(now),
                                             submitKey := if Keyed(key) then key else attempts[i].submitKey,
                                             status := if auto then AutoSubmitted else Submitted)];
      var all := AllEvaluated(i);
      if all { FinalizeAttempt(i, None); }
      return Done(i);
    }

    method Grade(a: nat, score: nat, grader: nat) returns (outcome: Outcome)
      modifies this`attempts, this`answers, this`evaluations, this`results
      ensures (State(), outcome) == EvaluateAnswer(old(State()), a, score, grader)
    {
      if a >= |answers| { return Failed(AnswerNotFound); }
      if answers[a].assessmentQuestion >= |questions| { return Failed(AssessmentQuestionNotFound); }
      if score > questions[answers[a].assessmentQuestion].marks { return Failed(ScoreExceedsMarks); }
      var i := answers[a].attempt;
      if i >= |attempts| { return Failed(AttemptNotFound); }
      if attempts[i].assessment >= |assessments| { return Failed(AssessmentNotFound); }
      answers := answers[a := answers[a].(score := Some(score), status := ManualEvaluated,
          evaluatedBy := Some(grader))];
      if Waiting(attempts[i].status) {
        var all := AllEvaluated(i);
        if all { FinalizeAttempt(i, Some(grader)); }
      }
      return Done(a);
    }

    method PublishAll(a: nat, now: int) returns (outcome: Outcome)
      modifies this`assessments, this`results
      ensures (State(), outcome) == PublishResults(old(State()), a, now)
    {
      if a >= |assessments| { return Failed(AssessmentNotFound); }
      if forall r | 0 <= r < |results| :: results[r].assessment != a { return Failed(ResultsNotReady); }
      for r := 0 to |results|
        invariant |results| == |old(results)|
        invariant forall k | 0 <= k < r :: results[k] == PublishedRows(old(results), a, now)[k]
        invariant forall k | r <= k < |results| :: results[k] == old(results)[k]
        invariant unchanged(`assessments)
      {
        if results[r].assessment == a { results := results[r := results[r].(publishedAt := Some(now))]; }
      }
      assert results == PublishedRows(old(results), a, now);
      assessments := assessments[a := assessments[a].(status := AssessmentStatus.Published)];
      return Done(a);
    }
  }
}
