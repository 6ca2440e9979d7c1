/** What each request about assessments does to the rows it names, when it is refused, and what
    it leaves alone; and what automatic grading means in every reachable state. */
module AssessRequests {
  import opened Options
  import opened Assess
  import opened AssessInvariants
  import AssessHistory
  import Decimals

  /** A refused request changes nothing. */
  lemma RefusedChangesNothing(s: Store, request: Request)
    requires Step(s, request).1.Failed?
    ensures Step(s, request).0 == s
  {
  }

  // Assessments

  /** A new assessment is a draft with the window, batch and total asked for; it is refused for a
      set that is missing, empty, or repeats an index or a question. */
  lemma CreatesAsAsked(s: Store, batch: Option<nat>, starts: Option<int>, ends: Option<int>, set_: SetRequest)
    ensures var (t, outcome) := Step(s, Create(batch, starts, ends, set_));
      && (outcome.Done? <==>
            match set_
            case NoSet => true
            case MissingSet => false
            case ThisSet(detail) =>
              && detail.lines != []
              && forall i, j | 0 <= i < j < |detail.lines| ::
                   detail.lines[i].item.orderIndex != detail.lines[j].item.orderIndex
                   && detail.lines[i].item.question != detail.lines[j].item.question)
      && (outcome.Done? ==>
            && outcome.row == |s.assessments|
            && t.assessments == s.assessments
                 + [Assessment(Draft, starts, ends, batch, if set_.ThisSet? then set_.detail.totalMarks else 0)]
            && t == s.(assessments := t.assessments, sections := t.sections, questions := t.questions)
            && (set_.NoSet? ==> t.sections == s.sections && t.questions == s.questions))
      && (outcome.Failed? ==>
            outcome.error == if set_.MissingSet? then QuestionSetNotFound
                             else if set_.detail.lines == [] then QuestionSetEmpty else AssessmentConflict)
  {
  }

  /** An update replaces batch and window of an assessment that is a draft or scheduled. */
  lemma UpdatesAsAsked(s: Store, a: nat, batch: Option<nat>, starts: Option<int>, ends: Option<int>)
    ensures var (t, outcome) := Step(s, Update(a, batch, starts, ends));
      && (outcome.Done? <==>
          a < |s.assessments| && (s.assessments[a].status.Draft? || s.assessments[a].status.Scheduled?))
      && (outcome.Done? ==>
            && outcome.row == a
            && t == s.(assessments := s.assessments[a := s.assessments[a].(batch := batch, startsAt := starts,
                endsAt := ends)]))
      && (outcome.Failed? ==>
            outcome.error == if a < |s.assessments| then AssessmentLocked else AssessmentNotFound)
  {
  }

  /** Scheduling sets the window and the status whatever the status was, if there is a question. */
  lemma SchedulesAsAsked(s: Store, a: nat, starts: int, ends: int)
    ensures var (t, outcome) := Step(s, Schedule(a, starts, ends));
      && (outcome.Done? <==>
            a < |s.assessments| && exists q :: 0 <= q < |s.questions| && s.questions[q].assessment == a)
      && (outcome.Done? ==>
            && outcome.row == a
            && t == s.(assessments := s.assessments[a :=
                         s.assessments[a].(startsAt := Some(starts), endsAt := Some(ends), status := Scheduled)]))
      && (outcome.Failed? ==>
            outcome.error == if a < |s.assessments| then AssessmentHasNoQuestions else AssessmentNotFound)
  {
    if q :| 0 <= q < |s.questions| && s.questions[q].assessment == a { assert q in QuestionsOf(s.questions, a); }
  }

  /** Publishing makes it live, from draft, scheduled or live, with a whole window or by force. */
  lemma PublishesAsAsked(s: Store, a: nat, force: bool)
    ensures var (t, outcome) := Step(s, Publish(a, force));
      && (outcome.Done? <==>
            && a < |s.assessments|
            && (s.assessments[a].status.Draft? || s.assessments[a].status.Scheduled? || s.assessments[a].status.Live?)
            && (force || (s.assessments[a].startsAt.Some? && s.assessments[a].endsAt.Some?)))
      && (outcome.Done? ==>
            outcome.row == a && t == s.(assessments := s.assessments[a := s.assessments[a].(status := Live)]))
      && (outcome.Failed? ==>
            outcome.error == if a >= |s.assessments| then AssessmentNotFound
                             else if s.assessments[a].status.Draft? || s.assessments[a].status.Scheduled?
                                     || s.assessments[a].status.Live? then ScheduleRequired
                             else PublishNotAllowed)
  {
  }

  /** Publishing results stamps every result of the assessment and no other, when there is one. */
  lemma PublishesResults(s: Store, a: nat, now: int)
    ensures var (t, outcome) := Step(s, PublishAll(a, now));
      && (outcome.Done? <==>
            a < |s.assessments| && exists r :: 0 <= r < |s.results| && s.results[r].assessment == a)
      && (outcome.Failed? ==> outcome.error == if a < |s.assessments| then ResultsNotReady else AssessmentNotFound)
      && (outcome.Done? ==>
            && outcome.row == a
            && t == s.(assessments := s.assessments[a := s.assessments[a].(status := AssessmentStatus.Published)],
                       results := t.results)
            && |t.results| == |s.results|
            && forall r | 0 <= r < |s.results| ::
                 t.results[r] == s.results[r].(publishedAt :=
                   if s.results[r].assessment == a then Some(now) else s.results[r].publishedAt))
  {
  }

  // Attempts

  /** A start goes through exactly for an available assessment within its closed window and an
      existing student of its batch; a student without an attempt gets one. */
  lemma StartsAsAsked(s: Store, a: nat, student: nat, standing: StudentStanding, key: Option<string>, now: int)
    ensures var (t, outcome) := Step(s, Start(a, student, standing, key, now));
      && (outcome.Done? <==>
            && a < |s.assessments| && (s.assessments[a].status.Scheduled? || s.assessments[a].status.Live?)
            && (s.assessments[a].startsAt.Some? ==> s.assessments[a].startsAt.value <= now)
            && (s.assessments[a].endsAt.Some? ==> now <= s.assessments[a].endsAt.value)
            && standing.exists_ && (s.assessments[a].batch.Some? ==>
                s.assessments[a].batch.value in standing.activeBatches))
      && (outcome.Done? ==>
            if exists i :: 0 <= i < |s.attempts| && s.attempts[i].assessment == a
                && s.attempts[i].student == student then
              t == s && outcome.row < |s.attempts|
              && s.attempts[outcome.row].assessment == a && s.attempts[outcome.row].student == student
            else
              && outcome.row == |s.attempts|
              && t == s.(attempts := s.attempts + [Attempt(a, student, Started, None, None, Given(key), None)]))
      && (outcome.Failed? ==>
            outcome.error ==
            if a >= |s.assessments| then AssessmentNotFound
            else if !s.assessments[a].status.Scheduled? && !s.assessments[a].status.Live? then NotAvailable
            else if s.assessments[a].startsAt.Some? && now < s.assessments[a].startsAt.value then NotStarted
            else if s.assessments[a].endsAt.Some? && s.assessments[a].endsAt.value < now then Ended
            else if standing.exists_ then StudentNotInBatch else StudentNotFound)
  {
  }

  /** The empty string is no key. */
  ghost function Given(key: Option<string>): Option<string> {
    if key == Some("") then None else key
  }

  /** What an automatic verdict is: right when the options named are exactly the correct ones,
      whatever their order and repetitions. */
  ghost predicate NamesExactly(content: Content, correct: set<string>) {
    forall o :: o in content.optionIds <==> o in correct
  }

  /** An answer is added exactly while its attempt is STARTED, to a question of the attempt's
      assessment that has none yet; a choice question is graded on the spot, with its marks for
      exactly the correct options and minus its negative marks otherwise, and any other question
      waits without score or verdict. */
  lemma RepliesAsAsked(s: Store, i: nat, q: nat, content: Content, key: Option<string>, kind: QuestionType,
      correct: set<string>)
    ensures var (t, outcome) := Step(s, Reply(i, q, content, key, Some(BankQuestion(kind, correct))));
      && (t != s <==>
            && i < |s.attempts| && s.attempts[i].status.Started?
            && q < |s.questions| && s.questions[q].assessment == s.attempts[i].assessment
            && forall a | 0 <= a < |s.answers| :: s.answers[a].attempt != i || s.answers[a].assessmentQuestion != q)
      && (t != s ==>
            && outcome == Done(|s.answers|) && t == s.(answers := t.answers) && |t.answers| == |s.answers| + 1
            && t.answers[..|s.answers|] == s.answers
            && IsReply(t.answers[|s.answers|], i, q, content, key, s.questions[q].question)
            && IsScored(t.answers[|s.answers|], s.questions[q], kind, NamesExactly(content, correct)))
  {
    var (t, outcome) := Step(s, Reply(i, q, content, key, Some(BankQuestion(kind, correct))));
    if t != s {
      assert t.answers[|s.answers|] == t.answers[|t.answers| - 1];
      ExactlyTheCorrect(content, correct);
    }
  }

  lemma ExactlyTheCorrect(content: Content, correct: set<string>)
    ensures (set o | o in content.optionIds) == correct <==> NamesExactly(content, correct)
  {
    var named := set o | o in content.optionIds;
    assert forall o :: o in named <==> o in content.optionIds;
  }

  ghost predicate IsReply(answer: Answer, i: nat, q: nat, content: Content, key: Option<string>, question: nat) {
    && answer.attempt == i && answer.assessmentQuestion == q && answer.question == question
    && answer.content == content && answer.key == key && answer.evaluatedBy == None
  }

  ghost predicate IsScored(answer: Answer, question: AssessmentQuestion, kind: QuestionType, right: bool) {
    if kind.Mcq? || kind.MultiSelect? || kind.TrueFalse? then
      && answer.status.AutoEvaluated? && answer.isCorrect == Some(right)
      && answer.score == Some(if right then question.marks else -(question.negativeMarks as int))
    else
      answer.status.Pending? && answer.isCorrect == None && answer.score == None
  }

  /** A question that left the bank cannot be answered. */
  lemma GoneQuestionRefused(s: Store, i: nat, q: nat, content: Content, key: Option<string>)
    ensures Step(s, Reply(i, q, content, key, None)).0 == s
    ensures Step(s, Reply(i, q, content, key, None)).1 == Failed(QuestionNotFound) <==>
            && i < |s.attempts| && s.attempts[i].status.Started?
            && q < |s.questions| && s.questions[q].assessment == s.attempts[i].assessment
            && forall a | 0 <= a < |s.answers| :: s.answers[a].attempt != i || s.answers[a].assessmentQuestion != q
  {
  }

  /** Which check refuses an answer: the attempt, its status, the question, an answer that is there. */
  lemma ReplyRefused(s: Store, i: nat, q: nat, content: Content, key: Option<string>, bank: Option<BankQuestion>)
    ensures var outcome := Step(s, Reply(i, q, content, key, bank)).1;
      && (outcome == Failed(AttemptNotFound) <==> i >= |s.attempts|)
      && (outcome == Failed(AttemptNotOpen) <==> i < |s.attempts| && !s.attempts[i].status.Started?)
      && (i < |s.attempts| && s.attempts[i].status.Started? ==>
            && (outcome == Failed(AssessmentQuestionNotFound) <==>
                !(q < |s.questions| && s.questions[q].assessment == s.attempts[i].assessment))
            && (outcome.Failed? ==>
                  outcome.error in {AssessmentQuestionNotFound, AnswerAlreadySubmitted, QuestionNotFound})
            && (outcome == Failed(AnswerAlreadySubmitted) ==>
                  exists a :: 0 <= a < |s.answers| && s.answers[a].attempt == i && s.answers[a].assessmentQuestion == q
                              && (Given(key) == None || s.answers[a].key != key)))
  {
  }

  /** The attempt as submitting it leaves it before any finalization. */
  ghost function SentInAs(attempt: Attempt, key: Option<string>, auto: bool, now: int): Attempt {
    attempt.(submittedAt := Some(now), submitKey := if Given(key).Some? then key else attempt.submitKey,
             status := if auto then AutoSubmitted else Submitted)
  }

  lemma SubmitOutcome(s: Store, i: nat, key: Option<string>, auto: bool, now: int)
    requires Inv(s) && i < |s.attempts| && s.attempts[i].status.Started?
    requires exists a :: 0 <= a < |s.answers| && s.answers[a].attempt == i
    ensures var t := s.(attempts := s.attempts[i := SentInAs(s.attempts[i], key, auto, now)]);
      Step(s, Submit(i, key, auto, now)) == (if Complete(s, i) then Finalize(t, i, None) else t, Done(i))
  {
    var t := s.(attempts := s.attempts[i := SentInAs(s.attempts[i], key, auto, now)]);
    ClosedButUndecided(s, t, i);
    CountingDecidesCompleteness(t, i);
    CompletenessFrame(s, t, i);
  }

  /** Everything but the attempt's row and its records is as before. */
  ghost predicate OnlyAttempt(s: Store, t: Store, i: nat) {
    && t.assessments == s.assessments && t.sections == s.sections && t.questions == s.questions
    && t.answers == s.answers
    && i < |t.attempts| == |s.attempts| && forall j | 0 <= j < |s.attempts| && j != i :: t.attempts[j] == s.attempts[j]
  }

  /** Finalizing sets the attempt's score and status, adds its evaluation, and leaves it a result
      with that score and its share of the total, whether it had one before or not. */
  lemma FinalizeTouches(t: Store, i: nat, grader: Option<nat>)
    requires i < |t.attempts| && t.attempts[i].assessment < |t.assessments|
    ensures var u := Finalize(t, i, grader);
      && OnlyAttempt(t, u, i)
      && u.attempts[i] == t.attempts[i].(score := u.attempts[i].score, status := AttemptStatus.Evaluated)
      && |u.evaluations| == |t.evaluations| + 1 && u.evaluations[|t.evaluations|].evaluatedBy == grader
      && u.attempts[i].score.Some?
      && var score, total := u.attempts[i].score.value, t.assessments[t.attempts[i].assessment].totalMarks;
         exists r :: 0 <= r < |u.results| && u.results[r].attempt == i && u.results[r].score == score
                     && u.results[r].percentage == Decimals.Percentage(score, total)
  {
    var found := FindResult(t.results, i);
    var r := if found.Some? then found.value else |t.results|;
    assert Finalize(t, i, grader).results[r].attempt == i;
  }

  /** Submitting a STARTED attempt that has an answer stamps it and closes it, EVALUATED when every
      question has an evaluated answer and otherwise as asked, and touches no other attempt and no
      answer; a STARTED attempt without answers cannot be submitted. */
  lemma SubmitsAsAsked(s: Store, i: nat, key: Option<string>, auto: bool, now: int)
    requires Inv(s) && i < |s.attempts| && s.attempts[i].status.Started?
    ensures var (t, outcome) := Step(s, Submit(i, key, auto, now));
      && (outcome.Done? <==> exists a :: 0 <= a < |s.answers| && s.answers[a].attempt == i)
      && (outcome.Done? ==> outcome == Done(i) && OnlyAttempt(s, t, i) && SubmittedAs(s, t, i, key, auto, now))
  {
    if exists a :: 0 <= a < |s.answers| && s.answers[a].attempt == i {
      SubmitOutcome(s, i, key, auto, now);
      var t := s.(attempts := s.attempts[i := SentInAs(s.attempts[i], key, auto, now)]);
      FinalizeTouches(t, i, None);
    }
  }

  /** Submitting again changes nothing and succeeds; only a missing attempt or one without answers
      is refused. */
  lemma SubmitRefused(s: Store, i: nat, key: Option<string>, auto: bool, now: int)
    requires Inv(s)
    ensures var (t, outcome) := Step(s, Submit(i, key, auto, now));
      && (i >= |s.attempts| ==> outcome == Failed(AttemptNotFound))
      && (i < |s.attempts| && !s.attempts[i].status.Started? ==> t == s && outcome == Done(i))
      && (i < |s.attempts| && outcome.Failed? ==> outcome.error == AttemptHasNoAnswers)
  {
  }

  ghost predicate SubmittedAs(s: Store, t: Store, i: nat, key: Option<string>, auto: bool, now: int)
    requires i < |s.attempts| && i < |t.attempts|
  {
    if Complete(s, i) then
      && t.attempts[i] == SentInAs(s.attempts[i], key, auto, now).(score := t.attempts[i].score,
          status := AttemptStatus.Evaluated)
      && |t.evaluations| == |s.evaluations| + 1 && t.evaluations[|s.evaluations|].evaluatedBy == None
    else
      && t.attempts[i] == SentInAs(s.attempts[i], key, auto, now)
      && t.evaluations == s.evaluations && t.results == s.results
  }

  ghost predicate SentIn(attempt: Attempt) {
    attempt.status.Submitted? || attempt.status.AutoSubmitted?
  }

  /** A grade from 0 to the question's marks is accepted for any answer; it sets that answer's
      score, status and grader and no other answer, and finalizes a submitted attempt that is now
      complete, in the name of whoever graded. */
  lemma GradesAsAsked(s: Store, a: nat, score: nat, grader: nat)
    requires Inv(s)
    ensures var (t, outcome) := Step(s, Grade(a, score, grader));
      && (outcome.Done? <==>
            && a < |s.answers| && s.answers[a].assessmentQuestion < |s.questions|
            && score <= s.questions[s.answers[a].assessmentQuestion].marks)
      && (outcome.Failed? ==> outcome.error == if a < |s.answers| then ScoreExceedsMarks else AnswerNotFound)
      && (outcome.Done? ==>
            && outcome == Done(a)
            && t.assessments == s.assessments && t.sections == s.sections && t.questions == s.questions
            && t.answers == s.answers[a := s.answers[a].(score := Some(score), status := ManualEvaluated,
                evaluatedBy := Some(grader))]
            && |t.attempts| == |s.attempts| && s.answers[a].attempt < |s.attempts|
            && (forall j | 0 <= j < |s.attempts| && j != s.answers[a].attempt :: t.attempts[j] == s.attempts[j])
            && (if SentIn(s.attempts[s.answers[a].attempt]) && Complete(t, s.answers[a].attempt) then
                  && t.attempts[s.answers[a].attempt].status == AttemptStatus.Evaluated
                  && |t.evaluations| == |s.evaluations| + 1
                  && t.evaluations[|s.evaluations|].evaluatedBy == Some(grader)
                else
                  t.attempts == s.attempts && t.evaluations == s.evaluations && t.results == s.results))
  {
    if a < |s.answers| {
      assert AnswerInPlace(s, a);
      var i := s.answers[a].attempt;
      if score <= s.questions[s.answers[a].assessmentQuestion].marks {
        var t := s.(answers := s.answers[a :=
          s.answers[a].(score := Some(score), status := ManualEvaluated, evaluatedBy := Some(grader))]);
        GradedButUndecided(s, t, a, i);
        CountingDecidesCompleteness(t, i);
        CompletenessFrame(t, Step(s, Grade(a, score, grader)).0, i);
      }
    }
  }

  // Automatic grading in every reachable state

  /** An answer graded automatically scores by its verdict; one graded by hand has a grader and
      a score that is not negative; one that waits has neither score nor verdict. */
  ghost predicate GradedByKind(s: Store) {
    forall a | 0 <= a < |s.answers| ::
        s.answers[a].assessmentQuestion < |s.questions| && AnswerGraded(s.answers[a], s.questions)
  }

  ghost predicate AnswerGraded(answer: Answer, questions: seq<AssessmentQuestion>)
    requires answer.assessmentQuestion < |questions|
  {
    var question := questions[answer.assessmentQuestion];
    match answer.status
    case AutoEvaluated =>
      && answer.isCorrect.Some? && answer.evaluatedBy == None
      && answer.score == Some(if answer.isCorrect.value then question.marks else -(question.negativeMarks as int))
    case ManualEvaluated => answer.evaluatedBy.Some? && answer.score.Some? && 0 <= answer.score.value <= question.marks
    case Pending => answer.score == None && answer.isCorrect == None && answer.evaluatedBy == None
  }

  ghost predicate AddsAnswer(s: Store, t: Store) {
    && |t.answers| == |s.answers| + 1 && t.answers[..|s.answers|] == s.answers
    && t.answers[|s.answers|].assessmentQuestion < |s.questions|
    && AnswerGraded(t.answers[|s.answers|], s.questions)
  }

  ghost predicate GradesAnswer(s: Store, t: Store, a: nat) {
    && a < |s.answers| == |t.answers| && t.answers == s.answers[a := t.answers[a]]
    && t.answers[a].assessmentQuestion == s.answers[a].assessmentQuestion < |s.questions|
    && AnswerGraded(t.answers[a], s.questions)
  }

  /** The three things a request can do to the answers. */
  ghost predicate AnswersChange(s: Store, t: Store) {
    t.answers == s.answers || AddsAnswer(s, t) || exists a :: GradesAnswer(s, t, a)
  }

  lemma ReplyChangesAnswers(s: Store, i: nat, q: nat, content: Content, key: Option<string>, bank: Option<BankQuestion>)
    ensures AnswersChange(s, Step(s, Reply(i, q, content, key, bank)).0)
  {
    if bank.Some? && Step(s, Reply(i, q, content, key, bank)).0 != s {
      RepliesAsAsked(s, i, q, content, key, bank.value.kind, bank.value.correctOptions);
    }
  }

  lemma GradeChangesAnswers(s: Store, a: nat, score: nat, grader: nat)
    requires Inv(s)
    ensures AnswersChange(s, Step(s, Grade(a, score, grader)).0)
  {
    GradesAsAsked(s, a, score, grader);
    if Step(s, Grade(a, score, grader)).1.Done? {
      assert GradesAnswer(s, Step(s, Grade(a, score, grader)).0, a);
    }
  }

  lemma StepChangesAnswers(s: Store, request: Request)
    requires Inv(s)
    ensures AnswersChange(s, Step(s, request).0)
  {
    match request
    case Reply(i, q, content, key, bank) => ReplyChangesAnswers(s, i, q, content, key, bank);
    case Grade(a, score, grader) => GradeChangesAnswers(s, a, score, grader);
    case _ =>
  }

  lemma GradedByKindKept(s: Store, t: Store)
    requires GradedByKind(s) && AnswersChange(s, t)
    requires |s.questions| <= |t.questions| && forall q | 0 <= q < |s.questions| :: t.questions[q] == s.questions[q]
    ensures GradedByKind(t)
  {
  }

  lemma {:induction false} RunKeepsGraded(s: Store, requests: seq<Request>)
    requires Inv(s) && GradedByKind(s)
    ensures GradedByKind(Run(s, requests))
    decreases |requests|
  {
    if requests == [] {
    } else {
      var t := Step(s, requests[0]).0;
      StepPreserves(s, requests[0]);
      StepChangesAnswers(s, requests[0]);
      AssessHistory.StepEvolves(s, requests[0]);
      GradedByKindKept(s, t);
      RunKeepsGraded(t, requests[1..]);
    }
  }

  /** In every reachable state automatic answers score their question's marks when right and minus
      its negative marks when wrong, graded ones have a grader, and waiting ones no score. */
  lemma AnswersAreGraded(requests: seq<Request>, a: nat)
    requires a < |Run(EMPTY, requests).answers|
    ensures var s := Run(EMPTY, requests);
      s.answers[a].assessmentQuestion < |s.questions| && AnswerGraded(s.answers[a], s.questions)
  {
    AssessHistory.EmptyIsSound();
    RunKeepsGraded(EMPTY, requests);
  }

  // The score, question by question

  ghost predicate OneAnswerEach(answers: seq<Answer>) {
    forall a, b | 0 <= a < b < |answers| ::
      answers[a].attempt != answers[b].attempt || answers[a].assessmentQuestion != answers[b].assessmentQuestion
  }

  ghost predicate Scores(answers: seq<Answer>, i: nat, q: nat, a: nat) {
    a < |answers| && answers[a].attempt == i && answers[a].assessmentQuestion == q && answers[a].score.Some?
  }

  /** What the attempt earned at a question: the score of its answer, negative or not, if any. */
  ghost function Earned(answers: seq<Answer>, i: nat, q: nat): int {
    if exists a: nat :: Scores(answers, i, q, a) then
      var a: nat :| Scores(answers, i, q, a);
      answers[a].score.value
    else 0
  }

  ghost function EarnedUpTo(answers: seq<Answer>, i: nat, n: nat): int {
    if n == 0 then 0 else EarnedUpTo(answers, i, n - 1) + Earned(answers, i, n - 1)
  }

  lemma OneScore(answers: seq<Answer>, i: nat, q: nat)
    requires OneAnswerEach(answers)
    ensures forall a: nat, b: nat | Scores(answers, i, q, a) && Scores(answers, i, q, b) :: a == b
  {
  }

  lemma EarnedWithOneMore(answers: seq<Answer>, i: nat, q: nat)
    requires answers != [] && OneAnswerEach(answers)
    ensures var front, last := answers[..|answers| - 1], answers[|answers| - 1];
      Earned(answers, i, q) == Earned(front, i, q)
        + if last.attempt == i && last.assessmentQuestion == q && last.score.Some? then last.score.value else 0
  {
    var front, last := answers[..|answers| - 1], |answers| - 1;
    forall a: nat ensures Scores(answers, i, q, a) <==>
        Scores(front, i, q, a) || (a == last && Scores(answers, i, q, last)) {}
    if Scores(answers, i, q, last) {
      assert forall a: nat :: !Scores(front, i, q, a);
    } else if exists a: nat :: Scores(front, i, q, a) {
      var a: nat :| Scores(front, i, q, a);
      assert Scores(answers, i, q, a);
      OneScore(answers, i, q);
      OneScore(front, i, q);
    }
  }

  lemma {:induction false} EarnedUpToWithOneMore(answers: seq<Answer>, i: nat, n: nat)
    requires answers != [] && OneAnswerEach(answers)
    ensures var front, last := answers[..|answers| - 1], answers[|answers| - 1];
      EarnedUpTo(answers, i, n) == EarnedUpTo(front, i, n)
        + if last.attempt == i && last.assessmentQuestion < n && last.score.Some? then last.score.value else 0
  {
    if n == 0 {
    } else {
      EarnedUpToWithOneMore(answers, i, n - 1);
      EarnedWithOneMore(answers, i, n - 1);
    }
  }

  lemma {:induction false} NothingEarned(i: nat, n: nat)
    ensures EarnedUpTo([], i, n) == 0
  {
    if n == 0 {
    } else {
      NothingEarned(i, n - 1);
    }
  }

  lemma {:induction false} SumIsEarned(answers: seq<Answer>, i: nat, n: nat)
    requires OneAnswerEach(answers) && forall a | 0 <= a < |answers| :: answers[a].assessmentQuestion < n
    ensures ScoreSum(answers, i) == EarnedUpTo(answers, i, n)
  {
    if answers == [] {
      NothingEarned(i, n);
    } else {
      SumIsEarned(answers[..|answers| - 1], i, n);
      EarnedUpToWithOneMore(answers, i, n);
    }
  }

  /** The request that makes an attempt EVALUATED sets its score to what it earned, question by
      question. */
  lemma ScoreIsEarned(s: Store, request: Request, i: nat)
    requires Inv(s) && i < |s.attempts| && s.attempts[i].status != AttemptStatus.Evaluated
    requires i < |Step(s, request).0.attempts| && Step(s, request).0.attempts[i].status == AttemptStatus.Evaluated
    ensures var t := Step(s, request).0; t.attempts[i].score == Some(EarnedUpTo(t.answers, i, |t.questions|))
  {
    var t := Step(s, request).0;
    AssessHistory.ScoreIsSumWhenFinalized(s, request, i);
    StepPreserves(s, request);
    forall a | 0 <= a < |t.answers|
      ensures t.answers[a].assessmentQuestion < |t.questions|
    {
      assert AnswerInPlace(t, a);
    }
    SumIsEarned(t.answers, i, |t.questions|);
  }
}
