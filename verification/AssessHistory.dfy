/** How attempts, answers and results change over whole runs of requests. */
module AssessHistory {
  import opened Options
  import opened Assess
  import opened AssessInvariants
  import Decimals

  function Rank(status: AttemptStatus): nat {
    match status
    case Started => 0
    case Submitted => 1
    case AutoSubmitted => 1
    case Evaluated => 2
  }

  /** An attempt only moves forward, and is frozen once EVALUATED. */
  ghost predicate AttemptEvolves(x: Attempt, y: Attempt) {
    && y.assessment == x.assessment && y.student == x.student && y.startKey == x.startKey
    && Rank(x.status) <= Rank(y.status)
    && (x.status != Started ==> y.submittedAt == x.submittedAt && y.submitKey == x.submitKey)
    && (x.status == AttemptStatus.Evaluated ==> y == x)
  }

  /** What was answered is written once; an evaluated answer stays evaluated. */
  ghost predicate AnswerEvolves(x: Answer, y: Answer) {
    && y.attempt == x.attempt && y.assessmentQuestion == x.assessmentQuestion && y.question == x.question
    && y.content == x.content && y.key == x.key
    && (x.status != Pending ==> y.status != Pending)
  }

  ghost predicate Undecided(s: Store, i: nat) {
    i < |s.attempts| ==> s.attempts[i].status != AttemptStatus.Evaluated
  }

  ghost predicate RowsEvolve(s: Store, t: Store) {
    && |s.assessments| <= |t.assessments| && |s.attempts| <= |t.attempts| && |s.answers| <= |t.answers|
    && (forall a | 0 <= a < |s.assessments| :: t.assessments[a].totalMarks == s.assessments[a].totalMarks)
    && (forall i | 0 <= i < |s.attempts| :: AttemptEvolves(s.attempts[i], t.attempts[i]))
    && (forall a | 0 <= a < |s.answers| :: AnswerEvolves(s.answers[a], t.answers[a]))
    && (forall a | |s.answers| <= a < |t.answers| ::
          t.answers[a].attempt < |s.attempts| ==> s.attempts[t.answers[a].attempt].status == Started)
  }

  ghost predicate QuestionsEvolve(s: Store, t: Store) {
    && |s.assessments| <= |t.assessments| && |s.questions| <= |t.questions|
    && (forall q | 0 <= q < |s.questions| :: t.questions[q] == s.questions[q])
    && (forall q | |s.questions| <= q < |t.questions| :: t.questions[q].assessment >= |s.assessments|)
  }

  /** Evaluations and results are only added, for attempts not yet EVALUATED; publishing a
      result does not touch its score. */
  ghost predicate RecordsEvolve(s: Store, t: Store) {
    && |s.evaluations| <= |t.evaluations| && |s.results| <= |t.results|
    && (forall e | 0 <= e < |s.evaluations| :: t.evaluations[e] == s.evaluations[e])
    && (forall e | |s.evaluations| <= e < |t.evaluations| :: Undecided(s, t.evaluations[e].attempt))
    && (forall r | 0 <= r < |s.results| :: t.results[r] == s.results[r].(publishedAt := t.results[r].publishedAt))
    && (forall r | |s.results| <= r < |t.results| :: Undecided(s, t.results[r].attempt))
  }

  ghost predicate Evolves(s: Store, t: Store) {
    RowsEvolve(s, t) && QuestionsEvolve(s, t) && RecordsEvolve(s, t)
  }

  lemma EvolvesTransitive(s: Store, t: Store, u: Store)
    requires Evolves(s, t) && Evolves(t, u)
    ensures Evolves(s, u)
  {
    forall i | 0 <= i < |s.attempts| ensures AttemptEvolves(s.attempts[i], u.attempts[i]) {
      assert AttemptEvolves(s.attempts[i], t.attempts[i]) && AttemptEvolves(t.attempts[i], u.attempts[i]);
    }
    forall a | 0 <= a < |s.answers| ensures AnswerEvolves(s.answers[a], u.answers[a]) {
      assert AnswerEvolves(s.answers[a], t.answers[a]) && AnswerEvolves(t.answers[a], u.answers[a]);
    }
    forall a | |s.answers| <= a < |u.answers| && u.answers[a].attempt < |s.attempts|
      ensures s.attempts[u.answers[a].attempt].status == Started
    {
      assert AttemptEvolves(s.attempts[u.answers[a].attempt], t.attempts[u.answers[a].attempt]);
      if a < |t.answers| { assert AnswerEvolves(t.answers[a], u.answers[a]); }
    }
    UndecidedEarlier(s, t);
    forall e | |s.evaluations| <= e < |u.evaluations| ensures Undecided(s, u.evaluations[e].attempt) {
      if e < |t.evaluations| { assert u.evaluations[e] == t.evaluations[e]; }
    }
    forall r | |s.results| <= r < |u.results| ensures Undecided(s, u.results[r].attempt) {
      if r < |t.results| { assert u.results[r].attempt == t.results[r].attempt; }
    }
  }

  lemma UndecidedEarlier(s: Store, t: Store)
    requires RowsEvolve(s, t)
    ensures forall i: nat | Undecided(t, i) :: Undecided(s, i)
  {
    forall i: nat | Undecided(t, i) ensures Undecided(s, i) {
      if i < |s.attempts| { assert AttemptEvolves(s.attempts[i], t.attempts[i]); }
    }
  }

  /** What `Finalize` changes: the attempt's row, one more evaluation and one more result. */
  ghost predicate FinalizedFrom(t: Store, u: Store, i: nat) {
    && u.assessments == t.assessments && u.questions == t.questions && u.answers == t.answers
    && i < |t.attempts| == |u.attempts|
    && u.attempts[i] == t.attempts[i].(score := u.attempts[i].score, status := AttemptStatus.Evaluated)
    && (forall j | 0 <= j < |t.attempts| && j != i :: u.attempts[j] == t.attempts[j])
    && |u.evaluations| == |t.evaluations| + 1 && u.evaluations[|t.evaluations|].attempt == i
    && (forall e | 0 <= e < |t.evaluations| :: u.evaluations[e] == t.evaluations[e])
    && |u.results| == |t.results| + 1 && u.results[|t.results|].attempt == i
    && (forall r | 0 <= r < |t.results| :: u.results[r] == t.results[r])
  }

  lemma FinalizeChanges(t: Store, i: nat, grader: Option<nat>)
    requires ReadyToFinalize(t, i)
    ensures FinalizedFrom(t, Finalize(t, i, grader), i)
  {
    NoRecordsYet(t, i);
  }

  lemma FinalizedEvolves(s: Store, t: Store, u: Store, i: nat)
    requires FinalizedFrom(t, u, i) && Waiting(t.attempts[i].status) && Evolves(s, t)
    ensures Evolves(s, u)
  {
    assert Evolves(t, u);
    EvolvesTransitive(s, t, u);
  }

  lemma FinalizeEvolves(s: Store, t: Store, i: nat, grader: Option<nat>)
    requires ReadyToFinalize(t, i) && Evolves(s, t)
    ensures Evolves(s, Finalize(t, i, grader))
  {
    FinalizeChanges(t, i, grader);
    FinalizedEvolves(s, t, Finalize(t, i, grader), i);
  }

  lemma ClosingEvolves(s: Store, t: Store, i: nat)
    requires i < |s.attempts| == |t.attempts| && t == s.(attempts := s.attempts[i := t.attempts[i]])
    requires AttemptEvolves(s.attempts[i], t.attempts[i])
    ensures Evolves(s, t)
  {
  }

  lemma SubmitEvolves(s: Store, i: nat, key: Option<string>, auto: bool, now: int)
    requires Inv(s)
    ensures Evolves(s, SubmitAttempt(s, i, key, auto, now).0)
  {
    if i < |s.attempts| && Open(s.attempts[i].status) && SubmitAttempt(s, i, key, auto, now).1.Done? {
      var attempt := s.attempts[i];
      var closed := attempt.(submittedAt := Some(now), submitKey := if Keyed(key) then key else attempt.submitKey,
                             status := if auto then AutoSubmitted else Submitted);
      var t := s.(attempts := s.attempts[i := closed]);
      ClosedButUndecided(s, t, i);
      CountingDecidesCompleteness(t, i);
      ClosingEvolves(s, t, i);
      if Complete(t, i) { FinalizeEvolves(s, t, i, None); }
    }
  }

  lemma GradeEvolves(s: Store, a: nat, score: nat, grader: nat)
    requires Inv(s)
    ensures Evolves(s, EvaluateAnswer(s, a, score, grader).0)
  {
    if a < |s.answers| && EvaluateAnswer(s, a, score, grader).1.Done? {
      assert AnswerInPlace(s, a);
      var i := s.answers[a].attempt;
      var t := s.(answers := s.answers[a := s.answers[a].(score := Some(score), status := ManualEvaluated,
          evaluatedBy := Some(grader))]);
      GradedButUndecided(s, t, a, i);
      CountingDecidesCompleteness(t, i);
      assert Evolves(s, t);
      if Waiting(s.attempts[i].status) && Complete(t, i) { FinalizeEvolves(s, t, i, Some(grader)); }
    }
  }

  lemma NewAttemptEvolves(s: Store, attempt: Attempt)
    ensures Evolves(s, s.(attempts := s.attempts + [attempt]))
  {
  }

  lemma StartEvolves(s: Store, a: nat, student: nat, standing: StudentStanding, key: Option<string>, now: int)
    ensures Evolves(s, StartAttempt(s, a, student, standing, key, now).0)
  {
    var t := StartAttempt(s, a, student, standing, key, now).0;
    if t != s { NewAttemptEvolves(s, t.attempts[|s.attempts|]); }
  }

  lemma NewAnswerEvolves(s: Store, answer: Answer)
    requires answer.attempt < |s.attempts| ==> s.attempts[answer.attempt].status == Started
    ensures Evolves(s, s.(answers := s.answers + [answer]))
  {
  }

  lemma ReplyEvolves(s: Store, i: nat, q: nat, content: Content, key: Option<string>, bank: Option<BankQuestion>)
    ensures Evolves(s, SubmitAnswer(s, i, q, content, key, bank).0)
  {
    var t := SubmitAnswer(s, i, q, content, key, bank).0;
    if t != s { NewAnswerEvolves(s, t.answers[|s.answers|]); }
  }

  lemma CreateEvolves(s: Store, batch: Option<nat>, starts: Option<int>, ends: Option<int>, request: SetRequest)
    ensures Evolves(s, CreateAssessment(s, batch, starts, ends, request).0)
  {
  }

  lemma AssessmentRowsEvolve(s: Store, t: Store)
    requires t == s.(assessments := t.assessments) && |t.assessments| == |s.assessments|
    requires forall a | 0 <= a < |s.assessments| :: t.assessments[a].totalMarks == s.assessments[a].totalMarks
    ensures Evolves(s, t)
  {
  }

  lemma PublishResultsEvolves(s: Store, a: nat, now: int)
    ensures Evolves(s, PublishResults(s, a, now).0)
  {
  }

  lemma StepEvolves(s: Store, request: Request)
    requires Inv(s)
    ensures Evolves(s, Step(s, request).0)
  {
    match request
    case Create(batch, starts, ends, set_) => CreateEvolves(s, batch, starts, ends, set_);
    case Update(a, batch, starts, ends) => AssessmentRowsEvolve(s, Step(s, request).0);
    case Schedule(a, starts, ends) => AssessmentRowsEvolve(s, Step(s, request).0);
    case Publish(a, force) => AssessmentRowsEvolve(s, Step(s, request).0);
    case Start(a, student, standing, key, now) => StartEvolves(s, a, student, standing, key, now);
    case Reply(i, q, content, key, bank) => ReplyEvolves(s, i, q, content, key, bank);
    case Submit(i, key, auto, now) => SubmitEvolves(s, i, key, auto, now);
    case Grade(a, score, grader) => GradeEvolves(s, a, score, grader);
    case PublishAll(a, now) => PublishResultsEvolves(s, a, now);
  }

  /** Over any run attempts only move forward and freeze once EVALUATED, answers are written
      once and only while their attempt is open, and records are only added. */
  lemma {:induction false} RunEvolves(s: Store, requests: seq<Request>)
    requires Inv(s)
    ensures Evolves(s, Run(s, requests)) && Inv(Run(s, requests))
    decreases |requests|
  {
    if requests == [] {
    } else {
      var t := Step(s, requests[0]).0;
      StepPreserves(s, requests[0]);
      StepEvolves(s, requests[0]);
      RunEvolves(t, requests[1..]);
      EvolvesTransitive(s, t, Run(s, requests));
    }
  }

  lemma EmptyIsSound()
    ensures Inv(EMPTY)
  {
  }

  // Main results

  /** In every reachable state an attempt past STARTED is EVALUATED if and only if every
      question of its assessment has an evaluated answer. */
  lemma EvaluatedIffComplete(requests: seq<Request>, i: nat)
    requires i < |Run(EMPTY, requests).attempts| && Run(EMPTY, requests).attempts[i].status != Started
    ensures Run(EMPTY, requests).attempts[i].status == AttemptStatus.Evaluated <==> Complete(Run(EMPTY, requests), i)
  {
    EmptyIsSound();
    RunPreserves(EMPTY, requests);
  }

  ghost predicate TheEvaluation(s: Store, i: nat, e: nat) {
    && e < |s.evaluations| && s.evaluations[e].attempt == i
    && forall f | 0 <= f < |s.evaluations| && s.evaluations[f].attempt == i :: f == e
  }

  ghost predicate TheResult(s: Store, i: nat, r: nat) {
    && r < |s.results| && s.results[r].attempt == i
    && forall f | 0 <= f < |s.results| && s.results[f].attempt == i :: f == r
  }

  /** In every reachable state an attempt is EVALUATED exactly when it has an evaluation and a
      result; then it has one of each, and score, total, result and percentage agree. */
  lemma OneRecordOfEachKind(requests: seq<Request>, i: nat) returns (e: nat, r: nat)
    requires i < |Run(EMPTY, requests).attempts|
    ensures var s := Run(EMPTY, requests);
      if s.attempts[i].status == AttemptStatus.Evaluated then
        && TheEvaluation(s, i, e) && TheResult(s, i, r)
        && s.attempts[i].score == Some(s.evaluations[e].totalScore) == Some(s.results[r].score)
        && s.results[r].assessment == s.attempts[i].assessment < |s.assessments|
        && s.results[r].percentage == Decimals.Percentage(s.results[r].score,
            s.assessments[s.results[r].assessment].totalMarks)
      else
        && (forall f | 0 <= f < |s.evaluations| :: s.evaluations[f].attempt != i)
        && (forall f | 0 <= f < |s.results| :: s.results[f].attempt != i)
        && s.attempts[i].score == None
  {
    EmptyIsSound();
    RunPreserves(EMPTY, requests);
    var s := Run(EMPTY, requests);
    e, r := 0, 0;
    if s.attempts[i].status == AttemptStatus.Evaluated {
      assert HasRecords(s, i);
      e :| 0 <= e < |s.evaluations| && s.evaluations[e].attempt == i;
      r :| 0 <= r < |s.results| && s.results[r].attempt == i;
      assert EvaluationAgrees(s, e) && ResultAgrees(s, r);
    } else {
      forall f: nat | f < |s.evaluations| ensures s.evaluations[f].attempt != i { assert EvaluationAgrees(s, f); }
      forall f: nat | f < |s.results| ensures s.results[f].attempt != i { assert ResultAgrees(s, f); }
    }
  }

  /** Once EVALUATED, an attempt, its evaluation, and its result's score and percentage never
      change again, whatever follows. */
  lemma FinalizedForGood(before: seq<Request>, after: seq<Request>, i: nat, e: nat, r: nat)
    requires var s := Run(EMPTY, before);
             i < |s.attempts| && s.attempts[i].status == AttemptStatus.Evaluated && TheEvaluation(s, i, e)
                 && TheResult(s, i, r)
    ensures var s, t := Run(EMPTY, before), Run(Run(EMPTY, before), after);
      && i < |t.attempts| && t.attempts[i] == s.attempts[i]
      && TheEvaluation(t, i, e) && t.evaluations[e] == s.evaluations[e]
      && TheResult(t, i, r) && t.results[r].score == s.results[r].score
      && t.results[r].percentage == s.results[r].percentage
  {
    EmptyIsSound();
    RunPreserves(EMPTY, before);
    var s := Run(EMPTY, before);
    RunEvolves(s, after);
    assert AttemptEvolves(s.attempts[i], Run(s, after).attempts[i]);
  }

  /** The request that makes an attempt EVALUATED sets its score to the sum of its answers'
      scores at that moment. */
  lemma ScoreIsSumWhenFinalized(s: Store, request: Request, i: nat)
    requires Inv(s) && i < |s.attempts| && s.attempts[i].status != AttemptStatus.Evaluated
    requires i < |Step(s, request).0.attempts| && Step(s, request).0.attempts[i].status == AttemptStatus.Evaluated
    ensures Step(s, request).0.attempts[i].score == Some(ScoreSum(Step(s, request).0.answers, i))
  {
  }

  // Repeated requests

  /** After a successful start, starting again changes nothing, whatever else the request says,
      and when it succeeds it is about the same attempt. */
  lemma StartIsIdempotent(s: Store, a: nat, student: nat, standing: StudentStanding, key: Option<string>, now: int,
                          standing': StudentStanding, key': Option<string>, now': int)
    requires StartAttempt(s, a, student, standing, key, now).1.Done?
    ensures var (t, first) := StartAttempt(s, a, student, standing, key, now);
      var (u, second) := StartAttempt(t, a, student, standing', key', now');
      u == t && (second.Done? ==> second == first)
  {
  }

  /** After a successful answer, answering the question again changes nothing; with the same
      idempotency key it returns the same answer, and otherwise it is refused. */
  lemma AnswerIsIdempotent(s: Store, i: nat, q: nat, content: Content, key: Option<string>, bank: Option<BankQuestion>,
                           content': Content, key': Option<string>, bank': Option<BankQuestion>)
    requires SubmitAnswer(s, i, q, content, key, bank).1.Done?
    ensures var (t, first) := SubmitAnswer(s, i, q, content, key, bank);
      var (u, second) := SubmitAnswer(t, i, q, content', key', bank');
      && u == t && first.row < |t.answers|
      && second == (if key' == t.answers[first.row].key && key' !in {None, Some("")} then first
                    else Failed(AnswerAlreadySubmitted))
  {
  }

  lemma SubmitIsIdempotent(s: Store, i: nat, key: Option<string>, auto: bool, now: int,
                           key': Option<string>, auto': bool, now': int)
    requires SubmitAttempt(s, i, key, auto, now).1.Done?
    ensures var (t, first) := SubmitAttempt(s, i, key, auto, now);
      SubmitAttempt(t, i, key', auto', now') == (t, first)
  {
  }

  // Grading after the verdict

  lemma {:induction false} ScoreSumAfterGrade(answers: seq<Answer>, a: nat, graded: Answer)
    requires a < |answers| && graded.attempt == answers[a].attempt
    ensures ScoreSum(answers[a := graded], graded.attempt)
            == ScoreSum(answers, graded.attempt) - ScoreOf(answers[a]) + ScoreOf(graded)
  {
    var last := |answers| - 1;
    if a < last {
      ScoreSumAfterGrade(answers[..last], a, graded);
      assert answers[a := graded][..last] == answers[..last][a := graded];
    } else {
      assert answers[a := graded][..last] == answers[..last];
    }
  }

  lemma EvaluatedHasScore(s: Store, i: nat)
    requires Recorded(s) && i < |s.attempts| && s.attempts[i].status == AttemptStatus.Evaluated
    ensures s.attempts[i].score.Some?
  {
    assert HasRecords(s, i);
    var e :| 0 <= e < |s.evaluations| && s.evaluations[e].attempt == i;
    assert EvaluationAgrees(s, e);
  }

  /** Grading an answer of an EVALUATED attempt again never re-finalizes it: afterwards its score
      is the sum of its answers' scores exactly when the grade makes up for what it was off
      before, so a score that was right stays right exactly when the grade is the old one. */
  lemma RegradingLeavesScore(s: Store, a: nat, score: nat, grader: nat)
    requires Inv(s) && a < |s.answers| && EvaluateAnswer(s, a, score, grader).1.Done?
    requires s.answers[a].attempt < |s.attempts| && s.attempts[s.answers[a].attempt].status == AttemptStatus.Evaluated
    ensures var i, t := s.answers[a].attempt, EvaluateAnswer(s, a, score, grader).0;
      && t.attempts == s.attempts && t.evaluations == s.evaluations && t.results == s.results
      && s.attempts[i].score.Some?
      && (t.attempts[i].score == Some(ScoreSum(t.answers, i)) <==>
            score - ScoreOf(s.answers[a]) == s.attempts[i].score.value - ScoreSum(s.answers, i))
  {
    EvaluatedHasScore(s, s.answers[a].attempt);
    var graded := s.answers[a].(score := Some(score), status := ManualEvaluated, evaluatedBy := Some(grader));
    ScoreSumAfterGrade(s.answers, a, graded);
  }
}
