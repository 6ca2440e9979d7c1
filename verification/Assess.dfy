/** Assessments, attempts, answers and results of one tenant (app/modules/assess/service.py).

    Rows are never deleted, so an id is the position of its row in its table. Marks and scores
    are hundredths, percentages hundredths of a percent, and times are seconds. */
module Assess {
  import opened Options
  import Decimals
  import QuestionSets

  datatype AssessmentStatus = Draft | Scheduled | Live | Closed | Evaluated | Published
  datatype AttemptStatus = Started | Submitted | AutoSubmitted | Evaluated
  datatype AnswerStatus = Pending | AutoEvaluated | ManualEvaluated
  datatype QuestionType = Mcq | MultiSelect | TrueFalse | ShortAnswer | LongAnswer | Coding | FillBlank

  datatype Assessment =
    Assessment(status: AssessmentStatus, startsAt: Option<int>, endsAt: Option<int>, batch: Option<nat>,
        totalMarks: int)
  datatype Section = Section(assessment: nat, totalMarks: int)
  datatype AssessmentQuestion =
    AssessmentQuestion(assessment: nat, question: nat, orderIndex: nat, marks: nat, negativeMarks: nat)
  datatype Attempt =
    Attempt(assessment: nat, student: nat, status: AttemptStatus, submittedAt: Option<int>, score: Option<int>,
            startKey: Option<string>, submitKey: Option<string>)
  datatype Content = Content(optionIds: seq<string>, text: string)
  datatype Answer =
    Answer(attempt: nat, assessmentQuestion: nat, question: nat, content: Content, key: Option<string>,
           status: AnswerStatus, isCorrect: Option<bool>, score: Option<int>, evaluatedBy: Option<nat>)
  datatype Evaluation = Evaluation(attempt: nat, evaluatedBy: Option<nat>, totalScore: int)
  datatype Result =
    Result(assessment: nat, student: nat, attempt: nat, score: int, percentage: int, publishedAt: Option<int>)

  /** A question of the bank as it is when an answer to it arrives. */
  datatype BankQuestion = BankQuestion(kind: QuestionType, correctOptions: set<string>)

  datatype Store = Store(assessments: seq<Assessment>, sections: seq<Section>, questions: seq<AssessmentQuestion>,
                         attempts: seq<Attempt>, answers: seq<Answer>, evaluations: seq<Evaluation>,
                         results: seq<Result>)

  const EMPTY := Store([], [], [], [], [], [], [])

  datatype Error =
    | QuestionSetNotFound | QuestionSetEmpty | AssessmentConflict | AssessmentNotFound | AssessmentLocked
    | AssessmentHasNoQuestions | PublishNotAllowed | ScheduleRequired | NotAvailable | NotStarted | Ended
    | StudentNotFound | StudentNotInBatch | AttemptNotFound | AttemptNotOpen | AttemptHasNoAnswers
    | AssessmentQuestionNotFound | AnswerAlreadySubmitted | QuestionNotFound | AnswerNotFound
    | ScoreExceedsMarks | ResultsNotReady

  /** What a request returns: the row it is about, or the error it raised. */
  datatype Outcome = Done(row: nat) | Failed(error: Error)

  /** The question set a new assessment asks for. */
  datatype SetRequest = NoSet | MissingSet | ThisSet(detail: QuestionSets.Detail)

  /** What the student and batch tables say about a student. */
  datatype StudentStanding = StudentStanding(exists_: bool, activeBatches: set<nat>)

  // Queries and pure checks

  function QuestionsOf(questions: seq<AssessmentQuestion>, assessment: nat): set<nat> {
    set q | 0 <= q < |questions| && questions[q].assessment == assessment
  }

  function FindAttempt(attempts: seq<Attempt>, assessment: nat, student: nat): (r: Option<nat>)
    ensures r.Some? ==>
            r.value < |attempts| && attempts[r.value].assessment == assessment && attempts[r.value].student == student
    ensures r.None? ==> forall i | 0 <= i < |attempts| ::
            attempts[i].assessment != assessment || attempts[i].student != student
  {
    if attempts == [] then None
    else
      var i := |attempts| - 1;
      if attempts[i].assessment == assessment && attempts[i].student == student then Some(i)
      else FindAttempt(attempts[..i], assessment, student)
  }

  function FindAnswer(answers: seq<Answer>, attempt: nat, question: nat): (r: Option<nat>)
    ensures r.Some? ==>
            r.value < |answers| && answers[r.value].attempt == attempt
                && answers[r.value].assessmentQuestion == question
    ensures r.None? ==> forall a | 0 <= a < |answers| ::
            answers[a].attempt != attempt || answers[a].assessmentQuestion != question
  {
    if answers == [] then None
    else
      var a := |answers| - 1;
      if answers[a].attempt == attempt && answers[a].assessmentQuestion == question then Some(a)
      else FindAnswer(answers[..a], attempt, question)
  }

  function FindResult(results: seq<Result>, attempt: nat): (r: Option<nat>)
    ensures r.Some? ==> r.value < |results| && results[r.value].attempt == attempt
    ensures r.None? ==> forall i | 0 <= i < |results| :: results[i].attempt != attempt
  {
    if results == [] then None
    else
      var i := |results| - 1;
      if results[i].attempt == attempt then Some(i) else FindResult(results[..i], attempt)
  }

  /** The dictionary of an attempt's answers by question; a later answer would replace an earlier one. */
  function AnswerByQuestion(answers: seq<Answer>, attempt: nat): map<nat, Answer> {
    if answers == [] then map[]
    else
      var last := answers[|answers| - 1];
      var rest := AnswerByQuestion(answers[..|answers| - 1], attempt);
      if last.attempt == attempt then rest[last.assessmentQuestion := last] else rest
  }

  /** `_all_answers_evaluated`: as many answered questions as questions, and no pending answer. */
  predicate AllAnswersEvaluated(s: Store, attempt: nat)
    requires attempt < |s.attempts|
  {
    var answered := AnswerByQuestion(s.answers, attempt);
    && |answered| >= |QuestionsOf(s.questions, s.attempts[attempt].assessment)|
    && forall q | q in answered :: answered[q].status != Pending
  }

  function ScoreOf(answer: Answer): int {
    if answer.score.Some? then answer.score.value else 0
  }

  function ScoreSum(answers: seq<Answer>, attempt: nat): int {
    if answers == [] then 0
    else
      var last := answers[|answers| - 1];
      ScoreSum(answers[..|answers| - 1], attempt) + if last.attempt == attempt then ScoreOf(last) else 0
  }

  function AutoEvaluate(answer: Answer, question: AssessmentQuestion, bank: BankQuestion): Answer {
    if bank.kind in {Mcq, MultiSelect, TrueFalse} then
      var correct := (set o | o in answer.content.optionIds) == bank.correctOptions;
      answer.(isCorrect := Some(correct), status := AutoEvaluated,
              score := Some(if correct then question.marks else -(question.negativeMarks as int)))
    else answer.(status := Pending)
  }

  predicate Open(status: AttemptStatus) {
    status == Started
  }

  predicate Waiting(status: AttemptStatus) {
    status == Submitted || status == AutoSubmitted
  }

  // Requests

  function QuestionRows(assessment: nat, lines: seq<QuestionSets.Line>): (rows: seq<AssessmentQuestion>)
    ensures |rows| == |lines|
    ensures forall q | 0 <= q < |rows| :: rows[q].assessment == assessment
  {
    if lines == [] then []
    else
      var line := lines[|lines| - 1];
      QuestionRows(assessment, lines[..|lines| - 1])
        + [AssessmentQuestion(assessment, line.item.question, line.item.orderIndex,
                              QuestionSets.SnapshotMarks(line), line.question.negativeMarks)]
  }

  function CreateAssessment(s: Store, batch: Option<nat>, startsAt: Option<int>, endsAt: Option<int>,
      request: SetRequest)
    : (Store, Outcome)
  {
    var a := |s.assessments|;
    match request
    case MissingSet => (s, Failed(QuestionSetNotFound))
    case NoSet =>
      (s.(assessments := s.assessments + [Assessment(Draft, startsAt, endsAt, batch, 0)]), Done(a))
    case ThisSet(detail) =>
      if detail.lines == [] then (s, Failed(QuestionSetEmpty))
      else if !QuestionSets.DistinctKeys(detail.lines) then (s, Failed(AssessmentConflict))
      else
        (s.(assessments := s.assessments + [Assessment(Draft, startsAt, endsAt, batch, detail.totalMarks)],
            sections := s.sections + [Section(a, detail.totalMarks)],
            questions := s.questions + QuestionRows(a, QuestionSets.SortLines(detail.lines))),
         Done(a))
  }

  function UpdateAssessment(s: Store, a: nat, batch: Option<nat>, startsAt: Option<int>,
      endsAt: Option<int>): (Store, Outcome) {
    if a >= |s.assessments| then (s, Failed(AssessmentNotFound))
    else if s.assessments[a].status !in {Draft, Scheduled} then (s, Failed(AssessmentLocked))
    else (s.(assessments := s.assessments[a := s.assessments[a].(batch := batch, startsAt := startsAt,
        endsAt := endsAt)]), Done(a))
  }

  function ScheduleAssessment(s: Store, a: nat, startsAt: int, endsAt: int): (Store, Outcome) {
    if a >= |s.assessments| then (s, Failed(AssessmentNotFound))
    else if QuestionsOf(s.questions, a) == {} then (s, Failed(AssessmentHasNoQuestions))
    else
      (s.(assessments := s.assessments[a := s.assessments[a].(startsAt := Some(startsAt), endsAt := Some(endsAt),
          status := Scheduled)]),
       Done(a))
  }

  function PublishAssessment(s: Store, a: nat, force: bool): (Store, Outcome) {
    if a >= |s.assessments| then (s, Failed(AssessmentNotFound))
    else if s.assessments[a].status !in {Draft, Scheduled, Live} then (s, Failed(PublishNotAllowed))
    else if !force && (s.assessments[a].startsAt.None? || s.assessments[a].endsAt.None?) then
        (s, Failed(ScheduleRequired))
    else (s.(assessments := s.assessments[a := s.assessments[a].(status := Live)]), Done(a))
  }

  function StartError(row: Assessment, standing: StudentStanding, now: int): Option<Error> {
    if row.status !in {Scheduled, Live} then Some(NotAvailable)
    else if row.startsAt.Some? && now < row.startsAt.value then Some(NotStarted)
    else if row.endsAt.Some? && now > row.endsAt.value then Some(Ended)
    else if !standing.exists_ then Some(StudentNotFound)
    else if row.batch.Some? && row.batch.value !in standing.activeBatches then Some(StudentNotInBatch)
    else None
  }

  function StartAttempt(s: Store, a: nat, student: nat, standing: StudentStanding, key: Option<string>,
      now: int): (Store, Outcome) {
    if a >= |s.assessments| then (s, Failed(AssessmentNotFound))
    else
      var error := StartError(s.assessments[a], standing, now);
      var existing := FindAttempt(s.attempts, a, student);
      if error.Some? then (s, Failed(error.value))
      else if existing.Some? then (s, Done(existing.value))
      else
        (s.(attempts := s.attempts + [Attempt(a, student, Started, None, None, if Keyed(key) then key
            else None, None)]),
         Done(|s.attempts|))
  }

  function SubmitAnswer(s: Store, i: nat, q: nat, content: Content, key: Option<string>,
      bank: Option<BankQuestion>): (Store, Outcome) {
    if i >= |s.attempts| then (s, Failed(AttemptNotFound))
    else if !Open(s.attempts[i].status) then (s, Failed(AttemptNotOpen))
    else if q >= |s.questions| || s.questions[q].assessment != s.attempts[i].assessment then
        (s, Failed(AssessmentQuestionNotFound))
    else
      var existing := FindAnswer(s.answers, i, q);
      if existing.Some? then
        if Keyed(key) && s.answers[existing.value].key == key then (s, Done(existing.value))
        else (s, Failed(AnswerAlreadySubmitted))
      else if bank.None? then (s, Failed(QuestionNotFound))
      else
        var answer := Answer(i, q, s.questions[q].question, content, key, Pending, None, None, None);
        (s.(answers := s.answers + [AutoEvaluate(answer, s.questions[q], bank.value)]), Done(|s.answers|))
  }

  /** `_finalize_attempt`: sum the scores and write the evaluation and the result. */
  function Finalize(s: Store, i: nat, grader: Option<nat>): Store
    requires i < |s.attempts| && s.attempts[i].assessment < |s.assessments|
  {
    var attempt, total := s.attempts[i], ScoreSum(s.answers, i);
    var percentage := Decimals.Percentage(total, s.assessments[attempt.assessment].totalMarks);
    var existing := FindResult(s.results, i);
    s.(attempts := s.attempts[i := attempt.(score := Some(total), status := AttemptStatus.Evaluated)],
       evaluations := s.evaluations + [Evaluation(i, grader, total)],
       results :=
         if existing.None? then
           s.results + [Result(attempt.assessment, attempt.student, i, total, percentage, None)]
         else
           s.results[existing.value := s.results[existing.value].(score := total, percentage := percentage)])
  }

  function SubmitAttempt(s: Store, i: nat, key: Option<string>, auto: bool, now: int): (Store, Outcome) {
    if i >= |s.attempts| then (s, Failed(AttemptNotFound))
    else if !Open(s.attempts[i].status) then (s, Done(i))
    else if forall a | 0 <= a < |s.answers| :: s.answers[a].attempt != i then (s, Failed(AttemptHasNoAnswers))
    else
      var attempt := s.attempts[i];
      var closed := attempt.(submittedAt := Some(now), submitKey := if Keyed(key) then key else attempt.submitKey,
                             status := if auto then AutoSubmitted else Submitted);
      var t := s.(attempts := s.attempts[i := closed]);
      if attempt.assessment >= |s.assessments| then (s, Failed(AssessmentNotFound))
      else (if AllAnswersEvaluated(t, i) then Finalize(t, i, None) else t, Done(i))
  }

  /** `score` is at least zero: the request schema refuses a negative one. */
  function EvaluateAnswer(s: Store, a: nat, score: nat, grader: nat): (Store, Outcome) {
    if a >= |s.answers| then (s, Failed(AnswerNotFound))
    else if s.answers[a].assessmentQuestion >= |s.questions| then (s, Failed(AssessmentQuestionNotFound))
    else if score > s.questions[s.answers[a].assessmentQuestion].marks then (s, Failed(ScoreExceedsMarks))
    else
      var i := s.answers[a].attempt;
      var t := s.(answers := s.answers[a := s.answers[a].(score := Some(score), status := ManualEvaluated,
          evaluatedBy := Some(grader))]);
      if i >= |s.attempts| then (s, Failed(AttemptNotFound))
      else if s.attempts[i].assessment >= |s.assessments| then (s, Failed(AssessmentNotFound))
      else (if Waiting(s.attempts[i].status) && AllAnswersEvaluated(t, i) then Finalize(t, i, Some(grader))
          else t, Done(a))
  }

  function PublishedRows(results: seq<Result>, a: nat, now: int): (rows: seq<Result>)
    ensures |rows| == |results|
    ensures forall r | 0 <= r < |rows| ::
      rows[r] == if results[r].assessment == a then results[r].(publishedAt := Some(now)) else results[r]
  {
    seq(|results|, r requires 0 <= r < |results| =>
      if results[r].assessment == a then results[r].(publishedAt := Some(now)) else results[r])
  }

  function PublishResults(s: Store, a: nat, now: int): (Store, Outcome) {
    if a >= |s.assessments| then (s, Failed(AssessmentNotFound))
    else if forall r | 0 <= r < |s.results| :: s.results[r].assessment != a then (s, Failed(ResultsNotReady))
    else
      (s.(assessments := s.assessments[a := s.assessments[a].(status := AssessmentStatus.Published)],
          results := PublishedRows(s.results, a, now)),
       Done(a))
  }

  // Runs

  datatype Request =
    | Create(batch: Option<nat>, starts: Option<int>, ends: Option<int>, set_: SetRequest)
    | Update(assessment: nat, batch: Option<nat>, starts: Option<int>, ends: Option<int>)
    | Schedule(assessment: nat, startsAt: int, endsAt: int)
    | Publish(assessment: nat, force: bool)
    | Start(assessment: nat, student: nat, standing: StudentStanding, key: Option<string>, now: int)
    | Reply(attempt: nat, question: nat, content: Content, key: Option<string>, bank: Option<BankQuestion>)
    | Submit(attempt: nat, key: Option<string>, auto: bool, now: int)
    | Grade(answer: nat, score: nat, grader: nat)
    | PublishAll(assessment: nat, now: int)

  /** One request; it takes effect whole or, when it fails, not at all. */
  function Step(s: Store, request: Request): (Store, Outcome) {
    match request
    case Create(batch, starts, ends, set_) => CreateAssessment(s, batch, starts, ends, set_)
    case Update(a, batch, starts, ends) => UpdateAssessment(s, a, batch, starts, ends)
    case Schedule(a, starts, ends) => ScheduleAssessment(s, a, starts, ends)
    case Publish(a, force) => PublishAssessment(s, a, force)
    case Start(a, student, standing, key, now) => StartAttempt(s, a, student, standing, key, now)
    case Reply(i, q, content, key, bank) => SubmitAnswer(s, i, q, content, key, bank)
    case Submit(i, key, auto, now) => SubmitAttempt(s, i, key, auto, now)
    case Grade(a, score, grader) => EvaluateAnswer(s, a, score, grader)
    case PublishAll(a, now) => PublishResults(s, a, now)
  }

  function Run(s: Store, requests: seq<Request>): Store
    decreases |requests|
  {
    if requests == [] then s else Run(Step(s, requests[0]).0, requests[1..])
  }
}
