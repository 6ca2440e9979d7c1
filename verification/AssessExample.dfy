/** Two runs from the empty store: an essay graded 1.00, which finalizes the attempt, and then
    graded again, after which its score is not the sum of its answers' scores; and a set with an
    override stored as zero, of which full marks are 200.00 percent. Times count from 0. */
module AssessExample {
  import opened Options
  import opened Assess
  import Decimals
  import Q = QuestionSets

  const LINE := Q.Line(Q.Item(0, 0, 0, 1, None), Q.Question(100, 0, "easy", 0))
  const DETAIL := Q.Detail(100, [LINE])
  const ESSAY := Content([], "essay")

  function Offered(status: AssessmentStatus): Store {
    Store([Assessment(status, None, None, None, 100)], [Section(0, 100)], [AssessmentQuestion(0, 0, 1, 100, 0)], [],
        [], [], [])
  }

  function Attempted(status: AttemptStatus, submittedAt: Option<int>, score: Option<int>): Attempt {
    Attempt(0, 7, status, submittedAt, score, None, None)
  }

  function Answered(status: AnswerStatus, score: Option<int>, grader: Option<nat>): Answer {
    Answer(0, 0, 0, ESSAY, None, status, None, score, grader)
  }

  function Waited(attempt: Attempt): Store {
    Offered(Live).(attempts := [attempt], answers := [Answered(Pending, None, None)])
  }

  function Graded(score: int): Store {
    Offered(Live).(
      attempts := [Attempted(AttemptStatus.Evaluated, Some(1), Some(100))],
      answers := [Answered(ManualEvaluated, Some(score), Some(1))],
      evaluations := [Evaluation(0, Some(1), 100)],
      results := [Result(0, 7, 0, 100, Decimals.Percentage(100, 100), None)])
  }

  lemma CreateStep()
    ensures Step(EMPTY, Create(None, None, None, ThisSet(DETAIL))).0 == Offered(Draft)
  {
    assert [LINE][..0] == [];
    assert Q.SortLines([LINE]) == [LINE] by { assert Q.SortLines([]) == []; }
    assert QuestionRows(0, [LINE]) == [AssessmentQuestion(0, 0, 1, 100, 0)] by { assert QuestionRows(0, []) == []; }
  }

  lemma PublishStep()
    ensures Step(Offered(Draft), Publish(0, true)).0 == Offered(Live)
  {
  }

  lemma StartStep()
    ensures Step(Offered(Live), Start(0, 7, StudentStanding(true, {}), None, 0)).0
            == Offered(Live).(attempts := [Attempted(Started, None, None)])
  {
  }

  lemma ReplyStep()
    ensures Step(Offered(Live).(attempts := [Attempted(Started, None, None)]),
            Reply(0, 0, ESSAY, None, Some(BankQuestion(LongAnswer, {})))).0
            == Waited(Attempted(Started, None, None))
  {
  }

  lemma OneQuestion(s: Store)
    requires s.questions == [AssessmentQuestion(0, 0, 1, 100, 0)]
    ensures QuestionsOf(s.questions, 0) == {0}
  {
  }

  lemma OneAnswer(answer: Answer)
    requires answer.attempt == 0 && answer.assessmentQuestion == 0
    ensures AnswerByQuestion([answer], 0) == map[0 := answer]
    ensures ScoreSum([answer], 0) == ScoreOf(answer)
  {
    assert [answer][..0] == [];
    assert AnswerByQuestion([], 0) == map[] && ScoreSum([], 0) == 0;
  }

  lemma NotYet(s: Store)
    requires s == Waited(Attempted(Submitted, Some(1), None))
    ensures !AllAnswersEvaluated(s, 0)
  {
    OneAnswer(Answered(Pending, None, None));
    assert 0 in AnswerByQuestion(s.answers, 0);
  }

  lemma SubmitStep()
    ensures Step(Waited(Attempted(Started, None, None)), Submit(0, None, false, 1)).0
            == Waited(Attempted(Submitted, Some(1), None))
  {
    NotYet(Waited(Attempted(Submitted, Some(1), None)));
    assert Waited(Attempted(Started, None, None)).answers[0].attempt == 0;
  }

  lemma AllGraded(s: Store)
    requires |s.attempts| == 1 && s.attempts[0].assessment == 0 && s.questions == [AssessmentQuestion(0, 0, 1, 100, 0)]
    requires s.answers == [Answered(ManualEvaluated, Some(100), Some(1))]
    ensures AllAnswersEvaluated(s, 0)
  {
    OneQuestion(s);
    OneAnswer(s.answers[0]);
  }

  lemma GradeStep()
    ensures Step(Waited(Attempted(Submitted, Some(1), None)), Grade(0, 100, 1)).0 == Graded(100)
  {
    var s := Waited(Attempted(Submitted, Some(1), None));
    var t := s.(answers := [Answered(ManualEvaluated, Some(100), Some(1))]);
    AllGraded(t);
    OneAnswer(t.answers[0]);
    assert Finalize(t, 0, Some(1)) == Graded(100);
  }

  lemma RegradeStep()
    ensures Step(Graded(100), Grade(0, 50, 1)).0 == Graded(50)
  {
  }

  lemma FirstRequest(s: Store, t: Store, request: Request, rest: seq<Request>)
    requires Step(s, request).0 == t
    ensures Run(s, [request] + rest) == Run(t, rest)
  {
    assert ([request] + rest)[1..] == rest;
  }

  /** The attempt keeps the score 1.00 although its only answer now has 0.50. */
  lemma RegradingGoesStale()
    ensures var set_ := [Create(None, None, None, ThisSet(DETAIL)), Publish(0, true)];
      var sat := [Start(0, 7, StudentStanding(true, {}), None, 0),
          Reply(0, 0, ESSAY, None, Some(BankQuestion(LongAnswer, {}))), Submit(0, None, false, 1)];
      var s := Run(EMPTY, set_ + sat + [Grade(0, 100, 1), Grade(0, 50, 1)]);
      && s == Graded(50) && s.attempts[0].status == AttemptStatus.Evaluated
      && s.attempts[0].score == Some(100) && ScoreSum(s.answers, 0) == 50
  {
    var create, publish := Create(None, None, None, ThisSet(DETAIL)), Publish(0, true);
    var start, submit := Start(0, 7, StudentStanding(true, {}), None, 0), Submit(0, None, false, 1);
    var reply := Reply(0, 0, ESSAY, None, Some(BankQuestion(LongAnswer, {})));
    var grade, again := Grade(0, 100, 1), Grade(0, 50, 1);
    var r7 := [again] + [];
    var r6 := [grade] + r7;
    var r5 := [submit] + r6;
    var r4 := [reply] + r5;
    var r3 := [start] + r4;
    var r2 := [publish] + r3;
    assert [create, publish] + [start, reply, submit] + [grade, again] == [create] + r2;
    CreateStep();
    PublishStep();
    StartStep();
    ReplyStep();
    SubmitStep();
    GradeStep();
    RegradeStep();
    FirstRequest(EMPTY, Offered(Draft), create, r2);
    FirstRequest(Offered(Draft), Offered(Live), publish, r3);
    FirstRequest(Offered(Live), Offered(Live).(attempts := [Attempted(Started, None, None)]), start, r4);
    FirstRequest(Offered(Live).(attempts := [Attempted(Started, None, None)]),
        Waited(Attempted(Started, None, None)), reply, r5);
    FirstRequest(Waited(Attempted(Started, None, None)), Waited(Attempted(Submitted, Some(1), None)), submit, r6);
    FirstRequest(Waited(Attempted(Submitted, Some(1), None)), Graded(100), grade, r7);
    FirstRequest(Graded(100), Graded(50), again, []);
    OneAnswer(Graded(50).answers[0]);
  }

  // Full marks beyond the total

  const HIDDEN := Q.Line(Q.Item(0, 0, 0, 1, Some(0)), Q.Question(100, 0, "easy", 0))
  const PLAIN := Q.Line(Q.Item(1, 0, 1, 2, None), Q.Question(100, 0, "easy", 0))
  const CHOICE := Content(["a"], "")
  const BANK := BankQuestion(Mcq, {"a"})

  function Pair(status: AssessmentStatus): Store {
    Store([Assessment(status, None, None, None, 100)], [Section(0, 100)],
          [AssessmentQuestion(0, 0, 1, 100, 0), AssessmentQuestion(0, 1, 2, 100, 0)], [], [], [], [])
  }

  function Right(q: nat): Answer {
    Answer(0, q, q, CHOICE, None, AutoEvaluated, Some(true), Some(100), None)
  }

  function Replied(answers: seq<Answer>): Store {
    Pair(Live).(attempts := [Attempted(Started, None, None)], answers := answers)
  }

  function Full(): Store {
    Replied([Right(0), Right(1)]).(
      attempts := [Attempted(AttemptStatus.Evaluated, Some(1), Some(200))],
      evaluations := [Evaluation(0, None, 200)],
      results := [Result(0, 7, 0, 200, Decimals.Percentage(200, 100), None)])
  }

  lemma PairLines()
    ensures Q.Total([HIDDEN, PLAIN]) == 100 && Q.SortLines([HIDDEN, PLAIN]) == [HIDDEN, PLAIN]
  {
    assert [HIDDEN, PLAIN][..1] == [HIDDEN] && [HIDDEN][..0] == [];
    assert Q.Total([]) == 0 && Q.Total([HIDDEN]) == 0;
    assert Q.SortLines([]) == [] && Q.SortLines([HIDDEN]) == [HIDDEN];
  }

  lemma PairRows()
    ensures QuestionRows(0, [HIDDEN, PLAIN]) == Pair(Draft).questions
  {
    assert [HIDDEN, PLAIN][..1] == [HIDDEN] && [HIDDEN][..0] == [];
    assert QuestionRows(0, []) == [];
    assert QuestionRows(0, [HIDDEN]) == [AssessmentQuestion(0, 0, 1, 100, 0)];
  }

  lemma CreatePair()
    ensures Step(EMPTY, Create(None, None, None, ThisSet(Q.Detail(100, [HIDDEN, PLAIN])))).0 == Pair(Draft)
  {
    PairLines();
    PairRows();
  }

  lemma OpenPair()
    ensures Step(Pair(Draft), Publish(0, true)).0 == Pair(Live)
    ensures Step(Pair(Live), Start(0, 7, StudentStanding(true, {}), None, 0)).0 == Replied([])
  {
  }

  lemma RightAnswer(q: nat)
    requires q < 2
    ensures AutoEvaluate(Answer(0, q, q, CHOICE, None, Pending, None, None, None), Pair(Live).questions[q], BANK)
            == Right(q)
  {
    assert (set o | o in CHOICE.optionIds) == {"a"};
  }

  lemma ReplyFirst()
    ensures Step(Replied([]), Reply(0, 0, CHOICE, None, Some(BANK))).0 == Replied([Right(0)])
  {
    RightAnswer(0);
  }

  lemma ReplySecond()
    ensures Step(Replied([Right(0)]), Reply(0, 1, CHOICE, None, Some(BANK))).0 == Replied([Right(0), Right(1)])
  {
    RightAnswer(1);
    assert [Right(0)][..0] == [];
    assert FindAnswer([], 0, 1) == None;
    assert FindAnswer([Right(0)], 0, 1) == None;
  }

  lemma TwoAnswers()
    ensures AnswerByQuestion([Right(0), Right(1)], 0) == map[0 := Right(0), 1 := Right(1)]
    ensures ScoreSum([Right(0), Right(1)], 0) == 200
  {
    OneAnswer(Right(0));
    assert [Right(0), Right(1)][..1] == [Right(0)];
  }

  lemma TwoQuestions()
    ensures QuestionsOf(Pair(Live).questions, 0) == {0, 1}
  {
  }

  lemma BothEvaluated(s: Store)
    requires |s.attempts| == 1 && s.attempts[0].assessment == 0
    requires s.questions == Pair(Live).questions && s.answers == [Right(0), Right(1)]
    ensures AllAnswersEvaluated(s, 0)
  {
    TwoAnswers();
    TwoQuestions();
    assert |map[0 := Right(0), 1 := Right(1)]| == 2 && |{0, 1}| == 2;
  }

  lemma SubmitPair()
    ensures Step(Replied([Right(0), Right(1)]), Submit(0, None, false, 1)).0 == Full()
  {
    var s := Replied([Right(0), Right(1)]);
    var t := s.(attempts := [Attempted(Submitted, Some(1), None)]);
    assert s.answers[0].attempt == 0;
    BothEvaluated(t);
    TwoAnswers();
    assert Finalize(t, 0, None) == Full();
  }

  /** The set's total is 1.00, as one of its two questions of 1.00 counts nothing; an assessment
      made of it gives 2.00 for two right answers, which is 200.00 percent. */
  lemma FullMarksBeyondTotal()
    ensures var offer := [Create(None, None, None, ThisSet(Q.Detail(100, [HIDDEN, PLAIN]))), Publish(0, true)];
      var sit := [Start(0, 7, StudentStanding(true, {}), None, 0), Reply(0, 0, CHOICE, None, Some(BANK)),
                  Reply(0, 1, CHOICE, None, Some(BANK)), Submit(0, None, false, 1)];
      var s := Run(EMPTY, offer + sit);
      && Q.Total([HIDDEN, PLAIN]) == 100 && |s.assessments| == 1 && s.assessments[0].totalMarks == 100
      && |s.results| == 1 && s.results[0].score == 200 && s.results[0].percentage == 20000
  {
    var create, publish := Create(None, None, None, ThisSet(Q.Detail(100, [HIDDEN, PLAIN]))), Publish(0, true);
    var start, submit := Start(0, 7, StudentStanding(true, {}), None, 0), Submit(0, None, false, 1);
    var first, second := Reply(0, 0, CHOICE, None, Some(BANK)), Reply(0, 1, CHOICE, None, Some(BANK));
    var r6 := [submit] + [];
    var r5 := [second] + r6;
    var r4 := [first] + r5;
    var r3 := [start] + r4;
    var r2 := [publish] + r3;
    assert [create, publish] + [start, first, second, submit] == [create] + r2;
    PairLines();
    CreatePair();
    OpenPair();
    ReplyFirst();
    ReplySecond();
    SubmitPair();
    FirstRequest(EMPTY, Pair(Draft), create, r2);
    FirstRequest(Pair(Draft), Pair(Live), publish, r3);
    FirstRequest(Pair(Live), Replied([]), start, r4);
    FirstRequest(Replied([]), Replied([Right(0)]), first, r5);
    FirstRequest(Replied([Right(0)]), Replied([Right(0), Right(1)]), second, r6);
    FirstRequest(Replied([Right(0), Right(1)]), Full(), submit, []);
    TwiceTheTotal();
  }

  lemma TwiceTheTotal()
    ensures Decimals.Percentage(200, 100) == 20000
  {
    SmallEnough(2000000, Decimals.DEFAULT - 1);
    Decimals.PercentageIsExact(200, 100);
    Decimals.RoundWhole(20000, 100);
  }

  lemma SmallEnough(n: nat, k: nat)
    requires n < 10000000 && k >= 7
    ensures n < Decimals.Pow10(k)
  {
    Decimals.Pow10Monotone(7, k);
    assert Decimals.Pow10(7) == 10000000;
  }
}
