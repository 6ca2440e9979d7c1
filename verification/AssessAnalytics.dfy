/** The figures an assessment's analytics report about its results: average, highest and lowest
    score, in hundredths. */
module AssessAnalytics {
  import opened Options
  import opened Assess
  import opened AssessInvariants
  import AssessHistory
  import AssessMarks
  import Decimals

  datatype Analytics = Analytics(average: Option<int>, highest: Option<int>, lowest: Option<int>)

  function Scores(results: seq<Result>, a: nat): seq<int> {
    if results == [] then []
    else
      var last := results[|results| - 1];
      Scores(results[..|results| - 1], a) + if last.assessment == a then [last.score] else []
  }

  function Sum(scores: seq<int>): int {
    if scores == [] then 0 else Sum(scores[..|scores| - 1]) + scores[|scores| - 1]
  }

  ghost predicate IsHighest(scores: seq<int>, high: int) {
    high in scores && forall i | 0 <= i < |scores| :: scores[i] <= high
  }

  ghost predicate IsLowest(scores: seq<int>, low: int) {
    low in scores && forall i | 0 <= i < |scores| :: low <= scores[i]
  }

  /** What the analytics of assessment `a` should say. */
  ghost predicate IsAnalytics(report: Analytics, s: Store, a: nat) {
    var scores := Scores(s.results, a);
    if scores == [] then
      report == Analytics(None, None, None)
    else
      && report.highest.Some? && IsHighest(scores, report.highest.value)
      && report.lowest.Some? && IsLowest(scores, report.lowest.value)
      && report.average == Some(Decimals.Average(Sum(scores), |scores|))
  }

  /** `analytics`: the scores of the assessment's results, their average, maximum and minimum. */
  method Report(s: Store, a: nat) returns (report: Analytics)
    ensures IsAnalytics(report, s, a)
  {
    var scores: seq<int> := [];
    for k := 0 to |s.results|
      invariant scores == Scores(s.results[..k], a)
    {
      assert s.results[..k + 1][..k] == s.results[..k];
      if s.results[k].assessment == a { scores := scores + [s.results[k].score]; }
    }
    assert s.results[..|s.results|] == s.results;
    if scores == [] { return Analytics(None, None, None); }
    var sum, high, low := SumAndBounds(scores);
    return Analytics(Some(Decimals.Average(sum, |scores|)), Some(high), Some(low));
  }

  /** `sum`, `max` and `min` of a non-empty list. */
  method SumAndBounds(scores: seq<int>) returns (sum: int, high: int, low: int)
    requires scores != []
    ensures sum == Sum(scores) && IsHighest(scores, high) && IsLowest(scores, low)
  {
    sum, high, low := 0, scores[0], scores[0];
    for k := 0 to |scores|
      invariant sum == Sum(scores[..k]) && high in scores && low in scores
      invariant forall i | 0 <= i < k :: low <= scores[i] <= high
    {
      assert scores[..k + 1][..k] == scores[..k];
      sum := sum + scores[k];
      if scores[k] > high { high := scores[k]; }
      if scores[k] < low { low := scores[k]; }
    }
    assert scores[..|scores|] == scores;
  }

  lemma {:induction false} SumBetween(scores: seq<int>, low: int, high: int)
    requires forall i | 0 <= i < |scores| :: low <= scores[i] <= high
    ensures low * |scores| <= Sum(scores) <= high * |scores|
  {
    if scores == [] {
    } else {
      var front := scores[..|scores| - 1];
      SumBetween(front, low, high);
      assert low * |scores| == low * |front| + low && high * |scores| == high * |front| + high;
    }
  }

  /** The rounded average lies between the lowest and the highest score, for scores that add up
      to at most 25 digits. */
  lemma AverageBetween(report: Analytics, s: Store, a: nat)
    requires IsAnalytics(report, s, a) && Scores(s.results, a) != []
    requires Decimals.Abs(Sum(Scores(s.results, a))) * 100 < Decimals.Pow10(Decimals.DEFAULT - 1)
    ensures report.lowest.value <= report.average.value <= report.highest.value
  {
    var scores := Scores(s.results, a);
    SumBetween(scores, report.lowest.value, report.highest.value);
    Decimals.AverageIsExact(Sum(scores), |scores|);
    Decimals.RoundBetween(Sum(scores), |scores|, report.lowest.value, report.highest.value);
  }

  lemma {:induction false} ScoresAreResults(results: seq<Result>, a: nat)
    ensures forall v | v in Scores(results, a) :: exists r ::
            0 <= r < |results| && results[r].assessment == a && results[r].score == v
  {
    if results == [] {
    } else {
      var front := results[..|results| - 1];
      ScoresAreResults(front, a);
      forall v | v in Scores(results, a)
        ensures exists r :: 0 <= r < |results| && results[r].assessment == a && results[r].score == v
      {
        if v in Scores(front, a) {
          var r :| 0 <= r < |front| && front[r].assessment == a && front[r].score == v;
          assert results[r].assessment == a && results[r].score == v;
        }
      }
    }
  }

  ghost function ResultsScoring(results: seq<Result>, a: nat, v: int): set<nat> {
    set r: nat | r < |results| && results[r].assessment == a && results[r].score == v
  }

  lemma OneMoreResult(front: seq<Result>, last: Result, a: nat, v: int)
    ensures |ResultsScoring(front + [last], a, v)|
            == |ResultsScoring(front, a, v)| + if last.assessment == a && last.score == v then 1 else 0
  {
    var here := last.assessment == a && last.score == v;
    assert ResultsScoring(front + [last], a, v) == ResultsScoring(front, a, v) + if here then {|front|} else {};
  }

  /** Every result of the assessment is counted, as often as its score occurs. */
  lemma {:induction false} EveryResultCounts(results: seq<Result>, a: nat, v: int)
    ensures multiset(Scores(results, a))[v] == |ResultsScoring(results, a, v)|
  {
    if results == [] {
    } else {
      var front, last := results[..|results| - 1], results[|results| - 1];
      EveryResultCounts(front, a, v);
      OneMoreResult(front, last, a, v);
      assert results == front + [last];
    }
  }

  /** On an assessment whose marks add up to its total, all three figures lie between minus the
      negative marks and the total after every run. */
  lemma AnalyticsWithinTotal(s: Store, requests: seq<Request>, a: nat, report: Analytics)
    requires Inv(s) && AssessMarks.Balanced(s, a) && IsAnalytics(report, Run(s, requests), a)
    requires Scores(Run(s, requests).results, a) != []
    requires Decimals.Abs(Sum(Scores(Run(s, requests).results, a))) * 100 < Decimals.Pow10(Decimals.DEFAULT - 1)
    ensures -(NegativesOf(s, a) as int) <= report.lowest.value <= report.average.value <= report.highest.value
            <= s.assessments[a].totalMarks
  {
    var t := Run(s, requests);
    AverageBetween(report, t, a);
    ScoresAreResults(t.results, a);
    OneWithinTotal(s, requests, a, report.lowest.value);
    OneWithinTotal(s, requests, a, report.highest.value);
  }

  lemma OneWithinTotal(s: Store, requests: seq<Request>, a: nat, score: int)
    requires Inv(s) && AssessMarks.Balanced(s, a)
    requires var t := Run(s, requests);
      exists r :: 0 <= r < |t.results| && t.results[r].assessment == a && t.results[r].score == score
    ensures -(NegativesOf(s, a) as int) <= score <= s.assessments[a].totalMarks
  {
    var t := Run(s, requests);
    var r :| 0 <= r < |t.results| && t.results[r].assessment == a && t.results[r].score == score;
    AssessHistory.RunEvolves(s, requests);
    assert ResultAgrees(t, r);
    AssessMarks.ScoreWithinTotal(s, requests, a, t.results[r].attempt, r);
  }
}
