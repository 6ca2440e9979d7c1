# Verified models of the PrepSuite backend

PrepSuite is a multi-tenant learning-management backend. Most of it reads and writes rows; this
project models the parts where rows interact: assessment attempts and their scores, refresh-token
families, the login limiter, question sets and their totals, reordering under unique constraints,
cursor pagination, attendance and live-class durations.

Each part comes twice. A store is a value and each request is a function from a store (and a
request) to a store and an outcome, with the branches, the order of the checks and the errors of
the service; the theorems are about every run of such requests. Beside it a class holds the same
tables as fields and updates them in place, with the loops of the service, and each of its methods
is proved to do to its tables exactly what the request function says. What each request function
does, and when it refuses, is stated without it in the `...Requests` modules (for courses and the
limiter beside the request functions).

One tenant is modelled, and one request is one atomic step: an error raised before the commit
changes nothing, an error raised after one (reuse of a refresh token, an expired refresh token)
keeps what was committed. Tables whose rows are never deleted are sequences and an id is a
position, so a generated id is fresh. Amounts are integers: hundredths of a mark, hundredths of a
percent, seconds or microseconds, each module says which.

| file | models |
|---|---|
| `Decimals.dfy` | percentages and averages as Python's `decimal` computes them |
| `Assess.dfy`, `AssessInvariants.dfy`, `AssessHistory.dfy`, `AssessMarks.dfy`, `AssessAnalytics.dfy`, `AssessRequests.dfy`, `AssessExample.dfy`, `AssessService.dfy` | assessments, attempts, answers, evaluations, results |
| `QuestionSets.dfy`, `QuestionSetInvariants.dfy`, `QuestionSetTotals.dfy`, `QuestionSetRequests.dfy`, `QuestionSetService.dfy` | question sets, their totals and histograms |
| `Reorder.dfy`, `CourseOrder.dfy` | the two-phase reorder, of one table and of a course |
| `ScopedTokens.dfy`, `RefreshTokens.dfy`, `TokenFamilies.dfy`, `TokenRequests.dfy`, `TokenService.dfy` | scoped tokens and refresh-token families |
| `LoginLimiter.dfy` | the sliding-window login limiter |
| `Keyset.dfy` | cursor pagination |
| `Attendance.dfy`, `Grouping.dfy`, `AttendanceSummaries.dfy`, `AttendanceRequests.dfy`, `AttendanceService.dfy` | attendance and its summaries |
| `LiveClasses.dfy`, `LiveDurations.dfy`, `LiveRequests.dfy`, `LiveService.dfy` | live-class participants and their durations |
| `Options.dfy`, `Counting.dfy` | optional values, idempotency keys, counting |

Where a property one would expect is false of the code, the exact condition is proved:

* An attempt's score is the sum of its answers' scores when it is finalized, but grading an answer
  of an EVALUATED attempt again does not finalize it again; a score that was right stays right
  exactly when the new grade equals the old one (`AssessHistory.RegradingLeavesScore`;
  `AssessExample.RegradingGoesStale` is a run after which it is wrong).
* A set's right total goes stale exactly when a question's marks are edited that the set counts;
  adding or removing an item sets it right (`QuestionSetTotals.TotalAfterStep`,
  `QuestionSetInvariants.UpToDateAfterChange`; `QuestionSetTotals.EditMakesTotalStale` is a run that
  leaves it stale).
* A set counts an override of zero as zero, an assessment takes it as missing. Overrides are
  positive when requested, but one below half a hundredth is stored as 0.00. The set's total is the
  sum of the assessment's marks exactly when no such override hides a question's marks
  (`AssessMarks.MarksConserved`; `AssessMarks.OverrideStoredAsZero` is a run that hides one). A
  percentage can exceed 100.00 only when marks are hidden (`AssessMarks.ExcessNeedsHiddenMarks`);
  `AssessExample.FullMarksBeyondTotal` is a run that ends at 200.00.
* A reorder may collide with rows above index 100000, where rows are parked. It succeeds in every
  order in which the database may take the rows exactly when the request keeps clear of them
  (`Reorder.ReorderNeverCollides`; `Reorder.ParkingCollides` is a case that fails). Up to index
  100000 the order does not matter: the reorder succeeds in every order when the requested indexes
  are distinct and free, and in none when they are not (`Reorder.SucceedsIffClear`).
* A live-class participant who arrives again before leaving loses the time since the first arrival,
  and one who leaves again is credited the time since the latest arrival once more. The total is
  the time in class less the first and plus the second
  (`LiveDurations.TotalIsTimeInClassCorrected`), so it is right exactly when they are equal; each
  vanishes under a condition of its own (`LiveDurations.TotalIsTimeInClassIff`).
  `LiveDurations.ArrivingTwiceLosesTime` and `LiveDurations.LeavingTwiceCountsTwice` are cases.
* The login limiter prunes from the left and forgets for good, so once the clock has stepped back
  its queue may hold old failures behind a recent one and lack recent ones it dropped earlier. It
  is as long as a count over the whole history says exactly when these are equally many, and
  otherwise some limit decides differently (`LoginLimiter.SteppingBackAgreesIff`). Neither kind
  exists exactly when the recorded times say so: none dropped is within the window, and none in the
  queue is too old behind one that is not (`LoginLimiter.LookCleanIff`). A series of logins whose
  every look is like that is decided as the count would (`LoginLimiter.CleanSeriesAgrees`), and a
  clock that does not step back makes every look so. `LoginLimiter.OldFailureStuck` and
  `LoginLimiter.RecentFailureDropped` are series decided differently.
* A lesson created at an index that is taken is refused before the handler that would turn the
  database error into `lesson_order_conflict`; both are one outcome here.

## Model

| member | source | states |
|---|---|---|
| Decimals.PercentageIsExact | app/modules/assess/service.py:931-937 | dividing to 28 digits with ties to even, multiplying by 100 and quantizing with ROUND_HALF_UP gives the exact percentage rounded once, ties away from zero, for every amount of up to 23 digits; the columns hold 10 |
| Decimals.DoubleRounding | app/modules/assess/service.py:931-937 | why: rounding to a unit that divides every half-integer, and then to an integer, is the same as rounding once |
| Decimals.HalfEvenIsNearest | app/modules/assess/service.py:931-937 | the context's rounding goes to the nearest integer, and of two equally near ones to the even one |
| Decimals.DropIsLeast | app/modules/assess/service.py:931-937 | a quotient too long for the context loses no more digits than it must |
| Decimals.PercentageIsMonotone | app/modules/assess/service.py:931-937 | a larger score never has a smaller percentage |
| Decimals.PercentageAtMostHundred | app/modules/assess/service.py:931-937 | a score up to the total, however many digits, is at most 100.00 percent, exactly 100.00 when they are equal, and never negative when the score is not |
| Decimals.AverageIsExact | app/modules/assess/service.py:939-945 | the analytics average is the exact quotient rounded once, ties away from zero |
| AssessAnalytics.Report | app/modules/assess/service.py:542-569 | passing over the results gives the average, highest and lowest score of the assessment's results, and none of them when there are no results |
| AssessAnalytics.EveryResultCounts | app/modules/assess/service.py:542-545 | each score is taken into the three figures as often as the assessment has results with it |
| AssessAnalytics.AverageBetween | app/modules/assess/service.py:546-569 | the rounded average lies between the lowest and the highest score |
| AssessAnalytics.AnalyticsWithinTotal | app/modules/assess/service.py:546-569 | on an assessment whose marks add up to its total, after every run all three lie between minus the negative marks and the total |
| AssessInvariants.CountingDecidesCompleteness | app/modules/assess/service.py:642-657 | comparing the number of answered questions with the number of questions decides whether every question of the assessment has an evaluated answer, because answers are one per question and only on that assessment's questions |
| AssessInvariants.ScoreWithinMarks | app/modules/assess/service.py:602-617 | the sum of an attempt's answer scores lies between minus the negative marks and the marks of its assessment |
| AssessInvariants.StepPreserves | app/modules/assess/service.py:97-640 | every request keeps the foreign keys, the unique constraints, scores within marks, verdicts that match completeness, and one agreeing evaluation and result per evaluated attempt |
| AssessRequests.RepliesAsAsked | app/modules/assess/service.py:341-393 | an answer is added exactly while its attempt is STARTED, to a question of its assessment that is still in the bank and has no answer of the attempt; a choice or true-false answer is graded at once, right if and only if the options named are exactly the correct ones, for the marks when right and minus the negative marks when wrong; any other waits without verdict or score |
| AssessRequests.ReplyRefused | app/modules/assess/service.py:350-378 | an answer is refused for a missing attempt, then for one that is not STARTED, then for a question of another assessment, and then for an answer that is there, unless its key is repeated |
| AssessRequests.GoneQuestionRefused | app/modules/assess/service.py:571-579 | a question that left the bank cannot be answered, which is found out after all other checks |
| AssessRequests.AnswersAreGraded | app/modules/assess/service.py:571-600 | in every reachable state an answer graded automatically scores its question's marks when right and minus its negative marks when wrong, one graded by hand has a grader and a score that is not negative, and one that waits has neither score nor verdict |
| AssessRequests.ScoreIsEarned | app/modules/assess/service.py:602-617 | the request that makes an attempt EVALUATED sets its score to the sum, over the questions, of what it earned at each |
| AssessRequests.SubmitsAsAsked | app/modules/assess/service.py:395-434 | submitting a STARTED attempt with an answer stamps it and closes it, at once EVALUATED if and only if every question has an evaluated answer, and touches nothing else; without answers it is refused |
| AssessRequests.SubmitRefused | app/modules/assess/service.py:402-415 | submitting again changes nothing and succeeds; only a missing attempt or one without answers is refused |
| AssessRequests.GradesAsAsked | app/modules/assess/service.py:460-508 | a grade up to the question's marks goes to that answer alone, and finalizes in the name of whoever graded exactly a submitted attempt that it makes complete; a higher one is refused |
| AssessRequests.StartsAsAsked | app/modules/assess/service.py:304-339 | a start is accepted exactly for an existing assessment that is scheduled or live, within its window with both ends included, and for an existing student of its batch; it adds one attempt, or none when there is one |
| AssessRequests.PublishesResults | app/modules/assess/service.py:510-540 | publishing stamps every result of the assessment and no other, makes it PUBLISHED, and is refused exactly when there is no result |
| AssessRequests.CreatesAsAsked | app/modules/assess/service.py:97-171 | a new assessment is a draft with the window, batch and total asked for; it is refused for a set that is missing, empty, or repeats an index or a question |
| AssessRequests.UpdatesAsAsked | app/modules/assess/service.py:212-242 | an update replaces batch and window exactly of an assessment that is a draft or scheduled |
| AssessRequests.SchedulesAsAsked | app/modules/assess/service.py:244-268 | scheduling sets the window and the status, whatever the status was, exactly when there is a question |
| AssessRequests.PublishesAsAsked | app/modules/assess/service.py:270-302 | publishing makes an assessment live exactly from draft, scheduled or live, and with both ends of the window set or by force |
| AssessHistory.EvaluatedIffComplete | app/modules/assess/service.py:350-387 | in every reachable state an attempt past STARTED is EVALUATED if and only if every question of its assessment has an evaluated answer |
| AssessHistory.OneRecordOfEachKind | app/modules/assess/service.py:602-640 | in every reachable state an attempt has exactly one evaluation and one result if it is EVALUATED, with score, evaluation total, result score and percentage in agreement, and none and no score otherwise |
| AssessHistory.FinalizedForGood | app/modules/assess/service.py:404-405 | once EVALUATED, the attempt, its evaluation, and its result's score and percentage stay the same over every later run |
| AssessHistory.ScoreIsSumWhenFinalized | app/modules/assess/service.py:602-617 | the request that makes an attempt EVALUATED sets its score to the sum of its answers' scores |
| AssessHistory.RunEvolves | app/modules/assess/service.py:304-508 | over every run attempts only move forward, answers are written once and only while their attempt is STARTED, total marks never change, and evaluations and results are only added |
| AssessHistory.StartIsIdempotent | app/modules/assess/service.py:315-317 | starting again changes nothing and finds the same attempt |
| AssessHistory.AnswerIsIdempotent | app/modules/assess/service.py:358-378 | answering a question again changes nothing: the same key, unless empty, gets the same answer back, and anything else is refused |
| AssessHistory.SubmitIsIdempotent | app/modules/assess/service.py:404-405 | submitting again, with any arguments, changes nothing and succeeds |
| AssessHistory.RegradingLeavesScore | app/modules/assess/service.py:498-502 | grading an answer of an EVALUATED attempt leaves attempt, evaluations and results alone; afterwards its score is the sum of its answers' scores if and only if the change of grade is what the score was off before |
| AssessExample.RegradingGoesStale | app/modules/assess/service.py:498-502 | a run from the empty store: an essay graded 1.00, which finalizes the attempt, and then 0.50, after which the attempt still has 1.00 |
| AssessMarks.TotalsAgree | app/modules/question/service.py:728-730 | a set's total is at most the marks an assessment would copy, and equal if and only if no override stored as zero hides a question's marks |
| AssessMarks.MarksConserved | app/modules/assess/service.py:127-160 | in every reachable state of assessments and question sets: if since the last item added to or removed from a non-empty set no edit changed marks the set counts, whatever else ran, an assessment can be made of it, its total, its section's total and the set's total are one number, and that is the sum of its questions' marks under the condition of TotalsAgree |
| AssessMarks.OverrideStoredAsZero | app/modules/assess/service.py:145-147 | a run after which a set says 0.00 of a question that an assessment takes as 1.00 |
| AssessMarks.ExcessNeedsHiddenMarks | app/modules/assess/service.py:618-636 | in every reachable state a result's score is at most the marks of the assessment's questions, so it passes the total, and its percentage 100.00, only when those pass the total |
| AssessExample.FullMarksBeyondTotal | app/modules/assess/service.py:145-160 | a run from the empty store in which an override stored as zero makes full marks 200.00 percent |
| AssessMarks.SortedInOrder | app/modules/assess/service.py:142-159 | an assessment copies a set's questions in the order of their indexes, none lost and none twice |
| AssessMarks.RowCopiesLine | app/modules/assess/service.py:142-159 | each question row carries its item's question, index, effective marks and negative marks |
| AssessMarks.CreateCopiesSet | app/modules/assess/service.py:136-160 | a new assessment made of a set gets one section with the set's total and, after the questions there are, one question for each line of the set in the order of their indexes, with the line's question, index, copied mark and negative marks |
| AssessMarks.BalancedForever | app/modules/assess/service.py:136-159 | an assessment whose marks add up to its total stays so over every run |
| AssessMarks.ScoreWithinTotal | app/modules/assess/service.py:618-636 | on such an assessment every result's score is between minus the negative marks and the total, and its percentage is at most 100.00, and 100.00 for full marks |
| AssessMarks.ConservedScoresWithinTotal | app/modules/assess/service.py:618-636 | so over every run after an assessment is made of a set as in MarksConserved, every result of it has a score up to the set's total and at most 100.00 percent |
| AssessService.Service.Create | app/modules/assess/service.py:97-171 | creates assessment, section and question rows, or refuses, exactly as the request function says |
| AssessService.Service.AllEvaluated | app/modules/assess/service.py:642-657 | filling the dictionary and walking over it computes the test on cardinalities and statuses |
| AssessService.Service.FinalizeAttempt | app/modules/assess/service.py:602-640 | summing the scores in a loop and writing attempt, evaluation and result does what Finalize says |
| AssessService.Service.Submit | app/modules/assess/service.py:395-434 | the same for submit_attempt |
| AssessService.Service.Grade | app/modules/assess/service.py:460-508 | the same for evaluate_answer |
| AssessService.Service.PublishAll | app/modules/assess/service.py:510-540 | the same for publish_results, a loop over the results |
| QuestionSetInvariants.TallyCounts | app/modules/question/service.py:727-732 | a counter has a key exactly when a line has it, with the number of such lines, and its values add up to the number of lines |
| QuestionSetInvariants.DistributionsCountItems | app/modules/question/service.py:723-735 | after every run the values of either distribution of a set add up to the number of its items |
| QuestionSetInvariants.UpToDateAfterChange | app/modules/question/service.py:445-447 | after any run, right after an item is added or removed, the set's total is the sum of the effective marks and each count is the number of items with that key |
| QuestionSetRequests.AddsAsAsked | app/modules/question/service.py:414-458 | an item is added exactly when set and question exist, the set lacks the question, and an index asked for is free in the set; it gets that index, or the one after the largest, and only its set's row is rewritten |
| QuestionSetRequests.AddCounts | app/modules/question/service.py:440-447 | from a right total, adding an item makes it the old total and the mark the set counts for the item |
| QuestionSetRequests.RemovesAsAsked | app/modules/question/service.py:499-521 | removal is accepted exactly for an item of the set; that item alone goes, all others keep their order, and only its set's row is rewritten |
| QuestionSetRequests.RemoveCounts | app/modules/question/service.py:515-517 | from a right total, removing an item makes it the old total less the mark the set counted for the item |
| QuestionSetRequests.ReorderChecks | app/modules/question/service.py:460-484 | a reorder is refused for a missing set, then for an item listed twice, then for an item not in the set, and otherwise the flushes decide |
| QuestionSetRequests.ReorderTouches | app/modules/question/service.py:460-497 | a reorder rewrites order indexes and nothing else |
| QuestionSetRequests.QuestionsAsAsked | app/modules/question/service.py:234-350 | questions come and change as asked, exactly unless they would lose more marks than they give |
| QuestionSetTotals.TotalAfterStep | app/modules/question/service.py:329-333 | after any request a right total is still right if and only if the request does not change the marks of a question whose marks the set counts |
| QuestionSetTotals.CountsAfterStep | app/modules/question/service.py:329-333 | after any request right histograms are still right if and only if the request does not change the difficulty or topic of a question of the set |
| QuestionSetTotals.RightSinceLastChange | app/modules/question/service.py:723-735 | from the empty store: since the last item added or removed the total stays right while the marks it counts are kept, and the histograms while difficulties and topics are, whatever else runs |
| QuestionSetTotals.EditMakesTotalStale | app/modules/question/service.py:329-333 | a run after which a set says 1.00 of a question edited to 0.50 |
| QuestionSetInvariants.DefaultIndexIsFree | app/modules/question/repository.py:313-319 | adding an item without an index is refused only when its question is already in the set |
| QuestionSetInvariants.ItemsStayDistinct | app/modules/question/service.py:414-521 | in every reachable state the items of a set have distinct questions and indexes |
| QuestionSetInvariants.ReorderWorksIff | app/modules/question/service.py:460-493 | with indexes up to 100000, in every order of the rows within either flush, a reorder moves exactly the listed items to the indexes asked for when those are distinct and clear of unlisted items, and is refused without a trace when they are not |
| QuestionSetService.Service.Recalculate | app/modules/question/service.py:723-735 | one pass over the lines by index computes the set's total and both histograms |
| QuestionSetService.SortingKeepsTotals | app/modules/question/repository.py:294-311 | the order in which the lines are read matters neither to the total nor to a histogram |
| QuestionSetService.Service.Add | app/modules/question/service.py:414-458 | does what the request function says, conflicts included |
| QuestionSetService.Service.Remove | app/modules/question/service.py:499-521 | the same for removing an item |
| QuestionSetService.Service.ReorderSet | app/modules/question/service.py:460-497 | the same for the reorder: park, flush, assign, flush, and nothing kept on a collision |
| Reorder.ReorderNeverCollides | app/modules/question/service.py:485-493 | both flushes succeed and leave exactly the requested indexes, in every order of the rows, if and only if the request is clear of the parking places in use and of the indexes kept or taken by others |
| Reorder.SucceedsIffClear | app/modules/question/service.py:485-493 | below the parking range every order of the rows leaves exactly the requested table when the requested indexes are distinct within each group and free, and every order fails when they are not |
| Reorder.UnclearFails | app/modules/question/service.py:488-491 | a request whose indexes clash or are taken fails in every order, with indexes of any size |
| Reorder.FlushKeepsUnique | app/modules/question/service.py:485-493 | after every single-row update of a flush the order indexes of a group are distinct |
| Reorder.ParkedPlaces | app/modules/question/service.py:485-486 | parking places are distinct and just above 100000 |
| Reorder.ParkingCollides | app/modules/question/service.py:485-487 | a request clear of every other row still fails when a row already sits at a parking place |
| Reorder.TargetIsRequested | app/modules/question/service.py:488-490 | the assigning loop gives each listed row the index its entry asks for |
| Reorder.ParkAll | app/modules/question/service.py:485-486 | the parking loop computes the parking places |
| Reorder.AssignAll | app/modules/question/service.py:488-490 | the assigning loop computes the targets |
| CourseOrder.CourseReorderWorksIff | app/modules/learn/service.py:384-435 | with indexes up to 100000, in every order of the rows, a course reorder moves exactly the listed modules and lessons to the indexes asked for when module indexes are distinct and free in the course and lesson indexes in their modules, although the lessons of all modules are parked in one range, and is refused without a trace when they are not |
| CourseOrder.IndexesStayDistinct | app/modules/learn/service.py:245-439 | after every run of creating, moving and reordering, indexes are distinct among a course's modules and among a module's lessons |
| CourseOrder.DefaultIndexIsFree | app/modules/learn/repository.py:174-181 | a module or lesson created without an index is never refused |
| CourseOrder.PlacesAsAsked | app/modules/learn/service.py:245-382 | a module goes to its course and a lesson to its module, at the index asked for exactly when it is free there, or after the largest; moving one is accepted exactly when no other row of the group has the index, and nothing else changes |
| CourseOrder.ReorderChecks | app/modules/learn/service.py:384-414 | a course reorder is refused for a missing course, then for a module listed twice, then a lesson listed twice, then one of another course, and otherwise the flushes decide |
| CourseOrder.Service.Reorder | app/modules/learn/service.py:384-439 | the same for the reorder, with its checks in order |
| ScopedTokens.UuidRoundTrip | app/modules/access/service.py:717-718 | the text of a UUID (section 4 of RFC 9562) reads back, has 36 characters and no dot |
| ScopedTokens.ScopeRoundTrip | app/modules/access/service.py:710-739 | every scoped token, whatever its secret and with either id missing, parses back to its tenant and user |
| ScopedTokens.BuildIsInjective | app/modules/access/service.py:710-719 | tokens of different scopes or secrets differ |
| ScopedTokens.ParsedTokens | app/modules/access/service.py:725-728 | only texts with two dots, and a UUID or the placeholder before each, parse |
| ScopedTokens.UuidGroups | app/modules/access/service.py:717-718 | the text of a UUID has hyphens at positions 8, 13, 18 and 23 and its digits in between |
| ScopedTokens.HexDigitsAre | app/modules/access/service.py:717-718 | the digits are 0 to 9 and lower-case a to f, and upper-case ones read the same |
| ScopedTokens.TokenText | app/modules/access/service.py:710-719 | a token is tenant, user and secret with dots between, in that order |
| TokenFamilies.FamiliesAreLinear | app/modules/access/service.py:297-304 | in every reachable state a family is one chain of one user and tenant with one root, and only its last token can be active |
| TokenFamilies.SuccessorIffNotLast | app/modules/access/service.py:646-649 | parent and successor links are inverse; a token has a successor exactly when it is not the last of its family, and a rotated one always has |
| TokenFamilies.FamilyIsChain | app/modules/access/service.py:646-649 | following successor links from a token arrives at every newer token of its family |
| TokenFamilies.ReuseEndsFamily | app/modules/access/service.py:276-286 | presenting a token that is not active leaves the family without an active token for good, and no token is ever added to it |
| TokenFamilies.RevokedForGood | app/modules/access/service.py:316-319 | after logging out everywhere or resetting the password, no token issued to the user before ever refreshes again |
| TokenFamilies.ExchangedOnce | app/modules/access/service.py:297-304 | a token is exchanged at most once |
| TokenFamilies.RefreshSucceedsExactlyWhen | app/modules/access/service.py:248-307 | an issued token is exchanged if and only if it is active, not expired, its user is active and the new token is not one issued before; then exactly one row is added, linked both ways |
| TokenFamilies.IssuedTokensAreFound | app/modules/access/service.py:254-274 | the scope check never rejects a token the service issued |
| TokenFamilies.ResetWorksOnce | app/modules/access/service.py:356-374 | a password reset token works at most once |
| TokenRequests.LogoutEndsSession | app/modules/access/service.py:308-336 | in every reachable state, logging out one session with its own token succeeds, revokes that token and leaves every other as it was; in every later state the token is not active, and presenting it is reuse |
| TokenRequests.LogoutRefused | app/modules/access/service.py:327-333 | a logout that names another user's token, one nobody issued, or none is refused and changes nothing |
| TokenRequests.LogoutEverywhere | app/modules/access/service.py:316-319 | logging out everywhere revokes the user's active tokens and touches no other row |
| TokenRequests.RefusedRefreshTouches | app/modules/access/service.py:276-295 | a refused refresh marks the token's family and no other token when the token is not active, revokes it alone when it has expired, and changes nothing when its user is not active |
| TokenRequests.RefreshTouches | app/modules/access/service.py:297-304 | an exchange marks the token rotated, with its successor, and adds one active token of the same family, user and tenant; every other row stays |
| TokenRequests.LogsInAsAsked | app/modules/access/service.py:186-246 | a login of an active user adds one active token that starts a family and lasts 30 days; a refused one changes nothing |
| TokenRequests.UnknownTokenRefused | app/modules/access/service.py:254-274 | presenting a text that does not parse, or that nobody issued, changes nothing and each is refused in its own way |
| TokenRequests.UsesResetAsAsked | app/modules/access/service.py:356-374 | a reset that works marks itself used, revokes its user's active tokens and touches nothing else |
| TokenRequests.ResetWorksExactlyWhen | app/modules/access/service.py:356-374 | in every reachable state a reset that was asked for works if and only if it is unused and half an hour has not passed |
| TokenRequests.AsksResetAsAsked | app/modules/access/service.py:338-354 | asking adds a reset good for half an hour, and for an unknown user succeeds without one |
| TokenService.Service.Present | app/modules/access/service.py:248-307 | does what the request function says, with what stays committed after an error |
| TokenService.Service.IssueToken | app/modules/access/service.py:618-666 | adds the row and links its parent, or refuses a repeated token |
| TokenService.Service.LogIn | app/modules/access/service.py:186-246 | a login with the right password starts a family, exactly as the request function says |
| TokenService.Service.LogOut | app/modules/access/service.py:308-336 | the same for logout |
| TokenService.Service.UseReset | app/modules/access/service.py:356-374 | the same for confirming a reset |
| TokenService.Service.RevokeFamilyRows | app/modules/access/repository.py:191-196 | marks every row of the family, whatever its status, and no other |
| TokenService.Service.RevokeUserRows | app/modules/access/repository.py:198-207 | revokes the user's active rows and no other |
| LoginLimiter.QueueDecidesAsReference | app/modules/access/service.py:89-106 | with a clock that does not step back, the pruned queue lets exactly those logins through that a count over all failures since the last reset would |
| LoginLimiter.SerialLoginsAreThrottled | app/modules/access/service.py:197-245 | in serial logins no closed window holds more failures since the last reset than the limit |
| LoginLimiter.QueueCounts | app/modules/access/service.py:89-95 | the queue's length after pruning is the number of failures within the window in the whole history |
| LoginLimiter.SteppingBackAgreesIff | app/modules/access/service.py:90-95 | however the clock moved, the pruned queue is as long as the number of recent failures in the whole history if and only if as many recent ones were dropped earlier as old ones are kept, and only then does every limit decide alike |
| LoginLimiter.LookCleanIff | app/modules/access/service.py:90-95 | nothing is wrongly dropped and nothing wrongly kept if and only if no dropped failure lies within the window and no failure in the queue before the window comes after one within it |
| LoginLimiter.CleanSeriesAgrees | app/modules/access/service.py:89-106 | with any clock, a series of logins whose every look is so is decided as the count over the whole history decides it |
| LoginLimiter.OrderedSeriesIsClean | app/modules/access/service.py:89-106 | a clock that does not step back makes every look so |
| LoginLimiter.OldFailureStuck | app/modules/access/service.py:93-95 | a series in which an old failure stuck behind a recent one refuses a login |
| LoginLimiter.RecentFailureDropped | app/modules/access/service.py:93-95 | a series in which a recent failure dropped earlier lets a login through |
| LoginLimiter.PopLeft | app/modules/access/service.py:93-95 | the popleft loop keeps the queue in step with the history, and its length decides as the reference does |
| LoginLimiter.Limiter.AssertAllowed | app/modules/access/service.py:89-100 | allows exactly when fewer failures than the limit were recorded for the key since its last reset within the window |
| LoginLimiter.Limiter.RecordFailure | app/modules/access/service.py:102-103 | adds one failure to the key's history and no other |
| LoginLimiter.Limiter.Reset | app/modules/access/service.py:105-106 | forgets the key's history and no other |
| LoginLimiter.Limiter.LogIn | app/modules/access/service.py:197-245 | the limiter's part in a login: ask, then record or reset, or neither when the login raises something else |
| Keyset.ListForTenant | app/modules/question/repository.py:143-158 | fetching one row more and slicing computes the page, its cursor and whether there are more |
| Keyset.FullListDescends | app/modules/question/repository.py:163-172 | the sorted list holds exactly the matching rows, by created_at and then id, both descending |
| Keyset.NewestFirst | app/modules/question/repository.py:163-172 | of two listed rows the later one was created earlier, or at the same time with the smaller id |
| Keyset.PageIsSound | app/modules/question/repository.py:143-158 | a page's rows match, lie below the incoming cursor, and come in order with none below the outgoing one |
| Keyset.PageIsComplete | app/modules/question/repository.py:143-158 | a matching row below the incoming cursor is on the page or below the outgoing cursor |
| Keyset.WalkDescends | app/modules/question/repository.py:143-158 | following the cursors yields strictly decreasing keys, whatever changes between the calls |
| Keyset.WalkIsSound | app/modules/question/repository.py:143-158 | every row collected matched in the table that one of the calls saw |
| Keyset.WalkCollectsOnce | app/modules/question/repository.py:143-158 | a row that is there and matches at every call of a finished walk is collected exactly once, whatever else is inserted or deleted |
| Keyset.UnchangedWalk | app/modules/question/repository.py:143-158 | on a table that does not change, the walk yields the full sorted list, and finishes exactly when given that many calls |
| Keyset.CallsAreCeiling | app/modules/question/repository.py:154-157 | that many is the number of rows over the limit, rounded up, and at least one |
| Keyset.CursorRoundTrip | app/modules/question/repository.py:32-40 | a cursor's text splits back into time and id if and only if the time has no bar |
| Attendance.ReachableRecords | app/modules/attend/service.py:74-463 | in every reachable state statuses are known ones, there is one record per student and session and one per employee and day, and no check-out is before its check-in |
| AttendanceSummaries.SelectedStudents | app/modules/attend/repository.py:69-98 | a student summary looks at exactly the records of sessions in the date range, of the batch and of the student asked for |
| AttendanceSummaries.SelectedEmployees | app/modules/attend/repository.py:129-151 | the same for employees, by the record's own date |
| Attendance.MarkingTakesTheLast | app/modules/attend/service.py:118-147 | marking leaves each listed student one record with the last status listed, the only one since a request with repeated students is refused before, and every other record as it was |
| Attendance.CheckInAgain | app/modules/attend/service.py:246-258 | a check-in sent again changes nothing: accepted with an idempotency key, refused without |
| Attendance.ClosedForGood | app/modules/attend/service.py:391-396 | a correction is reviewed at most once and never changes afterwards |
| AttendanceRequests.MarkIsRecorded | app/modules/attend/service.py:104-167 | each mark ends as a record of its student in the session with the text of its status, for a request that names each student once |
| AttendanceRequests.UnmarkedStay | app/modules/attend/service.py:118-147 | a student who is not marked keeps the record, or goes without one, and so does everyone in another session |
| AttendanceRequests.MarksAsAsked | app/modules/attend/service.py:104-167 | marking is accepted exactly for a session neither locked nor cancelled and for students of its batch; it submits the session when asked to |
| AttendanceRequests.UpdatesAsAsked | app/modules/attend/service.py:169-198 | an update sets the status of that record alone, if one is given, exactly while its session is neither locked nor cancelled |
| AttendanceRequests.ChecksInAsAsked | app/modules/attend/service.py:237-276 | the first check-in of an employee's day is recorded as present at its time; any other is refused, or answered with the same record when it repeats its key |
| AttendanceRequests.ChecksOutAsAsked | app/modules/attend/service.py:278-318 | a check-out sets the time, and the status if one is given, of the record of that employee and day, and nothing else; it is refused exactly before the check-in or for an unknown employee |
| AttendanceRequests.NoCheckOutWithoutCheckIn | app/modules/attend/service.py:292-298 | nobody checks out on a day without a check-in |
| AttendanceRequests.RequestsAsAsked | app/modules/attend/service.py:352-381 | a correction is accepted exactly for a record that exists and a status of its kind, and waits |
| AttendanceRequests.ReviewsAsAsked | app/modules/attend/service.py:383-463 | a review of a pending correction never fails: approving closes it as approved and sets its record's status to the one requested, rejecting closes it as rejected, and nothing else changes |
| AttendanceRequests.ReviewRefused | app/modules/attend/service.py:391-396 | a review is refused for a missing correction or a closed one |
| AttendanceSummaries.StudentSummaryPartitions | app/modules/attend/service.py:222-235 | in every reachable state the items of a student summary have increasing ids and partition the selected records, and each item's counts partition its own |
| AttendanceSummaries.EmployeeSummaryPartitions | app/modules/attend/service.py:338-350 | the same for employees, whose records lie on distinct days, and the work seconds are the whole seconds of the closed intervals, the clamp at zero never firing |
| AttendanceSummaries.StudentItemCounts | app/modules/attend/service.py:483-496 | each figure of a student's item is the number of that student's selected records with its status |
| AttendanceSummaries.EmployeeItemCounts | app/modules/attend/service.py:498-525 | each figure of an employee's item is the number of that employee's selected records with its status |
| AttendanceSummaries.StudentPercentages | app/modules/attend/service.py:477-496 | each percentage is the exact share of the student's records whose status is present, late or excused, rounded once, between 0.00 and 100.00 |
| AttendanceSummaries.EmployeePercentages | app/modules/attend/service.py:498-525 | each percentage is the exact share of the employee's records, present and late ones weighing one and half days 0.50, rounded once, between 0.00 and 100.00 |
| AttendanceSummaries.StudentCountsAddUp | app/modules/attend/service.py:477-496 | the counts of an item add up to its records if and only if every status is a known one |
| AttendanceSummaries.ClampNeverFires | app/modules/attend/service.py:541-552 | the clamped seconds are the plain ones when nobody leaves before arriving |
| AttendanceSummaries.WorkIsSeconds | app/modules/attend/service.py:541-552 | a record counts its whole seconds from check-in to check-out, and none when one of them is missing or they are in the wrong order |
| Grouping.GroupBy | app/modules/attend/service.py:222-224 | the dictionary loop puts each record in the list of its id, in order |
| Grouping.SortedKeys | app/modules/attend/service.py:225-228 | the keys of the dictionary in increasing order, each once |
| Grouping.GroupsPartition | app/modules/attend/service.py:222-228 | the sizes of the groups add up to the number of records |
| AttendanceService.Service.MarkStudents | app/modules/attend/service.py:104-167 | the marking loop does what the request function says, a student outside the batch undoing all of it |
| AttendanceService.Service.Review | app/modules/attend/service.py:383-463 | the same for its review |
| AttendanceService.Service.SummarizeStudents | app/modules/attend/service.py:200-235 | returns a summary of the selected records, or refuses a date range that is backwards |
| AttendanceService.Service.SummarizeEmployees | app/modules/attend/service.py:320-350 | the same for employees |
| LiveClasses.ParticipantsAreIndependent | app/modules/live/service.py:439-463 | over every run, each participant ends as the events that reached it, alone and in order, leave it |
| LiveClasses.IdentityIsStable | app/modules/live/service.py:601-637 | an identity that has a participant keeps it, and the participant its identity |
| LiveClasses.ReachedAgain | app/modules/live/service.py:601-637 | an event that names someone reaches the same participant from then on |
| LiveClasses.EndingAgainDoesNothing | app/modules/live/service.py:336-337 | a second end changes nothing, even after late events |
| LiveRequests.ReachesFirst | app/modules/live/repository.py:140-163 | the participant an event names is the first that shares an id it gives, and a new one with the identity given when none does; nobody else changes |
| LiveRequests.ArrivesAsReported | app/modules/live/service.py:601-637 | arriving puts a participant in class from that time and keeps the seconds so far |
| LiveRequests.CapturesAsReported | app/modules/live/service.py:428-500 | reported events are applied in turn, whatever the status of the class, each to one participant |
| LiveRequests.LeavesAsReported | app/modules/live/service.py:452-463 | leaving takes a participant out of class at its time; a given total replaces the seconds so far, and otherwise the seconds since the latest arrival, if there was one, are added |
| LiveRequests.EndsAsAsked | app/modules/live/service.py:328-361 | ending closes the class unless it is cancelled; whoever is in class leaves now with the seconds since arriving added, and nobody else changes |
| LiveRequests.EntersAsAsked | app/modules/live/service.py:363-426 | an entry is refused when denied or to a class that is over or cancelled; otherwise the identity arrives now and nobody else changes |
| LiveRequests.StatusesAsAsked | app/modules/live/service.py:261-326 | exactly a scheduled class opens, and one neither ended nor cancelled can be cancelled; participants stay as they are |
| LiveDurations.TotalIsTimeInClassCorrected | app/modules/live/service.py:439-463 | when no total is given, the total is the whole seconds of the stays, each from the first arrival to the next departure, less what arriving again loses, plus what leaving again repeats |
| LiveDurations.TotalIsTimeInClassIff | app/modules/live/service.py:439-463 | so it is the time in class if and only if the two corrections are equal; nothing is repeated if and only if nobody who has left is reported as leaving a second or more after the latest arrival, and with events in order nothing is lost if and only if no stay has fewer whole seconds since the latest arrival than since the first |
| LiveDurations.ArrivingTwiceLosesTime | app/modules/live/service.py:634-636 | arriving at 0 and 5 and leaving at 10 seconds counts 5 |
| LiveDurations.TotalCountsOn | app/modules/live/service.py:452-463 | whatever the total is, acts that give none add to it what they count |
| LiveDurations.GivenTotalReplaces | app/modules/live/service.py:452-463 | a given total replaces whatever had been counted; afterwards the total is that one and what counts since |
| LiveDurations.RunGivenTotalReplaces | app/modules/live/service.py:428-463 | the same for every participant of every run, however the others' events interleave |
| LiveDurations.TotalWithinSpan | app/modules/live/service.py:452-463 | with events in order and nothing repeated, nobody is credited with more time than was spent in class or than has passed |
| LiveDurations.LeavingTwiceCountsTwice | app/modules/live/service.py:452-463 | arriving at 0 and leaving at 10 and 20 seconds counts 30 |
| LiveDurations.RunTotalsAreTimeInClassIff | app/modules/live/service.py:428-463 | the same corrected total, with the same conditions, for every participant of every run, however events of several participants interleave |
| LiveService.Service.Capture | app/modules/live/service.py:428-500 | the loop over the events does what the request function says, whatever the status of the class |
| LiveService.Service.Upsert | app/modules/live/service.py:601-637 | makes the participant of an identity or brings it up to date |
| LiveService.Service.End | app/modules/live/service.py:328-361 | the loop over the participants closes those in class |
| LiveService.Service.Enter | app/modules/live/service.py:363-426 | an admitted participant joins |

## Left out

- Transactions and locks: requests are atomic, so two refreshes or two answers that interleave inside a request are not modelled; the code takes no row lock there.
- Other tenants, roles, permissions, row-level security, events, logging and the HTTP layer.
- Sizes of columns: a percentage, score or duration too large for its column would be refused by the database.
- Hashing is taken as injective: rows hold a raw token where the original holds its hash. Passwords, access tokens and login sessions are not modelled.
- Settings are constants (token lifetimes) or parameters (the limiter's policy).
- The course, batch and student checks of assessments and attempts that only read other tables: they are parameters, or absent where a failed one just refuses the request.
- Marks with more than two decimals, except an override that rounds to zero.
- Question options, tags, topics, status changes and generation jobs.
- Spellings of a UUID that Python reads besides hexadecimal digits with hyphens anywhere (braces, a urn prefix): a token spelt that way was never issued, so it is refused as unknown rather than as malformed.
- Requests of the learn module that only touch other columns of a module or lesson; an index given as null.
- Ordering a page by title, status or difficulty: the cursor compares created_at and id, so a walk over such pages promises nothing.
- Base64 and the text of times in cursors.
- The order in which `find_identity` returns several matches, which the query leaves open: the first created is taken.
- Access rules, capacity and codes of live classes: whether an entry is denied is a parameter.
- Floating point in `total_seconds()`: seconds are exact quotients of microseconds.
- Counts in the analytics: only the average, highest and lowest score are modelled.
- LoginLimiter.Limiter.AssertAllowed: agrees with the count over the whole history for a clock that does not step back; for other clocks the lemmas on series of logins say when.
- LoginLimiter.SerialLoginsAreThrottled: speaks of logins one after the other; concurrent ones can all pass the check before any failure is recorded.
- AssessAnalytics.AverageBetween: stated for scores that add up to at most 25 digits in hundredths; beyond 28 digits the division itself no longer holds the scores.
- AttendanceSummaries.StudentPercentages: the exact share is stated for up to 10^23 records; beyond that only the range.
- QuestionSetInvariants.UpToDateAfterChange: holds right after a change of items; how long it lasts is what QuestionSetTotals states.
