/** The sliding-window login limiter (app/modules/access/service.py) against a limiter that
    remembers every failure since the last reset. Times are microseconds. */
module LoginLimiter {

  // The reference: counting over the whole history

  function CountSince(history: seq<int>, from: int): nat {
    if history == [] then 0
    else CountSince(history[..|history| - 1], from) + if history[|history| - 1] >= from then 1 else 0
  }

  function CountWithin(history: seq<int>, from: int, to: int): nat {
    if history == [] then 0
    else CountWithin(history[..|history| - 1], from, to) + if from <= history[|history| - 1] <= to then 1 else 0
  }

  ghost predicate Sorted(times: seq<int>) {
    forall i, j | 0 <= i < j < |times| :: times[i] <= times[j]
  }

  /** Dropping from the left everything before `from`. */
  function Prune(queue: seq<int>, from: int): seq<int> {
    if queue != [] && queue[0] < from then Prune(queue[1..], from) else queue
  }

  /** `queue` is what is left of `history` after dropping a front part before `cut`. */
  ghost predicate Prunes(queue: seq<int>, history: seq<int>, cut: int) {
    && |queue| <= |history| && queue == history[|history| - |queue|..]
    && forall i | 0 <= i < |history| - |queue| :: history[i] < cut
  }

  lemma {:induction false} CountSplits(front: seq<int>, back: seq<int>, from: int)
    ensures CountSince(front + back, from) == CountSince(front, from) + CountSince(back, from)
  {
    if back == [] {
      assert front + back == front;
    } else {
      var last := |back| - 1;
      CountSplits(front, back[..last], from);
      assert (front + back)[..|front + back| - 1] == front + back[..last];
    }
  }

  lemma {:induction false} CountNone(times: seq<int>, from: int)
    requires forall i | 0 <= i < |times| :: times[i] < from
    ensures CountSince(times, from) == 0
  {
    if times == [] {
    } else {
      CountNone(times[..|times| - 1], from);
    }
  }

  lemma {:induction false} CountAll(times: seq<int>, from: int)
    requires forall i | 0 <= i < |times| :: times[i] >= from
    ensures CountSince(times, from) == |times|
  {
    if times == [] {
    } else {
      CountAll(times[..|times| - 1], from);
    }
  }

  /** Pruning drops a front part before the cut. */
  lemma {:induction false} PruneDropsFront(queue: seq<int>, from: int)
    ensures Prunes(Prune(queue, from), queue, from)
    decreases |queue|
  {
    if queue == [] || queue[0] >= from {
    } else {
      PruneDropsFront(queue[1..], from);
      var kept := Prune(queue, from);
      forall i | 0 <= i < |queue| - |kept| ensures queue[i] < from { assert i > 0 ==> queue[i] == queue[1..][i - 1]; }
    }
  }

  /** On sorted times it leaves only the rest. */
  lemma {:induction false} PruneLeavesRecent(queue: seq<int>, from: int)
    requires Sorted(queue)
    ensures forall i | 0 <= i < |Prune(queue, from)| :: Prune(queue, from)[i] >= from
    decreases |queue|
  {
    if queue == [] || queue[0] >= from {
    } else {
      PruneLeavesRecent(queue[1..], from);
    }
  }

  /** Times dropped earlier are before any later cut. */
  lemma PrunesCompose(queue: seq<int>, history: seq<int>, cut: int, from: int)
    requires Prunes(queue, history, cut) && cut <= from
    ensures Prunes(Prune(queue, from), history, from)
  {
    PruneDropsFront(queue, from);
    var kept := Prune(queue, from);
    var start := |history| - |queue|;
    forall i | 0 <= i < |history| - |kept| ensures history[i] < from {
      if i >= start { assert history[i] == queue[i - start]; }
    }
  }

  lemma SuffixSorted(queue: seq<int>, history: seq<int>, cut: int)
    requires Sorted(history) && Prunes(queue, history, cut)
    ensures Sorted(queue)
  {
  }

  /** What is left of the history, all within the window, is the failures that count. */
  lemma LengthIsCount(kept: seq<int>, history: seq<int>, from: int)
    requires Prunes(kept, history, from)
    requires forall i | 0 <= i < |kept| :: kept[i] >= from
    ensures |kept| == CountSince(history, from)
  {
    var gone := |history| - |kept|;
    assert history == history[..gone] + kept;
    CountSplits(history[..gone], kept, from);
    CountNone(history[..gone], from);
    CountAll(kept, from);
  }

  /** What was dropped earlier does not count now, so the queue's length after pruning is the
      number of recent failures in the whole history. */
  lemma QueueCounts(queue: seq<int>, history: seq<int>, cut: int, from: int)
    requires Sorted(history) && Prunes(queue, history, cut) && cut <= from
    ensures |Prune(queue, from)| == CountSince(history, from)
    ensures Prunes(Prune(queue, from), history, from)
  {
    PrunesCompose(queue, history, cut, from);
    SuffixSorted(queue, history, cut);
    PruneLeavesRecent(queue, from);
    LengthIsCount(Prune(queue, from), history, from);
  }

  // A clock that steps back

  /** Failures too old for the window. */
  function CountBefore(times: seq<int>, from: int): nat {
    if times == [] then 0
    else CountBefore(times[..|times| - 1], from) + if times[|times| - 1] < from then 1 else 0
  }

  lemma {:induction false} CountsComplete(times: seq<int>, from: int)
    ensures CountSince(times, from) + CountBefore(times, from) == |times|
  {
    if times == [] {
    } else {
      CountsComplete(times[..|times| - 1], from);
    }
  }

  /** What every queue is, however the clock moves: the end of the history, in whatever order. */
  ghost predicate EndOf(queue: seq<int>, history: seq<int>) {
    |queue| <= |history| && queue == history[|history| - |queue|..]
  }

  ghost function Dropped(queue: seq<int>, history: seq<int>): seq<int>
    requires EndOf(queue, history)
  {
    history[..|history| - |queue|]
  }

  lemma PrunedIsEnd(queue: seq<int>, history: seq<int>, from: int)
    requires EndOf(queue, history)
    ensures EndOf(Prune(queue, from), history)
  {
    PruneDropsFront(queue, from);
  }

  /** Pruning drops nothing recent. */
  lemma {:induction false} PruningKeepsCount(queue: seq<int>, from: int)
    ensures CountSince(Prune(queue, from), from) == CountSince(queue, from)
    decreases |queue|
  {
    if queue == [] || queue[0] >= from {
    } else {
      PruningKeepsCount(queue[1..], from);
      CountSplits(queue[..1], queue[1..], from);
      assert queue == queue[..1] + queue[1..];
      CountNone(queue[..1], from);
    }
  }

  /** The pruned queue's length counts too many by the old failures kept behind a recent one,
      and too few by the recent failures dropped at an earlier look. */
  lemma PrunedLength(queue: seq<int>, history: seq<int>, from: int)
    requires EndOf(queue, history)
    ensures var kept := Prune(queue, from);
      |kept| + CountSince(Dropped(queue, history), from) == CountSince(history, from) + CountBefore(kept, from)
  {
    PruningKeepsCount(queue, from);
    CountsComplete(Prune(queue, from), from);
    assert history == Dropped(queue, history) + queue;
    CountSplits(Dropped(queue, history), queue, from);
  }

  /** However the clock moved before, pruning leaves the number of recent failures in the whole
      history if and only if as many recent ones were dropped earlier as old ones are kept; and
      when it does not, some limit decides the look differently. */
  lemma SteppingBackAgreesIff(queue: seq<int>, history: seq<int>, from: int)
    requires EndOf(queue, history)
    ensures |Prune(queue, from)| == CountSince(history, from) <==>
            CountSince(Dropped(queue, history), from) == CountBefore(Prune(queue, from), from)
    ensures (forall limit: nat :: SameVerdict(|Prune(queue, from)|, CountSince(history, from), limit)) <==>
            CountSince(Dropped(queue, history), from) == CountBefore(Prune(queue, from), from)
  {
    PrunedLength(queue, history, from);
    var kept, count := |Prune(queue, from)|, CountSince(history, from);
    if kept != count {
      var limit := if kept < count then count else kept;
      assert !SameVerdict(kept, count, limit);
    }
  }

  ghost predicate SameVerdict(kept: nat, count: nat, limit: nat) {
    kept < limit <==> count < limit
  }

  // A look at which both errors vanish

  /** No dropped failure lies within the window, and in the queue no failure before the window
      comes after one within it. */
  ghost predicate LookClean(queue: seq<int>, history: seq<int>, from: int)
    requires EndOf(queue, history)
  {
    && (forall i | 0 <= i < |Dropped(queue, history)| :: Dropped(queue, history)[i] < from)
    && OldFirst(queue, from)
  }

  ghost predicate OldFirst(queue: seq<int>, from: int) {
    forall i, j | 0 <= i < j < |queue| && queue[i] >= from :: queue[j] >= from
  }

  lemma {:induction false} NoneRecentIff(times: seq<int>, from: int)
    ensures CountSince(times, from) == 0 <==> forall i | 0 <= i < |times| :: times[i] < from
  {
    if times == [] {
    } else {
      NoneRecentIff(times[..|times| - 1], from);
    }
  }

  lemma {:induction false} NoneOldIff(times: seq<int>, from: int)
    ensures CountBefore(times, from) == 0 <==> forall i | 0 <= i < |times| :: times[i] >= from
  {
    if times == [] {
    } else {
      NoneOldIff(times[..|times| - 1], from);
    }
  }

  /** Pruning leaves no old failure if and only if the old ones come first. */
  lemma {:induction false} PrunesCleanIff(queue: seq<int>, from: int)
    ensures CountBefore(Prune(queue, from), from) == 0 <==> OldFirst(queue, from)
    decreases |queue|
  {
    if queue == [] {
    } else if queue[0] >= from {
      NoneOldIff(queue, from);
    } else {
      PrunesCleanIff(queue[1..], from);
      OldHeadAside(queue, from);
    }
  }

  lemma OldHeadAside(queue: seq<int>, from: int)
    requires queue != [] && queue[0] < from
    ensures OldFirst(queue, from) <==> OldFirst(queue[1..], from)
  {
    if OldFirst(queue[1..], from) {
      forall i, j | 0 <= i < j < |queue| && queue[i] >= from ensures queue[j] >= from {
        assert queue[1..][i - 1] == queue[i] && queue[1..][j - 1] == queue[j];
      }
    }
  }

  /** The times recorded tell when nothing is wrongly dropped and nothing wrongly kept. */
  lemma LookCleanIff(queue: seq<int>, history: seq<int>, from: int)
    requires EndOf(queue, history)
    ensures LookClean(queue, history, from) <==>
            CountSince(Dropped(queue, history), from) == 0 && CountBefore(Prune(queue, from), from) == 0
  {
    NoneRecentIff(Dropped(queue, history), from);
    PrunesCleanIff(queue, from);
  }

  // Serial logins under one key

  /** How a login ends once the limiter lets it through. One that raises something else, such as
      a missing tenant for an address known in several, neither records nor resets. */
  datatype Ending = Succeeds | Fails | Raises

  /** A login: when the limiter is asked, how it ends, and when a failure would be recorded. */
  datatype Login = Login(checkedAt: int, ending: Ending, recordedAt: int)

  datatype Policy = Policy(limit: nat, window: nat)

  /** The reference limiter: fewer recent failures than the limit. */
  predicate Allows(history: seq<int>, now: int, policy: Policy) {
    CountSince(history, now - policy.window) < policy.limit
  }

  ghost predicate Ordered(logins: seq<Login>, from: int)
    decreases |logins|
  {
    logins == [] || (from <= logins[0].checkedAt <= logins[0].recordedAt && Ordered(logins[1..], logins[0].recordedAt))
  }

  /** What a login leaves of the failures: a refused one leaves them, a good one resets. */
  function After(failures: seq<int>, login: Login, allowed: bool): seq<int> {
    if !allowed then failures
    else
      match login.ending
      case Succeeds => []
      case Fails => failures + [login.recordedAt]
      case Raises => failures
  }

  /** One login under the reference limiter: whether it is let through, and the failures since
      the last reset afterwards. */
  function ReferenceStep(history: seq<int>, login: Login, policy: Policy): (bool, seq<int>) {
    var allowed := Allows(history, login.checkedAt, policy);
    (allowed, After(history, login, allowed))
  }

  /** The same on the pruned queue. */
  function QueueStep(queue: seq<int>, login: Login, policy: Policy): (bool, seq<int>) {
    var kept := Prune(queue, login.checkedAt - policy.window);
    (|kept| < policy.limit, After(kept, login, |kept| < policy.limit))
  }

  /** Failures since the last reset, after the logins. */
  function Failures(history: seq<int>, logins: seq<Login>, policy: Policy): seq<int>
    decreases |logins|
  {
    if logins == [] then history
    else Failures(ReferenceStep(history, logins[0], policy).1, logins[1..], policy)
  }

  /** Which logins the reference lets through. */
  function Reference(history: seq<int>, logins: seq<Login>, policy: Policy): seq<bool>
    decreases |logins|
  {
    if logins == [] then []
    else
      var step := ReferenceStep(history, logins[0], policy);
      [step.0] + Reference(step.1, logins[1..], policy)
  }

  /** Which logins the pruned queue lets through. */
  function Decisions(queue: seq<int>, logins: seq<Login>, policy: Policy): seq<bool>
    decreases |logins|
  {
    if logins == [] then []
    else
      var step := QueueStep(queue, logins[0], policy);
      [step.0] + Decisions(step.1, logins[1..], policy)
  }

  lemma PrunesAppend(queue: seq<int>, history: seq<int>, cut: int, time: int)
    requires Prunes(queue, history, cut)
    ensures Prunes(queue + [time], history + [time], cut)
  {
  }

  /** The queue of one key holds all of its history that is still within the window at `now`. */
  ghost predicate Tracks(queue: seq<int>, history: seq<int>, now: int, window: nat) {
    && Sorted(history) && (forall i | 0 <= i < |history| :: history[i] <= now)
    && Prunes(queue, history, now - window)
  }

  lemma TracksLater(queue: seq<int>, history: seq<int>, now: int, later: int, window: nat)
    requires Tracks(queue, history, now, window) && now <= later
    ensures Tracks(queue, history, later, window)
  {
  }

  lemma TracksPruned(queue: seq<int>, history: seq<int>, now: int, later: int, window: nat)
    requires Tracks(queue, history, now, window) && now <= later
    ensures Tracks(Prune(queue, later - window), history, later, window)
    ensures |Prune(queue, later - window)| == CountSince(history, later - window)
  {
    QueueCounts(queue, history, now - window, later - window);
  }

  lemma TracksAppend(queue: seq<int>, history: seq<int>, now: int, later: int, window: nat)
    requires Tracks(queue, history, now, window) && now <= later
    ensures Tracks(queue + [later], history + [later], later, window)
  {
    PrunesAppend(queue, history, later - window, later);
  }

  lemma NothingTracks(now: int, window: nat)
    ensures Tracks([], [], now, window)
  {
  }

  /** One look: the pruned queue and the reference agree. */
  lemma LookInStep(queue: seq<int>, history: seq<int>, now: int, later: int, policy: Policy)
    requires Tracks(queue, history, now, policy.window) && now <= later
    ensures Tracks(Prune(queue, later - policy.window), history, later, policy.window)
    ensures |Prune(queue, later - policy.window)| < policy.limit <==> Allows(history, later, policy)
  {
    TracksPruned(queue, history, now, later, policy.window);
  }

  lemma AfterInStep(queue: seq<int>, history: seq<int>, login: Login, allowed: bool, window: nat)
    requires Tracks(queue, history, login.checkedAt, window) && login.checkedAt <= login.recordedAt
    ensures Tracks(After(queue, login, allowed), After(history, login, allowed), login.recordedAt, window)
  {
    TracksLater(queue, history, login.checkedAt, login.recordedAt, window);
    TracksAppend(queue, history, login.checkedAt, login.recordedAt, window);
    NothingTracks(login.recordedAt, window);
  }

  /** One login: both take the same decision and stay in step. */
  lemma LoginInStep(queue: seq<int>, history: seq<int>, now: int, login: Login, policy: Policy)
    requires Tracks(queue, history, now, policy.window) && now <= login.checkedAt <= login.recordedAt
    ensures QueueStep(queue, login, policy).0 == ReferenceStep(history, login, policy).0
    ensures Tracks(QueueStep(queue, login, policy).1, ReferenceStep(history, login, policy).1, login.recordedAt,
            policy.window)
  {
    var kept := Prune(queue, login.checkedAt - policy.window);
    LookInStep(queue, history, now, login.checkedAt, policy);
    AfterInStep(kept, history, login, |kept| < policy.limit, policy.window);
  }

  /** Over any series of logins with a non-decreasing clock the pruned queue decides as the
      reference does. */
  lemma QueueDecidesAsReference(queue: seq<int>, history: seq<int>, now: int, logins: seq<Login>, policy: Policy)
    requires Tracks(queue, history, now, policy.window) && Ordered(logins, now)
    ensures Decisions(queue, logins, policy) == Reference(history, logins, policy)
  {
    OrderedSeriesIsClean(queue, history, now, logins, policy);
    CleanSeriesAgrees(queue, history, logins, policy);
  }

  /** At most `limit` failures in every closed window of the policy's length. */
  ghost predicate Throttled(history: seq<int>, policy: Policy) {
    forall from :: WindowCount(history, from, policy) <= policy.limit
  }

  ghost function WindowCount(history: seq<int>, from: int, policy: Policy): nat {
    CountWithin(history, from, from + policy.window)
  }

  lemma {:induction false} WithinAtMostSince(history: seq<int>, from: int, to: int, since: int)
    requires since <= from
    ensures CountWithin(history, from, to) <= CountSince(history, since)
  {
    if history == [] {
    } else {
      WithinAtMostSince(history[..|history| - 1], from, to, since);
    }
  }

  lemma AppendWithin(history: seq<int>, time: int, from: int, to: int)
    ensures CountWithin(history + [time], from, to)
            == CountWithin(history, from, to) + if from <= time <= to then 1 else 0
  {
    assert (history + [time])[..|history + [time]| - 1] == history;
  }

  lemma ThrottledAppend(history: seq<int>, policy: Policy, checkedAt: int, time: int)
    requires Throttled(history, policy) && checkedAt <= time
    requires Allows(history, checkedAt, policy)
    ensures Throttled(history + [time], policy)
  {
    forall from ensures WindowCount(history + [time], from, policy) <= policy.limit {
      AppendWithin(history, time, from, from + policy.window);
      assert WindowCount(history, from, policy) <= policy.limit;
      if from <= time <= from + policy.window {
        WithinAtMostSince(history, from, from + policy.window, checkedAt - policy.window);
      }
    }
  }

  lemma NoneIsThrottled(policy: Policy)
    ensures Throttled([], policy)
  {
  }

  lemma {:induction false} FailuresStayThrottled(history: seq<int>, logins: seq<Login>, from: int, policy: Policy)
    requires Throttled(history, policy) && Ordered(logins, from)
    ensures Throttled(Failures(history, logins, policy), policy)
    decreases |logins|
  {
    if logins == [] {
    } else {
      var login, after := logins[0], ReferenceStep(history, logins[0], policy).1;
      if Allows(history, login.checkedAt, policy) && login.ending == Fails {
        ThrottledAppend(history, policy, login.checkedAt, login.recordedAt);
      }
      NoneIsThrottled(policy);
      FailuresStayThrottled(after, logins[1..], login.recordedAt, policy);
    }
  }

  /** In serial logins no closed window ever holds more failures since the last reset than the
      policy allows, and the pruned queue is what enforces it. */
  lemma SerialLoginsAreThrottled(logins: seq<Login>, from: int, policy: Policy)
    requires Ordered(logins, from)
    ensures Throttled(Failures([], logins, policy), policy)
    ensures Decisions([], logins, policy) == Reference([], logins, policy)
  {
    NoneIsThrottled(policy);
    FailuresStayThrottled([], logins, from, policy);
    NothingTracks(from, policy.window);
    QueueDecidesAsReference([], [], from, logins, policy);
  }

  // Any series of logins, whatever the clock does

  /** A clean look decides as the reference does and leaves the queue the end of the history. */
  lemma CleanStep(queue: seq<int>, history: seq<int>, login: Login, policy: Policy)
    requires EndOf(queue, history) && LookClean(queue, history, login.checkedAt - policy.window)
    ensures QueueStep(queue, login, policy).0 == ReferenceStep(history, login, policy).0
    ensures EndOf(QueueStep(queue, login, policy).1, ReferenceStep(history, login, policy).1)
  {
    var from := login.checkedAt - policy.window;
    LookCleanIff(queue, history, from);
    PrunedLength(queue, history, from);
    PrunedIsEnd(queue, history, from);
    EndAppended(Prune(queue, from), history, login.recordedAt);
  }

  lemma EndAppended(queue: seq<int>, history: seq<int>, time: int)
    requires EndOf(queue, history)
    ensures EndOf(queue + [time], history + [time])
  {
  }

  /** Every look of the series is clean. */
  ghost predicate LooksClean(queue: seq<int>, history: seq<int>, logins: seq<Login>, policy: Policy)
    requires EndOf(queue, history)
    decreases |logins|
  {
    logins == [] ||
    (&& LookClean(queue, history, logins[0].checkedAt - policy.window)
     && (CleanStep(queue, history, logins[0], policy);
         LooksClean(QueueStep(queue, logins[0], policy).1, ReferenceStep(history, logins[0], policy).1, logins[1..],
             policy)))
  }

  /** Over any series of logins, with any clock, whose every look is clean, the pruned queue
      decides as the reference does. */
  lemma {:induction false} CleanSeriesAgrees(queue: seq<int>, history: seq<int>, logins: seq<Login>, policy: Policy)
    requires EndOf(queue, history) && LooksClean(queue, history, logins, policy)
    ensures Decisions(queue, logins, policy) == Reference(history, logins, policy)
    decreases |logins|
  {
    if logins == [] {
    } else {
      CleanStep(queue, history, logins[0], policy);
      CleanSeriesAgrees(QueueStep(queue, logins[0], policy).1, ReferenceStep(history, logins[0], policy).1, logins[1..],
          policy);
    }
  }

  /** A clock that does not step back makes every look clean. */
  lemma {:induction false} OrderedSeriesIsClean(queue: seq<int>, history: seq<int>, now: int, logins: seq<Login>,
      policy: Policy)
    requires Tracks(queue, history, now, policy.window) && Ordered(logins, now)
    ensures LooksClean(queue, history, logins, policy)
    decreases |logins|
  {
    if logins == [] {
    } else {
      TracksClean(queue, history, now, logins[0].checkedAt, policy.window);
      CleanStep(queue, history, logins[0], policy);
      LoginInStep(queue, history, now, logins[0], policy);
      OrderedSeriesIsClean(QueueStep(queue, logins[0], policy).1, ReferenceStep(history, logins[0], policy).1,
          logins[0].recordedAt, logins[1..], policy);
    }
  }

  lemma TracksClean(queue: seq<int>, history: seq<int>, now: int, later: int, window: nat)
    requires Tracks(queue, history, now, window) && now <= later
    ensures LookClean(queue, history, later - window)
  {
    SuffixSorted(queue, history, now - window);
  }

  lemma OneFailure(queue: seq<int>, login: Login, policy: Policy, rest: seq<Login>, kept: seq<int>)
    requires login.ending == Fails && kept == Prune(queue, login.checkedAt - policy.window) && |kept| < policy.limit
    ensures Decisions(queue, [login] + rest, policy) == [true] + Decisions(kept + [login.recordedAt], rest, policy)
  {
    assert ([login] + rest)[1..] == rest;
  }

  lemma OneReferenceFailure(history: seq<int>, login: Login, policy: Policy, rest: seq<Login>)
    requires login.ending == Fails && Allows(history, login.checkedAt, policy)
    ensures Reference(history, [login] + rest, policy) == [true] + Reference(history + [login.recordedAt], rest, policy)
  {
    assert ([login] + rest)[1..] == rest;
  }

  lemma CountOne(history: seq<int>, time: int, from: int)
    ensures CountSince(history + [time], from) == CountSince(history, from) + if time >= from then 1 else 0
  {
    assert (history + [time])[..|history + [time]| - 1] == history;
  }

  lemma LastDecision(queue: seq<int>, history: seq<int>, login: Login, policy: Policy)
    ensures Decisions(queue, [login], policy) == [|Prune(queue, login.checkedAt - policy.window)| < policy.limit]
    ensures Reference(history, [login], policy) == [Allows(history, login.checkedAt, policy)]
  {
    assert [login][1..] == [];
  }

  lemma StuckDecisions(first: Login, second: Login, third: Login)
    requires first == Login(100, Fails, 100) && second == Login(85, Fails, 85) && third == Login(97, Fails, 97)
    ensures Decisions([], [first] + ([second] + [third]), Policy(2, 10)) == [true] + ([true] + [false])
  {
    OneFailure([], first, Policy(2, 10), [second] + [third], []);
    OneFailure([100], second, Policy(2, 10), [third], [100]);
    LastDecision([100] + [85], [], third, Policy(2, 10));
    assert ([100] + [85])[0] == 100 && [] + [100] == [100];
  }

  lemma StuckReference(first: Login, second: Login, third: Login)
    requires first == Login(100, Fails, 100) && second == Login(85, Fails, 85) && third == Login(97, Fails, 97)
    ensures Reference([], [first] + ([second] + [third]), Policy(2, 10)) == [true] + ([true] + [true])
  {
    OneReferenceFailure([], first, Policy(2, 10), [second] + [third]);
    CountOne([], 100, 75);
    OneReferenceFailure([] + [100], second, Policy(2, 10), [third]);
    CountOne([], 100, 87);
    CountOne([] + [100], 85, 87);
    LastDecision([], ([] + [100]) + [85], third, Policy(2, 10));
  }

  /** Fewer than two failures in 10: failures at 100 and, after the clock stepped back, at 85. At
      97 the old one is stuck behind the recent one, and the queue refuses a login that the
      reference allows. */
  lemma OldFailureStuck()
    ensures var logins := [Login(100, Fails, 100)] + ([Login(85, Fails, 85)] + [Login(97, Fails, 97)]);
      && Decisions([], logins, Policy(2, 10)) == [true] + ([true] + [false])
      && Reference([], logins, Policy(2, 10)) == [true] + ([true] + [true])
  {
    StuckDecisions(Login(100, Fails, 100), Login(85, Fails, 85), Login(97, Fails, 97));
    StuckReference(Login(100, Fails, 100), Login(85, Fails, 85), Login(97, Fails, 97));
  }

  lemma DroppedDecisions(first: Login, second: Login, third: Login)
    requires first == Login(85, Fails, 85) && second == Login(100, Fails, 100) && third == Login(90, Fails, 90)
    ensures Decisions([], [first] + ([second] + [third]), Policy(2, 10)) == [true] + ([true] + [true])
  {
    OneFailure([], first, Policy(2, 10), [second] + [third], []);
    assert [] + [85] == [85] && [85][1..] == [];
    OneFailure([85], second, Policy(2, 10), [third], []);
    assert [] + [100] == [100];
    LastDecision([100], [], third, Policy(2, 10));
  }

  lemma DroppedReference(first: Login, second: Login, third: Login)
    requires first == Login(85, Fails, 85) && second == Login(100, Fails, 100) && third == Login(90, Fails, 90)
    ensures Reference([], [first] + ([second] + [third]), Policy(2, 10)) == [true] + ([true] + [false])
  {
    OneReferenceFailure([], first, Policy(2, 10), [second] + [third]);
    CountOne([], 85, 90);
    OneReferenceFailure([] + [85], second, Policy(2, 10), [third]);
    CountOne([], 85, 80);
    CountOne([] + [85], 100, 80);
    LastDecision([], ([] + [85]) + [100], third, Policy(2, 10));
  }

  /** The other way round: a look at 100 drops the failure at 85 for good, and back at 90 the
      queue allows a login that the reference refuses. */
  lemma RecentFailureDropped()
    ensures var logins := [Login(85, Fails, 85)] + ([Login(100, Fails, 100)] + [Login(90, Fails, 90)]);
      && Decisions([], logins, Policy(2, 10)) == [true] + ([true] + [true])
      && Reference([], logins, Policy(2, 10)) == [true] + ([true] + [false])
  {
    DroppedDecisions(Login(85, Fails, 85), Login(100, Fails, 100), Login(90, Fails, 90));
    DroppedReference(Login(85, Fails, 85), Login(100, Fails, 100), Login(90, Fails, 90));
  }

  // The limiter

  function At(times: map<string, seq<int>>, key: string): seq<int> {
    if key in times then times[key] else []
  }

  ghost predicate AllTrack(attempts: map<string, seq<int>>, history: map<string, seq<int>>, now: int, window: nat) {
    forall key :: Tracks(At(attempts, key), At(history, key), now, window)
  }

  /** Changing one key consistently keeps every key's queue in step with its history. */
  lemma OneKeyChanges(attempts: map<string, seq<int>>, history: map<string, seq<int>>, now: int, window: nat,
                      key: string, attempts': map<string, seq<int>>, history': map<string, seq<int>>, later: int)
    requires AllTrack(attempts, history, now, window) && now <= later
    requires Tracks(At(attempts', key), At(history', key), later, window)
    requires forall other | other != key ::
               At(attempts', other) == At(attempts, other) && At(history', other) == At(history, other)
    ensures AllTrack(attempts', history', later, window)
  {
    forall other ensures Tracks(At(attempts', other), At(history', other), later, window) {
      if other != key { TracksLater(At(attempts, other), At(history, other), now, later, window); }
    }
  }

  /** Popping from the left while the oldest time is before the window. */
  method PopLeft(attempts: seq<int>, ghost history: seq<int>, ghost before: int, now: int, policy: Policy)
      returns (queue: seq<int>)
    requires Tracks(attempts, history, before, policy.window) && before <= now
    ensures Tracks(queue, history, now, policy.window)
    ensures |queue| < policy.limit <==> Allows(history, now, policy)
  {
    var windowStart := now - policy.window;
    queue := attempts;
    while queue != [] && queue[0] < windowStart
      invariant Prune(queue, windowStart) == Prune(attempts, windowStart)
      decreases |queue|
    {
      queue := queue[1..];
    }
    LookInStep(attempts, history, before, now, policy);
  }

  class Limiter {
    const policy: Policy
    var attempts: map<string, seq<int>>

    /** Every failure recorded for a key since its last reset, and the latest time seen. */
    ghost var history: map<string, seq<int>>
    ghost var clock: int

    constructor (policy: Policy, ghost now: int)
      ensures Valid() && this.policy == policy && history == map[] && clock == now
    {
      this.policy := policy;
      attempts, history := map[], map[];
      clock := now;
    }

    ghost predicate Valid()
      reads this
    {
      AllTrack(attempts, history, clock, policy.window)
    }

    /** Allowed exactly when fewer failures than the limit were recorded since the last reset
        at times within the window. */
    method AssertAllowed(key: string, now: int) returns (allowed: bool)
      requires Valid() && clock <= now
      modifies this
      ensures Valid() && clock == now && history == old(history)
      ensures allowed <==> Allows(At(history, key), now, policy)
      ensures forall other | other != key :: At(attempts, other) == old(At(attempts, other))
    {
      ghost var queues, failures, before := attempts, history, clock;
      var queue := PopLeft(At(attempts, key), At(history, key), clock, now, policy);
      attempts := attempts[key := queue];
      clock := now;
      allowed := |queue| < policy.limit;
      OneKeyChanges(queues, failures, before, policy.window, key, attempts, history, now);
    }

    method RecordFailure(key: string, now: int)
      requires Valid() && clock <= now
      modifies this
      ensures Valid() && clock == now
      ensures history == old(history)[key := old(At(history, key)) + [now]]
    {
      TracksAppend(At(attempts, key), At(history, key), clock, now, policy.window);
      ghost var queues, failures := attempts, history;
      attempts := attempts[key := At(attempts, key) + [now]];
      history := history[key := At(history, key) + [now]];
      OneKeyChanges(queues, failures, clock, policy.window, key, attempts, history, now);
      clock := now;
    }

    method Reset(key: string)
      requires Valid()
      modifies this
      ensures Valid() && clock == old(clock)
      ensures history == old(history) - {key}
    {
      ghost var queues, failures := attempts, history;
      attempts := attempts - {key};
      history := history - {key};
      NothingTracks(clock, policy.window);
      OneKeyChanges(queues, failures, clock, policy.window, key, attempts, history, clock);
    }

    /** The limiter's part in a login: ask first, then record a failure or reset. */
    method LogIn(key: string, login: Login) returns (allowed: bool)
      requires Valid() && clock <= login.checkedAt <= login.recordedAt
      modifies this
      ensures Valid()
      ensures allowed <==> Allows(old(At(history, key)), login.checkedAt, policy)
      ensures At(history, key) == After(old(At(history, key)), login, allowed)
      ensures forall other | other != key :: At(history, other) == old(At(history, other))
    {
      allowed := AssertAllowed(key, login.checkedAt);
      if allowed {
        match login.ending {
          case Succeeds => Reset(key);
          case Fails => RecordFailure(key, login.recordedAt);
          case Raises =>
        }
      }
    }
  }
}
