/** What the total duration of a live-class participant means, in terms of the history of
    arrivals, departures and the end of the class alone. */
module LiveDurations {
  import opened Options
  import opened LiveClasses

  /** A stretch of time of one participant. */
  datatype Stay = Stay(from: int, to: int)

  function LastJoin(acts: seq<Act>): Option<int> {
    if acts == [] then None
    else if acts[|acts| - 1].Join? then Some(acts[|acts| - 1].at)
    else LastJoin(acts[..|acts| - 1])
  }

  /** Has arrived and has neither left nor been sent away since. */
  predicate InClass(acts: seq<Act>) {
    acts != [] && acts[|acts| - 1].Join?
  }

  /** The first arrival since the last departure: when the participant really came. */
  function CameAt(acts: seq<Act>): int
    requires InClass(acts)
  {
    var front := acts[..|acts| - 1];
    if InClass(front) then CameAt(front) else acts[|acts| - 1].at
  }

  /** The true stays: each departure, or end of class, of someone in class closes one. */
  function Stays(acts: seq<Act>): seq<Stay> {
    if acts == [] then []
    else
      var front, last := acts[..|acts| - 1], acts[|acts| - 1];
      Stays(front) + if !last.Join? && InClass(front) then [Stay(CameAt(front), last.at)] else []
  }

  /** What the service credits for them: the time since the latest arrival. */
  function Credits(acts: seq<Act>): seq<Stay> {
    if acts == [] then []
    else
      var front, last := acts[..|acts| - 1], acts[|acts| - 1];
      Credits(front) + if !last.Join? && InClass(front) then [Stay(front[|front| - 1].at, last.at)] else []
  }

  function Seconds(stays: seq<Stay>): nat {
    if stays == [] then 0
    else Seconds(stays[..|stays| - 1]) + Duration(stays[|stays| - 1].from, stays[|stays| - 1].to)
  }

  /** What a departure of someone who has already left adds: the time since the latest arrival
      once more. */
  function RepeatAt(front: seq<Act>, last: Act): nat {
    if last.Left? && !InClass(front) && LastJoin(front).Some? then Duration(LastJoin(front).value, last.at) else 0
  }

  function Repeats(acts: seq<Act>): nat {
    if acts == [] then 0
    else Repeats(acts[..|acts| - 1]) + RepeatAt(acts[..|acts| - 1], acts[|acts| - 1])
  }

  ghost predicate NothingGiven(acts: seq<Act>) {
    forall k | 0 <= k < |acts| && acts[k].Left? :: acts[k].given.None?
  }

  ghost predicate InOrder(acts: seq<Act>) {
    forall i, j | 0 <= i < j < |acts| :: acts[i].at <= acts[j].at
  }

  /** The row's columns say who is in class and since when. */
  lemma {:induction false} ColumnsTell(acts: seq<Act>)
    ensures var p := Solo(NEW, acts);
      && p.joinedAt == LastJoin(acts)
      && (p.joinedAt.Some? && p.leftAt.None? <==> InClass(acts))
      && (InClass(acts) ==> LastJoin(acts) == Some(acts[|acts| - 1].at))
  {
    if acts == [] {
    } else {
      ColumnsTell(acts[..|acts| - 1]);
    }
  }

  function Counted(acts: seq<Act>): nat {
    Seconds(Credits(acts)) + Repeats(acts)
  }

  /** One act counts the stay it closes or the time it repeats. */
  lemma OneActCounts(front: seq<Act>, act: Act)
    requires act.Left? ==> act.given.None?
    ensures Solo(NEW, front + [act]).seconds == Solo(NEW, front).seconds + Counted(front + [act]) - Counted(front)
  {
    var acts := front + [act];
    assert acts[..|acts| - 1] == front;
    ColumnsTell(front);
    if !act.Join? && InClass(front) {
      assert Credits(acts)[..|Credits(acts)| - 1] == Credits(front);
      assert Seconds(Credits(acts)) == Seconds(Credits(front)) + Duration(front[|front| - 1].at, act.at);
    } else {
      assert Credits(acts) == Credits(front);
    }
  }

  /** As long as no total is given, the total grows by what the further acts count. */
  lemma {:induction false} TotalCountsOn(acts: seq<Act>, more: seq<Act>)
    requires NothingGiven(more)
    ensures Solo(NEW, acts + more).seconds == Solo(NEW, acts).seconds + Counted(acts + more) - Counted(acts)
    decreases |more|
  {
    if more == [] {
      assert acts + more == acts;
    } else {
      var front, last := more[..|more| - 1], more[|more| - 1];
      TotalCountsOn(acts, front);
      OneActCounts(acts + front, last);
      assert acts + more == (acts + front) + [last];
    }
  }

  /** A given total replaces whatever had been counted; afterwards the total is the given one and
      what counts since. */
  lemma GivenTotalReplaces(acts: seq<Act>, at: int, given: nat, more: seq<Act>)
    requires NothingGiven(more)
    ensures var first := acts + [Left(at, Some(given))];
      Solo(NEW, first + more).seconds == given + Counted(first + more) - Counted(first)
  {
    OneMoreAct(NEW, acts, Left(at, Some(given)));
    TotalCountsOn(acts + [Left(at, Some(given))], more);
  }

  /** The same for each participant of any run, however the others' events interleave. */
  lemma RunGivenTotalReplaces(requests: seq<Request>, i: nat, acts: seq<Act>, at: int, given: nat, more: seq<Act>)
    requires RunActs(Class(Scheduled, []), requests, i) == acts + [Left(at, Some(given))] + more && NothingGiven(more)
    ensures var first := acts + [Left(at, Some(given))];
      PresenceOf(Run(Class(Scheduled, []), requests).participants, i).seconds
      == given + Counted(first + more) - Counted(first)
  {
    ParticipantsAreIndependent(Class(Scheduled, []), requests, i);
    GivenTotalReplaces(acts, at, given, more);
  }

  /** The total is the whole seconds credited, and what repeated departures add. */
  lemma TotalIsCreditsAndRepeats(acts: seq<Act>)
    requires NothingGiven(acts)
    ensures Solo(NEW, acts).seconds == Seconds(Credits(acts)) + Repeats(acts)
  {
    TotalCountsOn([], acts);
    assert [] + acts == acts;
  }

  /** A departure reported for someone who has already left, a second or more after the latest
      arrival. */
  ghost predicate LateRepeat(acts: seq<Act>, k: nat) {
    && k < |acts| && acts[k].Left? && !InClass(acts[..k])
    && LastJoin(acts[..k]).Some? && acts[k].at - LastJoin(acts[..k]).value >= 1000000
  }

  lemma {:induction false} RepeatsVanishIff(acts: seq<Act>)
    ensures Repeats(acts) == 0 <==> forall k :: !LateRepeat(acts, k)
  {
    if acts == [] {
    } else {
      var last := |acts| - 1;
      var front := acts[..last];
      RepeatsVanishIff(front);
      forall k: nat | k < last ensures LateRepeat(front, k) <==> LateRepeat(acts, k) { assert front[..k] == acts[..k]; }
      assert LateRepeat(acts, last) <==> RepeatAt(front, acts[last]) > 0;
      if Repeats(front) > 0 {
        var k :| LateRepeat(front, k);
        assert LateRepeat(acts, k);
      }
    }
  }

  /** What arriving again costs when a stay is closed: its whole seconds, less those since the
      latest arrival. */
  function LossAt(front: seq<Act>, last: Act): int {
    if !last.Join? && InClass(front)
    then Duration(CameAt(front), last.at) - Duration(front[|front| - 1].at, last.at)
    else 0
  }

  function Lost(acts: seq<Act>): int {
    if acts == [] then 0 else Lost(acts[..|acts| - 1]) + LossAt(acts[..|acts| - 1], acts[|acts| - 1])
  }

  lemma OneMoreStay(stays: seq<Stay>, stay: Stay)
    ensures Seconds(stays + [stay]) == Seconds(stays) + Duration(stay.from, stay.to)
  {
    assert (stays + [stay])[..|stays + [stay]| - 1] == stays;
  }

  lemma {:induction false} CreditsAreStaysLessLost(acts: seq<Act>)
    ensures Seconds(Credits(acts)) == Seconds(Stays(acts)) - Lost(acts)
  {
    if acts == [] {
    } else {
      var front, last := acts[..|acts| - 1], acts[|acts| - 1];
      CreditsAreStaysLessLost(front);
      if !last.Join? && InClass(front) {
        OneMoreStay(Stays(front), Stay(CameAt(front), last.at));
        OneMoreStay(Credits(front), Stay(front[|front| - 1].at, last.at));
      } else {
        assert Stays(acts) == Stays(front) && Credits(acts) == Credits(front);
      }
    }
  }

  /** The total is the whole seconds of the true stays, less what arriving again loses, plus
      what leaving again repeats. */
  lemma TotalIsTimeInClassCorrected(acts: seq<Act>)
    requires NothingGiven(acts)
    ensures Solo(NEW, acts).seconds == Seconds(Stays(acts)) - Lost(acts) + Repeats(acts)
  {
    TotalIsCreditsAndRepeats(acts);
    CreditsAreStaysLessLost(acts);
  }

  /** A stay closed with fewer whole seconds since the latest arrival than since the first. */
  ghost predicate LateArrival(acts: seq<Act>, k: nat) {
    && k < |acts| && !acts[k].Join? && InClass(acts[..k])
    && Duration(acts[k - 1].at, acts[k].at) < Duration(CameAt(acts[..k]), acts[k].at)
  }

  lemma {:induction false} CameBefore(acts: seq<Act>)
    requires InOrder(acts) && InClass(acts)
    ensures CameAt(acts) <= acts[|acts| - 1].at
  {
    var front := acts[..|acts| - 1];
    if !InClass(front) {
    } else {
      CameBefore(front);
    }
  }

  lemma DurationShrinks(first: int, latest: int, to: int)
    requires first <= latest
    ensures Duration(latest, to) <= Duration(first, to)
  {
  }

  lemma LossIsLateArrival(acts: seq<Act>, k: nat)
    requires InOrder(acts) && k < |acts|
    ensures LossAt(acts[..k], acts[k]) >= 0
    ensures LossAt(acts[..k], acts[k]) > 0 <==> LateArrival(acts, k)
  {
    var front := acts[..k];
    if InClass(front) {
      CameBefore(front);
      DurationShrinks(CameAt(front), front[k - 1].at, acts[k].at);
    }
  }

  /** With acts in order nothing is lost if and only if no stay has a late arrival. */
  lemma {:induction false} LostVanishesIff(acts: seq<Act>)
    requires InOrder(acts)
    ensures Lost(acts) >= 0
    ensures Lost(acts) == 0 <==> forall k :: !LateArrival(acts, k)
  {
    if acts == [] {
    } else {
      var last := |acts| - 1;
      var front := acts[..last];
      LostVanishesIff(front);
      LossIsLateArrival(acts, last);
      LateArrivalsOfFront(acts);
      if Lost(front) > 0 {
        var k :| LateArrival(front, k);
        assert LateArrival(acts, k);
      }
    }
  }

  lemma LateArrivalsOfFront(acts: seq<Act>)
    requires acts != []
    ensures forall k: nat | k < |acts| - 1 :: LateArrival(acts[..|acts| - 1], k) <==> LateArrival(acts, k)
  {
    var front := acts[..|acts| - 1];
    forall k: nat | k < |front|
      ensures LateArrival(front, k) <==> LateArrival(acts, k)
    {
      assert front[..k] == acts[..k];
    }
  }

  /** The total is the time in class, in whole seconds a stay, if and only if late arrivals lose
      as much as late repeats add. */
  lemma TotalIsTimeInClassIff(acts: seq<Act>)
    requires NothingGiven(acts)
    ensures Solo(NEW, acts).seconds == Seconds(Stays(acts)) <==> Lost(acts) == Repeats(acts)
    ensures Repeats(acts) == 0 <==> forall k :: !LateRepeat(acts, k)
    ensures InOrder(acts) ==> (Lost(acts) == 0 <==> forall k :: !LateArrival(acts, k))
  {
    TotalIsTimeInClassCorrected(acts);
    RepeatsVanishIff(acts);
    if InOrder(acts) { LostVanishesIff(acts); }
  }

  /** Arriving at 0, again at 5 and leaving at 10 seconds counts 5 of the 10. */
  lemma ArrivingTwiceLosesTime()
    ensures var acts := [Join(0), Join(5000000), Left(10000000, None)];
      Solo(NEW, acts).seconds == 5 && Stays(acts) == [Stay(0, 10000000)] && Seconds(Stays(acts)) == 10
  {
    var one, two := [Join(0)], [Join(0), Join(5000000)];
    var acts := two + [Left(10000000, None)];
    assert one[..0] == [] && two[..1] == one && acts[..2] == two;
    assert Solo(NEW, two) == Presence(Some(5000000), None, Allowed, 0) by {
      assert Solo(NEW, one) == After(NEW, Join(0));
    }
    assert acts == [Join(0), Join(5000000), Left(10000000, None)];
    assert CameAt(two) == 0 && Stays(two) == [] by { assert Stays(one) == []; }
    assert Stays(acts) == [Stay(0, 10000000)];
    assert [Stay(0, 10000000)][..0] == [];
  }

  /** Arriving at 0 and leaving at 10 and again at 20 seconds counts 30. */
  lemma LeavingTwiceCountsTwice()
    ensures var acts := [Join(0), Left(10000000, None), Left(20000000, None)];
      Solo(NEW, acts).seconds == 30 && Stays(acts) == [Stay(0, 10000000)] && Seconds(Stays(acts)) == 10
  {
    var one, two := [Join(0)], [Join(0), Left(10000000, None)];
    var acts := two + [Left(20000000, None)];
    assert one[..0] == [] && two[..1] == one && acts[..2] == two;
    assert Solo(NEW, two) == Presence(Some(0), Some(10000000), Completed, 10) by {
      assert Solo(NEW, one) == After(NEW, Join(0));
    }
    assert acts == [Join(0), Left(10000000, None), Left(20000000, None)];
    assert Solo(NEW, acts) == After(Solo(NEW, two), Left(20000000, None));
    assert CameAt(one) == 0 && Stays(two) == [Stay(0, 10000000)];
    assert [Stay(0, 10000000)][..0] == [];
  }

  /** Stays in order that do not overlap. */
  ghost predicate Disjoint(stays: seq<Stay>) {
    && (forall i | 0 <= i < |stays| :: stays[i].from <= stays[i].to)
    && (forall i, j | 0 <= i < j < |stays| :: stays[i].to <= stays[j].from)
  }

  /** Acts in order make stays in order, all within the span of the acts. */
  lemma {:induction false} StaysAreDisjoint(acts: seq<Act>)
    requires InOrder(acts)
    ensures Disjoint(Stays(acts))
    ensures forall i | 0 <= i < |Stays(acts)| ::
              acts != [] && acts[0].at <= Stays(acts)[i].from && Stays(acts)[i].to <= acts[|acts| - 1].at
    ensures InClass(acts) ==> acts[0].at <= CameAt(acts) <= acts[|acts| - 1].at
    ensures InClass(acts) ==> forall i | 0 <= i < |Stays(acts)| :: Stays(acts)[i].to <= CameAt(acts)
  {
    if acts == [] {
    } else {
      StaysAreDisjoint(acts[..|acts| - 1]);
    }
  }

  lemma {:induction false} SecondsWithin(stays: seq<Stay>, first: int, last: int)
    requires Disjoint(stays) && first <= last
    requires forall i | 0 <= i < |stays| :: first <= stays[i].from && stays[i].to <= last
    ensures 1000000 * Seconds(stays) <= last - first
  {
    if stays == [] {
    } else {
      var stay := stays[|stays| - 1];
      SecondsWithin(stays[..|stays| - 1], first, stay.from);
    }
  }

  /** Without late repeats nobody is credited with more time than was spent in class, nor than
      has passed. */
  lemma TotalWithinSpan(acts: seq<Act>)
    requires NothingGiven(acts) && InOrder(acts) && acts != [] && forall k :: !LateRepeat(acts, k)
    ensures Solo(NEW, acts).seconds <= Seconds(Stays(acts))
    ensures 1000000 * Solo(NEW, acts).seconds <= acts[|acts| - 1].at - acts[0].at
  {
    TotalIsTimeInClassCorrected(acts);
    RepeatsVanishIff(acts);
    LostVanishesIff(acts);
    StaysWithinSpan(acts);
  }

  lemma StaysWithinSpan(acts: seq<Act>)
    requires InOrder(acts) && acts != []
    ensures 1000000 * Seconds(Stays(acts)) <= acts[|acts| - 1].at - acts[0].at
  {
    StaysAreDisjoint(acts);
    SecondsWithin(Stays(acts), acts[0].at, acts[|acts| - 1].at);
  }

  /** Over any run of a class, with any interleaving of its participants, each total is the
      participant's own time in class, less what the participant's own late arrivals lose, plus
      what the participant's own late repeats add. */
  lemma RunTotalsAreTimeInClassIff(requests: seq<Request>, i: nat)
    requires NothingGiven(RunActs(Class(Scheduled, []), requests, i))
    ensures var acts := RunActs(Class(Scheduled, []), requests, i);
      var total := PresenceOf(Run(Class(Scheduled, []), requests).participants, i).seconds;
      && total == Seconds(Stays(acts)) - Lost(acts) + Repeats(acts)
      && (Repeats(acts) == 0 <==> forall k :: !LateRepeat(acts, k))
      && (InOrder(acts) ==> (Lost(acts) == 0 <==> forall k :: !LateArrival(acts, k)))
  {
    var acts := RunActs(Class(Scheduled, []), requests, i);
    ParticipantsAreIndependent(Class(Scheduled, []), requests, i);
    TotalIsTimeInClassCorrected(acts);
    TotalIsTimeInClassIff(acts);
  }
}
