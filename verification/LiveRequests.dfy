/** What each live-class request does to the class and its participants, when it is refused, and
    what it leaves alone. */
module LiveRequests {
  import opened Options
  import opened LiveClasses

  /** A refused request changes nothing. */
  lemma RefusedChangesNothing(c: Class, request: Request)
    requires Step(c, request).1.Failed?
    ensures Step(c, request).0 == c
  {
  }

  /** A scheduled class opens; one that is neither ended nor cancelled can be cancelled, which
      leaves its participants alone. */
  lemma StatusesAsAsked(c: Class)
    ensures Step(c, Opening).1.Done? <==> c.status == Scheduled
    ensures Step(c, Opening).1.Done? ==> Step(c, Opening).0 == Class(Open, c.participants)
    ensures Step(c, Opening).1.Failed? ==> Step(c, Opening).1.error == OpenNotAllowed
    ensures Step(c, Cancelling).1.Failed? ==> Step(c, Cancelling).1.error == ClassClosed
    ensures Step(c, Cancelling).1.Done? <==> c.status != Ended && c.status != Cancelled
    ensures Step(c, Cancelling).1.Done? ==> Step(c, Cancelling).0 == Class(Cancelled, c.participants)
  {
  }

  /** Who counts as in class: arrived and not left since. */
  ghost predicate IsIn(p: Presence) {
    p.joinedAt.Some? && p.leftAt.None?
  }

  /** Whole seconds from one time to a later one, and none to an earlier one. */
  ghost predicate IsSeconds(n: nat, from: int, to: int) {
    if to <= from then n == 0 else 1000000 * n <= to - from < 1000000 * (n + 1)
  }

  lemma DurationIsSeconds(from: int, to: int)
    ensures IsSeconds(Duration(from, to), from, to)
  {
  }

  /** Ending closes the class unless it is cancelled; whoever is in leaves now with the seconds
      since arriving added, and nobody else changes. */
  lemma EndsAsAsked(c: Class, now: int)
    ensures var (t, outcome) := Step(c, Ending(now));
      && (outcome.Done? <==> c.status != Cancelled) && (outcome.Failed? ==> outcome.error == ClassCancelled)
      && (c.status == Ended ==> t == c)
      && (c.status != Ended && c.status != Cancelled ==>
            && t.status == Ended && |t.participants| == |c.participants|
            && forall i | 0 <= i < |c.participants| ::
                 t.participants[i].who == c.participants[i].who
                 && ClosedAt(c.participants[i].presence, t.participants[i].presence, now))
  {
    if c.status != Ended && c.status != Cancelled {
      var t := Step(c, Ending(now)).0;
      forall i | 0 <= i < |c.participants|
        ensures ClosedAt(c.participants[i].presence, t.participants[i].presence, now)
      {
        var p := c.participants[i].presence;
        if IsIn(p) { DurationIsSeconds(p.joinedAt.value, now); }
      }
    }
  }

  ghost predicate ClosedAt(before: Presence, after: Presence, now: int) {
    if IsIn(before) then
      && after.joinedAt == before.joinedAt && after.leftAt == Some(now) && after.status == Completed
      && after.seconds >= before.seconds && IsSeconds(after.seconds - before.seconds, before.joinedAt.value, now)
    else
      after == before
  }

  // Identities

  /** The participant an event names is the first that shares an id it gives, and a new one, with
      the identity given, when none does. */
  lemma ReachesFirst(ps: seq<Participant>, event: Event)
    ensures var after := Apply(ps, event);
      var i := Resolve(ps, event.who);
      && (i < |ps| <==> exists j :: 0 <= j < |ps| && SharesId(ps[j].who, event.who))
      && (i < |ps| ==> SharesId(ps[i].who, event.who) && |after| == |ps| && after[i].who == ps[i].who)
      && (i == |ps| ==> |after| == |ps| + 1 && after[i].who == event.who)
      && (forall j | 0 <= j < i :: !SharesId(ps[j].who, event.who))
      && (forall j | 0 <= j < |ps| && j != i :: after[j] == ps[j])
  {
    assert forall j | 0 <= j < |ps| :: SharesId(ps[j].who, event.who) <==> Matches(ps[j].who, event.who);
  }

  ghost predicate SharesId(stored: Who, given: Who) {
    || (given.user.Some? && stored.user == given.user)
    || (given.student.Some? && stored.student == given.student)
    || (given.employee.Some? && stored.employee == given.employee)
  }

  // Arrivals and departures

  /** Arriving puts a participant in class from that time, keeping the seconds so far. */
  lemma ArrivesAsReported(p: Presence, at: int)
    ensures After(p, Join(at)) == Presence(Some(at), None, Allowed, p.seconds)
  {
  }

  /** Leaving takes a participant out of class; a given total replaces the seconds so far, and
      otherwise the seconds since the latest arrival, if there was one, are added. */
  lemma LeavesAsReported(p: Presence, at: int, given: Option<nat>)
    ensures var after := After(p, Left(at, given));
      && after.joinedAt == p.joinedAt && after.leftAt == Some(at) && after.status == Completed
      && (given.Some? ==> after.seconds == given.value)
      && (given.None? && p.joinedAt.None? ==> after.seconds == p.seconds)
      && (given.None? && p.joinedAt.Some? ==>
            after.seconds >= p.seconds && IsSeconds(after.seconds - p.seconds, p.joinedAt.value, at))
  {
    if p.joinedAt.Some? { DurationIsSeconds(p.joinedAt.value, at); }
  }

  /** Entering is refused for an ended or cancelled class or when denied; otherwise the identity
      arrives now and nobody else changes. */
  lemma EntersAsAsked(c: Class, who: Who, now: int, denied: bool)
    ensures var (t, outcome) := Step(c, Accessing(who, now, denied));
      var i := Resolve(c.participants, who);
      && (outcome.Done? <==> !denied && c.status != Ended && c.status != Cancelled)
      && (outcome.Failed? ==> outcome.error == Denied)
      && (outcome.Done? ==>
            && t.status == c.status && i < |t.participants|
            && t.participants[i].presence == Presence(Some(now), None, Allowed, PresenceOf(c.participants, i).seconds)
            && |t.participants| == (if i < |c.participants| then |c.participants| else i + 1)
            && forall j | 0 <= j < |c.participants| && j != i :: t.participants[j] == c.participants[j])
  {
    ReachesFirst(c.participants, Event(who, Join(now)));
  }

  /** Reported events are applied in turn, whatever the status of the class. */
  lemma CapturesAsReported(c: Class, event: Event, events: seq<Event>)
    ensures Step(c, Capturing([])) == (c, Done)
    ensures var (t, outcome) := Step(c, Capturing(events + [event]));
      var before := Step(c, Capturing(events)).0;
      var i := Resolve(before.participants, event.who);
      && outcome == Done && t.status == c.status && i < |t.participants|
      && t.participants[i].presence == After(PresenceOf(before.participants, i), event.act)
      && (forall j | 0 <= j < |before.participants| && j != i :: t.participants[j] == before.participants[j])
  {
    assert (events + [event])[..|events + [event]| - 1] == events;
  }
}
