/** The participants of one live class (app/modules/live/service.py). Times are microseconds;
    participants are in order of creation. */
module LiveClasses {
  import opened Options

  datatype Who = Who(user: Option<nat>, student: Option<nat>, employee: Option<nat>)
  datatype JoinStatus = Allowed | Completed
  datatype Presence = Presence(joinedAt: Option<int>, leftAt: Option<int>, status: JoinStatus, seconds: nat)
  datatype Participant = Participant(who: Who, presence: Presence)

  const NEW := Presence(None, None, Allowed, 0)

  datatype ClassStatus = Scheduled | Open | Live | Ended | Cancelled
  datatype Class = Class(status: ClassStatus, participants: seq<Participant>)

  /** What happens to one participant. `given` is an explicit total in seconds. */
  datatype Act = Join(at: int) | Left(at: int, given: Option<nat>) | End(at: int)

  /** What is reported: arrivals and departures. */
  type Report = act: Act | !act.End? witness Join(0)

  datatype Event = Event(who: Who, act: Report)

  datatype Error = ClassCancelled | ClassClosed | OpenNotAllowed | Denied
  datatype Outcome = Done | Failed(error: Error)

  /** `_duration_seconds`, with its clamp and truncation toward zero. */
  function Duration(from: int, to: int): nat {
    if to <= from then 0 else (to - from) / 1000000
  }

  predicate SameId(stored: Option<nat>, given: Option<nat>) {
    given.Some? && stored == given
  }

  /** An identity matches on any id it gives. */
  predicate Matches(stored: Who, given: Who) {
    SameId(stored.user, given.user) || SameId(stored.student, given.student) || SameId(stored.employee, given.employee)
  }

  /** `find_identity`: the first match; the number of participants when there is none. */
  function Resolve(ps: seq<Participant>, who: Who): (i: nat)
    ensures i <= |ps| && (i < |ps| ==> Matches(ps[i].who, who))
    ensures forall j | 0 <= j < i :: !Matches(ps[j].who, who)
  {
    if ps == [] then 0
    else
      var i := Resolve(ps[..|ps| - 1], who);
      if i < |ps| - 1 then i else if Matches(ps[|ps| - 1].who, who) then |ps| - 1 else |ps|
  }

  /** `_upsert_allowed_participant` and, for a departure, what `capture_attendance_events` adds;
      for the end of the class, what `end_class` does to a participant. */
  function After(p: Presence, act: Act): Presence {
    match act
    case Join(at) => p.(status := Allowed, joinedAt := Some(at), leftAt := None)
    case Left(at, given) =>
      var seconds :=
        if given.Some? then given.value
        else if p.joinedAt.Some? then p.seconds + Duration(p.joinedAt.value, at)
        else p.seconds;
      p.(status := Completed, leftAt := Some(at), seconds := seconds)
    case End(at) =>
      if p.joinedAt.Some? && p.leftAt.None?
      then p.(status := Completed, leftAt := Some(at), seconds := p.seconds + Duration(p.joinedAt.value, at))
      else p
  }

  function Apply(ps: seq<Participant>, event: Event): seq<Participant> {
    var i := Resolve(ps, event.who);
    if i == |ps| then ps + [Participant(event.who, After(NEW, event.act))]
    else ps[i := ps[i].(presence := After(ps[i].presence, event.act))]
  }

  function ApplyAll(ps: seq<Participant>, events: seq<Event>): seq<Participant> {
    if events == [] then ps else Apply(ApplyAll(ps, events[..|events| - 1]), events[|events| - 1])
  }

  function EndAll(ps: seq<Participant>, now: int): (r: seq<Participant>)
    ensures |r| == |ps|
    ensures forall i | 0 <= i < |ps| :: r[i] == ps[i].(presence := After(ps[i].presence, End(now)))
  {
    seq(|ps|, i requires 0 <= i < |ps| => ps[i].(presence := After(ps[i].presence, End(now))))
  }

  // Requests

  datatype Request =
    | Opening
    | Cancelling
    | Ending(now: int)
    /** `validate_access`; `denied` sums up the checks that depend on other tables. */
    | Accessing(who: Who, now: int, denied: bool)
    | Capturing(events: seq<Event>)

  function EndClass(c: Class, now: int): (Class, Outcome) {
    if c.status == Ended then (c, Done)
    else if c.status == Cancelled then (c, Failed(ClassCancelled))
    else (Class(Ended, EndAll(c.participants, now)), Done)
  }

  function Access(c: Class, who: Who, now: int, denied: bool): (Class, Outcome) {
    if c.status in {Ended, Cancelled} || denied then (c, Failed(Denied))
    else (c.(participants := Apply(c.participants, Event(who, Join(now)))), Done)
  }

  function Step(c: Class, request: Request): (Class, Outcome) {
    match request
    case Opening => if c.status == Scheduled then (c.(status := Open), Done) else (c, Failed(OpenNotAllowed))
    case Cancelling =>
      if c.status in {Ended, Cancelled} then (c, Failed(ClassClosed)) else (c.(status := Cancelled), Done)
    case Ending(now) => EndClass(c, now)
    case Accessing(who, now, denied) => Access(c, who, now, denied)
    case Capturing(events) => (c.(participants := ApplyAll(c.participants, events)), Done)
  }

  function Run(c: Class, requests: seq<Request>): Class {
    if requests == [] then c else Step(Run(c, requests[..|requests| - 1]), requests[|requests| - 1]).0
  }

  // One participant at a time

  function Solo(p: Presence, acts: seq<Act>): Presence {
    if acts == [] then p else After(Solo(p, acts[..|acts| - 1]), acts[|acts| - 1])
  }

  /** The presence of participant `i`; a participant that does not exist yet is a new one. */
  function PresenceOf(ps: seq<Participant>, i: nat): Presence {
    if i < |ps| then ps[i].presence else NEW
  }

  /** The events that reach participant `i`, each resolved when it arrives. */
  function EventActs(ps: seq<Participant>, events: seq<Event>, i: nat): seq<Act> {
    if events == [] then []
    else
      var front, last := events[..|events| - 1], events[|events| - 1];
      EventActs(ps, front, i) + if Resolve(ApplyAll(ps, front), last.who) == i then [last.act] else []
  }

  function RequestActs(c: Class, request: Request, i: nat): seq<Act> {
    match request
    case Opening => []
    case Cancelling => []
    case Ending(now) => if c.status in {Ended, Cancelled} || i >= |c.participants| then [] else [End(now)]
    case Accessing(who, now, denied) =>
      if c.status in {Ended, Cancelled} || denied || Resolve(c.participants, who) != i then [] else [Join(now)]
    case Capturing(events) => EventActs(c.participants, events, i)
  }

  function RunActs(c: Class, requests: seq<Request>, i: nat): seq<Act> {
    if requests == [] then []
    else
      var front := requests[..|requests| - 1];
      RunActs(c, front, i) + RequestActs(Run(c, front), requests[|requests| - 1], i)
  }

  lemma {:induction false} SoloSplits(p: Presence, first: seq<Act>, second: seq<Act>)
    ensures Solo(p, first + second) == Solo(Solo(p, first), second)
  {
    if second == [] {
      assert first + second == first;
    } else {
      SoloSplits(p, first, second[..|second| - 1]);
      assert (first + second)[..|first + second| - 1] == first + second[..|second| - 1];
    }
  }

  lemma OneAct(p: Presence, act: Act)
    ensures Solo(p, [act]) == After(p, act)
  {
    assert [act][..0] == [];
  }

  lemma EventReachesOne(ps: seq<Participant>, event: Event, i: nat)
    ensures |ps| <= |Apply(ps, event)|
    ensures PresenceOf(Apply(ps, event), i)
            == if Resolve(ps, event.who) == i then After(PresenceOf(ps, i), event.act) else PresenceOf(ps, i)
  {
  }

  lemma {:induction false} EventsReachOne(ps: seq<Participant>, events: seq<Event>, i: nat)
    ensures |ps| <= |ApplyAll(ps, events)|
    ensures PresenceOf(ApplyAll(ps, events), i) == Solo(PresenceOf(ps, i), EventActs(ps, events, i))
  {
    if events == [] {
    } else {
      var front, last := events[..|events| - 1], events[|events| - 1];
      EventsReachOne(ps, front, i);
      EventReachesOne(ApplyAll(ps, front), last, i);
      if Resolve(ApplyAll(ps, front), last.who) == i {
        OneMoreAct(PresenceOf(ps, i), EventActs(ps, front, i), last.act);
      } else {
        assert EventActs(ps, events, i) == EventActs(ps, front, i);
      }
    }
  }

  lemma OneMoreAct(p: Presence, acts: seq<Act>, act: Act)
    ensures Solo(p, acts + [act]) == After(Solo(p, acts), act)
  {
    SoloSplits(p, acts, [act]);
    OneAct(Solo(p, acts), act);
  }

  lemma StepReachesOne(c: Class, request: Request, i: nat)
    ensures |c.participants| <= |Step(c, request).0.participants|
    ensures PresenceOf(Step(c, request).0.participants, i)
            == Solo(PresenceOf(c.participants, i), RequestActs(c, request, i))
  {
    match request
    case Capturing(events) => EventsReachOne(c.participants, events, i);
    case Ending(now) => OneAct(PresenceOf(c.participants, i), End(now));
    case Accessing(_, now, _) => OneAct(PresenceOf(c.participants, i), Join(now));
    case Opening =>
    case Cancelling =>
  }

  /** Participants do not disturb each other: whatever the interleaving, over any run each one
      ends as the acts that reached it, alone and in order, leave it. */
  lemma {:induction false} ParticipantsAreIndependent(c: Class, requests: seq<Request>, i: nat)
    ensures |c.participants| <= |Run(c, requests).participants|
    ensures PresenceOf(Run(c, requests).participants, i) == Solo(PresenceOf(c.participants, i), RunActs(c, requests, i))
  {
    if requests == [] {
    } else {
      var front, last := requests[..|requests| - 1], requests[|requests| - 1];
      ParticipantsAreIndependent(c, front, i);
      StepReachesOne(Run(c, front), last, i);
      SoloSplits(PresenceOf(c.participants, i), RunActs(c, front, i), RequestActs(Run(c, front), last, i));
    }
  }

  // Who an event reaches

  /** A participant keeps its identity, and an identity keeps its participant. */
  lemma IdentityIsStable(ps: seq<Participant>, event: Event, who: Who)
    requires Resolve(ps, who) < |ps|
    ensures Resolve(Apply(ps, event), who) == Resolve(ps, who)
    ensures Apply(ps, event)[Resolve(ps, who)].who == ps[Resolve(ps, who)].who
  {
  }

  /** An event that names someone reaches that participant from then on. */
  lemma ReachedAgain(ps: seq<Participant>, event: Event)
    requires event.who.user.Some? || event.who.student.Some? || event.who.employee.Some?
    ensures Resolve(Apply(ps, event), event.who) == Resolve(ps, event.who)
  {
    var after := Apply(ps, event);
    assert Matches(after[Resolve(ps, event.who)].who, event.who);
  }

  // Ending

  lemma {:induction false} EndedForGood(c: Class, requests: seq<Request>)
    requires c.status == Ended
    ensures Run(c, requests).status == Ended
  {
    if requests == [] {
    } else {
      EndedForGood(c, requests[..|requests| - 1]);
    }
  }

  /** A second end adds nothing, even after late events have come in. */
  lemma EndingAgainDoesNothing(c: Class, now: int, requests: seq<Request>, later: int)
    requires EndClass(c, now).1 == Done
    ensures var late := Run(EndClass(c, now).0, requests); EndClass(late, later) == (late, Done)
  {
    EndedForGood(EndClass(c, now).0, requests);
  }
}
