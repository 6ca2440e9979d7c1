/** The live-class service as it runs, for one class: the loops over events and participants. */
module LiveService {
  import opened Options
  import opened LiveClasses

  class Service {
    var status: ClassStatus
    var participants: seq<Participant>

    constructor ()
      ensures State() == Class(Scheduled, [])
    {
      status, participants := Scheduled, [];
    }

    ghost function State(): Class
      reads this
    {
      Class(status, participants)
    }

    method OpenClass() returns (outcome: Outcome)
      modifies this`status
      ensures (State(), outcome) == Step(old(State()), Opening)
    {
      if status != Scheduled { return Failed(OpenNotAllowed); }
      status := Open;
      return Done;
    }

    method CancelClass() returns (outcome: Outcome)
      modifies this`status
      ensures (State(), outcome) == Step(old(State()), Cancelling)
    {
      if status in {Ended, Cancelled} { return Failed(ClassClosed); }
      status := Cancelled;
      return Done;
    }

    /** `end_class`: close whoever is still in. */
    method End(now: int) returns (outcome: Outcome)
      modifies this
      ensures (State(), outcome) == EndClass(old(State()), now)
    {
      if status == Ended { return Done; }
      if status == Cancelled { return Failed(ClassCancelled); }
      status := Ended;
      for i := 0 to |participants|
        invariant status == Ended && |participants| == |old(participants)|
        invariant forall k | 0 <= k < i :: participants[k] == EndAll(old(participants), now)[k]
        invariant forall k | i <= k < |participants| :: participants[k] == old(participants)[k]
      {
        var p := participants[i].presence;
        if p.joinedAt.Some? && p.leftAt.None? {
          p := p.(leftAt := Some(now), status := Completed);
          p := p.(seconds := p.seconds + Duration(p.joinedAt.value, now));
          participants := participants[i := participants[i].(presence := p)];
        }
      }
      assert participants == EndAll(old(participants), now);
      return Done;
    }

    /** `_upsert_allowed_participant`: the row for an identity, made or brought up to date. */
    method Upsert(who: Who, joinedAt: Option<int>) returns (i: nat)
      modifies this`participants
      ensures i == Resolve(old(participants), who) < |participants|
      ensures participants ==
              (if i == |old(participants)| then
                  old(participants) + [Participant(who, Presence(joinedAt, None, Allowed, 0))]
               else old(participants)[i := participants[i]])
      ensures i < |old(participants)| ==>
                var before := old(participants)[i].presence;
                participants[i] == old(participants)[i].(presence :=
                  if joinedAt.Some? then before.(status := Allowed, joinedAt := joinedAt, leftAt := None)
                  else before.(status := Allowed))
    {
      i := Resolve(participants, who);
      if i == |participants| {
        participants := participants + [Participant(who, Presence(joinedAt, None, Allowed, 0))];
        return;
      }
      var p := participants[i].presence.(status := Allowed);
      if joinedAt.Some? { p := p.(joinedAt := joinedAt, leftAt := None); }
      participants := participants[i := participants[i].(presence := p)];
    }

    method CaptureOne(event: Event)
      modifies this`participants
      ensures participants == Apply(old(participants), event)
    {
      var joinedAt := if event.act.Join? then Some(event.act.at) else None;
      var i := Upsert(event.who, joinedAt);
      if event.act.Left? {
        var p := participants[i].presence;
        if event.act.given.Some? {
          p := p.(seconds := event.act.given.value);
        } else if p.joinedAt.Some? {
          p := p.(seconds := p.seconds + Duration(p.joinedAt.value, event.act.at));
        }
        p := p.(leftAt := Some(event.act.at), status := Completed);
        participants := participants[i := participants[i].(presence := p)];
      }
    }

    /** `capture_attendance_events`: one pass over the payload; nothing looks at the status. */
    method Capture(events: seq<Event>)
      modifies this`participants
      ensures State() == Step(old(State()), Capturing(events)).0
    {
      for k := 0 to |events|
        invariant participants == ApplyAll(old(participants), events[..k]) && status == old(status)
      {
        assert events[..k + 1][..k] == events[..k];
        CaptureOne(events[k]);
      }
      assert events[..|events|] == events;
    }

    /** `validate_access`, past its checks on other tables. */
    method Enter(who: Who, now: int, denied: bool) returns (outcome: Outcome)
      modifies this`participants
      ensures (State(), outcome) == Access(old(State()), who, now, denied)
    {
      if status in {Ended, Cancelled} || denied { return Failed(Denied); }
      var i := Upsert(who, Some(now));
      return Done;
    }
  }
}
