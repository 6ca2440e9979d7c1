/** What each attendance request does to the rows it names, when it is refused, and what it leaves
    alone. */
module AttendanceRequests {
  import opened Options
  import opened Attendance

  /** A refused request changes nothing. */
  lemma RefusedChangesNothing(s: Store, request: Request)
    requires Step(s, request).1.Failed?
    ensures Step(s, request).0 == s
  {
  }

  // Students

  /** The text the status column holds. */
  ghost predicate StudentSays(text: string, status: StudentStatus) {
    match status
    case Present => text == "present"
    case Absent => text == "absent"
    case Late => text == "late"
    case Excused => text == "excused"
  }

  ghost predicate EmployeeSays(text: string, status: EmployeeStatus) {
    match status
    case Present => text == "present"
    case Absent => text == "absent"
    case Late => text == "late"
    case HalfDay => text == "half_day"
    case OnLeave => text == "on_leave"
  }

  ghost predicate CanWrite(session: Session) {
    session.status != Locked && session.status != Cancelled
  }

  /** Marking is accepted for a session that is not locked or cancelled and students of its batch;
      it submits the session when asked to and touches nothing but the students' records. */
  lemma MarksAsAsked(s: Store, session: nat, marks: seq<Mark>, members: set<nat>, submit: bool)
    ensures var (t, outcome) := Step(s, Marking(session, marks, members, submit));
      && (outcome.Done? <==>
            && session < |s.sessions| && CanWrite(s.sessions[session])
            && forall k | 0 <= k < |marks| :: marks[k].student in members)
      && (outcome.Failed? ==>
            outcome.error == if session >= |s.sessions| then SessionNotFound
                             else if CanWrite(s.sessions[session]) then StudentNotInBatch else SessionLocked)
      && (outcome.Done? ==>
            && outcome == Done(session) && t.employees == s.employees && t.corrections == s.corrections
            && t.sessions == if submit then s.sessions[session := s.sessions[session].(status := Submitted)]
                else s.sessions)
  {
  }

  /** Each mark ends as a record of its student with its text, for a request that names each
      student once. */
  lemma MarkIsRecorded(s: Store, session: nat, marks: seq<Mark>, members: set<nat>, submit: bool, k: nat)
    requires StudentRowsSound(s.students) && Step(s, Marking(session, marks, members, submit)).1.Done?
    requires k < |marks| && forall i, j | 0 <= i < j < |marks| :: marks[i].student != marks[j].student
    ensures var t := Step(s, Marking(session, marks, members, submit)).0;
      exists i :: 0 <= i < |t.students| && t.students[i].session == session && t.students[i].student == marks[k].student
                  && StudentSays(t.students[i].status, marks[k].status)
  {
    var t := Step(s, Marking(session, marks, members, submit)).0;
    LastIsOnly(marks, k);
    MarkingTakesTheLast(s.students, session, marks, session, marks[k].student, StudentText(marks[k].status));
    var i :| 0 <= i < |t.students| && t.students[i]
        == StudentRecord(session, marks[k].student, StudentText(marks[k].status));
  }

  lemma {:induction false} LastIsOnly(marks: seq<Mark>, k: nat)
    requires k < |marks| && forall i, j | 0 <= i < j < |marks| :: marks[i].student != marks[j].student
    ensures LastMark(marks, marks[k].student) == Some(marks[k].status)
  {
    if k < |marks| - 1 {
      assert marks[k].student != marks[|marks| - 1].student;
      LastIsOnly(marks[..|marks| - 1], k);
    }
  }

  /** A student who is not marked keeps the record, or goes without one, and so does everyone in
      another session. */
  lemma UnmarkedStay(s: Store, session: nat, marks: seq<Mark>, members: set<nat>, submit: bool, row: StudentRecord)
    requires StudentRowsSound(s.students)
    requires row.session == session ==> forall k | 0 <= k < |marks| :: marks[k].student != row.student
    ensures row in Step(s, Marking(session, marks, members, submit)).0.students <==> row in s.students
  {
    var t := Step(s, Marking(session, marks, members, submit)).0;
    MarkingTakesTheLast(s.students, session, marks, row.session, row.student, row.status);
    assert row in s.students <==> HasStatus(s.students, row.session, row.student, row.status);
    assert row in t.students <==> HasStatus(t.students, row.session, row.student, row.status);
  }

  /** An update sets a record's status, if one is given, while its session can be written. */
  lemma UpdatesAsAsked(s: Store, record: nat, status: Option<StudentStatus>)
    requires Inv(s)
    ensures var (t, outcome) := Step(s, Editing(record, status));
      && (outcome.Done? <==> record < |s.students| && CanWrite(s.sessions[s.students[record].session]))
      && (outcome.Failed? ==> outcome.error == if record < |s.students| then SessionLocked else StudentRecordNotFound)
      && (outcome.Done? ==>
            && outcome.row == record
            && t == s.(students := t.students) && |t.students| == |s.students|
            && (forall i | 0 <= i < |s.students| && i != record :: t.students[i] == s.students[i])
            && t.students[record] == s.students[record].(status := t.students[record].status)
            && (if status.Some? then StudentSays(t.students[record].status, status.value) else t == s))
  {
  }

  // Employees

  /** The first check-in of a known employee's day is recorded as present; any other is refused,
      or answered with the same record when it repeats its key. */
  lemma ChecksInAsAsked(s: Store, employee: nat, known: bool, at: int, day: int, key: Option<string>)
    ensures var (t, outcome) := Step(s, CheckingIn(employee, known, at, day, key));
      var found := exists i ::
          0 <= i < |s.employees| && s.employees[i].employee == employee && s.employees[i].day == day;
      && (t != s <==> known && !found)
      && (t != s ==>
            && outcome == Done(|s.employees|)
            && t == s.(employees := s.employees + [EmployeeRecord(employee, day, Some(at), None, "present", key)]))
      && (t == s && outcome.Done? ==>
            && outcome.row < |s.employees| && s.employees[outcome.row].employee == employee
            && s.employees[outcome.row].day == day
            && key.Some? && key.value != "" && s.employees[outcome.row].key == key)
      && (outcome.Failed? ==> outcome.error == if known then AlreadyCheckedIn else EmployeeNotFound)
  {
    var (t, outcome) := Step(s, CheckingIn(employee, known, at, day, key));
    if known && FindDay(s.employees, employee, day).None? { assert |t.employees| == |s.employees| + 1; }
  }

  /** A check-out goes to the employee's record of the day, not before its check-in; it sets the
      time, and the status if one is given, and touches nothing else. */
  lemma ChecksOutAsAsked(s: Store, employee: nat, known: bool, at: int, day: int, status: Option<EmployeeStatus>,
      i: nat)
    requires EmployeeRowsSound(s.employees)
    requires i < |s.employees| && s.employees[i].employee == employee && s.employees[i].day == day
    ensures var (t, outcome) := Step(s, CheckingOut(employee, known, at, day, status));
      && (outcome.Done? <==> known && s.employees[i].checkIn.value <= at)
      && (outcome.Failed? ==> outcome.error == if known then CheckOutBeforeCheckIn else EmployeeNotFound)
      && (outcome.Done? ==>
            && outcome.row == i
            && t == s.(employees := s.employees[i := s.employees[i].(checkOut := Some(at),
                status := t.employees[i].status)])
            && (if status.Some? then EmployeeSays(t.employees[i].status, status.value)
                else t.employees[i].status == s.employees[i].status))
  {
    assert EmployeeRowSound(s.employees[i]);
    assert FindDay(s.employees, employee, day) == Some(i);
  }

  /** Nobody checks out on a day without a check-in. */
  lemma NoCheckOutWithoutCheckIn(s: Store, employee: nat, known: bool, at: int, day: int,
      status: Option<EmployeeStatus>)
    requires forall i | 0 <= i < |s.employees| :: s.employees[i].employee != employee || s.employees[i].day != day
    ensures Step(s, CheckingOut(employee, known, at, day, status))
            == (s, Failed(if known then NotCheckedIn else EmployeeNotFound))
  {
  }

  // Corrections

  /** A correction may be requested for a record that exists and a status of its kind. */
  lemma RequestsAsAsked(s: Store, target: Target, requested: string)
    ensures var (t, outcome) := Step(s, Correcting(target, requested));
      && (outcome.Done? <==>
            && target.record.Some?
            && (if target.OfStudent? then
                  requested in {"present", "absent", "late", "excused"} && target.record.value < |s.students|
                else
                  requested in {"present", "absent", "late", "half_day", "on_leave"}
                  && target.record.value < |s.employees|))
      && (outcome.Done? ==>
            outcome == Done(|s.corrections|) && t
                == s.(corrections := s.corrections + [Correction(target, requested, Pending)]))
      && (outcome == Failed(InvalidStatus) <==>
          requested !in {"present", "absent", "late"} + if target.OfStudent? then {"excused"}
              else {"half_day", "on_leave"})
      && (outcome.Failed? && outcome.error != InvalidStatus ==>
            outcome.error == if target.record.None? then TargetRequired
                             else if target.OfStudent? then StudentRecordNotFound else EmployeeRecordNotFound)
  {
  }

  /** Reviewing a pending correction never fails: rejecting closes it, approving closes it and sets
      the status of its record, and nothing else changes. */
  lemma ReviewsAsAsked(s: Store, c: nat, approved: bool)
    requires Inv(s) && c < |s.corrections| && s.corrections[c].status == Pending
    ensures var (t, outcome) := Step(s, Reviewing(c, approved));
      var requested := s.corrections[c].requested;
      && outcome == Done(c) && t.sessions == s.sessions
      && t.corrections == s.corrections[c := s.corrections[c].(status := if approved then Approved else Rejected)]
      && (if !approved then
            t.students == s.students && t.employees == s.employees
          else
            match s.corrections[c].target
            case OfStudent(record) =>
              && record.Some? && record.value < |s.students| && t.employees == s.employees
              && t.students == s.students[record.value := s.students[record.value].(status := requested)]
            case OfEmployee(record) =>
              && record.Some? && record.value < |s.employees| && t.students == s.students
              && t.employees == s.employees[record.value := s.employees[record.value].(status := requested)])
  {
    assert CorrectionSound(s, s.corrections[c]);
  }

  /** A review is refused only for a missing correction or a closed one. */
  lemma ReviewRefused(s: Store, c: nat, approved: bool)
    requires Inv(s) && (c < |s.corrections| ==> s.corrections[c].status != Pending)
    ensures Step(s, Reviewing(c, approved))
            == (s, Failed(if c < |s.corrections| then CorrectionClosed else CorrectionNotFound))
  {
  }

  /** A session starts with the batch, day and status it is given. */
  lemma OpensAsAsked(s: Store, session: Session)
    ensures Step(s, NewSession(session)) == (s.(sessions := s.sessions + [session]), Done(|s.sessions|))
  {
  }
}
