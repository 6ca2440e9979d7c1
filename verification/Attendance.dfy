/** Attendance of students and employees (app/modules/attend/service.py), for one tenant. Rows
    are never deleted, so ids are positions. Times are microseconds; the day a time falls on
    depends on its zone and comes with it. */
module Attendance {
  import opened Options

  datatype StudentStatus = Present | Absent | Late | Excused
  datatype EmployeeStatus = Present | Absent | Late | HalfDay | OnLeave

  datatype Session = Session(batch: nat, day: int, status: SessionStatus)
  datatype SessionStatus = Draft | Open | Submitted | Locked | Cancelled

  /** The status columns are free text. */
  datatype StudentRecord = StudentRecord(session: nat, student: nat, status: string)
  datatype EmployeeRecord = EmployeeRecord(
    employee: nat, day: int, checkIn: Option<int>, checkOut: Option<int>, status: string, key: Option<string>)

  datatype Target = OfStudent(record: Option<nat>) | OfEmployee(record: Option<nat>)
  datatype CorrectionStatus = Pending | Approved | Rejected
  datatype Correction = Correction(target: Target, requested: string, status: CorrectionStatus)

  datatype Store = Store(
    sessions: seq<Session>, students: seq<StudentRecord>, employees: seq<EmployeeRecord>, corrections: seq<Correction>)

  const EMPTY := Store([], [], [], [])

  datatype Error =
    | SessionNotFound | SessionLocked | StudentNotInBatch | StudentRecordNotFound
    | EmployeeNotFound | AlreadyCheckedIn | NotCheckedIn | CheckOutBeforeCheckIn | EmployeeRecordNotFound
    | InvalidStatus | TargetRequired | CorrectionNotFound | CorrectionClosed
  datatype Outcome = Done(row: nat) | Failed(error: Error)

  // Status texts

  function StudentText(status: StudentStatus): string {
    match status
    case Present => "present"
    case Absent => "absent"
    case Late => "late"
    case Excused => "excused"
  }

  function EmployeeText(status: EmployeeStatus): string {
    match status
    case Present => "present"
    case Absent => "absent"
    case Late => "late"
    case HalfDay => "half_day"
    case OnLeave => "on_leave"
  }

  predicate KnownStudentText(text: string) {
    text in {"present", "absent", "late", "excused"}
  }

  predicate KnownEmployeeText(text: string) {
    text in {"present", "absent", "late", "half_day", "on_leave"}
  }

  // Student records

  datatype Mark = Mark(student: nat, status: StudentStatus)

  function FindRecord(rows: seq<StudentRecord>, session: nat, student: nat): (r: Option<nat>)
    ensures r.Some? ==> r.value < |rows| && rows[r.value].session == session && rows[r.value].student == student
    ensures r.None? ==> forall i | 0 <= i < |rows| :: rows[i].session != session || rows[i].student != student
  {
    if rows == [] then None
    else
      var last := |rows| - 1;
      if rows[last].session == session && rows[last].student == student then Some(last)
      else FindRecord(rows[..last], session, student)
  }

  function MarkOne(rows: seq<StudentRecord>, session: nat, mark: Mark): seq<StudentRecord> {
    match FindRecord(rows, session, mark.student)
    case None => rows + [StudentRecord(session, mark.student, StudentText(mark.status))]
    case Some(i) => rows[i := rows[i].(status := StudentText(mark.status))]
  }

  function MarkAll(rows: seq<StudentRecord>, session: nat, marks: seq<Mark>): seq<StudentRecord> {
    if marks == [] then rows
    else MarkOne(MarkAll(rows, session, marks[..|marks| - 1]), session, marks[|marks| - 1])
  }

  predicate Writable(status: SessionStatus) {
    !status.Locked? && !status.Cancelled?
  }

  /** `members` are the students of the session's batch. */
  function MarkRecords(s: Store, session: nat, marks: seq<Mark>, members: set<nat>, submit: bool): (Store, Outcome) {
    if session >= |s.sessions| then (s, Failed(SessionNotFound))
    else if !Writable(s.sessions[session].status) then (s, Failed(SessionLocked))
    else if exists k | 0 <= k < |marks| :: marks[k].student !in members then (s, Failed(StudentNotInBatch))
    else
      var sessions := if submit then s.sessions[session := s.sessions[session].(status := Submitted)] else s.sessions;
      (s.(students := MarkAll(s.students, session, marks), sessions := sessions), Done(session))
  }

  function UpdateRecord(s: Store, record: nat, status: Option<StudentStatus>): (Store, Outcome) {
    if record >= |s.students| then (s, Failed(StudentRecordNotFound))
    else if s.students[record].session >= |s.sessions| then (s, Failed(SessionNotFound))
    else if !Writable(s.sessions[s.students[record].session].status) then (s, Failed(SessionLocked))
    else
      match status
      case None => (s, Done(record))
      case Some(given) =>
        (s.(students := s.students[record := s.students[record].(status := StudentText(given))]), Done(record))
  }

  // Employee records

  function FindDay(rows: seq<EmployeeRecord>, employee: nat, day: int): (r: Option<nat>)
    ensures r.Some? ==> r.value < |rows| && rows[r.value].employee == employee && rows[r.value].day == day
    ensures r.None? ==> forall i | 0 <= i < |rows| :: rows[i].employee != employee || rows[i].day != day
  {
    if rows == [] then None
    else
      var last := |rows| - 1;
      if rows[last].employee == employee && rows[last].day == day then Some(last)
      else FindDay(rows[..last], employee, day)
  }

  function CheckIn(s: Store, employee: nat, known: bool, at: int, day: int, key: Option<string>): (Store, Outcome) {
    if !known then (s, Failed(EmployeeNotFound))
    else
      match FindDay(s.employees, employee, day)
      case Some(i) => (s, if Keyed(key) && s.employees[i].key == key then Done(i) else Failed(AlreadyCheckedIn))
      case None =>
        var row := EmployeeRecord(employee, day, Some(at), None, EmployeeText(EmployeeStatus.Present), key);
        (s.(employees := s.employees + [row]), Done(|s.employees|))
  }

  function CheckOut(s: Store, employee: nat, known: bool, at: int, day: int, status: Option<EmployeeStatus>)
    : (Store, Outcome)
  {
    if !known then (s, Failed(EmployeeNotFound))
    else
      match FindDay(s.employees, employee, day)
      case None => (s, Failed(NotCheckedIn))
      case Some(i) =>
        var row := s.employees[i];
        if row.checkIn.Some? && at < row.checkIn.value then (s, Failed(CheckOutBeforeCheckIn))
        else
          var text := if status.Some? then EmployeeText(status.value) else row.status;
          (s.(employees := s.employees[i := row.(checkOut := Some(at), status := text)]), Done(i))
  }

  // Corrections

  predicate AllowedText(target: Target, text: string) {
    if target.OfStudent? then KnownStudentText(text) else KnownEmployeeText(text)
  }

  function RequestCorrection(s: Store, target: Target, requested: string): (Store, Outcome) {
    if !AllowedText(target, requested) then (s, Failed(InvalidStatus))
    else if target.record.None? then (s, Failed(TargetRequired))
    else if target.OfStudent? && target.record.value >= |s.students| then (s, Failed(StudentRecordNotFound))
    else if target.OfEmployee? && target.record.value >= |s.employees| then (s, Failed(EmployeeRecordNotFound))
    else (s.(corrections := s.corrections + [Correction(target, requested, Pending)]), Done(|s.corrections|))
  }

  function ReviewCorrection(s: Store, c: nat, approved: bool): (Store, Outcome) {
    if c >= |s.corrections| then (s, Failed(CorrectionNotFound))
    else if s.corrections[c].status != Pending then (s, Failed(CorrectionClosed))
    else
      var correction := s.corrections[c].(status := if approved then Approved else Rejected);
      var t := s.(corrections := s.corrections[c := correction]);
      if !approved then (t, Done(c))
      else
        match correction.target
        case OfStudent(None) => (t, Done(c))
        case OfEmployee(None) => (t, Done(c))
        case OfStudent(Some(i)) =>
          if i >= |s.students| then (s, Failed(StudentRecordNotFound))
          else (t.(students := t.students[i := t.students[i].(status := correction.requested)]), Done(c))
        case OfEmployee(Some(i)) =>
          if i >= |s.employees| then (s, Failed(EmployeeRecordNotFound))
          else (t.(employees := t.employees[i := t.employees[i].(status := correction.requested)]), Done(c))
  }

  // Runs

  datatype Request =
    | NewSession(session: Session)
    | Marking(id: nat, marks: seq<Mark>, members: set<nat>, submit: bool)
    | Editing(record: nat, newStatus: Option<StudentStatus>)
    | CheckingIn(employee: nat, known: bool, at: int, day: int, key: Option<string>)
    | CheckingOut(employee: nat, known: bool, at: int, day: int, status: Option<EmployeeStatus>)
    | Correcting(target: Target, requested: string)
    | Reviewing(correction: nat, approved: bool)

  function Step(s: Store, request: Request): (Store, Outcome) {
    match request
    case NewSession(session) => (s.(sessions := s.sessions + [session]), Done(|s.sessions|))
    case Marking(id, marks, members, submit) => MarkRecords(s, id, marks, members, submit)
    case Editing(record, status) => UpdateRecord(s, record, status)
    case CheckingIn(employee, known, at, day, key) => CheckIn(s, employee, known, at, day, key)
    case CheckingOut(employee, known, at, day, status) => CheckOut(s, employee, known, at, day, status)
    case Correcting(target, requested) => RequestCorrection(s, target, requested)
    case Reviewing(c, approved) => ReviewCorrection(s, c, approved)
  }

  function Run(s: Store, requests: seq<Request>): Store
    decreases |requests|
  {
    if requests == [] then s else Run(Step(s, requests[0]).0, requests[1..])
  }

  // What every run keeps

  ghost predicate StudentRowsSound(rows: seq<StudentRecord>) {
    && (forall i | 0 <= i < |rows| :: KnownStudentText(rows[i].status))
    && (forall i, j | 0 <= i < j < |rows| :: rows[i].session != rows[j].session || rows[i].student != rows[j].student)
  }

  ghost predicate EmployeeRowSound(row: EmployeeRecord) {
    && KnownEmployeeText(row.status)
    && row.checkIn.Some? && (row.checkOut.Some? ==> row.checkIn.value <= row.checkOut.value)
  }

  ghost predicate EmployeeRowsSound(rows: seq<EmployeeRecord>) {
    && (forall i | 0 <= i < |rows| :: EmployeeRowSound(rows[i]))
    && (forall i, j | 0 <= i < j < |rows| :: rows[i].employee != rows[j].employee || rows[i].day != rows[j].day)
  }

  ghost predicate CorrectionSound(s: Store, c: Correction) {
    && AllowedText(c.target, c.requested) && c.target.record.Some?
    && c.target.record.value < (if c.target.OfStudent? then |s.students| else |s.employees|)
  }

  /** Statuses are known ones, a student has one record a session and an employee one a day,
      nobody leaves before arriving, and corrections name rows and statuses that exist. */
  ghost predicate Inv(s: Store) {
    && StudentRowsSound(s.students) && (forall i | 0 <= i < |s.students| :: s.students[i].session < |s.sessions|)
    && EmployeeRowsSound(s.employees)
    && (forall c | 0 <= c < |s.corrections| :: CorrectionSound(s, s.corrections[c]))
  }

  lemma MarkOneKeeps(rows: seq<StudentRecord>, session: nat, mark: Mark)
    requires StudentRowsSound(rows)
    ensures var after := MarkOne(rows, session, mark);
      && StudentRowsSound(after) && |rows| <= |after|
      && (forall i | 0 <= i < |rows| :: after[i] == rows[i].(status := after[i].status))
      && (forall i | 0 <= i < |rows| && !(rows[i].session == session && rows[i].student == mark.student) ::
          after[i] == rows[i])
      && (forall i | |rows| <= i < |after| :: after[i].session == session && after[i].student == mark.student)
      && (exists i | 0 <= i < |after| :: after[i] == StudentRecord(session, mark.student, StudentText(mark.status)))
  {
    var after := MarkOne(rows, session, mark);
    var i := match FindRecord(rows, session, mark.student) case None => |rows| case Some(k) => k;
    assert after[i] == StudentRecord(session, mark.student, StudentText(mark.status));
  }

  lemma {:induction false} MarkAllKeeps(rows: seq<StudentRecord>, session: nat, marks: seq<Mark>)
    requires StudentRowsSound(rows)
    ensures var after := MarkAll(rows, session, marks);
      && StudentRowsSound(after) && |rows| <= |after|
      && (forall i | 0 <= i < |rows| :: after[i] == rows[i].(status := after[i].status))
      && (forall i | |rows| <= i < |after| :: after[i].session == session)
  {
    if marks == [] {
    } else {
      MarkAllKeeps(rows, session, marks[..|marks| - 1]);
      MarkOneKeeps(MarkAll(rows, session, marks[..|marks| - 1]), session, marks[|marks| - 1]);
    }
  }

  /** The status the marks of one request leave a student: the last one listed, should there be
      several. */
  function LastMark(marks: seq<Mark>, student: nat): (r: Option<StudentStatus>)
    ensures r.None? <==> forall k | 0 <= k < |marks| :: marks[k].student != student
  {
    if marks == [] then None
    else if marks[|marks| - 1].student == student then Some(marks[|marks| - 1].status)
    else LastMark(marks[..|marks| - 1], student)
  }

  ghost predicate HasStatus(rows: seq<StudentRecord>, session: nat, student: nat, text: string) {
    exists i :: 0 <= i < |rows| && rows[i] == StudentRecord(session, student, text)
  }

  /** Marking gives each listed student one record with the last status listed, and leaves
      every other student and session as they were. A request that lists a student twice is
      refused before it gets here, so the last status listed is the only one. */
  lemma {:induction false} MarkingTakesTheLast(rows: seq<StudentRecord>, session: nat, marks: seq<Mark>, other: nat,
      student: nat, text: string)
    requires StudentRowsSound(rows)
    ensures StudentRowsSound(MarkAll(rows, session, marks))
    ensures HasStatus(MarkAll(rows, session, marks), other, student, text) <==>
            if other == session && LastMark(marks, student).Some? then
                text == StudentText(LastMark(marks, student).value)
            else HasStatus(rows, other, student, text)
  {
    MarkAllKeeps(rows, session, marks);
    if marks == [] {
    } else {
      var front, mark := marks[..|marks| - 1], marks[|marks| - 1];
      MarkingTakesTheLast(rows, session, front, other, student, text);
      MarkOneSets(MarkAll(rows, session, front), session, mark, other, student, text);
    }
  }

  lemma MarkOneSets(rows: seq<StudentRecord>, session: nat, mark: Mark, other: nat, student: nat, text: string)
    requires StudentRowsSound(rows)
    ensures HasStatus(MarkOne(rows, session, mark), other, student, text) <==>
            if other == session && student == mark.student then text == StudentText(mark.status)
            else HasStatus(rows, other, student, text)
  {
    var after := MarkOne(rows, session, mark);
    MarkOneKeeps(rows, session, mark);
    if HasStatus(rows, other, student, text) {
      var i :| 0 <= i < |rows| && rows[i] == StudentRecord(other, student, text);
      assert after[i] == rows[i] || (other == session && student == mark.student);
    }
  }

  lemma MarkingPreserves(s: Store, session: nat, marks: seq<Mark>, members: set<nat>, submit: bool)
    requires Inv(s)
    ensures Inv(MarkRecords(s, session, marks, members, submit).0)
  {
    MarkAllKeeps(s.students, session, marks);
  }

  lemma EditingPreserves(s: Store, record: nat, status: Option<StudentStatus>)
    requires Inv(s)
    ensures Inv(UpdateRecord(s, record, status).0)
  {
  }

  lemma CheckInPreserves(s: Store, employee: nat, known: bool, at: int, day: int, key: Option<string>)
    requires Inv(s)
    ensures Inv(CheckIn(s, employee, known, at, day, key).0)
  {
  }

  lemma CheckOutPreserves(s: Store, employee: nat, known: bool, at: int, day: int, status: Option<EmployeeStatus>)
    requires Inv(s)
    ensures Inv(CheckOut(s, employee, known, at, day, status).0)
  {
  }

  /** Reviewing a pending correction never fails, and approval sets exactly its record. */
  lemma ReviewApplies(s: Store, c: nat, approved: bool)
    requires Inv(s) && c < |s.corrections| && s.corrections[c].status == Pending
    ensures var (t, outcome) := ReviewCorrection(s, c, approved);
      && outcome == Done(c) && t.sessions == s.sessions
      && t.corrections == s.corrections[c := s.corrections[c].(status := t.corrections[c].status)]
      && t.corrections[c].status != Pending
      && |t.students| == |s.students| && |t.employees| == |s.employees|
      && (forall i | 0 <= i < |s.students| ::
            t.students[i] == s.students[i].(status :=
              if approved && s.corrections[c].target == OfStudent(Some(i)) then s.corrections[c].requested
                  else s.students[i].status))
      && (forall i | 0 <= i < |s.employees| ::
            t.employees[i] == s.employees[i].(status :=
              if approved && s.corrections[c].target == OfEmployee(Some(i)) then s.corrections[c].requested
                  else s.employees[i].status))
  {
    assert CorrectionSound(s, s.corrections[c]);
  }

  lemma ReviewPreserves(s: Store, c: nat, approved: bool)
    requires Inv(s)
    ensures Inv(ReviewCorrection(s, c, approved).0)
  {
    if c < |s.corrections| && s.corrections[c].status == Pending {
      ReviewApplies(s, c, approved);
      CorrectedRows(s, ReviewCorrection(s, c, approved).0, c);
    }
  }

  /** Rows that differ only by an allowed status are as sound as before. */
  lemma CorrectedRows(s: Store, t: Store, c: nat)
    requires Inv(s) && c < |s.corrections| && t.sessions == s.sessions
    requires |t.students| == |s.students| && |t.employees| == |s.employees| && |t.corrections| == |s.corrections|
    requires forall i | 0 <= i < |s.corrections| ::
              t.corrections[i] == s.corrections[i].(status := t.corrections[i].status)
    requires forall i | 0 <= i < |s.students| ::
               t.students[i] == s.students[i].(status := t.students[i].status)
               && (t.students[i] == s.students[i]
                   || (s.corrections[c].target.OfStudent? && t.students[i].status == s.corrections[c].requested))
    requires forall i | 0 <= i < |s.employees| ::
               t.employees[i] == s.employees[i].(status := t.employees[i].status)
               && (t.employees[i] == s.employees[i]
                   || (s.corrections[c].target.OfEmployee? && t.employees[i].status == s.corrections[c].requested))
    ensures Inv(t)
  {
    assert CorrectionSound(s, s.corrections[c]);
    forall i | 0 <= i < |t.corrections|
      ensures CorrectionSound(t, t.corrections[i])
    {
      assert CorrectionSound(s, s.corrections[i]);
    }
    forall i | 0 <= i < |t.employees|
      ensures EmployeeRowSound(t.employees[i])
    {
      assert EmployeeRowSound(s.employees[i]);
    }
    forall i, j | 0 <= i < j < |t.students|
      ensures t.students[i].session != t.students[j].session || t.students[i].student != t.students[j].student
    {
      assert s.students[i].session != s.students[j].session || s.students[i].student != s.students[j].student;
    }
  }

  lemma StepPreserves(s: Store, request: Request)
    requires Inv(s)
    ensures Inv(Step(s, request).0)
  {
    match request
    case NewSession(_) =>
    case Marking(id, marks, members, submit) => MarkingPreserves(s, id, marks, members, submit);
    case Editing(record, status) => EditingPreserves(s, record, status);
    case CheckingIn(employee, known, at, day, key) => CheckInPreserves(s, employee, known, at, day, key);
    case CheckingOut(employee, known, at, day, status) => CheckOutPreserves(s, employee, known, at, day, status);
    case Correcting(_, _) =>
    case Reviewing(c, approved) => ReviewPreserves(s, c, approved);
  }

  lemma {:induction false} RunPreserves(s: Store, requests: seq<Request>)
    requires Inv(s)
    ensures Inv(Run(s, requests))
    decreases |requests|
  {
    if requests == [] {
    } else {
      StepPreserves(s, requests[0]);
      RunPreserves(Step(s, requests[0]).0, requests[1..]);
    }
  }

  /** In every reachable state a student has one record a session and an employee one a day,
      their statuses are known ones, and nobody leaves before arriving. */
  lemma ReachableRecords(requests: seq<Request>)
    ensures var s := Run(EMPTY, requests);
      && (forall i | 0 <= i < |s.students| :: s.students[i].status in {"present", "absent", "late", "excused"})
      && (forall i | 0 <= i < |s.employees| ::
          s.employees[i].status in {"present", "absent", "late", "half_day", "on_leave"})
      && (forall i | 0 <= i < |s.employees| && s.employees[i].checkOut.Some? ::
            s.employees[i].checkIn.Some? && s.employees[i].checkIn.value <= s.employees[i].checkOut.value)
      && (forall i, j | 0 <= i < |s.students| && 0 <= j < |s.students|
                        && s.students[i].session == s.students[j].session
                        && s.students[i].student == s.students[j].student :: i == j)
      && (forall i, j | 0 <= i < |s.employees| && 0 <= j < |s.employees|
                        && s.employees[i].employee == s.employees[j].employee
                        && s.employees[i].day == s.employees[j].day :: i == j)
  {
    RunPreserves(EMPTY, requests);
    var s := Run(EMPTY, requests);
    forall i | 0 <= i < |s.students| ensures KnownStudentText(s.students[i].status) {}
    forall i | 0 <= i < |s.employees| ensures EmployeeRowSound(s.employees[i]) {}
  }

  /** A check-in sent again changes nothing: it is accepted when it carries a key and refused
      when it does not. */
  lemma CheckInAgain(s: Store, employee: nat, known: bool, at: int, day: int, key: Option<string>)
    requires CheckIn(s, employee, known, at, day, key).1.Done? && EmployeeRowsSound(s.employees)
    ensures var (t, outcome) := CheckIn(s, employee, known, at, day, key);
      CheckIn(t, employee, known, at, day, key)
        == (t, if key !in {None, Some("")} then outcome else Failed(AlreadyCheckedIn))
  {
  }

  lemma StepKeepsClosed(s: Store, request: Request, c: nat)
    requires c < |s.corrections| && s.corrections[c].status != Pending
    ensures var t := Step(s, request).0; c < |t.corrections| && t.corrections[c] == s.corrections[c]
  {
  }

  /** A correction is reviewed at most once: once closed it stays as it is over every run. */
  lemma {:induction false} ClosedForGood(s: Store, requests: seq<Request>, c: nat)
    requires c < |s.corrections| && s.corrections[c].status != Pending
    ensures var t := Run(s, requests); c < |t.corrections| && t.corrections[c] == s.corrections[c]
    ensures forall approved ::
            ReviewCorrection(Run(s, requests), c, approved) == (Run(s, requests), Failed(CorrectionClosed))
    decreases |requests|
  {
    if requests == [] {
    } else {
      StepKeepsClosed(s, requests[0], c);
      ClosedForGood(Step(s, requests[0]).0, requests[1..], c);
    }
  }
}
