/** The attendance service as it runs: tables updated in place, with the loops of the original. */
module AttendanceService {
  import opened Options
  import opened Attendance
  import opened AttendanceSummaries
  import opened Grouping

  datatype Summary<T> = Summary(items: seq<T>) | InvalidDateRange

  class Service {
    var sessions: seq<Session>
    var students: seq<StudentRecord>
    var employees: seq<EmployeeRecord>
    var corrections: seq<Correction>

    constructor ()
      ensures State() == EMPTY
    {
      sessions, students, employees, corrections := [], [], [], [];
    }

    ghost function State(): Store
      reads this
    {
      Store(sessions, students, employees, corrections)
    }

    /** `mark_student_records`: one pass over the payload; a student outside the batch undoes
        the whole request. */
    method MarkStudents(session: nat, marks: seq<Mark>, members: set<nat>, submit: bool) returns (outcome: Outcome)
      modifies this`students, this`sessions
      ensures (State(), outcome) == MarkRecords(old(State()), session, marks, members, submit)
    {
      if session >= |sessions| { return Failed(SessionNotFound); }
      if !Writable(sessions[session].status) { return Failed(SessionLocked); }
      var rows := students;
      for k := 0 to |marks|
        invariant rows == MarkAll(students, session, marks[..k])
        invariant forall j | 0 <= j < k :: marks[j].student in members
      {
        assert marks[..k + 1][..k] == marks[..k];
        if marks[k].student !in members { return Failed(StudentNotInBatch); }
        var existing := FindRecord(rows, session, marks[k].student);
        if existing.None? {
          rows := rows + [StudentRecord(session, marks[k].student, StudentText(marks[k].status))];
        } else {
          rows := rows[existing.value := rows[existing.value].(status := StudentText(marks[k].status))];
        }
      }
      assert marks[..|marks|] == marks;
      students := rows;
      if submit { sessions := sessions[session := sessions[session].(status := Submitted)]; }
      return Done(session);
    }

    method UpdateStudent(record: nat, status: Option<StudentStatus>) returns (outcome: Outcome)
      modifies this`students
      ensures (State(), outcome) == UpdateRecord(old(State()), record, status)
    {
      if record >= |students| { return Failed(StudentRecordNotFound); }
      if students[record].session >= |sessions| { return Failed(SessionNotFound); }
      if !Writable(sessions[students[record].session].status) { return Failed(SessionLocked); }
      if status.Some? { students := students[record := students[record].(status := StudentText(status.value))]; }
      return Done(record);
    }

    method Arrive(employee: nat, known: bool, at: int, day: int, key: Option<string>) returns (outcome: Outcome)
      modifies this`employees
      ensures (State(), outcome) == CheckIn(old(State()), employee, known, at, day, key)
    {
      if !known { return Failed(EmployeeNotFound); }
      var existing := FindDay(employees, employee, day);
      if existing.Some? {
        if Keyed(key) && employees[existing.value].key == key { return Done(existing.value); }
        return Failed(AlreadyCheckedIn);
      }
      employees := employees + [EmployeeRecord(employee, day, Some(at), None, EmployeeText(EmployeeStatus.Present),
          key)];
      return Done(|employees| - 1);
    }

    method Leave(employee: nat, known: bool, at: int, day: int, status: Option<EmployeeStatus>)
        returns (outcome: Outcome)
      modifies this`employees
      ensures (State(), outcome) == CheckOut(old(State()), employee, known, at, day, status)
    {
      if !known { return Failed(EmployeeNotFound); }
      var found := FindDay(employees, employee, day);
      if found.None? { return Failed(NotCheckedIn); }
      var i := found.value;
      if employees[i].checkIn.Some? && at < employees[i].checkIn.value { return Failed(CheckOutBeforeCheckIn); }
      var row := employees[i].(checkOut := Some(at));
      if status.Some? { row := row.(status := EmployeeText(status.value)); }
      employees := employees[i := row];
      return Done(i);
    }

    method AskCorrection(target: Target, requested: string) returns (outcome: Outcome)
      modifies this`corrections
      ensures (State(), outcome) == RequestCorrection(old(State()), target, requested)
    {
      if !AllowedText(target, requested) { return Failed(InvalidStatus); }
      if target.record.None? { return Failed(TargetRequired); }
      if target.OfStudent? && target.record.value >= |students| { return Failed(StudentRecordNotFound); }
      if target.OfEmployee? && target.record.value >= |employees| { return Failed(EmployeeRecordNotFound); }
      corrections := corrections + [Correction(target, requested, Pending)];
      return Done(|corrections| - 1);
    }

    /** `approve_correction_request`: a record that is gone undoes the review. */
    method Review(c: nat, approved: bool) returns (outcome: Outcome)
      modifies this`corrections, this`students, this`employees
      ensures (State(), outcome) == ReviewCorrection(old(State()), c, approved)
    {
      if c >= |corrections| { return Failed(CorrectionNotFound); }
      var correction := corrections[c];
      if correction.status != Pending { return Failed(CorrectionClosed); }
      if approved {
        match correction.target {
          case OfStudent(Some(i)) =>
            if i >= |students| { return Failed(StudentRecordNotFound); }
            students := students[i := students[i].(status := correction.requested)];
          case OfEmployee(Some(i)) =>
            if i >= |employees| { return Failed(EmployeeRecordNotFound); }
            employees := employees[i := employees[i].(status := correction.requested)];
          case OfStudent(None) =>
          case OfEmployee(None) =>
        }
      }
      corrections := corrections[c := correction.(status := if approved then Approved else Rejected)];
      return Done(c);
    }

    /** `student_summary`: group in a dictionary, sort its keys, make the items. */
    method SummarizeStudents(from: int, to: int, batch: Option<nat>, student: Option<nat>)
        returns (summary: Summary<StudentItem>)
      ensures summary.InvalidDateRange? <==> to < from
      ensures summary.Summary? ==>
                IsStudentSummary(summary.items, SelectStudents(State(), students, from, to, batch, student))
                    && StudentShares(summary.items)
    {
      if to < from { return InvalidDateRange; }
      var records := SelectStudents(Store(sessions, students, employees, corrections), students, from, to, batch,
          student);
      var grouped := GroupBy(records, StudentOf);
      var ids := SortedKeys(grouped);
      var items := MakeItems(ids, grouped, StudentItemOf);
      assert forall k | 0 <= k < |ids| :: ids[k] in ids;
      MadeStudentItems(items, ids, records);
      return Summary(items);
    }

    /** `employee_summary`. */
    method SummarizeEmployees(from: int, to: int, employee: Option<nat>) returns (summary: Summary<EmployeeItem>)
      ensures summary.InvalidDateRange? <==> to < from
      ensures summary.Summary? ==>
                IsEmployeeSummary(summary.items, SelectEmployees(employees, from, to, employee))
                    && EmployeeShares(summary.items)
    {
      if to < from { return InvalidDateRange; }
      var records := SelectEmployees(employees, from, to, employee);
      var grouped := GroupBy(records, EmployeeOf);
      var ids := SortedKeys(grouped);
      var items := MakeItems(ids, grouped, EmployeeItemOf);
      assert forall k | 0 <= k < |ids| :: ids[k] in ids;
      MadeEmployeeItems(items, ids, records);
      return Summary(items);
    }
  }
}
