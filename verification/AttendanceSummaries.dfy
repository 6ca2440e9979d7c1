/** The attendance summaries: records grouped per person, counted and weighted, and what the
    figures mean in every reachable state. Percentages are hundredths of a percent. */
module AttendanceSummaries {
  import opened Options
  import opened Attendance
  import opened Grouping
  import opened Counting
  import Decimals

  datatype StudentCounts = StudentCounts(total: nat, present: nat, absent: nat, late: nat, excused: nat)
  datatype StudentItem = StudentItem(student: nat, counts: StudentCounts, percentage: int)
  datatype EmployeeCounts = EmployeeCounts(
    days: nat, present: nat, late: nat, absent: nat, halfDay: nat, onLeave: nat, workSeconds: int)
  datatype EmployeeItem = EmployeeItem(employee: nat, counts: EmployeeCounts, percentage: int)

  function StudentOf(r: StudentRecord): nat { r.student }
  function EmployeeOf(r: EmployeeRecord): nat { r.employee }
  function StudentStatusOf(r: StudentRecord): string { r.status }
  function EmployeeStatusOf(r: EmployeeRecord): string { r.status }

  /** `sum(1 for record in records if record.status == status)`. */
  function Count<R>(records: seq<R>, statusOf: R -> string, text: string): nat {
    if records == [] then 0
    else Count(records[..|records| - 1], statusOf, text) + if statusOf(records[|records| - 1]) == text then 1 else 0
  }

  /** `int(...)` of a number of microseconds as seconds: truncation toward zero. */
  function WholeSeconds(micros: int): int {
    if micros >= 0 then micros / 1000000 else -(-micros / 1000000)
  }

  /** `_work_seconds`, with its clamp. */
  function WorkSeconds(r: EmployeeRecord): int {
    if r.checkIn.None? || r.checkOut.None? then 0
    else
      var seconds := WholeSeconds(r.checkOut.value - r.checkIn.value);
      if seconds < 0 then 0 else seconds
  }

  function TotalWork(records: seq<EmployeeRecord>): int {
    if records == [] then 0 else TotalWork(records[..|records| - 1]) + WorkSeconds(records[|records| - 1])
  }

  function CountStudents(records: seq<StudentRecord>): StudentCounts {
    StudentCounts(|records|, Count(records, StudentStatusOf, "present"), Count(records, StudentStatusOf, "absent"),
                  Count(records, StudentStatusOf, "late"), Count(records, StudentStatusOf, "excused"))
  }

  function CountEmployees(records: seq<EmployeeRecord>): EmployeeCounts {
    EmployeeCounts(|records|, Count(records, EmployeeStatusOf, "present"), Count(records, EmployeeStatusOf, "late"),
                   Count(records, EmployeeStatusOf, "absent"), Count(records, EmployeeStatusOf, "half_day"),
                   Count(records, EmployeeStatusOf, "on_leave"), TotalWork(records))
  }

  function StudentAttended(counts: StudentCounts): nat {
    counts.present + counts.late + counts.excused
  }

  /** In hundredths of a day: a half day weighs 0.50. */
  function EmployeeAttended(counts: EmployeeCounts): nat {
    100 * (counts.present + counts.late) + 50 * counts.halfDay
  }

  predicate StudentShare(item: StudentItem) {
    item.percentage == Decimals.Percentage(StudentAttended(item.counts), item.counts.total)
  }

  predicate EmployeeShare(item: EmployeeItem) {
    item.percentage == Decimals.Percentage(EmployeeAttended(item.counts), 100 * item.counts.days)
  }

  /** `_student_summary_item`. */
  function StudentItemOf(student: nat, records: seq<StudentRecord>): (item: StudentItem)
    ensures item.student == student && item.counts == CountStudents(records) && StudentShare(item)
  {
    var counts := CountStudents(records);
    StudentItem(student, counts, Decimals.Percentage(StudentAttended(counts), counts.total))
  }

  /** `_employee_summary_item`. */
  function EmployeeItemOf(employee: nat, records: seq<EmployeeRecord>): (item: EmployeeItem)
    ensures item.employee == employee && item.counts == CountEmployees(records) && EmployeeShare(item)
  {
    var counts := CountEmployees(records);
    EmployeeItem(employee, counts, Decimals.Percentage(EmployeeAttended(counts), 100 * counts.days))
  }

  // The records a summary looks at

  predicate Matches(filter: Option<nat>, value: nat) {
    filter.None? || filter.value == value
  }

  function SelectStudents(s: Store, rows: seq<StudentRecord>, from: int, to: int, batch: Option<nat>,
      student: Option<nat>): seq<StudentRecord> {
    if rows == [] then []
    else
      var last := rows[|rows| - 1];
      SelectStudents(s, rows[..|rows| - 1], from, to, batch, student)
        + if last.session < |s.sessions| && from <= s.sessions[last.session].day <= to
             && Matches(batch, s.sessions[last.session].batch) && Matches(student, last.student)
          then [last] else []
  }

  function SelectEmployees(rows: seq<EmployeeRecord>, from: int, to: int, employee: Option<nat>): seq<EmployeeRecord> {
    if rows == [] then []
    else
      var last := rows[|rows| - 1];
      SelectEmployees(rows[..|rows| - 1], from, to, employee)
        + if from <= last.day <= to && Matches(employee, last.employee) then [last] else []
  }

  lemma {:induction false} SelectedStudents(s: Store, rows: seq<StudentRecord>, from: int, to: int,
      batch: Option<nat>, student: Option<nat>)
    ensures forall r :: r in SelectStudents(s, rows, from, to, batch, student) <==>
              && r in rows && r.session < |s.sessions| && from <= s.sessions[r.session].day <= to
              && (batch.Some? ==> s.sessions[r.session].batch == batch.value)
              && (student.Some? ==> r.student == student.value)
  {
    if rows == [] {
    } else {
      var front := rows[..|rows| - 1];
      assert rows == front + [rows[|rows| - 1]];
      SelectedStudents(s, front, from, to, batch, student);
    }
  }

  lemma {:induction false} SelectedStudentsAreSound(s: Store, rows: seq<StudentRecord>, from: int, to: int,
      batch: Option<nat>, student: Option<nat>)
    requires StudentRowsSound(rows)
    ensures StudentRowsSound(SelectStudents(s, rows, from, to, batch, student))
  {
    if rows == [] {
    } else {
      var front, last := rows[..|rows| - 1], rows[|rows| - 1];
      var selected := SelectStudents(s, front, from, to, batch, student);
      SelectedStudentsAreSound(s, front, from, to, batch, student);
      SelectedStudents(s, front, from, to, batch, student);
      forall i | 0 <= i < |selected|
        ensures selected[i].session != last.session || selected[i].student != last.student
      {
        StudentRowOf(front, selected, i);
      }
      StudentRowsExtend(selected, last);
    }
  }

  lemma StudentRowOf(rows: seq<StudentRecord>, selected: seq<StudentRecord>, i: nat)
    requires i < |selected| && forall r | r in selected :: r in rows
    ensures exists k :: 0 <= k < |rows| && rows[k] == selected[i]
  {
    assert selected[i] in selected;
  }

  lemma StudentRowsExtend(rows: seq<StudentRecord>, last: StudentRecord)
    requires StudentRowsSound(rows) && KnownStudentText(last.status)
    requires forall i | 0 <= i < |rows| :: rows[i].session != last.session || rows[i].student != last.student
    ensures StudentRowsSound(rows + [last]) && rows + [] == rows
  {
  }

  lemma {:induction false} SelectedEmployees(rows: seq<EmployeeRecord>, from: int, to: int, employee: Option<nat>)
    ensures forall r :: r in SelectEmployees(rows, from, to, employee) <==>
              r in rows && from <= r.day <= to && (employee.Some? ==> r.employee == employee.value)
  {
    if rows == [] {
    } else {
      var front := rows[..|rows| - 1];
      assert rows == front + [rows[|rows| - 1]];
      SelectedEmployees(front, from, to, employee);
    }
  }

  lemma {:induction false} SelectedEmployeesAreSound(rows: seq<EmployeeRecord>, from: int, to: int,
      employee: Option<nat>)
    requires EmployeeRowsSound(rows)
    ensures EmployeeRowsSound(SelectEmployees(rows, from, to, employee))
  {
    if rows == [] {
    } else {
      var front, last := rows[..|rows| - 1], rows[|rows| - 1];
      var selected := SelectEmployees(front, from, to, employee);
      SelectedEmployeesAreSound(front, from, to, employee);
      SelectedEmployees(front, from, to, employee);
      forall i | 0 <= i < |selected| ensures selected[i].employee != last.employee || selected[i].day != last.day {
        EmployeeRowOf(front, selected, i);
      }
      EmployeeRowsExtend(selected, last);
    }
  }

  lemma EmployeeRowOf(rows: seq<EmployeeRecord>, selected: seq<EmployeeRecord>, i: nat)
    requires i < |selected| && forall r | r in selected :: r in rows
    ensures exists k :: 0 <= k < |rows| && rows[k] == selected[i]
  {
    assert selected[i] in selected;
  }

  lemma EmployeeRowsExtend(rows: seq<EmployeeRecord>, last: EmployeeRecord)
    requires EmployeeRowsSound(rows) && EmployeeRowSound(last)
    requires forall i | 0 <= i < |rows| :: rows[i].employee != last.employee || rows[i].day != last.day
    ensures EmployeeRowsSound(rows + [last]) && rows + [] == rows
  {
  }

  // One item

  lemma StudentTextsDiffer(text: string)
    ensures One(text == "present") + One(text == "absent") + One(text == "late") + One(text == "excused")
            == One(KnownStudentText(text))
  {
    if KnownStudentText(text) { assert text[0] in {'p', 'a', 'l', 'e'}; }
  }

  lemma EmployeeTextsDiffer(text: string)
    ensures One(text == "present") + One(text == "absent") + One(text == "late") + One(text == "half_day")
            + One(text == "on_leave")
            == One(KnownEmployeeText(text))
  {
    if KnownEmployeeText(text) { assert text[0] in {'p', 'a', 'l', 'h', 'o'}; }
  }

  function KnownStudents(records: seq<StudentRecord>): nat {
    var counts := CountStudents(records);
    counts.present + counts.absent + counts.late + counts.excused
  }

  function KnownEmployees(records: seq<EmployeeRecord>): nat {
    var counts := CountEmployees(records);
    counts.present + counts.absent + counts.late + counts.halfDay + counts.onLeave
  }

  lemma OneMoreStudent(records: seq<StudentRecord>)
    requires records != []
    ensures KnownStudents(records) == KnownStudents(records[..|records| - 1])
            + One(KnownStudentText(records[|records| - 1].status))
  {
    StudentTextsDiffer(records[|records| - 1].status);
  }

  lemma OneMoreEmployee(records: seq<EmployeeRecord>)
    requires records != []
    ensures KnownEmployees(records) == KnownEmployees(records[..|records| - 1])
            + One(KnownEmployeeText(records[|records| - 1].status))
  {
    EmployeeTextsDiffer(records[|records| - 1].status);
  }

  // Which count is which

  ghost function PlacesWith<R>(records: seq<R>, statusOf: R -> string, texts: set<string>): set<nat> {
    set k: nat | k < |records| && statusOf(records[k]) in texts
  }

  lemma PlacesGrow<R>(records: seq<R>, statusOf: R -> string, texts: set<string>)
    requires records != []
    ensures var last := |records| - 1;
      var before := PlacesWith(records[..last], statusOf, texts);
      && PlacesWith(records, statusOf, texts) == (if statusOf(records[last]) in texts then before + {last} else before)
      && last !in before
  {
  }

  /** A count is the number of records with the status. */
  lemma {:induction false} CountIsNumber<R>(records: seq<R>, statusOf: R -> string, text: string)
    ensures Count(records, statusOf, text) == |PlacesWith(records, statusOf, {text})|
  {
    if records == [] {
    } else {
      CountIsNumber(records[..|records| - 1], statusOf, text);
      PlacesGrow(records, statusOf, {text});
    }
  }

  ghost function StudentsWith(records: seq<StudentRecord>, texts: set<string>): set<nat> {
    set k: nat | k < |records| && records[k].status in texts
  }

  ghost function EmployeesWith(records: seq<EmployeeRecord>, texts: set<string>): set<nat> {
    set k: nat | k < |records| && records[k].status in texts
  }

  lemma StudentCountIs(records: seq<StudentRecord>, text: string)
    ensures Count(records, StudentStatusOf, text) == |StudentsWith(records, {text})|
  {
    CountIsNumber(records, StudentStatusOf, text);
    assert StudentsWith(records, {text}) == PlacesWith(records, StudentStatusOf, {text});
  }

  lemma EmployeeCountIs(records: seq<EmployeeRecord>, text: string)
    ensures Count(records, EmployeeStatusOf, text) == |EmployeesWith(records, {text})|
  {
    CountIsNumber(records, EmployeeStatusOf, text);
    assert EmployeesWith(records, {text}) == PlacesWith(records, EmployeeStatusOf, {text});
  }

  /** Each figure of a student's item is the number of that student's records with its status. */
  lemma StudentItemCounts(items: seq<StudentItem>, records: seq<StudentRecord>, k: nat)
    requires IsStudentSummary(items, records) && k < |items|
    ensures var group := RecordsOf(records, StudentOf, items[k].student);
      && items[k].counts.total == |group|
      && items[k].counts.present == |StudentsWith(group, {"present"})|
      && items[k].counts.absent == |StudentsWith(group, {"absent"})|
      && items[k].counts.late == |StudentsWith(group, {"late"})|
      && items[k].counts.excused == |StudentsWith(group, {"excused"})|
  {
    var group := RecordsOf(records, StudentOf, items[k].student);
    StudentCountIs(group, "present");
    StudentCountIs(group, "absent");
    StudentCountIs(group, "late");
    StudentCountIs(group, "excused");
  }

  /** Each figure of an employee's item is the number of that employee's days with its status. */
  lemma EmployeeItemCounts(items: seq<EmployeeItem>, records: seq<EmployeeRecord>, k: nat)
    requires IsEmployeeSummary(items, records) && k < |items|
    ensures var group := RecordsOf(records, EmployeeOf, items[k].employee);
      && items[k].counts.days == |group|
      && items[k].counts.present == |EmployeesWith(group, {"present"})|
      && items[k].counts.late == |EmployeesWith(group, {"late"})|
      && items[k].counts.absent == |EmployeesWith(group, {"absent"})|
      && items[k].counts.halfDay == |EmployeesWith(group, {"half_day"})|
      && items[k].counts.onLeave == |EmployeesWith(group, {"on_leave"})|
  {
    var group := RecordsOf(records, EmployeeOf, items[k].employee);
    EmployeeCountIs(group, "present");
    EmployeeCountIs(group, "late");
    EmployeeCountIs(group, "absent");
    EmployeeCountIs(group, "half_day");
    EmployeeCountIs(group, "on_leave");
  }

  /** The counts add up to the number of records exactly when every status is a known one. */
  lemma {:induction false} StudentCountsAddUp(records: seq<StudentRecord>)
    ensures KnownStudents(records) <= |records|
    ensures KnownStudents(records) == |records| <==> forall k | 0 <= k < |records| ::
            KnownStudentText(records[k].status)
  {
    if records == [] {
    } else {
      OneMoreStudent(records);
      StudentCountsAddUp(records[..|records| - 1]);
    }
  }

  lemma {:induction false} EmployeeCountsAddUp(records: seq<EmployeeRecord>)
    ensures KnownEmployees(records) <= |records|
    ensures KnownEmployees(records) == |records| <==> forall k | 0 <= k < |records| ::
            KnownEmployeeText(records[k].status)
  {
    if records == [] {
    } else {
      OneMoreEmployee(records);
      EmployeeCountsAddUp(records[..|records| - 1]);
    }
  }

  /** `percentage`, from 0.00 to 100.00, is the exact share rounded once. */
  ghost predicate IsShare(percentage: int, part: nat, whole: nat) {
    && whole > 0 && 0 <= percentage <= 10000
    && (10000 * part < Decimals.Pow10(Decimals.DEFAULT - 1) ==>
        percentage == Decimals.RoundTiesToAway(10000 * part, whole))
  }

  lemma PercentageIsShare(part: nat, whole: nat)
    requires part <= whole && whole > 0
    ensures IsShare(Decimals.Percentage(part, whole), part, whole)
  {
    Decimals.PercentageAtMostHundred(part, whole);
    if 10000 * part < Decimals.Pow10(Decimals.DEFAULT - 1) { Decimals.PercentageIsExact(part, whole); }
  }

  /** The total without the clamp: whole seconds of every closed interval. */
  ghost function Worked(records: seq<EmployeeRecord>): int {
    if records == [] then 0
    else
      var r := records[|records| - 1];
      Worked(records[..|records| - 1])
        + if r.checkIn.Some? && r.checkOut.Some? then (r.checkOut.value - r.checkIn.value) / 1000000 else 0
  }

  /** A record counts its whole seconds from check-in to check-out, and none when one of them is
      missing or they are in the wrong order. */
  lemma WorkIsSeconds(r: EmployeeRecord)
    ensures var n := WorkSeconds(r);
      if r.checkIn.Some? && r.checkOut.Some? && r.checkIn.value <= r.checkOut.value then
        1000000 * n <= r.checkOut.value - r.checkIn.value < 1000000 * (n + 1)
      else
        n == 0
  {
  }

  /** The clamp never fires when nobody leaves before arriving. */
  lemma {:induction false} ClampNeverFires(records: seq<EmployeeRecord>)
    requires forall i | 0 <= i < |records| :: EmployeeRowSound(records[i])
    ensures TotalWork(records) == Worked(records)
  {
    if records == [] {
    } else {
      assert EmployeeRowSound(records[|records| - 1]);
      ClampNeverFires(records[..|records| - 1]);
    }
  }

  ghost function Days(records: seq<EmployeeRecord>): set<int> {
    set i | 0 <= i < |records| :: records[i].day
  }

  ghost predicate DistinctDays(records: seq<EmployeeRecord>) {
    forall i, j | 0 <= i < j < |records| :: records[i].day != records[j].day
  }

  lemma {:induction false} DaysAreDistinct(records: seq<EmployeeRecord>)
    requires DistinctDays(records)
    ensures |Days(records)| == |records|
  {
    if records == [] {
    } else {
      var front, last := records[..|records| - 1], records[|records| - 1];
      DaysAreDistinct(front);
      assert last.day !in Days(front);
      assert Days(records) == Days(front) + {last.day};
    }
  }

  // A whole summary

  ghost function StudentIds(items: seq<StudentItem>): seq<nat> {
    seq(|items|, i requires 0 <= i < |items| => items[i].student)
  }
  ghost function EmployeeIds(items: seq<EmployeeItem>): seq<nat> {
    seq(|items|, i requires 0 <= i < |items| => items[i].employee)
  }

  /** One item per person, in increasing order, counting that person's records. */
  ghost predicate IsStudentSummary(items: seq<StudentItem>, records: seq<StudentRecord>) {
    && IdsInOrder(StudentIds(items), records, StudentOf)
    && forall k | 0 <= k < |items| :: items[k].counts == CountStudents(RecordsOf(records, StudentOf, items[k].student))
  }

  ghost predicate IsEmployeeSummary(items: seq<EmployeeItem>, records: seq<EmployeeRecord>) {
    && IdsInOrder(EmployeeIds(items), records, EmployeeOf)
    && forall k | 0 <= k < |items| ::
        items[k].counts == CountEmployees(RecordsOf(records, EmployeeOf, items[k].employee))
  }

  ghost predicate StudentShares(items: seq<StudentItem>) {
    forall k | 0 <= k < |items| :: StudentShare(items[k])
  }

  ghost predicate EmployeeShares(items: seq<EmployeeItem>) {
    forall k | 0 <= k < |items| :: EmployeeShare(items[k])
  }

  ghost function StudentTotals(items: seq<StudentItem>): nat {
    if items == [] then 0 else StudentTotals(items[..|items| - 1]) + items[|items| - 1].counts.total
  }

  ghost function EmployeeTotals(items: seq<EmployeeItem>): nat {
    if items == [] then 0 else EmployeeTotals(items[..|items| - 1]) + items[|items| - 1].counts.days
  }

  lemma {:induction false} StudentTotalsAreSizes(items: seq<StudentItem>, records: seq<StudentRecord>)
    requires forall k | 0 <= k < |items| :: items[k].counts.total == |RecordsOf(records, StudentOf, items[k].student)|
    ensures StudentTotals(items) == GroupSizes(StudentIds(items), records, StudentOf)
  {
    if items == [] {
    } else {
      StudentTotalsAreSizes(items[..|items| - 1], records);
      assert StudentIds(items)[..|items| - 1] == StudentIds(items[..|items| - 1]);
    }
  }

  lemma {:induction false} EmployeeTotalsAreSizes(items: seq<EmployeeItem>, records: seq<EmployeeRecord>)
    requires forall k | 0 <= k < |items| :: items[k].counts.days == |RecordsOf(records, EmployeeOf, items[k].employee)|
    ensures EmployeeTotals(items) == GroupSizes(EmployeeIds(items), records, EmployeeOf)
  {
    if items == [] {
    } else {
      EmployeeTotalsAreSizes(items[..|items| - 1], records);
      assert EmployeeIds(items)[..|items| - 1] == EmployeeIds(items[..|items| - 1]);
    }
  }

  /** Items made of the groups of the records, in order of the ids, are a summary. */
  lemma MadeStudentItems(items: seq<StudentItem>, ids: seq<nat>, records: seq<StudentRecord>)
    requires IdsInOrder(ids, records, StudentOf) && |items| == |ids|
    requires forall k | 0 <= k < |ids| :: items[k] == StudentItemOf(ids[k], RecordsOf(records, StudentOf, ids[k]))
    ensures IsStudentSummary(items, records) && StudentShares(items)
  {
    assert StudentIds(items) == ids;
  }

  lemma MadeEmployeeItems(items: seq<EmployeeItem>, ids: seq<nat>, records: seq<EmployeeRecord>)
    requires IdsInOrder(ids, records, EmployeeOf) && |items| == |ids|
    requires forall k | 0 <= k < |ids| :: items[k] == EmployeeItemOf(ids[k], RecordsOf(records, EmployeeOf, ids[k]))
    ensures IsEmployeeSummary(items, records) && EmployeeShares(items)
  {
    assert EmployeeIds(items) == ids;
  }

  lemma EveryRecordHasAnId<R(!new)>(ids: seq<nat>, records: seq<R>, idOf: R -> nat)
    requires IdsInOrder(ids, records, idOf)
    ensures forall r | r in records :: idOf(r) in ids
  {
    forall r | r in records ensures idOf(r) in ids { GroupMembers(records, idOf, idOf(r)); }
  }

  // Student summaries

  /** In a sound table an item's counts partition its records, of which there are some. */
  ghost predicate StudentCountsSound(counts: StudentCounts) {
    counts.present + counts.absent + counts.late + counts.excused == counts.total && counts.total > 0
  }

  lemma StudentTotalsAddUp(items: seq<StudentItem>, records: seq<StudentRecord>)
    requires IsStudentSummary(items, records)
    ensures StudentTotals(items) == |records|
  {
    var ids := StudentIds(items);
    StudentTotalsAreSizes(items, records);
    EveryRecordHasAnId(ids, records, StudentOf);
    GroupsPartition(ids, records, StudentOf);
  }

  lemma OneStudentItem(items: seq<StudentItem>, records: seq<StudentRecord>, k: nat)
    requires IsStudentSummary(items, records) && StudentRowsSound(records) && k < |items|
    ensures StudentCountsSound(items[k].counts)
  {
    assert StudentIds(items)[k] in StudentIds(items);
    var group := RecordsOf(records, StudentOf, items[k].student);
    StudentGroupIsKnown(records, items[k].student);
    StudentCountsAddUp(group);
  }

  lemma StudentGroupIsKnown(records: seq<StudentRecord>, id: nat)
    requires StudentRowsSound(records)
    ensures forall k | 0 <= k < |RecordsOf(records, StudentOf, id)| ::
            KnownStudentText(RecordsOf(records, StudentOf, id)[k].status)
  {
    var group := RecordsOf(records, StudentOf, id);
    GroupMembers(records, StudentOf, id);
    forall k | 0 <= k < |group| ensures KnownStudentText(group[k].status) { assert group[k] in group; }
  }

  /** In every reachable state a student summary lists each student with a selected record
      once, in increasing order; the items partition the selected records and each item's
      counts partition its own. */
  lemma StudentSummaryPartitions(requests: seq<Request>, from: int, to: int, batch: Option<nat>,
      student: Option<nat>, items: seq<StudentItem>)
    requires var s := Run(EMPTY, requests);
      IsStudentSummary(items, SelectStudents(s, s.students, from, to, batch, student))
    ensures var s := Run(EMPTY, requests);
      StudentTotals(items) == |SelectStudents(s, s.students, from, to, batch, student)|
    ensures forall k | 0 <= k < |items| :: StudentCountsSound(items[k].counts)
    ensures forall i, j | 0 <= i < j < |items| :: items[i].student < items[j].student
  {
    var s := Run(EMPTY, requests);
    var records := SelectStudents(s, s.students, from, to, batch, student);
    RunPreserves(EMPTY, requests);
    SelectedStudentsAreSound(s, s.students, from, to, batch, student);
    StudentTotalsAddUp(items, records);
    forall k: nat | k < |items| ensures StudentCountsSound(items[k].counts) { OneStudentItem(items, records, k); }
    forall i, j | 0 <= i < j < |items|
      ensures items[i].student < items[j].student
    {
      assert StudentIds(items)[i] < StudentIds(items)[j];
    }
  }

  lemma TextsApart()
    ensures "present" != "late" && "present" != "excused" && "late" != "excused"
  {
    assert "present"[0] == 'p' && "late"[0] == 'l' && "excused"[0] == 'e';
  }

  /** Present, late and excused records are three disjoint parts of those attended. */
  lemma AttendedIsNumber(records: seq<StudentRecord>)
    ensures |StudentsWith(records, {"present", "late", "excused"})| == |StudentsWith(records, {"present"})|
            + |StudentsWith(records, {"late"})| + |StudentsWith(records, {"excused"})|
  {
    TextsApart();
    var present, late, excused :=
      StudentsWith(records, {"present"}), StudentsWith(records, {"late"}), StudentsWith(records, {"excused"});
    assert StudentsWith(records, {"present", "late", "excused"}) == present + late + excused;
    assert present !! late && (present + late) !! excused;
  }

  lemma StudentAttendedIs(counts: StudentCounts, group: seq<StudentRecord>)
    requires counts == CountStudents(group)
    ensures StudentAttended(counts) == |StudentsWith(group, {"present", "late", "excused"})|
  {
    StudentCountIs(group, "present");
    StudentCountIs(group, "late");
    StudentCountIs(group, "excused");
    AttendedIsNumber(group);
  }

  lemma ShareOfItem(item: StudentItem)
    requires StudentShare(item) && StudentCountsSound(item.counts)
    ensures IsShare(item.percentage, StudentAttended(item.counts), item.counts.total)
  {
    PercentageIsShare(StudentAttended(item.counts), item.counts.total);
  }

  /** Each percentage is the exact share of the student's records whose status is present, late or
      excused, rounded once, between 0.00 and 100.00. */
  lemma StudentPercentages(items: seq<StudentItem>, records: seq<StudentRecord>, k: nat)
    requires IsStudentSummary(items, records) && StudentRowsSound(records) && StudentShares(items) && k < |items|
    ensures var group := RecordsOf(records, StudentOf, items[k].student);
      IsShare(items[k].percentage, |StudentsWith(group, {"present", "late", "excused"})|, |group|)
  {
    OneStudentItem(items, records, k);
    StudentAttendedIs(items[k].counts, RecordsOf(records, StudentOf, items[k].student));
    ShareOfItem(items[k]);
  }

  // Employee summaries

  /** In a sound table an item's counts partition its records, which lie on distinct days, and
      its work seconds are those of the closed intervals, the clamp never firing. */
  ghost predicate EmployeeCountsSound(counts: EmployeeCounts, records: seq<EmployeeRecord>) {
    && counts.present + counts.absent + counts.late + counts.halfDay + counts.onLeave == counts.days
    && counts.days == |Days(records)| && counts.days > 0
    && counts.workSeconds == Worked(records)
  }

  lemma EmployeeTotalsAddUp(items: seq<EmployeeItem>, records: seq<EmployeeRecord>)
    requires IsEmployeeSummary(items, records)
    ensures EmployeeTotals(items) == |records|
  {
    var ids := EmployeeIds(items);
    EmployeeTotalsAreSizes(items, records);
    EveryRecordHasAnId(ids, records, EmployeeOf);
    GroupsPartition(ids, records, EmployeeOf);
  }

  lemma EmployeeGroupIsSound(records: seq<EmployeeRecord>, id: nat)
    requires EmployeeRowsSound(records)
    ensures var group := RecordsOf(records, EmployeeOf, id);
      (forall k | 0 <= k < |group| :: EmployeeRowSound(group[k]) && KnownEmployeeText(group[k].status))
          && DistinctDays(group)
  {
    var group := RecordsOf(records, EmployeeOf, id);
    GroupMembers(records, EmployeeOf, id);
    forall k | 0 <= k < |group|
      ensures EmployeeRowSound(group[k]) && KnownEmployeeText(group[k].status)
    {
      assert group[k] in group;
    }
    GroupDaysDiffer(records, id);
  }

  lemma {:induction false} GroupDaysDiffer(records: seq<EmployeeRecord>, id: nat)
    requires EmployeeRowsSound(records)
    ensures DistinctDays(RecordsOf(records, EmployeeOf, id))
  {
    if records == [] {
    } else {
      var front, last := records[..|records| - 1], records[|records| - 1];
      GroupDaysDiffer(front, id);
      var before := RecordsOf(front, EmployeeOf, id);
      forall i: nat | i < |before| && EmployeeOf(last) == id
        ensures before[i].day != last.day
      {
        NewDay(records, id, i);
      }
      assert RecordsOf(records, EmployeeOf, id) == before + if EmployeeOf(last) == id then [last] else [];
    }
  }

  lemma NewDay(records: seq<EmployeeRecord>, id: nat, i: nat)
    requires EmployeeRowsSound(records) && records != [] && records[|records| - 1].employee == id
    requires i < |RecordsOf(records[..|records| - 1], EmployeeOf, id)|
    ensures RecordsOf(records[..|records| - 1], EmployeeOf, id)[i].day != records[|records| - 1].day
  {
    var front := records[..|records| - 1];
    var before := RecordsOf(front, EmployeeOf, id);
    GroupMembers(front, EmployeeOf, id);
    assert before[i] in before;
    var k :| 0 <= k < |front| && front[k] == before[i];
    assert records[k] == before[i];
  }

  lemma OneEmployeeItem(items: seq<EmployeeItem>, records: seq<EmployeeRecord>, k: nat)
    requires IsEmployeeSummary(items, records) && EmployeeRowsSound(records) && k < |items|
    ensures EmployeeCountsSound(items[k].counts, RecordsOf(records, EmployeeOf, items[k].employee))
  {
    assert EmployeeIds(items)[k] in EmployeeIds(items);
    var group := RecordsOf(records, EmployeeOf, items[k].employee);
    EmployeeGroupIsSound(records, items[k].employee);
    EmployeeCountsAddUp(group);
    ClampNeverFires(group);
    DaysAreDistinct(group);
  }

  /** In every reachable state an employee summary lists each employee with a selected record
      once, in increasing order; the items partition the selected records, each item's counts
      partition its days, and its work seconds add up its closed intervals. */
  lemma EmployeeSummaryPartitions(requests: seq<Request>, from: int, to: int, employee: Option<nat>,
      items: seq<EmployeeItem>)
    requires var s := Run(EMPTY, requests); IsEmployeeSummary(items, SelectEmployees(s.employees, from, to, employee))
    ensures var records := SelectEmployees(Run(EMPTY, requests).employees, from, to, employee);
      && EmployeeTotals(items) == |records|
      && forall k | 0 <= k < |items| ::
          EmployeeCountsSound(items[k].counts, RecordsOf(records, EmployeeOf, items[k].employee))
    ensures forall i, j | 0 <= i < j < |items| :: items[i].employee < items[j].employee
  {
    var s := Run(EMPTY, requests);
    var records := SelectEmployees(s.employees, from, to, employee);
    RunPreserves(EMPTY, requests);
    SelectedEmployeesAreSound(s.employees, from, to, employee);
    EmployeeTotalsAddUp(items, records);
    forall k: nat | k < |items|
      ensures EmployeeCountsSound(items[k].counts, RecordsOf(records, EmployeeOf, items[k].employee))
    {
      OneEmployeeItem(items, records, k);
    }
    forall i, j | 0 <= i < j < |items|
      ensures items[i].employee < items[j].employee
    {
      assert EmployeeIds(items)[i] < EmployeeIds(items)[j];
    }
  }

  /** In hundredths of a day: present and late days weigh 1.00, half days 0.50. */
  ghost function DaysAttended(records: seq<EmployeeRecord>): nat {
    100 * |EmployeesWith(records, {"present"})| + 100 * |EmployeesWith(records, {"late"})|
    + 50 * |EmployeesWith(records, {"half_day"})|
  }

  lemma EmployeeAttendedIs(counts: EmployeeCounts, group: seq<EmployeeRecord>)
    requires counts == CountEmployees(group)
    ensures EmployeeAttended(counts) == DaysAttended(group)
  {
    EmployeeCountIs(group, "present");
    EmployeeCountIs(group, "late");
    EmployeeCountIs(group, "half_day");
  }

  lemma ShareOfDays(item: EmployeeItem, records: seq<EmployeeRecord>)
    requires EmployeeShare(item) && EmployeeCountsSound(item.counts, records)
    ensures IsShare(item.percentage, EmployeeAttended(item.counts), 100 * item.counts.days)
  {
    PercentageIsShare(EmployeeAttended(item.counts), 100 * item.counts.days);
  }

  /** Each percentage is the exact share of the employee's days attended, rounded once, between 0.00
      and 100.00. */
  lemma EmployeePercentages(items: seq<EmployeeItem>, records: seq<EmployeeRecord>, k: nat)
    requires IsEmployeeSummary(items, records) && EmployeeRowsSound(records) && EmployeeShares(items) && k < |items|
    ensures var group := RecordsOf(records, EmployeeOf, items[k].employee);
      IsShare(items[k].percentage, DaysAttended(group), 100 * |group|)
  {
    OneEmployeeItem(items, records, k);
    EmployeeAttendedIs(items[k].counts, RecordsOf(records, EmployeeOf, items[k].employee));
    ShareOfDays(items[k], RecordsOf(records, EmployeeOf, items[k].employee));
  }
}
