/** Attendance aggregation and the reports built on it: the per-class
    consolidated matrix, the low-attendance list, the student and admin
    dashboards and the faculty member's per-subject insights. All of them read
    a list of attendance rows; none writes. */
module Reports {
  import opened Basics
  import opened Models
  import Attendance

  // ---------------------------------------------------------------------
  // Counting rows
  // ---------------------------------------------------------------------

  /** Rows of `student` in `subject` marked present. */
  function PresentCount(records: seq<AttendanceRecord>, student: StudentId, subject: SubjectId): nat {
    if records == [] then 0
    else
      var r := records[|records| - 1];
      PresentCount(records[..|records| - 1], student, subject)
        + (if r.student == student && r.subject == subject && r.isPresent then 1 else 0)
  }

  /** Rows of `student` in `subject`, present or not. */
  function RecordCount(records: seq<AttendanceRecord>, student: StudentId, subject: SubjectId): nat {
    if records == [] then 0
    else
      var r := records[|records| - 1];
      RecordCount(records[..|records| - 1], student, subject)
        + (if r.student == student && r.subject == subject then 1 else 0)
  }

  /** Rows of `student` in any subject. */
  function StudentTotal(records: seq<AttendanceRecord>, student: StudentId): nat {
    if records == [] then 0
    else
      StudentTotal(records[..|records| - 1], student)
        + (if records[|records| - 1].student == student then 1 else 0)
  }

  /** Rows of `student` in any subject marked present. */
  function StudentPresent(records: seq<AttendanceRecord>, student: StudentId): nat {
    if records == [] then 0
    else
      var r := records[|records| - 1];
      StudentPresent(records[..|records| - 1], student) + (if r.student == student && r.isPresent then 1 else 0)
  }

  /** Rows marked present, over the whole table. */
  function AllPresent(records: seq<AttendanceRecord>): nat {
    if records == [] then 0
    else AllPresent(records[..|records| - 1]) + (if records[|records| - 1].isPresent then 1 else 0)
  }

  lemma {:induction false} PresentAtMostRecords(records: seq<AttendanceRecord>, student: StudentId, subject: SubjectId)
    ensures PresentCount(records, student, subject) <= RecordCount(records, student, subject)
  {
    if records != [] {
      PresentAtMostRecords(records[..|records| - 1], student, subject);
    }
  }

  lemma {:induction false} StudentPresentAtMostTotal(records: seq<AttendanceRecord>, student: StudentId)
    ensures StudentPresent(records, student) <= StudentTotal(records, student)
  {
    if records != [] {
      StudentPresentAtMostTotal(records[..|records| - 1], student);
    }
  }

  lemma {:induction false} AllPresentAtMostAll(records: seq<AttendanceRecord>)
    ensures AllPresent(records) <= |records|
  {
    if records != [] {
      AllPresentAtMostAll(records[..|records| - 1]);
    }
  }

  // ---------------------------------------------------------------------
  // Lectures conducted
  // ---------------------------------------------------------------------

  /** The days on which `subject` has at least one row: one lecture per day,
      whichever students were marked. */
  function ConductedDates(records: seq<AttendanceRecord>, subject: SubjectId): set<Date> {
    set r | r in records && r.subject == subject :: r.date
  }

  /** Lectures conducted in `subject`: the number of distinct days with rows. */
  function ConductedCount(records: seq<AttendanceRecord>, subject: SubjectId): nat {
    |ConductedDates(records, subject)|
  }

  /** The days on which `student` is marked present in `subject`. */
  function PresentDates(records: seq<AttendanceRecord>, student: StudentId, subject: SubjectId): set<Date> {
    set r | r in records && r.student == student && r.subject == subject && r.isPresent :: r.date
  }

  /** With one row per (student, subject, date), each present row of a student
      in a subject is on a day of its own. */
  lemma {:induction false} PresentCountIsPresentDays(records: seq<AttendanceRecord>, student: StudentId, subject: SubjectId)
    requires UniqueKeys(records)
    ensures PresentCount(records, student, subject) == |PresentDates(records, student, subject)|
  {
    if records != [] {
      var init := records[..|records| - 1];
      var last := records[|records| - 1];
      assert records == init + [last];
      assert UniqueKeys(init) by {
        forall i, j | 0 <= i < j < |init| ensures KeyOf(init[i]) != KeyOf(init[j]) {
          assert init[i] == records[i] && init[j] == records[j];
        }
      }
      PresentCountIsPresentDays(init, student, subject);
      PresentDatesSnoc(init, last, student, subject);
      if last.student == student && last.subject == subject && last.isPresent {
        forall i | 0 <= i < |init| && init[i].student == student && init[i].subject == subject
          ensures init[i].date != last.date
        {
          assert KeyOf(records[i]) != KeyOf(records[|records| - 1]);
        }
        assert last.date !in PresentDates(init, student, subject);
      }
    }
  }

  /** One more row adds its date to the present dates when it is a present
      row of the student in the subject, and nothing otherwise. */
  lemma PresentDatesSnoc(init: seq<AttendanceRecord>, last: AttendanceRecord, student: StudentId, subject: SubjectId)
    ensures PresentDates(init + [last], student, subject)
            == PresentDates(init, student, subject)
               + (if last.student == student && last.subject == subject && last.isPresent then {last.date} else {})
  {
    var records := init + [last];
    assert forall r :: r in records <==> r in init || r == last;
  }

  /** A student can never be present at more lectures of a subject than were
      conducted. */
  lemma PresentAtMostConducted(records: seq<AttendanceRecord>, student: StudentId, subject: SubjectId)
    requires UniqueKeys(records)
    ensures PresentCount(records, student, subject) <= ConductedCount(records, subject)
  {
    PresentCountIsPresentDays(records, student, subject);
    assert PresentDates(records, student, subject) <= ConductedDates(records, subject);
    SubsetCard(PresentDates(records, student, subject), ConductedDates(records, subject));
  }

  // ---------------------------------------------------------------------
  // Consolidated report (one class: students x subjects)
  // ---------------------------------------------------------------------

  datatype Cell = Cell(attended: nat, conducted: nat)

  datatype StudentRow = StudentRow(
    student: StudentId,
    cells: seq<Cell>,
    totalAttended: nat,
    totalConducted: nat,
    percentage: Ratio)

  function SumAttended(cells: seq<Cell>): nat {
    if cells == [] then 0 else SumAttended(cells[..|cells| - 1]) + cells[|cells| - 1].attended
  }

  function SumConducted(cells: seq<Cell>): nat {
    if cells == [] then 0 else SumConducted(cells[..|cells| - 1]) + cells[|cells| - 1].conducted
  }

  /** One row of the matrix, as the report means it: a cell per subject of the
      class with the student's present count and the subject's lectures
      conducted, the two totals over those cells, and the overall percentage,
      0 when nothing was conducted. */
  predicate RowMeans(row: StudentRow, student: StudentId, subjects: seq<SubjectId>, records: seq<AttendanceRecord>) {
    && row.student == student
    && |row.cells| == |subjects|
    && (forall j | 0 <= j < |subjects| ::
          row.cells[j] == Cell(PresentCount(records, student, subjects[j]), ConductedCount(records, subjects[j])))
    && row.totalAttended == SumAttended(row.cells)
    && row.totalConducted == SumConducted(row.cells)
    && row.percentage == PercentOr(row.totalAttended, row.totalConducted, 0)
  }

  function GetOr0<K>(m: map<K, nat>, k: K): nat {
    if k in m then m[k] else 0
  }

  /** The lectures-conducted map: every subject of the class maps to the
      number of distinct dates it has rows for. */
  method ConductedPerSubject(subjects: seq<SubjectId>, records: seq<AttendanceRecord>)
    returns (conducted: map<SubjectId, nat>)
    ensures forall k | 0 <= k < |subjects| :: subjects[k] in conducted
    ensures forall sj | sj in conducted :: conducted[sj] == ConductedCount(records, sj)
  {
    conducted := map[];
    for j := 0 to |subjects|
      invariant forall sj | sj in conducted :: conducted[sj] == ConductedCount(records, sj)
      invariant forall k | 0 <= k < j :: subjects[k] in conducted
    {
      conducted := conducted[subjects[j] := |ConductedDates(records, subjects[j])|];
    }
  }

  /** One grouped pass over the rows: the present count of every (student,
      subject) pair of the class, missing pairs reading as 0. */
  method PresentPerPair(students: seq<StudentId>, subjects: seq<SubjectId>, records: seq<AttendanceRecord>)
    returns (present: map<(StudentId, SubjectId), nat>)
    ensures forall st, sj | st in students && sj in subjects ::
              GetOr0(present, (st, sj)) == PresentCount(records, st, sj)
  {
    present := map[];
    for i := 0 to |records|
      invariant forall st, sj | st in students && sj in subjects ::
                  GetOr0(present, (st, sj)) == PresentCount(records[..i], st, sj)
    {
      var r := records[i];
      assert records[..i + 1][..i] == records[..i];
      if r.isPresent && r.student in students && r.subject in subjects {
        present := present[(r.student, r.subject) := GetOr0(present, (r.student, r.subject)) + 1];
      }
    }
    assert records[..|records|] == records;
  }

  /** One student's row, read from the two maps. */
  method BuildRow(st: StudentId, subjects: seq<SubjectId>, records: seq<AttendanceRecord>,
                  present: map<(StudentId, SubjectId), nat>, conducted: map<SubjectId, nat>)
    returns (row: StudentRow)
    requires forall k | 0 <= k < |subjects| ::
               subjects[k] in conducted && conducted[subjects[k]] == ConductedCount(records, subjects[k])
    requires forall k | 0 <= k < |subjects| ::
               GetOr0(present, (st, subjects[k])) == PresentCount(records, st, subjects[k])
    ensures RowMeans(row, st, subjects, records)
  {
    var cells: seq<Cell> := [];
    var attended, held := 0, 0;
    for j := 0 to |subjects|
      invariant |cells| == j
      invariant forall k | 0 <= k < j ::
                  cells[k] == Cell(PresentCount(records, st, subjects[k]), ConductedCount(records, subjects[k]))
      invariant attended == SumAttended(cells) && held == SumConducted(cells)
    {
      var c := Cell(GetOr0(present, (st, subjects[j])), GetOr0(conducted, subjects[j]));
      assert (cells + [c])[..j] == cells;
      cells := cells + [c];
      attended := attended + c.attended;
      held := held + c.conducted;
    }
    row := StudentRow(st, cells, attended, held, PercentOr(attended, held, 0));
  }

  /** The body of `consolidated_report` once the class is known: the
      lectures-conducted map per subject, one grouped pass over the rows for
      the present counts, then a row per student summing over the subjects. */
  method ConsolidatedRows(students: seq<StudentId>, subjects: seq<SubjectId>, records: seq<AttendanceRecord>)
    returns (rows: seq<StudentRow>)
    ensures |rows| == |students|
    ensures forall i | 0 <= i < |students| :: RowMeans(rows[i], students[i], subjects, records)
  {
    var conducted := ConductedPerSubject(subjects, records);
    var present := PresentPerPair(students, subjects, records);
    rows := [];
    for i := 0 to |students|
      invariant |rows| == i
      invariant forall k | 0 <= k < i :: RowMeans(rows[k], students[k], subjects, records)
    {
      var row := BuildRow(students[i], subjects, records, present, conducted);
      rows := rows + [row];
    }
  }

  lemma {:induction false} SumsBounded(cells: seq<Cell>)
    requires forall j | 0 <= j < |cells| :: cells[j].attended <= cells[j].conducted
    ensures SumAttended(cells) <= SumConducted(cells)
  {
    if cells != [] {
      SumsBounded(cells[..|cells| - 1]);
    }
  }

  /** Every row of the consolidated report attends at most what was
      conducted, so its percentage lies between 0 and 100. */
  lemma ConsolidatedRowIsPercentage(row: StudentRow, student: StudentId, subjects: seq<SubjectId>, records: seq<AttendanceRecord>)
    requires UniqueKeys(records)
    requires RowMeans(row, student, subjects, records)
    ensures row.totalAttended <= row.totalConducted
    ensures IsPercentage(row.percentage)
  {
    forall j | 0 <= j < |row.cells| ensures row.cells[j].attended <= row.cells[j].conducted {
      PresentAtMostConducted(records, student, subjects[j]);
    }
    SumsBounded(row.cells);
    PercentOfPartIsPercentage(row.totalAttended, row.totalConducted, 0);
  }

  /** The students of class `c`, in the order given. */
  function StudentsOf(profiles: seq<(StudentId, ProfileRec)>, c: ClassId): (r: seq<StudentId>)
    ensures forall st | st in r :: exists k | 0 <= k < |profiles| :: profiles[k].0 == st && profiles[k].1.course == c
    ensures forall k | 0 <= k < |profiles| && profiles[k].1.course == c :: profiles[k].0 in r
  {
    if profiles == [] then []
    else
      var rest := StudentsOf(profiles[1..], c);
      assert forall k | 1 <= k < |profiles| :: profiles[k] == profiles[1..][k - 1];
      if profiles[0].1.course == c then [profiles[0].0] + rest else rest
  }

  /** The subjects of class `c`, in the order given. */
  function SubjectsOf(subjects: seq<(SubjectId, SubjectRec)>, c: ClassId): (r: seq<SubjectId>)
    ensures forall sj | sj in r :: exists k | 0 <= k < |subjects| :: subjects[k].0 == sj && subjects[k].1.course == c
    ensures forall k | 0 <= k < |subjects| && subjects[k].1.course == c :: subjects[k].0 in r
  {
    if subjects == [] then []
    else
      var rest := SubjectsOf(subjects[1..], c);
      assert forall k | 1 <= k < |subjects| :: subjects[k] == subjects[1..][k - 1];
      if subjects[0].1.course == c then [subjects[0].0] + rest else rest
  }

  datatype ReportPage =
    | Rendered(rows: seq<StudentRow>, subjects: seq<SubjectId>, warning: Option<string>)
    | ServerError(message: string)

  const MISSING_CLASS_WARNING: string := "The selected course does not exist."

  /** `consolidated_report` as written: when the selected class does not
      exist, the `except` clause names `Course`, which is not defined in the
      module, so the request fails with a NameError instead of showing the
      warning. */
  method ConsolidatedReportAsWritten(classes: map<ClassId, ClassRec>, selected: Option<ClassId>,
                                     profiles: seq<(StudentId, ProfileRec)>, subjects: seq<(SubjectId, SubjectRec)>,
                                     records: seq<AttendanceRecord>)
    returns (page: ReportPage)
    ensures selected.None? ==> page == Rendered([], [], None)
    ensures selected.Some? && selected.value !in classes ==> page.ServerError?
    ensures selected.Some? && selected.value in classes ==>
              && page.Rendered? && page.warning.None?
              && page.subjects == SubjectsOf(subjects, selected.value)
              && |page.rows| == |StudentsOf(profiles, selected.value)|
              && forall i | 0 <= i < |page.rows| ::
                   RowMeans(page.rows[i], StudentsOf(profiles, selected.value)[i], page.subjects, records)
  {
    if selected.None? {
      return Rendered([], [], None);
    }
    if selected.value !in classes {
      return ServerError("NameError: name 'Course' is not defined");
    }
    var c := selected.value;
    var subjectIds := SubjectsOf(subjects, c);
    var rows := ConsolidatedRows(StudentsOf(profiles, c), subjectIds, records);
    return Rendered(rows, subjectIds, None);
  }

  /** `consolidated_report` as intended: a missing class yields an empty
      report with the warning, never an error page. */
  method ConsolidatedReport(classes: map<ClassId, ClassRec>, selected: Option<ClassId>,
                            profiles: seq<(StudentId, ProfileRec)>, subjects: seq<(SubjectId, SubjectRec)>,
                            records: seq<AttendanceRecord>)
    returns (page: ReportPage)
    ensures page.Rendered?
    ensures selected.None? ==> page == Rendered([], [], None)
    ensures selected.Some? && selected.value !in classes ==> page == Rendered([], [], Some(MISSING_CLASS_WARNING))
    ensures selected.Some? && selected.value in classes ==>
              && page.warning.None?
              && page.subjects == SubjectsOf(subjects, selected.value)
              && |page.rows| == |StudentsOf(profiles, selected.value)|
              && forall i | 0 <= i < |page.rows| ::
                   RowMeans(page.rows[i], StudentsOf(profiles, selected.value)[i], page.subjects, records)
  {
    if selected.None? {
      return Rendered([], [], None);
    }
    if selected.value !in classes {
      return Rendered([], [], Some(MISSING_CLASS_WARNING));
    }
    var c := selected.value;
    var subjectIds := SubjectsOf(subjects, c);
    var rows := ConsolidatedRows(StudentsOf(profiles, c), subjectIds, records);
    return Rendered(rows, subjectIds, None);
  }

  // ---------------------------------------------------------------------
  // Low attendance
  // ---------------------------------------------------------------------

  /** A student's raw row counts over all subjects. */
  datatype Standing = Standing(student: StudentId, present: nat, total: nat)

  function StandingOf(records: seq<AttendanceRecord>, student: StudentId): Standing {
    Standing(student, StudentPresent(records, student), StudentTotal(records, student))
  }

  /** The percentage of a student's rows marked present, against the raw row
      count rather than lectures conducted. */
  function Pct(s: Standing): Ratio {
    PercentOr(s.present, s.total, 0)
  }

  /** `total_classes > 0` and `percentage < 75.0`. */
  predicate IsLow(s: Standing) {
    s.total > 0 && s.present * 100 < 75 * s.total
  }

  lemma IsLowMeansBelow75(s: Standing)
    requires s.total > 0
    ensures IsLow(s) <==> Below(Pct(s), 75)
  {
  }

  /** The students (in the given order) with at least one row and under 75%
      present: the list the chatbot reports, which is not sorted. */
  function LowAttendanceStudents(students: seq<StudentId>, records: seq<AttendanceRecord>): (r: seq<Standing>)
    ensures |r| <= |students|
    ensures forall i | 0 <= i < |r| ::
              r[i].student in students && r[i] == StandingOf(records, r[i].student) && IsLow(r[i])
    ensures forall st | st in students && IsLow(StandingOf(records, st)) :: StandingOf(records, st) in r
  {
    if students == [] then []
    else
      var rest := LowAttendanceStudents(students[1..], records);
      assert forall st | st in students && st != students[0] :: st in students[1..];
      var s := StandingOf(records, students[0]);
      if IsLow(s) then [s] + rest else rest
  }

  /** No student has two entries in a list of standings. */
  predicate EachStudentOnce(r: seq<Standing>) {
    forall i, j | 0 <= i < j < |r| :: r[i].student != r[j].student
  }

  /** Each profile is listed at most once: the filter runs over distinct
      profiles, so no student appears in two entries. */
  lemma {:induction false} LowListListsEachStudentOnce(students: seq<StudentId>, records: seq<AttendanceRecord>)
    requires Distinct(students)
    ensures EachStudentOnce(LowAttendanceStudents(students, records))
  {
    if students != [] {
      var tail := students[1..];
      assert forall k | 0 <= k < |tail| :: tail[k] == students[k + 1];
      assert students[0] !in tail;
      LowListListsEachStudentOnce(tail, records);
      var rest := LowAttendanceStudents(tail, records);
      var s := StandingOf(records, students[0]);
      if IsLow(s) {
        var r := [s] + rest;
        assert LowAttendanceStudents(students, records) == r;
        assert forall j | 1 <= j < |r| :: r[j] == rest[j - 1] && r[j].student in tail;
      } else {
        assert LowAttendanceStudents(students, records) == rest;
      }
    }
  }

  /** Nobody without rows is listed: a student with no attendance yet is no
      signal of low attendance. */
  lemma LowListExcludesStudentsWithoutRows(students: seq<StudentId>, records: seq<AttendanceRecord>, st: StudentId)
    requires StudentTotal(records, st) == 0
    ensures forall s | s in LowAttendanceStudents(students, records) :: s.student != st
  {
  }

  predicate SortedByPct(s: seq<Standing>) {
    forall i, j | 0 <= i < j < |s| :: AtMost(Pct(s[i]), Pct(s[j]))
  }

  function InsertByPct(x: Standing, s: seq<Standing>): (r: seq<Standing>)
    requires SortedByPct(s)
    ensures SortedByPct(r)
    ensures multiset(r) == multiset(s) + multiset{x}
    ensures |r| > 0 && (r[0] == x || (|s| > 0 && r[0] == s[0]))
  {
    if s == [] then [x]
    else if AtMost(Pct(x), Pct(s[0])) then
      ConsSorted(x, s);
      [x] + s
    else
      AtMostTotal(Pct(x), Pct(s[0]));
      var t := InsertByPct(x, s[1..]);
      assert AtMost(Pct(s[0]), Pct(t[0])) by {
        if t[0] != x {
          assert t[0] == s[1];
        }
      }
      ConsSorted(s[0], t);
      assert s == [s[0]] + s[1..];
      [s[0]] + t
  }

  /** An element at most the head of a sorted list keeps it sorted in front. */
  lemma ConsSorted(h: Standing, t: seq<Standing>)
    requires SortedByPct(t)
    requires t != [] ==> AtMost(Pct(h), Pct(t[0]))
    ensures SortedByPct([h] + t)
  {
    var r := [h] + t;
    forall i, j | 0 <= i < j < |r| ensures AtMost(Pct(r[i]), Pct(r[j])) {
      if i == 0 {
        if j > 1 {
          AtMostTransitive(Pct(h), Pct(t[0]), Pct(t[j - 1]));
        }
      } else {
        assert r[i] == t[i - 1] && r[j] == t[j - 1];
      }
    }
  }

  function SortByPct(s: seq<Standing>): (r: seq<Standing>)
    ensures SortedByPct(r)
    ensures multiset(r) == multiset(s)
  {
    if s == [] then []
    else
      assert s == [s[0]] + s[1..];
      InsertByPct(s[0], SortByPct(s[1..]))
  }

  /** `LowAttendanceReportView.get_queryset`: the same students as the
      chatbot's list, ordered by ascending percentage. */
  function LowAttendanceReport(students: seq<StudentId>, records: seq<AttendanceRecord>): (r: seq<Standing>)
    ensures SortedByPct(r)
    ensures multiset(r) == multiset(LowAttendanceStudents(students, records))
  {
    SortByPct(LowAttendanceStudents(students, records))
  }

  /** A student appears in the report exactly when they have rows and are
      under 75% present. */
  lemma LowAttendanceReportMembers(students: seq<StudentId>, records: seq<AttendanceRecord>, st: StudentId)
    requires st in students
    ensures StandingOf(records, st) in LowAttendanceReport(students, records) <==> IsLow(StandingOf(records, st))
  {
    var low := LowAttendanceStudents(students, records);
    var r := LowAttendanceReport(students, records);
    var s := StandingOf(records, st);
    assert s in r <==> s in multiset(r);
    assert s in low <==> s in multiset(low);
    if s in low {
      var i :| 0 <= i < |low| && low[i] == s;
    }
  }

  // ---------------------------------------------------------------------
  // Dashboards and per-subject insights
  // ---------------------------------------------------------------------

  datatype StudentStats = StudentStats(totalClasses: nat, presentCount: nat, absentCount: nat, percentage: Ratio)

  /** `student_dashboard`: the student's rows over all subjects, how many are
      present and absent, and the percentage present, 0 with no rows. */
  function StudentDashboard(records: seq<AttendanceRecord>, student: StudentId): (d: StudentStats)
    ensures d.totalClasses == StudentTotal(records, student)
    ensures d.presentCount == StudentPresent(records, student)
    ensures d.presentCount + d.absentCount == d.totalClasses
    ensures d.percentage == PercentOr(d.presentCount, d.totalClasses, 0)
    ensures IsPercentage(d.percentage)
  {
    StudentPresentAtMostTotal(records, student);
    var total := StudentTotal(records, student);
    var present := StudentPresent(records, student);
    PercentOfPartIsPercentage(present, total, 0);
    StudentStats(total, present, total - present, PercentOr(present, total, 0))
  }

  /** `request.user.student_profile`: the profile attached to `user`, if
      any. */
  function ProfileOf(profiles: seq<(StudentId, ProfileRec)>, user: UserId): (r: Option<StudentId>)
    ensures r.None? <==> forall k | 0 <= k < |profiles| :: profiles[k].1.user != user
    ensures r.Some? ==> exists k | 0 <= k < |profiles| :: profiles[k].1.user == user && profiles[k].0 == r.value
  {
    if profiles == [] then None
    else if profiles[0].1.user == user then Some(profiles[0].0)
    else
      var rest := ProfileOf(profiles[1..], user);
      assert forall k | 1 <= k < |profiles| :: profiles[k] == profiles[1..][k - 1];
      rest
  }

  /** The dashboard page for a signed-in student user: a user without a
      profile makes the view raise (a server error, `None`); otherwise the
      page shows the figures of the user's own profile. */
  function StudentDashboardPage(profiles: seq<(StudentId, ProfileRec)>, user: UserId, records: seq<AttendanceRecord>): (r: Option<StudentStats>)
    ensures r.None? <==> forall k | 0 <= k < |profiles| :: profiles[k].1.user != user
    ensures r.Some? ==> exists k | 0 <= k < |profiles| ::
              profiles[k].1.user == user && r.value == StudentDashboard(records, profiles[k].0)
  {
    match ProfileOf(profiles, user)
    case None => None
    case Some(st) => Some(StudentDashboard(records, st))
  }

  lemma {:induction false} RecordCountAtMostTotal(records: seq<AttendanceRecord>, student: StudentId, subject: SubjectId)
    ensures RecordCount(records, student, subject) <= StudentTotal(records, student)
  {
    if records != [] {
      RecordCountAtMostTotal(records[..|records| - 1], student, subject);
    }
  }

  /** The two views disagree on a student with no rows at all: the student's
      own dashboard shows 0%, the faculty member's insights show 100% for
      every subject. */
  lemma NoRowsFallbacksDisagree(records: seq<AttendanceRecord>, student: StudentId, subject: SubjectId)
    requires StudentTotal(records, student) == 0
    ensures StudentDashboard(records, student).percentage == Ratio(0, 1)
    ensures PercentOr(PresentCount(records, student, subject), RecordCount(records, student, subject), 100) == Ratio(100, 1)
  {
    RecordCountAtMostTotal(records, student, subject);
  }

  /** The portal-wide average on the admin dashboard (and in the chatbot):
      the share of all rows marked present, 0 when there are no rows. */
  function AverageAttendance(records: seq<AttendanceRecord>): (p: Ratio)
    ensures |records| > 0 ==> p.num * |records| == AllPresent(records) * 100 * p.den
    ensures |records| == 0 ==> p.num == 0
    ensures IsPercentage(p)
  {
    AllPresentAtMostAll(records);
    PercentOfPartIsPercentage(AllPresent(records), |records|, 0);
    PercentOr(AllPresent(records), |records|, 0)
  }

  /** "Classes today" on the admin dashboard: the distinct subjects with a
      row dated `day`; the dashboard shows how many there are, never more
      than there are rows. */
  function ClassesHeldOn(records: seq<AttendanceRecord>, day: Date): (r: set<SubjectId>)
    ensures forall s :: s in r <==> exists i | 0 <= i < |records| :: records[i].date == day && records[i].subject == s
    ensures |r| <= |records|
  {
    if records == [] then {}
    else
      var init := records[..|records| - 1];
      var last := records[|records| - 1];
      var rest := ClassesHeldOn(init, day);
      assert forall i | 0 <= i < |init| :: init[i] == records[i];
      if last.date == day then AddOneCard(rest, last.subject); rest + {last.subject} else rest
  }

  lemma AddOneCard<T>(a: set<T>, x: T)
    ensures |a + {x}| <= |a| + 1
  {
    if x !in a {
      assert |a + {x}| == |a| + 1;
    } else {
      assert a + {x} == a;
    }
  }

  datatype Insight = Insight(student: StudentId, percentage: Ratio, totalClasses: nat, presentClasses: nat)

  /** `view_class_attendance`: for the subject's own faculty member, one
      insight per student of the subject's class with the student's rows in
      the subject, those present, and the percentage, which is 100 (not 0)
      when the student has no rows yet. */
  method ClassAttendanceInsights(subjects: map<SubjectId, SubjectRec>, faculty: UserId, subject: SubjectId,
                                 profiles: seq<(StudentId, ProfileRec)>, records: seq<AttendanceRecord>)
    returns (r: Result<seq<Insight>, Attendance.ViewOutcome>)
    ensures subject !in subjects ==> r == Err(Attendance.NotFound)
    ensures subject in subjects && !Attendance.Owns(subjects, subject, faculty) ==> r == Err(Attendance.PermissionDenied)
    ensures Attendance.Owns(subjects, subject, faculty) ==>
              && r.Ok?
              && var roster := StudentsOf(profiles, subjects[subject].course);
                 && |r.value| == |roster|
                 && forall i | 0 <= i < |roster| ::
                      var t := RecordCount(records, roster[i], subject);
                      var p := PresentCount(records, roster[i], subject);
                      && r.value[i] == Insight(roster[i], PercentOr(p, t, 100), t, p)
                      && IsPercentage(r.value[i].percentage)
  {
    if subject !in subjects {
      return Err(Attendance.NotFound);
    }
    if subjects[subject].faculty != Some(faculty) {
      return Err(Attendance.PermissionDenied);
    }
    var roster := StudentsOf(profiles, subjects[subject].course);
    var insights: seq<Insight> := [];
    for i := 0 to |roster|
      invariant |insights| == i
      invariant forall k | 0 <= k < i ::
                  var t := RecordCount(records, roster[k], subject);
                  var p := PresentCount(records, roster[k], subject);
                  && insights[k] == Insight(roster[k], PercentOr(p, t, 100), t, p)
                  && IsPercentage(insights[k].percentage)
    {
      var total := RecordCount(records, roster[i], subject);
      var present := PresentCount(records, roster[i], subject);
      PresentAtMostRecords(records, roster[i], subject);
      PercentOfPartIsPercentage(present, total, 100);
      insights := insights + [Insight(roster[i], PercentOr(present, total, 100), total, present)];
    }
    return Ok(insights);
  }
}
