/** The portal's records: users and their role tag, the academic structure,
    student profiles, attendance, leave requests and the weekly timetable,
    with the field domains and uniqueness constraints the schema declares. */
module Models {
  import opened Basics
  import opened Text

  // ---------------------------------------------------------------------
  // Users and roles
  // ---------------------------------------------------------------------

  /** `User.role` is a character field; these are the tags the code writes
      and compares against. */
  const ADMIN: string := "ADMIN"
  const STUDENT: string := "STUDENT"
  const FACULTY: string := "FACULTY"
  const HOD: string := "HOD"

  /** The choices declared for `User.role`: ADMIN, STUDENT and FACULTY. */
  const RoleChoices: set<string> := {ADMIN, STUDENT, FACULTY}

  /** The role set the rest of the portal is written against: the declared
      choices plus HOD, which the access gates and routes expect. */
  const PortalRoles: set<string> := RoleChoices + {HOD}

  type UserId = nat
  type StudentId = nat  // primary key of a StudentProfile
  type SubjectId = nat
  type ClassId = nat

  /** Calendar day (the `date` fields), as a day number. */
  type Date = int

  /** Instant (the `created_at`/`updated_at` fields), in microseconds, the
      resolution of the source's datetimes. */
  type Timestamp = int

  datatype UserRec = UserRec(
    username: string,
    firstName: string,
    lastName: string,
    email: string,
    role: string,
    isActive: bool)

  /** `get_full_name()`: first and last name joined by a space, stripped. */
  function FullName(u: UserRec): (r: string)
    ensures Trimmed(r) && |r| <= |u.firstName| + |u.lastName| + 1
  {
    Strip(u.firstName + " " + u.lastName)
  }

  /** The check every role-restricted view runs first: an active user whose
      role tag is exactly `required`. */
  predicate PassesRoleGate(u: UserRec, required: string) {
    u.isActive && u.role == required
  }

  /** The HOD gate as written: no user whose role is one of the declared
      choices can pass it, so every view behind it is unreachable for them. */
  lemma HodGateAdmitsNoDeclaredRole(u: UserRec)
    requires u.role in RoleChoices
    ensures !PassesRoleGate(u, HOD)
  {
    assert HOD !in RoleChoices;
  }

  /** With HOD among the role choices the gate serves its purpose: some user
      whose role is a choice passes it, and every user with a choice who
      passes it holds the role that the declared choices lack. */
  lemma HodGateAdmitsHods()
    ensures exists u: UserRec :: u.role in PortalRoles && PassesRoleGate(u, HOD)
    ensures forall u: UserRec | u.role in PortalRoles && PassesRoleGate(u, HOD) :: u.role !in RoleChoices
  {
    var hod := UserRec("hod", "", "", "", HOD, true);
    assert hod.role in PortalRoles && PassesRoleGate(hod, HOD);
    assert HOD !in RoleChoices;
  }

  /** One user row as a mutable object, for the two proxy models' `save`. */
  class UserInstance {
    var pk: Option<UserId>
    var role: string

    constructor (role: string)
      ensures pk == None && this.role == role
    {
      pk := None;
      this.role := role;
    }

    /** `Student.save()`: a row being created gets the STUDENT role, whatever
        was set before; saving a row that already exists keeps its role. */
    method SaveAsStudent(newPk: UserId)
      modifies this
      ensures old(pk).None? ==> pk == Some(newPk) && role == STUDENT
      ensures old(pk).Some? ==> pk == old(pk) && role == old(role)
    {
      if pk.None? {
        role := STUDENT;
        pk := Some(newPk);
      }
    }

    /** `Faculty.save()`: the same rule with the FACULTY role. */
    method SaveAsFaculty(newPk: UserId)
      modifies this
      ensures old(pk).None? ==> pk == Some(newPk) && role == FACULTY
      ensures old(pk).Some? ==> pk == old(pk) && role == old(role)
    {
      if pk.None? {
        role := FACULTY;
        pk := Some(newPk);
      }
    }
  }

  // ---------------------------------------------------------------------
  // Academic structure and profiles
  // ---------------------------------------------------------------------

  datatype ClassRec = ClassRec(name: string, department: nat)

  datatype SubjectRec = SubjectRec(name: string, course: ClassId, faculty: Option<UserId>)

  datatype ProfileRec = ProfileRec(user: UserId, rollNo: string, course: ClassId)

  /** Why the storage layer refuses a row. */
  datatype SaveError = InvalidChoice | UniqueViolation

  /** No value occurs twice. */
  predicate Distinct<T(==)>(s: seq<T>) {
    forall i, j | 0 <= i < j < |s| :: s[i] != s[j]
  }

  /** Inserting into a column declared `unique=True` (department names, class
      names, roll numbers): refused when the value is already present. */
  function InsertUnique<T(==)>(column: seq<T>, v: T): (r: Result<seq<T>, SaveError>)
    ensures r.Err? <==> v in column
    ensures r.Err? ==> r.error == UniqueViolation
    ensures r.Ok? ==> r.value == column + [v]
  {
    if v in column then Err(UniqueViolation) else Ok(column + [v])
  }

  /** Every insert the column accepts keeps its values distinct. */
  lemma InsertUniqueKeepsDistinct<T>(column: seq<T>, v: T)
    requires Distinct(column)
    ensures InsertUnique(column, v).Ok? ==> Distinct(InsertUnique(column, v).value)
  {
    if v !in column {
      var c := column + [v];
      forall i, j | 0 <= i < j < |c| ensures c[i] != c[j] {
        if j == |column| {
          assert c[i] == column[i];
        }
      }
    }
  }

  // ---------------------------------------------------------------------
  // Attendance
  // ---------------------------------------------------------------------

  /** The fields that identify an attendance record: `unique_together` over
      student, subject and date. There is no time-slot field, so two lectures
      of one subject on one day share a record. */
  datatype AttendanceKey = AttendanceKey(student: StudentId, subject: SubjectId, date: Date)

  /** The rest of an attendance row. */
  datatype AttendanceEntry = AttendanceEntry(isPresent: bool, createdAt: Timestamp, updatedAt: Timestamp)

  /** An attendance row as the reports read it. */
  datatype AttendanceRecord = AttendanceRecord(student: StudentId, subject: SubjectId, date: Date, isPresent: bool)

  function KeyOf(r: AttendanceRecord): AttendanceKey {
    AttendanceKey(r.student, r.subject, r.date)
  }

  function RecordOf(k: AttendanceKey, e: AttendanceEntry): (r: AttendanceRecord)
    ensures KeyOf(r) == k && r.isPresent == e.isPresent
  {
    AttendanceRecord(k.student, k.subject, k.date, e.isPresent)
  }

  /** A row created at `now` before any field is set: absent, and both
      timestamps equal to `now`. */
  function NewEntry(now: Timestamp): (e: AttendanceEntry)
    ensures !e.isPresent && e.createdAt == now && e.updatedAt == now
  {
    AttendanceEntry(false, now, now)
  }

  /** The uniqueness constraint on a list of attendance rows. */
  predicate UniqueKeys(records: seq<AttendanceRecord>) {
    forall i, j | 0 <= i < j < |records| :: KeyOf(records[i]) != KeyOf(records[j])
  }

  // ---------------------------------------------------------------------
  // Leave requests
  // ---------------------------------------------------------------------

  datatype LeaveStatus = Pending | Approved | Rejected

  /** The stored value of each status choice. */
  function StatusCode(s: LeaveStatus): string {
    match s
    case Pending => "PENDING"
    case Approved => "APPROVED"
    case Rejected => "REJECTED"
  }

  /** The human-readable label of each status choice. */
  function StatusLabel(s: LeaveStatus): string {
    match s
    case Pending => "Pending"
    case Approved => "Approved"
    case Rejected => "Rejected"
  }

  /** Reads a stored status value back; anything but the three codes is not a
      status. */
  function ParseStatus(code: string): (r: Option<LeaveStatus>)
    ensures r.Some? ==> StatusCode(r.value) == code
    ensures r.None? ==> code !in {"PENDING", "APPROVED", "REJECTED"}
  {
    if code == "PENDING" then Some(Pending)
    else if code == "APPROVED" then Some(Approved)
    else if code == "REJECTED" then Some(Rejected)
    else None
  }

  /** Every status is stored under its own code and read back unchanged. */
  lemma StatusCodeRoundTrip(s: LeaveStatus)
    ensures ParseStatus(StatusCode(s)) == Some(s)
  {
  }

  datatype LeaveRecord = LeaveRecord(
    user: UserId,
    startDate: Date,
    endDate: Date,
    reason: string,
    status: LeaveStatus,
    createdAt: Timestamp,
    updatedAt: Timestamp)

  /** A leave request as first saved: status PENDING. */
  function NewLeaveRecord(user: UserId, startDate: Date, endDate: Date, reason: string, now: Timestamp): (r: LeaveRecord)
    ensures r.status == Pending
    ensures r.user == user && r.startDate == startDate && r.endDate == endDate && r.reason == reason
    ensures r.createdAt == now && r.updatedAt == now
  {
    LeaveRecord(user, startDate, endDate, reason, Pending, now, now)
  }

  // ---------------------------------------------------------------------
  // Timetable
  // ---------------------------------------------------------------------

  datatype TimetableEntry = TimetableEntry(subject: SubjectId, dayOfWeek: int, timeSlot: nat)

  /** `DAY_CHOICES`: 1 (Monday) to 7 (Sunday). */
  predicate IsDayChoice(d: int) {
    1 <= d <= 7
  }

  /** Two entries book the same subject in the same slot of the same day. */
  predicate Clash(a: TimetableEntry, b: TimetableEntry) {
    a.subject == b.subject && a.dayOfWeek == b.dayOfWeek && a.timeSlot == b.timeSlot
  }

  predicate WellFormedTimetable(tt: seq<TimetableEntry>) {
    && (forall i | 0 <= i < |tt| :: IsDayChoice(tt[i].dayOfWeek))
    && (forall i, j | 0 <= i < j < |tt| :: !Clash(tt[i], tt[j]))
  }

  /** Saving a new timetable entry through a model form: the day must be one
      of the choices, then the (subject, day, slot) triple must be new. */
  function AddTimetableEntry(tt: seq<TimetableEntry>, e: TimetableEntry): (r: Result<seq<TimetableEntry>, SaveError>)
    ensures r.Ok? <==> IsDayChoice(e.dayOfWeek) && forall i | 0 <= i < |tt| :: !Clash(tt[i], e)
    ensures !IsDayChoice(e.dayOfWeek) ==> r == Err(InvalidChoice)
    ensures r.Ok? ==> r.value == tt + [e]
  {
    if !IsDayChoice(e.dayOfWeek) then Err(InvalidChoice)
    else if exists i | 0 <= i < |tt| :: Clash(tt[i], e) then Err(UniqueViolation)
    else Ok(tt + [e])
  }

  /** Every accepted entry keeps the timetable well formed. */
  lemma AddTimetableEntryKeepsWellFormed(tt: seq<TimetableEntry>, e: TimetableEntry)
    requires WellFormedTimetable(tt)
    requires AddTimetableEntry(tt, e).Ok?
    ensures WellFormedTimetable(AddTimetableEntry(tt, e).value)
  {
    var t := tt + [e];
    forall i, j | 0 <= i < j < |t| ensures !Clash(t[i], t[j]) {
      if j == |tt| {
        assert t[i] == tt[i];
      }
    }
  }
}
