/** Bulk creation of students and faculty members from an uploaded CSV file.
    After the header, each row either creates an account or is skipped with a
    warning and counted as an error; one unexpected failure (a class name that
    matches two classes) ends the loop, keeping the rows already created. */
module CsvImport {
  import opened Basics
  import opened Text
  import opened Models

  /** Why a row was skipped. */
  datatype SkipReason =
    /** The row did not unpack into the expected columns, or `create_user`
        refused its empty username: both raise ValueError, reported as
        "Incorrect number of columns". */
    | BadRow(row: seq<string>)
    | UsernameTaken(username: string)
    | RollNumberTaken(rollNo: string)
    | UnknownClass(className: string, username: string)

  datatype RowOutcome = Created | Skipped(reason: SkipReason) | Aborted(message: string)

  /** The user and student-profile tables; a user's id is its position. */
  datatype Tables = Tables(users: seq<UserRec>, profiles: seq<ProfileRec>)

  predicate UniqueUsernames(us: seq<UserRec>) {
    forall i, j | 0 <= i < j < |us| :: us[i].username != us[j].username
  }

  predicate UniqueRollNumbers(ps: seq<ProfileRec>) {
    forall i, j | 0 <= i < j < |ps| :: ps[i].rollNo != ps[j].rollNo
  }

  /** Usernames and roll numbers are unique and every profile belongs to an
      existing user. */
  predicate ValidTables(t: Tables) {
    && UniqueUsernames(t.users)
    && UniqueRollNumbers(t.profiles)
    && (forall i | 0 <= i < |t.profiles| :: t.profiles[i].user < |t.users|)
  }

  predicate UsernameExists(t: Tables, username: string) {
    exists i | 0 <= i < |t.users| :: t.users[i].username == username
  }

  predicate RollNumberExists(t: Tables, rollNo: string) {
    exists i | 0 <= i < |t.profiles| :: t.profiles[i].rollNo == rollNo
  }

  /** The lookup key `name__iexact=name.strip()` compares against. */
  function ClassKey(name: string): string {
    Lower(Strip(name))
  }

  predicate NameMatches(c: (ClassId, ClassRec), key: string) {
    Lower(c.1.name) == key
  }

  /** `Class.objects.filter(name__iexact=...)`: the ids of the classes whose
      name equals the key up to ASCII case, in table order. */
  function ClassMatches(classes: seq<(ClassId, ClassRec)>, key: string): (r: seq<ClassId>)
    ensures |r| <= |classes|
    ensures forall c | c in r :: exists k | 0 <= k < |classes| :: classes[k].0 == c && NameMatches(classes[k], key)
    ensures forall k | 0 <= k < |classes| && NameMatches(classes[k], key) :: classes[k].0 in r
  {
    if classes == [] then []
    else
      var rest := ClassMatches(classes[1..], key);
      assert forall k | 1 <= k < |classes| :: classes[k] == classes[1..][k - 1];
      if NameMatches(classes[0], key) then [classes[0].0] + rest else rest
  }

  /** One step of the student import: unpack seven columns, then refuse a
      taken username, then a taken roll number, then look the class up; an
      account is created only when all of these pass and the username is not
      empty. */
  function StudentRowStep(t: Tables, classes: seq<(ClassId, ClassRec)>, row: seq<string>): (r: (RowOutcome, Tables))
    ensures |row| != 7 ==> r == (Skipped(BadRow(row)), t)
    ensures |row| == 7 && UsernameExists(t, row[0]) ==> r == (Skipped(UsernameTaken(row[0])), t)
    ensures |row| == 7 && !UsernameExists(t, row[0]) && RollNumberExists(t, row[5]) ==>
              r == (Skipped(RollNumberTaken(row[5])), t)
    ensures |row| == 7 && !UsernameExists(t, row[0]) && !RollNumberExists(t, row[5]) ==>
              var m := ClassMatches(classes, ClassKey(row[6]));
              && (|m| == 0 ==> r == (Skipped(UnknownClass(row[6], row[0])), t))
              && (|m| > 1 ==> r.0.Aborted? && r.1 == t)
              && (|m| == 1 && row[0] == [] ==> r == (Skipped(BadRow(row)), t))
              && (|m| == 1 && row[0] != [] ==>
                    r == (Created, Tables(t.users + [UserRec(row[0], row[2], row[3], row[4], STUDENT, true)],
                                          t.profiles + [ProfileRec(|t.users|, row[5], m[0])])))
  {
    if |row| != 7 then (Skipped(BadRow(row)), t)
    else
      var username, firstName, lastName, email, rollNo, className := row[0], row[2], row[3], row[4], row[5], row[6];
      if UsernameExists(t, username) then (Skipped(UsernameTaken(username)), t)
      else if RollNumberExists(t, rollNo) then (Skipped(RollNumberTaken(rollNo)), t)
      else
        var m := ClassMatches(classes, ClassKey(className));
        if |m| == 0 then (Skipped(UnknownClass(className, username)), t)
        else if |m| > 1 then (Aborted("MultipleObjectsReturned: get() returned more than one Class"), t)
        else if username == [] then (Skipped(BadRow(row)), t)
        else
          var user := UserRec(username, firstName, lastName, email, STUDENT, true);
          (Created, Tables(t.users + [user], t.profiles + [ProfileRec(|t.users|, rollNo, m[0])]))
  }

  /** One step of the faculty import: unpack five columns, refuse a taken
      username, and create a FACULTY account unless the username is empty. */
  function FacultyRowStep(t: Tables, row: seq<string>): (r: (RowOutcome, Tables))
    ensures |row| != 5 ==> r == (Skipped(BadRow(row)), t)
    ensures |row| == 5 && UsernameExists(t, row[0]) ==> r == (Skipped(UsernameTaken(row[0])), t)
    ensures |row| == 5 && !UsernameExists(t, row[0]) && row[0] == [] ==> r == (Skipped(BadRow(row)), t)
    ensures |row| == 5 && !UsernameExists(t, row[0]) && row[0] != [] ==>
              r == (Created, t.(users := t.users + [UserRec(row[0], row[2], row[3], row[4], FACULTY, true)]))
  {
    if |row| != 5 then (Skipped(BadRow(row)), t)
    else if UsernameExists(t, row[0]) then (Skipped(UsernameTaken(row[0])), t)
    else if row[0] == [] then (Skipped(BadRow(row)), t)
    else (Created, t.(users := t.users + [UserRec(row[0], row[2], row[3], row[4], FACULTY, true)]))
  }

  datatype ImportKind = Students | Faculty

  function Step(kind: ImportKind, t: Tables, classes: seq<(ClassId, ClassRec)>, row: seq<string>): (RowOutcome, Tables) {
    match kind
    case Students => StudentRowStep(t, classes, row)
    case Faculty => FacultyRowStep(t, row)
  }

  /** The loop's state: the tables, the two counters, the warning per skipped
      row, and the message of the failure that ended the loop, if any. */
  datatype Progress = Progress(tables: Tables, created: nat, warnings: seq<SkipReason>, failure: Option<string>)

  /** The data rows processed in order; once a row fails unexpectedly, the
      remaining rows are not looked at. */
  function RunRows(kind: ImportKind, t: Tables, classes: seq<(ClassId, ClassRec)>, rows: seq<seq<string>>): Progress {
    if rows == [] then Progress(t, 0, [], None)
    else
      var p := RunRows(kind, t, classes, rows[..|rows| - 1]);
      if p.failure.Some? then p
      else
        var r := Step(kind, p.tables, classes, rows[|rows| - 1]);
        match r.0
        case Created => p.(tables := r.1, created := p.created + 1)
        case Skipped(reason) => p.(warnings := p.warnings + [reason])
        case Aborted(msg) => p.(failure := Some(msg))
  }

  /** Every data row ends in exactly one outcome: created + skipped equals
      the number of rows, or falls short of it when a failure ended the loop;
      the tables grow by one user (and, for students, one profile) per
      created row, each with the role of its import and active. */
  lemma RunRowsAccounting(kind: ImportKind, t: Tables, classes: seq<(ClassId, ClassRec)>, rows: seq<seq<string>>)
    ensures var p := RunRows(kind, t, classes, rows);
      && (p.failure.None? ==> p.created + |p.warnings| == |rows|)
      && (p.failure.Some? ==> p.created + |p.warnings| < |rows|)
      && |p.tables.users| == |t.users| + p.created
      && p.tables.users[..|t.users|] == t.users
      && (forall i | |t.users| <= i < |p.tables.users| ::
            p.tables.users[i].role == (if kind == Students then STUDENT else FACULTY) && p.tables.users[i].isActive)
      && (kind == Students ==> |p.tables.profiles| == |t.profiles| + p.created)
      && (kind == Faculty ==> p.tables.profiles == t.profiles)
  {
    RunRowsCounts(kind, t, classes, rows);
    RunRowsGrowth(kind, t, classes, rows);
  }

  lemma {:induction false} RunRowsCounts(kind: ImportKind, t: Tables, classes: seq<(ClassId, ClassRec)>, rows: seq<seq<string>>)
    ensures var p := RunRows(kind, t, classes, rows);
      && (p.failure.None? ==> p.created + |p.warnings| == |rows|)
      && (p.failure.Some? ==> p.created + |p.warnings| < |rows|)
  {
    if rows != [] {
      RunRowsCounts(kind, t, classes, rows[..|rows| - 1]);
    }
  }

  lemma {:induction false} RunRowsGrowth(kind: ImportKind, t: Tables, classes: seq<(ClassId, ClassRec)>, rows: seq<seq<string>>)
    ensures var p := RunRows(kind, t, classes, rows);
      && |p.tables.users| == |t.users| + p.created
      && p.tables.users[..|t.users|] == t.users
      && (forall i | |t.users| <= i < |p.tables.users| ::
            p.tables.users[i].role == (if kind == Students then STUDENT else FACULTY) && p.tables.users[i].isActive)
      && (kind == Students ==> |p.tables.profiles| == |t.profiles| + p.created)
      && (kind == Faculty ==> p.tables.profiles == t.profiles)
  {
    if rows != [] {
      var init := rows[..|rows| - 1];
      RunRowsGrowth(kind, t, classes, init);
      var p := RunRows(kind, t, classes, init);
      if p.failure.None? {
        var r := Step(kind, p.tables, classes, rows[|rows| - 1]);
        StepAccounting(kind, p.tables, classes, rows[|rows| - 1]);
        if r.0.Created? {
          ExtendUsers(t.users, p.tables.users, r.1.users, if kind == Students then STUDENT else FACULTY);
        }
      }
    }
  }

  /** Appending one more account of the role to a table that extends `base`
      with accounts of that role still extends `base` that way. */
  lemma ExtendUsers(base: seq<UserRec>, mid: seq<UserRec>, fin: seq<UserRec>, role: string)
    requires |base| <= |mid| && mid[..|base|] == base
    requires forall i | |base| <= i < |mid| :: mid[i].role == role && mid[i].isActive
    requires |fin| == |mid| + 1 && fin[..|mid|] == mid && fin[|mid|].role == role && fin[|mid|].isActive
    ensures fin[..|base|] == base
    ensures forall i | |base| <= i < |fin| :: fin[i].role == role && fin[i].isActive
  {
    assert fin[..|base|] == mid[..|base|];
    forall i | |base| <= i < |fin| ensures fin[i].role == role && fin[i].isActive {
      if i < |mid| {
        assert fin[i] == mid[i];
      }
    }
  }

  /** One row changes the tables only when it creates an account: one user
      appended with the import's role, and for students one profile. */
  lemma StepAccounting(kind: ImportKind, t: Tables, classes: seq<(ClassId, ClassRec)>, row: seq<string>)
    ensures var (outcome, t') := Step(kind, t, classes, row);
      && (!outcome.Created? ==> t' == t)
      && (outcome.Created? ==>
            && |t'.users| == |t.users| + 1
            && t'.users[..|t.users|] == t.users
            && t'.users[|t.users|].role == (if kind == Students then STUDENT else FACULTY)
            && t'.users[|t.users|].isActive
            && (kind == Students ==> |t'.profiles| == |t.profiles| + 1)
            && (kind == Faculty ==> t'.profiles == t.profiles))
  {
    var r := Step(kind, t, classes, row);
    if r.0.Created? {
      assert (t.users + [r.1.users[|t.users|]])[..|t.users|] == t.users;
    }
  }

  /** Importing keeps usernames and roll numbers unique and every profile
      attached to a user, whatever the rows hold. */
  lemma {:induction false} RunRowsKeepsTablesValid(kind: ImportKind, t: Tables, classes: seq<(ClassId, ClassRec)>, rows: seq<seq<string>>)
    requires ValidTables(t)
    ensures ValidTables(RunRows(kind, t, classes, rows).tables)
  {
    if rows != [] {
      RunRowsKeepsTablesValid(kind, t, classes, rows[..|rows| - 1]);
      var p := RunRows(kind, t, classes, rows[..|rows| - 1]);
      if p.failure.None? {
        StepKeepsTablesValid(kind, p.tables, classes, rows[|rows| - 1]);
      }
    }
  }

  lemma StepKeepsTablesValid(kind: ImportKind, t: Tables, classes: seq<(ClassId, ClassRec)>, row: seq<string>)
    requires ValidTables(t)
    ensures ValidTables(Step(kind, t, classes, row).1)
  {
    match kind
    case Students => StudentStepKeepsValid(t, classes, row);
    case Faculty => FacultyStepKeepsValid(t, row);
  }

  lemma StudentStepKeepsValid(t: Tables, classes: seq<(ClassId, ClassRec)>, row: seq<string>)
    requires ValidTables(t)
    ensures ValidTables(StudentRowStep(t, classes, row).1)
  {
    var r := StudentRowStep(t, classes, row);
    if r.1 != t {
      var m := ClassMatches(classes, ClassKey(row[6]));
      var u := UserRec(row[0], row[2], row[3], row[4], STUDENT, true);
      var pr := ProfileRec(|t.users|, row[5], m[0]);
      assert r.1 == Tables(t.users + [u], t.profiles + [pr]);
      AddUserKeepsUnique(t.users, u);
      AddProfileKeepsUnique(t.profiles, pr);
    }
  }

  lemma FacultyStepKeepsValid(t: Tables, row: seq<string>)
    requires ValidTables(t)
    ensures ValidTables(FacultyRowStep(t, row).1)
  {
    var r := FacultyRowStep(t, row);
    if r.1 != t {
      var u := UserRec(row[0], row[2], row[3], row[4], FACULTY, true);
      assert r.1 == t.(users := t.users + [u]);
      AddUserKeepsUnique(t.users, u);
    }
  }

  /** An account whose username is not taken keeps usernames unique. */
  lemma AddUserKeepsUnique(us: seq<UserRec>, u: UserRec)
    requires UniqueUsernames(us)
    requires !exists i | 0 <= i < |us| :: us[i].username == u.username
    ensures UniqueUsernames(us + [u])
  {
    var us' := us + [u];
    forall i, j | 0 <= i < j < |us'| ensures us'[i].username != us'[j].username {
      assert us'[i] == us[i];
      if j < |us| {
        assert us'[j] == us[j];
      }
    }
  }

  /** A profile whose roll number is not taken keeps roll numbers unique. */
  lemma AddProfileKeepsUnique(ps: seq<ProfileRec>, p: ProfileRec)
    requires UniqueRollNumbers(ps)
    requires !exists i | 0 <= i < |ps| :: ps[i].rollNo == p.rollNo
    ensures UniqueRollNumbers(ps + [p])
  {
    var ps' := ps + [p];
    forall i, j | 0 <= i < j < |ps'| ensures ps'[i].rollNo != ps'[j].rollNo {
      assert ps'[i] == ps[i];
      if j < |ps| {
        assert ps'[j] == ps[j];
      }
    }
  }

  /** Once a failure has ended the loop, later rows change nothing. */
  lemma {:induction false} RunRowsStopsAfterFailure(kind: ImportKind, t: Tables, classes: seq<(ClassId, ClassRec)>,
                                                    rows: seq<seq<string>>, n: nat)
    requires n <= |rows|
    requires RunRows(kind, t, classes, rows[..n]).failure.Some?
    ensures RunRows(kind, t, classes, rows) == RunRows(kind, t, classes, rows[..n])
    decreases |rows| - n
  {
    if n < |rows| {
      assert rows[..n + 1][..n] == rows[..n];
      RunRowsStopsAfterFailure(kind, t, classes, rows, n + 1);
    } else {
      assert rows[..n] == rows;
    }
  }

  /** How an upload request ends. */
  datatype UploadResult =
    | NothingDone           // not a POST
    | NoFile                // "Please select a CSV file to upload."
    | NotCsv                // the file name does not end in ".csv"
    | Processed(progress: Progress)

  predicate EndsWith(s: string, suffix: string) {
    |suffix| <= |s| && s[|s| - |suffix|..] == suffix
  }

  /** The whole upload for a file already decoded and split into rows: a file
      with no row at all fails on reading the header and processes nothing;
      otherwise the rows after the header are run. */
  function UploadSpec(kind: ImportKind, t: Tables, classes: seq<(ClassId, ClassRec)>,
                      isPost: bool, fileName: Option<string>, csvRows: seq<seq<string>>): UploadResult
  {
    if !isPost then NothingDone
    else if fileName.None? then NoFile
    else if !EndsWith(fileName.value, ".csv") then NotCsv
    else if csvRows == [] then Processed(Progress(t, 0, [], Some("StopIteration")))
    else Processed(RunRows(kind, t, classes, csvRows[1..]))
  }

  /** The user and profile tables as the two uploads change them. */
  class UserStore {
    var users: seq<UserRec>
    var profiles: seq<ProfileRec>

    function Snapshot(): Tables
      reads this
    {
      Tables(users, profiles)
    }

    constructor (users: seq<UserRec>, profiles: seq<ProfileRec>)
      ensures Snapshot() == Tables(users, profiles)
    {
      this.users := users;
      this.profiles := profiles;
    }

    /** `upload_students_csv` (kind Students) and `upload_faculty_csv` (kind
        Faculty): only a POST carrying a file whose name ends in ".csv" is
        read; its first row is the header and the rest go through the row
        loop; nothing else changes the tables. */
    method Upload(kind: ImportKind, classes: seq<(ClassId, ClassRec)>,
                  isPost: bool, fileName: Option<string>, csvRows: seq<seq<string>>)
      returns (result: UploadResult)
      modifies this
      ensures result == UploadSpec(kind, old(Snapshot()), classes, isPost, fileName, csvRows)
      ensures result.Processed? ==> Snapshot() == result.progress.tables
      ensures !result.Processed? ==> Snapshot() == old(Snapshot())
    {
      if !isPost {
        return NothingDone;
      }
      if fileName.None? {
        return NoFile;
      }
      if !EndsWith(fileName.value, ".csv") {
        return NotCsv;
      }
      if csvRows == [] {
        return Processed(Progress(Snapshot(), 0, [], Some("StopIteration")));
      }
      var p := ImportRows(kind, classes, csvRows[1..]);
      return Processed(p);
    }

    /** The row loop with its two counters: the tables end as the rows leave
        them, including the rows created before a failure. */
    method ImportRows(kind: ImportKind, classes: seq<(ClassId, ClassRec)>, rows: seq<seq<string>>)
      returns (p: Progress)
      modifies this
      ensures p == RunRows(kind, old(Snapshot()), classes, rows)
      ensures Snapshot() == p.tables
    {
      var start := Snapshot();
      var createdCount, warnings := 0, [];
      var i := 0;
      while i < |rows|
        invariant 0 <= i <= |rows|
        invariant start == old(Snapshot())
        invariant RunRows(kind, start, classes, rows[..i]) == Progress(Snapshot(), createdCount, warnings, None)
      {
        assert rows[..i + 1][..i] == rows[..i];
        var step := Step(kind, Snapshot(), classes, rows[i]);
        if step.0.Aborted? {
          p := Progress(Snapshot(), createdCount, warnings, Some(step.0.message));
          assert RunRows(kind, start, classes, rows[..i + 1]) == p;
          RunRowsStopsAfterFailure(kind, start, classes, rows, i + 1);
          return;
        }
        if step.0.Created? {
          users, profiles := step.1.users, step.1.profiles;
          createdCount := createdCount + 1;
        } else {
          warnings := warnings + [step.0.reason];
        }
        i := i + 1;
      }
      assert rows[..|rows|] == rows;
      return Progress(Snapshot(), createdCount, warnings, None);
    }
  }
}
