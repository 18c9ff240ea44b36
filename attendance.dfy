/** The attendance table as faculty members write it: the bulk "take
    attendance" form, which upserts one row per submitted student, and the
    single-record edit, which is open only to the subject's faculty member and
    only for 24 hours after the row was last written. */
module Attendance {
  import opened Basics
  import opened Models

  /** `timedelta(hours=24)` in microseconds. */
  const EDIT_WINDOW: int := 24 * 60 * 60 * 1000000

  /** How a faculty attendance view ends. */
  datatype ViewOutcome =
    | NotFound          // a looked-up row does not exist (HTTP 404)
    | PermissionDenied  // the user does not teach the subject
    | FormShown         // a GET: the form is rendered, nothing is written
    | TooOld            // the edit window has closed; nothing is written
    | Saved             // the POST was applied

  /** The submitted status value counts as present only when it is exactly
      "present"; a missing value or any other text means absent. */
  function PresentFlag(status: Option<string>): bool {
    status == Some("present")
  }

  /** `subject.faculty == request.user`: the subject exists and is assigned to
      this faculty member. A subject with no faculty is owned by nobody. */
  predicate Owns(subjects: map<SubjectId, SubjectRec>, subject: SubjectId, faculty: UserId) {
    subject in subjects && subjects[subject].faculty == Some(faculty)
  }

  /** What `update_or_create` leaves under `key`: an existing row keeps its
      creation time, a new row starts from the defaults; either way the flag is
      the submitted one and `updated_at` is refreshed to `now`. */
  function Upserted(m: map<AttendanceKey, AttendanceEntry>, key: AttendanceKey, isPresent: bool, now: Timestamp): (e: AttendanceEntry)
    ensures e.isPresent == isPresent && e.updatedAt == now
    ensures e.createdAt == if key in m then m[key].createdAt else now
  {
    var base := if key in m then m[key] else NewEntry(now);
    base.(isPresent := isPresent, updatedAt := now)
  }

  /** The table after upserting the listed students, in order, for one subject
      and date; each student's flag comes from the submitted status map. */
  function UpsertAll(m: map<AttendanceKey, AttendanceEntry>, subject: SubjectId, date: Date,
                     ids: seq<StudentId>, statuses: map<StudentId, string>, now: Timestamp): map<AttendanceKey, AttendanceEntry>
  {
    if ids == [] then m
    else
      var last := ids[|ids| - 1];
      var before := UpsertAll(m, subject, date, ids[..|ids| - 1], statuses, now);
      var key := AttendanceKey(last, subject, date);
      before[key := Upserted(before, key, PresentFlag(StatusOf(statuses, last)), now)]
  }

  /** `request.POST.get(f'attendance_status_{id}')`. */
  function StatusOf(statuses: map<StudentId, string>, id: StudentId): Option<string> {
    if id in statuses then Some(statuses[id]) else None
  }

  /** The key a submitted student's upsert writes. */
  predicate Touched(k: AttendanceKey, subject: SubjectId, date: Date, ids: seq<StudentId>) {
    k.subject == subject && k.date == date && k.student in ids
  }

  /** The bulk upsert, row by row: exactly the keys of the submitted students
      gain or keep one row, holding that student's flag, stamped `now`, with
      its creation time kept when it existed; every other row is untouched. */
  lemma UpsertAllSpec(m: map<AttendanceKey, AttendanceEntry>, subject: SubjectId, date: Date,
                       ids: seq<StudentId>, statuses: map<StudentId, string>, now: Timestamp)
    ensures var r := UpsertAll(m, subject, date, ids, statuses, now);
      && r.Keys == m.Keys + (set id | id in ids :: AttendanceKey(id, subject, date))
      && (forall k | k in m && !Touched(k, subject, date, ids) :: r[k] == m[k])
      && (forall k | k in r && Touched(k, subject, date, ids) ::
            r[k] == AttendanceEntry(PresentFlag(StatusOf(statuses, k.student)),
                                    if k in m then m[k].createdAt else now, now))
  {
    UpsertAllKeys(m, subject, date, ids, statuses, now);
    UpsertAllUntouched(m, subject, date, ids, statuses, now);
    UpsertAllTouched(m, subject, date, ids, statuses, now);
  }

  lemma {:induction false} UpsertAllKeys(m: map<AttendanceKey, AttendanceEntry>, subject: SubjectId, date: Date,
                                         ids: seq<StudentId>, statuses: map<StudentId, string>, now: Timestamp)
    ensures UpsertAll(m, subject, date, ids, statuses, now).Keys
            == m.Keys + (set id | id in ids :: AttendanceKey(id, subject, date))
  {
    if ids != [] {
      var init := ids[..|ids| - 1];
      var last := ids[|ids| - 1];
      UpsertAllKeys(m, subject, date, init, statuses, now);
      assert ids == init + [last];
      assert (set id | id in ids :: AttendanceKey(id, subject, date))
          == (set id | id in init :: AttendanceKey(id, subject, date)) + {AttendanceKey(last, subject, date)};
    }
  }

  lemma {:induction false} UpsertAllUntouched(m: map<AttendanceKey, AttendanceEntry>, subject: SubjectId, date: Date,
                                              ids: seq<StudentId>, statuses: map<StudentId, string>, now: Timestamp)
    ensures var r := UpsertAll(m, subject, date, ids, statuses, now);
      forall k | k in m && !Touched(k, subject, date, ids) :: k in r && r[k] == m[k]
  {
    if ids != [] {
      var init := ids[..|ids| - 1];
      UpsertAllUntouched(m, subject, date, init, statuses, now);
      assert ids == init + [ids[|ids| - 1]];
    }
  }

  lemma {:induction false} UpsertAllTouched(m: map<AttendanceKey, AttendanceEntry>, subject: SubjectId, date: Date,
                                            ids: seq<StudentId>, statuses: map<StudentId, string>, now: Timestamp)
    ensures var r := UpsertAll(m, subject, date, ids, statuses, now);
      forall k | k in r && Touched(k, subject, date, ids) ::
        r[k] == AttendanceEntry(PresentFlag(StatusOf(statuses, k.student)),
                                if k in m then m[k].createdAt else now, now)
  {
    if ids != [] {
      var init := ids[..|ids| - 1];
      var last := ids[|ids| - 1];
      UpsertAllTouched(m, subject, date, init, statuses, now);
      UpsertAllUntouched(m, subject, date, init, statuses, now);
      UpsertAllKeys(m, subject, date, init, statuses, now);
      var before := UpsertAll(m, subject, date, init, statuses, now);
      assert ids == init + [last];
      var r := UpsertAll(m, subject, date, ids, statuses, now);
      forall k | k in r && Touched(k, subject, date, ids)
        ensures r[k] == AttendanceEntry(PresentFlag(StatusOf(statuses, k.student)),
                                        if k in m then m[k].createdAt else now, now)
      {
        if k.student != last {
          assert Touched(k, subject, date, init);
        } else if k in before && Touched(k, subject, date, init) {
        } else if k in before {
          assert k in m;
        }
      }
    }
  }

  /** How many leading submitted ids name existing student profiles: the loop
      stops with a 404 at the first one that does not. */
  function KnownPrefix(ids: seq<StudentId>, profiles: set<StudentId>): (n: nat)
    ensures n <= |ids|
    ensures forall i | 0 <= i < n :: ids[i] in profiles
    ensures n < |ids| ==> ids[n] !in profiles
  {
    if ids == [] || ids[0] !in profiles then 0
    else 1 + KnownPrefix(ids[1..], profiles)
  }

  class AttendanceStore {
    /** One row per (student, subject, date): the table's unique constraint
        is the map's own key. */
    var entries: map<AttendanceKey, AttendanceEntry>

    constructor ()
      ensures entries == map[]
    {
      entries := map[];
    }

    /** `Attendance.objects.update_or_create(key, defaults={'is_present': ...})`. */
    method Upsert(key: AttendanceKey, isPresent: bool, now: Timestamp)
      modifies this
      ensures entries == old(entries)[key := Upserted(old(entries), key, isPresent, now)]
    {
      var base := if key in entries then entries[key] else NewEntry(now);
      entries := entries[key := base.(isPresent := isPresent, updatedAt := now)];
    }

    /** `take_attendance`: the subject must exist and belong to the caller
        before anything is read or written; a GET only shows the form; a POST
        upserts the submitted students one by one and stops with a 404 at the
        first id that names no student profile, keeping the rows already
        written. */
    method TakeAttendance(subjects: map<SubjectId, SubjectRec>, profiles: set<StudentId>, faculty: UserId,
                          subject: SubjectId, isPost: bool, date: Date,
                          ids: seq<StudentId>, statuses: map<StudentId, string>, now: Timestamp)
      returns (outcome: ViewOutcome)
      modifies this
      ensures subject !in subjects ==> outcome == NotFound && entries == old(entries)
      ensures subject in subjects && !Owns(subjects, subject, faculty) ==>
                outcome == PermissionDenied && entries == old(entries)
      ensures Owns(subjects, subject, faculty) && !isPost ==> outcome == FormShown && entries == old(entries)
      ensures Owns(subjects, subject, faculty) && isPost ==>
                var done := KnownPrefix(ids, profiles);
                && outcome == (if done == |ids| then Saved else NotFound)
                && entries == UpsertAll(old(entries), subject, date, ids[..done], statuses, now)
    {
      if subject !in subjects {
        return NotFound;
      }
      if subjects[subject].faculty != Some(faculty) {
        return PermissionDenied;
      }
      if !isPost {
        return FormShown;
      }
      var i := 0;
      while i < |ids|
        invariant 0 <= i <= |ids|
        invariant forall j | 0 <= j < i :: ids[j] in profiles
        invariant entries == UpsertAll(old(entries), subject, date, ids[..i], statuses, now)
      {
        if ids[i] !in profiles {
          KnownPrefixStopsAt(ids, profiles, i);
          return NotFound;
        }
        var flag := PresentFlag(StatusOf(statuses, ids[i]));
        Upsert(AttendanceKey(ids[i], subject, date), flag, now);
        assert ids[..i + 1][..i] == ids[..i];
        i := i + 1;
      }
      KnownPrefixStopsAt(ids, profiles, |ids|);
      assert ids[..|ids|] == ids;
      return Saved;
    }

    /** `edit_attendance`: the row must exist and the caller must teach its
        subject; a row last written more than 24 hours ago is left as it is;
        otherwise a POST sets the flag from the submitted status and refreshes
        `updated_at`, which reopens the window. */
    method EditAttendance(subjects: map<SubjectId, SubjectRec>, faculty: UserId, key: AttendanceKey,
                          isPost: bool, status: Option<string>, now: Timestamp)
      returns (outcome: ViewOutcome)
      modifies this
      ensures key !in old(entries) ==> outcome == NotFound && entries == old(entries)
      ensures key in old(entries) && !Owns(subjects, key.subject, faculty) ==>
                outcome == PermissionDenied && entries == old(entries)
      ensures key in old(entries) && Owns(subjects, key.subject, faculty) &&
              now - old(entries)[key].updatedAt > EDIT_WINDOW ==>
                outcome == TooOld && entries == old(entries)
      ensures key in old(entries) && Owns(subjects, key.subject, faculty) &&
              now - old(entries)[key].updatedAt <= EDIT_WINDOW && !isPost ==>
                outcome == FormShown && entries == old(entries)
      ensures key in old(entries) && Owns(subjects, key.subject, faculty) &&
              now - old(entries)[key].updatedAt <= EDIT_WINDOW && isPost ==>
                && outcome == Saved
                && entries == old(entries)[key := old(entries)[key].(isPresent := PresentFlag(status), updatedAt := now)]
    {
      if key !in entries {
        return NotFound;
      }
      if !Owns(subjects, key.subject, faculty) {
        return PermissionDenied;
      }
      var record := entries[key];
      if now - record.updatedAt > EDIT_WINDOW {
        return TooOld;
      }
      if !isPost {
        return FormShown;
      }
      entries := entries[key := record.(isPresent := PresentFlag(status), updatedAt := now)];
      return Saved;
    }

    /** The rows of the table as the reports read them: one record per stored
        row, each carrying its row's key and flag, so no key occurs twice. */
    method Snapshot() returns (records: seq<AttendanceRecord>)
      ensures |records| == |entries|
      ensures UniqueKeys(records)
      ensures forall i | 0 <= i < |records| ::
                KeyOf(records[i]) in entries && records[i].isPresent == entries[KeyOf(records[i])].isPresent
      ensures forall k | k in entries :: RecordOf(k, entries[k]) in records
    {
      records := [];
      var rest := entries.Keys;
      while rest != {}
        invariant rest <= entries.Keys
        invariant |records| + |rest| == |entries|
        invariant UniqueKeys(records)
        invariant forall i | 0 <= i < |records| ::
                    KeyOf(records[i]) in entries && KeyOf(records[i]) !in rest &&
                    records[i] == RecordOf(KeyOf(records[i]), entries[KeyOf(records[i])])
        invariant forall k | k in entries && k !in rest :: RecordOf(k, entries[k]) in records
        decreases |rest|
      {
        var k :| k in rest;
        records := records + [RecordOf(k, entries[k])];
        rest := rest - {k};
      }
      assert entries.Keys == entries.Keys - rest;
    }
  }

  lemma {:induction false} KnownPrefixStopsAt(ids: seq<StudentId>, profiles: set<StudentId>, i: nat)
    requires i <= |ids|
    requires forall j | 0 <= j < i :: ids[j] in profiles
    requires i == |ids| || ids[i] !in profiles
    ensures KnownPrefix(ids, profiles) == i
  {
    if i > 0 {
      KnownPrefixStopsAt(ids[1..], profiles, i - 1);
    }
  }
}
