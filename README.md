# College attendance portal — verified model

A Dafny model of the logic at the core of a Django college-attendance portal.
The database is replaced by in-memory maps and sequences, and each view's
decisions are stated as contracts. The model covers:

- the user roles and the schema's field domains and uniqueness constraints;
- the attendance table, as faculty members write it:
  - the bulk "take attendance" form, which upserts one row per
    (student, subject, date);
  - the single-row edit, which only the subject's faculty member may make,
    and only within 24 hours of the row's last write;
- the reports read from that table:
  - the per-class consolidated matrix;
  - the low-attendance report;
  - the student dashboard, the admin average and the faculty member's
    per-subject insights;
- the administrator's CSV imports of students and faculty members;
- leave requests and their approval, which sends a notification;
- the administrator's chatbot, which routes a question to an answer by
  literal phrase matching;
- the `add_attr` template filter's "key:value,key:value" parser;
- the post-login dashboard redirect.

Files and modules:

| file | module | what it holds |
|---|---|---|
| `basics.dfy` | `Basics` | `Option`, `Result`, exact percentages (`Ratio`) |
| `text.dfy` | `Text` | Python `strip`, `lower`, `split`, `in` and `str(n)` on strings |
| `models.dfy` | `Models` | records, roles, choices, uniqueness, the proxy models' `save` |
| `attendance.dfy` | `Attendance` | class `AttendanceStore`: take, edit, snapshot |
| `reports.dfy` | `Reports` | counts, consolidated report, low attendance, dashboards |
| `csv_import.dfy` | `CsvImport` | class `UserStore`: the two CSV uploads |
| `leave.dfy` | `Leave` | class `LeaveBook`: apply, approve or reject, notifications |
| `chatbot.dfy` | `Chatbot` | routing and the four answers |
| `dict_helpers.dfy` | `DictHelpers` | `add_attr`'s attribute map |
| `navigation.dfy` | `Navigation` | `dashboard_redirect` |

Conventions:

- Percentages are exact fractions. "Below 75%" is `present*100 < 75*total`.
- Timestamps are integers in microseconds, so the edit window is
  `24*60*60*1000000`.
- Dates are day numbers.
- The current time, the request method and the submitted form values are
  parameters.
- Where the source reads rows in an unspecified database order, the model
  uses the order of its input sequence.

## Model

| member | source | states |
|---|---|---|
| Basics.PercentOr | core/views.py:331-335 | part/whole×100 as an exact fraction when whole > 0, else the given fallback percentage |
| Basics.PercentOfPartIsPercentage | core/views.py:331-335 | a part no larger than its whole, with a fallback ≤ 100, gives a percentage in [0, 100] |
| Basics.AtMostTransitive | core/views.py:546 | the ordering of percentages by cross-multiplication is transitive (needed to sort by percentage) |
| Text.Strip | core/chatbot_logic.py:50 | `str.strip()`: no longer than the input, and neither starts nor ends with Python whitespace |
| Text.StripIgnoresPadding | core/chatbot_logic.py:50 | whitespace added on either side does not change the stripped string |
| Text.TrimLeft | core/templatetags/dict_helpers.py:13 | `lstrip()`: a suffix of the input, whose dropped prefix is all whitespace, not starting with whitespace |
| Text.TrimRight | core/templatetags/dict_helpers.py:13 | `rstrip()`: a prefix of the input, whose dropped suffix is all whitespace, not ending with whitespace |
| Text.StripFrame | core/chatbot_logic.py:50 | every string is its stripped form with whitespace before and after it |
| Text.Lower | core/chatbot_logic.py:50 | `lower()`: same length, each ASCII capital replaced by its small letter, everything else kept |
| Text.Split | core/templatetags/dict_helpers.py:9 | `split(sep)`: at least one piece, and no piece contains the separator |
| Text.JoinSplit | core/templatetags/dict_helpers.py:9 | joining the pieces with the separator gives back the input |
| Text.SplitJoin | core/chatbot_logic.py:39 | splitting a join of separator-free pieces gives back the pieces |
| Text.SplitCount | core/templatetags/dict_helpers.py:12 | the number of pieces is one more than the number of separators |
| Text.OccurrencesZero | core/templatetags/dict_helpers.py:11 | a character occurs zero times exactly when it is not in the string |
| Text.ContainsFromSpec | core/chatbot_logic.py:64 | the position-by-position search finds the pattern exactly when it occurs at some position |
| Text.ContainsIgnoresPadding | core/chatbot_logic.py:64 | whitespace around a string neither creates nor hides an occurrence of a pattern whose ends are not whitespace |
| Text.NatToString | core/chatbot_logic.py:12 | `str(n)`: decimal digits with no leading zero whose value is n |
| Models.HodGateAdmitsNoDeclaredRole | core/decorators.py:47 | no user whose role is one of the declared choices passes the HOD gate |
| Models.HodGateAdmitsHods | core/decorators.py:47 | with HOD added to the role choices, some user with a choice passes the HOD gate, and every user with a choice who passes it has the added role |
| Models.UserInstance.SaveAsStudent | core/models.py:59-62 | a user saved for the first time gets the STUDENT role; saving an existing user keeps its role |
| Models.UserInstance.SaveAsFaculty | core/models.py:77-80 | the same rule with the FACULTY role |
| Models.InsertUnique | core/models.py:94 | an insert into a unique column is refused exactly when the value is present, and otherwise appends it |
| Models.InsertUniqueKeepsDistinct | core/models.py:101 | every insert the column accepts keeps its values distinct (department and class names, roll numbers) |
| Models.NewEntry | core/models.py:142-144 | a new attendance row is absent and stamped `now` twice |
| Models.RecordOf | core/models.py:135-148 | the record read from a stored row carries that row's key and flag |
| Models.ParseStatus | core/models.py:160-163 | only the three status codes are read back as statuses |
| Models.StatusCodeRoundTrip | core/models.py:160-163 | each leave status is stored under its own code and read back unchanged |
| Models.NewLeaveRecord | core/models.py:165-171 | a new leave request is PENDING with the given user, dates and reason, stamped `now` |
| Models.AddTimetableEntry | core/models.py:215-231 | an entry is accepted exactly when its day is 1..7 and no entry has the same (subject, day, slot) |
| Models.AddTimetableEntryKeepsWellFormed | core/models.py:226-231 | every accepted entry keeps all days in 1..7 and the triples unique |
| Models.FullName | core/chatbot_logic.py:39 | `get_full_name()`: the first and last name joined by a space, stripped, so never longer than both names and the space |
| Attendance.Upserted | core/views.py:613-618 | `update_or_create`: the submitted flag, `updated_at = now`, and the creation time kept when the row existed |
| Attendance.UpsertAllSpec | core/views.py:606-618 | after the bulk upsert, exactly the submitted students' keys exist for that subject and date, with flag `status == "present"`; every other row is unchanged |
| Attendance.KnownPrefix | core/views.py:606-607 | the loop gets through the leading ids that name a profile and stops at the first that does not |
| Attendance.KnownPrefixStopsAt | core/views.py:606-607 | the loop stops exactly at the first submitted id without a profile, having passed every earlier one |
| Attendance.AttendanceStore.Upsert | core/views.py:613-618 | one key is created or replaced; nothing else changes |
| Attendance.AttendanceStore.TakeAttendance | core/views.py:592-621 | a missing subject or a subject the caller does not teach is refused before any write; a GET writes nothing; a POST upserts the submitted students in order and keeps the rows written before a 404 |
| Attendance.AttendanceStore.EditAttendance | core/views.py:682-701 | a missing row gives 404; a non-owner is refused; a row last written more than 24h ago is unchanged; otherwise a POST sets the flag from `status == "present"` and refreshes `updated_at` |
| Attendance.AttendanceStore.Snapshot | core/models.py:146-148 | the stored rows as records: one per row, so no (student, subject, date) occurs twice |
| Reports.PresentAtMostRecords | core/views.py:644-649 | a student's present rows in a subject never exceed the student's rows in it |
| Reports.StudentPresentAtMostTotal | core/views.py:730-732 | a student's present rows never exceed the student's rows, so the absent count is a natural number |
| Reports.AllPresentAtMostAll | core/views.py:82-94 | the present rows never exceed all rows |
| Reports.PresentCountIsPresentDays | core/views.py:298-302 | with one row per (student, subject, date), the present count is the number of days marked present |
| Reports.PresentAtMostConducted | core/views.py:292-302 | a student is never present at more lectures of a subject than the number of distinct dates conducted |
| Reports.ConductedPerSubject | core/views.py:292-295 | every subject of the class maps to the number of distinct dates it has rows for |
| Reports.PresentPerPair | core/views.py:298-308 | the grouped pass gives, for every student and subject of the class, the number of their rows marked present (0 when none) |
| Reports.BuildRow | core/views.py:310-337 | one student's row: a cell per subject with the present count and lectures conducted, the totals and the percentage |
| Reports.ConsolidatedRows | core/views.py:292-337 | one row per student: per-subject (present count, distinct dates), the two totals over the subjects, and the percentage, 0 when nothing was conducted |
| Reports.SumsBounded | core/views.py:327-328 | totals of cells whose attended ≤ conducted keep attended ≤ conducted |
| Reports.ConsolidatedRowIsPercentage | core/views.py:318-335 | every consolidated row's percentage lies in [0, 100] |
| Reports.StudentsOf | core/views.py:286 | exactly the profiles of the selected class |
| Reports.SubjectsOf | core/views.py:288 | exactly the subjects of the selected class |
| Reports.ConsolidatedReportAsWritten | core/views.py:283-340 | no class selected: empty page; an unknown class: the request fails with a NameError; otherwise the consolidated rows |
| Reports.ConsolidatedReport | core/views.py:283-340 | the same report, with an unknown class giving an empty page and the warning "The selected course does not exist." |
| Reports.IsLowMeansBelow75 | core/views.py:532-545 | for a student with rows, "low" is exactly a percentage strictly below 75 |
| Reports.LowAttendanceStudents | core/chatbot_logic.py:29-34 | exactly the students with at least one row and under 75% present |
| Reports.LowListListsEachStudentOnce | core/chatbot_logic.py:29-34 | over distinct profiles, no student is listed twice, so the list has one entry per low student |
| Reports.LowListExcludesStudentsWithoutRows | core/views.py:540 | a student without rows is never listed |
| Reports.InsertByPct | core/views.py:546 | inserting into a list sorted by percentage keeps it sorted and adds exactly that element |
| Reports.ConsSorted | core/views.py:546 | an element at most the head of a sorted list keeps it sorted when put in front |
| Reports.SortByPct | core/views.py:546 | a permutation of the input sorted by ascending percentage |
| Reports.LowAttendanceReport | core/views.py:531-548 | the low-attendance students sorted by ascending percentage, and no one else |
| Reports.LowAttendanceReportMembers | core/views.py:536-546 | a student is in the report exactly when they have rows and are under 75% present |
| Reports.ProfileOf | core/views.py:729 | the profile attached to the user, or none exactly when no profile belongs to the user |
| Reports.StudentDashboardPage | core/views.py:726-740 | a student user without a profile gets a server error; otherwise the page shows the dashboard figures of that user's own profile |
| Reports.StudentDashboard | core/views.py:726-740 | the student's rows, present and absent counts adding up to them, and the percentage, 0 with no rows, within [0, 100] |
| Reports.AverageAttendance | core/views.py:82-94 | the share of all rows marked present ×100, 0 with no rows, within [0, 100] |
| Reports.ClassesHeldOn | core/views.py:96-98 | a subject is counted exactly when some row dated that day is for it; there are never more classes than rows |
| Reports.RecordCountAtMostTotal | core/views.py:644 | a student's rows in one subject never exceed the student's rows |
| Reports.NoRowsFallbacksDisagree | core/views.py:651 | a student with no rows sees 0% on their dashboard but is shown 100% in every subject's insights |
| Reports.ClassAttendanceInsights | core/views.py:630-658 | a missing subject gives 404 and a non-owner is refused; otherwise one insight per student of the class: rows, present rows, and the percentage, 100 when there are no rows |
| CsvImport.ClassMatches | core/views.py:158-159 | the classes whose name equals the stripped name up to case |
| CsvImport.StudentRowStep | core/views.py:141-188 | checks in order: 7 columns, username free, roll number free, class found; zero matches skips, two or more abort, an empty username skips as a column error; otherwise one STUDENT user and one profile are added |
| CsvImport.FacultyRowStep | core/views.py:373-400 | checks in order: 5 columns, username free; an empty username skips as a column error; otherwise one active FACULTY user is added |
| CsvImport.RunRowsAccounting | core/views.py:139-188 | created + skipped equals the data rows, or falls short after an abort; the tables grow by one user (and one profile for students) per created row, each with the import's role |
| CsvImport.RunRowsKeepsTablesValid | core/models.py:126-128 | any import keeps usernames and roll numbers unique and every profile attached to a user |
| CsvImport.StepKeepsTablesValid | core/views.py:144-153 | a single row's step keeps the tables valid because it checks the username and roll number first |
| CsvImport.StudentStepKeepsValid | core/views.py:144-178 | a student row adds a user with a free username and a profile with a free roll number attached to that user |
| CsvImport.FacultyStepKeepsValid | core/views.py:379-392 | a faculty row adds only a user with a free username |
| CsvImport.AddUserKeepsUnique | core/views.py:144-147 | adding an account whose username is not taken keeps usernames unique |
| CsvImport.AddProfileKeepsUnique | core/views.py:149-152 | adding a profile whose roll number is not taken keeps roll numbers unique |
| CsvImport.StepAccounting | core/views.py:164-188 | a row changes the tables only when it creates an account: one active user of the import's role, and for students one profile |
| CsvImport.RunRowsStopsAfterFailure | core/views.py:195-196 | once a row aborts the loop, later rows change nothing |
| CsvImport.UserStore.Upload | core/views.py:116-198 | only a POST with a file named `*.csv` is read; an empty file processes nothing; otherwise the rows after the header are imported |
| CsvImport.UserStore.ImportRows | core/views.py:139-188 | the row loop leaves the tables and counters as the rows dictate, keeping rows created before an abort |
| Leave.DecisionOf | core/views.py:832 | accepts exactly "APPROVED" and "REJECTED", never PENDING, each as its own status |
| Leave.ApplySpec | core/views.py:847-855 | a valid form (both dates, a reason that is not blank) adds one PENDING request for the caller under a new key; an invalid one changes nothing |
| Leave.UpdateSpec | core/views.py:827-843 | only a POST for an existing request with an accepted status changes it: status set, `updated_at` refreshed, one notification; an unknown request gives 404, a status other than APPROVED or REJECTED gives the invalid-status answer, and a GET does nothing |
| Leave.ApplyKeepsValid | core/views.py:852-853 | applying keeps keys below the next key and never overwrites an existing request |
| Leave.UpdateKeepsValid | core/views.py:829-834 | an update never adds or removes requests |
| Leave.UpdateTouchesOnlyStatus | core/views.py:833-834 | an update changes only the named request's status and `updated_at` |
| Leave.NotificationsCountAcceptedCalls | core/views.py:832-837 | over any sequence of calls, one notification per accepted call, and sent ones are never rewritten |
| Leave.DecidedRequestCanBeReversed | core/views.py:832 | an approved request can still be rejected, sending a second notification |
| Leave.LeaveBook.Apply | core/views.py:847-855 | the stored book becomes `ApplySpec` of the old one |
| Leave.LeaveBook.UpdateStatus | core/views.py:827-843 | the outcome and stored book are `UpdateSpec` of the old one |
| Chatbot.FirstMatch | core/chatbot_logic.py:63-64 | the first pattern that matches, with no earlier pattern matching; none when no pattern matches |
| Chatbot.RouteIn | core/chatbot_logic.py:53-64 | a normalized question falls back exactly when it matches none of the patterns |
| Chatbot.RouteInPicksFirst | core/chatbot_logic.py:62-67 | a routed question gets the intent of the first pattern it matches, no earlier pattern matching |
| Chatbot.Answer | core/chatbot_logic.py:10-24 | the count sentences carry the number of profiles and of FACULTY users in decimal, readable back from the sentence; the average sentence is its fixed opening, the rendered portal-wide average and its closing "%."; the low-attendance intent gives the low-attendance answer |
| Chatbot.LowAttendanceAnswer | core/chatbot_logic.py:27-40 | the "Great news!" sentence exactly when the filter lists nobody, otherwise a text starting with the header |
| Chatbot.RouteIgnoresCase | core/chatbot_logic.py:50 | questions that agree up to ASCII case are routed alike |
| Chatbot.RouteIgnoresPadding | core/chatbot_logic.py:50 | whitespace around a question does not change its route |
| Chatbot.PaddingKeepsMatch | core/chatbot_logic.py:54-58 | whitespace around a question cannot change whether a pattern of trimmed phrases matches |
| Chatbot.StripDoesNotChangeRoute | core/chatbot_logic.py:50-64 | routing the lower-cased question with or without the strip gives the same first match |
| Chatbot.FirstMatchAgrees | core/chatbot_logic.py:63-64 | two questions that match the same patterns have the same first match |
| Chatbot.StudentCountComesFirst | core/chatbot_logic.py:53-54 | a question containing "how many students" gets the student count, whatever else it contains |
| Chatbot.LowAttendanceIsLast | core/chatbot_logic.py:58 | a question matching no earlier pattern but containing "low attendance" gets the low-attendance list |
| Chatbot.WhoHasLowAttendanceIsRedundant | core/chatbot_logic.py:58 | every question containing "who has low attendance" contains "low attendance" |
| Chatbot.FacultyCount | core/chatbot_logic.py:15-17 | at most the number of users; zero exactly when no user is FACULTY, and all users exactly when every user is FACULTY |
| Chatbot.FacultyCountIsSize | core/chatbot_logic.py:15-17 | the count equals the number of positions holding a FACULTY user |
| Chatbot.LowLinesCount | core/chatbot_logic.py:36-39 | one line per student of the low-attendance filter |
| Chatbot.LowLinesMatchFilter | core/chatbot_logic.py:27-39 | with profile keys unique, as primary keys are, line k names the user of the k-th listed student's profile and renders that student's percentage, in the filter's order |
| Chatbot.Respond | core/chatbot_logic.py:45-73 | the fixed fallback when no pattern matches; otherwise the handler's answer, or the error sentence when the handler raised |
| Chatbot.FailureBecomesErrorSentence | core/chatbot_logic.py:65-70 | a handler failure becomes "I encountered an error trying to answer that: " followed by its message |
| Chatbot.ChatbotQuery | core/views.py:252-263 | an empty question is answered "Please ask a question." without routing |
| Chatbot.LowAttendanceAnswerLines | core/chatbot_logic.py:36-40 | there is one line per student below 75%; none gives the "Great news!" sentence, otherwise the header followed by those lines joined by newlines, which split back into exactly those lines |
| Chatbot.LineHasNoBreak | core/chatbot_logic.py:39 | a student's line has no newline when neither the name nor the percentage text has one |
| Chatbot.LowLinesHaveNoBreak | core/chatbot_logic.py:39 | lines built from names and percentages without line breaks hold none |
| DictHelpers.PieceOf | core/templatetags/dict_helpers.py:11-13 | a piece is skipped exactly when it has no colon, is a pair exactly when it has one, and fails to unpack exactly when it has two or more; a pair's key and value are stripped |
| DictHelpers.PairAroundColon | core/templatetags/dict_helpers.py:12-13 | a pair is its text before the one colon, the colon, and its text after it; the key and value are those texts stripped |
| DictHelpers.AddAttr | core/templatetags/dict_helpers.py:8-13 | the loop's map is `AttrsOfCss` of the css string, or the unpacking error |
| DictHelpers.AttrsOfStopsAtError | core/templatetags/dict_helpers.py:12 | once a piece fails to unpack, the later pieces cannot undo the error |
| DictHelpers.AttrsOfFailsIffMalformed | core/templatetags/dict_helpers.py:11-12 | reading the pieces fails exactly when one of them cannot be unpacked, always with the unpacking error |
| DictHelpers.AttrsOfCssFailsIff | core/templatetags/dict_helpers.py:9-12 | a css string fails exactly when one of its comma-separated pieces has two or more colons, always with the unpacking error |
| DictHelpers.AttrsOfKeys | core/templatetags/dict_helpers.py:10-13 | the map's keys are exactly the keys of the pairs; pieces without a colon add nothing |
| DictHelpers.AttrsOfLastPairWins | core/templatetags/dict_helpers.py:13 | each key holds the value of the last pair with that key |
| DictHelpers.AttrsOfSize | core/templatetags/dict_helpers.py:8-13 | the map never has more entries than there are pieces |
| DictHelpers.AttrsOfStripped | core/templatetags/dict_helpers.py:13 | entries are stored as the pairs give them, so stripped pairs give stripped entries |
| DictHelpers.AttrsOfCssStripped | core/templatetags/dict_helpers.py:13 | no key or value of a css string's map starts or ends with whitespace |
| DictHelpers.NoColonNoAttrs | core/templatetags/dict_helpers.py:8-11 | a css string without a colon, the empty string included, gives an empty map |
| DictHelpers.NoColonInPieces | core/templatetags/dict_helpers.py:9 | splitting a colon-free string on commas gives colon-free pieces |
| DictHelpers.PieceInJoin | core/templatetags/dict_helpers.py:9 | every character of a piece occurs in the joined string |
| DictHelpers.NoPairsNoAttrs | core/templatetags/dict_helpers.py:10-11 | pieces that are all skipped give an empty map |
| Navigation.DashboardFor | core/views.py:45-55 | ADMIN goes to the admin dashboard, FACULTY to the faculty dashboard, every other role to the student dashboard |

## Left out

- Rendering, flash messages, redirects, pagination and query plumbing: the views' results are outcome values instead.
- Routing (`core/urls.py`), the admin site, the authentication backend, password hashing and the form classes: they hold no logic of their own.
- Role checks other than the HOD gate: they are inlined as guards (owner checks) or left to the views' preconditions (admin-only views).
- The CSV uploads take the file as already decoded and split into rows. UTF-8 decoding and CSV quoting are not part of this model. Passwords are not stored, since hashing is not modelled.
- CsvImport.StudentRowStep, CsvImport.FacultyRowStep: Django's username and e-mail normalisation in `create_user` is not modelled; the fields are stored as given.
- CsvImport.StudentRowStep, CsvImport.FacultyRowStep: database errors raised while saving a row (for example a value longer than its column) are not modelled. In the source such an error ends the loop and marks the atomic block for rollback, so the whole upload is undone, including the rows created before it.
- Email delivery: a notification is one logged attempt. Delivery failures are swallowed by the source, so they do not change the count.
- `@transaction.atomic` and concurrent requests: the imports run as a sequential loop. The one failure modelled, a class name matching two classes, is raised by a query and not by a save, so it does not mark the atomic block for rollback. The source catches it inside the block, and the rows created before it are kept. That is the only case in which the model keeps earlier rows after a failure.
- Leave.ApplySpec: date parsing by the form is a given `Option<Date>`. Django's other field validation (maximum lengths) is not modelled.
- Attendance.AttendanceStore.TakeAttendance: the submitted date is taken as a valid day. A missing or malformed date, which makes the database reject the row, is not modelled.
- Attendance.AttendanceStore.TakeAttendance: the submitted student ids are modelled as profile keys, not as the strings the form posts. A non-numeric id such as "abc" makes the primary-key lookup raise a server error rather than a 404. Two spellings of one key, such as "05" and "5", find the same profile but read different `attendance_status_<id>` fields. The model represents neither case.
- Reports.ConsolidatedReportAsWritten: a class id that is not a number also fails in the source. The model's selection is already a number.
- Floating-point percentages and their `:.1f` / `:.2f` formatting: percentages are exact fractions. The chatbot receives the two formatters as parameters.
- Ordering by name (students by first name, subjects by name, records by date): the model keeps the order of its inputs. The low-attendance report's ordering by percentage is modelled.
- Text.Lower: only ASCII letters are lowered. Python lowers all Unicode letters; non-ASCII letters do not occur in the chatbot's patterns.
- CsvImport.ClassMatches: the case-insensitive class lookup folds only ASCII letters, through Text.Lower. The database's `iexact` also folds non-ASCII letters, so a class name that differs from the row's only in the case of a non-ASCII letter is found by the source and missed by the model.
- The regular-expression engine: every pattern is an alternation of literal phrases, so it is modelled as substring search.
- Clocks: `now` is a parameter.
- Announcements, timetables as pages, CSV export and the faculty dashboard's counts: they are read-only listings with no decision in them. The timetable's constraints are modelled in `Models`.

## Findings

| source | as written | input that shows it | evidently intended | confidence | as-written member | corrected member |
|---|---|---|---|---|---|---|
| core/views.py:339 | the `except` clause names `Course`, which is not defined in the module; when `Class.objects.get` raises `DoesNotExist`, evaluating the clause raises `NameError` and the request fails | `?course=` set to the id of a class that does not exist | catch `Class.DoesNotExist` and show an empty report with "The selected course does not exist." | high; not executed | Reports.ConsolidatedReportAsWritten | Reports.ConsolidatedReport |
| core/decorators.py:47 | the HOD gate requires `role == 'HOD'`, but `User.Role` (core/models.py:14-17) declares only ADMIN, STUDENT and FACULTY, so no user with a declared role passes it | any active user whose role is ADMIN, STUDENT or FACULTY | HOD is a declared role, and the gate admits exactly the active HOD users | medium; not executed | Models.HodGateAdmitsNoDeclaredRole | Models.HodGateAdmitsHods |
