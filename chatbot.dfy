/** The administrator's chatbot: a question is lower-cased and stripped, then
    tried against an ordered list of patterns, each a list of literal
    phrases; the first pattern with a phrase occurring in the question picks
    the answer. The answers are read-only summaries of the tables. */
module Chatbot {
  import opened Basics
  import opened Text
  import opened Models
  import opened Reports

  datatype Intent = CountStudents | CountFaculty | AverageAttendance | LowAttendance

  /** A regular expression that is an alternation of literal phrases, and the
      answer it selects. */
  datatype Pattern = Pattern(alternatives: seq<string>, intent: Intent)

  const PATTERNS: seq<Pattern> := [
    Pattern(["how many students"], CountStudents),
    Pattern(["count students"], CountStudents),
    Pattern(["how many faculty", "how many teachers", "count faculty", "count teachers"], CountFaculty),
    Pattern(["average attendance", "overall attendance"], AverageAttendance),
    Pattern(["low attendance", "who has low attendance"], LowAttendance)
  ]

  const FALLBACK: string :=
    "I'm sorry, I don't understand that question. Try asking about student counts, faculty counts, or low attendance."
  const ERROR_PREFIX: string := "I encountered an error trying to answer that: "
  const EMPTY_QUESTION: string := "Please ask a question."
  const NO_LOW_ATTENDANCE: string := "Great news! No students currently have low attendance."
  const LOW_ATTENDANCE_HEADER: string := "Here are the students with low attendance (<75.0%):\n"

  /** `re.search(pattern, q)` for an alternation of literals: some phrase
      occurs somewhere in `q`. */
  predicate Matches(q: string, p: Pattern) {
    exists k | 0 <= k < |p.alternatives| :: Contains(q, p.alternatives[k])
  }

  /** The position of the first pattern that matches, if any. */
  function FirstMatch(q: string, ps: seq<Pattern>): (r: Option<nat>)
    ensures r.None? <==> forall i | 0 <= i < |ps| :: !Matches(q, ps[i])
    ensures r.Some? ==> r.value < |ps| && Matches(q, ps[r.value])
    ensures r.Some? ==> forall j | 0 <= j < r.value :: !Matches(q, ps[j])
  {
    if ps == [] then None
    else if Matches(q, ps[0]) then Some(0)
    else
      var rest := FirstMatch(q, ps[1..]);
      assert forall i | 1 <= i < |ps| :: ps[i] == ps[1..][i - 1];
      if rest.None? then None else Some(rest.value + 1)
  }

  /** `question.lower().strip()`. */
  function Normalize(question: string): string {
    Strip(Lower(question))
  }

  /** The intent a normalized question `q` is routed to over the pattern
      list `ps`, or None for the fallback exactly when `q` matches no
      pattern. */
  function RouteIn(q: string, ps: seq<Pattern>): (r: Option<Intent>)
    ensures r.None? <==> forall i | 0 <= i < |ps| :: !Matches(q, ps[i])
  {
    match FirstMatch(q, ps)
    case None => None
    case Some(i) => Some(ps[i].intent)
  }

  /** A routed question gets the intent of the first pattern it matches. */
  lemma RouteInPicksFirst(q: string, ps: seq<Pattern>)
    requires RouteIn(q, ps).Some?
    ensures exists i | 0 <= i < |ps| ::
              && Matches(q, ps[i]) && ps[i].intent == RouteIn(q, ps).value
              && forall j | 0 <= j < i :: !Matches(q, ps[j])
  {
    var i := FirstMatch(q, ps).value;
    assert Matches(q, ps[i]) && ps[i].intent == RouteIn(q, ps).value;
  }

  /** The portal's routing: the lower-cased, stripped question over the
      patterns above. */
  function Route(question: string): Option<Intent> {
    RouteIn(Normalize(question), PATTERNS)
  }

  // ---------------------------------------------------------------------
  // Routing properties
  // ---------------------------------------------------------------------

  /** Letter case does not matter: questions that agree up to ASCII case are
      routed alike. */
  lemma RouteIgnoresCase(q1: string, q2: string)
    requires |q1| == |q2|
    requires forall i | 0 <= i < |q1| :: LowerChar(q1[i]) == LowerChar(q2[i])
    ensures Route(q1) == Route(q2)
  {
    assert Lower(q1) == Lower(q2);
  }

  /** Whitespace around the question does not matter. */
  lemma RouteIgnoresPadding(pre: string, q: string, post: string)
    requires AllSpace(pre) && AllSpace(post)
    ensures Route(pre + q + post) == Route(q)
  {
    LowerAppend(pre + q, post);
    LowerAppend(pre, q);
    LowerKeepsSpace(pre);
    LowerKeepsSpace(post);
    StripIgnoresPadding(Lower(pre), Lower(q), Lower(post));
  }

  lemma {:induction false} LowerAppend(a: string, b: string)
    ensures Lower(a + b) == Lower(a) + Lower(b)
  {
    if a == [] {
      assert a + b == b;
    } else {
      assert (a + b)[0] == a[0];
      assert (a + b)[1..] == a[1..] + b;
      LowerAppend(a[1..], b);
    }
  }

  lemma LowerKeepsSpace(s: string)
    requires AllSpace(s)
    ensures AllSpace(Lower(s))
  {
    assert forall i | 0 <= i < |s| :: Lower(s)[i] == s[i];
  }

  /** A phrase that neither starts nor ends with whitespace. */
  predicate TrimmedPhrase(p: string) {
    p != [] && !IsSpace(p[0]) && !IsSpace(p[|p| - 1])
  }

  predicate TrimmedPattern(p: Pattern) {
    forall k | 0 <= k < |p.alternatives| :: TrimmedPhrase(p.alternatives[k])
  }

  lemma PatternsAreTrimmed()
    ensures forall i | 0 <= i < |PATTERNS| :: TrimmedPattern(PATTERNS[i])
  {
  }

  /** Whitespace around a question cannot make a pattern of trimmed phrases
      match or stop matching. */
  lemma PaddingKeepsMatch(pre: string, q: string, post: string, p: Pattern)
    requires AllSpace(pre) && AllSpace(post) && TrimmedPattern(p)
    ensures Matches(pre + q + post, p) <==> Matches(q, p)
  {
    forall k | 0 <= k < |p.alternatives|
      ensures Contains(pre + q + post, p.alternatives[k]) <==> Contains(q, p.alternatives[k])
    {
      ContainsIgnoresPadding(pre, q, post, p.alternatives[k]);
    }
  }

  /** No phrase starts or ends with whitespace, so the phrases are found in a
      lower-cased question exactly when they are found in its stripped form:
      the strip never changes the route. */
  lemma StripDoesNotChangeRoute(question: string)
    ensures FirstMatch(Normalize(question), PATTERNS) == FirstMatch(Lower(question), PATTERNS)
  {
    var s := Lower(question);
    var pre, post := StripFrame(s);
    PatternsAreTrimmed();
    forall i | 0 <= i < |PATTERNS| ensures Matches(s, PATTERNS[i]) <==> Matches(Strip(s), PATTERNS[i]) {
      PaddingKeepsMatch(pre, Strip(s), post, PATTERNS[i]);
    }
    FirstMatchAgrees(s, Strip(s), PATTERNS);
  }

  /** Two questions that match the same patterns take the same first match. */
  lemma {:induction false} FirstMatchAgrees(a: string, b: string, ps: seq<Pattern>)
    requires forall i | 0 <= i < |ps| :: Matches(a, ps[i]) <==> Matches(b, ps[i])
    ensures FirstMatch(a, ps) == FirstMatch(b, ps)
  {
    if ps != [] && !Matches(a, ps[0]) {
      assert forall i | 0 <= i < |ps[1..]| :: ps[1..][i] == ps[i + 1];
      FirstMatchAgrees(a, b, ps[1..]);
    }
  }

  /** The first pattern is tried first: a question asking how many students
      is answered with the count, whatever else it mentions (say, low
      attendance). */
  lemma StudentCountComesFirst(question: string)
    requires Contains(Normalize(question), "how many students")
    ensures Route(question) == Some(CountStudents)
  {
    assert Matches(Normalize(question), PATTERNS[0]) by {
      assert PATTERNS[0].alternatives[0] == "how many students";
    }
  }

  /** A question matching none of the earlier patterns but mentioning low
      attendance gets the low-attendance list. */
  lemma LowAttendanceIsLast(question: string)
    requires forall i | 0 <= i < 4 :: !Matches(Normalize(question), PATTERNS[i])
    requires Contains(Normalize(question), "low attendance")
    ensures Route(question) == Some(LowAttendance)
  {
    assert Matches(Normalize(question), PATTERNS[4]) by {
      assert PATTERNS[4].alternatives[0] == "low attendance";
    }
  }

  /** The second phrase of the last pattern can never be the one that
      matches alone: every question containing it contains the first. */
  lemma WhoHasLowAttendanceIsRedundant(q: string)
    requires Contains(q, "who has low attendance")
    ensures Contains(q, "low attendance")
  {
    var i :| 0 <= i <= |q| - 22 && OccursAt(q, "who has low attendance", i);
    assert q[i + 8..i + 22] == "who has low attendance"[8..];
    assert OccursAt(q, "low attendance", i + 8);
  }

  // ---------------------------------------------------------------------
  // Answers
  // ---------------------------------------------------------------------

  /** What the answers read: the users, the student profiles joined with
      their users, and the attendance rows. */
  datatype Tables = Tables(users: seq<UserRec>, students: seq<(StudentId, UserRec)>, records: seq<AttendanceRecord>)

  /** `User.objects.filter(role=FACULTY).count()`. */
  function FacultyCount(users: seq<UserRec>): (n: nat)
    ensures n <= |users|
    ensures n == 0 <==> forall i | 0 <= i < |users| :: users[i].role != FACULTY
    ensures n == |users| <==> forall i | 0 <= i < |users| :: users[i].role == FACULTY
  {
    if users == [] then 0
    else FacultyCount(users[..|users| - 1]) + (if users[|users| - 1].role == FACULTY then 1 else 0)
  }

  /** The positions of the faculty accounts among the first `k` users. */
  ghost function FacultyPositions(users: seq<UserRec>, k: nat): set<nat>
    requires k <= |users|
  {
    set i: nat | i < k && users[i].role == FACULTY
  }

  /** The count is the number of users whose role is FACULTY. */
  lemma {:induction false} FacultyCountIsSize(users: seq<UserRec>)
    ensures FacultyCount(users) == |FacultyPositions(users, |users|)|
  {
    if users != [] {
      var k := |users| - 1;
      var init := users[..k];
      FacultyCountIsSize(init);
      assert FacultyPositions(init, k) == FacultyPositions(users, k);
      if users[k].role == FACULTY {
        assert FacultyPositions(users, k + 1) == FacultyPositions(users, k) + {k};
        assert k !in FacultyPositions(users, k);
      } else {
        assert FacultyPositions(users, k + 1) == FacultyPositions(users, k);
      }
    }
  }

  /** One line of the low-attendance answer per listed student, in the order
      of the profiles. */
  function LowLines(students: seq<(StudentId, UserRec)>, records: seq<AttendanceRecord>, fmt1: Ratio -> string): (r: seq<string>)
    ensures |r| <= |students|
  {
    if students == [] then []
    else
      var s := StandingOf(records, students[0].0);
      var rest := LowLines(students[1..], records, fmt1);
      if IsLow(s) then [LowLine(FullName(students[0].1), fmt1(Pct(s)))] + rest else rest
  }

  /** The line naming one student and their rendered percentage. */
  function LowLine(name: string, pct: string): string {
    "- " + name + " (" + pct + "%)"
  }

  function Ids(students: seq<(StudentId, UserRec)>): (r: seq<StudentId>)
    ensures |r| == |students|
    ensures forall i | 0 <= i < |r| :: r[i] == students[i].0
  {
    if students == [] then [] else [students[0].0] + Ids(students[1..])
  }

  /** The chatbot lists one line per student of the low-attendance filter. */
  lemma {:induction false} LowLinesCount(students: seq<(StudentId, UserRec)>, records: seq<AttendanceRecord>, fmt1: Ratio -> string)
    ensures |LowLines(students, records, fmt1)| == |LowAttendanceStudents(Ids(students), records)|
  {
    if students != [] {
      LowLinesCount(students[1..], records, fmt1);
      assert Ids(students)[1..] == Ids(students[1..]);
    }
  }

  /** The user of the profile with primary key `id`. */
  function UserOf(students: seq<(StudentId, UserRec)>, id: StudentId): Option<UserRec> {
    if students == [] then None
    else if students[0].0 == id then Some(students[0].1)
    else UserOf(students[1..], id)
  }

  /** `line` names the user of the listed student's profile and renders
      that student's percentage. */
  predicate LineFor(line: string, students: seq<(StudentId, UserRec)>, st: Standing, fmt1: Ratio -> string) {
    UserOf(students, st.student).Some? && line == LowLine(FullName(UserOf(students, st.student).value), fmt1(Pct(st)))
  }

  /** The chatbot lists exactly the students of the low-attendance filter,
      in its order, one line each: line k names the user of the k-th listed
      student's profile and renders that student's percentage. Profile keys
      are primary keys, so no two profiles share one. */
  lemma {:induction false} LowLinesMatchFilter(students: seq<(StudentId, UserRec)>, records: seq<AttendanceRecord>, fmt1: Ratio -> string)
    requires Distinct(Ids(students))
    ensures var lines := LowLines(students, records, fmt1);
      var low := LowAttendanceStudents(Ids(students), records);
      && |lines| == |low|
      && forall k | 0 <= k < |lines| :: LineFor(lines[k], students, low[k], fmt1)
  {
    if students != [] {
      var tail := students[1..];
      DistinctIdsTail(students);
      LowLinesMatchFilter(tail, records, fmt1);
      LowLinesStep(students, records, fmt1);
      var s := StandingOf(records, students[0].0);
      var restLines := LowLines(tail, records, fmt1);
      var restLow := LowAttendanceStudents(Ids(tail), records);
      assert forall k | 0 <= k < |restLow| :: restLow[k].student in Ids(tail);
      LinesForTail(restLines, restLow, students, fmt1);
      var line := LowLine(FullName(students[0].1), fmt1(Pct(s)));
      assert LineFor(line, students, s, fmt1);
      LinesForStep(students, line, s, LowLines(students, records, fmt1),
                   LowAttendanceStudents(Ids(students), records), restLines, restLow, fmt1, IsLow(s));
    }
  }

  /** The step of the induction, on the lists alone: the first profile adds
      its own line in front of the tail's (`added`), or nothing. */
  lemma LinesForStep(students: seq<(StudentId, UserRec)>, line: string, s: Standing, lines: seq<string>, low: seq<Standing>,
                     restLines: seq<string>, restLow: seq<Standing>, fmt1: Ratio -> string, added: bool)
    requires |restLines| == |restLow| && LineFor(line, students, s, fmt1)
    requires forall k | 0 <= k < |restLines| :: LineFor(restLines[k], students, restLow[k], fmt1)
    requires added ==> lines == [line] + restLines && low == [s] + restLow
    requires !added ==> lines == restLines && low == restLow
    ensures |lines| == |low|
    ensures forall k | 0 <= k < |lines| :: LineFor(lines[k], students, low[k], fmt1)
  {
    if added {
      PairwiseCons((l, st) => LineFor(l, students, st, fmt1), line, s, restLines, restLow);
    }
  }

  /** The tail's lines are also the whole list's: none of their students is
      the first profile's. */
  lemma LinesForTail(lines: seq<string>, low: seq<Standing>, students: seq<(StudentId, UserRec)>, fmt1: Ratio -> string)
    requires students != [] && students[0].0 !in Ids(students[1..]) && |lines| == |low|
    requires forall k | 0 <= k < |low| :: low[k].student in Ids(students[1..])
    requires forall k | 0 <= k < |lines| :: LineFor(lines[k], students[1..], low[k], fmt1)
    ensures forall k | 0 <= k < |lines| :: LineFor(lines[k], students, low[k], fmt1)
  {
    forall k | 0 <= k < |lines| ensures LineFor(lines[k], students, low[k], fmt1) {
      LineForTail(lines[k], students, low[k], fmt1);
    }
  }

  /** The tail of a list of distinct profile keys has distinct keys, none of
      them the first. */
  lemma DistinctIdsTail(students: seq<(StudentId, UserRec)>)
    requires students != [] && Distinct(Ids(students))
    ensures Distinct(Ids(students[1..]))
    ensures students[0].0 !in Ids(students[1..])
  {
    var ids, tail := Ids(students), Ids(students[1..]);
    assert ids[1..] == tail;
    forall i, j | 0 <= i < j < |tail| ensures tail[i] != tail[j] {
      assert tail[i] == ids[i + 1] && tail[j] == ids[j + 1];
    }
    forall i | 0 <= i < |tail| ensures tail[i] != students[0].0 {
      assert ids[0] == students[0].0 && ids[i + 1] == tail[i];
    }
  }

  /** A relation that holds pairwise along two lists still holds after the
      same pair is put in front of both. */
  lemma PairwiseCons<A, B>(rel: (A, B) -> bool, x: A, y: B, xs: seq<A>, ys: seq<B>)
    requires |xs| == |ys| && rel(x, y)
    requires forall k | 0 <= k < |xs| :: rel(xs[k], ys[k])
    ensures forall k | 0 <= k < |xs| + 1 :: rel(([x] + xs)[k], ([y] + ys)[k])
  {
    forall k | 0 <= k < |xs| + 1 ensures rel(([x] + xs)[k], ([y] + ys)[k]) {
      if k > 0 {
        assert ([x] + xs)[k] == xs[k - 1] && ([y] + ys)[k] == ys[k - 1];
      }
    }
  }

  /** A listed student other than the first profile's has the same line for
      the whole list as for its tail. */
  lemma LineForTail(line: string, students: seq<(StudentId, UserRec)>, st: Standing, fmt1: Ratio -> string)
    requires students != [] && st.student != students[0].0
    requires LineFor(line, students[1..], st, fmt1)
    ensures LineFor(line, students, st, fmt1)
  {
    assert UserOf(students, st.student) == UserOf(students[1..], st.student);
  }

  /** The first profile contributes one line and one listed student, or
      neither. */
  lemma LowLinesStep(students: seq<(StudentId, UserRec)>, records: seq<AttendanceRecord>, fmt1: Ratio -> string)
    requires students != []
    ensures var s := StandingOf(records, students[0].0);
      var lines := LowLines(students, records, fmt1);
      var low := LowAttendanceStudents(Ids(students), records);
      var restLines := LowLines(students[1..], records, fmt1);
      var restLow := LowAttendanceStudents(Ids(students[1..]), records);
      && (IsLow(s) ==> lines == [LowLine(FullName(students[0].1), fmt1(Pct(s)))] + restLines && low == [s] + restLow)
      && (!IsLow(s) ==> lines == restLines && low == restLow)
      && students[0].0 == s.student
  {
    assert Ids(students)[1..] == Ids(students[1..]);
  }

  const STUDENTS_PREFIX: string := "There are currently "
  const STUDENTS_SUFFIX: string := " students registered in the system."
  const FACULTY_PREFIX: string := "There are "
  const FACULTY_SUFFIX: string := " faculty members in the system."
  const AVERAGE_PREFIX: string := "The overall average attendance is "
  const AVERAGE_SUFFIX: string := "%."

  /** `r` is `pre`, then the decimal digits of `n`, then `post`: the number
      can be read back from the sentence. */
  predicate SaysNumber(r: string, pre: string, n: nat, post: string) {
    && |pre| + |post| <= |r|
    && r[..|pre|] == pre
    && r[|r| - |post|..] == post
    && var digits := r[|pre|..|r| - |post|];
       && (forall k | 0 <= k < |digits| :: '0' <= digits[k] <= '9')
       && Value(digits) == n
  }

  /** The answer of each handler; `fmt1` and `fmt2` render a percentage with
      one and two decimals. The two counts are written in decimal inside their
      sentences, the average is the portal-wide share of present rows, and the
      low-attendance answer is described below. */
  function Answer(intent: Intent, t: Tables, fmt1: Ratio -> string, fmt2: Ratio -> string): (r: string)
    ensures intent == CountStudents ==> SaysNumber(r, STUDENTS_PREFIX, |t.students|, STUDENTS_SUFFIX)
    ensures intent == CountFaculty ==> SaysNumber(r, FACULTY_PREFIX, FacultyCount(t.users), FACULTY_SUFFIX)
    ensures intent == AverageAttendance ==>
              |r| == |AVERAGE_PREFIX| + |fmt2(Reports.AverageAttendance(t.records))| + |AVERAGE_SUFFIX|
              && r[..|AVERAGE_PREFIX|] == AVERAGE_PREFIX
              && r[|AVERAGE_PREFIX|..|r| - |AVERAGE_SUFFIX|] == fmt2(Reports.AverageAttendance(t.records))
              && r[|r| - |AVERAGE_SUFFIX|..] == AVERAGE_SUFFIX
    ensures intent == LowAttendance ==> r == LowAttendanceAnswer(t, fmt1)
  {
    match intent
    case CountStudents =>
      var d := NatToString(|t.students|);
      Sandwich(STUDENTS_PREFIX, d, STUDENTS_SUFFIX);
      STUDENTS_PREFIX + d + STUDENTS_SUFFIX
    case CountFaculty =>
      var d := NatToString(FacultyCount(t.users));
      Sandwich(FACULTY_PREFIX, d, FACULTY_SUFFIX);
      FACULTY_PREFIX + d + FACULTY_SUFFIX
    case AverageAttendance =>
      var d := fmt2(Reports.AverageAttendance(t.records));
      Sandwich(AVERAGE_PREFIX, d, AVERAGE_SUFFIX);
      AVERAGE_PREFIX + d + AVERAGE_SUFFIX
    case LowAttendance => LowAttendanceAnswer(t, fmt1)
  }

  /** `handle_low_attendance`'s answer: the "Great news!" sentence when the
      filter lists nobody, otherwise a text that starts with the header. */
  function LowAttendanceAnswer(t: Tables, fmt1: Ratio -> string): (r: string)
    ensures LowAttendanceStudents(Ids(t.students), t.records) == [] ==> r == NO_LOW_ATTENDANCE
    ensures LowAttendanceStudents(Ids(t.students), t.records) != [] ==>
              |LOW_ATTENDANCE_HEADER| <= |r| && r[..|LOW_ATTENDANCE_HEADER|] == LOW_ATTENDANCE_HEADER
  {
    var lines := LowLines(t.students, t.records, fmt1);
    LowLinesCount(t.students, t.records, fmt1);
    if lines == [] then NO_LOW_ATTENDANCE
    else
      ConcatParts(LOW_ATTENDANCE_HEADER, Join(lines, '\n'));
      LOW_ATTENDANCE_HEADER + Join(lines, '\n')
  }

  /** `get_chatbot_response`: the fallback when no pattern matches; otherwise
      the handler's answer, or, when reading the tables raised `failure`, the
      error sentence with its message, never the exception itself. */
  function Respond(question: string, t: Tables, failure: Option<string>,
                   fmt1: Ratio -> string, fmt2: Ratio -> string): (r: string)
    ensures Route(question).None? ==> r == FALLBACK
    ensures Route(question).Some? && failure.Some? ==> r == ERROR_PREFIX + failure.value
    ensures Route(question).Some? && failure.None? ==> r == Answer(Route(question).value, t, fmt1, fmt2)
  {
    match Route(question)
    case None => FALLBACK
    case Some(intent) =>
      if failure.Some? then ERROR_PREFIX + failure.value else Answer(intent, t, fmt1, fmt2)
  }

  /** A handler failure never escapes: the answer is the error sentence,
      which ends with the failure's message. */
  lemma FailureBecomesErrorSentence(question: string, t: Tables, message: string,
                                    fmt1: Ratio -> string, fmt2: Ratio -> string)
    requires Route(question).Some?
    ensures var r := Respond(question, t, Some(message), fmt1, fmt2);
      |r| == |ERROR_PREFIX| + |message| && r[..|ERROR_PREFIX|] == ERROR_PREFIX && r[|ERROR_PREFIX|..] == message
  {
    var e := ERROR_PREFIX;
    ConcatParts(e, message);
  }

  /** `admin_chatbot_query`: an empty question is answered without routing. */
  function ChatbotQuery(question: string, t: Tables, failure: Option<string>,
                        fmt1: Ratio -> string, fmt2: Ratio -> string): (r: string)
    ensures question == [] ==> r == EMPTY_QUESTION
    ensures question != [] ==> r == Respond(question, t, failure, fmt1, fmt2)
  {
    if question == [] then EMPTY_QUESTION else Respond(question, t, failure, fmt1, fmt2)
  }

  /** The low-attendance answer is the "Great news!" sentence when no student
      is listed; otherwise it is the header followed by the listed lines
      joined by line breaks, and, as long as no name or rendered percentage
      contains a line break, splitting that body at line breaks gives one
      line per listed student. */
  lemma LowAttendanceAnswerLines(t: Tables, fmt1: Ratio -> string)
    requires forall i | 0 <= i < |t.students| :: '\n' !in FullName(t.students[i].1)
    requires forall p: Ratio :: '\n' !in fmt1(p)
    ensures var a := LowAttendanceAnswer(t, fmt1);
      var lines := LowLines(t.students, t.records, fmt1);
      var n := |LowAttendanceStudents(Ids(t.students), t.records)|;
      && |lines| == n
      && (n == 0 ==> a == NO_LOW_ATTENDANCE)
      && (lines != [] ==> a == LOW_ATTENDANCE_HEADER + Join(lines, '\n') && Split(Join(lines, '\n'), '\n') == lines)
  {
    var lines := LowLines(t.students, t.records, fmt1);
    LowLinesCount(t.students, t.records, fmt1);
    if lines != [] {
      LowLinesHaveNoBreak(t.students, t.records, fmt1);
      SplitJoin(lines, '\n');
    }
  }

  lemma {:induction false} LowLinesHaveNoBreak(students: seq<(StudentId, UserRec)>, records: seq<AttendanceRecord>, fmt1: Ratio -> string)
    requires forall i | 0 <= i < |students| :: '\n' !in FullName(students[i].1)
    requires forall p: Ratio :: '\n' !in fmt1(p)
    ensures forall k | 0 <= k < |LowLines(students, records, fmt1)| :: '\n' !in LowLines(students, records, fmt1)[k]
  {
    if students != [] {
      var tail := students[1..];
      forall i | 0 <= i < |tail| ensures '\n' !in FullName(tail[i].1) {
        assert tail[i] == students[i + 1];
      }
      LowLinesHaveNoBreak(tail, records, fmt1);
      var s := StandingOf(records, students[0].0);
      if IsLow(s) {
        var line := LowLine(FullName(students[0].1), fmt1(Pct(s)));
        LineHasNoBreak(FullName(students[0].1), fmt1(Pct(s)));
        ConsHasNoBreak(line, LowLines(tail, records, fmt1));
      }
    }
  }

  lemma ConsHasNoBreak(line: string, rest: seq<string>)
    requires '\n' !in line
    requires forall k | 0 <= k < |rest| :: '\n' !in rest[k]
    ensures forall k | 0 <= k < |[line] + rest| :: '\n' !in ([line] + rest)[k]
  {
  }

  /** One listed line: no break when neither the name nor the percentage has one. */
  lemma LineHasNoBreak(name: string, pct: string)
    requires '\n' !in name && '\n' !in pct
    ensures '\n' !in LowLine(name, pct)
  {
    var a, b, c := "- ", " (", "%)";
    assert '\n' !in a && '\n' !in b && '\n' !in c;
    NotInAppend('\n', a, name);
    NotInAppend('\n', a + name, b);
    NotInAppend('\n', a + name + b, pct);
    NotInAppend('\n', a + name + b + pct, c);
  }
}
