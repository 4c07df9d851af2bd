/** The counts people are shown: a student's own summary, and a course's sessions
    attended and held. */
module AttendanceCounts {
  import opened Prelude
  import opened SessionWindow
  import opened AttendanceTables

  /* ---------------------- A student's own summary -------------------------- */

  /** One row of the student's history; an ad-hoc session has no course. */
  datatype Mark = Mark(course: Option<CourseId>, status: AttendanceStatus)

  datatype Tally = Tally(present: nat, late: nat, absent: nat)

  /** What is shown of a tally; no rate before anything has been recorded. The rate
      is in tenths of a percent: one decimal. */
  datatype Summary = Summary(tally: Tally, recorded: nat, attended: nat, rateTenths: Option<nat>)

  function Bump(t: Tally, status: AttendanceStatus): Tally {
    match status
    case Present => t.(present := t.present + 1)
    case Late => t.(late := t.late + 1)
    case Absent => t.(absent := t.absent + 1)
  }

  function Total(t: Tally): nat {
    t.present + t.late + t.absent
  }

  function Sum(a: Tally, b: Tally): Tally {
    Tally(a.present + b.present, a.late + b.late, a.absent + b.absent)
  }

  /** The marks of one course, or of all. */
  function TallyOf(marks: seq<Mark>, course: Option<CourseId>): Tally {
    if marks == [] then Tally(0, 0, 0)
    else
      var last := marks[|marks| - 1];
      var before := TallyOf(marks[..|marks| - 1], course);
      if last.course == course then Bump(before, last.status) else before
  }

  function TallyOfAll(marks: seq<Mark>): Tally {
    if marks == [] then Tally(0, 0, 0) else Bump(TallyOfAll(marks[..|marks| - 1]), marks[|marks| - 1].status)
  }

  function SumOver(marks: seq<Mark>, courses: seq<Option<CourseId>>): Tally {
    if courses == [] then Tally(0, 0, 0)
    else Sum(SumOver(marks, courses[..|courses| - 1]), TallyOf(marks, courses[|courses| - 1]))
  }

  /** One more mark adds one to exactly one course's tally. */
  lemma {:induction false} OneMoreMark(marks: seq<Mark>, m: Mark, courses: seq<Option<CourseId>>)
    requires NoDuplicates(courses)
    ensures SumOver(marks + [m], courses) == if m.course in courses then Bump(SumOver(marks, courses), m.status)
        else SumOver(marks, courses)
  {
    assert (marks + [m])[..|marks|] == marks;
    if courses != [] {
      var front := courses[..|courses| - 1];
      OneMoreMark(marks, m, front);
      assert courses == front + [courses[|courses| - 1]];
      assert m.course in courses <==> m.course in front || m.course == courses[|courses| - 1];
    }
  }

  /** The places among the first n at which a mark has this status and, if one is
      asked for, this course. */
  function Places(marks: seq<Mark>, n: nat, course: Option<Option<CourseId>>, status: AttendanceStatus): set<nat>
    requires n <= |marks|
  {
    set i: nat | i < n && marks[i].status == status && (course.None? || marks[i].course == course.value)
  }

  /** The tally counts those marks, each status under its own name. */
  ghost predicate CountsMarks(t: Tally, marks: seq<Mark>, course: Option<Option<CourseId>>) {
    && t.present == |Places(marks, |marks|, course, Present)|
    && t.late == |Places(marks, |marks|, course, Late)|
    && t.absent == |Places(marks, |marks|, course, Absent)|
  }

  lemma OnePlaceMore(marks: seq<Mark>, course: Option<Option<CourseId>>, status: AttendanceStatus)
    requires marks != []
    ensures
      var n := |marks| - 1;
      |Places(marks, |marks|, course, status)| == |Places(marks[..n], n, course, status)|
        + if marks[n].status == status && (course.None? || marks[n].course == course.value) then 1 else 0
  {
    var n := |marks| - 1;
    var before := Places(marks[..n], n, course, status);
    if marks[n].status == status && (course.None? || marks[n].course == course.value) {
      assert Places(marks, |marks|, course, status) == before + {n};
    } else {
      assert Places(marks, |marks|, course, status) == before;
    }
  }

  /** Every tally counts the marks there are. */
  lemma {:induction false} TalliesCountMarks(marks: seq<Mark>, course: Option<CourseId>)
    ensures CountsMarks(TallyOf(marks, course), marks, Some(course))
    ensures CountsMarks(TallyOfAll(marks), marks, None)
  {
    if marks != [] {
      TalliesCountMarks(marks[..|marks| - 1], course);
      OnePlaceMore(marks, Some(course), Present);
      OnePlaceMore(marks, Some(course), Late);
      OnePlaceMore(marks, Some(course), Absent);
      OnePlaceMore(marks, None, Present);
      OnePlaceMore(marks, None, Late);
      OnePlaceMore(marks, None, Absent);
    }
  }

  /** The per-course tallies add up to the overall tally, and that to the rows. */
  lemma {:induction false} CoursesSumToOverall(marks: seq<Mark>, courses: seq<Option<CourseId>>)
    requires NoDuplicates(courses) && forall m :: m in marks ==> m.course in courses
    ensures SumOver(marks, courses) == TallyOfAll(marks)
    ensures Total(TallyOfAll(marks)) == |marks|
  {
    if marks == [] {
      NothingToSum(courses);
    } else {
      var n := |marks| - 1;
      assert marks == marks[..n] + [marks[n]];
      CoursesSumToOverall(marks[..n], courses);
      OneMoreMark(marks[..n], marks[n], courses);
    }
  }

  lemma {:induction false} NothingToSum(courses: seq<Option<CourseId>>)
    ensures SumOver([], courses) == Tally(0, 0, 0)
  {
    if courses != [] { NothingToSum(courses[..|courses| - 1]); }
  }

  function Share(part: nat, whole: nat): (r: real)
    requires part <= whole && whole > 0
    ensures 0.0 <= r <= 1.0 && r * whole as real == part as real
  {
    part as real / whole as real
  }

  /** `n` tenths is the value nearest to 1000 * part / whole, the larger of two
      equally near (toFixed, ECMA-262 section 21.1.3.3). */
  predicate Rounds(n: int, part: nat, whole: nat) {
    (2 * n - 1) * whole <= 2000 * part < (2 * n + 1) * whole
  }

  function RoundedTenths(part: nat, whole: nat): (n: nat)
    requires part <= whole && whole > 0
    ensures Rounds(n, part, whole) && n <= 1000
  {
    var n := (2000 * part + whole) / (2 * whole);
    QuotientBounds(2000 * part + whole, 2 * whole);
    AtMostAll(n, part, whole);
    n
  }

  lemma QuotientBounds(a: nat, b: nat)
    requires b > 0
    ensures a / b >= 0 && (a / b) * b <= a < (a / b + 1) * b
  {
    var q := a / b;
    assert a == q * b + a % b;
    assert (q + 1) * b == q * b + b;
  }

  lemma AtMostAll(n: int, part: nat, whole: nat)
    requires part <= whole && whole > 0 && n * (2 * whole) <= 2000 * part + whole < (n + 1) * (2 * whole)
    ensures n <= 1000 && Rounds(n, part, whole)
  {
    assert n * (2 * whole) == 2 * n * whole && (2 * n - 1) * whole == 2 * n * whole - whole;
    assert (2 * n + 1) * whole == 2 * n * whole + whole && (n + 1) * (2 * whole) == 2 * n * whole + 2 * whole;
    TimesOrdered(n, 1001, 2 * whole);
  }

  lemma TimesOrdered(a: int, b: int, w: nat)
    requires w > 0 && a * w < b * w
    ensures a < b
  {
  }

  /** Only one number of tenths rounds a share. */
  lemma RoundingIsDetermined(m: int, n: int, part: nat, whole: nat)
    requires whole > 0 && Rounds(m, part, whole) && Rounds(n, part, whole)
    ensures m == n
  {
    TimesOrdered(2 * m - 1, 2 * n + 1, whole);
    TimesOrdered(2 * n - 1, 2 * m + 1, whole);
  }

  /** The three counts, their sums, and the rate to one decimal. */
  method Show(t: Tally) returns (s: Summary)
    ensures s.tally == t && s.recorded == Total(t) && s.attended + t.absent == s.recorded
    ensures s.rateTenths.None? <==> s.recorded == 0
    ensures s.rateTenths.Some? ==> Rounds(s.rateTenths.value, s.attended, s.recorded) && s.rateTenths.value <= 1000
  {
    var recorded := t.present + t.late + t.absent;
    var attended := t.present + t.late;
    if recorded == 0 {
      return Summary(t, recorded, attended, None);
    }
    s := Summary(t, recorded, attended, Some(RoundedTenths(attended, recorded)));
  }

  predicate Appears(marks: seq<Mark>, course: Option<CourseId>) {
    exists m :: m in marks && m.course == course
  }

  /** One entry per course met so far, holding that course's tally. */
  ghost predicate Tallied(marks: seq<Mark>, byCourse: map<Option<CourseId>, Tally>) {
    && (forall k :: k in byCourse <==> Appears(marks, k))
    && (forall k :: k in byCourse ==> byCourse[k] == TallyOf(marks, k) && Total(byCourse[k]) > 0)
    && (forall k :: k !in byCourse ==> TallyOf(marks, k) == Tally(0, 0, 0))
  }

  lemma TallyOneMore(marks: seq<Mark>, byCourse: map<Option<CourseId>, Tally>)
    requires marks != [] && Tallied(marks[..|marks| - 1], byCourse)
    ensures
      var last := marks[|marks| - 1];
      var before := if last.course in byCourse then byCourse[last.course] else Tally(0, 0, 0);
      Tallied(marks, byCourse[last.course := Bump(before, last.status)])
  {
  }

  lemma SummaryAddsUp(marks: seq<Mark>, byCourse: map<Option<CourseId>, Tally>, courses: seq<Option<CourseId>>)
    requires NoDuplicates(courses) && SetOf(courses) == byCourse.Keys && Tallied(marks, byCourse)
    ensures TallyOfAll(marks) == SumOver(marks, courses) && Total(TallyOfAll(marks)) == |marks|
  {
    forall m | m in marks ensures m.course in courses {
      assert Appears(marks, m.course);
      assert m.course in SetOf(courses);
    }
    CoursesSumToOverall(marks, courses);
  }

  /** `courses` are the distinct courses in order of first appearance. */
  method GetMyAttendanceSummary(marks: seq<Mark>)
    returns (overall: Tally, byCourse: map<Option<CourseId>, Tally>, courses: seq<Option<CourseId>>)
    ensures NoDuplicates(courses) && SetOf(courses) == byCourse.Keys
    ensures Tallied(marks, byCourse)
    ensures overall == TallyOfAll(marks) == SumOver(marks, courses)
    ensures Total(overall) == |marks|
    ensures CountsMarks(overall, marks, None) && forall k :: k in byCourse ==> CountsMarks(byCourse[k], marks, Some(k))
  {
    overall, byCourse, courses := Tally(0, 0, 0), map[], [];
    for i := 0 to |marks|
      invariant NoDuplicates(courses) && SetOf(courses) == byCourse.Keys
      invariant Tallied(marks[..i], byCourse)
      invariant overall == TallyOfAll(marks[..i])
    {
      var key := marks[i].course;
      assert marks[..i + 1][..i] == marks[..i];
      TallyOneMore(marks[..i + 1], byCourse);
      if key !in byCourse {
        assert key !in SetOf(courses);
        assert SetOf(courses + [key]) == SetOf(courses) + {key};
        courses := courses + [key];
      }
      var tally := if key in byCourse then byCourse[key] else Tally(0, 0, 0);
      byCourse := byCourse[key := Bump(tally, marks[i].status)];
      overall := Bump(overall, marks[i].status);
    }
    assert marks[..|marks|] == marks;
    SummaryAddsUp(marks, byCourse, courses);
    TalliesCountMarks(marks, None);
    forall k | k in byCourse ensures CountsMarks(byCourse[k], marks, Some(k)) {
      TalliesCountMarks(marks, k);
    }
  }

  /* ---------------------- A course's attended and held --------------------- */

  function ClosedOfCourse(t: Sessions, course: CourseId, org: OrgId): set<SessionId> {
    set id | id in t && t[id].course == Some(course) && t[id].org == org && t[id].status == Closed
  }

  predicate Counts(t: Sessions, course: CourseId, org: OrgId, r: Attendance) {
    r.status != Absent && r.session in ClosedOfCourse(t, course, org)
  }

  /** The student's rows that the grouped count counts. */
  function AttendedCount(t: Sessions, course: CourseId, org: OrgId, rows: Rows, student: UserId): nat {
    if rows == [] then 0
    else
      var last := rows[|rows| - 1];
      AttendedCount(t, course, org, rows[..|rows| - 1], student) + if last.student == student
          && Counts(t, course, org, last) then 1 else 0
  }

  function AttendedSessions(t: Sessions, course: CourseId, org: OrgId, rows: Rows, student: UserId): set<SessionId> {
    set r | r in rows && r.student == student && Counts(t, course, org, r) :: r.session
  }

  /** The unique constraint makes the row count a session count. */
  lemma {:induction false} RowsCountSessions(t: Sessions, course: CourseId, org: OrgId, rows: Rows, student: UserId)
    requires Unique(rows)
    ensures AttendedCount(t, course, org, rows, student) == |AttendedSessions(t, course, org, rows, student)|
  {
    if rows != [] {
      var front, last := rows[..|rows| - 1], rows[|rows| - 1];
      RowsCountSessions(t, course, org, front, student);
      assert forall r :: r in rows <==> r in front || r == last by {
        assert rows == front + [last];
      }
      if last.student == student && Counts(t, course, org, last) {
        assert AttendedSessions(t, course, org, rows, student) == AttendedSessions(t, course, org, front,
            student) + {last.session};
      } else {
        assert AttendedSessions(t, course, org, rows, student) == AttendedSessions(t, course, org, front, student);
      }
    }
  }

  /** Nobody attended more sessions than were held. */
  lemma AttendedNeverExceedsHeld(t: Sessions, course: CourseId, org: OrgId, rows: Rows, student: UserId)
    requires Unique(rows)
    ensures AttendedCount(t, course, org, rows, student) <= |ClosedOfCourse(t, course, org)|
  {
    RowsCountSessions(t, course, org, rows, student);
    SubsetCardinality(AttendedSessions(t, course, org, rows, student), ClosedOfCourse(t, course, org));
  }

  /** The grouped count: one entry per student with a row that counts. */
  method CountAttendedByCourse(t: Sessions, course: CourseId, org: OrgId, rows: Rows)
    returns (attended: map<UserId, nat>)
    ensures forall u :: u in attended <==> AttendedCount(t, course, org, rows, u) > 0
    ensures forall u :: u in attended ==> attended[u] == AttendedCount(t, course, org, rows, u)
  {
    attended := map[];
    for i := 0 to |rows|
      invariant forall u :: u in attended <==> AttendedCount(t, course, org, rows[..i], u) > 0
      invariant forall u :: u in attended ==> attended[u] == AttendedCount(t, course, org, rows[..i], u)
    {
      assert rows[..i + 1][..i] == rows[..i];
      var r := rows[i];
      if Counts(t, course, org, r) {
        attended := attended[r.student := (if r.student in attended then attended[r.student] else 0) + 1];
      }
    }
    assert rows[..|rows|] == rows;
  }

  /** A session of the course, over. */
  predicate WasHeld(s: Session, course: CourseId, org: OrgId) {
    s.course == Some(course) && s.org == org && s.status == Closed
  }

  /** Held are the closed sessions of the course, attended those of them in which the
      student has a PRESENT or LATE row. */
  lemma HeldAndAttended(t: Sessions, course: CourseId, org: OrgId, rows: Rows, student: UserId)
    ensures ClosedOfCourse(t, course, org) == set id | id in t && WasHeld(t[id], course, org)
    ensures AttendedSessions(t, course, org, rows, student) ==
      set id | id in t && WasHeld(t[id], course, org) && Attended(rows, student, id)
  {
  }

  /** A student's line of the export: attended, held, and the share, left empty
      while nothing has been held. */
  method ExportLine(t: Sessions, course: CourseId, org: OrgId, rows: Rows, attended: map<UserId, nat>, student: UserId)
    returns (present: nat, held: nat, share: Option<real>)
    requires Unique(rows)
    requires forall u :: u in attended <==> AttendedCount(t, course, org, rows, u) > 0
    requires forall u :: u in attended ==> attended[u] == AttendedCount(t, course, org, rows, u)
    ensures present == |AttendedSessions(t, course, org, rows, student)| && held == |ClosedOfCourse(t, course, org)|
    ensures held == |set id | id in t && WasHeld(t[id], course, org)|
    ensures present == |set id | id in t && WasHeld(t[id], course, org) && Attended(rows, student, id)|
    ensures present <= held
    ensures share.None? <==> held == 0
    ensures share.Some? ==> 0.0 <= share.value <= 1.0 && share.value * held as real == present as real
  {
    RowsCountSessions(t, course, org, rows, student);
    AttendedNeverExceedsHeld(t, course, org, rows, student);
    HeldAndAttended(t, course, org, rows, student);
    present := if student in attended then attended[student] else 0;
    held := |ClosedOfCourse(t, course, org)|;
    if held > 0 {
      return present, held, Some(Share(present, held));
    }
    share := None;
  }
}
