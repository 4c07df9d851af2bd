/** The session and attendance tables, and what each single database statement
    does to them. Attendance rows are only ever appended. */
module AttendanceTables {
  import opened Prelude
  import opened SessionWindow
  import opened Lectures
  import Batches
  import Cohort

  datatype CloseReason = Manual | AutoStale

  datatype Session = Session(
    org: OrgId, lecture: Option<LectureId>, course: Option<CourseId>, startTime: Instant,
    status: SessionStatus, endTime: Option<Instant>, closeReason: Option<CloseReason>,
    sweptAt: Option<Instant>)

  datatype Attendance = Attendance(student: UserId, session: SessionId, status: AttendanceStatus, scanTime: Instant)

  type Sessions = map<SessionId, Session>
  type Rows = seq<Attendance>

  const BATCH_SIZE := 100

  /* --------------------------- Session statements -------------------------- */

  function OpenedSession(org: OrgId, lecture: Option<LectureId>, course: Option<CourseId>, at: Instant): Session {
    Session(org, lecture, course, at, Active, None, None, None)
  }

  function ClosedWith(s: Session, endTime: Instant, reason: CloseReason): Session {
    s.(status := Closed, endTime := Some(endTime), closeReason := Some(reason))
  }

  /** The sweep's close: re-tests the status in the same statement. */
  function CloseIfOpen(t: Sessions, id: SessionId, endTime: Instant, reason: CloseReason): Sessions {
    if id in t && t[id].status == Active then t[id := ClosedWith(t[id], endTime, reason)] else t
  }

  /** The manual close: unconditional on the status. */
  function CloseAnyway(t: Sessions, id: SessionId, endTime: Instant, reason: CloseReason): Sessions {
    if id in t then t[id := ClosedWith(t[id], endTime, reason)] else t
  }

  function MarkSwept(t: Sessions, id: SessionId, at: Instant): Sessions {
    if id in t && t[id].sweptAt.None? then t[id := t[id].(sweptAt := Some(at))] else t
  }

  function OpenIds(t: Sessions): set<SessionId> {
    set id | id in t && t[id].status == Active
  }

  function AwaitingSweep(t: Sessions): set<SessionId> {
    set id | id in t && t[id].status == Closed && t[id].sweptAt.None?
  }

  function EndTimes(t: Sessions): map<SessionId, Option<Instant>> {
    map id | id in t :: t[id].endTime
  }

  function StartTimes(t: Sessions): map<SessionId, Option<Instant>> {
    map id | id in t :: Some(t[id].startTime)
  }

  /** One lecture's sessions opened in [from, to). */
  function OpenedBetween(t: Sessions, lecture: LectureId, org: OrgId, from: Instant, to: Instant): set<SessionId> {
    set id | id in t && t[id].lecture == Some(lecture) && t[id].org == org && from <= t[id].startTime < to
  }

  /** What findClosedAwaitingSweep selects of one row. */
  datatype SweepItem = SweepItem(id: SessionId, org: OrgId, lectureId: Option<LectureId>, startTime: Instant,
      lecture: Option<Lecture>)

  function JoinedLecture(s: Session, lectures: map<LectureId, Lecture>): Option<Lecture> {
    if s.lecture.Some? && s.lecture.value in lectures then Some(lectures[s.lecture.value]) else None
  }

  function ItemOf(t: Sessions, lectures: map<LectureId, Lecture>, id: SessionId): SweepItem
    requires id in t
  {
    SweepItem(id, t[id].org, t[id].lecture, t[id].startTime, JoinedLecture(t[id], lectures))
  }

  function ItemIds(items: seq<SweepItem>): seq<SessionId> {
    seq(|items|, i requires 0 <= i < |items| => items[i].id)
  }

  ghost predicate IsSweepRead(t: Sessions, lectures: map<LectureId, Lecture>, items: seq<SweepItem>) {
    && Batches.IsBatch(ItemIds(items), AwaitingSweep(t), EndTimes(t), BATCH_SIZE)
    && forall i :: 0 <= i < |items| ==> items[i].id in t && items[i] == ItemOf(t, lectures, items[i].id)
  }

  /** What findOpenForStaleCheck selects of one row: always an ACTIVE one. */
  datatype StaleItem = StaleItem(id: SessionId, startTime: Instant, times: Option<SlotTimes>)

  function StaleItemOf(t: Sessions, lectures: map<LectureId, Lecture>, id: SessionId): StaleItem
    requires id in t
  {
    StaleItem(id, t[id].startTime, TimesOf(JoinedLecture(t[id], lectures)))
  }

  function StaleIds(items: seq<StaleItem>): seq<SessionId> {
    seq(|items|, i requires 0 <= i < |items| => items[i].id)
  }

  ghost predicate IsStaleRead(t: Sessions, lectures: map<LectureId, Lecture>, items: seq<StaleItem>) {
    && Batches.IsBatch(StaleIds(items), OpenIds(t), StartTimes(t), BATCH_SIZE)
    && forall i :: 0 <= i < |items| ==> items[i].id in t && items[i] == StaleItemOf(t, lectures, items[i].id)
  }

  /** A session lasts as long as its lecture; without one, as is configured. */
  ghost predicate LastsFor(s: Session, lectures: map<LectureId, Lecture>, defaultMinutes: nat, minutes: int) {
    if s.lecture.Some? && s.lecture.value in lectures then Lasts(lectures[s.lecture.value], defaultMinutes, minutes)
    else minutes == defaultMinutes
  }

  lemma SessionLength(s: Session, lectures: map<LectureId, Lecture>, w: WindowConfig, minutes: int)
    ensures LastsFor(s, lectures, w.defaultSessionMinutes, minutes) <==>
      minutes == LectureDurationMinutes(TimesOf(JoinedLecture(s, lectures)), w.defaultSessionMinutes)
  {
    if s.lecture.Some? && s.lecture.value in lectures {
      DurationIsItsLength(lectures[s.lecture.value], w.defaultSessionMinutes, minutes);
    }
  }

  lemma EndIsTheLecturesEnd(s: Session, lectures: map<LectureId, Lecture>, w: WindowConfig, minutes: int)
    requires LastsFor(s, lectures, w.defaultSessionMinutes, minutes)
    ensures EndsAt(s.startTime, TimesOf(JoinedLecture(s, lectures)), w) == s.startTime + minutes * MINUTE_MS
    ensures StaleAt(s.startTime, TimesOf(JoinedLecture(s, lectures)), w) ==
      s.startTime + (minutes + w.staleGraceMinutes) * MINUTE_MS
  {
    SessionLength(s, lectures, w, minutes);
  }

  /* ------------------------- Attendance statements ------------------------- */

  predicate HasRow(rows: Rows, student: UserId, session: SessionId) {
    exists r :: r in rows && r.student == student && r.session == session
  }

  /** Evidence that somebody turned up: PRESENT or LATE. */
  predicate Attended(rows: Rows, student: UserId, session: SessionId) {
    exists r :: r in rows && r.student == student && r.session == session && r.status != Absent
  }

  predicate MarkedAbsent(rows: Rows, student: UserId, session: SessionId) {
    exists r :: r in rows && r.student == student && r.session == session && r.status == Absent
  }

  /** A scan's insert; None is the unique constraint refusing it. */
  function InsertScan(rows: Rows, student: UserId, session: SessionId, status: AttendanceStatus,
      at: Instant): Option<Rows>
  {
    if HasRow(rows, student, session) then None
    else Some(rows + [Attendance(student, session, status, at)])
  }

  /** createMany with skipDuplicates. */
  function InsertAbsences(rows: Rows, session: SessionId, students: seq<UserId>, at: Instant): Rows
    decreases students
  {
    if students == [] then rows
    else
      var next := if HasRow(rows, students[0], session) then rows
                  else rows + [Attendance(students[0], session, Absent, at)];
      InsertAbsences(next, session, students[1..], at)
  }

  function StudentIdsBySession(rows: Rows, session: SessionId): set<UserId> {
    set r | r in rows && r.session == session :: r.student
  }

  function AttendedStudentIds(rows: Rows, sessions: set<SessionId>): set<UserId> {
    set r | r in rows && r.session in sessions && r.status != Absent :: r.student
  }

  ghost predicate Unique(rows: Rows) {
    forall i, j :: 0 <= i < j < |rows| ==> rows[i].student != rows[j].student || rows[i].session != rows[j].session
  }

  /** Everything the insert of absences does: it appends, only absences, only for
      listed students without a row, and leaves every listed student with one. */
  lemma {:induction false} InsertAbsencesAppends(rows: Rows, session: SessionId, students: seq<UserId>, at: Instant)
    ensures rows <= InsertAbsences(rows, session, students, at)
    ensures forall a :: a in InsertAbsences(rows, session, students, at) && a !in rows ==>
      && a == Attendance(a.student, session, Absent, at)
      && a.student in students && !HasRow(rows, a.student, session)
    ensures forall u :: u in students ==> HasRow(InsertAbsences(rows, session, students, at), u, session)
    ensures Unique(rows) ==> Unique(InsertAbsences(rows, session, students, at))
    decreases students
  {
    if students != [] {
      var added := Attendance(students[0], session, Absent, at);
      var next := if HasRow(rows, students[0], session) then rows else rows + [added];
      InsertAbsencesAppends(next, session, students[1..], at);
      var all := InsertAbsences(next, session, students[1..], at);
      assert rows <= next <= all;
      RowsPersist(rows, next);
      RowsPersist(next, all);
      assert HasRow(next, students[0], session) by {
        if !HasRow(rows, students[0], session) { assert added in next; }
      }
      assert forall u :: u in students ==> u == students[0] || u in students[1..];
    }
  }

  lemma RowsPersist(rows: Rows, later: Rows)
    requires rows <= later
    ensures forall a :: a in rows ==> a in later
    ensures forall u, s :: HasRow(rows, u, s) ==> HasRow(later, u, s)
    ensures forall u, s :: Attended(rows, u, s) ==> Attended(later, u, s)
  {
  }

  /* -------------------------------- The roll ------------------------------- */

  /** The sessions a roll call looks to for evidence. */
  function SiblingIds(t: Sessions, item: SweepItem): set<SessionId> {
    if item.lectureId.None? then {}
    else OpenedBetween(t, item.lectureId.value, item.org, item.startTime - OPEN_LATE_MS, item.startTime + OPEN_LATE_MS)
         - {item.id}
  }

  function MissingStudents(expected: seq<UserId>, recorded: set<UserId>, attended: set<UserId>): (missing: seq<UserId>)
    ensures forall u :: u in missing <==> u in expected && u !in recorded && u !in attended
  {
    if expected == [] then []
    else
      var rest := MissingStudents(expected[1..], recorded, attended);
      if expected[0] in recorded || expected[0] in attended then rest else [expected[0]] + rest
  }

  function Expected(read: Cohort.SemesterReader, students: seq<Cohort.Profile>, item: SweepItem): seq<UserId>
    requires item.lecture.Some?
  {
    Cohort.Roll(read, students, item.org, item.lecture.value.address)
  }
}
