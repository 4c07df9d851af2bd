/** Runs that show what the attendance protocol does allow. */
module AttendanceRaces {
  import opened Prelude
  import opened SessionWindow
  import opened Lectures
  import opened AttendanceTables
  import opened AttendanceProtocol
  import opened AttendanceWindows
  import opened AttendanceRuns
  import AttendanceOpenSiblings
  import Cohort
  import StudentExport

  /** A single session 0, opened at instant 0, and nobody at work. */
  ghost predicate Opened(s: State, session: Session) {
    s.db.sessions == map[0 := session] && s.db.rows == [] && s.procs == map[] && s.decisions == map[]
        && s.updates == map[]
    && session.startTime == 0 && session.status == Active && session.sweptAt.None?
  }

  /** Nothing opened yet, these lectures and students on file. */
  function Fresh(lectures: map<LectureId, Lecture>, students: seq<Cohort.Profile>): State {
    State(Db(map[], [], lectures, students), 0, map[], map[], map[])
  }

  lemma SessionIsOpened(c: Config, lectures: map<LectureId, Lecture>, students: seq<Cohort.Profile>, org: OrgId,
      lecture: Option<LectureId>)
    returns (s: State, session: Session)
    requires lecture.Some? ==>
        lecture.value in lectures && lectures[lecture.value].org == org && lectures[lecture.value].isActive
    ensures Reaches(c, Fresh(lectures, students), s) && Opened(s, session) && s.clock == 0
    ensures s.db.lectures == lectures && s.db.students == students
    ensures session == OpenedSession(org, lecture, session.course, 0)
  {
    var s0 := Fresh(lectures, students);
    var course := if lecture.None? then None else Some(lectures[lecture.value].course);
    session := OpenedSession(org, lecture, course, 0);
    var s1 := s0.(procs := map[1 := OpenChecked(org, lecture, course)]);
    s := s0.(db := s0.db.(sessions := map[0 := session]));
    assert lecture.Some? ==> OpenedBetween(map[], lecture.value, org, 0 - OPEN_LATE_MS, OPEN_LATE_MS) == {};
    ReachesBy(c, s0, CheckOpen(1, org, lecture), s1);
    assert s1.procs - {1} == map[];
    ReachesBy(c, s1, CreateSession(1, 0), s);
    ReachesThen(c, s0, s1, s);
  }

  lemma TimePasses(c: Config, s: State, to: Instant) returns (s': State)
    requires s.clock <= to
    ensures Reaches(c, s, s') && s' == s.(clock := to)
  {
    s' := s.(clock := to);
    ReachesBy(c, s, Tick(to), s');
  }

  /* ----------------- A manual close over an automatic one ------------------ */

  lemma StaleReadOfOne(s: State, session: Session) returns (item: StaleItem)
    requires Opened(s, session) && session.lecture.None?
    ensures item == StaleItem(0, 0, None) && IsStaleRead(s.db.sessions, s.db.lectures, [item])
  {
    item := StaleItemOf(s.db.sessions, s.db.lectures, 0);
    assert OpenIds(s.db.sessions) == {0};
    assert StaleIds([item]) == [0] && SetOf([0]) == {0};
  }

  /** The instructor's request loads the open session; the sweep then closes it. */
  lemma SweepOvertakesTheInstructor(c: Config, s: State, session: Session) returns (s': State)
    requires Opened(s, session) && session.lecture.None? && s.clock > StaleAt(0, None, c.window)
    ensures Reaches(c, s, s') && 3 in s'.procs && s'.procs[3] == CloseLoaded(0) && s'.clock == s.clock
    ensures s'.db.sessions == map[0 := ClosedWith(session, EndsAt(0, None, c.window), AutoStale)]
  {
    var item := StaleReadOfOne(s, session);
    var s1 := s.(procs := map[3 := CloseLoaded(0)]);
    var s2 := s.(procs := map[3 := CloseLoaded(0), 4 := ClosingStale([item], s.clock)]);
    s' := Apply(c, s2, CloseNextStale(4));
    ReachesBy(c, s, LoadForClose(3, 0), s1);
    ReachesBy(c, s1, ReadOpen(4, [item]), s2);
    ReachesBy(c, s2, CloseNextStale(4), s');
    ReachesThen(c, s, s1, s2);
    ReachesThen(c, s, s2, s');
  }

  /** Under every configuration some run closes a session as stale, at the end of
      its lecture, and then records that the instructor closed it, later. */
  lemma ManualCloseOverwritesAStaleOne(c: Config)
    ensures exists run: seq<State>, steps: seq<Step> ::
      && IsRun(c, run, steps) && Start(run[0]) && steps != [] && Overwrites(c, run, |steps|)
  {
    var s0 := Fresh(map[], []);
    var s1, session := SessionIsOpened(c, map[], [], 0, None);
    LateIsLater(c.window);
    var s2 := TimePasses(c, s1, StaleAt(0, None, c.window) + 1);
    var s3 := SweepOvertakesTheInstructor(c, s2, session);
    ReachesThen(c, s0, s1, s2);
    ReachesThen(c, s0, s2, s3);
    var s4 := s3.(procs := s3.procs[3 := CloseTimed(0, s3.clock)]);
    ReachesBy(c, s3, ReadCloseTime(3), s4);
    ReachesThen(c, s0, s3, s4);
    var run, steps := ReachedByARun(c, s0, s4, CloseManually(3));
    assert Overwrites(c, run, |steps|);
  }

  lemma LateIsLater(w: WindowConfig)
    ensures 0 <= EndsAt(0, None, w) <= StaleAt(0, None, w)
  {
    assert w.defaultSessionMinutes * MINUTE_MS >= 0 && w.staleGraceMinutes * MINUTE_MS >= 0;
  }

  /** The last step turned session 0 from closed as stale to closed by hand, with a
      later end. */
  ghost predicate Overwrites(c: Config, run: seq<State>, n: nat) {
    && 0 < n < |run| && 0 in run[n - 1].db.sessions && 0 in run[n].db.sessions
    && var before, after := run[n - 1].db.sessions[0], run[n].db.sessions[0];
    && before.status == Closed && Ending(before) == (Some(EndsAt(before.startTime, None, c.window)), Some(AutoStale))
    && after.status == Closed && Ending(after) == (Some(run[n].clock), Some(Manual))
    && EndsAt(before.startTime, None, c.window) < run[n].clock
  }

  /* ------------- A scan judged while a manual close is on its way ----------- */

  /** Session 0 ended before the instant at which an accepted scan of it was judged. */
  ghost predicate ScannedAfterItsEnd(s: State, student: UserId) {
    && 0 in s.db.sessions && s.db.sessions[0].status == Closed && s.db.sessions[0].endTime.Some?
    && Attended(s.db.rows, student, 0) && (student, 0) in s.decisions
    && s.db.sessions[0].endTime.value < s.decisions[(student, 0)]
  }

  /** Nobody has scanned the only session of a lecture with this student on its roll. */
  ghost predicate OneToScan(c: Config, s: State, p: Cohort.Profile, lecture: Lecture, session: Session) {
    && Cohort.ReadsNothingFromBlank(c.read) && Cohort.Validated(lecture.address)
    && Cohort.OnRoll(c.read, p, lecture.org, lecture.address)
    && s.db == Db(map[0 := session], [], map[0 := lecture], [p])
    && session == OpenedSession(lecture.org, Some(0), session.course, 0)
  }

  lemma ScanWillPass(c: Config, s: State, p: Cohort.Profile, lecture: Lecture, session: Session)
    requires OneToScan(c, s, p, lecture, session) && 0 <= s.clock <= Minutes(c, lecture) * MINUTE_MS
    ensures CanFinish(c, s, ScanAsked(p.userId, lecture.org, 0, s.clock))
  {
    Cohort.RollIsTheScannableCohort(c.read, p, lecture.org, lecture.address);
    assert ProfileOf([p], p.userId) == Some(p);
  }

  lemma ScanIsWritten(c: Config, s: State, pid: nat, p: Cohort.Profile, lecture: Lecture, session: Session)
    returns (s': State)
    requires OneToScan(c, s, p, lecture, session) && 0 <= s.clock <= Minutes(c, lecture) * MINUTE_MS && pid !in s.procs
    ensures Reaches(c, s, s') && s'.procs == s.procs && s'.db.sessions == s.db.sessions
    ensures Attended(s'.db.rows, p.userId, 0) && (p.userId, 0) in s'.decisions && s'.decisions[(p.userId, 0)] == s.clock
  {
    var s1 := s.(procs := s.procs[pid := ScanAsked(p.userId, lecture.org, 0, s.clock)]);
    s' := Written(c, s1, pid, p.userId, 0, 0, s.clock);
    assert s'.procs == s.procs;
    ScanWillPass(c, s, p, lecture, session);
    ReachesBy(c, s, BeginScan(pid, p.userId, lecture.org, 0), s1);
    AskedScanWrites(c, s1, pid, p.userId, lecture.org, 0, s.clock);
    ReachesThen(c, s, s1, s');
    assert s'.db.rows[0].student == p.userId;
  }

  lemma CloseIsOvertaken(c: Config, s: State, p: Cohort.Profile, lecture: Lecture, session: Session) returns (s': State)
    requires OneToScan(c, s, p, lecture, session) && s.clock == 0 && s.procs == map[] && Minutes(c, lecture) > 0
    ensures Reaches(c, s, s') && ScannedAfterItsEnd(s', p.userId)
  {
    var s1 := CloseIsTimed(c, s, 3, 0);
    var s2 := TimePasses(c, s1, 1);
    var s3 := ScanIsWritten(c, s2, 5, p, lecture, session);
    s' := TimedCloseWrites(c, s3, 3);
    ReachesThen(c, s, s1, s2);
    ReachesThen(c, s, s2, s3);
    ReachesThen(c, s, s3, s');
  }

  /** For every lecture of a minute or more and every student on its roll some run
      records a scan judged after the end its session is then given: the instructor's
      request had read the clock before, and reached the database after. */
  lemma ScanCanOutliveAManualClose(c: Config, p: Cohort.Profile, lecture: Lecture)
    requires Cohort.ReadsNothingFromBlank(c.read) && Cohort.Validated(lecture.address) && lecture.isActive
    requires Cohort.OnRoll(c.read, p, lecture.org, lecture.address) && Minutes(c, lecture) > 0
    ensures exists run: seq<State>, steps: seq<Step> ::
      IsRun(c, run, steps) && Start(run[0]) && ScannedAfterItsEnd(run[|steps|], p.userId)
  {
    var s0 := Fresh(map[0 := lecture], [p]);
    var s1, session := SessionIsOpened(c, map[0 := lecture], [p], lecture.org, Some(0));
    var s2 := CloseIsOvertaken(c, s1, p, lecture, session);
    ReachesThen(c, s0, s1, s2);
    var steps :| Leads(c, s0, steps, s2) && NoEdits(steps);
    var run := LeadsIsARun(c, s0, steps, s2);
  }

  /* ------------------- An edit that reopens a session ---------------------- */

  /** The last step took session 0 back from PENDING to IN_PROGRESS. */
  ghost predicate MovesBack(c: Config, run: seq<State>, n: nat) {
    && 0 < n < |run| && 0 in run[n - 1].db.sessions && 0 in run[n].db.sessions
    && LiveState(c, run[n - 1], 0) == Pending && LiveState(c, run[n], 0) == InProgress
  }

  function Minutes(c: Config, lecture: Lecture): nat {
    LectureDurationMinutes(Some(lecture.Times()), c.window.defaultSessionMinutes)
  }

  /** Whenever an edit makes an active lecture longer, some run of it takes a session
      whose lecture had ended back into progress. */
  lemma LengtheningCanReopenASession(c: Config, lecture: Lecture, longer: Lecture)
    requires lecture.isActive && longer.org == lecture.org && Minutes(c, lecture) < Minutes(c, longer)
    ensures exists run: seq<State>, steps: seq<Step> ::
      && IsRun(c, run, steps) && Start(run[0]) && steps != [] && MovesBack(c, run, |steps|)
  {
    var s0 := Fresh(map[0 := lecture], []);
    var s1, session := SessionIsOpened(c, map[0 := lecture], [], lecture.org, Some(0));
    var end := Minutes(c, lecture) * MINUTE_MS;
    assert 0 <= end && end + MINUTE_MS <= Minutes(c, longer) * MINUTE_MS;
    var s2 := TimePasses(c, s1, end + 1);
    ReachesThen(c, s0, s1, s2);
    assert LectureEnd(c, s2.db, 0) == end;
    StateMovesBackIff(c, s2, EditLecture(0, longer), 0);
    var run, steps := ReachedByARun(c, s0, s2, EditLecture(0, longer));
    assert MovesBack(c, run, |steps|);
  }

  /* --------------- On a register without having turned up ------------------ */

  function CourseOf(lecture: Lecture): StudentExport.Course {
    StudentExport.Course(lecture.course, lecture.org, [lecture.address])
  }

  /** The student is outside the cohort, has rows in the course, and none of them is
      PRESENT or LATE. */
  ghost predicate OnlyAbsent(c: Config, s: State, lecture: Lecture, u: UserId) {
    && !StudentExport.InCohort(c.read, s.db.students, CourseOf(lecture), 1, u)
    && StudentExport.HasRowInCourse(s.db.sessions, s.db.rows, CourseOf(lecture), u)
    && !StudentExport.TurnedUp(s.db.sessions, s.db.rows, CourseOf(lecture), u)
  }

  /** For every student on a lecture's roll some run marks them absent and then edits
      them out of the cohort: by the exact condition they stay on the register. */
  lemma AbsenteeCanStayOnTheRegister(c: Config, p: Cohort.Profile, lecture: Lecture)
    requires Cohort.ReadsNothingFromBlank(c.read) && Cohort.Validated(lecture.address) && lecture.isActive
    requires Cohort.OnRoll(c.read, p, lecture.org, lecture.address)
    ensures exists run: seq<State>, steps: seq<Step> ::
      IsRun(c, run, steps) && Start(run[0]) && OnlyAbsent(c, run[|steps|], lecture, p.userId)
  {
    var s0 := State(Db(map[], [], map[0 := lecture], [p]), 0, map[], map[], map[]);
    var s1 := AttendanceOpenSiblings.TwoSessionsCanBeOpened(c, s0, p, lecture);
    var s2 := AttendanceOpenSiblings.FirstIsClosed(c, s1, lecture);
    var s3 := AttendanceOpenSiblings.RollIsCalledOnTheFirst(c, s2, p, lecture);
    ReachesThen(c, s0, s1, s2);
    ReachesThen(c, s0, s2, s3);
    var run, steps := ReachedByARun(c, s0, s3, EditStudents([]));
    var s := run[|steps|];
    assert s.db.rows[0] in s.db.rows && StudentExport.OfCourse(s.db.sessions, CourseOf(lecture), s.db.rows[0]);
    assert OnlyAbsent(c, s, lecture, p.userId);
  }
}
