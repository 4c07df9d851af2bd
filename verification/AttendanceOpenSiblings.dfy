/** What the roll call's look at siblings does not prevent: a sibling still open
    can be scanned afterwards. Exactly when it can, and a run that does it. */
module AttendanceOpenSiblings {
  import opened Prelude
  import opened SessionWindow
  import opened Lectures
  import opened AttendanceTables
  import opened AttendanceProtocol
  import opened AttendanceLifecycle
  import opened AttendanceRuns
  import AttendanceWindows
  import Cohort

  /** Somebody on the roll of a lecture who has no row in one of its sessions can
      be recorded there by a scan now exactly when that session is in progress:
      the roll call's own reading of the cohort makes the scan eligible. */
  lemma RollStudentMayScanIff(c: Config, s: State, p: Cohort.Profile, target: SessionId, lecture: LectureId)
    requires Cohort.ReadsNothingFromBlank(c.read)
    requires target in s.db.sessions && s.db.sessions[target].lecture == Some(lecture) && lecture in s.db.lectures
    requires s.db.lectures[lecture].org == s.db.sessions[target].org && Cohort.Validated(s.db.lectures[lecture].address)
    requires ProfileOf(s.db.students, p.userId) == Some(p)
    requires Cohort.OnRoll(c.read, p, s.db.sessions[target].org, s.db.lectures[lecture].address)
    requires !HasRow(s.db.rows, p.userId, target)
    ensures ScanWouldPass(c, s, p.userId, p.org, target) <==>
      StateOf(s.db.sessions[target].status, s.db.sessions[target].startTime, Some(s.db.lectures[lecture].Times()),
          s.clock, c.window) == InProgress
  {
    Cohort.RollIsTheScannableCohort(c.read, p, s.db.sessions[target].org, s.db.lectures[lecture].address);
  }

  /* ------------------- When a scan can still get through ------------------- */

  /** A scan that judges the session open now, or at any later time before its end,
      would be accepted. */
  predicate StillOpen(c: Config, s: State, student: UserId, target: SessionId)
    requires target in s.db.sessions
  {
    var session, lecture := s.db.sessions[target], JoinedLecture(s.db.sessions[target], s.db.lectures);
    && session.status == Active && s.clock <= EndsAt(session.startTime, TimesOf(lecture), c.window)
    && Eligible(c, s.db.students, student, session, lecture)
  }

  /** A scan already under way has only checks left that it passes. */
  ghost predicate UnderWay(c: Config, s: State, student: UserId, target: SessionId) {
    exists pid :: pid in s.procs && Scans(s.procs[pid], student, target) && CanFinish(c, s, s.procs[pid])
  }

  ghost predicate CanStillScan(c: Config, s: State, student: UserId, target: SessionId)
    requires target in s.db.sessions
  {
    !HasRow(s.db.rows, student, target) && (StillOpen(c, s, student, target) || UnderWay(c, s, student, target))
  }

  /** The student has not attended the session and has no way left to. */
  ghost predicate ShutOut(c: Config, s: State, student: UserId, target: SessionId) {
    && Inv(s) && target in s.db.sessions
    && !Attended(s.db.rows, student, target) && !CanStillScan(c, s, student, target)
  }

  /** What a step that edits nothing leaves of a session for later judges. */
  ghost predicate JudgedAlike(s: State, s': State, target: SessionId) {
    && target in s.db.sessions && target in s'.db.sessions && s'.db.students == s.db.students && s.clock <= s'.clock
    && SessionGrows(s.db.sessions[target], s'.db.sessions[target])
    && JoinedLecture(s'.db.sessions[target], s'.db.lectures) == JoinedLecture(s.db.sessions[target], s.db.lectures)
  }

  lemma QuietStepsJudgeAlike(c: Config, s: State, step: Step, target: SessionId)
    requires Enabled(c, s, step) && !IsEdit(step) && target in s.db.sessions
    ensures JudgedAlike(s, Apply(c, s, step), target)
  {
    QuietStepsEditNothing(c, s, step);
    StepGrows(c, s, step);
  }

  lemma QuietStepsEditNothing(c: Config, s: State, step: Step)
    requires Enabled(c, s, step) && !IsEdit(step)
    ensures Apply(c, s, step).db.students == s.db.students && Apply(c, s, step).db.lectures == s.db.lectures
    ensures s.clock <= Apply(c, s, step).clock
  {
  }

  lemma FinishingStaysImpossible(c: Config, s: State, s': State, p: Proc, student: UserId, target: SessionId)
    requires JudgedAlike(s, s', target) && Scans(p, student, target) && !CanFinish(c, s, p)
    ensures !CanFinish(c, s', p)
  {
  }

  lemma NobodyReopens(c: Config, s: State, s': State, student: UserId, target: SessionId)
    requires JudgedAlike(s, s', target) && !StillOpen(c, s, student, target)
    ensures !StillOpen(c, s', student, target)
  {
  }

  /** A scanning process has just begun, or gone one check further. */
  lemma OnlyScansScan(c: Config, s: State, step: Step, student: UserId, target: SessionId)
    requires Enabled(c, s, step) && NextProc(c, s, step).Some? && Scans(NextProc(c, s, step).value, student, target)
    ensures step.BeginScan? || step.LoadForScan? || step.CheckScan? || step.CheckExisting?
  {
  }

  /** The acting request gets no further than it could. */
  lemma ActorIsShutOut(c: Config, s: State, step: Step, student: UserId, target: SessionId)
    requires ShutOut(c, s, student, target) && !HasRow(s.db.rows, student, target) && Enabled(c, s, step)
    requires step.BeginScan? || step.LoadForScan? || step.CheckScan? || step.CheckExisting?
    requires NextProc(c, s, step).Some? && Scans(NextProc(c, s, step).value, student, target)
    ensures !CanFinish(c, s, NextProc(c, s, step).value)
  {
    if !step.BeginScan? {
      assert Scans(s.procs[step.pid], student, target) && !CanFinish(c, s, s.procs[step.pid]);
    }
  }

  lemma NobodyGetsUnderWay(c: Config, s: State, step: Step, student: UserId, target: SessionId)
    requires ShutOut(c, s, student, target) && !HasRow(s.db.rows, student, target) && Enabled(c, s, step)
    requires !IsEdit(step)
    ensures !UnderWay(c, Apply(c, s, step), student, target)
  {
    var s' := Apply(c, s, step);
    QuietStepsJudgeAlike(c, s, step, target);
    forall pid | pid in s'.procs && Scans(s'.procs[pid], student, target) ensures !CanFinish(c, s', s'.procs[pid]) {
      if Actor(step) == Some(pid) {
        OnlyScansScan(c, s, step, student, target);
        ActorIsShutOut(c, s, step, student, target);
      } else {
        assert s'.procs[pid] == s.procs[pid] && !CanFinish(c, s, s.procs[pid]);
      }
      FinishingStaysImpossible(c, s, s', s'.procs[pid], student, target);
    }
  }

  /** The next row written is not this student's attendance of the session. */
  lemma NotAttendedNow(c: Config, s: State, step: Step, student: UserId, target: SessionId)
    requires ShutOut(c, s, student, target) && Enabled(c, s, step)
    ensures !Attended(Apply(c, s, step).db.rows, student, target)
  {
    var s' := Apply(c, s, step);
    if step.WriteAbsences? {
      var p := s.procs[step.pid];
      InsertAbsencesAppends(s.db.rows, p.todo[0].id, p.stage.missing, p.now);
    } else if step.WriteScan? && Scans(s.procs[step.pid], student, target) {
      assert CanFinish(c, s, s.procs[step.pid]);
    }
    forall a | a in s'.db.rows && a.student == student && a.session == target ensures a.status == Absent {
      assert a in s.db.rows ==> a.status == Absent;
    }
  }

  lemma StepKeepsShutOut(c: Config, s: State, step: Step, student: UserId, target: SessionId)
    requires ShutOut(c, s, student, target) && Enabled(c, s, step) && !IsEdit(step)
    ensures ShutOut(c, Apply(c, s, step), student, target)
  {
    StepKeepsInv(c, s, step);
    StepGrows(c, s, step);
    RowsPersist(s.db.rows, Apply(c, s, step).db.rows);
    NotAttendedNow(c, s, step, student, target);
    if !HasRow(s.db.rows, student, target) {
      QuietStepsJudgeAlike(c, s, step, target);
      NobodyReopens(c, s, Apply(c, s, step), student, target);
      NobodyGetsUnderWay(c, s, step, student, target);
    }
  }

  lemma {:induction false} ShutOutForGood(c: Config, s: State, steps: seq<Step>, s': State, student: UserId,
      target: SessionId)
    requires ShutOut(c, s, student, target) && Leads(c, s, steps, s') && NoEdits(steps)
    ensures ShutOut(c, s', student, target)
    decreases steps
  {
    if steps != [] {
      StepKeepsShutOut(c, s, steps[0], student, target);
      assert NoEdits(steps[1..]);
      ShutOutForGood(c, Apply(c, s, steps[0]), steps[1..], s', student, target);
    }
  }

  lemma FreshPid(procs: map<nat, Proc>) returns (pid: nat)
    ensures pid !in procs
  {
    pid := Above(procs.Keys);
  }

  /** Waiting for its start, if that is still to come, makes it scannable. */
  lemma OpenSessionWillPass(c: Config, s: State, student: UserId, target: SessionId) returns (s': State)
    requires target in s.db.sessions && !HasRow(s.db.rows, student, target) && StillOpen(c, s, student, target)
    ensures Reaches(c, s, s') && s'.db == s.db && ScanWouldPass(c, s', student, s.db.sessions[target].org, target)
  {
    var start := s.db.sessions[target].startTime;
    s' := s.(clock := if s.clock < start then start else s.clock);
    AttendanceWindows.EndIsNotBefore(c, s.db, target);
    ReachesBy(c, s, Tick(s'.clock), s');
  }

  lemma OpenSessionCanBeScanned(c: Config, s: State, student: UserId, target: SessionId) returns (s': State)
    requires target in s.db.sessions && !HasRow(s.db.rows, student, target) && StillOpen(c, s, student, target)
    ensures Reaches(c, s, s') && s.db.rows <= s'.db.rows && Attended(s'.db.rows, student, target)
  {
    var s1 := OpenSessionWillPass(c, s, student, target);
    var pid := FreshPid(s1.procs);
    s' := UndisturbedScanWrites(c, s1, pid, student, s.db.sessions[target].org, target);
    ReachesThen(c, s, s1, s');
    assert s'.db.rows[|s.db.rows|].student == student;
  }

  lemma ScanUnderWayCanFinish(c: Config, s: State, pid: nat, student: UserId, target: SessionId) returns (s': State)
    requires pid in s.procs && Scans(s.procs[pid], student, target) && CanFinish(c, s, s.procs[pid])
    requires !HasRow(s.db.rows, student, target)
    ensures Reaches(c, s, s') && s.db.rows <= s'.db.rows && Attended(s'.db.rows, student, target)
  {
    var p := s.procs[pid];
    var startTime;
    match p {
      case ScanAsked(_, org, _, now) =>
        AskedScanWrites(c, s, pid, student, org, target, now);
        startTime := s.db.sessions[target].startTime;
      case ScanLoaded(_, _, session, _, _) => LoadedScanWrites(c, s, pid); startTime := session.startTime;
      case ScanAllowed(_, _, start, _) => AllowedScanWrites(c, s, pid); startTime := start;
      case ScanClear(_, _, start, _) => AllowedScanWrites(c, s, pid); startTime := start;
    }
    s' := Written(c, s, pid, student, target, startTime, p.now);
    assert s'.db.rows[|s.db.rows|].student == student;
  }

  /** A continuation contradicts the roll: ABSENT in one session, PRESENT or LATE in
      the other. */
  ghost predicate CanContradict(c: Config, s: State, student: UserId, marked: SessionId, target: SessionId) {
    exists s' :: Reaches(c, s, s') && Contradicts(s', student, marked, target)
  }

  predicate Contradicts(s: State, student: UserId, marked: SessionId, target: SessionId) {
    MarkedAbsent(s.db.rows, student, marked) && Attended(s.db.rows, student, target)
  }

  /** In every reachable state in which a student is marked absent from one session
      and has not attended another, some continuation without edits leaves them
      ABSENT there and PRESENT or LATE here if and only if they have no row here and
      either this session is open, not past its end and they are eligible, or a scan
      of theirs is already under way that passes its remaining checks. */
  lemma RollIsContradictedIff(c: Config, run: seq<State>, steps: seq<Step>, j: nat, student: UserId, marked: SessionId,
      target: SessionId)
    requires IsRun(c, run, steps) && Start(run[0]) && j < |run| && target in run[j].db.sessions
    requires MarkedAbsent(run[j].db.rows, student, marked) && !Attended(run[j].db.rows, student, target)
    ensures CanContradict(c, run[j], student, marked, target) <==> CanStillScan(c, run[j], student, target)
  {
    var s := run[j];
    RunKeepsInv(c, run, steps, j);
    if CanStillScan(c, s, student, target) {
      ContradictionFollows(c, s, student, marked, target);
    } else if CanContradict(c, s, student, marked, target) {
      var s' :| Reaches(c, s, s') && Contradicts(s', student, marked, target);
      var more :| Leads(c, s, more, s') && NoEdits(more);
      ShutOutForGood(c, s, more, s', student, target);
    }
  }

  lemma ContradictionFollows(c: Config, s: State, student: UserId, marked: SessionId, target: SessionId)
    requires target in s.db.sessions && MarkedAbsent(s.db.rows, student, marked)
    ensures CanStillScan(c, s, student, target) ==> CanContradict(c, s, student, marked, target)
  {
    if CanStillScan(c, s, student, target) {
      var s';
      if StillOpen(c, s, student, target) {
        s' := OpenSessionCanBeScanned(c, s, student, target);
      } else {
        var pid :| pid in s.procs && Scans(s.procs[pid], student, target) && CanFinish(c, s, s.procs[pid]);
        s' := ScanUnderWayCanFinish(c, s, pid, student, target);
      }
      RowsPersist(s.db.rows, s'.db.rows);
      assert Contradicts(s', student, marked, target);
    }
  }

  /* ------------------------------- The witness ----------------------------- */

  /** One lecture, one student on its roll, nothing opened yet. */
  ghost predicate Setting(c: Config, s: State, p: Cohort.Profile, lecture: Lecture) {
    && Cohort.ReadsNothingFromBlank(c.read) && Cohort.Validated(lecture.address) && lecture.isActive
    && Cohort.OnRoll(c.read, p, lecture.org, lecture.address)
    && s == State(Db(map[], [], map[0 := lecture], [p]), 0, map[], map[], map[])
  }

  function Opening(lecture: Lecture): Session {
    OpenedSession(lecture.org, Some(0), Some(lecture.course), 0)
  }

  function Checked(lecture: Lecture): Proc {
    OpenChecked(lecture.org, Some(0), Some(lecture.course))
  }

  lemma BothChecksPass(c: Config, s: State, p: Cohort.Profile, lecture: Lecture) returns (s': State)
    requires Setting(c, s, p, lecture)
    ensures Reaches(c, s, s') && s' == s.(procs := map[1 := Checked(lecture), 2 := Checked(lecture)])
  {
    assert OpenedBetween(s.db.sessions, 0, lecture.org, 0 - OPEN_LATE_MS, OPEN_LATE_MS) == {};
    var s1 := s.(procs := map[1 := Checked(lecture)]);
    s' := s.(procs := map[1 := Checked(lecture), 2 := Checked(lecture)]);
    ReachesBy(c, s, CheckOpen(1, lecture.org, Some(0)), s1);
    ReachesBy(c, s1, CheckOpen(2, lecture.org, Some(0)), s');
    ReachesThen(c, s, s1, s');
  }

  /** Two requests to open attendance race past the duplicate check. */
  lemma TwoSessionsCanBeOpened(c: Config, s: State, p: Cohort.Profile, lecture: Lecture) returns (s': State)
    requires Setting(c, s, p, lecture)
    ensures Reaches(c, s, s')
    ensures s' == s.(db := s.db.(sessions := map[0 := Opening(lecture), 1 := Opening(lecture)]))
  {
    var s2 := BothChecksPass(c, s, p, lecture);
    var s3 := s.(procs := map[2 := Checked(lecture)], db := s.db.(sessions := map[0 := Opening(lecture)]));
    s' := s.(db := s.db.(sessions := map[0 := Opening(lecture), 1 := Opening(lecture)]));
    assert s2.procs - {1} == s3.procs && s3.procs - {2} == map[];
    ReachesBy(c, s2, CreateSession(1, 0), s3);
    ReachesBy(c, s3, CreateSession(2, 1), s');
    ReachesThen(c, s, s2, s3);
    ReachesThen(c, s, s3, s');
  }

  /** The first is closed by hand; the second stays open. */
  lemma FirstIsClosed(c: Config, s: State, lecture: Lecture) returns (s': State)
    requires s.db.sessions == map[0 := Opening(lecture), 1 := Opening(lecture)] && s.procs == map[]
    ensures Reaches(c, s, s')
    ensures s'.db == s.db.(sessions := map[0 := ClosedWith(Opening(lecture), s.clock, Manual), 1 := Opening(lecture)])
    ensures s'.procs == map[] && s'.clock == s.clock
  {
    s' := UndisturbedCloseWrites(c, s, 3, 0);
  }

  /** The roll call reads its batch: session 0 alone. */
  lemma RollCallReads(c: Config, s: State, lecture: Lecture) returns (item: SweepItem)
    requires s.db.lectures == map[0 := lecture]
    requires s.db.sessions == map[0 := ClosedWith(Opening(lecture), s.clock, Manual), 1 := Opening(lecture)]
    ensures item == SweepItem(0, lecture.org, Some(0), 0, Some(lecture))
    ensures IsSweepRead(s.db.sessions, s.db.lectures, [item])
  {
    item := ItemOf(s.db.sessions, s.db.lectures, 0);
    assert AwaitingSweep(s.db.sessions) == {0};
    assert ItemIds([item]) == [0] && SetOf([0]) == {0};
  }

  ghost predicate FirstClosedSecondOpen(s: State, p: Cohort.Profile, lecture: Lecture) {
    s.db == Db(map[0 := ClosedWith(Opening(lecture), s.clock, Manual), 1 := Opening(lecture)], [], map[0 := lecture],
        [p]) && s.procs == map[]
  }

  function RollItem(lecture: Lecture): SweepItem {
    SweepItem(0, lecture.org, Some(0), 0, Some(lecture))
  }

  lemma RollFindsTheStudent(c: Config, s: State, p: Cohort.Profile, lecture: Lecture)
    requires FirstClosedSecondOpen(s, p, lecture) && Cohort.OnRoll(c.read, p, lecture.org, lecture.address)
    ensures RowsAfterRoll(c.read, [p], s.db.sessions, [], RollItem(lecture),
        s.clock) == [Attendance(p.userId, 0, Absent, s.clock)]
  {
    var siblings := SiblingIds(s.db.sessions, RollItem(lecture));
    assert Cohort.Roll(c.read, [p][1..], lecture.org, lecture.address) == [];
    assert StudentIdsBySession([], 0) == {} && AttendedStudentIds([], siblings) == {};
    assert [p.userId][1..] == [];
    assert MissingStudents([p.userId], {}, {}) == [p.userId];
    assert InsertAbsences([], 0, [p.userId], s.clock) == [Attendance(p.userId, 0, Absent, s.clock)];
  }

  /** The roll is called on the first: nobody has scanned anywhere. */
  lemma RollIsCalledOnTheFirst(c: Config, s: State, p: Cohort.Profile, lecture: Lecture) returns (s': State)
    requires FirstClosedSecondOpen(s, p, lecture) && Cohort.OnRoll(c.read, p, lecture.org, lecture.address)
    ensures Reaches(c, s, s')
    ensures s'.db == s.db.(rows := [Attendance(p.userId, 0, Absent, s.clock)]) && 5 !in s'.procs && s'.clock == s.clock
  {
    var item := RollCallReads(c, s, lecture);
    var s1 := s.(procs := map[4 := CallingRoll([item], s.clock, AtStart)]);
    ReachesBy(c, s, ReadClosed(4, [item]), s1);
    s' := UndisturbedRollWrites(c, s1, 4);
    RollFindsTheStudent(c, s, p, lecture);
    ReachesThen(c, s, s1, s');
  }

  lemma OpenSessionPasses(c: Config, s: State, p: Cohort.Profile, lecture: Lecture)
    requires s.db.sessions == map[0 := ClosedWith(Opening(lecture), 0, Manual), 1 := Opening(lecture)]
    requires s.db.lectures == map[0 := lecture] && s.db.students == [p] && s.clock == 0
    requires s.db.rows == [Attendance(p.userId, 0, Absent, 0)]
    requires Cohort.ReadsNothingFromBlank(c.read) && Cohort.Validated(lecture.address)
    requires Cohort.OnRoll(c.read, p, lecture.org, lecture.address)
    ensures ScanWouldPass(c, s, p.userId, lecture.org, 1)
  {
    Cohort.RollIsTheScannableCohort(c.read, p, lecture.org, lecture.address);
    assert ProfileOf([p], p.userId) == Some(p);
    var minutes := LectureDurationMinutes(Some(lecture.Times()), c.window.defaultSessionMinutes);
    assert minutes * MINUTE_MS >= 0;
  }

  lemma ContradictionIsReached(c: Config, s0: State, p: Cohort.Profile, lecture: Lecture) returns (s4: State)
    requires Setting(c, s0, p, lecture)
    ensures Reaches(c, s0, s4) && |s4.db.rows| == 2 && s4.db.rows[0] == Attendance(p.userId, 0, Absent, 0)
    ensures s4.db.rows[1].student == p.userId && s4.db.rows[1].session == 1 && s4.db.rows[1].status != Absent
  {
    var s1 := TwoSessionsCanBeOpened(c, s0, p, lecture);
    var s2 := FirstIsClosed(c, s1, lecture);
    var s3 := RollIsCalledOnTheFirst(c, s2, p, lecture);
    OpenSessionPasses(c, s3, p, lecture);
    s4 := UndisturbedScanWrites(c, s3, 5, p.userId, lecture.org, 1);
    ReachesThen(c, s0, s1, s2);
    ReachesThen(c, s0, s2, s3);
    ReachesThen(c, s0, s3, s4);
  }

  /** For every lecture and every student on its roll there is a run in which the
      student ends up ABSENT in one session of an occurrence and PRESENT or LATE
      in its duplicate: the sweep's guard alone does not rule the harm out. */
  lemma OpenDuplicateContradictsTheRoll(c: Config, p: Cohort.Profile, lecture: Lecture)
    requires Cohort.ReadsNothingFromBlank(c.read) && Cohort.Validated(lecture.address) && lecture.isActive
    requires Cohort.OnRoll(c.read, p, lecture.org, lecture.address)
    ensures exists run: seq<State>, steps: seq<Step> ::
      && IsRun(c, run, steps) && Start(run[0])
      && MarkedAbsent(run[|steps|].db.rows, p.userId, 0) && Attended(run[|steps|].db.rows, p.userId, 1)
  {
    var s0 := State(Db(map[], [], map[0 := lecture], [p]), 0, map[], map[], map[]);
    var s4 := ContradictionIsReached(c, s0, p, lecture);
    var steps :| Leads(c, s0, steps, s4);
    var run := LeadsIsARun(c, s0, steps, s4);
    assert s4.db.rows[0] in s4.db.rows && s4.db.rows[1] in s4.db.rows;
  }
}
