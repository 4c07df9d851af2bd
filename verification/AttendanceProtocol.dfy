/** Every statement-level interleaving of opening, scanning, closing and calling
    the roll. A service call is a process holding what it has read so far; each
    step is one database statement of one process, a process vanishing, an edit
    of the timetable or of the profiles, or the clock moving on. */
module AttendanceProtocol {
  import opened Prelude
  import opened SessionWindow
  import opened Lectures
  import opened AttendanceTables
  import Cohort

  datatype Config = Config(window: WindowConfig, lateAfterMinutes: nat, allowUnlinked: bool,
      read: Cohort.SemesterReader)

  datatype Db = Db(sessions: Sessions, rows: Rows, lectures: map<LectureId, Lecture>, students: seq<Cohort.Profile>)

  /** How far a roll call has got with the session at the head of its list. */
  datatype Stage =
    | AtStart
    | HasCohort(expected: seq<UserId>)
    | HasRecorded(expected: seq<UserId>, recorded: set<UserId>)
    | HasSiblings(expected: seq<UserId>, recorded: set<UserId>, siblings: set<SessionId>)
    | HasMissing(missing: seq<UserId>)
    | RollCalled

  /** A service call in flight, with its local variables. */
  datatype Proc =
    | ScanAsked(student: UserId, org: OrgId, target: SessionId, now: Instant)
    | ScanLoaded(student: UserId, target: SessionId, session: Session, lecture: Option<Lecture>, now: Instant)
    | ScanAllowed(student: UserId, target: SessionId, startTime: Instant, now: Instant)
    | ScanClear(student: UserId, target: SessionId, startTime: Instant, now: Instant)
    | CloseLoaded(target: SessionId)
    | CloseTimed(target: SessionId, at: Instant)
    | ClosingStale(stale: seq<StaleItem>, now: Instant)
    | CallingRoll(todo: seq<SweepItem>, now: Instant, stage: Stage)
    | OpenChecked(org: OrgId, lectureId: Option<LectureId>, course: Option<CourseId>)

  /** `decisions` and `updates` are history only: the instant at which each accepted
      scan was judged, and at which each session was last closed by hand. */
  datatype State = State(
    db: Db, clock: Instant, procs: map<nat, Proc>, decisions: map<(UserId, SessionId), Instant>,
    updates: map<SessionId, Instant>)

  datatype Step =
    | Tick(to: Instant)
    | EditLecture(id: LectureId, lecture: Lecture)
    | EditStudents(students: seq<Cohort.Profile>)
    | Crash(pid: nat)
    | BeginScan(pid: nat, student: UserId, org: OrgId, target: SessionId)
    | LoadForScan(pid: nat)
    | CheckScan(pid: nat)
    | CheckExisting(pid: nat)
    | WriteScan(pid: nat)
    | LoadForClose(pid: nat, target: SessionId)
    | ReadCloseTime(pid: nat)
    | CloseManually(pid: nat)
    | ReadOpen(pid: nat, stale: seq<StaleItem>)
    | CloseNextStale(pid: nat)
    | ReadClosed(pid: nat, todo: seq<SweepItem>)
    | ReadCohort(pid: nat)
    | ReadRecorded(pid: nat)
    | ReadSiblings(pid: nat)
    | ReadEvidence(pid: nat)
    | WriteAbsences(pid: nat)
    | MarkRollCalled(pid: nat)
    | CheckOpen(pid: nat, org: OrgId, lectureId: Option<LectureId>)
    | CreateSession(pid: nat, target: SessionId)

  function ProfileOf(students: seq<Cohort.Profile>, user: UserId): Option<Cohort.Profile> {
    if students == [] then None
    else if students[0].userId == user then Some(students[0])
    else ProfileOf(students[1..], user)
  }

  predicate Eligible(c: Config, students: seq<Cohort.Profile>, student: UserId, session: Session,
      lecture: Option<Lecture>)
  {
    if lecture.None? then c.allowUnlinked
    else lecture.value.org == session.org && Cohort.MayScan(c.read, ProfileOf(students, student), lecture.value.address)
  }

  predicate ScanAccepted(c: Config, students: seq<Cohort.Profile>, p: Proc)
    requires p.ScanLoaded?
  {
    && Eligible(c, students, p.student, p.session, p.lecture)
    && StateOf(p.session.status, p.session.startTime, TimesOf(p.lecture), p.now, c.window) == InProgress
  }

  /** The step is the next statement of a process that exists, or starts one. */
  ghost predicate Enabled(c: Config, s: State, step: Step) {
    match step
    case Tick(to) => to >= s.clock
    case EditLecture(id, lecture) => id in s.db.lectures ==> lecture.org == s.db.lectures[id].org
    case EditStudents(_) => true
    case Crash(pid) => pid in s.procs
    case BeginScan(pid, _, _, _) => pid !in s.procs
    case LoadForScan(pid) => pid in s.procs && s.procs[pid].ScanAsked?
    case CheckScan(pid) => pid in s.procs && s.procs[pid].ScanLoaded?
    case CheckExisting(pid) => pid in s.procs && s.procs[pid].ScanAllowed?
    case WriteScan(pid) => pid in s.procs && s.procs[pid].ScanClear?
    case LoadForClose(pid, _) => pid !in s.procs
    case ReadCloseTime(pid) => pid in s.procs && s.procs[pid].CloseLoaded?
    case CloseManually(pid) => pid in s.procs && s.procs[pid].CloseTimed?
    case ReadOpen(pid, stale) => pid !in s.procs && IsStaleRead(s.db.sessions, s.db.lectures, stale)
    case CloseNextStale(pid) => pid in s.procs && s.procs[pid].ClosingStale? && s.procs[pid].stale != []
    case ReadClosed(pid, todo) => pid !in s.procs && IsSweepRead(s.db.sessions, s.db.lectures, todo)
    case ReadCohort(pid) => AtStage(s, pid) && s.procs[pid].stage.AtStart? && !SkipsToMark(s.procs[pid])
    case ReadRecorded(pid) => AtStage(s, pid) && s.procs[pid].stage.HasCohort?
    case ReadSiblings(pid) => AtStage(s, pid) && s.procs[pid].stage.HasRecorded?
    case ReadEvidence(pid) => AtStage(s, pid) && s.procs[pid].stage.HasSiblings?
    case WriteAbsences(pid) => AtStage(s, pid) && s.procs[pid].stage.HasMissing?
    case MarkRollCalled(pid) => AtStage(s, pid) && (s.procs[pid].stage.RollCalled? || SkipsToMark(s.procs[pid]))
    case CheckOpen(pid, _, _) => pid !in s.procs
    case CreateSession(pid, target) => pid in s.procs && s.procs[pid].OpenChecked? && target !in s.db.sessions
  }

  predicate AtStage(s: State, pid: nat) {
    pid in s.procs && s.procs[pid].CallingRoll? && s.procs[pid].todo != []
  }

  /** A session with no lecture has no roll to call: it is only stamped. */
  predicate SkipsToMark(p: Proc)
    requires p.CallingRoll? && p.todo != []
  {
    p.stage.AtStart? && p.todo[0].lecture.None?
  }

  predicate MayOpen(s: State, org: OrgId, lecture: Option<LectureId>) {
    lecture.None? || (
      && lecture.value in s.db.lectures
      && s.db.lectures[lecture.value].org == org
      && s.db.lectures[lecture.value].isActive
      && OpenedBetween(s.db.sessions, lecture.value, org, s.clock - OPEN_LATE_MS, s.clock + OPEN_LATE_MS) == {})
  }

  /** What the step does to the tables. */
  ghost function NextDb(c: Config, s: State, step: Step): Db
    requires Enabled(c, s, step)
  {
    var db := s.db;
    match step
    case EditLecture(id, lecture) => db.(lectures := db.lectures[id := lecture])
    case EditStudents(students) => db.(students := students)
    case WriteScan(pid) =>
      var p := s.procs[pid];
      var r := InsertScan(db.rows, p.student, p.target, PunctualityOf(p.startTime, p.now, c.lateAfterMinutes), s.clock);
      if r.Some? then db.(rows := r.value) else db
    case CloseManually(pid) =>
      db.(sessions := CloseAnyway(db.sessions, s.procs[pid].target, s.procs[pid].at, Manual))
    case CloseNextStale(pid) =>
      var p := s.procs[pid];
      var item := p.stale[0];
      if IsStale(Active, item.startTime, item.times, p.now, c.window) then
        db.(sessions := CloseIfOpen(db.sessions, item.id, EndsAt(item.startTime, item.times, c.window), AutoStale))
      else db
    case WriteAbsences(pid) =>
      var p := s.procs[pid];
      db.(rows := InsertAbsences(db.rows, p.todo[0].id, p.stage.missing, p.now))
    case MarkRollCalled(pid) =>
      var p := s.procs[pid];
      db.(sessions := MarkSwept(db.sessions, p.todo[0].id, p.now))
    case CreateSession(pid, target) =>
      var p := s.procs[pid];
      db.(sessions := db.sessions[target := OpenedSession(p.org, p.lectureId, p.course, s.clock)])
    case _ => db
  }

  /** What the acting process holds afterwards; None when it has finished. */
  ghost function NextProc(c: Config, s: State, step: Step): Option<Proc>
    requires Enabled(c, s, step)
  {
    var db := s.db;
    match step
    case BeginScan(_, student, org, target) => Some(ScanAsked(student, org, target, s.clock))
    case LoadForScan(pid) =>
      var p := s.procs[pid];
      if p.target in db.sessions && db.sessions[p.target].org == p.org then
        Some(ScanLoaded(p.student, p.target, db.sessions[p.target], JoinedLecture(db.sessions[p.target], db.lectures),
            p.now))
      else None
    case CheckScan(pid) =>
      var p := s.procs[pid];
      if ScanAccepted(c, db.students, p) then Some(ScanAllowed(p.student, p.target, p.session.startTime, p.now))
          else None
    case CheckExisting(pid) =>
      var p := s.procs[pid];
      if HasRow(db.rows, p.student, p.target) then None else Some(ScanClear(p.student, p.target, p.startTime, p.now))
    case LoadForClose(_, target) =>
      if target in db.sessions && db.sessions[target].status == Active then Some(CloseLoaded(target)) else None
    case ReadCloseTime(pid) => Some(CloseTimed(s.procs[pid].target, s.clock))
    case ReadOpen(_, stale) => Some(ClosingStale(stale, s.clock))
    case CloseNextStale(pid) => Some(ClosingStale(s.procs[pid].stale[1..], s.procs[pid].now))
    case ReadClosed(_, todo) => Some(CallingRoll(todo, s.clock, AtStart))
    case ReadCohort(pid) =>
      var p := s.procs[pid];
      if p.todo[0].lecture.value.org != p.todo[0].org then Some(CallingRoll(p.todo[1..], p.now, AtStart))
      else Some(p.(stage := HasCohort(Expected(c.read, db.students, p.todo[0]))))
    case ReadRecorded(pid) =>
      var p := s.procs[pid];
      Some(p.(stage := HasRecorded(p.stage.expected, StudentIdsBySession(db.rows, p.todo[0].id))))
    case ReadSiblings(pid) =>
      var p := s.procs[pid];
      Some(p.(stage := HasSiblings(p.stage.expected, p.stage.recorded, SiblingIds(db.sessions, p.todo[0]))))
    case ReadEvidence(pid) =>
      var p := s.procs[pid];
      Some(p.(stage := HasMissing(
        MissingStudents(p.stage.expected, p.stage.recorded, AttendedStudentIds(db.rows, p.stage.siblings)))))
    case WriteAbsences(pid) => Some(s.procs[pid].(stage := RollCalled))
    case MarkRollCalled(pid) => Some(CallingRoll(s.procs[pid].todo[1..], s.procs[pid].now, AtStart))
    case CheckOpen(_, org, lecture) =>
      if MayOpen(s, org, lecture) then
        Some(OpenChecked(org, lecture, if lecture.None? then None else Some(db.lectures[lecture.value].course)))
      else None
    case _ => None
  }

  function Actor(step: Step): Option<nat> {
    if step.Tick? || step.EditLecture? || step.EditStudents? then None else Some(step.pid)
  }

  ghost function Apply(c: Config, s: State, step: Step): State
    requires Enabled(c, s, step)
  {
    State(
      NextDb(c, s, step),
      if step.Tick? then step.to else s.clock,
      if Actor(step).None? then s.procs
      else if NextProc(c, s, step).None? then s.procs - {step.pid}
      else s.procs[step.pid := NextProc(c, s, step).value],
      if step.WriteScan? && !HasRow(s.db.rows, s.procs[step.pid].student, s.procs[step.pid].target) then
        s.decisions[(s.procs[step.pid].student, s.procs[step.pid].target) := s.procs[step.pid].now]
      else s.decisions,
      if step.CloseManually? then s.updates[s.procs[step.pid].target := s.clock] else s.updates)
  }

  /** Nothing opened yet; any timetable, any profiles. */
  predicate Start(s: State) {
    s.db.sessions == map[] && s.db.rows == [] && s.procs == map[] && s.decisions == map[] && s.updates == map[]
  }

  ghost predicate Follows(c: Config, run: seq<State>, steps: seq<Step>, i: nat)
    requires i < |steps| && |run| == |steps| + 1
  {
    Enabled(c, run[i], steps[i]) && run[i + 1] == Apply(c, run[i], steps[i])
  }

  ghost predicate IsRun(c: Config, run: seq<State>, steps: seq<Step>) {
    |run| == |steps| + 1 && forall i :: 0 <= i < |steps| ==> Follows(c, run, steps, i)
  }

  /* ------------------------------ What grows ------------------------------- */

  ghost predicate SessionGrows(a: Session, b: Session) {
    && a.org == b.org && a.lecture == b.lecture && a.course == b.course && a.startTime == b.startTime
    && (a.status == Closed ==> b.status == Closed)
    && (a.sweptAt.Some? ==> b.sweptAt == a.sweptAt)
  }

  ghost predicate SessionsGrow(a: Sessions, b: Sessions) {
    forall id :: id in a ==> id in b && SessionGrows(a[id], b[id])
  }

  ghost predicate LecturesGrow(a: map<LectureId, Lecture>, b: map<LectureId, Lecture>) {
    forall l :: l in a ==> l in b && a[l].org == b[l].org
  }

  ghost predicate Grows(a: Db, b: Db) {
    SessionsGrow(a.sessions, b.sessions) && a.rows <= b.rows && LecturesGrow(a.lectures, b.lectures)
  }

  lemma GrowsTransitive(a: Db, b: Db, d: Db)
    requires Grows(a, b) && Grows(b, d)
    ensures Grows(a, d)
  {
  }

  lemma StepGrows(c: Config, s: State, step: Step)
    requires Enabled(c, s, step)
    ensures Grows(s.db, Apply(c, s, step).db)
  {
    if step.WriteAbsences? {
      var p := s.procs[step.pid];
      InsertAbsencesAppends(s.db.rows, p.todo[0].id, p.stage.missing, p.now);
    }
  }

  /* ------------------------------ Invariants ------------------------------- */

  ghost predicate ItemOk(db: Db, item: SweepItem) {
    && item.id in db.sessions
    && var s := db.sessions[item.id];
    && s.status == Closed && s.org == item.org && s.lecture == item.lectureId && s.startTime == item.startTime
    && (item.lecture.Some? ==> item.lectureId.Some?)
  }

  /** What a process remembers of the immutable columns is still so. */
  ghost predicate ProcOk(db: Db, p: Proc) {
    match p
    case ScanAsked(_, _, _, _) => true
    case ScanLoaded(_, target, session, _, _) =>
      target in db.sessions && db.sessions[target].startTime == session.startTime
          && db.sessions[target].lecture == session.lecture
    case ScanAllowed(_, target, startTime, _) => target in db.sessions && db.sessions[target].startTime == startTime
    case ScanClear(_, target, startTime, _) => target in db.sessions && db.sessions[target].startTime == startTime
    case CloseLoaded(target) => target in db.sessions
    case CloseTimed(target, _) => target in db.sessions
    case ClosingStale(stale, _) =>
      forall i :: 0 <= i < |stale| ==>
          stale[i].id in db.sessions && db.sessions[stale[i].id].startTime == stale[i].startTime
    case CallingRoll(todo, _, stage) =>
      && (forall i :: 0 <= i < |todo| ==> ItemOk(db, todo[i]))
      && (!stage.AtStart? ==> todo != [] && todo[0].lecture.Some?)
    case OpenChecked(_, lecture, _) => lecture.Some? ==> lecture.value in db.lectures
  }

  lemma ProcOkPersists(a: Db, b: Db, p: Proc)
    requires Grows(a, b) && ProcOk(a, p)
    ensures ProcOk(b, p)
  {
  }

  /** Every row names a session; every ABSENT row a closed session with a lecture. */
  ghost predicate RowsOk(db: Db) {
    forall r :: r in db.rows ==>
      && r.session in db.sessions
      && (r.status == Absent ==> db.sessions[r.session].status == Closed && db.sessions[r.session].lecture.Some?)
  }

  ghost predicate LinksOk(db: Db) {
    forall id :: id in db.sessions && db.sessions[id].lecture.Some? ==> db.sessions[id].lecture.value in db.lectures
  }

  ghost predicate Inv(s: State) {
    && Unique(s.db.rows)
    && RowsOk(s.db)
    && LinksOk(s.db)
    && forall pid :: pid in s.procs ==> ProcOk(s.db, s.procs[pid])
  }

  lemma ActorOk(c: Config, s: State, step: Step)
    requires Inv(s) && Enabled(c, s, step) && Actor(step).Some? && NextProc(c, s, step).Some?
    ensures ProcOk(NextDb(c, s, step), NextProc(c, s, step).value)
  {
    StepGrows(c, s, step);
    if step.pid in s.procs { ProcOkPersists(s.db, NextDb(c, s, step), s.procs[step.pid]); }
    if step.ReadOpen? {
      forall i | 0 <= i < |step.stale|
        ensures step.stale[i].id in s.db.sessions
        ensures s.db.sessions[step.stale[i].id].startTime == step.stale[i].startTime {
        assert step.stale[i] == StaleItemOf(s.db.sessions, s.db.lectures, step.stale[i].id);
      }
    }
    if step.ReadClosed? {
      forall i | 0 <= i < |step.todo| ensures ItemOk(s.db, step.todo[i]) {
        assert step.todo[i] == ItemOf(s.db.sessions, s.db.lectures, step.todo[i].id);
        assert ItemIds(step.todo)[i] in SetOf(ItemIds(step.todo));
      }
    }
  }

  lemma RowsStayOk(c: Config, s: State, step: Step)
    requires Inv(s) && Enabled(c, s, step)
    ensures Unique(NextDb(c, s, step).rows) && RowsOk(NextDb(c, s, step))
  {
    StepGrows(c, s, step);
    var db' := NextDb(c, s, step);
    if step.WriteAbsences? {
      var p := s.procs[step.pid];
      assert ItemOk(s.db, p.todo[0]);
      InsertAbsencesAppends(s.db.rows, p.todo[0].id, p.stage.missing, p.now);
    } else if step.WriteScan? {
      var p := s.procs[step.pid];
      var status := PunctualityOf(p.startTime, p.now, c.lateAfterMinutes);
      assert forall r :: r in db'.rows ==> r in s.db.rows || r == Attendance(p.student, p.target, status, s.clock);
    }
  }

  lemma StepKeepsInv(c: Config, s: State, step: Step)
    requires Inv(s) && Enabled(c, s, step)
    ensures Inv(Apply(c, s, step))
  {
    var s' := Apply(c, s, step);
    StepGrows(c, s, step);
    RowsStayOk(c, s, step);
    forall pid | pid in s'.procs ensures ProcOk(s'.db, s'.procs[pid]) {
      if Actor(step) == Some(pid) {
        ActorOk(c, s, step);
      } else {
        ProcOkPersists(s.db, s'.db, s.procs[pid]);
      }
    }
  }

  lemma {:induction false} RunKeepsInv(c: Config, run: seq<State>, steps: seq<Step>, i: nat)
    requires IsRun(c, run, steps) && Inv(run[0]) && i < |run|
    ensures Inv(run[i])
  {
    if i > 0 {
      RunKeepsInv(c, run, steps, i - 1);
      assert Follows(c, run, steps, i - 1);
      StepKeepsInv(c, run[i - 1], steps[i - 1]);
    }
  }

  lemma {:induction false} RunGrows(c: Config, run: seq<State>, steps: seq<Step>, i: nat, j: nat)
    requires IsRun(c, run, steps) && i <= j < |run|
    ensures Grows(run[i].db, run[j].db)
  {
    if i < j {
      RunGrows(c, run, steps, i, j - 1);
      assert Follows(c, run, steps, j - 1);
      StepGrows(c, run[j - 1], steps[j - 1]);
      GrowsTransitive(run[i].db, run[j - 1].db, run[j].db);
    }
  }

  /** The record is safe under every interleaving, crashes included: one row per
      student and session, rows never rewritten or lost, absences only behind a
      closed lecture session, and CLOSED and the sweep stamp permanent. */
  lemma AttendanceIsSafe(c: Config, run: seq<State>, steps: seq<Step>, i: nat, j: nat)
    requires IsRun(c, run, steps) && Start(run[0]) && i <= j < |run|
    ensures Unique(run[j].db.rows)
    ensures run[i].db.rows <= run[j].db.rows
    ensures forall r :: r in run[j].db.rows && r.status == Absent ==>
      && r.session in run[j].db.sessions
      && run[j].db.sessions[r.session].status == Closed
      && run[j].db.sessions[r.session].lecture.Some?
    ensures forall id :: id in run[i].db.sessions ==>
      && id in run[j].db.sessions
      && (run[i].db.sessions[id].status == Closed ==> run[j].db.sessions[id].status == Closed)
      && (run[i].db.sessions[id].sweptAt.Some? ==> run[j].db.sessions[id].sweptAt == run[i].db.sessions[id].sweptAt)
  {
    RunKeepsInv(c, run, steps, j);
    RunGrows(c, run, steps, i, j);
  }
}
