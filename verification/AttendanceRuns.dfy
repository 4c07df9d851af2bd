/** What a request does in the protocol when nothing else comes in between: the
    scan and the roll call, statement by statement, have exactly the effect the
    services state for them. */
module AttendanceRuns {
  import opened Prelude
  import opened SessionWindow
  import opened Lectures
  import opened AttendanceTables
  import opened AttendanceProtocol
  import opened AttendanceLifecycle
  import Cohort

  /** These steps, one after the other, lead from s to s'. */
  ghost predicate Leads(c: Config, s: State, steps: seq<Step>, s': State)
    decreases steps
  {
    if steps == [] then s' == s
    else Enabled(c, s, steps[0]) && Leads(c, Apply(c, s, steps[0]), steps[1..], s')
  }

  lemma {:induction false} LeadsOn(c: Config, s: State, steps: seq<Step>, mid: State, more: seq<Step>, s': State)
    requires Leads(c, s, steps, mid) && Leads(c, mid, more, s')
    ensures Leads(c, s, steps + more, s')
    decreases steps
  {
    if steps == [] {
      assert steps + more == more;
    } else {
      LeadsOn(c, Apply(c, s, steps[0]), steps[1..], mid, more, s');
      assert (steps + more)[1..] == steps[1..] + more;
    }
  }

  lemma {:induction false} LeadsIsARun(c: Config, s: State, steps: seq<Step>, s': State) returns (run: seq<State>)
    requires Leads(c, s, steps, s')
    ensures IsRun(c, run, steps) && run[0] == s && run[|steps|] == s'
    decreases steps
  {
    if steps == [] {
      run := [s];
    } else {
      var rest := LeadsIsARun(c, Apply(c, s, steps[0]), steps[1..], s');
      run := [s] + rest;
      forall i | 0 <= i < |steps| ensures Follows(c, run, steps, i) {
        if i > 0 { assert Follows(c, rest, steps[1..], i - 1); }
      }
    }
  }

  predicate IsEdit(step: Step) {
    step.EditLecture? || step.EditStudents?
  }

  ghost predicate NoEdits(steps: seq<Step>) {
    forall i :: 0 <= i < |steps| ==> !IsEdit(steps[i])
  }

  /** Some sequence of steps leads there without editing timetable or profiles. */
  ghost predicate Reaches(c: Config, s: State, s': State) {
    exists steps :: Leads(c, s, steps, s') && NoEdits(steps)
  }

  lemma ReachesBy(c: Config, s: State, step: Step, s': State)
    requires Enabled(c, s, step) && !IsEdit(step) && s' == Apply(c, s, step)
    ensures Reaches(c, s, s')
  {
    assert [step][1..] == [];
    assert Leads(c, s', [], s');
    assert Leads(c, s, [step], s') && NoEdits([step]);
  }

  lemma ReachesThen(c: Config, s: State, mid: State, s': State)
    requires Reaches(c, s, mid) && Reaches(c, mid, s')
    ensures Reaches(c, s, s')
  {
    var steps :| Leads(c, s, steps, mid) && NoEdits(steps);
    var more :| Leads(c, mid, more, s') && NoEdits(more);
    LeadsOn(c, s, steps, mid, more, s');
    assert NoEdits(steps + more);
  }

  /** What is reached from a start is reached by a run, and one more step extends it. */
  lemma ReachedByARun(c: Config, s: State, mid: State, step: Step) returns (run: seq<State>, steps: seq<Step>)
    requires Reaches(c, s, mid) && Enabled(c, mid, step)
    ensures IsRun(c, run, steps) && run[0] == s && steps != []
    ensures steps[|steps| - 1] == step && run[|steps| - 1] == mid && run[|steps|] == Apply(c, mid, step)
  {
    var before :| Leads(c, s, before, mid) && NoEdits(before);
    var front := LeadsIsARun(c, s, before, mid);
    run, steps := front + [Apply(c, mid, step)], before + [step];
    forall i | 0 <= i < |steps| ensures Follows(c, run, steps, i) {
      if i < |before| { assert Follows(c, front, before, i); }
    }
  }

  /* --------------------------- An undisturbed scan ------------------------- */

  /** How far this process has got with scanning a student into a session. */
  predicate Scans(p: Proc, student: UserId, target: SessionId) {
    match p
    case ScanAsked(u, _, id, _) => u == student && id == target
    case ScanLoaded(u, id, _, _, _) => u == student && id == target
    case ScanAllowed(u, id, _, _) => u == student && id == target
    case ScanClear(u, id, _, _) => u == student && id == target
    case _ => false
  }

  /** A scan of now, having loaded the session as it is. */
  function Loaded(s: State, student: UserId, target: SessionId, now: Instant): Proc
    requires target in s.db.sessions
  {
    ScanLoaded(student, target, s.db.sessions[target], JoinedLecture(s.db.sessions[target], s.db.lectures), now)
  }

  /** The rest of the scan's checks, against this state. */
  predicate CanFinish(c: Config, s: State, p: Proc) {
    match p
    case ScanAsked(u, org, id, now) =>
      id in s.db.sessions && s.db.sessions[id].org == org && ScanAccepted(c, s.db.students, Loaded(s, u, id, now))
    case ScanLoaded(_, _, _, _, _) => ScanAccepted(c, s.db.students, p)
    case ScanAllowed(_, _, _, _) => true
    case ScanClear(_, _, _, _) => true
    case _ => false
  }

  /** A scan started now would pass every check but the one for an earlier row. */
  predicate ScanWouldPass(c: Config, s: State, student: UserId, org: OrgId, target: SessionId) {
    CanFinish(c, s, ScanAsked(student, org, target, s.clock)) && !HasRow(s.db.rows, student, target)
  }

  /** The state once this process has written its row and gone. */
  ghost function Written(c: Config, s: State, pid: nat, student: UserId, target: SessionId, startTime: Instant,
      now: Instant): State
  {
    s.(db := s.db.(rows := s.db.rows + [Attendance(student, target, PunctualityOf(startTime, now, c.lateAfterMinutes),
        s.clock)]),
       procs := s.procs - {pid}, decisions := s.decisions[(student, target) := now])
  }

  lemma AllowedScanWrites(c: Config, s: State, pid: nat)
    requires pid in s.procs && (s.procs[pid].ScanAllowed? || s.procs[pid].ScanClear?)
    requires !HasRow(s.db.rows, s.procs[pid].student, s.procs[pid].target)
    ensures var p := s.procs[pid]; Reaches(c, s, Written(c, s, pid, p.student, p.target, p.startTime, p.now))
  {
    var p := s.procs[pid];
    var s' := Written(c, s, pid, p.student, p.target, p.startTime, p.now);
    if p.ScanClear? {
      ReachesBy(c, s, WriteScan(pid), s');
    } else {
      var s1 := s.(procs := s.procs[pid := ScanClear(p.student, p.target, p.startTime, p.now)]);
      assert s1.procs - {pid} == s.procs - {pid};
      ReachesBy(c, s, CheckExisting(pid), s1);
      ReachesBy(c, s1, WriteScan(pid), s');
      ReachesThen(c, s, s1, s');
    }
  }

  lemma LoadedScanWrites(c: Config, s: State, pid: nat)
    requires pid in s.procs && s.procs[pid].ScanLoaded? && ScanAccepted(c, s.db.students, s.procs[pid])
    requires !HasRow(s.db.rows, s.procs[pid].student, s.procs[pid].target)
    ensures var p := s.procs[pid]; Reaches(c, s, Written(c, s, pid, p.student, p.target, p.session.startTime, p.now))
  {
    var p := s.procs[pid];
    var s1 := s.(procs := s.procs[pid := ScanAllowed(p.student, p.target, p.session.startTime, p.now)]);
    assert s1.procs - {pid} == s.procs - {pid};
    ReachesBy(c, s, CheckScan(pid), s1);
    AllowedScanWrites(c, s1, pid);
    ReachesThen(c, s, s1, Written(c, s, pid, p.student, p.target, p.session.startTime, p.now));
  }

  lemma AskedScanWrites(c: Config, s: State, pid: nat, student: UserId, org: OrgId, target: SessionId, now: Instant)
    requires pid in s.procs && s.procs[pid] == ScanAsked(student, org, target, now)
    requires target in s.db.sessions && s.db.sessions[target].org == org && !HasRow(s.db.rows, student, target)
    ensures CanFinish(c, s, s.procs[pid]) ==>
      Reaches(c, s, Written(c, s, pid, student, target, s.db.sessions[target].startTime, now))
  {
    if CanFinish(c, s, s.procs[pid]) {
      var s1 := s.(procs := s.procs[pid := Loaded(s, student, target, now)]);
      assert s1.procs - {pid} == s.procs - {pid};
      ReachesBy(c, s, LoadForScan(pid), s1);
      LoadedScanWrites(c, s1, pid);
      ReachesThen(c, s, s1, Written(c, s, pid, student, target, s.db.sessions[target].startTime, now));
    }
  }

  /** Left alone, a scan that passes its checks writes exactly its row. */
  lemma UndisturbedScanWrites(c: Config, s: State, pid: nat, student: UserId, org: OrgId, target: SessionId)
    returns (s': State)
    requires pid !in s.procs && ScanWouldPass(c, s, student, org, target)
    ensures Reaches(c, s, s') && s'.procs == s.procs && s'.clock == s.clock
    ensures
      var status := PunctualityOf(s.db.sessions[target].startTime, s.clock, c.lateAfterMinutes);
      s'.db == s.db.(rows := s.db.rows + [Attendance(student, target, status, s.clock)])
  {
    var s1 := s.(procs := s.procs[pid := ScanAsked(student, org, target, s.clock)]);
    s' := Written(c, s1, pid, student, target, s.db.sessions[target].startTime, s.clock);
    assert s'.procs == s.procs;
    ReachesBy(c, s, BeginScan(pid, student, org, target), s1);
    AskedScanWrites(c, s1, pid, student, org, target, s.clock);
    ReachesThen(c, s, s1, s');
  }

  /* -------------------------- An undisturbed close ------------------------- */

  lemma TimedCloseWrites(c: Config, s: State, pid: nat) returns (s': State)
    requires pid in s.procs && s.procs[pid].CloseTimed?
    ensures Reaches(c, s, s') && s'.procs == s.procs - {pid} && s'.clock == s.clock && s'.decisions == s.decisions
    ensures s'.db == s.db.(sessions := CloseAnyway(s.db.sessions, s.procs[pid].target, s.procs[pid].at, Manual))
  {
    s' := Apply(c, s, CloseManually(pid));
    ReachesBy(c, s, CloseManually(pid), s');
  }

  /** The request has loaded the open session and read the clock. */
  lemma CloseIsTimed(c: Config, s: State, pid: nat, target: SessionId) returns (s': State)
    requires pid !in s.procs && target in s.db.sessions && s.db.sessions[target].status == Active
    ensures Reaches(c, s, s') && s' == s.(procs := s.procs[pid := CloseTimed(target, s.clock)])
  {
    var s1 := s.(procs := s.procs[pid := CloseLoaded(target)]);
    s' := s.(procs := s.procs[pid := CloseTimed(target, s.clock)]);
    ReachesBy(c, s, LoadForClose(pid, target), s1);
    ReachesBy(c, s1, ReadCloseTime(pid), s');
    ReachesThen(c, s, s1, s');
  }

  /** Left alone, a manual close ends the open session at the present instant. */
  lemma UndisturbedCloseWrites(c: Config, s: State, pid: nat, target: SessionId) returns (s': State)
    requires pid !in s.procs && target in s.db.sessions && s.db.sessions[target].status == Active
    ensures Reaches(c, s, s') && s'.procs == s.procs && s'.clock == s.clock && s'.decisions == s.decisions
    ensures s'.db == s.db.(sessions := s.db.sessions[target := ClosedWith(s.db.sessions[target], s.clock, Manual)])
  {
    var s1 := CloseIsTimed(c, s, pid, target);
    s' := TimedCloseWrites(c, s1, pid);
    assert s1.procs - {pid} == s.procs;
    ReachesThen(c, s, s1, s');
  }

  /* --------------------------- An undisturbed roll call -------------------- */

  /** The process is about to call the roll of the head of its list. */
  ghost predicate AboutToCall(s: State, pid: nat) {
    AtStage(s, pid) && s.procs[pid].stage.AtStart?
  }

  ghost function At(s: State, pid: nat, stage: Stage): State
    requires AtStage(s, pid)
  {
    s.(procs := s.procs[pid := s.procs[pid].(stage := stage)])
  }

  lemma CohortAndRowsAreRead(c: Config, s: State, pid: nat) returns (s': State)
    requires AboutToCall(s, pid) && Callable(s.procs[pid].todo[0])
    ensures
      var item := s.procs[pid].todo[0];
      Reaches(c, s, s') && s' == At(s, pid,
          HasRecorded(Expected(c.read, s.db.students, item), StudentIdsBySession(s.db.rows, item.id)))
  {
    var item := s.procs[pid].todo[0];
    var expected := Expected(c.read, s.db.students, item);
    var s1 := At(s, pid, HasCohort(expected));
    s' := At(s, pid, HasRecorded(expected, StudentIdsBySession(s.db.rows, item.id)));
    ReachesBy(c, s, ReadCohort(pid), s1);
    ReachesBy(c, s1, ReadRecorded(pid), s');
    ReachesThen(c, s, s1, s');
  }

  lemma EvidenceIsRead(c: Config, s: State, pid: nat, expected: seq<UserId>, recorded: set<UserId>) returns (s': State)
    requires AtStage(s, pid) && s.procs[pid].stage == HasRecorded(expected, recorded)
    ensures
      var siblings := SiblingIds(s.db.sessions, s.procs[pid].todo[0]);
      Reaches(c, s, s') && s' == At(s, pid,
          HasMissing(MissingStudents(expected, recorded, AttendedStudentIds(s.db.rows, siblings))))
  {
    var siblings := SiblingIds(s.db.sessions, s.procs[pid].todo[0]);
    var s1 := At(s, pid, HasSiblings(expected, recorded, siblings));
    s' := At(s, pid, HasMissing(MissingStudents(expected, recorded, AttendedStudentIds(s.db.rows, siblings))));
    ReachesBy(c, s, ReadSiblings(pid), s1);
    ReachesBy(c, s1, ReadEvidence(pid), s');
    ReachesThen(c, s, s1, s');
  }

  /** Up to and including the insert: the absences are the ones the service
      writes. A worker dying here leaves the session unstamped. */
  lemma UndisturbedRollWrites(c: Config, s: State, pid: nat) returns (s': State)
    requires AboutToCall(s, pid) && Callable(s.procs[pid].todo[0])
    ensures
      var item := s.procs[pid].todo[0];
      && Reaches(c, s, s')
      && s' == At(s, pid, RollCalled).(db := s.db.(rows := RowsAfterRoll(c.read, s.db.students, s.db.sessions,
          s.db.rows, item, s.procs[pid].now)))
  {
    var item := s.procs[pid].todo[0];
    var s1 := CohortAndRowsAreRead(c, s, pid);
    var s2 := EvidenceIsRead(c, s1, pid, s1.procs[pid].stage.expected, s1.procs[pid].stage.recorded);
    s' := At(s, pid, RollCalled).(db := s.db.(rows := RowsAfterRoll(c.read, s.db.students, s.db.sessions, s.db.rows,
        item, s.procs[pid].now)));
    ReachesBy(c, s2, WriteAbsences(pid), s');
    ReachesThen(c, s, s1, s2);
    ReachesThen(c, s, s2, s');
  }

  /** Left alone, the roll call of one session, linked or not, has the effect on
      both tables that the service's method states. */
  lemma UndisturbedRollCall(c: Config, s: State, pid: nat) returns (s': State)
    requires AboutToCall(s, pid)
    ensures
      var p := s.procs[pid];
      && Reaches(c, s, s')
      && s'.db.rows == RowsAfterRoll(c.read, s.db.students, s.db.sessions, s.db.rows, p.todo[0], p.now)
      && s'.db.sessions == TableAfterRoll(s.db.sessions, p.todo[0], p.now)
      && s'.procs == s.procs[pid := CallingRoll(p.todo[1..], p.now, AtStart)]
  {
    var p := s.procs[pid];
    if Callable(p.todo[0]) {
      var s1 := UndisturbedRollWrites(c, s, pid);
      s' := Apply(c, s1, MarkRollCalled(pid));
      ReachesBy(c, s1, MarkRollCalled(pid), s');
      ReachesThen(c, s, s1, s');
    } else {
      var step := if p.todo[0].lecture.None? then MarkRollCalled(pid) else ReadCohort(pid);
      s' := Apply(c, s, step);
      ReachesBy(c, s, step, s');
    }
  }
}
