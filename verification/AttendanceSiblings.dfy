/** Duplicate sessions of one occurrence: what the roll call's look at sibling
    sessions guarantees, and what it does not. */
module AttendanceSiblings {
  import opened Prelude
  import opened SessionWindow
  import opened Lectures
  import opened AttendanceTables
  import opened AttendanceProtocol
  import Cohort

  /* ----------------------- The reads of one roll call ---------------------- */

  /** The item process `pid` is calling the roll of before step k. */
  ghost predicate CallsAt(run: seq<State>, k: nat, pid: nat, item: SweepItem) {
    k < |run| && AtStage(run[k], pid) && run[k].procs[pid].todo[0] == item
  }

  /** At steps r[0], r[1], r[2] and r[3], as many of them as have happened, process
      `pid` read the cohort, the recorded students, the sibling sessions and their
      attendance for `item`; between them and up to state j it did nothing else. */
  ghost predicate Reads(run: seq<State>, steps: seq<Step>, j: nat, pid: nat, item: SweepItem, r: seq<nat>)
    requires |run| == |steps| + 1
  {
    && |r| <= 4 && item.lecture.Some?
    && (forall n :: 0 <= n < |r| ==> ReadAt(run, steps, j, pid, item, n, r[n]))
    && (forall n :: 0 <= n < |r| - 1 ==> r[n] < r[n + 1])
    && (r != [] ==> forall k :: r[0] <= k < j ==> OwnStepIsRead(steps, pid, k, r))
  }

  ghost predicate OwnStepIsRead(steps: seq<Step>, pid: nat, k: nat, r: seq<nat>)
    requires k < |steps|
  {
    Actor(steps[k]) == Some(pid) ==> k in r
  }

  function NthRead(n: nat, pid: nat): Step {
    match n
    case 0 => ReadCohort(pid)
    case 1 => ReadRecorded(pid)
    case 2 => ReadSiblings(pid)
    case _ => ReadEvidence(pid)
  }

  ghost predicate ReadAt(run: seq<State>, steps: seq<Step>, j: nat, pid: nat, item: SweepItem, n: nat, k: nat)
    requires |run| == |steps| + 1
  {
    && k < j <= |steps| && CallsAt(run, k, pid, item)
    && steps[k] == NthRead(n, pid)
  }

  /** What those reads returned, from the tables as they were at those steps. */
  ghost function ExpectedRead(c: Config, run: seq<State>, item: SweepItem, r: seq<nat>): seq<UserId>
    requires |r| > 0 && r[0] < |run| && item.lecture.Some?
  {
    Expected(c.read, run[r[0]].db.students, item)
  }

  ghost function RecordedRead(run: seq<State>, item: SweepItem, r: seq<nat>): set<UserId>
    requires |r| > 1 && r[1] < |run|
  {
    StudentIdsBySession(run[r[1]].db.rows, item.id)
  }

  ghost function SiblingsRead(run: seq<State>, item: SweepItem, r: seq<nat>): set<SessionId>
    requires |r| > 2 && r[2] < |run|
  {
    SiblingIds(run[r[2]].db.sessions, item)
  }

  ghost function EvidenceRead(run: seq<State>, item: SweepItem, r: seq<nat>): set<UserId>
    requires |r| > 3 && r[2] < |run| && r[3] < |run|
  {
    AttendedStudentIds(run[r[3]].db.rows, SiblingsRead(run, item, r))
  }

  /** What the roll call holds is what its own reads returned. */
  ghost predicate Holding(c: Config, run: seq<State>, item: SweepItem, stage: Stage, r: seq<nat>)
    requires item.lecture.Some? && forall n :: 0 <= n < |r| ==> r[n] < |run|
  {
    match stage
    case HasCohort(expected) => |r| == 1 && expected == ExpectedRead(c, run, item, r)
    case HasRecorded(expected, recorded) =>
      |r| == 2 && expected == ExpectedRead(c, run, item, r) && recorded == RecordedRead(run, item, r)
    case HasSiblings(expected, recorded, siblings) =>
      && |r| == 3 && expected == ExpectedRead(c, run, item, r) && recorded == RecordedRead(run, item, r)
      && siblings == SiblingsRead(run, item, r)
    case HasMissing(missing) =>
      && |r| == 4
      && missing == MissingStudents(ExpectedRead(c, run, item, r), RecordedRead(run, item, r),
          EvidenceRead(run, item, r))
    case _ => true
  }

  /** The stages that hold something read. */
  predicate IsReading(p: Proc) {
    p.CallingRoll? && p.todo != [] && !p.stage.AtStart? && !p.stage.RollCalled?
  }

  ghost predicate HasRead(c: Config, run: seq<State>, steps: seq<Step>, j: nat, pid: nat, r: seq<nat>)
    requires |run| == |steps| + 1 && j < |run| && pid in run[j].procs && IsReading(run[j].procs[pid])
  {
    var p := run[j].procs[pid];
    Reads(run, steps, j, pid, p.todo[0], r) && Holding(c, run, p.todo[0], p.stage, r)
  }

  /** Steps of others leave the reads standing. */
  lemma OthersKeepReads(run: seq<State>, steps: seq<Step>, j: nat, pid: nat, item: SweepItem, r: seq<nat>)
    requires |run| == |steps| + 1 && j < |steps| && Actor(steps[j]) != Some(pid)
    requires Reads(run, steps, j, pid, item, r)
    ensures Reads(run, steps, j + 1, pid, item, r)
  {
    forall n | 0 <= n < |r| ensures ReadAt(run, steps, j + 1, pid, item, n, r[n]) {
      assert ReadAt(run, steps, j, pid, item, n, r[n]);
    }
    if r != [] {
      forall k | r[0] <= k < j + 1 ensures OwnStepIsRead(steps, pid, k, r) {
        assert k < j ==> OwnStepIsRead(steps, pid, k, r);
      }
    }
  }

  /** One more read of its own. */
  lemma NextRead(run: seq<State>, steps: seq<Step>, j: nat, pid: nat, item: SweepItem, r: seq<nat>)
    requires |run| == |steps| + 1 && j < |steps| && |r| < 4
    requires Reads(run, steps, j, pid, item, r) && ReadAt(run, steps, j + 1, pid, item, |r|, j)
    ensures Reads(run, steps, j + 1, pid, item, r + [j])
  {
    var r' := r + [j];
    forall n | 0 <= n < |r'| ensures ReadAt(run, steps, j + 1, pid, item, n, r'[n]) {
      if n < |r| { assert ReadAt(run, steps, j, pid, item, n, r[n]); }
    }
    forall k | r'[0] <= k < j + 1 ensures OwnStepIsRead(steps, pid, k, r') {
      if k < j { assert OwnStepIsRead(steps, pid, k, r); }
    }
  }

  /** A process that is reading after its own step made one of the four reads. */
  lemma OwnReadIsRead(c: Config, s: State, step: Step)
    requires Enabled(c, s, step) && Actor(step).Some? && Inv(s)
    requires NextProc(c, s, step).Some? && IsReading(NextProc(c, s, step).value)
    ensures step.ReadCohort? || step.ReadRecorded? || step.ReadSiblings? || step.ReadEvidence?
    ensures AtStage(s, step.pid) && s.procs[step.pid].todo[0] == NextProc(c, s, step).value.todo[0]
    ensures s.procs[step.pid].todo[0].lecture.Some? && (IsReading(s.procs[step.pid]) <==> !step.ReadCohort?)
  {
    if step.pid in s.procs { assert ProcOk(s.db, s.procs[step.pid]); }
  }

  lemma OwnStepKeepsReads(c: Config, run: seq<State>, steps: seq<Step>, j: nat, before: seq<nat>) returns (r: seq<nat>)
    requires |run| == |steps| + 1 && j < |steps| && Follows(c, run, steps, j) && Inv(run[j])
    requires Actor(steps[j]).Some? && NextProc(c, run[j], steps[j]).Some?
    requires IsReading(NextProc(c, run[j], steps[j]).value)
    requires !steps[j].ReadCohort? && steps[j].pid in run[j].procs && IsReading(run[j].procs[steps[j].pid]) ==>
      HasRead(c, run, steps, j, steps[j].pid, before)
    ensures Reads(run, steps, j + 1, steps[j].pid, NextProc(c, run[j], steps[j]).value.todo[0], r)
    ensures Holding(c, run, NextProc(c, run[j], steps[j]).value.todo[0], NextProc(c, run[j], steps[j]).value.stage, r)
  {
    var pid, item := steps[j].pid, NextProc(c, run[j], steps[j]).value.todo[0];
    OwnReadIsRead(c, run[j], steps[j]);
    if steps[j].ReadCohort? {
      NextRead(run, steps, j, pid, item, []);
      r := [] + [j];
    } else {
      assert HasRead(c, run, steps, j, pid, before);
      NextRead(run, steps, j, pid, item, before);
      r := before + [j];
    }
  }

  lemma StepKeepsReads(c: Config, run: seq<State>, steps: seq<Step>, j: nat, pid: nat, before: seq<nat>)
    returns (r: seq<nat>)
    requires |run| == |steps| + 1 && j < |steps| && Follows(c, run, steps, j) && Inv(run[j])
    requires pid in run[j + 1].procs && IsReading(run[j + 1].procs[pid])
    requires pid in run[j].procs && IsReading(run[j].procs[pid]) ==> HasRead(c, run, steps, j, pid, before)
    ensures HasRead(c, run, steps, j + 1, pid, r)
  {
    if Actor(steps[j]) != Some(pid) {
      assert run[j + 1].procs[pid] == run[j].procs[pid];
      OthersKeepReads(run, steps, j, pid, run[j].procs[pid].todo[0], before);
      r := before;
    } else {
      assert NextProc(c, run[j], steps[j]) == Some(run[j + 1].procs[pid]);
      r := OwnStepKeepsReads(c, run, steps, j, before);
    }
  }

  lemma {:induction false} RunHasReads(c: Config, run: seq<State>, steps: seq<Step>, j: nat, pid: nat)
    returns (r: seq<nat>)
    requires IsRun(c, run, steps) && Start(run[0]) && j < |run|
    requires pid in run[j].procs && IsReading(run[j].procs[pid])
    ensures HasRead(c, run, steps, j, pid, r)
  {
    RunKeepsInv(c, run, steps, j - 1);
    var before := [];
    if pid in run[j - 1].procs && IsReading(run[j - 1].procs[pid]) {
      before := RunHasReads(c, run, steps, j - 1, pid);
    }
    assert Follows(c, run, steps, j - 1);
    r := StepKeepsReads(c, run, steps, j - 1, pid, before);
  }

  lemma RowsOnlyGrow(c: Config, run: seq<State>, steps: seq<Step>, i: nat, j: nat)
    requires IsRun(c, run, steps) && i <= j < |run|
    ensures run[i].db.rows <= run[j].db.rows
  {
    RunGrows(c, run, steps, i, j);
  }

  lemma WriteInserts(c: Config, run: seq<State>, steps: seq<Step>, j: nat)
    returns (pid: nat, missing: seq<UserId>, at: Instant)
    requires IsRun(c, run, steps) && j < |steps| && steps[j].WriteAbsences?
    ensures pid == steps[j].pid && AtStage(run[j], pid) && IsReading(run[j].procs[pid])
    ensures run[j].procs[pid].stage == HasMissing(missing)
    ensures run[j + 1].db.rows == InsertAbsences(run[j].db.rows, run[j].procs[pid].todo[0].id, missing, at)
  {
    assert Follows(c, run, steps, j);
    pid := steps[j].pid;
    missing, at := run[j].procs[pid].stage.missing, run[j].procs[pid].now;
  }

  lemma RollCallHasRead(c: Config, run: seq<State>, steps: seq<Step>, j: nat)
    returns (item: SweepItem, r: seq<nat>, at: Instant)
    requires IsRun(c, run, steps) && Start(run[0]) && j < |steps| && steps[j].WriteAbsences?
    ensures CallsAt(run, j, steps[j].pid, item) && |r| == 4 && Reads(run, steps, j, steps[j].pid, item, r)
    ensures run[r[1]].db.rows <= run[j + 1].db.rows
    ensures run[j + 1].db.rows == InsertAbsences(run[j].db.rows, item.id,
      MissingStudents(ExpectedRead(c, run, item, r), RecordedRead(run, item, r), EvidenceRead(run, item, r)), at)
  {
    var pid, missing;
    pid, missing, at := WriteInserts(c, run, steps, j);
    item := run[j].procs[pid].todo[0];
    r := RunHasReads(c, run, steps, j, pid);
    ReadsAreFour(c, run, steps, j, pid, item, missing, r);
    RowsOnlyGrow(c, run, steps, r[1], j + 1);
  }

  lemma ReadsAreFour(c: Config, run: seq<State>, steps: seq<Step>, j: nat, pid: nat, item: SweepItem,
      missing: seq<UserId>, r: seq<nat>)
    requires |run| == |steps| + 1 && j < |run| && Reads(run, steps, j, pid, item, r)
    requires forall n :: 0 <= n < |r| ==> r[n] < |run|
    requires Holding(c, run, item, HasMissing(missing), r)
    ensures |r| == 4 && r[0] < j && r[1] < j && r[2] < j && r[3] < j
    ensures missing == MissingStudents(ExpectedRead(c, run, item, r), RecordedRead(run, item, r),
        EvidenceRead(run, item, r))
  {
    forall n | 0 <= n < |r| ensures r[n] < j {
      assert ReadAt(run, steps, j, pid, item, n, r[n]);
    }
  }

  /** The insert of step j, seen through this roll call's own four reads: ABSENT is
      written exactly for those it read as expected, found without a row in the
      session, found without PRESENT or LATE in the sibling sessions it read, and
      who still have no row; and everybody it read as expected now has a row in the
      session or was seen to have turned up to a sibling. */
  lemma RollCallWritesWhatItRead(c: Config, run: seq<State>, steps: seq<Step>, j: nat)
    returns (item: SweepItem, r: seq<nat>)
    requires IsRun(c, run, steps) && Start(run[0]) && j < |steps| && steps[j].WriteAbsences?
    ensures CallsAt(run, j, steps[j].pid, item) && |r| == 4 && Reads(run, steps, j, steps[j].pid, item, r)
    ensures forall u :: NewlyAbsent(run, j, u, item.id) <==>
      (&& u in ExpectedRead(c, run, item, r) && u !in RecordedRead(run, item, r) && u !in EvidenceRead(run, item, r)
       && !HasRow(run[j].db.rows, u, item.id))
    ensures forall u :: u in ExpectedRead(c, run, item, r) ==>
      HasRow(run[j + 1].db.rows, u, item.id) || u in EvidenceRead(run, item, r)
  {
    var at;
    item, r, at := RollCallHasRead(c, run, steps, j);
    InsertsWhatWasRead(run[j].db.rows, run[r[1]].db.rows, run[j + 1].db.rows, item.id, at,
                       ExpectedRead(c, run, item, r), EvidenceRead(run, item, r));
  }

  ghost predicate NewlyAbsent(run: seq<State>, j: nat, u: UserId, session: SessionId)
    requires j + 1 < |run|
  {
    MarkedAbsent(run[j + 1].db.rows, u, session) && !MarkedAbsent(run[j].db.rows, u, session)
  }

  lemma InsertsWhatWasRead(rows: Rows, earlier: Rows, after: Rows, session: SessionId, at: Instant,
      expected: seq<UserId>, attended: set<UserId>)
    requires earlier <= after
    requires after == InsertAbsences(rows, session,
        MissingStudents(expected, StudentIdsBySession(earlier, session), attended), at)
    ensures forall u :: MarkedAbsent(after, u, session) && !MarkedAbsent(rows, u, session) <==>
      u in expected && u !in StudentIdsBySession(earlier, session) && u !in attended && !HasRow(rows, u, session)
    ensures forall u :: u in expected ==> HasRow(after, u, session) || u in attended
  {
    RollInserts(rows, session, MissingStudents(expected, StudentIdsBySession(earlier, session), attended), at);
    RowsPersist(earlier, after);
    forall u | u in StudentIdsBySession(earlier, session) ensures HasRow(after, u, session) {
      assert HasRow(earlier, u, session);
    }
  }

  lemma RollInserts(rows: Rows, session: SessionId, missing: seq<UserId>, at: Instant)
    ensures
      var after := InsertAbsences(rows, session, missing, at);
      && (forall u :: MarkedAbsent(after, u, session) && !MarkedAbsent(rows, u, session) <==>
          u in missing && !HasRow(rows, u, session))
      && (forall u :: u in missing ==> HasRow(after, u, session))
  {
    var after := InsertAbsences(rows, session, missing, at);
    InsertAbsencesAppends(rows, session, missing, at);
    RowsPersist(rows, after);
    forall u | u in missing && !HasRow(rows, u, session) ensures MarkedAbsent(after, u, session)
        && !MarkedAbsent(rows, u, session) {
      var a :| a in after && a.student == u && a.session == session;
      assert a !in rows;
    }
    forall u | MarkedAbsent(after, u, session) && !MarkedAbsent(rows, u, session) ensures u in missing
        && !HasRow(rows, u, session) {
      var a :| a in after && a.student == u && a.session == session && a.status == Absent;
      assert a !in rows;
    }
  }

  /** A new ABSENT row anywhere in any run: the roll call that wrote it had read its
      sibling sessions at step r[2] and their attendance at step r[3], and its
      student had no PRESENT or LATE in any of them there. */
  lemma AbsentOnlyWithoutEvidence(c: Config, run: seq<State>, steps: seq<Step>, j: nat, a: Attendance)
    returns (item: SweepItem, r: seq<nat>)
    requires IsRun(c, run, steps) && Start(run[0]) && j < |steps|
    requires a in run[j + 1].db.rows && a !in run[j].db.rows && a.status == Absent
    ensures steps[j].WriteAbsences? && CallsAt(run, j, steps[j].pid, item) && item.id == a.session
    ensures |r| == 4 && Reads(run, steps, j, steps[j].pid, item, r)
    ensures a.student in ExpectedRead(c, run, item, r) && a.student !in RecordedRead(run, item, r)
    ensures a.student !in AttendedStudentIds(run[r[3]].db.rows, SiblingIds(run[r[2]].db.sessions, item))
  {
    assert Follows(c, run, steps, j);
    var p := run[j].procs[steps[j].pid];
    InsertAbsencesAppends(run[j].db.rows, p.todo[0].id, p.stage.missing, p.now);
    item, r := RollCallWritesWhatItRead(c, run, steps, j);
    assert !HasRow(run[j].db.rows, a.student, item.id);
    assert NewlyAbsent(run, j, a.student, item.id);
  }

  /* ------------------------ One verdict per occurrence --------------------- */

  /** Closed sessions of one lecture, opened less than twelve hours apart. */
  ghost predicate ClosedGroup(db: Db, group: set<SessionId>, lecture: LectureId, org: OrgId) {
    && (forall g :: g in group ==>
          && g in db.sessions && db.sessions[g].status == Closed
          && db.sessions[g].lecture == Some(lecture) && db.sessions[g].org == org)
    && (forall g, h :: g in group && h in group ==>
          (g in db.sessions && h in db.sessions && db.sessions[g].startTime - db.sessions[h].startTime < 12 * HOUR_MS))
  }

  /** This scan may still write into the session: it has read it while open. */
  predicate ScanInFlight(p: Proc, id: SessionId) {
    match p
    case ScanLoaded(_, target, session, _, _) => target == id && session.status == Active
    case ScanAllowed(_, target, _, _) => target == id
    case ScanClear(_, target, _, _) => target == id
    case _ => false
  }

  ghost predicate NoScanInFlight(s: State, group: set<SessionId>) {
    forall pid, g :: pid in s.procs && g in group ==> !ScanInFlight(s.procs[pid], g)
  }

  /** No student is ABSENT in one session of the group and attended another. */
  ghost predicate OneVerdict(rows: Rows, group: set<SessionId>) {
    forall u, g, h :: g in group && h in group && MarkedAbsent(rows, u, g) ==> !Attended(rows, u, h)
  }

  /** A roll call in flight on the group sees the rest of it, and lists nobody
      who attended any of it. */
  ghost predicate RollSeesGroup(s: State, p: Proc, group: set<SessionId>) {
    p.CallingRoll? && p.todo != [] && p.todo[0].id in group ==>
      match p.stage
      case HasSiblings(_, _, siblings) => group - {p.todo[0].id} <= siblings
      case HasMissing(missing) =>
        forall u, h :: u in missing && h in group - {p.todo[0].id} ==> !Attended(s.db.rows, u, h)
      case _ => true
  }

  ghost predicate GroupInv(s: State, group: set<SessionId>, lecture: LectureId, org: OrgId) {
    && Inv(s)
    && ClosedGroup(s.db, group, lecture, org)
    && NoScanInFlight(s, group)
    && OneVerdict(s.db.rows, group)
    && forall pid :: pid in s.procs ==> RollSeesGroup(s, s.procs[pid], group)
  }

  /** The state in which the first roll call of the group has yet to begin. */
  ghost predicate BeforeFirstRoll(s: State, group: set<SessionId>, lecture: LectureId, org: OrgId) {
    && ClosedGroup(s.db, group, lecture, org)
    && NoScanInFlight(s, group)
    && (forall u, g :: g in group ==> !MarkedAbsent(s.db.rows, u, g))
    && (forall pid :: pid in s.procs && s.procs[pid].CallingRoll? && s.procs[pid].todo != [] ==>
        s.procs[pid].todo[0].id !in group)
  }

  /** Once the group is closed and unscanned, its evidence is final. */
  lemma EvidenceIsFinal(c: Config, s: State, step: Step, group: set<SessionId>, lecture: LectureId, org: OrgId)
    requires GroupInv(s, group, lecture, org) && Enabled(c, s, step)
    ensures forall u, h :: h in group && Attended(Apply(c, s, step).db.rows, u, h) ==> Attended(s.db.rows, u, h)
  {
    var s' := Apply(c, s, step);
    StepGrows(c, s, step);
    if step.WriteAbsences? {
      var p := s.procs[step.pid];
      InsertAbsencesAppends(s.db.rows, p.todo[0].id, p.stage.missing, p.now);
    } else if step.WriteScan? {
      assert ScanInFlight(s.procs[step.pid], s.procs[step.pid].target);
    }
    forall u, h | h in group && Attended(s'.db.rows, u, h) ensures Attended(s.db.rows, u, h) {
      var r :| r in s'.db.rows && r.student == u && r.session == h && r.status != Absent;
      assert r in s.db.rows;
    }
  }

  lemma StepKeepsOneVerdict(c: Config, s: State, step: Step, group: set<SessionId>, lecture: LectureId, org: OrgId)
    requires GroupInv(s, group, lecture, org) && Enabled(c, s, step)
    ensures OneVerdict(Apply(c, s, step).db.rows, group)
  {
    var s' := Apply(c, s, step);
    EvidenceIsFinal(c, s, step, group, lecture, org);
    StepKeepsInv(c, s, step);
    forall u, g, h | g in group && h in group && MarkedAbsent(s'.db.rows, u, g) ensures !Attended(s'.db.rows, u, h) {
      var r :| r in s'.db.rows && r.student == u && r.session == g && r.status == Absent;
      if r in s.db.rows {
        assert MarkedAbsent(s.db.rows, u, g);
      } else {
        assert step.WriteAbsences?;
        var p := s.procs[step.pid];
        InsertAbsencesAppends(s.db.rows, p.todo[0].id, p.stage.missing, p.now);
        assert RollSeesGroup(s, p, group);
      }
    }
  }

  lemma GroupIsInTheWindow(db: Db, group: set<SessionId>, lecture: LectureId, org: OrgId, item: SweepItem)
    requires ClosedGroup(db, group, lecture, org) && item.id in group && ItemOk(db, item)
    ensures group - {item.id} <= SiblingIds(db.sessions, item)
  {
  }

  lemma EvidenceIsSeen(c: Config, s: State, step: Step, group: set<SessionId>, lecture: LectureId, org: OrgId)
    requires GroupInv(s, group, lecture, org) && Enabled(c, s, step) && step.ReadEvidence?
    ensures RollSeesGroup(Apply(c, s, step), NextProc(c, s, step).value, group)
  {
    assert RollSeesGroup(s, s.procs[step.pid], group);
  }

  lemma SiblingsAreSeen(c: Config, s: State, step: Step, group: set<SessionId>, lecture: LectureId, org: OrgId)
    requires GroupInv(s, group, lecture, org) && Enabled(c, s, step) && step.ReadSiblings?
    ensures RollSeesGroup(Apply(c, s, step), NextProc(c, s, step).value, group)
  {
    var p := s.procs[step.pid];
    assert ProcOk(s.db, p);
    if p.todo[0].id in group {
      GroupIsInTheWindow(s.db, group, lecture, org, p.todo[0]);
    }
  }

  lemma OnlyScansScan(c: Config, s: State, step: Step)
    requires Enabled(c, s, step) && NextProc(c, s, step).Some?
    requires !step.LoadForScan? && !step.CheckScan? && !step.CheckExisting?
    ensures forall g :: !ScanInFlight(NextProc(c, s, step).value, g)
  {
  }

  lemma ActorStaysOutOfGroup(c: Config, s: State, step: Step, group: set<SessionId>, lecture: LectureId, org: OrgId)
    requires GroupInv(s, group, lecture, org) && Enabled(c, s, step)
    requires Actor(step).Some? && NextProc(c, s, step).Some?
    ensures forall g :: g in group ==> !ScanInFlight(NextProc(c, s, step).value, g)
  {
    if step.LoadForScan? || step.CheckScan? || step.CheckExisting? {
      assert forall g :: g in group ==> !ScanInFlight(s.procs[step.pid], g);
    } else {
      OnlyScansScan(c, s, step);
    }
  }

  /** No other step leaves a roll call holding siblings or a list of the missing. */
  lemma NothingSeenElsewhere(c: Config, s: State, step: Step)
    requires Enabled(c, s, step) && NextProc(c, s, step).Some? && !step.ReadEvidence? && !step.ReadSiblings?
    ensures NextProc(c, s, step).value.CallingRoll? ==>
      !NextProc(c, s, step).value.stage.HasSiblings? && !NextProc(c, s, step).value.stage.HasMissing?
  {
  }

  lemma ActorSeesGroup(c: Config, s: State, step: Step, group: set<SessionId>, lecture: LectureId, org: OrgId)
    requires GroupInv(s, group, lecture, org) && Enabled(c, s, step)
    requires Actor(step).Some? && NextProc(c, s, step).Some?
    ensures RollSeesGroup(Apply(c, s, step), NextProc(c, s, step).value, group)
    ensures forall g :: g in group ==> !ScanInFlight(NextProc(c, s, step).value, g)
  {
    ActorStaysOutOfGroup(c, s, step, group, lecture, org);
    if step.ReadEvidence? {
      EvidenceIsSeen(c, s, step, group, lecture, org);
    } else if step.ReadSiblings? {
      SiblingsAreSeen(c, s, step, group, lecture, org);
    } else {
      NothingSeenElsewhere(c, s, step);
    }
  }

  lemma StepKeepsGroupInv(c: Config, s: State, step: Step, group: set<SessionId>, lecture: LectureId, org: OrgId)
    requires GroupInv(s, group, lecture, org) && Enabled(c, s, step)
    ensures GroupInv(Apply(c, s, step), group, lecture, org)
  {
    var s' := Apply(c, s, step);
    StepKeepsInv(c, s, step);
    StepGrows(c, s, step);
    StepKeepsOneVerdict(c, s, step, group, lecture, org);
    EvidenceIsFinal(c, s, step, group, lecture, org);
    forall pid | pid in s'.procs
      ensures RollSeesGroup(s', s'.procs[pid], group) && forall g :: g in group ==> !ScanInFlight(s'.procs[pid], g) {
      if Actor(step) == Some(pid) {
        ActorSeesGroup(c, s, step, group, lecture, org);
      } else {
        assert RollSeesGroup(s, s.procs[pid], group);
      }
    }
  }

  /** Among sessions of one lecture opened less than twelve hours apart, all
      closed with no scan in flight before the first roll call, no order and no
      interleaving of roll calls, crashed or not, ever leaves a student ABSENT in
      one of them and PRESENT or LATE in another. */
  lemma {:induction false} NoOrderOfRollCallsContradictsItself(
      c: Config, run: seq<State>, steps: seq<Step>, i: nat, j: nat, group: set<SessionId>, lecture: LectureId,
          org: OrgId)
    requires IsRun(c, run, steps) && Start(run[0]) && i <= j < |run|
    requires BeforeFirstRoll(run[i], group, lecture, org)
    ensures GroupInv(run[j], group, lecture, org)
    ensures OneVerdict(run[j].db.rows, group)
    decreases j
  {
    if i == j {
      RunKeepsInv(c, run, steps, i);
    } else {
      NoOrderOfRollCallsContradictsItself(c, run, steps, i, j - 1, group, lecture, org);
      assert Follows(c, run, steps, j - 1);
      StepKeepsGroupInv(c, run[j - 1], steps[j - 1], group, lecture, org);
    }
  }
}
