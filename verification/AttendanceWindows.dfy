/** Time along a run of the attendance protocol: a session's state only moves
    forward, and no scan is accepted outside its lecture or after its end. Both
    read the live lecture times, so both ask that those are not edited. */
module AttendanceWindows {
  import opened Prelude
  import opened SessionWindow
  import opened Lectures
  import opened AttendanceTables
  import opened AttendanceProtocol

  /** An edit may change anything about an existing lecture but its times. */
  predicate KeepsTimes(s: State, step: Step) {
    step.EditLecture? && step.id in s.db.lectures ==> step.lecture.Times() == s.db.lectures[step.id].Times()
  }

  ghost predicate TimesFixed(run: seq<State>, steps: seq<Step>)
    requires |run| == |steps| + 1
  {
    forall i :: 0 <= i < |steps| ==> KeepsTimes(run[i], steps[i])
  }

  function LiveTimes(db: Db, id: SessionId): Option<SlotTimes>
    requires id in db.sessions
  {
    TimesOf(JoinedLecture(db.sessions[id], db.lectures))
  }

  function LectureEnd(c: Config, db: Db, id: SessionId): Instant
    requires id in db.sessions
  {
    EndsAt(db.sessions[id].startTime, LiveTimes(db, id), c.window)
  }

  /** Judged at `now`, a scan of this session lies in the lecture, not after the
      session's recorded end and not in the future. */
  ghost predicate InWindow(c: Config, s: State, id: SessionId, now: Instant) {
    && id in s.db.sessions
    && s.db.sessions[id].startTime <= now <= LectureEnd(c, s.db, id)
    && now <= s.clock
    && EndedBy(s, id, now)
  }

  /** The session had not ended at `now`: its recorded end is no earlier, or it was
      closed by hand with a clock reading older than the update that carried it, and
      `now` is no later than that update. */
  ghost predicate EndedBy(s: State, id: SessionId, now: Instant)
    requires id in s.db.sessions
  {
    var session := s.db.sessions[id];
    session.status == Closed ==>
      && session.endTime.Some?
      && (now <= session.endTime.value
          || (session.closeReason == Some(Manual) && id in s.updates && now <= s.updates[id]))
  }

  ghost predicate ProcInWindow(c: Config, s: State, p: Proc) {
    match p
    case ScanAsked(_, _, _, now) => now <= s.clock
    case ScanLoaded(_, target, session, lecture, now) =>
      && target in s.db.sessions
      && now <= s.clock
      && TimesOf(lecture) == LiveTimes(s.db, target)
      && (StateOf(session.status, session.startTime, TimesOf(lecture), now, c.window) == InProgress ==>
            EndedBy(s, target, now))
    case ScanAllowed(_, target, _, now) => InWindow(c, s, target, now)
    case ScanClear(_, target, _, now) => InWindow(c, s, target, now)
    case ClosingStale(stale, _) =>
      forall i :: 0 <= i < |stale| ==> stale[i].id in s.db.sessions && stale[i].times == LiveTimes(s.db, stale[i].id)
    case _ => true
  }

  /** Every PRESENT or LATE row was judged at a recorded instant, by the rule. */
  ghost predicate RowDecided(c: Config, s: State, r: Attendance) {
    r.status != Absent ==>
      && (r.student, r.session) in s.decisions
      && r.session in s.db.sessions
      && r.status == PunctualityOf(s.db.sessions[r.session].startTime, s.decisions[(r.student, r.session)],
          c.lateAfterMinutes)
  }

  ghost predicate WindowInv(c: Config, s: State) {
    && (forall k :: k in s.decisions ==> InWindow(c, s, k.1, s.decisions[k]) && HasRow(s.db.rows, k.0, k.1))
    && (forall pid :: pid in s.procs ==> ProcInWindow(c, s, s.procs[pid]))
    && (forall r :: r in s.db.rows ==> RowDecided(c, s, r))
    && (forall id :: id in s.db.sessions && s.db.sessions[id].status == Closed ==> s.db.sessions[id].endTime.Some?)
  }

  lemma LiveTimesKept(c: Config, s: State, step: Step, id: SessionId)
    requires Inv(s) && Enabled(c, s, step) && KeepsTimes(s, step) && id in s.db.sessions
    ensures id in Apply(c, s, step).db.sessions
    ensures LiveTimes(Apply(c, s, step).db, id) == LiveTimes(s.db, id)
  {
    StepGrows(c, s, step);
    EditsKeepTimes(c, s, step);
    TimesFollowTheLecture(s.db, Apply(c, s, step).db, id);
  }

  /** Every lecture is still there, with the times it had. */
  ghost predicate SameTimes(a: map<LectureId, Lecture>, b: map<LectureId, Lecture>) {
    forall l :: l in a ==> l in b && b[l].Times() == a[l].Times()
  }

  lemma EditsKeepTimes(c: Config, s: State, step: Step)
    requires Enabled(c, s, step) && KeepsTimes(s, step)
    ensures SameTimes(s.db.lectures, Apply(c, s, step).db.lectures)
  {
  }

  lemma TimesFollowTheLecture(a: Db, b: Db, id: SessionId)
    requires id in a.sessions && id in b.sessions && b.sessions[id].lecture == a.sessions[id].lecture
    requires LinksOk(a) && SameTimes(a.lectures, b.lectures)
    ensures LiveTimes(b, id) == LiveTimes(a, id)
  {
  }

  /** Neither way of closing ends a session before an instant already accepted, but
      for the time a manual close takes to reach the database. */
  lemma InWindowKept(c: Config, s: State, step: Step, id: SessionId, now: Instant)
    requires Inv(s) && WindowInv(c, s) && Enabled(c, s, step) && KeepsTimes(s, step)
    requires InWindow(c, s, id, now)
    ensures InWindow(c, Apply(c, s, step), id, now)
  {
    StepGrows(c, s, step);
    LiveTimesKept(c, s, step, id);
    if step.CloseNextStale? {
      StaleCloseSparesTheAccepted(c, s, step.pid, id, now);
    } else if step.CloseManually? {
      ManualCloseSparesTheAccepted(c, s, step.pid, id, now);
    } else {
      OthersLeaveTheEnding(c, s, step, id);
    }
  }

  lemma OthersLeaveTheEnding(c: Config, s: State, step: Step, id: SessionId)
    requires Enabled(c, s, step) && id in s.db.sessions && !step.CloseNextStale? && !step.CloseManually?
    ensures
      var s' := Apply(c, s, step);
      && id in s'.db.sessions && s'.updates == s.updates && s'.db.sessions[id].status == s.db.sessions[id].status
      && Ending(s'.db.sessions[id]) == Ending(s.db.sessions[id])
  {
  }

  lemma StaleCloseSparesTheAccepted(c: Config, s: State, pid: nat, id: SessionId, now: Instant)
    requires Inv(s) && WindowInv(c, s) && Enabled(c, s, CloseNextStale(pid)) && InWindow(c, s, id, now)
    ensures id in Apply(c, s, CloseNextStale(pid)).db.sessions && EndedBy(Apply(c, s, CloseNextStale(pid)), id, now)
  {
    assert ProcInWindow(c, s, s.procs[pid]) && ProcOk(s.db, s.procs[pid]);
  }

  lemma ManualCloseSparesTheAccepted(c: Config, s: State, pid: nat, id: SessionId, now: Instant)
    requires Enabled(c, s, CloseManually(pid)) && InWindow(c, s, id, now)
    ensures id in Apply(c, s, CloseManually(pid)).db.sessions && EndedBy(Apply(c, s, CloseManually(pid)), id, now)
  {
  }

  lemma ProcInWindowKept(c: Config, s: State, step: Step, p: Proc)
    requires Inv(s) && WindowInv(c, s) && Enabled(c, s, step) && KeepsTimes(s, step)
    requires ProcOk(s.db, p) && ProcInWindow(c, s, p)
    ensures ProcInWindow(c, Apply(c, s, step), p)
  {
    StepGrows(c, s, step);
    match p
    case ScanAsked(_, _, _, _) =>
    case ScanLoaded(_, target, session, lecture, now) =>
      LiveTimesKept(c, s, step, target);
      if StateOf(session.status, session.startTime, TimesOf(lecture), now, c.window) == InProgress {
        InWindowKept(c, s, step, target, now);
      }
    case ScanAllowed(_, target, _, now) => InWindowKept(c, s, step, target, now);
    case ScanClear(_, target, _, now) => InWindowKept(c, s, step, target, now);
    case ClosingStale(stale, _) =>
      forall i | 0 <= i < |stale|
        ensures stale[i].id in Apply(c, s, step).db.sessions
        ensures stale[i].times == LiveTimes(Apply(c, s, step).db, stale[i].id) {
        LiveTimesKept(c, s, step, stale[i].id);
      }
    case _ =>
  }

  lemma ActorInWindow(c: Config, s: State, step: Step)
    requires Inv(s) && WindowInv(c, s) && Enabled(c, s, step) && KeepsTimes(s, step)
    requires Actor(step).Some? && NextProc(c, s, step).Some?
    ensures ProcInWindow(c, Apply(c, s, step), NextProc(c, s, step).value)
  {
    if step.ReadOpen? {
      StepGrows(c, s, step);
      forall i | 0 <= i < |step.stale|
        ensures step.stale[i].id in s.db.sessions && step.stale[i].times == LiveTimes(s.db, step.stale[i].id) {
        assert step.stale[i] == StaleItemOf(s.db.sessions, s.db.lectures, step.stale[i].id);
      }
    } else if step.LoadForScan? || step.CheckScan? || step.CheckExisting? {
      ScanStaysInWindow(c, s, step);
    } else if step.CloseNextStale? {
      ProcInWindowKept(c, s, step, s.procs[step.pid]);
    }
  }

  /** A scan's checks let through only what is in the window. */
  lemma ScanStaysInWindow(c: Config, s: State, step: Step)
    requires Inv(s) && WindowInv(c, s) && Enabled(c, s, step) && NextProc(c, s, step).Some?
    requires step.LoadForScan? || step.CheckScan? || step.CheckExisting?
    ensures ProcInWindow(c, Apply(c, s, step), NextProc(c, s, step).value)
  {
    assert ProcInWindow(c, s, s.procs[step.pid]) && ProcOk(s.db, s.procs[step.pid]);
  }

  lemma RowsStayDecided(c: Config, s: State, step: Step, r: Attendance)
    requires Inv(s) && WindowInv(c, s) && Enabled(c, s, step) && r in Apply(c, s, step).db.rows
    ensures RowDecided(c, Apply(c, s, step), r)
  {
    StepGrows(c, s, step);
    if step.WriteAbsences? {
      var p := s.procs[step.pid];
      InsertAbsencesAppends(s.db.rows, p.todo[0].id, p.stage.missing, p.now);
    }
    if r in s.db.rows {
      assert RowDecided(c, s, r);
      if step.WriteScan? && !HasRow(s.db.rows, s.procs[step.pid].student, s.procs[step.pid].target) {
        assert (r.student, r.session) != (s.procs[step.pid].student, s.procs[step.pid].target);
      }
    } else if step.WriteScan? {
      assert ProcOk(s.db, s.procs[step.pid]);
    }
  }

  lemma DecisionsKept(c: Config, s: State, step: Step, k: (UserId, SessionId))
    requires Inv(s) && WindowInv(c, s) && Enabled(c, s, step) && KeepsTimes(s, step)
    requires k in Apply(c, s, step).decisions
    ensures InWindow(c, Apply(c, s, step), k.1, Apply(c, s, step).decisions[k])
    ensures HasRow(Apply(c, s, step).db.rows, k.0, k.1)
  {
    StepGrows(c, s, step);
    RowsPersist(s.db.rows, Apply(c, s, step).db.rows);
    if k in s.decisions && Apply(c, s, step).decisions[k] == s.decisions[k] {
      InWindowKept(c, s, step, k.1, s.decisions[k]);
    } else {
      var p := s.procs[step.pid];
      assert ProcInWindow(c, s, p);
      InWindowKept(c, s, step, p.target, p.now);
      assert Apply(c, s, step).db.rows[|s.db.rows|].student == p.student;
    }
  }

  lemma StepKeepsWindowInv(c: Config, s: State, step: Step)
    requires Inv(s) && WindowInv(c, s) && Enabled(c, s, step) && KeepsTimes(s, step)
    ensures WindowInv(c, Apply(c, s, step))
  {
    var s' := Apply(c, s, step);
    forall k | k in s'.decisions ensures InWindow(c, s', k.1, s'.decisions[k]) && HasRow(s'.db.rows, k.0, k.1) {
      DecisionsKept(c, s, step, k);
    }
    forall pid | pid in s'.procs ensures ProcInWindow(c, s', s'.procs[pid]) {
      if Actor(step) == Some(pid) { ActorInWindow(c, s, step); } else { ProcInWindowKept(c, s, step, s.procs[pid]); }
    }
    forall r | r in s'.db.rows ensures RowDecided(c, s', r) {
      RowsStayDecided(c, s, step, r);
    }
  }

  lemma {:induction false} RunKeepsWindowInv(c: Config, run: seq<State>, steps: seq<Step>, i: nat)
    requires IsRun(c, run, steps) && TimesFixed(run, steps) && Inv(run[0]) && WindowInv(c, run[0]) && i < |run|
    ensures Inv(run[i]) && WindowInv(c, run[i])
  {
    RunKeepsInv(c, run, steps, i);
    if i > 0 {
      RunKeepsWindowInv(c, run, steps, i - 1);
      assert Follows(c, run, steps, i - 1);
      StepKeepsWindowInv(c, run[i - 1], steps[i - 1]);
    }
  }

  /** Every PRESENT or LATE row was judged inside its lecture and not after the
      end its session finally carries, whoever closed it and however the closes
      raced, unless it was judged while a manual close, its clock already read, was
      on its way to the database; and it is LATE exactly when judged past the
      threshold. */
  lemma AcceptedScansLieInTheLecture(c: Config, run: seq<State>, steps: seq<Step>, j: nat, r: Attendance)
    requires IsRun(c, run, steps) && TimesFixed(run, steps) && Start(run[0]) && j < |run|
    requires r in run[j].db.rows && r.status != Absent
    ensures r.session in run[j].db.sessions && (r.student, r.session) in run[j].decisions
    ensures
      var decided := run[j].decisions[(r.student, r.session)];
      var session := run[j].db.sessions[r.session];
      && session.startTime <= decided <= LectureEnd(c, run[j].db, r.session)
      && (session.status == Closed ==> session.endTime.Some?)
      && (session.status == Closed && session.endTime.value < decided ==>
            session.closeReason == Some(Manual) && r.session in run[j].updates && decided <= run[j].updates[r.session])
      && (r.status == Late <==> decided - session.startTime > c.lateAfterMinutes * MINUTE_MS)
  {
    RunKeepsWindowInv(c, run, steps, j);
  }

  lemma StepKeepsState(c: Config, s: State, step: Step, id: SessionId)
    requires Inv(s) && Enabled(c, s, step) && KeepsTimes(s, step) && id in s.db.sessions
    ensures id in Apply(c, s, step).db.sessions
    ensures Rank(LiveState(c, s, id)) <= Rank(LiveState(c, Apply(c, s, step), id))
  {
    StepGrows(c, s, step);
    LiveTimesKept(c, s, step, id);
  }

  function LiveState(c: Config, s: State, id: SessionId): LifecycleState
    requires id in s.db.sessions
  {
    StateOf(s.db.sessions[id].status, s.db.sessions[id].startTime, LiveTimes(s.db, id), s.clock, c.window)
  }

  /** UPCOMING, IN_PROGRESS, PENDING, RECORDED: never backwards. */
  lemma {:induction false} SessionStateOnlyMovesForward(c: Config, run: seq<State>, steps: seq<Step>, i: nat, j: nat,
      id: SessionId)
    requires IsRun(c, run, steps) && TimesFixed(run, steps) && Start(run[0]) && i <= j < |run|
    requires id in run[i].db.sessions
    ensures id in run[j].db.sessions
    ensures Rank(LiveState(c, run[i], id)) <= Rank(LiveState(c, run[j], id))
  {
    if i < j {
      SessionStateOnlyMovesForward(c, run, steps, i, j - 1, id);
      RunKeepsInv(c, run, steps, j - 1);
      assert Follows(c, run, steps, j - 1);
      StepKeepsState(c, run[j - 1], steps[j - 1], id);
    }
  }

  /** How a session ended: the recorded end and why. */
  function Ending(session: Session): (Option<Instant>, Option<CloseReason>) {
    (session.endTime, session.closeReason)
  }

  /** How a closed session ended is rewritten exactly by a manual close of it that
      had loaded it while open, at another time or against another reason: no
      worker, scan or roll call can. */
  lemma EndingIsRewrittenIff(c: Config, s: State, step: Step, id: SessionId)
    requires Enabled(c, s, step) && id in s.db.sessions && s.db.sessions[id].status == Closed
    ensures id in Apply(c, s, step).db.sessions
    ensures Ending(Apply(c, s, step).db.sessions[id]) != Ending(s.db.sessions[id]) <==>
      (&& step.CloseManually? && s.procs[step.pid].target == id
       && Ending(s.db.sessions[id]) != (Some(s.procs[step.pid].at), Some(Manual)))
    ensures step.CloseManually? && s.procs[step.pid].target == id ==>
      Ending(Apply(c, s, step).db.sessions[id]) == (Some(s.procs[step.pid].at), Some(Manual))
  {
    StepGrows(c, s, step);
  }

  /** The step edits this open session's lecture, past whose end it is, so that its
      end is now still to come. */
  predicate Reopens(c: Config, s: State, step: Step, id: SessionId)
    requires id in s.db.sessions
  {
    && step.EditLecture? && s.db.sessions[id].status == Active && s.db.sessions[id].lecture == Some(step.id)
    && LectureEnd(c, s.db, id) < s.clock <= EndsAt(s.db.sessions[id].startTime, Some(step.lecture.Times()), c.window)
  }

  /** A session's state moves backwards in exactly one way: an edit of its lecture's
      times takes an open session from PENDING to IN_PROGRESS. */
  lemma StateMovesBackIff(c: Config, s: State, step: Step, id: SessionId)
    requires Enabled(c, s, step) && id in s.db.sessions
    ensures id in Apply(c, s, step).db.sessions
    ensures Rank(LiveState(c, Apply(c, s, step), id)) < Rank(LiveState(c, s, id)) <==> Reopens(c, s, step, id)
    ensures LiveState(c, s, id) == Pending && LiveState(c, Apply(c, s, step), id) == InProgress <==>
        Reopens(c, s, step, id)
  {
    StepGrows(c, s, step);
    EndIsNotBefore(c, s.db, id);
    if !step.EditLecture? || s.db.sessions[id].lecture != Some(step.id) {
      OtherStepsKeepTimes(c, s, step, id);
    }
  }

  lemma EndIsNotBefore(c: Config, db: Db, id: SessionId)
    requires id in db.sessions
    ensures LectureEnd(c, db, id) >= db.sessions[id].startTime
  {
    assert LectureDurationMinutes(LiveTimes(db, id), c.window.defaultSessionMinutes) * MINUTE_MS >= 0;
  }

  lemma OtherStepsKeepTimes(c: Config, s: State, step: Step, id: SessionId)
    requires Enabled(c, s, step) && id in s.db.sessions
    requires !step.EditLecture? || s.db.sessions[id].lecture != Some(step.id)
    ensures id in Apply(c, s, step).db.sessions
    ensures LiveTimes(Apply(c, s, step).db, id) == LiveTimes(s.db, id)
  {
    StepGrows(c, s, step);
  }
}
