/** The attendance worker: closing stale sessions, then calling the roll. The
    service's loops, what a pass does to the tables, and why crashes, order and
    batching make no difference to who is marked absent. */
module AttendanceLifecycle {
  import opened Prelude
  import opened SessionWindow
  import opened Lectures
  import opened AttendanceTables
  import opened AttendanceRepositories
  import Batches
  import Cohort

  /* --------------------------- One roll call, as a function ---------------- */

  /** The lecture exists and belongs to the session's organization. */
  predicate Callable(item: SweepItem) {
    item.lecture.Some? && item.lecture.value.org == item.org
  }

  /** Whom a roll call started now would mark absent. */
  function Absentees(read: Cohort.SemesterReader, students: seq<Cohort.Profile>, t: Sessions, rows: Rows,
      item: SweepItem): seq<UserId>
    requires item.lecture.Some?
  {
    MissingStudents(Expected(read, students, item), StudentIdsBySession(rows, item.id),
                    AttendedStudentIds(rows, SiblingIds(t, item)))
  }

  function RowsAfterRoll(read: Cohort.SemesterReader, students: seq<Cohort.Profile>, t: Sessions, rows: Rows,
      item: SweepItem, at: Instant): Rows
  {
    if Callable(item) then InsertAbsences(rows, item.id, Absentees(read, students, t, rows, item), at) else rows
  }

  function TableAfterRoll(t: Sessions, item: SweepItem, at: Instant): Sessions {
    if item.lecture.None? || Callable(item) then MarkSwept(t, item.id, at) else t
  }

  function TableAfterRolls(t: Sessions, items: seq<SweepItem>, at: Instant): Sessions
    decreases items
  {
    if items == [] then t else TableAfterRolls(TableAfterRoll(t, items[0], at), items[1..], at)
  }

  function RowsAfterRolls(read: Cohort.SemesterReader, students: seq<Cohort.Profile>, t: Sessions, rows: Rows,
      items: seq<SweepItem>, at: Instant): Rows
    decreases items
  {
    if items == [] then rows
    else RowsAfterRolls(read, students, TableAfterRoll(t, items[0], at),
        RowsAfterRoll(read, students, t, rows, items[0], at), items[1..], at)
  }

  /** After a roll call every expected student has a row in this session or turned
      up to a sibling of it. */
  lemma EverybodyExpectedIsAccountedFor(read: Cohort.SemesterReader, students: seq<Cohort.Profile>, t: Sessions,
      rows: Rows, item: SweepItem, at: Instant, p: Cohort.Profile)
    requires Callable(item) && p in students && Cohort.OnRoll(read, p, item.org, item.lecture.value.address)
    ensures
      var after := RowsAfterRoll(read, students, t, rows, item, at);
      HasRow(after, p.userId, item.id) || exists h :: h in SiblingIds(t, item) && Attended(after, p.userId, h)
  {
    var missing := Absentees(read, students, t, rows, item);
    InsertAbsencesAppends(rows, item.id, missing, at);
    RowsPersist(rows, RowsAfterRoll(read, students, t, rows, item, at));
    assert p.userId in Expected(read, students, item);
    if p.userId !in missing && p.userId in AttendedStudentIds(rows, SiblingIds(t, item)) {
      var r :| r in rows && r.session in SiblingIds(t, item) && r.status != Absent && r.student == p.userId;
      assert Attended(rows, p.userId, r.session);
    }
  }

  /* ------------------------- Any order, any crashes ------------------------ */

  /** A roll call of one session; `marked` is false when the worker died between
      writing the absences and stamping the session. */
  datatype Call = Call(id: SessionId, at: Instant, marked: bool)

  ghost predicate Possible(t: Sessions, call: Call) {
    call.id in AwaitingSweep(t)
  }

  ghost function TableAfter(lectures: map<LectureId, Lecture>, t: Sessions, call: Call): Sessions
    requires Possible(t, call)
  {
    if call.marked then TableAfterRoll(t, ItemOf(t, lectures, call.id), call.at) else t
  }

  ghost function RowsAfter(read: Cohort.SemesterReader, students: seq<Cohort.Profile>, lectures: map<LectureId,
      Lecture>, t: Sessions, rows: Rows, call: Call): Rows
    requires Possible(t, call)
  {
    RowsAfterRoll(read, students, t, rows, ItemOf(t, lectures, call.id), call.at)
  }

  /** Sessions and attendance while the worker passes over them, crash after
      crash, on otherwise unchanged data. */
  ghost predicate IsHistory(read: Cohort.SemesterReader, students: seq<Cohort.Profile>, lectures: map<LectureId,
      Lecture>,
                            tables: seq<Sessions>, rows: seq<Rows>, calls: seq<Call>)
  {
    && |tables| == |rows| == |calls| + 1
    && forall i :: 0 <= i < |calls| ==>
         && Possible(tables[i], calls[i])
         && tables[i + 1] == TableAfter(lectures, tables[i], calls[i])
         && rows[i + 1] == RowsAfter(read, students, lectures, tables[i], rows[i], calls[i])
  }

  /** Only the sweep stamps differ. */
  ghost predicate SameButStamps(a: Sessions, b: Sessions) {
    && a.Keys == b.Keys
    && forall id :: id in a ==> b[id] == a[id].(sweptAt := b[id].sweptAt) && (a[id].sweptAt.Some? ==> a[id] == b[id])
  }

  lemma SameItems(lectures: map<LectureId, Lecture>, a: Sessions, b: Sessions, id: SessionId)
    requires SameButStamps(a, b) && id in a
    ensures ItemOf(a, lectures, id) == ItemOf(b, lectures, id)
    ensures SiblingIds(a, ItemOf(a, lectures, id)) == SiblingIds(b, ItemOf(b, lectures, id))
  {
  }

  /** u was to be marked absent from session id when the worker first looked. */
  ghost predicate WasAbsentee(read: Cohort.SemesterReader, students: seq<Cohort.Profile>, lectures: map<LectureId,
      Lecture>,
                              t: Sessions, rows: Rows, u: UserId, id: SessionId)
  {
    && id in AwaitingSweep(t)
    && Callable(ItemOf(t, lectures, id))
    && u in Absentees(read, students, t, rows, ItemOf(t, lectures, id))
  }

  /** How far the absences have got, whatever the order: none invented, none of
      a stamped session's forgotten, no evidence touched. */
  ghost predicate Progress(read: Cohort.SemesterReader, students: seq<Cohort.Profile>, lectures: map<LectureId,
      Lecture>,
                           t0: Sessions, rows0: Rows, t: Sessions, rows: Rows)
  {
    && SameButStamps(t0, t)
    && rows0 <= rows
    && (forall u, id :: HasRow(rows, u, id) && !HasRow(rows0, u, id) ==>
        WasAbsentee(read, students, lectures, t0, rows0, u, id))
    && (forall r :: r in rows && r !in rows0 ==> r.status == Absent && !HasRow(rows0, r.student, r.session))
    && (forall u, id :: id !in AwaitingSweep(t) && WasAbsentee(read, students, lectures, t0, rows0, u, id) ==>
        HasRow(rows, u, id))
  }

  /** Evidence is what it was, so a roll call finds the same absentees less
      those already written. */
  lemma SameAbsentees(read: Cohort.SemesterReader, students: seq<Cohort.Profile>, lectures: map<LectureId, Lecture>,
                      t0: Sessions, rows0: Rows, t: Sessions, rows: Rows, id: SessionId)
    requires Progress(read, students, lectures, t0, rows0, t, rows) && id in AwaitingSweep(t)
    requires Callable(ItemOf(t, lectures, id))
    ensures id in AwaitingSweep(t0) && ItemOf(t, lectures, id) == ItemOf(t0, lectures, id)
    ensures forall u :: u in Absentees(read, students, t, rows, ItemOf(t, lectures, id)) <==>
      (u in Absentees(read, students, t0, rows0, ItemOf(t0, lectures, id)) && !HasRow(rows, u, id))
  {
  }

  lemma CallKeepsProgress(read: Cohort.SemesterReader, students: seq<Cohort.Profile>, lectures: map<LectureId, Lecture>,
                          t0: Sessions, rows0: Rows, t: Sessions, rows: Rows, call: Call)
    requires Progress(read, students, lectures, t0, rows0, t, rows) && Possible(t, call)
    ensures Progress(read, students, lectures, t0, rows0, TableAfter(lectures, t, call),
        RowsAfter(read, students, lectures, t, rows, call))
  {
    var item := ItemOf(t, lectures, call.id);
    var rows' := RowsAfter(read, students, lectures, t, rows, call);
    var t' := TableAfter(lectures, t, call);
    RowsPersist(rows0, rows);
    SameItems(lectures, t0, t, call.id);
    if Callable(item) {
      var absentees := Absentees(read, students, t, rows, item);
      InsertAbsencesAppends(rows, call.id, absentees, call.at);
      RowsPersist(rows, rows');
      SameAbsentees(read, students, lectures, t0, rows0, t, rows, call.id);
      forall u, id | HasRow(rows', u, id) && !HasRow(rows0, u, id)
          ensures WasAbsentee(read, students, lectures, t0, rows0, u, id) {
        var r :| r in rows' && r.student == u && r.session == id;
        if r in rows { assert HasRow(rows, u, id); }
      }
      forall u, id | id !in AwaitingSweep(t') && WasAbsentee(read, students, lectures, t0, rows0, u, id)
          ensures HasRow(rows', u, id) {
        if id in AwaitingSweep(t) {
          assert id == call.id;
          assert HasRow(rows, u, id) || u in absentees;
        }
      }
    } else {
      forall u, id | id !in AwaitingSweep(t') && WasAbsentee(read, students, lectures, t0, rows0, u, id)
          ensures HasRow(rows', u, id) {
        assert id !in AwaitingSweep(t);
      }
    }
  }

  lemma {:induction false} HistoryKeepsProgress(read: Cohort.SemesterReader, students: seq<Cohort.Profile>,
      lectures: map<LectureId, Lecture>,
                                                tables: seq<Sessions>, rows: seq<Rows>, calls: seq<Call>, i: nat)
    requires IsHistory(read, students, lectures, tables, rows, calls) && i <= |calls|
    ensures Progress(read, students, lectures, tables[0], rows[0], tables[i], rows[i])
  {
    if i > 0 {
      HistoryKeepsProgress(read, students, lectures, tables, rows, calls, i - 1);
      CallKeepsProgress(read, students, lectures, tables[0], rows[0], tables[i - 1], rows[i - 1], calls[i - 1]);
    }
  }

  /** Whatever order the sessions are taken in, however the passes are batched
      and wherever they crash, once every callable session is stamped the
      absences written are exactly the ones the data called for at the start. */
  lemma RollCallsConverge(read: Cohort.SemesterReader, students: seq<Cohort.Profile>, lectures: map<LectureId, Lecture>,
                          tables: seq<Sessions>, rows: seq<Rows>, calls: seq<Call>, u: UserId, id: SessionId)
    requires IsHistory(read, students, lectures, tables, rows, calls)
    requires forall g :: g in AwaitingSweep(tables[|calls|]) ==> !Callable(ItemOf(tables[|calls|], lectures, g))
    ensures HasRow(rows[|calls|], u, id)
      <==> HasRow(rows[0], u, id) || WasAbsentee(read, students, lectures, tables[0], rows[0], u, id)
    ensures MarkedAbsent(rows[|calls|], u, id)
      <==> MarkedAbsent(rows[0], u, id) || WasAbsentee(read, students, lectures, tables[0], rows[0], u, id)
  {
    var n := |calls|;
    HistoryKeepsProgress(read, students, lectures, tables, rows, calls, n);
    RowsPersist(rows[0], rows[n]);
    if WasAbsentee(read, students, lectures, tables[0], rows[0], u, id) {
      if id in AwaitingSweep(tables[n]) { SameItems(lectures, tables[0], tables[n], id); }
      assert HasRow(rows[n], u, id);
      var r :| r in rows[n] && r.student == u && r.session == id;
      assert u !in StudentIdsBySession(rows[0], id);
      assert r !in rows[0];
    } else if MarkedAbsent(rows[n], u, id) {
      var r :| r in rows[n] && r.student == u && r.session == id && r.status == Absent;
      assert HasRow(rows[n], u, id);
      assert r in rows[0];
    }
  }

  /* ------------------------------- Draining -------------------------------- */

  /** The sessions a completed pass stamps. */
  lemma {:induction false} PassStamps(t: Sessions, items: seq<SweepItem>, at: Instant)
    requires NoDuplicates(ItemIds(items)) && SetOf(ItemIds(items)) <= AwaitingSweep(t)
    requires forall i :: 0 <= i < |items| ==> items[i].lecture.None? || Callable(items[i])
    ensures AwaitingSweep(TableAfterRolls(t, items, at)) == AwaitingSweep(t) - SetOf(ItemIds(items))
    ensures TableAfterRolls(t, items, at).Keys == t.Keys
    ensures forall id :: id in t ==> TableAfterRolls(t, items, at)[id].(sweptAt := None) == t[id].(sweptAt := None)
    decreases items
  {
    if items != [] {
      var t' := TableAfterRoll(t, items[0], at);
      assert ItemIds(items)[0] in SetOf(ItemIds(items));
      assert t' == MarkSwept(t, items[0].id, at);
      assert AwaitingSweep(t') == AwaitingSweep(t) - {items[0].id};
      assert ItemIds(items)[1..] == ItemIds(items[1..]);
      assert SetOf(ItemIds(items)) == {items[0].id} + SetOf(ItemIds(items[1..]));
      PassStamps(t', items[1..], at);
    }
  }

  /** Every session agrees with its lecture about the organization. */
  ghost predicate OrgsAgree(t: Sessions, lectures: map<LectureId, Lecture>) {
    forall id :: id in t ==> ItemOf(t, lectures, id).lecture.None? || Callable(ItemOf(t, lectures, id))
  }

  /** Tables after each of a number of completed passes. */
  ghost predicate ArePasses(lectures: map<LectureId, Lecture>, tables: seq<Sessions>, batches: seq<seq<SweepItem>>,
      ats: seq<Instant>)
  {
    && |tables| == |batches| + 1 && |ats| == |batches|
    && forall k :: 0 <= k < |batches| ==>
         IsSweepRead(tables[k], lectures, batches[k]) && tables[k + 1] == TableAfterRolls(tables[k], batches[k], ats[k])
  }

  function Waiting(t: Sessions): nat {
    |AwaitingSweep(t)|
  }

  lemma BatchIsStampable(lectures: map<LectureId, Lecture>, t: Sessions, items: seq<SweepItem>)
    requires IsSweepRead(t, lectures, items) && OrgsAgree(t, lectures)
    ensures forall i :: 0 <= i < |items| ==> items[i].lecture.None? || Callable(items[i])
    ensures NoDuplicates(ItemIds(items)) && SetOf(ItemIds(items)) <= AwaitingSweep(t)
  {
  }

  /** One completed pass takes a hundred waiting sessions, or what there is. */
  lemma PassTakesAHundred(lectures: map<LectureId, Lecture>, t: Sessions, items: seq<SweepItem>, at: Instant)
    requires IsSweepRead(t, lectures, items) && OrgsAgree(t, lectures)
    ensures
      var after := TableAfterRolls(t, items, at);
      OrgsAgree(after, lectures) && Waiting(after) == if Waiting(t) <= 100 then 0 else Waiting(t) - 100
  {
    BatchIsStampable(lectures, t, items);
    PassStamps(t, items, at);
    var after := TableAfterRolls(t, items, at);
    forall id | id in after ensures ItemOf(after, lectures, id) == ItemOf(t, lectures, id) {
      assert after[id].(sweptAt := None) == t[id].(sweptAt := None);
    }
    NoDuplicatesCardinality(ItemIds(items));
  }

  /** N waiting sessions are all swept after N/100 passes, rounded up. */
  lemma {:induction false} PassesDrainTheBacklog(lectures: map<LectureId, Lecture>, tables: seq<Sessions>,
      batches: seq<seq<SweepItem>>, ats: seq<Instant>, k: nat)
    requires ArePasses(lectures, tables, batches, ats) && OrgsAgree(tables[0], lectures) && k <= |batches|
    ensures OrgsAgree(tables[k], lectures)
    ensures
      var n := Waiting(tables[0]);
      Waiting(tables[k]) == if n <= k * 100 then 0 else n - k * 100
  {
    if k > 0 {
      PassesDrainTheBacklog(lectures, tables, batches, ats, k - 1);
      PassTakesAHundred(lectures, tables[k - 1], batches[k - 1], ats[k - 1]);
      assert tables[k] == TableAfterRolls(tables[k - 1], batches[k - 1], ats[k - 1]);
    }
  }

  /* ------------------------- Closing stale sessions ------------------------ */

  function TableAfterClosing(t: Sessions, item: StaleItem, now: Instant, w: WindowConfig): Sessions {
    if IsStale(Active, item.startTime, item.times, now, w)
        then CloseIfOpen(t, item.id, EndsAt(item.startTime, item.times, w), AutoStale)
    else t
  }

  function TableAfterClosings(t: Sessions, items: seq<StaleItem>, now: Instant, w: WindowConfig): Sessions
    decreases items
  {
    if items == [] then t else TableAfterClosings(TableAfterClosing(t, items[0], now, w), items[1..], now, w)
  }

  ghost predicate Describe(t: Sessions, items: seq<StaleItem>) {
    && NoDuplicates(StaleIds(items))
    && forall i :: 0 <= i < |items| ==>
        items[i].id in t && t[items[i].id].status == Active && t[items[i].id].startTime == items[i].startTime
  }

  lemma StaleItemsDescribe(t: Sessions, lectures: map<LectureId, Lecture>, items: seq<StaleItem>)
    requires IsStaleRead(t, lectures, items)
    ensures Describe(t, items)
    ensures forall i :: 0 <= i < |items| ==> items[i].times == TimesOf(JoinedLecture(t[items[i].id], lectures))
  {
    forall i | 0 <= i < |items| ensures items[i].id in OpenIds(t) && items[i] == StaleItemOf(t, lectures, items[i].id) {
      assert StaleIds(items)[i] in SetOf(StaleIds(items));
    }
  }

  /** Of the open sessions read, exactly the stale ones are closed, each at the
      end of its own lecture rather than at the time of the sweep; every other
      session is left as it was. */
  lemma {:induction false} ClosingIsExact(t: Sessions, items: seq<StaleItem>, now: Instant, w: WindowConfig)
    requires Describe(t, items)
    ensures TableAfterClosings(t, items, now, w).Keys == t.Keys
    ensures forall i :: 0 <= i < |items| ==>
      TableAfterClosings(t, items, now, w)[items[i].id] ==
        (if now > StaleAt(items[i].startTime, items[i].times, w)
         then ClosedWith(t[items[i].id], EndsAt(items[i].startTime, items[i].times, w), AutoStale)
         else t[items[i].id])
    ensures forall id :: id in t && id !in StaleIds(items) ==> TableAfterClosings(t, items, now, w)[id] == t[id]
    decreases items
  {
    if items != [] {
      var t' := TableAfterClosing(t, items[0], now, w);
      assert StaleIds(items)[1..] == StaleIds(items[1..]);
      forall i | 0 <= i < |items[1..]| ensures items[1..][i].id != items[0].id {
        assert StaleIds(items)[i + 1] != StaleIds(items)[0];
      }
      ClosingIsExact(t', items[1..], now, w);
      assert forall i :: 1 <= i < |items| ==> items[i] == items[1..][i - 1];
      assert items[0].id !in StaleIds(items[1..]);
      assert forall id :: id !in StaleIds(items) ==> id !in StaleIds(items[1..]) && id != items[0].id by {
        assert StaleIds(items) == [items[0].id] + StaleIds(items[1..]);
      }
    }
  }

  /** The session has been closed, as the sweep closes, at its lecture's end if that
      and the grace were over; otherwise it is as it was. */
  ghost predicate ClosedWhenOver(before: Session, after: Session, now: Instant, w: WindowConfig, minutes: int)
  {
    if now > before.startTime + (minutes + w.staleGraceMinutes) * MINUTE_MS then
      && after.status == Closed && after.endTime == Some(before.startTime + minutes * MINUTE_MS)
      && after.closeReason == Some(AutoStale)
      && (after.org, after.lecture, after.course, after.startTime, after.sweptAt)
         == (before.org, before.lecture, before.course, before.startTime, before.sweptAt)
    else after == before
  }

  /** Every session read is closed exactly when its own lecture's length and the
      grace have passed since it opened, and ends when that length had. */
  ghost predicate EachClosedWhenOver(lectures: map<LectureId, Lecture>, t: Sessions, t': Sessions, ids: set<SessionId>,
      now: Instant, w: WindowConfig)
  {
    && t'.Keys == t.Keys
    && (forall id :: id in t && id !in ids ==> t'[id] == t[id])
    && forall id, minutes :: id in ids && id in t && LastsFor(t[id], lectures, w.defaultSessionMinutes, minutes) ==>
        ClosedWhenOver(t[id], t'[id], now, w, minutes)
  }

  lemma ClosedOnTime(lectures: map<LectureId, Lecture>, before: Session, after: Session, now: Instant,
      w: WindowConfig, minutes: int)
    requires before.status == Active && LastsFor(before, lectures, w.defaultSessionMinutes, minutes)
    requires
      var times := TimesOf(JoinedLecture(before, lectures));
      after == if now > StaleAt(before.startTime, times, w)
               then ClosedWith(before, EndsAt(before.startTime, times, w), AutoStale) else before
    ensures ClosedWhenOver(before, after, now, w, minutes)
  {
    EndIsTheLecturesEnd(before, lectures, w, minutes);
  }

  lemma ClosingsHappenOnTime(lectures: map<LectureId, Lecture>, t: Sessions, stale: seq<StaleItem>, now: Instant,
      w: WindowConfig)
    requires IsStaleRead(t, lectures, stale)
    ensures EachClosedWhenOver(lectures, t, TableAfterClosings(t, stale, now, w), SetOf(StaleIds(stale)), now, w)
  {
    var t' := TableAfterClosings(t, stale, now, w);
    StaleItemsDescribe(t, lectures, stale);
    ClosingIsExact(t, stale, now, w);
    forall id, minutes | id in SetOf(StaleIds(stale)) && id in t
        && LastsFor(t[id], lectures, w.defaultSessionMinutes, minutes)
      ensures ClosedWhenOver(t[id], t'[id], now, w, minutes)
    {
      var i :| 0 <= i < |stale| && StaleIds(stale)[i] == id;
      assert stale[i].id == id;
      ClosedOnTime(lectures, t[id], t'[id], now, w, minutes);
    }
  }

  /** PRESENT or LATE in another session of the lecture and organization, opened from
      twelve hours before this one to less than twelve hours after. */
  predicate SeenElsewhere(t: Sessions, rows: Rows, item: SweepItem, u: UserId) {
    exists r :: r in rows && r.student == u && (r.status == Present || r.status == Late)
        && r.session != item.id && r.session in t && IsSibling(t[r.session], item)
  }

  predicate IsSibling(s: Session, item: SweepItem) {
    && item.lectureId.Some? && s.lecture == item.lectureId && s.org == item.org
    && -12 * HOUR_MS <= s.startTime - item.startTime < 12 * HOUR_MS
  }

  /* ------------------------------ The service ------------------------------ */

  class AttendanceLifecycleService {
    const sessions: SessionRepository
    const attendances: AttendanceRepository
    const students: StudentRepository
    const lectures: map<LectureId, Lecture>
    const window: WindowConfig
    const read: Cohort.SemesterReader

    constructor (sessions: SessionRepository, attendances: AttendanceRepository, students: StudentRepository,
                 lectures: map<LectureId, Lecture>, window: WindowConfig, read: Cohort.SemesterReader)
      ensures this.sessions == sessions && this.attendances == attendances && this.students == students
      ensures this.lectures == lectures && this.window == window && this.read == read
    {
      this.sessions, this.attendances, this.students := sessions, attendances, students;
      this.lectures, this.window, this.read := lectures, window, read;
    }

    /** Closes, of the sessions read, exactly the stale ones. */
    method CloseStaleSessions(now: Instant) returns (examined: nat, closed: nat, ghost items: seq<StaleItem>)
      modifies sessions
      ensures IsStaleRead(old(sessions.table), lectures, items) && examined == |items|
      ensures sessions.table == TableAfterClosings(old(sessions.table), items, now, window)
      ensures EachClosedWhenOver(lectures, old(sessions.table), sessions.table, SetOf(StaleIds(items)), now, window)
      ensures closed == |OpenIds(old(sessions.table))| - |OpenIds(sessions.table)|
    {
      ghost var t := sessions.table;
      var open := sessions.FindOpenForStaleCheck(lectures);
      items := open;
      examined, closed := |open|, 0;
      var i := 0;
      while i < |open|
        invariant 0 <= i <= |open|
        invariant TableAfterClosings(sessions.table, open[i..], now, window) == TableAfterClosings(t, open, now, window)
        invariant closed == |OpenIds(t)| - |OpenIds(sessions.table)|
      {
        assert open[i..][1..] == open[i + 1..];
        var didClose := CloseIfStale(open[i], now);
        closed := closed + if didClose then 1 else 0;
        i := i + 1;
      }
      ClosingsHappenOnTime(lectures, t, items, now, window);
    }

    /** One of them. */
    method CloseIfStale(session: StaleItem, now: Instant) returns (didClose: bool)
      modifies sessions
      ensures sessions.table == TableAfterClosing(old(sessions.table), session, now, window)
      ensures |OpenIds(sessions.table)| == |OpenIds(old(sessions.table))| - if didClose then 1 else 0
    {
      didClose := false;
      ghost var before := sessions.table;
      if IsStale(Active, session.startTime, session.times, now, window) {
        didClose := sessions.CloseIfOpen(session.id, EndsAt(session.startTime, session.times, window), AutoStale);
        if didClose {
          assert OpenIds(sessions.table) == OpenIds(before) - {session.id};
        }
      }
    }

    /** Calls the roll of one closed session. */
    method SweepOne(item: SweepItem, now: Instant) returns (created: nat, unlinked: bool, marked: bool)
      modifies sessions, attendances
      ensures attendances.rows == RowsAfterRoll(read, students.profiles, old(sessions.table), old(attendances.rows),
          item, now)
      ensures sessions.table == TableAfterRoll(old(sessions.table), item, now)
      ensures created == |attendances.rows| - |old(attendances.rows)|
      ensures unlinked == item.lecture.None?
      ensures marked <==> sessions.table != old(sessions.table)
      ensures ClosedIn(old(sessions.table), item) ==>
        SameStatuses(old(sessions.table), sessions.table)
        && Waiting(sessions.table) == Waiting(old(sessions.table)) - if marked then 1 else 0
    {
      if ClosedIn(sessions.table, item) {
        StampingIsCounted(sessions.table, item, now);
      }
      if item.lecture.None? {
        marked := sessions.MarkAbsencesSwept(item.id, now);
        return 0, true, marked;
      }
      if item.lecture.value.org != item.org {
        return 0, false, false;
      }
      var expected := Cohort.Roll(read, students.profiles, item.org, item.lecture.value.address);
      var recorded := attendances.FindStudentIdsBySession(item.id);
      var attended := AttendedElsewhereInOccurrence(item);
      var missing := MissingStudents(expected, recorded, attended);
      created := attendances.CreateAbsences(item.id, missing, now);
      marked := sessions.MarkAbsencesSwept(item.id, now);
      unlinked := false;
    }

    method AttendedElsewhereInOccurrence(item: SweepItem) returns (attended: set<UserId>)
      ensures attended == AttendedStudentIds(attendances.rows, SiblingIds(sessions.table, item))
      ensures forall u :: u in attended <==> SeenElsewhere(sessions.table, attendances.rows, item, u)
    {
      if item.lectureId.None? {
        return {};
      }
      var siblings := sessions.FindOpenedForScheduleBetween(
        item.lectureId.value, item.org, item.startTime - OPEN_LATE_MS, item.startTime + OPEN_LATE_MS);
      attended := attendances.FindAttendedStudentIdsBySessions(SetOf(siblings) - {item.id});
    }

    /** Sweeps the sessions read, one after the other. */
    method SweepAll(pending: seq<SweepItem>, now: Instant) returns (swept: nat, created: nat, unlinked: nat)
      requires forall i :: 0 <= i < |pending| ==> ClosedIn(sessions.table, pending[i])
      modifies sessions, attendances
      ensures sessions.table == TableAfterRolls(old(sessions.table), pending, now)
      ensures attendances.rows == RowsAfterRolls(read, students.profiles, old(sessions.table), old(attendances.rows),
          pending, now)
      ensures created == |attendances.rows| - |old(attendances.rows)|
      ensures unlinked == UnlinkedAmong(pending, |pending|)
      ensures swept == Waiting(old(sessions.table)) - Waiting(sessions.table)
    {
      swept, created, unlinked := 0, 0, 0;
      ghost var t, rows := sessions.table, attendances.rows;
      var i := 0;
      while i < |pending|
        invariant 0 <= i <= |pending|
        invariant created == |attendances.rows| - |rows|
        invariant unlinked == UnlinkedAmong(pending, i)
        invariant swept == Waiting(t) - Waiting(sessions.table)
        invariant SameStatuses(t, sessions.table)
        invariant TableAfterRolls(sessions.table, pending[i..], now) == TableAfterRolls(t, pending, now)
        invariant RowsAfterRolls(read, students.profiles, sessions.table, attendances.rows, pending[i..], now)
               == RowsAfterRolls(read, students.profiles, t, rows, pending, now)
      {
        RollsOnward(read, students.profiles, sessions.table, attendances.rows, pending, i, now);
        assert ClosedIn(sessions.table, pending[i]);
        var oneCreated, oneUnlinked, oneMarked := SweepOne(pending[i], now);
        created := created + oneCreated;
        unlinked := unlinked + if oneUnlinked then 1 else 0;
        swept := swept + if oneMarked then 1 else 0;
        i := i + 1;
      }
    }

    /** One pass over at most a hundred waiting sessions, oldest end first. */
    method SweepAbsences(now: Instant) returns (swept: nat, created: nat, unlinked: nat, ghost items: seq<SweepItem>)
      modifies sessions, attendances
      ensures IsSweepRead(old(sessions.table), lectures, items)
      ensures sessions.table == TableAfterRolls(old(sessions.table), items, now)
      ensures attendances.rows == RowsAfterRolls(read, students.profiles, old(sessions.table), old(attendances.rows),
          items, now)
      ensures created == |attendances.rows| - |old(attendances.rows)|
      ensures unlinked == |Unlinked(items, |items|)|
      ensures swept == Waiting(old(sessions.table)) - Waiting(sessions.table)
    {
      var pending := sessions.FindClosedAwaitingSweep(lectures);
      items := pending;
      BatchIsClosed(sessions.table, lectures, pending);
      swept, created, unlinked := SweepAll(pending, now);
      UnlinkedAreCounted(items, |items|);
    }

    /** The whole pass: close first, then call the roll. */
    method RunSweep(now: Instant) returns (ghost stale: seq<StaleItem>, ghost items: seq<SweepItem>)
      modifies sessions, attendances
      ensures IsSweepPass(old(sessions.table), old(attendances.rows), stale, items, now, sessions.table,
          attendances.rows)
    {
      var examined, closed;
      examined, closed, stale := CloseStaleSessions(now);
      var swept, created, unlinked;
      swept, created, unlinked, items := SweepAbsences(now);
    }

    ghost predicate IsSweepPass(t: Sessions, rows: Rows, stale: seq<StaleItem>, items: seq<SweepItem>, now: Instant,
        t2: Sessions, rows2: Rows)
      reads students
    {
      var t1 := TableAfterClosings(t, stale, now, window);
      && IsStaleRead(t, lectures, stale) && IsSweepRead(t1, lectures, items)
      && t2 == TableAfterRolls(t1, items, now)
      && rows2 == RowsAfterRolls(read, students.profiles, t1, rows, items, now)
    }

    /** When those waiting and those this pass closes are at most a hundred, the
        pass leaves none waiting: what it closes as stale has its roll called
        before it returns. With at most a hundred open it closes all the overdue. */
    lemma ClosedAndCalledInOnePass(t: Sessions, rows: Rows, stale: seq<StaleItem>, items: seq<SweepItem>, now: Instant,
        t2: Sessions, rows2: Rows)
      requires IsSweepPass(t, rows, stale, items, now, t2, rows2) && OrgsAgree(t, lectures)
      requires Waiting(t) + |OpenIds(t) - OpenIds(t2)| <= 100
      ensures t2.Keys == t.Keys && Waiting(t2) == 0
      ensures forall id :: id in OpenIds(t) - OpenIds(t2) ==>
        Overdue(lectures, t[id], now, window) && t2[id].status == Closed && t2[id].sweptAt.Some?
      ensures |OpenIds(t)| <= 100 ==> forall id :: id in OpenIds(t) ==>
        (t2[id].status == Closed <==> Overdue(lectures, t[id], now, window))
    {
      PassClosesAndCalls(lectures, t, stale, items, now, window, TableAfterClosings(t, stale, now, window), t2);
    }

    /** With nothing stale and nothing waiting a pass changes nothing. */
    lemma IdlePassChangesNothing(t: Sessions, rows: Rows, stale: seq<StaleItem>, items: seq<SweepItem>, now: Instant,
        t2: Sessions, rows2: Rows)
      requires IsSweepPass(t, rows, stale, items, now, t2, rows2)
      requires Waiting(t) == 0 && forall id :: id in t ==> !Overdue(lectures, t[id], now, window)
      ensures t2 == t && rows2 == rows
    {
      NothingStaleNothingClosed(lectures, t, stale, now, window);
      assert items == [];
    }
  }

  predicate Overdue(lectures: map<LectureId, Lecture>, s: Session, now: Instant, w: WindowConfig) {
    IsStale(s.status, s.startTime, TimesOf(JoinedLecture(s, lectures)), now, w)
  }

  /** Only overdue sessions are closed, and all of them when every open session
      fits one read. */
  lemma ClosingOutcome(lectures: map<LectureId, Lecture>, t: Sessions, stale: seq<StaleItem>, now: Instant,
      w: WindowConfig)
    requires IsStaleRead(t, lectures, stale)
    ensures
      var t1 := TableAfterClosings(t, stale, now, w);
      && t1.Keys == t.Keys
      && forall id :: id in t ==>
           && (t1[id] == t[id] || (t[id].status == Active && t1[id].status == Closed && t1[id].org == t[id].org
               && t1[id].lecture == t[id].lecture && Overdue(lectures, t[id], now, w)))
           && (|OpenIds(t)| <= BATCH_SIZE && t[id].status == Active && Overdue(lectures, t[id], now, w) ==>
               t1[id].status == Closed)
  {
    var t1 := TableAfterClosings(t, stale, now, w);
    StaleItemsDescribe(t, lectures, stale);
    ClosingIsExact(t, stale, now, w);
    if |OpenIds(t)| <= BATCH_SIZE {
      WholeBatch(StaleIds(stale), OpenIds(t), StartTimes(t));
    }
    forall id | id in t && id in StaleIds(stale)
      ensures t1[id] == if Overdue(lectures, t[id], now, w)
        then ClosedWith(t[id], EndsAt(t[id].startTime, TimesOf(JoinedLecture(t[id], lectures)), w), AutoStale)
            else t[id]
    {
      var i :| 0 <= i < |stale| && StaleIds(stale)[i] == id;
      assert stale[i].id == id;
    }
    assert forall id :: id in StaleIds(stale) ==> id in SetOf(StaleIds(stale));
    forall id | id in t && id !in StaleIds(stale)
      ensures t1[id] == t[id] && (|OpenIds(t)| <= BATCH_SIZE ==> t[id].status != Active)
    {
      assert id !in SetOf(StaleIds(stale));
    }
  }

  lemma WholeBatch(ids: seq<SessionId>, candidates: set<SessionId>, key: map<SessionId, Option<Instant>>)
    requires candidates <= key.Keys && Batches.IsBatch(ids, candidates, key, BATCH_SIZE) && |candidates| <= BATCH_SIZE
    ensures SetOf(ids) == candidates
  {
    NoDuplicatesCardinality(ids);
    assert |candidates - SetOf(ids)| == 0;
  }

  lemma StampsKeepStatuses(lectures: map<LectureId, Lecture>, t: Sessions, items: seq<SweepItem>, at: Instant)
    requires IsSweepRead(t, lectures, items) && OrgsAgree(t, lectures)
    ensures SameStatuses(t, TableAfterRolls(t, items, at))
  {
    BatchIsStampable(lectures, t, items);
    PassStamps(t, items, at);
    forall id | id in t ensures TableAfterRolls(t, items, at)[id].status == t[id].status {
      assert TableAfterRolls(t, items, at)[id].(sweptAt := None) == t[id].(sweptAt := None);
    }
  }

  /** When no more than a hundred are waiting, a pass leaves every closed session swept. */
  lemma LastPassLeavesNone(lectures: map<LectureId, Lecture>, t: Sessions, items: seq<SweepItem>, at: Instant)
    requires IsSweepRead(t, lectures, items) && OrgsAgree(t, lectures) && Waiting(t) <= 100
    ensures Waiting(TableAfterRolls(t, items, at)) == 0
    ensures forall id :: id in TableAfterRolls(t, items, at) && TableAfterRolls(t, items, at)[id].status == Closed ==>
      TableAfterRolls(t, items, at)[id].sweptAt.Some?
  {
    PassTakesAHundred(lectures, t, items, at);
    var after := TableAfterRolls(t, items, at);
    assert AwaitingSweep(after) == {};
    forall id | id in after && after[id].status == Closed ensures after[id].sweptAt.Some? {
      assert id !in AwaitingSweep(after);
    }
  }

  /** What a pass closes was overdue and is swept before it returns. */
  lemma PassClosesAndCalls(lectures: map<LectureId, Lecture>, t: Sessions, stale: seq<StaleItem>, items: seq<SweepItem>,
      now: Instant, w: WindowConfig, t1: Sessions, t2: Sessions)
    requires IsStaleRead(t, lectures, stale) && OrgsAgree(t, lectures) && t1 == TableAfterClosings(t, stale, now, w)
    requires IsSweepRead(t1, lectures, items) && t2 == TableAfterRolls(t1, items, now)
    requires Waiting(t) + |OpenIds(t) - OpenIds(t2)| <= 100
    ensures t2.Keys == t.Keys && Waiting(t2) == 0
    ensures forall id :: id in OpenIds(t) - OpenIds(t2) ==>
      Overdue(lectures, t[id], now, w) && t2[id].status == Closed && t2[id].sweptAt.Some?
    ensures |OpenIds(t)| <= 100 ==> forall id :: id in OpenIds(t) ==>
      (t2[id].status == Closed <==> Overdue(lectures, t[id], now, w))
  {
    ClosingOutcome(lectures, t, stale, now, w);
    CloseKeepsOrgs(lectures, t, t1);
    StampsKeepStatuses(lectures, t1, items, now);
    assert OpenIds(t2) == OpenIds(t1);
    WaitingAfterClose(t, t1);
    LastPassLeavesNone(lectures, t1, items, now);
  }

  lemma NothingStaleNothingClosed(lectures: map<LectureId, Lecture>, t: Sessions, stale: seq<StaleItem>, now: Instant,
      w: WindowConfig)
    requires IsStaleRead(t, lectures, stale) && forall id :: id in t ==> !Overdue(lectures, t[id], now, w)
    ensures TableAfterClosings(t, stale, now, w) == t
  {
    ClosingOutcome(lectures, t, stale, now, w);
    assert forall id :: id in t ==> TableAfterClosings(t, stale, now, w)[id] == t[id];
  }

  /** The rolls from i on are the roll of i and then those after it. */
  lemma RollsOnward(read: Cohort.SemesterReader, students: seq<Cohort.Profile>, t: Sessions, rows: Rows,
      items: seq<SweepItem>, i: nat, at: Instant)
    requires i < |items|
    ensures TableAfterRolls(t, items[i..], at) == TableAfterRolls(TableAfterRoll(t, items[i], at), items[i + 1..], at)
    ensures RowsAfterRolls(read, students, t, rows, items[i..], at) ==
      RowsAfterRolls(read, students, TableAfterRoll(t, items[i], at),
          RowsAfterRoll(read, students, t, rows, items[i], at),
        items[i + 1..], at)
  {
    assert items[i..][1..] == items[i + 1..];
  }

  /** How many of the first n sessions have no lecture behind them. */
  function UnlinkedAmong(items: seq<SweepItem>, n: nat): nat
    requires n <= |items|
  {
    if n == 0 then 0 else UnlinkedAmong(items, n - 1) + if items[n - 1].lecture.None? then 1 else 0
  }

  lemma {:induction false} UnlinkedAreCounted(items: seq<SweepItem>, n: nat)
    requires n <= |items|
    ensures UnlinkedAmong(items, n) == |Unlinked(items, n)|
  {
    if n > 0 {
      UnlinkedAreCounted(items, n - 1);
      if items[n - 1].lecture.None? {
        assert Unlinked(items, n) == Unlinked(items, n - 1) + {n - 1};
      } else {
        assert Unlinked(items, n) == Unlinked(items, n - 1);
      }
    }
  }

  /** Those of the first n without a lecture. */
  function Unlinked(items: seq<SweepItem>, n: nat): set<nat>
    requires n <= |items|
  {
    set i: nat | i < n && items[i].lecture == None
  }

  ghost predicate SameStatuses(a: Sessions, b: Sessions) {
    a.Keys == b.Keys && forall id :: id in a ==> a[id].status == b[id].status
  }

  ghost predicate ClosedIn(t: Sessions, item: SweepItem) {
    item.id in t && t[item.id].status == Closed
  }

  lemma BatchIsClosed(t: Sessions, lectures: map<LectureId, Lecture>, items: seq<SweepItem>)
    requires IsSweepRead(t, lectures, items)
    ensures forall i :: 0 <= i < |items| ==> ClosedIn(t, items[i])
  {
    forall i | 0 <= i < |items| ensures ClosedIn(t, items[i]) {
      assert ItemIds(items)[i] in SetOf(ItemIds(items));
    }
  }

  lemma StampingIsCounted(t: Sessions, item: SweepItem, at: Instant)
    requires ClosedIn(t, item)
    ensures SameStatuses(t, TableAfterRoll(t, item, at))
    ensures Waiting(TableAfterRoll(t, item, at)) == Waiting(t) - if TableAfterRoll(t, item, at) == t then 0 else 1
  {
    var t' := TableAfterRoll(t, item, at);
    if t' != t {
      assert AwaitingSweep(t') == AwaitingSweep(t) - {item.id};
    }
  }

  lemma CloseKeepsOrgs(lectures: map<LectureId, Lecture>, t: Sessions, t1: Sessions)
    requires OrgsAgree(t, lectures) && t1.Keys == t.Keys
    requires forall id :: id in t ==> t1[id].org == t[id].org && t1[id].lecture == t[id].lecture
    ensures OrgsAgree(t1, lectures)
  {
  }

  lemma WaitingAfterClose(t: Sessions, t1: Sessions)
    requires t1.Keys == t.Keys
    requires forall id :: id in t ==> t1[id] == t[id] || t[id].status == Active
    ensures Waiting(t1) <= Waiting(t) + |OpenIds(t) - OpenIds(t1)|
  {
    assert AwaitingSweep(t1) <= AwaitingSweep(t) + (OpenIds(t) - OpenIds(t1));
    SubsetCardinality(AwaitingSweep(t1), AwaitingSweep(t) + (OpenIds(t) - OpenIds(t1)));
  }
}
