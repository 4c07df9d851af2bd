/** The session, attendance and student tables as the repositories update them:
    one method per statement, each tied to the statement function the protocol
    uses. */
module AttendanceRepositories {
  import opened Prelude
  import opened SessionWindow
  import opened Lectures
  import opened AttendanceTables
  import Batches
  import Cohort

  /** A session without an end sorts last. */
  predicate EndedNoLater(a: Session, b: Session) {
    b.endTime.None? || (a.endTime.Some? && a.endTime.value <= b.endTime.value)
  }

  class SessionRepository {
    var table: Sessions

    constructor ()
      ensures table == map[]
    {
      table := map[];
    }

    method Create(id: SessionId, org: OrgId, lecture: Option<LectureId>, course: Option<CourseId>, at: Instant)
      requires id !in table
      modifies this
      ensures table == old(table)[id := OpenedSession(org, lecture, course, at)]
    {
      table := table[id := OpenedSession(org, lecture, course, at)];
    }

    method CloseIfOpen(id: SessionId, endTime: Instant, reason: CloseReason) returns (closed: bool)
      modifies this
      ensures table == AttendanceTables.CloseIfOpen(old(table), id, endTime, reason)
      ensures closed <==> id in old(table) && old(table)[id].status == Active
    {
      closed := id in table && table[id].status == Active;
      if closed {
        table := table[id := ClosedWith(table[id], endTime, reason)];
      }
    }

    method UpdateStatus(id: SessionId, endTime: Instant, reason: CloseReason)
      modifies this
      ensures table == CloseAnyway(old(table), id, endTime, reason)
    {
      if id in table {
        table := table[id := ClosedWith(table[id], endTime, reason)];
      }
    }

    method MarkAbsencesSwept(id: SessionId, at: Instant) returns (marked: bool)
      modifies this
      ensures table == MarkSwept(old(table), id, at)
      ensures marked <==> id in old(table) && old(table)[id].sweptAt.None?
    {
      marked := id in table && table[id].sweptAt.None?;
      if marked {
        table := table[id := table[id].(sweptAt := Some(at))];
      }
    }

    method FindOpenForStaleCheck(lectures: map<LectureId, Lecture>) returns (items: seq<StaleItem>)
      ensures IsStaleRead(table, lectures, items)
      ensures forall i, id :: 0 <= i < |items| && id in OpenIds(table) ==>
        items[i].id in table && (id in StaleIds(items) || table[items[i].id].startTime <= table[id].startTime)
    {
      var t := table;
      var ids := Batches.SelectBatch(OpenIds(t), StartTimes(t), BATCH_SIZE);
      assert forall i :: 0 <= i < |ids| ==> ids[i] in SetOf(ids);
      items := seq(|ids|, i requires 0 <= i < |ids| && ids[i] in t => StaleItemOf(t, lectures, ids[i]));
      assert StaleIds(items) == ids;
      forall i, id | 0 <= i < |items| && id in OpenIds(t)
        ensures items[i].id in t && (id in StaleIds(items) || t[items[i].id].startTime <= t[id].startTime) {
        assert ids[i] in SetOf(ids);
        assert id in ids || id in OpenIds(t) - SetOf(ids);
      }
    }

    method FindClosedAwaitingSweep(lectures: map<LectureId, Lecture>) returns (items: seq<SweepItem>)
      ensures IsSweepRead(table, lectures, items)
      ensures forall i, id :: 0 <= i < |items| && id in AwaitingSweep(table) ==>
        items[i].id in table && (id in ItemIds(items) || EndedNoLater(table[items[i].id], table[id]))
    {
      var t := table;
      var ids := Batches.SelectBatch(AwaitingSweep(t), EndTimes(t), BATCH_SIZE);
      assert forall i :: 0 <= i < |ids| ==> ids[i] in SetOf(ids);
      items := seq(|ids|, i requires 0 <= i < |ids| && ids[i] in t => ItemOf(t, lectures, ids[i]));
      assert ItemIds(items) == ids;
      forall i, id | 0 <= i < |items| && id in AwaitingSweep(t)
        ensures items[i].id in t && (id in ItemIds(items) || EndedNoLater(t[items[i].id], t[id])) {
        assert ids[i] in SetOf(ids);
        assert id in ids || id in AwaitingSweep(t) - SetOf(ids);
      }
    }

    /** One lecture's sessions opened in [from, to), first opened first. */
    method FindOpenedForScheduleBetween(lecture: LectureId, org: OrgId, from: Instant, to: Instant)
      returns (ids: seq<SessionId>)
      ensures forall id :: id in ids <==>
        id in table && table[id].lecture == Some(lecture) && table[id].org == org && from <= table[id].startTime < to
      ensures NoDuplicates(ids) && SetOf(ids) == OpenedBetween(table, lecture, org, from, to)
      ensures InOpeningOrder(table, ids)
    {
      var t := table;
      var found := OpenedBetween(t, lecture, org, from, to);
      ids := Batches.SelectBatch(found, StartTimes(t), |found|);
      FetchIsWhole(ids, found, StartTimes(t));
      assert forall id :: id in ids <==> id in SetOf(ids);
    }
  }

  ghost predicate InOpeningOrder(t: Sessions, ids: seq<SessionId>) {
    forall i, j :: 0 <= i < j < |ids| ==> ids[i] in t && ids[j] in t && t[ids[i]].startTime <= t[ids[j]].startTime
  }

  /** A limit as large as the table takes every row, in order. */
  lemma FetchIsWhole(fetched: seq<SessionId>, ids: set<SessionId>, key: map<SessionId, Option<Instant>>)
    requires ids <= key.Keys && Batches.IsBatch(fetched, ids, key, |ids|)
    requires forall g :: g in ids ==> key[g].Some?
    ensures SetOf(fetched) == ids
    ensures forall i, j :: 0 <= i < j < |fetched| ==>
      fetched[i] in ids && fetched[j] in ids && key[fetched[i]].value <= key[fetched[j]].value
  {
    NoDuplicatesCardinality(fetched);
    assert |ids - SetOf(fetched)| == 0;
    assert forall i :: 0 <= i < |fetched| ==> fetched[i] in SetOf(fetched);
  }

  class AttendanceRepository {
    var rows: Rows

    constructor ()
      ensures rows == []
    {
      rows := [];
    }

    /** The unique constraint refuses a second row. */
    method Create(student: UserId, session: SessionId, status: AttendanceStatus, at: Instant) returns (created: bool)
      modifies this
      ensures created <==> InsertScan(old(rows), student, session, status, at).Some?
      ensures rows == if created then InsertScan(old(rows), student, session, status, at).value else old(rows)
    {
      created := !HasRow(rows, student, session);
      if created {
        rows := rows + [Attendance(student, session, status, at)];
      }
    }

    /** Exactly the students the session has a row for. */
    method FindStudentIdsBySession(session: SessionId) returns (ids: set<UserId>)
      ensures forall u :: u in ids <==> HasRow(rows, u, session)
      ensures ids == StudentIdsBySession(rows, session)
    {
      ids := StudentIdsBySession(rows, session);
    }

    /** Exactly the students who turned up to one of the sessions; an ABSENT row is
        not evidence. */
    method FindAttendedStudentIdsBySessions(sessions: set<SessionId>) returns (ids: set<UserId>)
      ensures forall u :: u in ids <==> exists s :: s in sessions && Attended(rows, u, s)
      ensures ids == AttendedStudentIds(rows, sessions)
    {
      ids := AttendedStudentIds(rows, sessions);
      forall u ensures u in ids <==> exists s :: s in sessions && Attended(rows, u, s) {
        if u in ids {
          var r :| r in rows && r.session in sessions && r.status != Absent && r.student == u;
          assert Attended(rows, u, r.session);
        }
      }
    }

    method CreateAbsences(session: SessionId, students: seq<UserId>, at: Instant) returns (count: nat)
      modifies this
      ensures rows == InsertAbsences(old(rows), session, students, at)
      ensures count == |rows| - |old(rows)|
    {
      InsertAbsencesAppends(rows, session, students, at);
      count := 0;
      ghost var all := InsertAbsences(rows, session, students, at);
      var i := 0;
      while i < |students|
        invariant 0 <= i <= |students|
        invariant InsertAbsences(rows, session, students[i..], at) == all
        invariant count == |rows| - |old(rows)|
      {
        if !HasRow(rows, students[i], session) {
          rows := rows + [Attendance(students[i], session, Absent, at)];
          count := count + 1;
        }
        assert students[i..][1..] == students[i + 1..];
        i := i + 1;
      }
    }

    /** PRESENT, LATE and ABSENT rows of one session. `total` is who turned up,
        `roll` everybody the session has a row for. */
    method GetSessionStats(session: SessionId) returns (total: nat, present: nat, late: nat, absent: nat, roll: nat)
      ensures present == CountStatus(rows, session, Present)
      ensures late == CountStatus(rows, session, Late)
      ensures absent == CountStatus(rows, session, Absent)
      ensures total == present + late && roll == total + absent
      ensures Unique(rows) ==> roll == |StudentIdsBySession(rows, session)|
    {
      present, late, absent := 0, 0, 0;
      var i := 0;
      while i < |rows|
        invariant 0 <= i <= |rows|
        invariant present == CountStatus(rows[..i], session, Present)
        invariant late == CountStatus(rows[..i], session, Late)
        invariant absent == CountStatus(rows[..i], session, Absent)
      {
        assert rows[..i + 1][..i] == rows[..i];
        if rows[i].session == session {
          match rows[i].status
          case Present => present := present + 1;
          case Late => late := late + 1;
          case Absent => absent := absent + 1;
        }
        i := i + 1;
      }
      assert rows[..i] == rows;
      total := present + late;
      roll := present + late + absent;
      if Unique(rows) {
        StatusesCountStudents(rows, session);
      }
    }
  }

  function CountStatus(rows: Rows, session: SessionId, status: AttendanceStatus): nat {
    if rows == [] then 0
    else
      var last := rows[|rows| - 1];
      CountStatus(rows[..|rows| - 1], session, status) + (if last.session == session && last.status == status then 1
          else 0)
  }

  /** Uniqueness makes the three counts a head count. */
  lemma {:induction false} StatusesCountStudents(rows: Rows, session: SessionId)
    requires Unique(rows)
    ensures CountStatus(rows, session, Present) + CountStatus(rows, session, Late) + CountStatus(rows, session, Absent)
         == |StudentIdsBySession(rows, session)|
  {
    if rows != [] {
      var front := rows[..|rows| - 1];
      var last := rows[|rows| - 1];
      StatusesCountStudents(front, session);
      assert forall r :: r in rows <==> r in front || r == last by {
        assert rows == front + [last];
      }
      if last.session == session {
        assert StudentIdsBySession(rows, session) == StudentIdsBySession(front, session) + {last.student};
      } else {
        assert StudentIdsBySession(rows, session) == StudentIdsBySession(front, session);
      }
    }
  }

  class StudentRepository {
    var profiles: seq<Cohort.Profile>

    constructor (profiles: seq<Cohort.Profile>)
      ensures this.profiles == profiles
    {
      this.profiles := profiles;
    }
  }
}
