/** Editing the timetable together with the reminders already queued for it, and
    why a queued reminder never carries details its lecture no longer has. One
    request at a time. */
module ScheduleServices {
  import opened Prelude
  import opened Lectures
  import opened NotificationTable
  import opened NotificationRepositories
  import opened Reminders
  import opened ReminderGenerator
  import opened Dispatcher
  import LeaseProtocol
  import Clock
  import Timetable

  class ScheduleService {
    const schedules: Timetable.ScheduleRepository
    const notifications: NotificationRepository
    const directory: Timetable.Directory

    constructor (schedules: Timetable.ScheduleRepository, notifications: NotificationRepository,
        directory: Timetable.Directory)
      ensures this.schedules == schedules && this.notifications == notifications && this.directory == directory
    {
      this.schedules, this.notifications, this.directory := schedules, notifications, directory;
    }

    method CreateSchedule(id: LectureId, input: Lecture) returns (r: Result<Lecture, Timetable.Error>)
      requires Timetable.Allowed(schedules.table, Timetable.Create(id, input))
      modifies schedules
      ensures r == Timetable.CreateResult(old(schedules.table), directory, input)
      ensures schedules.table == Timetable.After(old(schedules.table), directory, Timetable.Create(id, input))
      ensures Timetable.AllWellFormed(old(schedules.table)) ==>
        Timetable.CreateAnswer(old(schedules.table), directory, input, r)
      ensures schedules.table == if r.Ok? then old(schedules.table)[id := input] else old(schedules.table)
    {
      if Timetable.AllWellFormed(schedules.table) {
        Timetable.CreateIsAnswered(schedules.table, directory, input);
      }
      if !Timetable.CourseInOrg(directory, input.course, input.org) {
        return Err(Timetable.NotFound);
      }
      if !Timetable.InstructorInOrg(directory, input.instructor, input.org) {
        return Err(Timetable.BadRequest);
      }
      if !Timetable.SlotIsFree(schedules.table, input, None) {
        return Err(Timetable.Conflict);
      }
      schedules.Write(id, input);
      r := Ok(input);
    }

    /** A successful edit discards every reminder nobody has received yet. */
    method UpdateSchedule(id: LectureId, input: Timetable.UpdateInput, org: OrgId)
      returns (r: Result<Lecture, Timetable.Error>)
      modifies schedules, notifications`table
      ensures r == Timetable.UpdateResult(old(schedules.table), directory, id, input, org)
      ensures schedules.table == Timetable.After(old(schedules.table), directory, Timetable.Update(id, input, org))
      ensures notifications.table == RowsAfterEdit(old(notifications.table), old(schedules.table), directory,
          Timetable.Update(id, input, org))
      ensures Timetable.AllWellFormed(old(schedules.table)) && Timetable.WellFormedInput(input) ==>
        exists merged :: Timetable.UpdateAnswer(old(schedules.table), directory, id, input, org, merged, r)
      ensures schedules.table == if r.Ok? then old(schedules.table)[id := r.value] else old(schedules.table)
    {
      if Timetable.AllWellFormed(schedules.table) && Timetable.WellFormedInput(input) {
        Timetable.UpdateIsAnswered(schedules.table, directory, id, input, org);
      }
      if id !in schedules.table || schedules.table[id].org != org {
        return Err(Timetable.NotFound);
      }
      if input.course.Some? && !Timetable.CourseInOrg(directory, input.course.value, org) {
        return Err(Timetable.NotFound);
      }
      if input.instructor.Some? && !Timetable.InstructorInOrg(directory, input.instructor.value, org) {
        return Err(Timetable.BadRequest);
      }
      var merged := Timetable.Merge(schedules.table[id], input);
      if !Clock.Before(merged.startTime, merged.endTime) {
        return Err(Timetable.BadRequest);
      }
      if merged.isActive {
        if !Timetable.SlotIsFree(schedules.table, merged, Some(id)) {
          return Err(Timetable.Conflict);
        }
      }
      schedules.Write(id, merged);
      var _ := notifications.DeleteUnsentForSchedule(id);
      r := Ok(merged);
    }

    /** Cancels what is queued, unless the lecture was inactive already. */
    method DeactivateSchedule(id: LectureId, org: OrgId) returns (r: Result<Lecture, Timetable.Error>)
      modifies schedules, notifications`table
      ensures r.Ok? <==> id in old(schedules.table) && old(schedules.table)[id].org == org
      ensures r.Ok? ==> r.value == old(schedules.table)[id].(isActive := false)
      ensures schedules.table == if r.Ok? then old(schedules.table)[id := r.value] else old(schedules.table)
      ensures schedules.table == Timetable.After(old(schedules.table), directory, Timetable.Deactivate(id, org))
      ensures notifications.table == RowsAfterEdit(old(notifications.table), old(schedules.table), directory,
          Timetable.Deactivate(id, org))
      ensures if r.Ok? && old(schedules.table)[id].isActive
        then OnlyItsPendingCancelled(old(notifications.table), notifications.table, id)
        else notifications.table == old(notifications.table)
      ensures OnlyThis(id, old(schedules.table), schedules.table)
    {
      if id !in schedules.table || schedules.table[id].org != org {
        return Err(Timetable.NotFound);
      }
      var existing := schedules.table[id];
      if !existing.isActive {
        assert schedules.table[id := existing] == schedules.table;
        return Ok(existing);
      }
      schedules.Write(id, existing.(isActive := false));
      notifications.CancelPendingForSchedule(id);
      r := Ok(existing.(isActive := false));
    }
  }

  /** No lecture but this one has changed. */
  ghost predicate OnlyThis(id: LectureId, t: Timetable.Table, t': Timetable.Table) {
    forall other :: other != id ==> SameLecture(other, t, t')
  }

  predicate SameLecture(id: LectureId, t: Timetable.Table, t': Timetable.Table) {
    (id in t <==> id in t') && (id in t && id in t' ==> t'[id] == t[id])
  }

  /** What an edit of the timetable does to the queued reminders. */
  function RowsAfterEdit(rows: Table, t: Timetable.Table, d: Timetable.Directory, op: Timetable.Op): Table {
    match op
    case Create(_, _) => rows
    case Update(id, input, org) => if Timetable.UpdateResult(t, d, id, input, org).Ok? then DeleteUnsentFor(rows, id)
        else rows
    case Deactivate(id, org) =>
      if id in t && t[id].org == org && t[id].isActive then CancelPendingFor(rows, id) else rows
  }

  /* ----------------------- Every run of the whole system ------------------- */

  datatype System = System(lectures: Timetable.Table, rows: Table)

  datatype Event =
    | Edit(d: Timetable.Directory, op: Timetable.Op)
    | Generate(campus: Campus, now: Instant)
    | Dispatch(now: Instant, token: Token, provider: Notification -> LeaseProtocol.Answer, claimed: set<NotificationId>)

  /** The next thing to happen: a request, a generation pass or a dispatcher tick,
      each as its method's contract describes it. */
  ghost predicate Happens(s: System, e: Event, s': System) {
    match e
    case Edit(d, op) =>
      && Timetable.Allowed(s.lectures, op)
      && s' == System(Timetable.After(s.lectures, d, op), RowsAfterEdit(s.rows, s.lectures, d, op))
    case Generate(campus, now) => s'.lectures == s.lectures && Generated(campus, s.lectures, now, s.rows, s'.rows)
    case Dispatch(now, token, provider, claimed) =>
      s'.lectures == s.lectures && claimed <= Due(s.rows, now)
          && TickedTo(s.rows, s'.rows, claimed, now, token, provider)
  }

  ghost predicate IsHistory(states: seq<System>, events: seq<Event>) {
    |states| == |events| + 1 && forall i :: 0 <= i < |events| ==> HappensAt(states, events, i)
  }

  ghost predicate HappensAt(states: seq<System>, events: seq<Event>, i: nat)
    requires i < |events| && |states| == |events| + 1
  {
    Happens(states[i], events[i], states[i + 1])
  }

  /** A queued reminder is for an active lecture and says what the lecture says
      now; only a SENT one has reached anybody. */
  predicate Current(lectures: Timetable.Table, n: Notification) {
    && n.key.lecture in lectures
    && (n.sentAt.Some? <==> n.status == Sent)
    && (n.status == Pending ==> lectures[n.key.lecture].isActive && n.writtenFrom == lectures[n.key.lecture])
  }

  ghost predicate AllCurrent(s: System) {
    && (forall id :: id in s.rows ==> Current(s.lectures, s.rows[id]))
    && KeysUnique(s.rows)
    && forall id :: id in s.lectures ==> Timetable.WellFormed(s.lectures[id])
  }

  lemma EditKeepsWellFormed(t: Timetable.Table, d: Timetable.Directory, op: Timetable.Op)
    requires Timetable.Allowed(t, op) && forall id :: id in t ==> Timetable.WellFormed(t[id])
    ensures forall id :: id in Timetable.After(t, d, op) ==> Timetable.WellFormed(Timetable.After(t, d, op)[id])
  {
    if op.Update? && Timetable.UpdateResult(t, d, op.id, op.input, op.org).Ok? {
      Timetable.MergeIsWellFormed(t[op.id], op.input);
    }
  }

  /** Edits move other lectures not at all, and their own lecture's reminders out
      of the queue. */
  lemma EditKeepsRowCurrent(t: Timetable.Table, rows: Table, d: Timetable.Directory, op: Timetable.Op,
      id: NotificationId)
    requires Timetable.Allowed(t, op) && id in RowsAfterEdit(rows, t, d, op) && id in rows && Current(t, rows[id])
    ensures Current(Timetable.After(t, d, op), RowsAfterEdit(rows, t, d, op)[id])
    ensures RowsAfterEdit(rows, t, d, op)[id].key == rows[id].key
  {
  }

  lemma EditKeepsCurrent(s: System, d: Timetable.Directory, op: Timetable.Op, s': System)
    requires AllCurrent(s) && Happens(s, Edit(d, op), s')
    ensures AllCurrent(s')
  {
    EditKeepsWellFormed(s.lectures, d, op);
    forall id | id in s'.rows ensures Current(s'.lectures, s'.rows[id]) && s'.rows[id].key == s.rows[id].key {
      assert Current(s.lectures, s.rows[id]);
      EditKeepsRowCurrent(s.lectures, s.rows, d, op, id);
    }
  }

  lemma NewReminderIsCurrent(c: Campus, lectures: Timetable.Table, now: Instant, t: Table, n: Notification)
    requires NewReminder(c, lectures, ActiveIds(lectures), now, t, n)
    ensures Current(lectures, n) && !HasKey(t, n.key)
    ensures exists d :: LectureCallsFor(c, lectures, n.key.lecture, now, d) && n == RowOf(d)
  {
  }

  lemma GenerateKeepsCurrent(s: System, c: Campus, now: Instant, s': System)
    requires AllCurrent(s) && Happens(s, Generate(c, now), s')
    ensures AllCurrent(s')
  {
    forall id | id in s'.rows ensures Current(s'.lectures, s'.rows[id]) {
      if id in s.rows {
        assert Current(s.lectures, s.rows[id]);
      } else {
        NewReminderIsCurrent(c, s.lectures, now, s.rows, s'.rows[id]);
      }
    }
  }

  /** A tick only ever takes rows out of the queue or puts them back as they were. */
  lemma DispatchKeepsCurrent(s: System, e: Event, s': System)
    requires AllCurrent(s) && e.Dispatch? && Happens(s, e, s')
    ensures AllCurrent(s')
  {
    forall id | id in s'.rows ensures Current(s'.lectures, s'.rows[id]) && s'.rows[id].key == s.rows[id].key {
      assert Current(s.lectures, s.rows[id]);
    }
  }

  lemma StepKeepsCurrent(s: System, e: Event, s': System)
    requires AllCurrent(s) && Happens(s, e, s')
    ensures AllCurrent(s')
  {
    match e
    case Edit(d, op) => EditKeepsCurrent(s, d, op, s');
    case Generate(c, now) => GenerateKeepsCurrent(s, c, now, s');
    case Dispatch(_, _, _, _) => DispatchKeepsCurrent(s, e, s');
  }

  /** After any sequence of edits, generation passes and dispatcher ticks every
      reminder still to be sent belongs to an active lecture and carries its
      present details. */
  lemma {:induction false} QueuedRemindersAreCurrent(states: seq<System>, events: seq<Event>)
    requires IsHistory(states, events) && states[0] == System(map[], map[])
    ensures AllCurrent(states[|events|])
  {
    if events != [] {
      var n := |events| - 1;
      assert HappensAt(states, events, n);
      var before := states[..n + 1];
      forall i | 0 <= i < n ensures HappensAt(before, events[..n], i) {
        assert HappensAt(states, events, i);
      }
      QueuedRemindersAreCurrent(before, events[..n]);
      StepKeepsCurrent(states[n], events[n], states[n + 1]);
    }
  }

  /** The lecture's reminders are the same rows as before. */
  ghost predicate SameReminders(lecture: LectureId, rows: Table, rows': Table) {
    && (forall id :: id in rows && rows[id].key.lecture == lecture ==> id in rows' && rows'[id] == rows[id])
    && (forall id :: id in rows' && rows'[id].key.lecture == lecture ==> id in rows)
  }

  lemma EditTouchesOnlyItsLecture(s: System, d: Timetable.Directory, op: Timetable.Op, s': System, other: LectureId)
    requires Happens(s, Edit(d, op), s') && op.id != other
    ensures SameLecture(other, s.lectures, s'.lectures) && SameReminders(other, s.rows, s'.rows)
  {
  }

  /** However other lectures are created, edited and deactivated, a lecture and its
      reminders stay as they are. */
  lemma {:induction false} EditsTouchOnlyTheirLectures(states: seq<System>, events: seq<Event>, other: LectureId)
    requires IsHistory(states, events)
    requires forall e :: e in events ==> e.Edit? && e.op.id != other
    ensures SameLecture(other, states[0].lectures, states[|events|].lectures)
    ensures SameReminders(other, states[0].rows, states[|events|].rows)
  {
    if events != [] {
      var n := |events| - 1;
      assert HappensAt(states, events, n);
      var before := states[..n + 1];
      forall i | 0 <= i < n ensures HappensAt(before, events[..n], i) {
        assert HappensAt(states, events, i);
      }
      EditsTouchOnlyTheirLectures(before, events[..n], other);
      assert events[n] in events;
      EditTouchesOnlyItsLecture(states[n], events[n].d, events[n].op, states[n + 1], other);
    }
  }

  /** What the edit leaves behind for the lecture is history: sent or given up. */
  lemma EditLeavesOnlyHistory(s: System, d: Timetable.Directory, id: LectureId, input: Timetable.UpdateInput,
      org: OrgId, s': System)
    requires AllCurrent(s) && Happens(s, Edit(d, Timetable.Update(id, input, org)), s')
    requires Timetable.UpdateResult(s.lectures, d, id, input, org).Ok?
    ensures forall i :: i in s'.rows && s'.rows[i].key.lecture == id ==>
        s'.rows[i].status == Sent || s'.rows[i].status == Failed
  {
  }

  /** Lead times tell the three rules apart, so the key fixes the moment. */
  lemma KeyFixesTheDraft(c: Campus, lectures: Timetable.Table, id: LectureId, now: Instant, d: Draft, e: Draft)
    requires LectureCallsFor(c, lectures, id, now, d) && LectureCallsFor(c, lectures, id, now, e) && d.key == e.key
    ensures d == e
  {
  }

  /** An edit followed by a generation pass writes every corrected reminder: each
      one the edited lecture now calls for is queued exactly as it calls for it,
      unless that person was already sent it or it was given up; and nothing else
      is queued for the lecture. */
  lemma EditThenPassRewritesReminders(s: System, d: Timetable.Directory, id: LectureId, input: Timetable.UpdateInput,
      org: OrgId,
                                      s1: System, c: Campus, now: Instant, s2: System)
    requires AllCurrent(s) && Happens(s, Edit(d, Timetable.Update(id, input, org)), s1)
    requires Happens(s1, Generate(c, now), s2)
    requires Timetable.UpdateResult(s.lectures, d, id, input, org).Ok?
    ensures s1.lectures[id] == Timetable.UpdateResult(s.lectures, d, id, input, org).value && HasSlot(s1.lectures[id])
    ensures forall draft :: s1.lectures[id].isActive && CallsFor(c, id, s1.lectures[id], now, draft) ==>
      QueuedOrHistory(s2.rows, draft)
    ensures forall i :: i in s2.rows && s2.rows[i].key.lecture == id && !IsOver(s2.rows[i]) ==>
      IsCalledFor(c, s1.lectures, id, now, s2.rows[i])
  {
    EditKeepsCurrent(s, d, Timetable.Update(id, input, org), s1);
    EditLeavesOnlyHistory(s, d, id, input, org, s1);
    assert Timetable.WellFormed(s1.lectures[id]);
    forall i | i in s2.rows && s2.rows[i].key.lecture == id && s2.rows[i].status != Sent && s2.rows[i].status != Failed
      ensures IsCalledFor(c, s1.lectures, id, now, s2.rows[i]) {
      assert i !in s1.rows;
      NewReminderIsCurrent(c, s1.lectures, now, s1.rows, s2.rows[i]);
    }
    forall draft | s1.lectures[id].isActive && CallsFor(c, id, s1.lectures[id], now, draft)
        ensures QueuedOrHistory(s2.rows, draft) {
      assert id in ActiveIds(s1.lectures) && LectureCallsFor(c, s1.lectures, id, now, draft);
      assert CalledFor(c, s1.lectures, ActiveIds(s1.lectures), now, draft);
      var i :| i in s2.rows && s2.rows[i].key == draft.key;
      if s2.rows[i].status != Sent && s2.rows[i].status != Failed {
        assert IsCalledFor(c, s1.lectures, id, now, s2.rows[i]);
        var e :| LectureCallsFor(c, s1.lectures, id, now, e) && s2.rows[i] == RowOf(e);
        KeyFixesTheDraft(c, s1.lectures, id, now, draft, e);
      }
    }
  }

  predicate IsOver(n: Notification) {
    n.status == Sent || n.status == Failed
  }

  ghost predicate QueuedOrHistory(rows: Table, draft: Draft) {
    exists i :: i in rows && rows[i].key == draft.key
        && (rows[i] == RowOf(draft) || rows[i].status == Sent || rows[i].status == Failed)
  }

  ghost predicate IsCalledFor(c: Campus, lectures: Timetable.Table, id: LectureId, now: Instant, n: Notification) {
    id in lectures && lectures[id].isActive && exists d :: LectureCallsFor(c, lectures, id, now, d) && n == RowOf(d)
  }
}
