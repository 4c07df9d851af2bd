/** Creating, editing and deactivating lectures, and why the timetable never
    holds a clash. One request at a time: the conflict lookup and the write are
    separate statements without a lock between them. */
module Timetable {
  import opened Prelude
  import opened Lectures
  import Clock
  import Cohort
  import Text

  type Table = map<LectureId, Lecture>

  datatype Staff = Staff(org: OrgId, isInstructor: bool, isActive: bool)

  /** What the requests are checked against. */
  datatype Directory = Directory(courses: map<CourseId, OrgId>, users: map<UserId, Staff>)

  datatype Error = NotFound | BadRequest | Conflict

  datatype UpdateInput = UpdateInput(
    course: Option<CourseId>, instructor: Option<UserId>, address: Option<Cohort.Address>, day: Option<nat>,
    startTime: Option<string>, endTime: Option<string>, room: Option<string>, isActive: Option<bool>)

  datatype Probe = Probe(org: OrgId, day: nat, startTime: string, endTime: string, exclude: Option<LectureId>)

  /* ------------------------------- Lookups --------------------------------- */

  predicate Overlapping(id: LectureId, l: Lecture, probe: Probe) {
    && l.org == probe.org && l.day == probe.day && l.isActive
    && Clock.Before(l.startTime, probe.endTime) && Clock.Before(probe.startTime, l.endTime)
    && probe.exclude != Some(id)
  }

  predicate InstructorConflict(t: Table, instructor: UserId, probe: Probe) {
    exists id :: id in t && Overlapping(id, t[id], probe) && t[id].instructor == instructor
  }

  predicate RoomConflict(t: Table, room: string, probe: Probe) {
    exists id :: id in t && Overlapping(id, t[id], probe) && Text.Fold(t[id].room) == Text.Fold(Text.Trim(room))
  }

  predicate SlotIsFree(t: Table, l: Lecture, exclude: Option<LectureId>) {
    var probe := Probe(l.org, l.day, l.startTime, l.endTime, exclude);
    !InstructorConflict(t, l.instructor, probe) && !RoomConflict(t, l.room, probe)
  }

  predicate CourseInOrg(d: Directory, course: CourseId, org: OrgId) {
    course in d.courses && d.courses[course] == org
  }

  predicate InstructorInOrg(d: Directory, instructor: UserId, org: OrgId) {
    instructor in d.users && d.users[instructor] == Staff(org, true, true)
  }

  /* ------------------------------ Operations ------------------------------- */

  /** What the request validator leaves of a lecture's times and room. */
  predicate WellFormed(l: Lecture) {
    && Clock.IsHHMM(l.startTime) && Clock.IsHHMM(l.endTime) && Clock.Minutes(l.startTime) < Clock.Minutes(l.endTime)
    && Text.IsTrimmed(l.room) && l.day < 7
  }

  function Merge(l: Lecture, input: UpdateInput): Lecture {
    Lecture(
      l.org,
      if input.course.Some? then input.course.value else l.course,
      if input.instructor.Some? then input.instructor.value else l.instructor,
      if input.address.Some? then input.address.value else l.address,
      if input.day.Some? then input.day.value else l.day,
      if input.startTime.Some? then input.startTime.value else l.startTime,
      if input.endTime.Some? then input.endTime.value else l.endTime,
      if input.room.Some? then input.room.value else l.room,
      if input.isActive.Some? then input.isActive.value else l.isActive)
  }

  predicate WellFormedInput(input: UpdateInput) {
    && (input.startTime.Some? ==> Clock.IsHHMM(input.startTime.value))
    && (input.endTime.Some? ==> Clock.IsHHMM(input.endTime.value))
    && (input.room.Some? ==> Text.IsTrimmed(input.room.value))
    && (input.day.Some? ==> input.day.value < 7)
  }

  function CreateResult(t: Table, d: Directory, l: Lecture): Result<Lecture, Error> {
    if !CourseInOrg(d, l.course, l.org) then Err(NotFound)
    else if !InstructorInOrg(d, l.instructor, l.org) then Err(BadRequest)
    else if !SlotIsFree(t, l, None) then Err(Conflict)
    else Ok(l)
  }

  function UpdateResult(t: Table, d: Directory, id: LectureId, input: UpdateInput, org: OrgId): Result<Lecture, Error> {
    if id !in t || t[id].org != org then Err(NotFound)
    else if input.course.Some? && !CourseInOrg(d, input.course.value, org) then Err(NotFound)
    else if input.instructor.Some? && !InstructorInOrg(d, input.instructor.value, org) then Err(BadRequest)
    else
      var merged := Merge(t[id], input);
      if !Clock.Before(merged.startTime, merged.endTime) then Err(BadRequest)
      else if merged.isActive && !SlotIsFree(t, merged, Some(id)) then Err(Conflict)
      else Ok(merged)
  }

  datatype Op =
    | Create(id: LectureId, lecture: Lecture)
    | Update(id: LectureId, input: UpdateInput, org: OrgId)
    | Deactivate(id: LectureId, org: OrgId)

  /** A fresh id, and fields the validator has passed; a new lecture is active. */
  predicate Allowed(t: Table, op: Op) {
    match op
    case Create(id, l) => id !in t && WellFormed(l) && l.isActive
    case Update(_, input, _) => WellFormedInput(input)
    case Deactivate(_, _) => true
  }

  function After(t: Table, d: Directory, op: Op): Table {
    match op
    case Create(id, l) => if CreateResult(t, d, l).Ok? then t[id := l] else t
    case Update(id, input, org) =>
      var r := UpdateResult(t, d, id, input, org);
      if r.Ok? then t[id := r.value] else t
    case Deactivate(id, org) =>
      if id in t && t[id].org == org then t[id := t[id].(isActive := false)] else t
  }

  /* ----------------------------- Clash-freedom ----------------------------- */

  /** Some minute of the day belongs to both lectures. */
  ghost predicate ShareAMinute(a: Lecture, b: Lecture)
    requires WellFormed(a) && WellFormed(b)
  {
    exists m: int :: Running(a, m) && Running(b, m)
  }

  /** Half-open: the minute a lecture ends is free again. */
  predicate Running(l: Lecture, minute: int)
    requires WellFormed(l)
  {
    Clock.Minutes(l.startTime) <= minute < Clock.Minutes(l.endTime)
  }

  /** Both running at one moment with one instructor, or in one room. */
  ghost predicate Clash(a: Lecture, b: Lecture)
    requires WellFormed(a) && WellFormed(b)
  {
    && a.isActive && b.isActive && a.org == b.org && a.day == b.day && ShareAMinute(a, b)
    && (a.instructor == b.instructor || Text.Fold(a.room) == Text.Fold(b.room))
  }

  ghost predicate ClashFree(t: Table) {
    && (forall id :: id in t ==> WellFormed(t[id]))
    && (forall i, j :: i in t && j in t && i != j ==> WellFormed(t[i]) && WellFormed(t[j]) && !Clash(t[i], t[j]))
  }

  lemma OverlapMeansAMinute(a: Lecture, b: Lecture)
    requires WellFormed(a) && WellFormed(b)
    ensures ShareAMinute(a, b) <==> Clock.Before(a.startTime, b.endTime) && Clock.Before(b.startTime, a.endTime)
  {
    Clock.StringOrderIsTimeOrder(a.startTime, b.endTime);
    Clock.StringOrderIsTimeOrder(b.startTime, a.endTime);
    if Clock.Before(a.startTime, b.endTime) && Clock.Before(b.startTime, a.endTime) {
      var m := if Clock.Minutes(a.startTime) < Clock.Minutes(b.startTime) then Clock.Minutes(b.startTime)
          else Clock.Minutes(a.startTime);
      assert Running(a, m) && Running(b, m);
    }
  }

  /** The conflict lookups find exactly the clashes: a free slot clashes with
      nothing stored, and nothing else is refused. */
  lemma FreeSlotMeansNoClash(t: Table, l: Lecture, exclude: Option<LectureId>)
    requires WellFormed(l) && l.isActive && forall id :: id in t ==> WellFormed(t[id])
    ensures SlotIsFree(t, l, exclude) <==> forall id :: id in t && exclude != Some(id) ==> !Clash(l, t[id])
  {
    var probe := Probe(l.org, l.day, l.startTime, l.endTime, exclude);
    Text.TrimFixesExactlyTrimmedText(l.room);
    forall id | id in t ensures Overlapping(id, t[id], probe) <==>
      (exclude != Some(id) && t[id].isActive && l.org == t[id].org && l.day == t[id].day && ShareAMinute(l, t[id])) {
      OverlapMeansAMinute(l, t[id]);
    }
    if SlotIsFree(t, l, exclude) {
      forall id | id in t && exclude != Some(id) ensures !Clash(l, t[id]) {
        assert Overlapping(id, t[id], probe) ==>
            t[id].instructor != l.instructor && Text.Fold(t[id].room) != Text.Fold(l.room);
      }
    }
  }

  /* ---------------------- What a request is answered ----------------------- */

  ghost predicate AllWellFormed(t: Table) {
    forall id :: id in t ==> WellFormed(t[id])
  }

  /** An active instructor of the organization. */
  predicate Teaches(user: Staff, org: OrgId) {
    user.org == org && user.isInstructor && user.isActive
  }

  /** Some other lecture stored clashes with it. */
  ghost predicate ClashesIn(t: Table, l: Lecture, except: Option<LectureId>)
    requires AllWellFormed(t) && WellFormed(l)
  {
    exists id :: id in t && except != Some(id) && Clash(l, t[id])
  }

  /** A lecture is accepted exactly if its course and its instructor are the
      organization's and it clashes with none; otherwise the first of these that
      fails is the reason. */
  ghost predicate CreateAnswer(t: Table, d: Directory, l: Lecture, r: Result<Lecture, Error>)
    requires AllWellFormed(t) && WellFormed(l)
  {
    r == if l.course !in d.courses || d.courses[l.course] != l.org then Err(NotFound)
         else if l.instructor !in d.users || !Teaches(d.users[l.instructor], l.org) then Err(BadRequest)
         else if ClashesIn(t, l, None) then Err(Conflict)
         else Ok(l)
  }

  lemma CreateIsAnswered(t: Table, d: Directory, l: Lecture)
    requires AllWellFormed(t) && WellFormed(l) && l.isActive
    ensures CreateAnswer(t, d, l, CreateResult(t, d, l))
  {
    FreeSlotMeansNoClash(t, l, None);
  }

  /** A field that was sent is taken, one that was not stays. */
  predicate Sent<T(==)>(sent: Option<T>, before: T, after: T) {
    (sent.Some? ==> after == sent.value) && (sent.None? ==> after == before)
  }

  predicate TakesInput(l: Lecture, input: UpdateInput, merged: Lecture) {
    && merged.org == l.org
    && Sent(input.course, l.course, merged.course) && Sent(input.instructor, l.instructor, merged.instructor)
    && Sent(input.address, l.address, merged.address) && Sent(input.day, l.day, merged.day)
    && Sent(input.startTime, l.startTime, merged.startTime) && Sent(input.endTime, l.endTime, merged.endTime)
    && Sent(input.room, l.room, merged.room) && Sent(input.isActive, l.isActive, merged.isActive)
  }

  /** An edit of a lecture of the organization is accepted exactly if a course and an
      instructor that were sent are the organization's, the lecture as edited ends
      after it starts, and if active clashes with no other. */
  ghost predicate UpdateAnswer(t: Table, d: Directory, id: LectureId, input: UpdateInput, org: OrgId, merged: Lecture,
      r: Result<Lecture, Error>)
    requires AllWellFormed(t) && WellFormedInput(input)
  {
    if id !in t || t[id].org != org then r == Err(NotFound)
    else if input.course.Some? && (input.course.value !in d.courses || d.courses[input.course.value] != org) then
      r == Err(NotFound)
    else if input.instructor.Some?
        && (input.instructor.value !in d.users || !Teaches(d.users[input.instructor.value], org)) then
      r == Err(BadRequest)
    else
      && TakesInput(t[id], input, merged)
      && Clock.IsHHMM(merged.startTime) && Clock.IsHHMM(merged.endTime)
      && if Clock.Minutes(merged.startTime) >= Clock.Minutes(merged.endTime) then r == Err(BadRequest)
         else WellFormed(merged) && r == if ClashesIn(t, merged, Some(id)) then Err(Conflict) else Ok(merged)
  }

  lemma UpdateIsAnswered(t: Table, d: Directory, id: LectureId, input: UpdateInput, org: OrgId)
    requires AllWellFormed(t) && WellFormedInput(input)
    ensures exists merged :: UpdateAnswer(t, d, id, input, org, merged, UpdateResult(t, d, id, input, org))
  {
    var r := UpdateResult(t, d, id, input, org);
    if id in t {
      var merged := Merge(t[id], input);
      Clock.StringOrderIsTimeOrder(merged.startTime, merged.endTime);
      if Clock.Before(merged.startTime, merged.endTime) {
        MergeIsWellFormed(t[id], input);
        EditedSlotIsFreeIff(t, merged, id);
      }
      assert UpdateAnswer(t, d, id, input, org, merged, r);
    } else {
      var any: Lecture :| true;
      assert UpdateAnswer(t, d, id, input, org, any, r);
    }
  }

  lemma EditedSlotIsFreeIff(t: Table, l: Lecture, id: LectureId)
    requires AllWellFormed(t) && WellFormed(l)
    ensures l.isActive && !SlotIsFree(t, l, Some(id)) <==> ClashesIn(t, l, Some(id))
  {
    if l.isActive {
      FreeSlotMeansNoClash(t, l, Some(id));
    }
  }

  lemma WritingAFreeSlot(t: Table, id: LectureId, l: Lecture)
    requires ClashFree(t) && WellFormed(l)
    requires l.isActive ==> forall j :: j in t && j != id ==> !Clash(l, t[j])
    ensures ClashFree(t[id := l])
  {
  }

  lemma MergeIsWellFormed(l: Lecture, input: UpdateInput)
    requires WellFormed(l) && WellFormedInput(input)
    requires Clock.Before(Merge(l, input).startTime, Merge(l, input).endTime)
    ensures WellFormed(Merge(l, input))
  {
    Clock.StringOrderIsTimeOrder(Merge(l, input).startTime, Merge(l, input).endTime);
  }

  lemma OpKeepsClashFree(t: Table, d: Directory, op: Op)
    requires ClashFree(t) && Allowed(t, op)
    ensures ClashFree(After(t, d, op))
  {
    match op
    case Create(id, l) =>
      FreeSlotMeansNoClash(t, l, None);
      if CreateResult(t, d, l).Ok? { WritingAFreeSlot(t, id, l); }
    case Update(id, input, org) =>
      var r := UpdateResult(t, d, id, input, org);
      if r.Ok? {
        MergeIsWellFormed(t[id], input);
        if r.value.isActive { FreeSlotMeansNoClash(t, r.value, Some(id)); }
        WritingAFreeSlot(t, id, r.value);
      }
    case Deactivate(id, org) =>
      if id in t { WritingAFreeSlot(t, id, t[id].(isActive := false)); }
  }

  function AfterAll(t: Table, d: Directory, ops: seq<Op>): Table {
    if ops == [] then t else After(AfterAll(t, d, ops[..|ops| - 1]), d, ops[|ops| - 1])
  }

  ghost predicate AllAllowed(t: Table, d: Directory, ops: seq<Op>) {
    forall i :: 0 <= i < |ops| ==> Allowed(AfterAll(t, d, ops[..i]), ops[i])
  }

  /** Every sequence of creates, edits, reactivations and deactivations keeps the
      timetable clash-free. */
  lemma {:induction false} TimetableStaysClashFree(d: Directory, ops: seq<Op>)
    requires AllAllowed(map[], d, ops)
    ensures ClashFree(AfterAll(map[], d, ops))
  {
    if ops != [] {
      var front := ops[..|ops| - 1];
      assert forall i :: 0 <= i < |front| ==> front[..i] == ops[..i];
      TimetableStaysClashFree(d, front);
      OpKeepsClashFree(AfterAll(map[], d, front), d, ops[|ops| - 1]);
    }
  }

  class ScheduleRepository {
    var table: Table

    constructor ()
      ensures table == map[]
    {
      table := map[];
    }

    method Write(id: LectureId, lecture: Lecture)
      modifies this
      ensures table == old(table)[id := lecture]
    {
      table := table[id := lecture];
    }
  }
}
