/** The timetable row: one weekly lecture, and how long it lasts. */
module Lectures {
  import opened Prelude
  import Clock
  import Cohort
  import SessionWindow

  datatype Lecture = Lecture(
    org: OrgId, course: CourseId, instructor: UserId, address: Cohort.Address,
    day: nat, startTime: string, endTime: string, room: string, isActive: bool)
  {
    function Times(): SessionWindow.SlotTimes {
      SessionWindow.SlotTimes(startTime, endTime)
    }
  }

  function TimesOf(lecture: Option<Lecture>): Option<SessionWindow.SlotTimes> {
    if lecture.None? then None else Some(lecture.value.Times())
  }

  /** Both times can be read, the end after the start. */
  ghost predicate Runs(l: Lecture, start: int, end: int) {
    Clock.Says(l.startTime, start) && Clock.Says(l.endTime, end) && start < end
  }

  /** A lecture lasts from its start to its end where both can be read in that
      order, and otherwise as long as is configured. */
  ghost predicate Lasts(l: Lecture, defaultMinutes: nat, minutes: int) {
    if exists start, end :: Runs(l, start, end) then exists start, end :: Runs(l, start, end) && minutes == end - start
    else minutes == defaultMinutes
  }

  lemma SaysOneTime(value: string, a: int, b: int)
    requires Clock.Says(value, a) && Clock.Says(value, b)
    ensures a == b && Clock.ClockMinutes(value) == Some(a)
  {
    Clock.ClockIsReadIff(value, a);
    Clock.ClockIsReadIff(value, b);
  }

  lemma ReadTimesRun(l: Lecture)
    ensures
      var start, end := Clock.ClockMinutes(l.startTime), Clock.ClockMinutes(l.endTime);
      start.Some? && end.Some? && start.value < end.value ==> Runs(l, start.value, end.value)
    ensures forall start, end :: Runs(l, start, end) ==>
      Clock.ClockMinutes(l.startTime) == Some(start) && Clock.ClockMinutes(l.endTime) == Some(end)
  {
    if Clock.ClockMinutes(l.startTime).Some? {
      Clock.ClockIsReadIff(l.startTime, Clock.ClockMinutes(l.startTime).value);
    }
    if Clock.ClockMinutes(l.endTime).Some? {
      Clock.ClockIsReadIff(l.endTime, Clock.ClockMinutes(l.endTime).value);
    }
    forall start, end | Runs(l, start, end)
      ensures Clock.ClockMinutes(l.startTime) == Some(start) && Clock.ClockMinutes(l.endTime) == Some(end)
    {
      SaysOneTime(l.startTime, start, start);
      SaysOneTime(l.endTime, end, end);
    }
  }

  /** What the sweep and the scan compute is the lecture's own length. */
  lemma DurationIsItsLength(l: Lecture, defaultMinutes: nat, minutes: int)
    ensures Lasts(l, defaultMinutes, minutes) <==>
      minutes == SessionWindow.LectureDurationMinutes(TimesOf(Some(l)), defaultMinutes)
  {
    ReadTimesRun(l);
  }

  /** A lecture with valid times lasts from the one to the other. */
  lemma ValidLecturesLast(l: Lecture, defaultMinutes: nat, minutes: int)
    requires Clock.IsHHMM(l.startTime) && Clock.IsHHMM(l.endTime)
    requires Clock.Minutes(l.startTime) < Clock.Minutes(l.endTime)
    ensures Lasts(l, defaultMinutes, minutes) <==> minutes == Clock.Minutes(l.endTime) - Clock.Minutes(l.startTime)
  {
    DurationIsItsLength(l, defaultMinutes, minutes);
    Clock.ValidClocksAreRead(l.startTime);
    Clock.ValidClocksAreRead(l.endTime);
  }
}
