/** When a lecture is over, when its session has gone stale, and which sessions
    belong to the same weekly occurrence. Arithmetic only. */
module SessionWindow {
  import opened Prelude
  import Clock

  datatype SlotTimes = SlotTimes(startTime: string, endTime: string)

  datatype WindowConfig = WindowConfig(defaultSessionMinutes: nat, staleGraceMinutes: nat)

  datatype SessionStatus = Active | Closed

  datatype LifecycleState = Upcoming | InProgress | Pending | Recorded

  datatype AttendanceStatus = Present | Late | Absent

  const OPEN_EARLY_MS := 60 * MINUTE_MS
  const OPEN_LATE_MS := 12 * 60 * MINUTE_MS

  function LectureDurationMinutes(times: Option<SlotTimes>, defaultMinutes: nat): nat {
    if times.None? then defaultMinutes
    else
      var start := Clock.ClockMinutes(times.value.startTime);
      var end := Clock.ClockMinutes(times.value.endTime);
      if start.None? || end.None? || end.value <= start.value then defaultMinutes
      else end.value - start.value
  }

  function EndsAt(openedAt: Instant, times: Option<SlotTimes>, c: WindowConfig): Instant {
    openedAt + LectureDurationMinutes(times, c.defaultSessionMinutes) * MINUTE_MS
  }

  function StaleAt(openedAt: Instant, times: Option<SlotTimes>, c: WindowConfig): Instant {
    EndsAt(openedAt, times, c) + c.staleGraceMinutes * MINUTE_MS
  }

  function StateOf(status: SessionStatus, openedAt: Instant, times: Option<SlotTimes>, now: Instant,
                   c: WindowConfig): LifecycleState
  {
    if status == Closed then Recorded
    else if now < openedAt then Upcoming
    else if now > EndsAt(openedAt, times, c) then Pending
    else InProgress
  }

  predicate IsStale(status: SessionStatus, openedAt: Instant, times: Option<SlotTimes>, now: Instant,
                    c: WindowConfig)
  {
    status == Active && now > StaleAt(openedAt, times, c)
  }

  function PunctualityOf(openedAt: Instant, scannedAt: Instant, lateAfterMinutes: nat): (s: AttendanceStatus)
    ensures s == Present || s == Late
    ensures s == Present <==> scannedAt <= openedAt + lateAfterMinutes * MINUTE_MS
  {
    if scannedAt - openedAt > lateAfterMinutes * MINUTE_MS then Late else Present
  }

  function Rank(s: LifecycleState): nat {
    match s
    case Upcoming => 0
    case InProgress => 1
    case Pending => 2
    case Recorded => 3
  }

  /** Only a session whose lecture has ended can be closed as stale. */
  lemma StaleMeansPending(openedAt: Instant, times: Option<SlotTimes>, now: Instant, c: WindowConfig)
    requires IsStale(Active, openedAt, times, now, c)
    ensures StateOf(Active, openedAt, times, now, c) == Pending
  {
  }

  /** Whether a session that started at `startTime` belongs to this occurrence. */
  predicate BelongsToOccurrence(startTime: Instant, occurrence: Instant) {
    occurrence - OPEN_EARLY_MS <= startTime < occurrence + OPEN_LATE_MS
  }

  /** The half-open band in which `other` counts as a sibling of `anchor`. */
  predicate InSameOccurrenceWindow(anchor: Instant, other: Instant) {
    anchor - OPEN_LATE_MS <= other < anchor + OPEN_LATE_MS
  }

  /** Two occurrences of one weekly slot: the same, or a week apart less at most
      one hour of clock change. */
  predicate WeeklyApart(a: Instant, b: Instant) {
    a == b || a - b >= 7 * DAY_MS - HOUR_MS || b - a >= 7 * DAY_MS - HOUR_MS
  }

  /** The sibling band never reaches a session of another week. */
  lemma SiblingsShareTheOccurrence(startA: Instant, occurrenceA: Instant, startB: Instant, occurrenceB: Instant)
    requires WeeklyApart(occurrenceA, occurrenceB)
    requires BelongsToOccurrence(startA, occurrenceA) && BelongsToOccurrence(startB, occurrenceB)
    requires InSameOccurrenceWindow(startA, startB)
    ensures occurrenceA == occurrenceB
  {
  }

  /** Inside one occurrence the band is not complete. Two of its sessions see
      each other, both ways, exactly when they opened less than twelve hours
      apart; opening both at or after the lecture's start is enough. */
  lemma SessionsOfOneOccurrenceSeeEachOtherIff(a: Instant, b: Instant, occurrence: Instant)
    requires BelongsToOccurrence(a, occurrence) && BelongsToOccurrence(b, occurrence)
    ensures InSameOccurrenceWindow(a, b) && InSameOccurrenceWindow(b, a)
       <==> -12 * HOUR_MS < a - b < 12 * HOUR_MS
    ensures a >= occurrence && b >= occurrence ==>
      InSameOccurrenceWindow(a, b) && InSameOccurrenceWindow(b, a)
  {
  }

  /** One session opened an hour early, the other eleven and a half hours late:
      one occurrence, yet neither finds the other. */
  lemma EarlyAndLateSessionsMissEachOther(occurrence: Instant)
    ensures exists a, b ::
      && BelongsToOccurrence(a, occurrence) && BelongsToOccurrence(b, occurrence)
      && !InSameOccurrenceWindow(a, b) && !InSameOccurrenceWindow(b, a)
  {
    var a := occurrence - OPEN_EARLY_MS;
    var b := occurrence + 23 * (HOUR_MS / 2);
    assert BelongsToOccurrence(a, occurrence) && BelongsToOccurrence(b, occurrence);
  }
}
