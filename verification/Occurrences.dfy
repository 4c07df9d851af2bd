/** From a weekly slot to the instants it produces: the bounded walk over local
    calendar days, and what it returns. */
module Occurrences {
  import opened Prelude
  import opened Zones
  import opened WeeklyWalk

  /** "SUNDAY, 12:00": a weekday and the minutes past midnight of the start. */
  datatype Slot = Slot(day: nat, minutes: nat)

  predicate ValidSlot(slot: Slot) {
    slot.day < 7 && slot.minutes < 24 * 60
  }

  function LocalStart(slot: Slot, day: int): int {
    day * DAY_MS + slot.minutes * MINUTE_MS
  }

  /** The instant the slot produces on a calendar day. */
  function OnDays(z: Zone, slot: Slot): DayInstant {
    day => ZonedTimeToUtcSpec(z, LocalStart(slot, day))
  }

  function DaysWalked(horizonMs: int): int {
    (horizonMs + DAY_MS - 1) / DAY_MS + 2
  }

  function Hits(z: Zone, slot: Slot, from: Instant, horizonMs: int): seq<int> {
    if horizonMs <= 0 then []
    else DaysHit(OnDays(z, slot), slot.day, from, from + horizonMs, z.clock(from).day, DaysWalked(horizonMs) + 1)
  }

  function Between(z: Zone, slot: Slot, from: Instant, horizonMs: int): seq<Instant> {
    Instants(OnDays(z, slot), Hits(z, slot, from, horizonMs))
  }

  method OccurrencesBetween(z: Zone, slot: Slot, from: Instant, horizonMs: int) returns (occurrences: seq<Instant>)
    ensures occurrences == Between(z, slot, from, horizonMs)
    ensures ValidSlot(slot) && Regular(z, slot) ==> OnItsWeekday(z, slot, from, from + horizonMs, occurrences)
  {
    occurrences := WalkAhead(z, slot, from, horizonMs);
    ghost var until := from + horizonMs;
    if ValidSlot(slot) && Regular(z, slot) {
      OccurrencesFallOnTheWeekday(z, slot, from, horizonMs, until);
    }
  }

  /** As many days as the horizon can reach, and one more at either end. */
  method WalkAhead(z: Zone, slot: Slot, from: Instant, horizonMs: int) returns (occurrences: seq<Instant>)
    ensures occurrences == Between(z, slot, from, horizonMs)
  {
    occurrences := [];
    if horizonMs <= 0 {
      return;
    }
    var firstDay := z.clock(from).day;
    var days := DaysWalked(horizonMs);
    occurrences := Walk(z, slot, from, from + horizonMs, firstDay, days + 1);
  }

  /** The walk over n calendar days, one weekday kept. */
  method Walk(z: Zone, slot: Slot, from: Instant, until: Instant, firstDay: int, n: nat)
    returns (occurrences: seq<Instant>)
    ensures occurrences == Instants(OnDays(z, slot), DaysHit(OnDays(z, slot), slot.day, from, until, firstDay, n))
  {
    occurrences := [];
    ghost var at := OnDays(z, slot);
    for offset := 0 to n
      invariant occurrences == Instants(at, DaysHit(at, slot.day, from, until, firstDay, offset))
    {
      OneMoreDay(at, slot.day, from, until, firstDay, offset);
      var today := OccurrenceOn(z, slot, from, until, firstDay + offset);
      occurrences := occurrences + today;
    }
  }

  method OccurrenceOn(z: Zone, slot: Slot, from: Instant, until: Instant, day: int) returns (today: seq<Instant>)
    ensures today == if Falls(OnDays(z, slot), slot.day, from, until, day) then [OnDays(z, slot)(day)] else []
  {
    today := [];
    if Weekday(day) == slot.day {
      var occurrence := ZonedTimeToUtc(z, LocalStart(slot, day));
      if occurrence > from && occurrence <= until {
        today := [occurrence];
      }
    }
  }

  /* ------------------------------ The campus zone -------------------------- */

  /** Around this local time the zone changes at most once, and the time exists. */
  ghost predicate Settles(z: Zone, local: int) {
    LocalTimeExists(z, local) && exists change, before, after :: OneChangeNear(z, local, change, before, after)
  }

  ghost predicate StartSettles(z: Zone, slot: Slot, day: int) {
    Wanted(slot.day, day) ==> Settles(z, LocalStart(slot, day))
  }

  ghost predicate ShiftsUnderADay(z: Zone, s: Instant, t: Instant) {
    -DAY_MS < z.off(s) - z.off(t) < DAY_MS
  }

  ghost predicate DateNotBackwards(z: Zone, s: Instant, t: Instant) {
    s <= t ==> z.clock(s).day <= z.clock(t).day
  }

  /** What is asked of a real zone: whole-second offsets that never differ by a
      day, a local date that never goes backwards, and no lecture start that the
      clocks skip. */
  ghost predicate Regular(z: Zone, slot: Slot) {
    && IsZone(z)
    && (forall s, t :: ShiftsUnderADay(z, s, t))
    && (forall s, t :: DateNotBackwards(z, s, t))
    && (forall day :: StartSettles(z, slot, day))
  }

  lemma WholeStart(slot: Slot, day: int)
    requires ValidSlot(slot)
    ensures LocalStart(slot, day) % SECOND_MS == 0
  {
    assert LocalStart(slot, day) == (day * 86_400 + slot.minutes * 60) * SECOND_MS;
  }

  /** The clock reads the slot's own day and time at the instant produced. */
  lemma OccurrenceReadsRight(z: Zone, slot: Slot, day: int)
    requires ValidSlot(slot) && Regular(z, slot) && Wanted(slot.day, day)
    ensures
      var t := OnDays(z, slot)(day);
      t + z.off(t) == LocalStart(slot, day) && z.clock(t) == Reading(day, slot.minutes * MINUTE_MS)
  {
    var local := LocalStart(slot, day);
    WholeStart(slot, day);
    assert StartSettles(z, slot, day);
    var change, before, after :| OneChangeNear(z, local, change, before, after);
    ExistingTimesRoundTrip(z, local, change, before, after);
    var t := OnDays(z, slot)(day);
    assert Shows(z, t);
    ReadingIsUnique(z.clock(t), Reading(day, slot.minutes * MINUTE_MS));
  }

  lemma ReadingIsUnique(a: Reading, b: Reading)
    requires 0 <= a.time < DAY_MS && 0 <= b.time < DAY_MS && AsIfUtc(a) == AsIfUtc(b)
    ensures a == b
  {
  }

  /** While the offset stays, the clock moves with the instant. */
  lemma ReadsLater(z: Zone, slot: Slot, day: int, t: Instant, minutes: nat)
    requires IsZone(z) && ValidSlot(slot) && minutes < 24 * 60 && t + z.off(t) == LocalStart(slot, day)
    requires z.off(t + (minutes - slot.minutes) * MINUTE_MS) == z.off(t)
    ensures z.clock(t + (minutes - slot.minutes) * MINUTE_MS) == Reading(day, minutes * MINUTE_MS)
  {
    var end := t + (minutes - slot.minutes) * MINUTE_MS;
    assert Shows(z, end);
    WholeStart(Slot(slot.day, minutes), day);
    ReadingIsUnique(z.clock(end), Reading(day, minutes * MINUTE_MS));
  }

  /** Later days give later instants; a week apart but for the change of offset. */
  lemma LaterDayLaterInstant(z: Zone, slot: Slot, a: int, b: int)
    requires ValidSlot(slot) && Regular(z, slot) && Wanted(slot.day, a) && Wanted(slot.day, b) && a < b
    ensures
      var s, t := OnDays(z, slot)(a), OnDays(z, slot)(b);
      s < t && t - s == (b - a) * DAY_MS - (z.off(t) - z.off(s))
  {
    OccurrenceReadsRight(z, slot, a);
    OccurrenceReadsRight(z, slot, b);
    var s, t := OnDays(z, slot)(a), OnDays(z, slot)(b);
    assert ShiftsUnderADay(z, s, t);
    DaysApart(a, b);
  }

  lemma DaysApart(a: int, b: int)
    requires a < b
    ensures (b - a) * DAY_MS >= DAY_MS && b * DAY_MS - a * DAY_MS == (b - a) * DAY_MS
  {
  }

  lemma SlotRises(z: Zone, slot: Slot)
    requires ValidSlot(slot) && Regular(z, slot)
    ensures Rises(OnDays(z, slot), slot.day)
  {
    forall a, b ensures Later(OnDays(z, slot), slot.day, a, b) {
      if Wanted(slot.day, a) && Wanted(slot.day, b) && a < b {
        LaterDayLaterInstant(z, slot, a, b);
      }
    }
  }

  /** The local day an instant falls on, in terms of the true local time. */
  lemma DayBounds(z: Zone, t: Instant)
    requires IsZone(z)
    ensures z.clock(t).day * DAY_MS <= t + z.off(t) < (z.clock(t).day + 1) * DAY_MS
  {
    assert Shows(z, t);
    CutToTheSecond(t + z.off(t), (z.clock(t).day + 1) * 86_400);
  }

  lemma CutToTheSecond(shown: int, k: int)
    ensures var cut := shown - shown % SECOND_MS; cut <= shown && (cut < k * SECOND_MS ==> shown < k * SECOND_MS)
  {
  }

  /** The walk is wide enough: no day outside it falls in the window. */
  lemma WalkIsWideEnough(z: Zone, slot: Slot, from: Instant, horizonMs: int)
    requires ValidSlot(slot) && Regular(z, slot) && horizonMs > 0
    ensures Covers(OnDays(z, slot), slot.day, from, from + horizonMs, z.clock(from).day, DaysWalked(horizonMs) + 1)
  {
    var at, until := OnDays(z, slot), from + horizonMs;
    var first, n := z.clock(from).day, DaysWalked(horizonMs) + 1;
    DayBounds(z, from);
    DayBounds(z, until);
    assert ShiftsUnderADay(z, until, from);
    CeilBound(horizonMs);
    assert z.clock(until).day < first + n;
    forall day ensures Covered(at, slot.day, from, until, first, n, day) {
      if Falls(at, slot.day, from, until, day) {
        OccurrenceReadsRight(z, slot, day);
        assert DateNotBackwards(z, from, at(day)) && DateNotBackwards(z, at(day), until);
      }
    }
  }

  lemma CeilBound(h: int)
    requires h > 0
    ensures h <= (DaysWalked(h) - 2) * DAY_MS
  {
  }

  /* ------------------------------ The theorems ----------------------------- */

  ghost predicate IsSlotWindow(z: Zone, slot: Slot, from: Instant, until: Instant, s: seq<Instant>) {
    IsWindow(OnDays(z, slot), slot.day, from, until, s)
  }

  /** The window's occurrences are exactly the slot's instants in (from, until],
      in increasing order. */
  lemma WindowIsExact(z: Zone, slot: Slot, from: Instant, horizonMs: int)
    requires ValidSlot(slot) && Regular(z, slot)
    ensures IsSlotWindow(z, slot, from, from + horizonMs, Between(z, slot, from, horizonMs))
  {
    if horizonMs > 0 {
      SlotRises(z, slot);
      WalkIsWideEnough(z, slot, from, horizonMs);
      WalkIsExact(OnDays(z, slot), slot.day, from, from + horizonMs, z.clock(from).day, DaysWalked(horizonMs) + 1);
    }
  }

  /** Counted from day 3 of the epoch: 4 January 1970 was a Sunday. */
  predicate IsWeekday(weekday: nat, day: int) {
    (day - 3 - weekday) % 7 == 0
  }

  /** In the window, on the slot's weekday and at its time as the zone's clock shows
      them; and nothing the slot produces there is missing. */
  ghost predicate OnItsWeekday(z: Zone, slot: Slot, from: Instant, until: Instant, s: seq<Instant>) {
    && (forall t :: t in s ==>
          && from < t <= until && IsWeekday(slot.day, z.clock(t).day) && z.clock(t).time == slot.minutes * MINUTE_MS)
    && (forall day :: IsWeekday(slot.day, day) && from < OnDays(z, slot)(day) <= until ==> OnDays(z, slot)(day) in s)
  }

  lemma WantedIsTheWeekday(weekday: nat, day: int)
    requires weekday < 7
    ensures Wanted(weekday, day) <==> IsWeekday(weekday, day)
  {
  }

  lemma OccurrencesFallOnTheWeekday(z: Zone, slot: Slot, from: Instant, horizonMs: int, until: Instant)
    requires ValidSlot(slot) && Regular(z, slot) && until == from + horizonMs
    ensures OnItsWeekday(z, slot, from, until, Between(z, slot, from, horizonMs))
  {
    var at, s := OnDays(z, slot), Between(z, slot, from, horizonMs);
    WindowIsExact(z, slot, from, horizonMs);
    forall t | t in s
      ensures from < t <= until && IsWeekday(slot.day, z.clock(t).day) && z.clock(t).time == slot.minutes * MINUTE_MS
    {
      assert Produces(at, slot.day, from, until, t);
      var day :| Falls(at, slot.day, from, until, day) && at(day) == t;
      OccurrenceReadsRight(z, slot, day);
      WantedIsTheWeekday(slot.day, day);
    }
    forall day | IsWeekday(slot.day, day) && from < at(day) <= until ensures at(day) in s {
      WantedIsTheWeekday(slot.day, day);
      assert Falls(at, slot.day, from, until, day);
    }
  }

  /** Consecutive occurrences are a week apart up to the change of offset between
      them: none is skipped. */
  lemma WeeklyWithoutGaps(z: Zone, slot: Slot, from: Instant, horizonMs: int, i: nat)
    requires ValidSlot(slot) && Regular(z, slot) && i + 1 < |Between(z, slot, from, horizonMs)|
    ensures
      var s := Between(z, slot, from, horizonMs);
      s[i + 1] - s[i] == 7 * DAY_MS - (z.off(s[i + 1]) - z.off(s[i]))
  {
    var hits := Hits(z, slot, from, horizonMs);
    SlotRises(z, slot);
    WalkIsWideEnough(z, slot, from, horizonMs);
    NextHitIsAWeekLater(OnDays(z, slot), slot.day, from, from + horizonMs, z.clock(from).day, DaysWalked(horizonMs) + 1,
        i);
    LaterDayLaterInstant(z, slot, hits[i], hits[i + 1]);
  }

  /** Looking ahead twice, back to back, is looking ahead once. */
  lemma AdjacentWindowsConcatenate(z: Zone, slot: Slot, from: Instant, h1: int, h2: int)
    requires ValidSlot(slot) && Regular(z, slot) && h1 >= 0 && h2 >= 0
    ensures Between(z, slot, from, h1) + Between(z, slot, from + h1, h2) == Between(z, slot, from, h1 + h2)
  {
    WindowIsExact(z, slot, from, h1);
    WindowIsExact(z, slot, from + h1, h2);
    WindowIsExact(z, slot, from, h1 + h2);
    SlotWindowsConcatenate(z, slot, Between(z, slot, from, h1), Between(z, slot, from + h1, h2),
                           Between(z, slot, from, h1 + h2), from, from + h1, from + (h1 + h2));
  }

  lemma SlotWindowsConcatenate(z: Zone, slot: Slot, a: seq<Instant>, b: seq<Instant>, all: seq<Instant>, from: Instant,
      mid: Instant, until: Instant)
    requires ValidSlot(slot) && from <= mid <= until
    requires IsSlotWindow(z, slot, from, mid, a) && IsSlotWindow(z, slot, mid, until, b)
    requires IsSlotWindow(z, slot, from, until, all)
    ensures a + b == all
  {
    WindowsConcatenate(OnDays(z, slot), slot.day, a, b, all, from, mid, until);
  }

  function NextOccurrence(z: Zone, slot: Slot, from: Instant): Option<Instant> {
    var s := Between(z, slot, from, 8 * DAY_MS);
    if s == [] then None else Some(s[0])
  }

  /** There always is a next occurrence, and it is the least instant the slot
      produces after `from`. */
  lemma NextOccurrenceIsLeast(z: Zone, slot: Slot, from: Instant)
    requires ValidSlot(slot) && Regular(z, slot)
    ensures NextOccurrence(z, slot, from).Some?
    ensures
      var next := NextOccurrence(z, slot, from).value;
      && Produces(OnDays(z, slot), slot.day, from, next, next)
      && forall day :: Wanted(slot.day, day) && OnDays(z, slot)(day) > from ==> next <= OnDays(z, slot)(day)
  {
    var at, until := OnDays(z, slot), from + 8 * DAY_MS;
    var s := Between(z, slot, from, 8 * DAY_MS);
    WindowIsExact(z, slot, from, 8 * DAY_MS);
    var today := SomeDayWithinAWeek(z, slot, from);
    assert Produces(at, slot.day, from, until, at(today));
    assert at(today) in s;
    var next := s[0];
    assert next in s;
    var first :| Falls(at, slot.day, from, until, first) && at(first) == next;
    assert Falls(at, slot.day, from, next, first);
    forall day | Wanted(slot.day, day) && at(day) > from ensures next <= at(day) {
      if at(day) <= until {
        assert Falls(at, slot.day, from, until, day);
        assert at(day) in s;
      }
    }
  }

  lemma SomeDayWithinAWeek(z: Zone, slot: Slot, from: Instant) returns (day: int)
    requires ValidSlot(slot) && Regular(z, slot)
    ensures Falls(OnDays(z, slot), slot.day, from, from + 8 * DAY_MS, day)
  {
    var at, today := OnDays(z, slot), z.clock(from).day;
    day := NextWeekday(slot.day, today);
    DayBounds(z, from);
    OccurrenceReadsRight(z, slot, day);
    assert ShiftsUnderADay(z, from, at(day));
    if at(day) <= from {
      assert DateNotBackwards(z, at(day), from);
      assert day == today;
      WeekLater(slot.day, day);
      LaterDayLaterInstant(z, slot, day, day + 7);
      OccurrenceReadsRight(z, slot, day + 7);
      assert ShiftsUnderADay(z, from, at(day + 7)) && ShiftsUnderADay(z, at(day + 7), at(day));
      day := day + 7;
    }
  }

  lemma NextWeekday(weekday: nat, today: int) returns (day: int)
    requires weekday < 7
    ensures Wanted(weekday, day) && today <= day < today + 7
  {
    day := today + (weekday - Weekday(today)) % 7;
  }

  lemma WeekLater(weekday: nat, day: int)
    requires Wanted(weekday, day)
    ensures Wanted(weekday, day + 7)
  {
  }
}
