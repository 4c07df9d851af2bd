/** The campus clock, and the two-pass conversion of a wall-clock time to an
    instant. Calendar dates are day numbers since the epoch; a local time is the
    number of milliseconds it would be if it were UTC. */
module Zones {
  import opened Prelude

  /** A date and a time of day, as a clock shows them. */
  datatype Reading = Reading(day: int, time: int)

  /** `clock` is what the formatter shows at an instant, to the second; `off` is
      the zone's true offset from UTC there. */
  datatype Zone = Zone(clock: Instant -> Reading, off: Instant -> int)

  function AsIfUtc(r: Reading): int {
    r.day * DAY_MS + r.time
  }

  function OffsetAt(z: Zone, t: Instant): int {
    AsIfUtc(z.clock(t)) - t
  }

  /** 0 is Sunday; day 0 of the epoch was a Thursday (ECMA-262, section 21.4.1). */
  function Weekday(day: int): nat {
    (day + 4) % 7
  }

  function ZonedTimeToUtcSpec(z: Zone, local: int): Instant {
    local - OffsetAt(z, local - OffsetAt(z, local))
  }

  /** Guess with the offset at the naive instant, then re-read the offset there. */
  method ZonedTimeToUtc(z: Zone, local: int) returns (instant: Instant)
    ensures instant == ZonedTimeToUtcSpec(z, local)
  {
    instant := local - OffsetAt(z, local);
    instant := local - OffsetAt(z, instant);
  }

  /** At `t` the offset is whole seconds and less than a day, and the formatter
      shows the local time cut to the second. */
  ghost predicate Shows(z: Zone, t: Instant) {
    && z.off(t) % SECOND_MS == 0 && -DAY_MS < z.off(t) < DAY_MS
    && 0 <= z.clock(t).time < DAY_MS
    && AsIfUtc(z.clock(t)) == t + z.off(t) - (t + z.off(t)) % SECOND_MS
  }

  ghost predicate IsZone(z: Zone) {
    forall t :: Shows(z, t)
  }

  /** Within a day of `local` the zone changes its offset at most once: it is
      `before` up to the change and `after` from there on. */
  ghost predicate OneChangeNear(z: Zone, local: int, change: Instant, before: int, after: int) {
    forall t :: local - DAY_MS <= t <= local + DAY_MS ==> z.off(t) == if t < change then before else after
  }

  /** The clock does show this local time at some instant. */
  ghost predicate LocalTimeExists(z: Zone, local: int) {
    exists t :: t + z.off(t) == local
  }

  lemma WholeSum(a: int, b: int)
    requires a % SECOND_MS == 0 && b % SECOND_MS == 0
    ensures (a + b) % SECOND_MS == 0 && (a - b) % SECOND_MS == 0
  {
    var i, j := a / SECOND_MS, b / SECOND_MS;
    assert a == i * SECOND_MS && b == j * SECOND_MS;
    assert a + b == (i + j) * SECOND_MS && a - b == (i - j) * SECOND_MS;
  }

  /** On a whole second the formatter loses nothing. */
  lemma WholeSecondOffset(z: Zone, t: Instant)
    requires IsZone(z) && t % SECOND_MS == 0
    ensures OffsetAt(z, t) == z.off(t) && AsIfUtc(z.clock(t)) == t + z.off(t)
    ensures z.off(t) % SECOND_MS == 0 && -DAY_MS < z.off(t) < DAY_MS
  {
    assert Shows(z, t);
    WholeSum(t, z.off(t));
  }

  /** The result reads the true offset twice and lies within a day. */
  lemma TwoPasses(z: Zone, local: int)
    requires IsZone(z) && local % SECOND_MS == 0
    ensures
      var guess := local - z.off(local);
      var result := ZonedTimeToUtcSpec(z, local);
      && result == local - z.off(guess)
      && local - DAY_MS < guess < local + DAY_MS
      && local - DAY_MS < result < local + DAY_MS
      && AsIfUtc(z.clock(result)) == result + z.off(result)
  {
    WholeSecondOffset(z, local);
    var guess := local - z.off(local);
    WholeSum(local, z.off(local));
    WholeSecondOffset(z, guess);
    WholeSum(local, z.off(guess));
    WholeSecondOffset(z, local - z.off(guess));
  }

  /** Reading the clock at the result gives back every local time that exists,
      the ambiguous hour included, where it is one of the two valid instants. */
  lemma ExistingTimesRoundTrip(z: Zone, local: int, change: Instant, before: int, after: int)
    requires IsZone(z) && local % SECOND_MS == 0 && OneChangeNear(z, local, change, before, after)
    requires LocalTimeExists(z, local)
    ensures
      var result := ZonedTimeToUtcSpec(z, local);
      && AsIfUtc(z.clock(result)) == result + z.off(result) == local
      && (result == local - before || result == local - after)
  {
    TwoPasses(z, local);
    var t :| t + z.off(t) == local;
    assert Shows(z, t);
    assert local - DAY_MS <= t <= local + DAY_MS;
  }

  /** A local time skipped by the clocks comes out early or late by exactly the
      size of the change. */
  lemma SkippedTimesMissByTheChange(z: Zone, local: int, change: Instant, before: int, after: int)
    requires IsZone(z) && local % SECOND_MS == 0 && OneChangeNear(z, local, change, before, after)
    requires !LocalTimeExists(z, local)
    ensures
      var error := AsIfUtc(z.clock(ZonedTimeToUtcSpec(z, local))) - local;
      after > before && (error == after - before || error == before - after)
  {
    TwoPasses(z, local);
    var guess, result := local - z.off(local), ZonedTimeToUtcSpec(z, local);
    assert guess + z.off(guess) != local && result + z.off(result) != local;
  }
}
