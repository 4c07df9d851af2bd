/** A walk over consecutive calendar days, keeping the instants of one weekday
    that fall in a window. `at` gives the instant of a day. */
module WeeklyWalk {
  import opened Prelude
  import opened Zones

  type DayInstant = int -> Instant

  predicate Wanted(weekday: nat, day: int) {
    Weekday(day) == weekday
  }

  predicate Falls(at: DayInstant, weekday: nat, from: Instant, until: Instant, day: int) {
    Wanted(weekday, day) && from < at(day) <= until
  }

  /** The days among the first n walked on which the slot falls in the window. */
  function DaysHit(at: DayInstant, weekday: nat, from: Instant, until: Instant, first: int, n: nat): seq<int> {
    if n == 0 then []
    else
      var day := first + n - 1;
      DaysHit(at, weekday, from, until, first, n - 1) + if Falls(at, weekday, from, until, day) then [day] else []
  }

  function Instants(at: DayInstant, days: seq<int>): seq<Instant> {
    seq(|days|, i requires 0 <= i < |days| => at(days[i]))
  }

  lemma OneMoreDay(at: DayInstant, weekday: nat, from: Instant, until: Instant, first: int, n: nat)
    ensures Instants(at, DaysHit(at, weekday, from, until, first, n + 1))
      == Instants(at, DaysHit(at, weekday, from, until, first, n))
         + if Falls(at, weekday, from, until, first + n) then [at(first + n)] else []
  {
  }

  ghost predicate Increasing(s: seq<int>) {
    forall i, j :: 0 <= i < j < |s| ==> s[i] < s[j]
  }

  ghost predicate Later(at: DayInstant, weekday: nat, a: int, b: int) {
    Wanted(weekday, a) && Wanted(weekday, b) && a < b ==> at(a) < at(b)
  }

  /** Later days have later instants. */
  ghost predicate Rises(at: DayInstant, weekday: nat) {
    forall a, b :: Later(at, weekday, a, b)
  }

  ghost predicate Covered(at: DayInstant, weekday: nat, from: Instant, until: Instant, first: int, n: nat, day: int) {
    Falls(at, weekday, from, until, day) ==> first <= day < first + n
  }

  /** No day outside the walk falls in the window. */
  ghost predicate Covers(at: DayInstant, weekday: nat, from: Instant, until: Instant, first: int, n: nat) {
    forall day :: Covered(at, weekday, from, until, first, n, day)
  }

  /** The slot produces `t`, inside the window. */
  ghost predicate Produces(at: DayInstant, weekday: nat, from: Instant, until: Instant, t: Instant) {
    exists day :: Falls(at, weekday, from, until, day) && at(day) == t
  }

  /** `s` is what the slot produces in the window, in order. */
  ghost predicate IsWindow(at: DayInstant, weekday: nat, from: Instant, until: Instant, s: seq<Instant>) {
    Increasing(s) && forall t :: t in s <==> Produces(at, weekday, from, until, t)
  }

  lemma {:induction false} DaysHitExactly(at: DayInstant, weekday: nat, from: Instant, until: Instant, first: int,
      n: nat)
    ensures forall day :: day in DaysHit(at, weekday, from, until, first, n) <==>
      (first <= day < first + n && Falls(at, weekday, from, until, day))
    ensures Increasing(DaysHit(at, weekday, from, until, first, n))
  {
    if n > 0 {
      DaysHitExactly(at, weekday, from, until, first, n - 1);
      var before := DaysHit(at, weekday, from, until, first, n - 1);
      assert forall i :: 0 <= i < |before| ==> before[i] in before;
    }
  }

  /** A walk that covers the window returns exactly what falls in it, in order. */
  lemma WalkIsExact(at: DayInstant, weekday: nat, from: Instant, until: Instant, first: int, n: nat)
    requires Rises(at, weekday) && Covers(at, weekday, from, until, first, n)
    ensures IsWindow(at, weekday, from, until, Instants(at, DaysHit(at, weekday, from, until, first, n)))
  {
    var days := DaysHit(at, weekday, from, until, first, n);
    var s := Instants(at, days);
    DaysHitExactly(at, weekday, from, until, first, n);
    forall t ensures t in s <==> Produces(at, weekday, from, until, t) {
      if t in s {
        var i :| 0 <= i < |s| && s[i] == t;
        assert days[i] in days;
      }
      if day :| Falls(at, weekday, from, until, day) && at(day) == t {
        assert Covered(at, weekday, from, until, first, n, day);
        var i :| 0 <= i < |days| && days[i] == day;
        assert s[i] == t;
      }
    }
    forall i, j | 0 <= i < j < |s| ensures s[i] < s[j] {
      assert days[i] in days && days[j] in days;
      assert Later(at, weekday, days[i], days[j]);
    }
  }

  lemma SameWeekdayIsAWeek(weekday: nat, a: int, b: int)
    requires Wanted(weekday, a) && Wanted(weekday, b) && a < b
    ensures b - a >= 7 && Wanted(weekday, a + 7)
  {
  }

  /** No week is skipped between two consecutive hits. */
  lemma NextHitIsAWeekLater(at: DayInstant, weekday: nat, from: Instant, until: Instant, first: int, n: nat, i: nat)
    requires Rises(at, weekday) && Covers(at, weekday, from, until, first, n)
    requires i + 1 < |DaysHit(at, weekday, from, until, first, n)|
    ensures
      var days := DaysHit(at, weekday, from, until, first, n);
      Wanted(weekday, days[i]) && days[i + 1] == days[i] + 7
  {
    var days := DaysHit(at, weekday, from, until, first, n);
    DaysHitExactly(at, weekday, from, until, first, n);
    var a, b := days[i], days[i + 1];
    assert a in days && b in days && a < b;
    assert Falls(at, weekday, from, until, a) && Falls(at, weekday, from, until, b);
    SameWeekdayIsAWeek(weekday, a, b);
    if a + 7 < b {
      FallsInBetween(at, weekday, from, until, a, b);
      assert Covered(at, weekday, from, until, first, n, a + 7);
      assert a + 7 in days;
      var k :| 0 <= k < |days| && days[k] == a + 7;
      assert false;
    }
  }

  lemma FallsInBetween(at: DayInstant, weekday: nat, from: Instant, until: Instant, a: int, b: int)
    requires Rises(at, weekday) && Wanted(weekday, a + 7) && a + 7 < b
    requires Falls(at, weekday, from, until, a) && Falls(at, weekday, from, until, b)
    ensures Falls(at, weekday, from, until, a + 7)
  {
    assert Later(at, weekday, a, a + 7) && Later(at, weekday, a + 7, b);
  }

  lemma {:induction false} IncreasingIsDetermined(a: seq<int>, b: seq<int>)
    requires Increasing(a) && Increasing(b)
    requires forall x :: x in a <==> x in b
    ensures a == b
  {
    assert |a| > 0 ==> a[0] in a;
    assert |b| > 0 ==> b[0] in b;
    if a != [] {
      assert a[0] == b[0];
      forall x ensures x in a[1..] <==> x in b[1..] {
        if x in a[1..] { assert x in a && x != a[0]; }
        if x in b[1..] { assert x in b && x != b[0]; }
      }
      IncreasingIsDetermined(a[1..], b[1..]);
    }
  }

  /** Two windows end to end produce what the whole window produces. */
  lemma WindowsConcatenate(at: DayInstant, weekday: nat, a: seq<Instant>, b: seq<Instant>, all: seq<Instant>,
      from: Instant, mid: Instant, until: Instant)
    requires from <= mid <= until
    requires IsWindow(at, weekday, from, mid, a) && IsWindow(at, weekday, mid, until, b)
    requires IsWindow(at, weekday, from, until, all)
    ensures a + b == all
  {
    forall i | 0 <= i < |a| ensures a[i] <= mid {
      assert Produces(at, weekday, from, mid, a[i]);
    }
    forall i | 0 <= i < |b| ensures b[i] > mid {
      assert b[i] in b && Produces(at, weekday, mid, until, b[i]);
    }
    forall t ensures t in a + b <==> t in all {
      assert t in a + b <==> t in a || t in b;
      if t in all {
        var day :| Falls(at, weekday, from, until, day) && at(day) == t;
        assert Falls(at, weekday, from, mid, day) || Falls(at, weekday, mid, until, day);
      }
      if t in a {
        var day :| Falls(at, weekday, from, mid, day) && at(day) == t;
        assert Falls(at, weekday, from, until, day);
      }
      if t in b {
        var day :| Falls(at, weekday, mid, until, day) && at(day) == t;
        assert Falls(at, weekday, from, until, day);
      }
    }
    IncreasingIsDetermined(a + b, all);
  }
}
