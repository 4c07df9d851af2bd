/** What happened to each of a lecture's recent occurrences, read back from the
    timetable and the sessions opened against it. */
module OccurrenceHistory {
  import opened Prelude
  import opened SessionWindow
  import opened Lectures
  import opened Zones
  import opened AttendanceTables
  import opened AttendanceRepositories
  import opened Reminders
  import AttendanceServices
  import Clock
  import Occurrences
  import WeeklyWalk

  /** `session` is None for NOT_RECORDED; otherwise the session and its state. */
  datatype Report = Report(occurrence: Instant, session: Option<(SessionId, LifecycleState)>)

  datatype Counts = Counts(notRecorded: nat, upcoming: nat, inProgress: nat, pending: nat, recorded: nat)

  function ClampWeeks(weeks: Option<int>): (n: nat)
    ensures 1 <= n <= 26
    ensures weeks.None? ==> n == 4
    ensures weeks.Some? && weeks.value <= 1 ==> n == 1
    ensures weeks.Some? && weeks.value >= 26 ==> n == 26
    ensures weeks.Some? && 1 <= weeks.value <= 26 ==> n == weeks.value
  {
    var w := if weeks.None? then 4 else weeks.value;
    if w < 1 then 1 else if w > 26 then 26 else w
  }

  function WindowMs(weeks: Option<int>): (ms: nat)
    ensures ms >= 7 * DAY_MS && ms == ClampWeeks(weeks) * 7 * 24 * HOUR_MS
  {
    ClampWeeks(weeks) * (7 * DAY_MS)
  }

  /** The past occurrences reported on. */
  function PastOccurrences(z: Zone, l: Lecture, weeks: Option<int>, now: Instant): seq<Instant>
    requires HasSlot(l)
  {
    Occurrences.Between(z, SlotOf(l), now - WindowMs(weeks), WindowMs(weeks))
  }

  function Fetched(t: Sessions, id: LectureId, org: OrgId, weeks: Option<int>, now: Instant): set<SessionId> {
    OpenedBetween(t, id, org, now - WindowMs(weeks), now)
  }

  /** The earliest session of the fetch that belongs to the occurrence, if any. */
  ghost predicate IsMatch(t: Sessions, fetched: set<SessionId>, occurrence: Instant, found: Option<SessionId>)
    requires fetched <= t.Keys
  {
    && (found.None? <==> forall g :: g in fetched ==> !BelongsToOccurrence(t[g].startTime, occurrence))
    && (found.Some? ==>
          && found.value in fetched && BelongsToOccurrence(t[found.value].startTime, occurrence)
          && forall g :: g in fetched && BelongsToOccurrence(t[g].startTime, occurrence) ==>
              t[found.value].startTime <= t[g].startTime)
  }

  ghost predicate IsReport(c: WindowConfig, t: Sessions, l: Lecture, fetched: set<SessionId>, occurrence: Instant,
      now: Instant, r: Report)
    requires fetched <= t.Keys
  {
    && r.occurrence == occurrence
    && IsMatch(t, fetched, occurrence, if r.session.None? then None else Some(r.session.value.0))
    && (r.session.Some? ==>
          r.session.value.1 == StateOf(t[r.session.value.0].status, t[r.session.value.0].startTime, Some(l.Times()),
              now, c))
  }

  ghost predicate AreReports(c: WindowConfig, t: Sessions, l: Lecture, fetched: set<SessionId>,
      occurrences: seq<Instant>, now: Instant, reports: seq<Report>)
    requires fetched <= t.Keys
  {
    |reports| == |occurrences| && forall i :: 0 <= i < |reports| ==>
        IsReport(c, t, l, fetched, occurrences[i], now, reports[i])
  }

  function Moments(reports: seq<Report>): seq<Instant> {
    seq(|reports|, i requires 0 <= i < |reports| => reports[i].occurrence)
  }

  /** RECORDED once closed; open, IN_PROGRESS for so many minutes and then PENDING. */
  predicate TellsState(t: Sessions, id: SessionId, minutes: int, now: Instant, state: LifecycleState) {
    id in t && state == if t[id].status == Closed then Recorded
                        else if now < t[id].startTime then Upcoming
                        else if now <= t[id].startTime + minutes * MINUTE_MS then InProgress
                        else Pending
  }

  /** Each report with a session tells its state by the lecture's own length. */
  ghost predicate EachTellsState(w: WindowConfig, t: Sessions, l: Lecture, now: Instant, reports: seq<Report>) {
    forall i, minutes | 0 <= i < |reports| && reports[i].session.Some? && Lasts(l, w.defaultSessionMinutes, minutes) ::
      TellsState(t, reports[i].session.value.0, minutes, now, reports[i].session.value.1)
  }

  lemma ReportTells(w: WindowConfig, t: Sessions, l: Lecture, fetched: set<SessionId>, occurrence: Instant,
      now: Instant, r: Report, minutes: int)
    requires fetched <= t.Keys && IsReport(w, t, l, fetched, occurrence, now, r) && r.session.Some?
    requires Lasts(l, w.defaultSessionMinutes, minutes)
    ensures TellsState(t, r.session.value.0, minutes, now, r.session.value.1)
  {
    DurationIsItsLength(l, w.defaultSessionMinutes, minutes);
  }

  lemma ReportsTell(w: WindowConfig, t: Sessions, l: Lecture, fetched: set<SessionId>, occurrences: seq<Instant>,
      now: Instant, reports: seq<Report>)
    requires fetched <= t.Keys && AreReports(w, t, l, fetched, occurrences, now, reports)
    ensures Moments(reports) == occurrences && EachTellsState(w, t, l, now, reports)
  {
    forall i | 0 <= i < |reports| ensures Moments(reports)[i] == occurrences[i] {
      assert IsReport(w, t, l, fetched, occurrences[i], now, reports[i]);
    }
    forall i, minutes | 0 <= i < |reports| && reports[i].session.Some? && Lasts(l, w.defaultSessionMinutes, minutes)
      ensures TellsState(t, reports[i].session.value.0, minutes, now, reports[i].session.value.1)
    {
      ReportTells(w, t, l, fetched, occurrences[i], now, reports[i], minutes);
    }
  }

  class OccurrenceReader {
    const sessions: SessionRepository
    const zone: Zone
    const window: WindowConfig

    constructor (sessions: SessionRepository, zone: Zone, window: WindowConfig)
      ensures this.sessions == sessions && this.zone == zone && this.window == window
    {
      this.sessions, this.zone, this.window := sessions, zone, window;
    }

    /** Every past occurrence of the window gets one report, whose session is the
        earliest fetched that belongs to it; the counts are those of the reports. */
    method OccurrenceStates(id: LectureId, l: Lecture, weeks: Option<int>, now: Instant)
      returns (reports: seq<Report>, counts: Counts)
      requires HasSlot(l)
      ensures AreReports(window, sessions.table, l, Fetched(sessions.table, id, l.org, weeks, now),
          PastOccurrences(zone, l, weeks, now), now, reports)
      ensures Occurrences.Regular(zone, SlotOf(l)) ==>
        Occurrences.OnItsWeekday(zone, SlotOf(l), now - WindowMs(weeks), now, Moments(reports))
      ensures EachTellsState(window, sessions.table, l, now, reports)
      ensures counts == CountsOf(reports) && CountsSay(reports, counts)
    {
      var occurrences := PastWalk(SlotOf(l), WindowMs(weeks), now);
      var fetched, ids := Fetch(id, l.org, weeks, now);
      assert occurrences == PastOccurrences(zone, l, weeks, now);
      reports := ReportAll(sessions.table, l, fetched, ids, occurrences, now);
      ReportsTell(window, sessions.table, l, ids, occurrences, now, reports);
      counts := TallyUp(reports);
    }

    method TallyUp(reports: seq<Report>) returns (counts: Counts)
      ensures counts == CountsOf(reports) && CountsSay(reports, counts)
    {
      counts := CountsOf(reports);
      CountsAreOfReports(reports);
    }

    method PastWalk(slot: Occurrences.Slot, windowMs: nat, now: Instant) returns (past: seq<Instant>)
      requires windowMs > 0
      ensures past == Occurrences.Between(zone, slot, now - windowMs, windowMs)
      ensures Occurrences.ValidSlot(slot) && Occurrences.Regular(zone, slot) ==>
        Occurrences.OnItsWeekday(zone, slot, now - windowMs, now, past)
    {
      var from := now - windowMs;
      assert from + windowMs == now;
      var walked := Occurrences.OccurrencesBetween(zone, slot, from, windowMs);
      WalkEndsInTime(zone, slot, from, windowMs);
      past := Past(walked, now);
    }

    method Fetch(id: LectureId, org: OrgId, weeks: Option<int>, now: Instant)
      returns (fetched: seq<SessionId>, ghost ids: set<SessionId>)
      ensures ids == Fetched(sessions.table, id, org, weeks, now) && SetOf(fetched) == ids
      ensures InOpeningOrder(sessions.table, fetched)
    {
      fetched := sessions.FindOpenedForScheduleBetween(id, org, now - WindowMs(weeks), now);
      ids := SetOf(fetched);
    }

    /** The filter on `now`, which the walk has made redundant. */
    method Past(occurrences: seq<Instant>, now: Instant) returns (past: seq<Instant>)
      ensures forall o :: o in past <==> o in occurrences && o <= now
      ensures (forall o :: o in occurrences ==> o <= now) ==> past == occurrences
    {
      past := [];
      for i := 0 to |occurrences|
        invariant forall o :: o in past <==> o in occurrences[..i] && o <= now
        invariant (forall o :: o in occurrences ==> o <= now) ==> past == occurrences[..i]
      {
        assert occurrences[..i + 1] == occurrences[..i] + [occurrences[i]] && occurrences[i] in occurrences;
        if occurrences[i] <= now {
          past := past + [occurrences[i]];
        }
      }
      assert occurrences[..|occurrences|] == occurrences;
    }

    method ReportAll(t: Sessions, l: Lecture, fetched: seq<SessionId>, ghost ids: set<SessionId>,
        occurrences: seq<Instant>, now: Instant) returns (reports: seq<Report>)
      requires ids <= t.Keys && SetOf(fetched) == ids
      requires InOpeningOrder(t, fetched)
      ensures AreReports(window, t, l, ids, occurrences, now, reports)
    {
      reports := [];
      for i := 0 to |occurrences|
        invariant |reports| == i && forall k :: 0 <= k < i ==>
            IsReport(window, t, l, ids, occurrences[k], now, reports[k])
      {
        var report := ReportOn(t, l, fetched, ids, occurrences[i], now);
        reports := reports + [report];
      }
    }

    method ReportOn(t: Sessions, l: Lecture, fetched: seq<SessionId>, ghost ids: set<SessionId>, occurrence: Instant,
        now: Instant) returns (r: Report)
      requires ids <= t.Keys && SetOf(fetched) == ids
      requires InOpeningOrder(t, fetched)
      ensures IsReport(window, t, l, ids, occurrence, now, r)
    {
      var found := FirstBelonging(t, fetched, ids, occurrence);
      if found.None? {
        return Report(occurrence, None);
      }
      var session := t[found.value];
      r := Report(occurrence,
          Some((found.value, StateOf(session.status, session.startTime, Some(l.Times()), now, window))));
    }

    /** `sessions.find`: the first in order of opening. */
    method FirstBelonging(t: Sessions, fetched: seq<SessionId>, ghost ids: set<SessionId>, occurrence: Instant)
      returns (found: Option<SessionId>)
      requires ids <= t.Keys && SetOf(fetched) == ids
      requires InOpeningOrder(t, fetched)
      ensures IsMatch(t, ids, occurrence, found)
    {
      assert forall g :: g in ids ==> g in fetched;
      for i := 0 to |fetched|
        invariant forall k :: 0 <= k < i ==>
            fetched[k] in t && !BelongsToOccurrence(t[fetched[k]].startTime, occurrence)
      {
        assert fetched[i] in SetOf(fetched);
        if BelongsToOccurrence(t[fetched[i]].startTime, occurrence) {
          return Some(fetched[i]);
        }
      }
      found := None;
    }
  }

  /** How many of the reports say this: None for NOT_RECORDED. */
  function CountOf(reports: seq<Report>, state: Option<LifecycleState>): nat {
    if reports == [] then 0
    else
      var last := reports[|reports| - 1].session;
      CountOf(reports[..|reports| - 1], state) + if (if last.None? then None else Some(last.value.1)) == state then 1
          else 0
  }

  /** One filter per state. */
  function CountsOf(reports: seq<Report>): Counts {
    Counts(CountOf(reports, None), CountOf(reports, Some(Upcoming)), CountOf(reports, Some(InProgress)),
           CountOf(reports, Some(Pending)), CountOf(reports, Some(Recorded)))
  }

  /** The reports that say so. */
  function Saying(reports: seq<Report>, state: Option<LifecycleState>): set<nat> {
    set i: nat | i < |reports| && SaysState(reports[i], state)
  }

  /** None for NOT_RECORDED. */
  predicate SaysState(r: Report, state: Option<LifecycleState>) {
    match state
    case None => r.session.None?
    case Some(s) => r.session.Some? && r.session.value.1 == s
  }

  /** Each count is of the reports that say that state. */
  ghost predicate CountsSay(reports: seq<Report>, n: Counts) {
    && n.notRecorded == |Saying(reports, None)|
    && n.upcoming == |Saying(reports, Some(Upcoming))|
    && n.inProgress == |Saying(reports, Some(InProgress))|
    && n.pending == |Saying(reports, Some(Pending))|
    && n.recorded == |Saying(reports, Some(Recorded))|
  }

  lemma OneReportMore(reports: seq<Report>, state: Option<LifecycleState>)
    requires reports != []
    ensures |Saying(reports, state)| == |Saying(reports[..|reports| - 1], state)|
      + if SaysState(reports[|reports| - 1], state) then 1 else 0
  {
    var n := |reports| - 1;
    var before := Saying(reports[..n], state);
    if SaysState(reports[n], state) {
      assert Saying(reports, state) == before + {n};
    } else {
      assert Saying(reports, state) == before;
    }
  }

  lemma {:induction false} CountIsOfReports(reports: seq<Report>, state: Option<LifecycleState>)
    ensures CountOf(reports, state) == |Saying(reports, state)|
  {
    if reports != [] {
      CountIsOfReports(reports[..|reports| - 1], state);
      OneReportMore(reports, state);
    }
  }

  lemma CountsAreOfReports(reports: seq<Report>)
    ensures CountsSay(reports, CountsOf(reports))
  {
    CountIsOfReports(reports, None);
    CountIsOfReports(reports, Some(Upcoming));
    CountIsOfReports(reports, Some(InProgress));
    CountIsOfReports(reports, Some(Pending));
    CountIsOfReports(reports, Some(Recorded));
  }

  lemma {:induction false} ReportsAreCountedOnce(reports: seq<Report>)
    ensures CountOf(reports, None) + CountOf(reports, Some(Upcoming)) + CountOf(reports, Some(InProgress))
          + CountOf(reports, Some(Pending)) + CountOf(reports, Some(Recorded)) == |reports|
    ensures (forall r :: r in reports && r.session.Some? ==> r.session.value.1 != Upcoming) ==>
        CountOf(reports, Some(Upcoming)) == 0
  {
    if reports != [] {
      ReportsAreCountedOnce(reports[..|reports| - 1]);
      var last := reports[|reports| - 1].session;
      assert last.None? || last.value.1.Upcoming? || last.value.1.InProgress? || last.value.1.Pending?
          || last.value.1.Recorded?;
    }
  }

  /** The counts add up to the number of occurrences, and none of them can be
      upcoming: only sessions opened before now are fetched. */
  lemma CountsAddUp(c: WindowConfig, t: Sessions, id: LectureId, l: Lecture, weeks: Option<int>, now: Instant,
      occurrences: seq<Instant>, reports: seq<Report>)
    requires AreReports(c, t, l, Fetched(t, id, l.org, weeks, now), occurrences, now, reports)
    ensures
      var n := CountsOf(reports);
      n.upcoming == 0 && n.notRecorded + n.inProgress + n.pending + n.recorded == |occurrences|
  {
    forall i | 0 <= i < |reports| && reports[i].session.Some? ensures reports[i].session.value.1 != Upcoming {
      assert IsReport(c, t, l, Fetched(t, id, l.org, weeks, now), occurrences[i], now, reports[i]);
    }
    ReportsAreCountedOnce(reports);
  }

  /** The walk returns nothing outside its window. */
  lemma WalkEndsInTime(z: Zone, slot: Occurrences.Slot, from: Instant, horizonMs: int)
    requires horizonMs > 0
    ensures forall o :: o in Occurrences.Between(z, slot, from, horizonMs) ==> from < o <= from + horizonMs
  {
    var at := Occurrences.OnDays(z, slot);
    var n := Occurrences.DaysWalked(horizonMs) + 1;
    WeeklyWalk.DaysHitExactly(at, slot.day, from, from + horizonMs, z.clock(from).day, n);
    var days := Occurrences.Hits(z, slot, from, horizonMs);
    forall o | o in Occurrences.Between(z, slot, from, horizonMs) ensures from < o <= from + horizonMs {
      var i :| 0 <= i < |days| && at(days[i]) == o;
      assert days[i] in days;
    }
  }

  /* -------------------------------- Theorems ------------------------------- */

  /** Offsets at the slot's instants differ by an hour at most. */
  ghost predicate ShiftsWithinAnHour(z: Zone, occurrences: seq<Instant>) {
    forall i, j :: 0 <= i < |occurrences| && 0 <= j < |occurrences| ==>
        z.off(occurrences[i]) - z.off(occurrences[j]) <= HOUR_MS
  }

  /** The occurrences of a window are weeks apart. */
  lemma OccurrencesAreWeeksApart(z: Zone, slot: Occurrences.Slot, from: Instant, horizonMs: int, i: nat, j: nat)
    requires Occurrences.ValidSlot(slot) && Occurrences.Regular(z, slot)
    requires i < j < |Occurrences.Between(z, slot, from, horizonMs)|
    requires ShiftsWithinAnHour(z, Occurrences.Between(z, slot, from, horizonMs))
    ensures
      var s := Occurrences.Between(z, slot, from, horizonMs);
      s[j] - s[i] >= 7 * DAY_MS - HOUR_MS
  {
    var at := Occurrences.OnDays(z, slot);
    var days := Occurrences.Hits(z, slot, from, horizonMs);
    WeeklyWalk.DaysHitExactly(at, slot.day, from, from + horizonMs, z.clock(from).day,
        Occurrences.DaysWalked(horizonMs) + 1);
    assert days[i] in days && days[j] in days;
    LaterOccurrenceIsAWeekLater(z, slot, days[i], days[j]);
  }

  /** No session is reported for two occurrences: distinct occurrences are matched
      to distinct sessions. */
  lemma OccurrencesHaveTheirOwnSessions(c: WindowConfig, z: Zone, t: Sessions, id: LectureId, l: Lecture,
      weeks: Option<int>, now: Instant, reports: seq<Report>, i: nat, j: nat)
    requires HasSlot(l) && Occurrences.Regular(z, SlotOf(l)) && ShiftsWithinAnHour(z, PastOccurrences(z, l, weeks, now))
    requires AreReports(c, t, l, Fetched(t, id, l.org, weeks, now), PastOccurrences(z, l, weeks, now), now, reports)
    requires i < j < |reports| && reports[i].session.Some? && reports[j].session.Some?
    ensures reports[i].session.value.0 != reports[j].session.value.0
  {
    var s := PastOccurrences(z, l, weeks, now);
    OccurrencesAreWeeksApart(z, SlotOf(l), now - WindowMs(weeks), WindowMs(weeks), i, j);
    assert IsReport(c, t, l, Fetched(t, id, l.org, weeks, now), s[i], now, reports[i]);
    assert IsReport(c, t, l, Fetched(t, id, l.org, weeks, now), s[j], now, reports[j]);
  }

  /** A session of the lecture that belongs to the occurrence. */
  predicate TookPlace(t: Sessions, id: LectureId, org: OrgId, occurrence: Instant, g: SessionId) {
    && g in t && t[g].lecture == Some(id) && t[g].org == org
    && occurrence - HOUR_MS <= t[g].startTime < occurrence + 12 * HOUR_MS
  }

  /** NOT_RECORDED is reported exactly when every session that took place for the
      occurrence was opened before the window began. Only the oldest occurrence
      can be misreported so, and only within its hour of early opening. */
  lemma NotRecordedIff(c: WindowConfig, z: Zone, t: Sessions, id: LectureId, l: Lecture, weeks: Option<int>,
      now: Instant, reports: seq<Report>, i: nat)
    requires HasSlot(l) && i < |reports|
    requires AreReports(c, t, l, Fetched(t, id, l.org, weeks, now), PastOccurrences(z, l, weeks, now), now, reports)
    requires forall g :: g in t ==> t[g].startTime < now
    ensures reports[i].session.None? <==>
      forall g :: TookPlace(t, id, l.org, reports[i].occurrence, g) ==> t[g].startTime < now - WindowMs(weeks)
    ensures reports[i].occurrence - HOUR_MS >= now - WindowMs(weeks) ==>
      (reports[i].session.None? <==> forall g :: !TookPlace(t, id, l.org, reports[i].occurrence, g))
  {
  }

  /** A lecture that was held is reported NOT_RECORDED exactly when all its sessions
      were opened before the window began; they were then opened early, and its
      start lies in the first hour of the window. */
  lemma HeldButNotRecordedIff(c: WindowConfig, z: Zone, t: Sessions, id: LectureId, l: Lecture, weeks: Option<int>,
      now: Instant, reports: seq<Report>, i: nat, g: SessionId)
    requires HasSlot(l) && i < |reports|
    requires AreReports(c, t, l, Fetched(t, id, l.org, weeks, now), PastOccurrences(z, l, weeks, now), now, reports)
    requires forall h :: h in t ==> t[h].startTime < now
    requires TookPlace(t, id, l.org, reports[i].occurrence, g)
    ensures reports[i].session.None? <==>
      forall h :: TookPlace(t, id, l.org, reports[i].occurrence, h) ==> t[h].startTime < now - WindowMs(weeks)
    ensures reports[i].session.None? ==>
      reports[i].occurrence - HOUR_MS <= t[g].startTime < now - WindowMs(weeks) < reports[i].occurrence
  {
    NotRecordedIff(c, z, t, id, l, weeks, now, reports, i);
    var from := now - WindowMs(weeks);
    WalkEndsInTime(z, SlotOf(l), from, WindowMs(weeks));
    assert IsReport(c, t, l, Fetched(t, id, l.org, weeks, now), PastOccurrences(z, l, weeks, now)[i], now, reports[i]);
    assert reports[i].occurrence in PastOccurrences(z, l, weeks, now);
  }

  /** It happens to every lecture of a regular slot: looked at one millisecond before
      the window would leave its occurrence out, a session opened early is missed. */
  lemma EarlySessionIsMissed(c: WindowConfig, z: Zone, id: LectureId, l: Lecture, weeks: Option<int>, day: int)
    returns (now: Instant, t: Sessions)
    requires HasSlot(l) && Occurrences.Regular(z, SlotOf(l)) && WeeklyWalk.Wanted(l.day, day)
    ensures
      var occurrence := Occurrences.OnDays(z, SlotOf(l))(day);
      && occurrence in PastOccurrences(z, l, weeks, now) && TookPlace(t, id, l.org, occurrence, 0)
      && forall reports: seq<Report>, i: nat ::
           IsReportOf(c, z, t, id, l, weeks, now, reports, i, occurrence) ==> reports[i].session.None?
  {
    var at := Occurrences.OnDays(z, SlotOf(l));
    var occurrence := at(day);
    var from := occurrence - 1;
    now := from + WindowMs(weeks);
    t := map[0 := OpenedSession(l.org, Some(id), Some(l.course), occurrence - OPEN_EARLY_MS)];
    Occurrences.WindowIsExact(z, SlotOf(l), from, WindowMs(weeks));
    assert WeeklyWalk.Falls(at, l.day, from, now, day);
    forall reports: seq<Report>, i: nat | IsReportOf(c, z, t, id, l, weeks, now, reports, i, occurrence)
      ensures reports[i].session.None? {
      NotRecordedIff(c, z, t, id, l, weeks, now, reports, i);
    }
  }

  /** Report i of a reading of this lecture is about this occurrence. */
  ghost predicate IsReportOf(c: WindowConfig, z: Zone, t: Sessions, id: LectureId, l: Lecture, weeks: Option<int>,
      now: Instant,
                             reports: seq<Report>, i: nat, occurrence: Instant)
    requires HasSlot(l)
  {
    && AreReports(c, t, l, Fetched(t, id, l.org, weeks, now), PastOccurrences(z, l, weeks, now), now, reports)
    && i < |reports| && reports[i].occurrence == occurrence
  }

  /* ------------------------- Siblings of a real slot ----------------------- */

  /** Two occurrences of a regular slot, with at most an hour's change of offset
      between them, are the same or most of a week apart. */
  lemma SlotOccurrencesAreWeeklyApart(z: Zone, slot: Occurrences.Slot, a: int, b: int)
    requires Occurrences.ValidSlot(slot) && Occurrences.Regular(z, slot)
    requires WeeklyWalk.Wanted(slot.day, a) && WeeklyWalk.Wanted(slot.day, b) && ShiftsByAnHourAtMost(z, slot, a, b)
    ensures WeeklyApart(Occurrences.OnDays(z, slot)(a), Occurrences.OnDays(z, slot)(b))
  {
    if a < b {
      LaterOccurrenceIsAWeekLater(z, slot, a, b);
    } else if b < a {
      LaterOccurrenceIsAWeekLater(z, slot, b, a);
    }
  }

  ghost predicate ShiftsByAnHourAtMost(z: Zone, slot: Occurrences.Slot, a: int, b: int) {
    var s, t := Occurrences.OnDays(z, slot)(a), Occurrences.OnDays(z, slot)(b);
    -HOUR_MS <= z.off(s) - z.off(t) <= HOUR_MS
  }

  lemma LaterOccurrenceIsAWeekLater(z: Zone, slot: Occurrences.Slot, a: int, b: int)
    requires Occurrences.ValidSlot(slot) && Occurrences.Regular(z, slot) && a < b
    requires WeeklyWalk.Wanted(slot.day, a) && WeeklyWalk.Wanted(slot.day, b)
    ensures
      var s, t := Occurrences.OnDays(z, slot)(a), Occurrences.OnDays(z, slot)(b);
      t - s >= 7 * DAY_MS - (z.off(t) - z.off(s))
  {
    Occurrences.LaterDayLaterInstant(z, slot, a, b);
    WeeklyWalk.SameWeekdayIsAWeek(slot.day, a, b);
    assert (b - a) * DAY_MS >= 7 * DAY_MS;
  }

  /** Sessions in one sibling window belong to one occurrence of the lecture: the
      window never reaches another week, even across a change of the clocks. */
  lemma SiblingSessionsShareTheOccurrence(z: Zone, slot: Occurrences.Slot, a: int, b: int, startA: Instant,
      startB: Instant)
    requires Occurrences.ValidSlot(slot) && Occurrences.Regular(z, slot)
    requires WeeklyWalk.Wanted(slot.day, a) && WeeklyWalk.Wanted(slot.day, b) && ShiftsByAnHourAtMost(z, slot, a, b)
    requires BelongsToOccurrence(startA, Occurrences.OnDays(z, slot)(a))
    requires BelongsToOccurrence(startB, Occurrences.OnDays(z, slot)(b))
    requires InSameOccurrenceWindow(startA, startB)
    ensures a == b
  {
    SlotOccurrencesAreWeeklyApart(z, slot, a, b);
    SiblingsShareTheOccurrence(startA, Occurrences.OnDays(z, slot)(a), startB, Occurrences.OnDays(z, slot)(b));
    if a < b {
      Occurrences.LaterDayLaterInstant(z, slot, a, b);
    } else if b < a {
      Occurrences.LaterDayLaterInstant(z, slot, b, a);
    }
  }

  /** The instant belongs to an occurrence on some other day. */
  ghost predicate OfAnotherDay(z: Zone, slot: Occurrences.Slot, day: int, start: Instant) {
    exists b :: b != day && IsOpenedFor(z, slot, day, b, start)
  }

  ghost predicate IsOpenedFor(z: Zone, slot: Occurrences.Slot, day: int, b: int, start: Instant) {
    && WeeklyWalk.Wanted(slot.day, b) && ShiftsByAnHourAtMost(z, slot, day, b)
    && BelongsToOccurrence(start, Occurrences.OnDays(z, slot)(b))
  }

  /** No opening is refused for a session of another week: when all the lecture's
      sessions belong to other occurrences, none counts as this one's duplicate. */
  lemma AnotherWeekIsNoDuplicate(z: Zone, slot: Occurrences.Slot, day: int, t: Sessions, id: LectureId, org: OrgId,
      now: Instant)
    requires Occurrences.ValidSlot(slot) && Occurrences.Regular(z, slot) && WeeklyWalk.Wanted(slot.day, day)
    requires BelongsToOccurrence(now, Occurrences.OnDays(z, slot)(day))
    requires forall g :: g in t && t[g].lecture == Some(id) && t[g].org == org ==>
      OfAnotherDay(z, slot, day, t[g].startTime)
    ensures !AttendanceServices.OpenedAlready(t, id, org, now)
  {
    var near := OpenedBetween(t, id, org, now - OPEN_LATE_MS, now + OPEN_LATE_MS);
    if g :| g in near {
      assert OfAnotherDay(z, slot, day, t[g].startTime);
      var b :| b != day && IsOpenedFor(z, slot, day, b, t[g].startTime);
      SiblingSessionsShareTheOccurrence(z, slot, day, b, now, t[g].startTime);
    }
  }

  /** A session opened at its occurrence ends, barring a change of offset, when the
      zone's clock shows the lecture's end time. */
  lemma OnTimeSessionEndsWithItsLecture(z: Zone, s: Session, lectures: map<LectureId, Lecture>, l: Lecture,
      w: WindowConfig, day: int, minutes: int)
    requires s.lecture.Some? && s.lecture.value in lectures && lectures[s.lecture.value] == l
    requires HasSlot(l) && Clock.IsHHMM(l.endTime) && Clock.Minutes(l.startTime) < Clock.Minutes(l.endTime)
    requires Occurrences.Regular(z, SlotOf(l)) && WeeklyWalk.Wanted(l.day, day)
    requires s.startTime == Occurrences.OnDays(z, SlotOf(l))(day)
    requires LastsFor(s, lectures, w.defaultSessionMinutes, minutes)
    requires z.off(s.startTime + minutes * MINUTE_MS) == z.off(s.startTime)
    ensures z.clock(s.startTime + minutes * MINUTE_MS) == Reading(day, Clock.Minutes(l.endTime) * MINUTE_MS)
  {
    ValidLecturesLast(l, w.defaultSessionMinutes, minutes);
    ReadsTheEnd(z, l, day, s.startTime, minutes);
  }

  lemma ReadsTheEnd(z: Zone, l: Lecture, day: int, t: Instant, minutes: int)
    requires HasSlot(l) && Clock.IsHHMM(l.endTime)
    requires Occurrences.Regular(z, SlotOf(l)) && WeeklyWalk.Wanted(l.day, day)
    requires t == Occurrences.OnDays(z, SlotOf(l))(day)
    requires minutes == Clock.Minutes(l.endTime) - Clock.Minutes(l.startTime)
    requires z.off(t + minutes * MINUTE_MS) == z.off(t)
    ensures z.clock(t + minutes * MINUTE_MS) == Reading(day, Clock.Minutes(l.endTime) * MINUTE_MS)
  {
    Occurrences.OccurrenceReadsRight(z, SlotOf(l), day);
    Occurrences.ReadsLater(z, SlotOf(l), day, t, Clock.Minutes(l.endTime));
  }
}
