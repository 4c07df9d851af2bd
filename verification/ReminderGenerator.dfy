/** The generator's loops: drafting one lecture's reminders, and a whole pass. */
module ReminderGenerator {
  import opened Prelude
  import opened Lectures
  import opened NotificationTable
  import opened NotificationRepositories
  import opened Reminders
  import Cohort
  import Occurrences
  import WeeklyWalk
  import Timetable

  /** Some occurrence of the list calls for `d`. */
  ghost predicate FromOccurrences(c: Campus, id: LectureId, l: Lecture, now: Instant, occurrences: seq<Instant>,
      d: Draft)
  {
    exists occurrence :: occurrence in occurrences && FromRules(c, id, l, now, occurrence, REMINDER_RULES, d)
  }

  ghost predicate FromRules(c: Campus, id: LectureId, l: Lecture, now: Instant, occurrence: Instant, rules: seq<Rule>,
      d: Draft)
  {
    exists rule :: rule in rules && IsFor(c, id, l, now, occurrence, rule, d)
  }

  lemma FromBetweenIsCallsFor(c: Campus, id: LectureId, l: Lecture, now: Instant, d: Draft)
    requires HasSlot(l)
    ensures FromOccurrences(c, id, l, now, Occurrences.Between(c.zone, SlotOf(l), now, c.horizonMinutes * MINUTE_MS), d)
      <==> CallsFor(c, id, l, now, d)
  {
  }

  ghost predicate KeysDiffer(drafts: seq<Draft>) {
    forall i, j :: 0 <= i < j < |drafts| ==> drafts[i].key != drafts[j].key
  }

  lemma KeysStillDiffer(a: seq<Draft>, b: seq<Draft>)
    requires KeysDiffer(a) && KeysDiffer(b) && forall d, e :: d in a && e in b ==> d.key != e.key
    ensures KeysDiffer(a + b)
  {
    forall i, j | 0 <= i < j < |a + b| ensures (a + b)[i].key != (a + b)[j].key {
      if i < |a| <= j {
        assert (a + b)[i] in a && (a + b)[j] in b;
      }
    }
  }

  /** Drafts of an earlier occurrence or rule are about another reminder. */
  lemma EarlierKeysDiffer(c: Campus, id: LectureId, l: Lecture, now: Instant, occurrences: seq<Instant>, i: nat, j: nat,
      d: Draft, e: Draft)
    requires NoDuplicates(occurrences) && i < |occurrences| && j < |REMINDER_RULES|
    requires FromOccurrences(c, id, l, now, occurrences[..i], d)
      || FromRules(c, id, l, now, occurrences[i], REMINDER_RULES[..j], d)
    requires IsFor(c, id, l, now, occurrences[i], REMINDER_RULES[j], e)
    ensures d.key != e.key
  {
    assert forall k :: 0 <= k < j ==> REMINDER_RULES[k].kind != REMINDER_RULES[j].kind;
    assert forall k :: 0 <= k < i ==> occurrences[k] != occurrences[i];
  }

  class LectureNotificationService {
    const notifications: NotificationRepository
    const campus: Campus

    constructor (notifications: NotificationRepository, campus: Campus)
      ensures this.notifications == notifications && this.campus == campus
    {
      this.notifications, this.campus := notifications, campus;
    }

    /** One draft for each occurrence, rule and recipient whose moment is not
        past: none is missing, none is repeated. */
    method DraftsFor(id: LectureId, l: Lecture, occurrences: seq<Instant>, now: Instant) returns (drafts: seq<Draft>)
      ensures forall d :: d in drafts <==> FromOccurrences(campus, id, l, now, occurrences, d)
      ensures NoDuplicates(occurrences) && Cohort.OneProfileEach(campus.students) ==> KeysDiffer(drafts)
    {
      drafts := [];
      if occurrences == [] {
        return;
      }
      var instructors := Recipients(campus, l, Instructors);
      var students := Recipients(campus, l, Students);
      ghost var distinct := NoDuplicates(occurrences) && Cohort.OneProfileEach(campus.students);
      if Cohort.OneProfileEach(campus.students) {
        Cohort.RollIsDistinct(campus.read, campus.students, l.org, l.address);
      }
      for i := 0 to |occurrences|
        invariant forall d :: d in drafts <==> FromOccurrences(campus, id, l, now, occurrences[..i], d)
        invariant distinct ==> KeysDiffer(drafts)
      {
        ghost var before := drafts;
        assert occurrences[..i + 1] == occurrences[..i] + [occurrences[i]];
        for j := 0 to |REMINDER_RULES|
          invariant forall d :: d in drafts <==>
              d in before || FromRules(campus, id, l, now, occurrences[i], REMINDER_RULES[..j], d)
          invariant distinct ==> KeysDiffer(drafts)
        {
          var rule := REMINDER_RULES[j];
          assert REMINDER_RULES[..j + 1] == REMINDER_RULES[..j] + [rule];
          var people := if rule.audience == Instructors then instructors else students;
          var more := DraftsForRule(id, l, occurrences[i], rule, people, now);
          if distinct {
            forall d, e | d in drafts && e in more ensures d.key != e.key {
              EarlierKeysDiffer(campus, id, l, now, occurrences, i, j, d, e);
            }
            KeysStillDiffer(drafts, more);
          }
          drafts := drafts + more;
        }
        assert REMINDER_RULES[..|REMINDER_RULES|] == REMINDER_RULES;
      }
      assert occurrences[..|occurrences|] == occurrences;
    }

    method DraftsForRule(id: LectureId, l: Lecture, occurrence: Instant, rule: Rule, people: seq<UserId>, now: Instant)
      returns (drafts: seq<Draft>)
      requires people == Recipients(campus, l, rule.audience)
      ensures forall d :: d in drafts <==> IsFor(campus, id, l, now, occurrence, rule, d)
      ensures NoDuplicates(people) ==> KeysDiffer(drafts)
    {
      drafts := [];
      var naturalTime := occurrence - rule.minutesBefore * MINUTE_MS;
      if naturalTime < now {
        return;
      }
      for k := 0 to |people|
        invariant forall d :: d in drafts <==>
            d.key.user in people[..k] && d == DraftOf(id, l, occurrence, rule, d.key.user)
        invariant |drafts| == k && forall m :: 0 <= m < k ==> drafts[m].key.user == people[m]
      {
        drafts := drafts + [DraftOf(id, l, occurrence, rule, people[k])];
        assert people[..k + 1] == people[..k] + [people[k]];
      }
      assert people[..|people|] == people;
    }

    /** Drafts and inserts what one lecture calls for, after those already done. */
    method GenerateFor(lectures: Timetable.Table, id: LectureId, now: Instant, ghost t: Table,
        ghost done: set<LectureId>) returns (created: nat)
      requires id in lectures && HasSlot(lectures[id])
      requires Below(notifications.table, notifications.nextId)
      requires GeneratedFor(campus, lectures, done, now, t, notifications.table)
      modifies notifications
      ensures Below(notifications.table, notifications.nextId)
      ensures GeneratedFor(campus, lectures, done + {id}, now, t, notifications.table)
      ensures created == |notifications.table| - |old(notifications.table)|
    {
      var l := lectures[id];
      var occurrences := Occurrences.OccurrencesBetween(campus.zone, SlotOf(l), now, campus.horizonMinutes * MINUTE_MS);
      var drafts := DraftsFor(id, l, occurrences, now);
      ghost var before := notifications.table;
      created := notifications.CreateManyIgnoringDuplicates(drafts);
      forall d ensures d in drafts <==> LectureCallsFor(campus, lectures, id, now, d) {
        FromBetweenIsCallsFor(campus, id, l, now, d);
      }
      GenerateOneMore(campus, lectures, done, now, t, before, notifications.table, id, drafts);
    }

    /** A pass: existing rows are left alone, every reminder an active lecture
        calls for has a row, and nothing else is written. */
    method GenerateUpcoming(lectures: Timetable.Table, now: Instant) returns (created: nat)
      requires Below(notifications.table, notifications.nextId)
      requires forall id :: id in lectures && lectures[id].isActive ==> HasSlot(lectures[id])
      modifies notifications
      ensures Below(notifications.table, notifications.nextId)
      ensures Generated(campus, lectures, now, old(notifications.table), notifications.table)
      ensures created == |notifications.table| - |old(notifications.table)|
    {
      created := 0;
      ghost var t := notifications.table;
      NothingGenerated(campus, lectures, now, t);
      var left := ActiveIds(lectures);
      ghost var done: set<LectureId> := {};
      while left != {}
        invariant done + left == ActiveIds(lectures)
        invariant Below(notifications.table, notifications.nextId)
        invariant GeneratedFor(campus, lectures, done, now, t, notifications.table)
        invariant created == |notifications.table| - |t|
        decreases left
      {
        var id :| id in left;
        var count := GenerateFor(lectures, id, now, t, done);
        created := created + count;
        done := done + {id};
        left := left - {id};
      }
    }
  }

  /** One of these lectures calls for the reminder. */
  ghost predicate CalledFor(c: Campus, lectures: Timetable.Table, ids: set<LectureId>, now: Instant, d: Draft) {
    exists id :: id in ids && LectureCallsFor(c, lectures, id, now, d)
  }

  ghost predicate LectureCallsFor(c: Campus, lectures: Timetable.Table, id: LectureId, now: Instant, d: Draft) {
    id in lectures && HasSlot(lectures[id]) && CallsFor(c, id, lectures[id], now, d)
  }

  /** A new row is a reminder one of the lectures calls for, under a free key. */
  ghost predicate NewReminder(c: Campus, lectures: Timetable.Table, ids: set<LectureId>, now: Instant, t: Table,
      n: Notification)
  {
    !HasKey(t, n.key) && exists d :: CalledFor(c, lectures, ids, now, d) && n == RowOf(d)
  }

  ghost predicate GeneratedFor(c: Campus, lectures: Timetable.Table, ids: set<LectureId>, now: Instant, t: Table,
      t': Table)
  {
    && Extends(t, t')
    && (forall i :: i in t' && i !in t ==> NewReminder(c, lectures, ids, now, t, t'[i]))
    && (forall d :: CalledFor(c, lectures, ids, now, d) ==> HasKey(t', d.key))
  }

  function ActiveIds(lectures: Timetable.Table): set<LectureId> {
    set id | id in lectures && lectures[id].isActive
  }

  ghost predicate Generated(c: Campus, lectures: Timetable.Table, now: Instant, t: Table, t': Table) {
    GeneratedFor(c, lectures, ActiveIds(lectures), now, t, t')
  }

  lemma GenerateOneMore(c: Campus, lectures: Timetable.Table, ids: set<LectureId>, now: Instant, t: Table, mid: Table,
      t': Table, id: LectureId, drafts: seq<Draft>)
    requires GeneratedFor(c, lectures, ids, now, t, mid) && Inserted(mid, t', drafts)
    requires forall d :: d in drafts <==> LectureCallsFor(c, lectures, id, now, d)
    ensures GeneratedFor(c, lectures, ids + {id}, now, t, t')
  {
    KeysPersist(t, mid);
    KeysPersist(mid, t');
    forall d ensures CalledFor(c, lectures, ids + {id}, now, d) <==>
        CalledFor(c, lectures, ids, now, d) || d in drafts {
      if CalledFor(c, lectures, ids, now, d) {
        var i :| i in ids && LectureCallsFor(c, lectures, i, now, d);
        assert i in ids + {id};
      }
      if d in drafts { assert id in ids + {id}; }
    }
    forall i | i in t' && i !in t ensures NewReminder(c, lectures, ids + {id}, now, t, t'[i]) {
      if i in mid {
        assert NewReminder(c, lectures, ids, now, t, mid[i]);
      } else {
        assert IsNewRow(mid, t'[i], drafts);
      }
    }
  }

  lemma NothingGenerated(c: Campus, lectures: Timetable.Table, now: Instant, t: Table)
    ensures GeneratedFor(c, lectures, {}, now, t, t)
  {
  }

  lemma NothingLeftToWrite(c: Campus, lectures: Timetable.Table, now: Instant, t: Table, n: Notification)
    requires forall d :: CalledFor(c, lectures, ActiveIds(lectures), now, d) ==> HasKey(t, d.key)
    ensures !NewReminder(c, lectures, ActiveIds(lectures), now, t, n)
  {
  }

  /** A second pass over the same data changes nothing. */
  lemma SecondPassIsIdle(c: Campus, lectures: Timetable.Table, now: Instant, t: Table, t1: Table, t2: Table)
    requires Generated(c, lectures, now, t, t1) && Generated(c, lectures, now, t1, t2)
    ensures t2 == t1
  {
    forall n ensures !NewReminder(c, lectures, ActiveIds(lectures), now, t1, n) {
      NothingLeftToWrite(c, lectures, now, t1, n);
    }
    assert t2.Keys == t1.Keys;
  }

  /* -------------------------- No reminder is missed ------------------------ */

  /** Generation passes no further apart than the horizon less the longest lead. */
  ghost predicate PassesCloseEnough(passes: seq<Instant>, horizonMinutes: nat) {
    && |passes| > 0
    && forall i :: 0 <= i < |passes| - 1 ==>
         0 <= passes[i + 1] - passes[i] <= (horizonMinutes - MAX_REMINDER_MINUTES) * MINUTE_MS
  }

  /** Every reminder whose fire time lies between two passes is drafted by the
      earlier of them, hence no later than it is due. */
  lemma DraftedBeforeItFires(c: Campus, id: LectureId, l: Lecture, passes: seq<Instant>, i: nat, day: int, r: nat,
      user: UserId)
    requires HasSlot(l) && Occurrences.Regular(c.zone, SlotOf(l)) && PassesCloseEnough(passes, c.horizonMinutes)
    requires WeeklyWalk.Wanted(l.day, day) && r < |REMINDER_RULES|
    requires user in Recipients(c, l, REMINDER_RULES[r].audience)
    requires
      var fire := Occurrences.OnDays(c.zone, SlotOf(l))(day) - REMINDER_RULES[r].minutesBefore * MINUTE_MS;
      i + 1 < |passes| && passes[i] <= fire <= passes[i + 1]
    ensures
      var occurrence := Occurrences.OnDays(c.zone, SlotOf(l))(day);
      CallsFor(c, id, l, passes[i], DraftOf(id, l, occurrence, REMINDER_RULES[r], user))
  {
    var rule := REMINDER_RULES[r];
    var occurrence := Occurrences.OnDays(c.zone, SlotOf(l))(day);
    LongestLeadIsADay();
    Occurrences.WindowIsExact(c.zone, SlotOf(l), passes[i], c.horizonMinutes * MINUTE_MS);
    assert WeeklyWalk.Falls(Occurrences.OnDays(c.zone, SlotOf(l)), l.day, passes[i],
        passes[i] + c.horizonMinutes * MINUTE_MS, day);
    assert occurrence in Occurrences.Between(c.zone, SlotOf(l), passes[i], c.horizonMinutes * MINUTE_MS);
    assert IsFor(c, id, l, passes[i], occurrence, rule, DraftOf(id, l, occurrence, rule, user));
  }

  lemma {:induction false} SomePassPrecedes(passes: seq<Instant>, fire: Instant, n: nat) returns (i: nat)
    requires n + 1 < |passes| && passes[0] <= fire <= passes[n + 1]
    ensures i + 1 < |passes| && passes[i] <= fire <= passes[i + 1]
  {
    if fire >= passes[n] || n == 0 {
      i := n;
    } else {
      i := SomePassPrecedes(passes, fire, n - 1);
    }
  }

  /** No reminder is missed: with passes that close together, each one due after
      the first pass and by the last is called for at some pass not after it is
      due. */
  lemma NoReminderIsMissed(c: Campus, id: LectureId, l: Lecture, passes: seq<Instant>, day: int, r: nat, user: UserId)
    requires HasSlot(l) && Occurrences.Regular(c.zone, SlotOf(l)) && PassesCloseEnough(passes, c.horizonMinutes)
    requires WeeklyWalk.Wanted(l.day, day) && r < |REMINDER_RULES|
    requires user in Recipients(c, l, REMINDER_RULES[r].audience)
    requires
      var fire := Occurrences.OnDays(c.zone, SlotOf(l))(day) - REMINDER_RULES[r].minutesBefore * MINUTE_MS;
      |passes| > 1 && passes[0] <= fire <= passes[|passes| - 1]
    ensures
      var draft := DraftOf(id, l, Occurrences.OnDays(c.zone, SlotOf(l))(day), REMINDER_RULES[r], user);
      exists i :: 0 <= i < |passes| && passes[i] <= draft.scheduledFor && CallsFor(c, id, l, passes[i], draft)
  {
    var draft := DraftOf(id, l, Occurrences.OnDays(c.zone, SlotOf(l))(day), REMINDER_RULES[r], user);
    var i := SomePassPrecedes(passes, draft.scheduledFor, |passes| - 2);
    DraftedBeforeItFires(c, id, l, passes, i, day, r, user);
  }

  /** Passes over the same timetable and campus, whatever else happens to the
      reminder table in between. */
  ghost predicate PassesRun(c: Campus, lectures: Timetable.Table, passes: seq<Instant>, before: seq<Table>,
      after: seq<Table>)
  {
    && |before| == |after| == |passes|
    && forall i :: 0 <= i < |passes| ==> Generated(c, lectures, passes[i], before[i], after[i])
  }

  /** So each such reminder has a row in the table by the time it is due. */
  lemma EveryReminderHasItsRow(c: Campus, lectures: Timetable.Table, id: LectureId, passes: seq<Instant>,
      before: seq<Table>, after: seq<Table>,
                               day: int, r: nat, user: UserId)
    requires id in lectures && lectures[id].isActive && HasSlot(lectures[id])
    requires Occurrences.Regular(c.zone, SlotOf(lectures[id]))
    requires PassesCloseEnough(passes, c.horizonMinutes) && PassesRun(c, lectures, passes, before, after)
    requires WeeklyWalk.Wanted(lectures[id].day, day) && r < |REMINDER_RULES|
    requires user in Recipients(c, lectures[id], REMINDER_RULES[r].audience)
    requires
      var fire := Occurrences.OnDays(c.zone, SlotOf(lectures[id]))(day) - REMINDER_RULES[r].minutesBefore * MINUTE_MS;
      |passes| > 1 && passes[0] <= fire <= passes[|passes| - 1]
    ensures
      var draft := DraftOf(id, lectures[id], Occurrences.OnDays(c.zone, SlotOf(lectures[id]))(day), REMINDER_RULES[r],
          user);
      exists i :: 0 <= i < |passes| && passes[i] <= draft.scheduledFor && HasKey(after[i], draft.key)
  {
    var l := lectures[id];
    var draft := DraftOf(id, l, Occurrences.OnDays(c.zone, SlotOf(l))(day), REMINDER_RULES[r], user);
    NoReminderIsMissed(c, id, l, passes, day, r, user);
    var i :| 0 <= i < |passes| && passes[i] <= draft.scheduledFor && CallsFor(c, id, l, passes[i], draft);
    assert id in ActiveIds(lectures) && LectureCallsFor(c, lectures, id, passes[i], draft);
    assert CalledFor(c, lectures, ActiveIds(lectures), passes[i], draft);
  }

  /** The gap allowed between passes is at least an hour, whatever is configured. */
  lemma PassesMayBeAnHourApart(configured: nat)
    ensures HorizonMinutes(configured) - MAX_REMINDER_MINUTES >= 60
  {
  }
}
