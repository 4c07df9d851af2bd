/** Which reminders a lecture calls for, and the generator that writes them. */
module Reminders {
  import opened Prelude
  import opened Lectures
  import opened Zones
  import opened NotificationTable
  import Occurrences
  import Cohort
  import Clock
  import Timetable

  datatype Audience = Instructors | Students

  datatype Rule = Rule(minutesBefore: nat, kind: ReminderType, audience: Audience)

  const REMINDER_RULES: seq<Rule> := [
    Rule(1440, Instructor24H, Instructors), Rule(30, Instructor30M, Instructors), Rule(10, Student10M, Students)]

  function LongestLead(rules: seq<Rule>): nat {
    if rules == [] then 0
    else
      var rest := LongestLead(rules[..|rules| - 1]);
      var lead := rules[|rules| - 1].minutesBefore;
      if lead > rest then lead else rest
  }

  const MAX_REMINDER_MINUTES := LongestLead(REMINDER_RULES)

  /** The configured horizon, but never less than the longest lead and an hour. */
  function HorizonMinutes(configured: nat): nat {
    if configured > MAX_REMINDER_MINUTES + 60 then configured else MAX_REMINDER_MINUTES + 60
  }

  lemma {:induction false} LeadsAreBounded(rules: seq<Rule>, i: nat)
    requires i < |rules|
    ensures rules[i].minutesBefore <= LongestLead(rules)
  {
    if i < |rules| - 1 {
      LeadsAreBounded(rules[..|rules| - 1], i);
    }
  }

  lemma LongestLeadIsADay()
    ensures MAX_REMINDER_MINUTES == 1440
    ensures forall i :: 0 <= i < |REMINDER_RULES| ==> 0 < REMINDER_RULES[i].minutesBefore <= MAX_REMINDER_MINUTES
  {
    var r := REMINDER_RULES;
    assert r[..|r| - 1] == [r[0], r[1]] && [r[0], r[1]][..1] == [r[0]] && [r[0]][..0] == [];
    assert LongestLead([r[0]]) == 1440 && LongestLead([r[0], r[1]]) == 1440;
  }

  /** Everything a pass reads besides the timetable. */
  datatype Campus = Campus(zone: Zone, read: Cohort.SemesterReader, students: seq<Cohort.Profile>,
                           users: map<UserId, Timetable.Staff>, horizonMinutes: nat)

  /** What the schedule validator guarantees of the weekly slot. */
  predicate HasSlot(l: Lecture) {
    l.day < 7 && Clock.IsHHMM(l.startTime)
  }

  function SlotOf(l: Lecture): (slot: Occurrences.Slot)
    requires HasSlot(l)
    ensures Occurrences.ValidSlot(slot)
  {
    Occurrences.Slot(l.day, Clock.Minutes(l.startTime))
  }

  function Recipients(c: Campus, l: Lecture, audience: Audience): seq<UserId> {
    match audience
    case Instructors =>
      if l.instructor in c.users && c.users[l.instructor] == Timetable.Staff(l.org, true, true) then [l.instructor]
          else []
    case Students => Cohort.Roll(c.read, c.students, l.org, l.address)
  }

  function DraftOf(id: LectureId, l: Lecture, occurrence: Instant, rule: Rule, user: UserId): Draft {
    Draft(Key(user, id, occurrence, rule.kind), l.org, l, occurrence - rule.minutesBefore * MINUTE_MS)
  }

  /** The lecture calls for this reminder when looked at from `now`: one of its
      occurrences within the horizon, a rule, a recipient, a moment not yet past. */
  ghost predicate CallsFor(c: Campus, id: LectureId, l: Lecture, now: Instant, d: Draft)
    requires HasSlot(l)
  {
    exists occurrence, rule ::
      && occurrence in Occurrences.Between(c.zone, SlotOf(l), now, c.horizonMinutes * MINUTE_MS)
      && rule in REMINDER_RULES
      && IsFor(c, id, l, now, occurrence, rule, d)
  }

  predicate IsFor(c: Campus, id: LectureId, l: Lecture, now: Instant, occurrence: Instant, rule: Rule, d: Draft) {
    && d.key.user in Recipients(c, l, rule.audience)
    && d == DraftOf(id, l, occurrence, rule, d.key.user)
    && d.scheduledFor >= now
  }

  /** An active instructor of the lecture's organization, and this lecture's. */
  predicate Teaches(c: Campus, l: Lecture, user: UserId) {
    user == l.instructor && user in c.users && Timetable.Teaches(c.users[user], l.org)
  }

  predicate IsAddressed(c: Campus, l: Lecture, user: UserId) {
    exists p :: p in c.students && p.userId == user && Cohort.OnRoll(c.read, p, l.org, l.address)
  }

  /** The three reminders there are: the instructor's a day and half an hour ahead,
      every addressed student's ten minutes ahead. */
  predicate IsOneOfTheThree(c: Campus, l: Lecture, d: Draft) {
    match d.key.kind
    case Instructor24H => d.key.occurrence - d.scheduledFor == 24 * HOUR_MS && Teaches(c, l, d.key.user)
    case Instructor30M => d.key.occurrence - d.scheduledFor == 30 * MINUTE_MS && Teaches(c, l, d.key.user)
    case Student10M => d.key.occurrence - d.scheduledFor == 10 * MINUTE_MS && IsAddressed(c, l, d.key.user)
  }

  lemma RuleOfKind(kind: ReminderType) returns (rule: Rule)
    ensures rule in REMINDER_RULES && rule.kind == kind
    ensures forall other :: other in REMINDER_RULES && other.kind == kind ==> other == rule
  {
    rule := if kind == Instructor24H then REMINDER_RULES[0]
            else if kind == Instructor30M then REMINDER_RULES[1] else REMINDER_RULES[2];
  }

  /** A reminder is called for exactly when it is one of the three for an occurrence
      of the lecture ahead of now, its own moment not past, and written from it. */
  lemma CallsForIff(c: Campus, id: LectureId, l: Lecture, now: Instant, d: Draft)
    requires HasSlot(l)
    ensures CallsFor(c, id, l, now, d) <==>
      (&& d.key.lecture == id && d.org == l.org && d.writtenFrom == l && now <= d.scheduledFor
       && d.key.occurrence in Occurrences.Between(c.zone, SlotOf(l), now, c.horizonMinutes * MINUTE_MS)
       && IsOneOfTheThree(c, l, d))
  {
    var rule := RuleOfKind(d.key.kind);
    RecipientsAre(c, l, d.key.user);
    if CallsFor(c, id, l, now, d) {
      var occurrence, other :|
        && occurrence in Occurrences.Between(c.zone, SlotOf(l), now, c.horizonMinutes * MINUTE_MS)
        && other in REMINDER_RULES && IsFor(c, id, l, now, occurrence, other, d);
      assert other.kind == d.key.kind;
      assert other == rule;
    } else if d.key.occurrence in Occurrences.Between(c.zone, SlotOf(l), now, c.horizonMinutes * MINUTE_MS) {
      assert !IsFor(c, id, l, now, d.key.occurrence, rule, d);
    }
  }

  lemma RecipientsAre(c: Campus, l: Lecture, user: UserId)
    ensures user in Recipients(c, l, Instructors) <==> Teaches(c, l, user)
    ensures user in Recipients(c, l, Students) <==> IsAddressed(c, l, user)
  {
  }

  /** It is about the weekday and the time of day the lecture has. */
  lemma CalledForTheLecturesTime(c: Campus, id: LectureId, l: Lecture, now: Instant, d: Draft)
    requires HasSlot(l) && Occurrences.Regular(c.zone, SlotOf(l)) && CallsFor(c, id, l, now, d)
    ensures
      var shown := c.zone.clock(d.key.occurrence);
      Occurrences.IsWeekday(l.day, shown.day) && shown.time == Clock.Minutes(l.startTime) * MINUTE_MS
    ensures now < d.key.occurrence <= now + c.horizonMinutes * MINUTE_MS
  {
    var horizon := c.horizonMinutes * MINUTE_MS;
    Occurrences.OccurrencesFallOnTheWeekday(c.zone, SlotOf(l), now, horizon, now + horizon);
  }
}
