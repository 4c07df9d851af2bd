/** Who is on a course: the cohorts its timetable addresses and everybody with an
    attendance row in one of its sessions, each once, in register order. */
module StudentExport {
  import opened Prelude
  import opened SessionWindow
  import opened AttendanceTables
  import Cohort

  datatype User = User(id: UserId, org: OrgId, isStudent: bool, fullName: string, section: Option<string>)

  datatype Entry = Entry(userId: UserId, fullName: string, section: Option<string>, viaCohort: bool)

  datatype Course = Course(id: CourseId, org: OrgId, addresses: seq<Cohort.Address>)

  type Collation = (string, string) -> int

  /** localeCompare: a total order on strings up to ties. */
  ghost predicate IsCollation(collate: Collation) {
    && (forall a, b :: (collate(a, b) <= 0) || (collate(b, a) <= 0))
    && (forall a, b :: collate(a, b) == 0 <==> collate(b, a) == 0)
    && (forall a, b :: collate(a, b) < 0 ==> collate(b, a) > 0)
    && (forall a, b, c :: Chains(collate, a, b, c))
  }

  predicate Chains(collate: Collation, a: string, b: string, c: string) {
    collate(a, b) <= 0 && collate(b, c) <= 0 ==>
      collate(a, c) <= 0 && (collate(a, c) == 0 ==> collate(a, b) == 0 && collate(b, c) == 0)
  }

  function SectionOf(e: Entry): string {
    if e.section.None? then "" else e.section.value
  }

  /** Section first, then name. */
  predicate InOrder(collate: Collation, a: Entry, b: Entry) {
    var bySection := collate(SectionOf(a), SectionOf(b));
    bySection < 0 || (bySection == 0 && collate(a.fullName, b.fullName) <= 0)
  }

  ghost predicate Register(collate: Collation, entries: seq<Entry>) {
    forall i, j :: 0 <= i < j < |entries| ==> InOrder(collate, entries[i], entries[j])
  }

  predicate OnSomeRoll(read: Cohort.SemesterReader, course: Course, n: nat, p: Cohort.Profile)
    requires n <= |course.addresses|
  {
    exists k :: 0 <= k < n && Cohort.OnRoll(read, p, course.org, course.addresses[k])
  }

  ghost predicate InCohort(read: Cohort.SemesterReader, profiles: seq<Cohort.Profile>, course: Course, n: nat,
      u: UserId)
    requires n <= |course.addresses|
  {
    exists p :: p in profiles && p.userId == u && OnSomeRoll(read, course, n, p)
  }

  predicate OfCourse(t: Sessions, course: Course, r: Attendance) {
    r.session in t && t[r.session].course == Some(course.id) && t[r.session].org == course.org
  }

  /** Any row counts, an ABSENT one too. */
  predicate HasRowInCourse(t: Sessions, rows: Rows, course: Course, u: UserId) {
    exists r :: r in rows && r.student == u && OfCourse(t, course, r)
  }

  predicate Attendee(t: Sessions, rows: Rows, course: Course, user: User) {
    user.org == course.org && user.isStudent && HasRowInCourse(t, rows, course, user.id)
  }

  ghost predicate AttendeeAmong(t: Sessions, rows: Rows, course: Course, users: seq<User>, u: UserId) {
    exists user :: user in users && user.id == u && Attendee(t, rows, course, user)
  }

  ghost predicate Listed(entries: seq<Entry>, u: UserId) {
    exists e :: e in entries && e.userId == u
  }

  function EntryOf(names: UserId -> string, p: Cohort.Profile): Entry {
    Entry(p.userId, names(p.userId), p.section, true)
  }

  /** The entry shows the person's name and the section of a profile of theirs that
      is on some roll of the course. */
  predicate ShowsProfile(read: Cohort.SemesterReader, profiles: seq<Cohort.Profile>, names: UserId -> string,
      course: Course, e: Entry)
  {
    && e.viaCohort && e.fullName == names(e.userId)
    && exists p :: p in profiles && p.userId == e.userId && p.section == e.section
         && OnSomeRoll(read, course, |course.addresses|, p)
  }

  /** The entry shows an attendee as the register of users has them. */
  predicate ShowsUser(t: Sessions, rows: Rows, course: Course, users: seq<User>, e: Entry) {
    && !e.viaCohort
    && exists user :: user in users && user.id == e.userId && user.fullName == e.fullName && user.section == e.section
         && Attendee(t, rows, course, user)
  }

  /** `roster` holds exactly these people, each entry under its own id. */
  ghost predicate Holds(roster: map<UserId, Entry>, cohort: iset<UserId>, others: iset<UserId>) {
    && (forall u :: u in roster <==> u in cohort || u in others)
    && (forall u :: u in roster ==> roster[u].userId == u && (roster[u].viaCohort <==> u in cohort))
  }

  /** The first loops: the cohorts, narrowed by semester. */
  method AddCohorts(read: Cohort.SemesterReader, profiles: seq<Cohort.Profile>, names: UserId -> string, course: Course)
    returns (roster: map<UserId, Entry>)
    ensures Holds(roster, iset u | InCohort(read, profiles, course, |course.addresses|, u), iset{})
    ensures forall u :: u in roster ==> ShowsProfile(read, profiles, names, course, roster[u])
  {
    roster := map[];
    for k := 0 to |course.addresses|
      invariant forall u :: u in roster <==> InCohort(read, profiles, course, k, u)
      invariant ShowProfiles(read, profiles, names, course, roster)
    {
      roster := AddCohort(read, profiles, names, course, k, roster);
      forall u ensures u in roster <==> InCohort(read, profiles, course, k + 1, u) {
        OneMoreAddress(read, profiles, course, k, u);
      }
    }
  }

  /** Every entry is filed under its own id and shows a profile of the course. */
  ghost predicate ShowProfiles(read: Cohort.SemesterReader, profiles: seq<Cohort.Profile>, names: UserId -> string,
      course: Course, roster: map<UserId, Entry>)
  {
    forall u :: u in roster ==> roster[u].userId == u && ShowsProfile(read, profiles, names, course, roster[u])
  }

  /** One address of them. */
  method AddCohort(read: Cohort.SemesterReader, profiles: seq<Cohort.Profile>, names: UserId -> string, course: Course,
      k: nat, roster: map<UserId, Entry>) returns (more: map<UserId, Entry>)
    requires k < |course.addresses| && ShowProfiles(read, profiles, names, course, roster)
    ensures ShowProfiles(read, profiles, names, course, more)
    ensures forall u :: u in more <==>
      u in roster || OnRollAmong(read, profiles, course.org, course.addresses[k], u)
  {
    more := roster;
    for i := 0 to |profiles|
      invariant forall u :: u in more <==>
          u in roster || OnRollAmong(read, profiles[..i], course.org, course.addresses[k], u)
      invariant ShowProfiles(read, profiles, names, course, more)
    {
      assert profiles[..i + 1] == profiles[..i] + [profiles[i]];
      if Cohort.OnRoll(read, profiles[i], course.org, course.addresses[k]) {
        assert OnSomeRoll(read, course, |course.addresses|, profiles[i]);
        var entry := EntryOf(names, profiles[i]);
        assert ShowsProfile(read, profiles, names, course, entry);
        more := more[profiles[i].userId := entry];
      }
    }
    assert profiles[..|profiles|] == profiles;
  }

  ghost predicate OnRollAmong(read: Cohort.SemesterReader, profiles: seq<Cohort.Profile>, org: OrgId, a: Cohort.Address,
      u: UserId)
  {
    exists p :: p in profiles && p.userId == u && Cohort.OnRoll(read, p, org, a)
  }

  lemma OneMoreAddress(read: Cohort.SemesterReader, profiles: seq<Cohort.Profile>, course: Course, k: nat, u: UserId)
    requires k < |course.addresses|
    ensures InCohort(read, profiles, course, k + 1, u) <==>
      InCohort(read, profiles, course, k, u) || OnRollAmong(read, profiles, course.org, course.addresses[k], u)
  {
  }

  /** The second loop: attendees the cohorts did not already bring. */
  method AddAttendees(t: Sessions, rows: Rows, users: seq<User>, course: Course, roster: map<UserId, Entry>,
      ghost cohort: iset<UserId>) returns (all: map<UserId, Entry>)
    requires Holds(roster, cohort, iset{})
    ensures Holds(all, cohort, iset u | AttendeeAmong(t, rows, course, users, u))
    ensures forall u :: u in all ==> if u in roster then all[u] == roster[u]
      else ShowsUser(t, rows, course, users, all[u])
  {
    all := roster;
    for i := 0 to |users|
      invariant forall u :: u in roster ==> u in all && all[u] == roster[u]
      invariant forall u :: u in all && u !in roster ==> ShowsUser(t, rows, course, users, all[u])
      invariant Holds(all, cohort, iset u | AttendeeAmong(t, rows, course, users[..i], u))
    {
      var user := users[i];
      assert users[..i + 1] == users[..i] + [user];
      if Attendee(t, rows, course, user) && user.id !in all {
        all := all[user.id := Entry(user.id, user.fullName, user.section, false)];
      }
    }
    assert users[..|users|] == users;
  }

  lemma OrderIsTransitive(collate: Collation, a: Entry, b: Entry, c: Entry)
    requires IsCollation(collate) && InOrder(collate, a, b) && InOrder(collate, b, c)
    ensures InOrder(collate, a, c)
  {
    assert Chains(collate, SectionOf(a), SectionOf(b), SectionOf(c));
    assert Chains(collate, a.fullName, b.fullName, c.fullName);
    assert Chains(collate, SectionOf(a), SectionOf(c), SectionOf(a));
  }

  ghost predicate EachOnce(entries: seq<Entry>) {
    forall i, j :: 0 <= i < j < |entries| ==> entries[i].userId != entries[j].userId
  }

  lemma SplicedIn(entries: seq<Entry>, n: nat, e: Entry)
    requires n <= |entries|
    ensures
      var more := entries[..n] + [e] + entries[n..];
      && (forall x :: x in more <==> x in entries || x == e)
      && (EachOnce(entries) && !Listed(entries, e.userId) ==> EachOnce(more))
  {
  }

  /** Puts one entry in its place. */
  method Insert(collate: Collation, entries: seq<Entry>, e: Entry) returns (more: seq<Entry>)
    requires IsCollation(collate) && Register(collate, entries) && EachOnce(entries) && !Listed(entries, e.userId)
    ensures forall x :: x in more <==> x in entries || x == e
    ensures Register(collate, more) && EachOnce(more)
  {
    var n := |entries|;
    while n > 0 && !InOrder(collate, entries[n - 1], e)
      invariant 0 <= n <= |entries|
      invariant forall i :: n <= i < |entries| ==> InOrder(collate, e, entries[i])
    {
      assert Chains(collate, SectionOf(e), SectionOf(entries[n - 1]), SectionOf(e));
      n := n - 1;
    }
    more := entries[..n] + [e] + entries[n..];
    SplicedIn(entries, n, e);
    forall i | 0 <= i < n ensures InOrder(collate, entries[i], e) {
      if i < n - 1 { OrderIsTransitive(collate, entries[i], entries[n - 1], e); }
    }
  }

  /** Exactly the cohorts and the attendees, each marked as which. */
  ghost predicate IsRoster(read: Cohort.SemesterReader, profiles: seq<Cohort.Profile>, t: Sessions, rows: Rows,
      users: seq<User>, course: Course, entries: seq<Entry>)
  {
    && (forall u :: Listed(entries, u) <==>
          InCohort(read, profiles, course, |course.addresses|, u) || AttendeeAmong(t, rows, course, users, u))
    && (forall e :: e in entries ==> (e.viaCohort <==> InCohort(read, profiles, course, |course.addresses|, e.userId)))
  }

  /** Every user once: exactly the cohorts and the attendees, in register order. */
  method BuildRoster(read: Cohort.SemesterReader, collate: Collation, profiles: seq<Cohort.Profile>,
      names: UserId -> string,
                     t: Sessions, rows: Rows, users: seq<User>, course: Course) returns (entries: seq<Entry>)
    requires IsCollation(collate)
    ensures EachOnce(entries) && Register(collate, entries)
    ensures forall i, j :: 0 <= i < j < |entries| ==>
      var a, b := if entries[i].section.None? then "" else entries[i].section.value,
                  if entries[j].section.None? then "" else entries[j].section.value;
      collate(a, b) < 0 || (collate(a, b) == 0 && collate(entries[i].fullName, entries[j].fullName) <= 0)
    ensures IsRoster(read, profiles, t, rows, users, course, entries)
    ensures forall e :: e in entries ==>
      ShowsProfile(read, profiles, names, course, e) || ShowsUser(t, rows, course, users, e)
  {
    ghost var cohort := iset u | InCohort(read, profiles, course, |course.addresses|, u);
    var roster := AddCohorts(read, profiles, names, course);
    var all := AddAttendees(t, rows, users, course, roster, cohort);
    entries := SortedValues(collate, all);
  }

  method SortedValues(collate: Collation, all: map<UserId, Entry>) returns (entries: seq<Entry>)
    requires IsCollation(collate) && forall u :: u in all ==> all[u].userId == u
    ensures EachOnce(entries)
    ensures forall u :: u in all <==> Listed(entries, u)
    ensures forall e :: e in entries ==> e.userId in all && e == all[e.userId]
    ensures Register(collate, entries)
  {
    entries := [];
    var left := all.Keys;
    while left != {}
      invariant left <= all.Keys
      invariant forall e :: e in entries ==> e.userId in all.Keys - left && e == all[e.userId]
      invariant forall u :: u in all.Keys - left ==> all[u] in entries
      invariant Register(collate, entries) && EachOnce(entries)
      decreases left
    {
      var u :| u in left;
      assert !Listed(entries, all[u].userId);
      entries := Insert(collate, entries, all[u]);
      left := left - {u};
    }
  }

  /* ------------------------ Listed without turning up ---------------------- */

  /** A session held for the course, in its organization. */
  predicate IsSessionOf(t: Sessions, course: Course, id: SessionId) {
    id in t && t[id].course == Some(course.id) && t[id].org == course.org
  }

  /** PRESENT or LATE in some session of the course. */
  predicate TurnedUp(t: Sessions, rows: Rows, course: Course, u: UserId) {
    exists id :: id in t && IsSessionOf(t, course, id) && Attended(rows, u, id)
  }

  /** ABSENT in some session of the course. */
  predicate WasMarkedAbsent(t: Sessions, rows: Rows, course: Course, u: UserId) {
    exists id :: id in t && IsSessionOf(t, course, id) && MarkedAbsent(rows, u, id)
  }

  lemma RowsAreOfSessions(t: Sessions, rows: Rows, course: Course, u: UserId)
    ensures HasRowInCourse(t, rows, course, u) <==>
      TurnedUp(t, rows, course, u) || WasMarkedAbsent(t, rows, course, u)
  {
    if r :| r in rows && r.student == u && OfCourse(t, course, r) {
      assert IsSessionOf(t, course, r.session);
      assert if r.status == Absent then MarkedAbsent(rows, u, r.session) else Attended(rows, u, r.session);
    }
    if TurnedUp(t, rows, course, u) {
      var id :| id in t && IsSessionOf(t, course, id) && Attended(rows, u, id);
      var r :| r in rows && r.student == u && r.session == id && r.status != Absent;
      assert OfCourse(t, course, r);
    }
    if WasMarkedAbsent(t, rows, course, u) {
      var id :| id in t && IsSessionOf(t, course, id) && MarkedAbsent(rows, u, id);
      var r :| r in rows && r.student == u && r.session == id && r.status == Absent;
      assert OfCourse(t, course, r);
    }
  }

  ghost predicate IsStudentThere(users: seq<User>, course: Course, u: UserId) {
    exists user :: user in users && user.id == u && user.org == course.org && user.isStudent
  }

  /** Somebody outside the course's cohorts who never turned up is on its roster
      exactly when they are a student there marked ABSENT in one of its sessions. */
  lemma ListedWithoutTurningUpIff(read: Cohort.SemesterReader, profiles: seq<Cohort.Profile>, t: Sessions, rows: Rows,
      users: seq<User>, course: Course, entries: seq<Entry>, u: UserId)
    requires IsRoster(read, profiles, t, rows, users, course, entries)
    requires !InCohort(read, profiles, course, |course.addresses|, u)
    ensures !TurnedUp(t, rows, course, u) ==>
      (Listed(entries, u) <==> IsStudentThere(users, course, u) && WasMarkedAbsent(t, rows, course, u))
    ensures TurnedUp(t, rows, course, u) ==> (Listed(entries, u) <==> IsStudentThere(users, course, u))
  {
    RowsAreOfSessions(t, rows, course, u);
    if IsStudentThere(users, course, u) && HasRowInCourse(t, rows, course, u) {
      var user :| user in users && user.id == u && user.org == course.org && user.isStudent;
      assert Attendee(t, rows, course, user);
      assert AttendeeAmong(t, rows, course, users, u);
    }
  }
}
