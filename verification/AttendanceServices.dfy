/** Scanning, opening and closing by hand, each as one uninterrupted request. */
module AttendanceServices {
  import opened Prelude
  import opened SessionWindow
  import opened Lectures
  import opened AttendanceTables
  import opened AttendanceRepositories
  import opened AttendanceProtocol
  import Cohort
  import Text

  datatype Signature = Genuine | Expired | Forged

  /** What the presented code names, and how it verifies against that session's
      own secret. */
  datatype Token = Undecodable | Names(session: SessionId, signature: Signature)

  datatype ScanError =
    | QrInvalid | SessionNotFound | QrExpired | WrongOrganization | NotInCohort | ProfileIncomplete
    | NotStarted | Ended | SessionClosed | AlreadyRecorded

  datatype Actor = Actor(id: UserId, org: OrgId)

  /** Everything a scan has to pass. */
  predicate ScanPasses(c: Config, t: Sessions, lectures: map<LectureId, Lecture>, students: seq<Cohort.Profile>,
      rows: Rows,
                       token: Token, actor: Actor, now: Instant)
  {
    && token.Names? && token.session in t && token.signature == Genuine
    && var session := t[token.session];
    && session.org == actor.org
    && ScanAccepted(c, students, ScanLoaded(actor.id, token.session, session, JoinedLecture(session, lectures), now))
    && !HasRow(rows, actor.id, token.session)
  }

  /** Within the lecture's length of the opening, the other checks passing. */
  ghost predicate InTime(c: Config, t: Sessions, lectures: map<LectureId, Lecture>, students: seq<Cohort.Profile>,
      rows: Rows, token: Token, actor: Actor, now: Instant, minutes: int)
  {
    && IsGenuine(token) && token.session in t
    && var session := t[token.session];
    && session.org == actor.org && session.status == Active
    && session.startTime <= now <= session.startTime + minutes * MINUTE_MS
    && Eligible(c, students, actor.id, session, JoinedLecture(session, lectures))
    && !HasRow(rows, actor.id, token.session)
  }

  lemma PassesExactlyInTime(c: Config, t: Sessions, lectures: map<LectureId, Lecture>, students: seq<Cohort.Profile>,
      rows: Rows, token: Token, actor: Actor, now: Instant, minutes: int)
    requires token.Names? && token.session in t
    requires LastsFor(t[token.session], lectures, c.window.defaultSessionMinutes, minutes)
    ensures ScanPasses(c, t, lectures, students, rows, token, actor, now) <==>
      InTime(c, t, lectures, students, rows, token, actor, now, minutes)
  {
    SessionLength(t[token.session], lectures, c.window, minutes);
  }

  /** The reason given is the true one. */
  predicate Truthful(c: Config, t: Sessions, lectures: map<LectureId, Lecture>, students: seq<Cohort.Profile>,
      rows: Rows,
                     token: Token, actor: Actor, now: Instant, error: ScanError)
  {
    if error == QrInvalid then token.Undecodable? || token.signature == Forged
    else if error == SessionNotFound then token.Names? && token.session !in t
    else if error == QrExpired then token.Names? && token.signature == Expired
    else
      && token.Names? && token.session in t && token.signature == Genuine
      && TrueOf(c, t[token.session], JoinedLecture(t[token.session], lectures), students, actor, now,
          HasRow(rows, actor.id, token.session), error)
  }

  predicate TrueOf(c: Config, session: Session, lecture: Option<Lecture>, students: seq<Cohort.Profile>, actor: Actor,
      now: Instant,
                   recorded: bool, error: ScanError)
  {
    var state := StateOf(session.status, session.startTime, TimesOf(lecture), now, c.window);
    && (error == WrongOrganization ==> session.org != actor.org || (lecture.Some? && lecture.value.org != session.org))
    && (error == ProfileIncomplete ==>
        lecture.Some? && !Cohort.ResolveCohort(c.read, ProfileOf(students, actor.id)).Resolved?)
    && (error == NotInCohort ==> !Eligible(c, students, actor.id, session, lecture))
    && (error == NotStarted <==>
        state == Upcoming && Eligible(c, students, actor.id, session, lecture) && session.org == actor.org)
    && (error == Ended <==>
        state == Pending && Eligible(c, students, actor.id, session, lecture) && session.org == actor.org)
    && (error == SessionClosed <==>
        state == Recorded && Eligible(c, students, actor.id, session, lecture) && session.org == actor.org)
    && (error == AlreadyRecorded ==> recorded)
  }

  /** The answer to a scan; the first check that fails decides. */
  function ScanAnswer(c: Config, t: Sessions, lectures: map<LectureId, Lecture>, students: seq<Cohort.Profile>,
      rows: Rows,
                      token: Token, actor: Actor, now: Instant): Result<AttendanceStatus, ScanError>
  {
    if token.Undecodable? then Err(QrInvalid)
    else if token.session !in t then Err(SessionNotFound)
    else if token.signature == Expired then Err(QrExpired)
    else if token.signature == Forged then Err(QrInvalid)
    else AnswerToGenuine(c, t[token.session], JoinedLecture(t[token.session], lectures), students, actor, now,
                         HasRow(rows, actor.id, token.session))
  }

  function AnswerToGenuine(c: Config, session: Session, lecture: Option<Lecture>, students: seq<Cohort.Profile>,
      actor: Actor,
                           now: Instant, recorded: bool): Result<AttendanceStatus, ScanError>
  {
    if session.org != actor.org then Err(WrongOrganization)
    else if !Eligible(c, students, actor.id, session, lecture)
        then Err(Refusal(c, students, actor.id, session, lecture))
    else
      match StateOf(session.status, session.startTime, TimesOf(lecture), now, c.window)
      case Upcoming => Err(NotStarted)
      case Pending => Err(Ended)
      case Recorded => Err(SessionClosed)
      case InProgress =>
        if recorded then Err(AlreadyRecorded) else Ok(PunctualityOf(session.startTime, now, c.lateAfterMinutes))
  }

  /** Why somebody is not eligible. */
  function Refusal(c: Config, students: seq<Cohort.Profile>, student: UserId, session: Session,
      lecture: Option<Lecture>): ScanError
  {
    if lecture.None? then NotInCohort
    else if lecture.value.org != session.org then WrongOrganization
    else if !Cohort.ResolveCohort(c.read, ProfileOf(students, student)).Resolved? then ProfileIncomplete
    else NotInCohort
  }

  predicate IsGenuine(token: Token) {
    token.Names? && token.signature == Genuine
  }

  /** The session is looked up before the signature is verified, so a code this
      system never issued does learn something. What it learns is exactly whether
      the session it names exists: whatever else differs between two systems, their
      answers differ precisely when the code decodes and that does. */
  lemma ForgedCodeLearnsOnlyExistence(
      token: Token,
      c1: Config, t1: Sessions, lectures1: map<LectureId, Lecture>, students1: seq<Cohort.Profile>, rows1: Rows,
          actor1: Actor, now1: Instant,
      c2: Config, t2: Sessions, lectures2: map<LectureId, Lecture>, students2: seq<Cohort.Profile>, rows2: Rows,
          actor2: Actor, now2: Instant)
    requires !IsGenuine(token)
    ensures ScanAnswer(c1, t1, lectures1, students1, rows1, token, actor1, now1)
         != ScanAnswer(c2, t2, lectures2, students2, rows2, token, actor2, now2)
      <==> token.Names? && ((token.session in t1) != (token.session in t2))
  {
  }

  /** Opening one session changes what a forged code naming it is told. */
  lemma ForgedCodeDetectsASession(c: Config, t: Sessions, id: SessionId, session: Session, lectures: map<LectureId,
      Lecture>,
                                  students: seq<Cohort.Profile>, rows: Rows, actor: Actor, now: Instant)
    requires id !in t
    ensures ScanAnswer(c, t, lectures, students, rows, Names(id, Forged), actor, now) == Err(SessionNotFound)
    ensures ScanAnswer(c, t[id := session], lectures, students, rows, Names(id, Forged), actor, now) == Err(QrInvalid)
  {
  }

  class AttendanceService {
    const sessions: SessionRepository
    const attendances: AttendanceRepository
    const students: StudentRepository
    const lectures: map<LectureId, Lecture>
    const config: Config

    constructor (sessions: SessionRepository, attendances: AttendanceRepository, students: StudentRepository,
                 lectures: map<LectureId, Lecture>, config: Config)
      ensures this.sessions == sessions && this.attendances == attendances && this.students == students
      ensures this.lectures == lectures && this.config == config
    {
      this.sessions, this.attendances, this.students := sessions, attendances, students;
      this.lectures, this.config := lectures, config;
    }

    /** Writes one PRESENT or LATE row exactly when every check passes; otherwise
        changes nothing and says truly why, the first failing check first. */
    method ScanAttendance(token: Token, actor: Actor, now: Instant, at: Instant)
      returns (r: Result<AttendanceStatus, ScanError>)
      modifies attendances
      ensures r == ScanAnswer(config, sessions.table, lectures, students.profiles, old(attendances.rows), token, actor,
          now)
      ensures r.Ok? <==> ScanPasses(config, sessions.table, lectures, students.profiles, old(attendances.rows), token,
          actor, now)
      ensures forall minutes |
          token.Names? && token.session in sessions.table
          && LastsFor(sessions.table[token.session], lectures, config.window.defaultSessionMinutes, minutes) ::
        r.Ok? <==> InTime(config, sessions.table, lectures, students.profiles, old(attendances.rows), token, actor,
            now, minutes)
      ensures r.Ok? ==>
        && r.value == PunctualityOf(sessions.table[token.session].startTime, now, config.lateAfterMinutes)
        && attendances.rows == old(attendances.rows) + [Attendance(actor.id, token.session, r.value, at)]
      ensures r.Err? ==>
        && attendances.rows == old(attendances.rows)
        && Truthful(config, sessions.table, lectures, students.profiles, attendances.rows, token, actor, now, r.error)
    {
      if token.Undecodable? {
        return Err(QrInvalid);
      }
      forall minutes | token.session in sessions.table
          && LastsFor(sessions.table[token.session], lectures, config.window.defaultSessionMinutes, minutes)
        ensures ScanPasses(config, sessions.table, lectures, students.profiles, attendances.rows, token, actor, now)
          <==> InTime(config, sessions.table, lectures, students.profiles, attendances.rows, token, actor, now, minutes)
      {
        PassesExactlyInTime(config, sessions.table, lectures, students.profiles, attendances.rows, token, actor, now,
            minutes);
      }
      if token.session !in sessions.table {
        return Err(SessionNotFound);
      }
      var session := sessions.table[token.session];
      if token.signature != Genuine {
        return Err(if token.signature == Expired then QrExpired else QrInvalid);
      }
      if session.org != actor.org {
        return Err(WrongOrganization);
      }
      var lecture := JoinedLecture(session, lectures);
      var refusal := AssertEligible(session, lecture, actor);
      if refusal.Some? {
        return Err(refusal.value);
      }
      var state := StateOf(session.status, session.startTime, TimesOf(lecture), now, config.window);
      if state != InProgress {
        return Err(if state == Upcoming then NotStarted else if state == Pending then Ended else SessionClosed);
      }
      if HasRow(attendances.rows, actor.id, token.session) {
        return Err(AlreadyRecorded);
      }
      var status := PunctualityOf(session.startTime, now, config.lateAfterMinutes);
      var _ := attendances.Create(actor.id, token.session, status, at);
      r := Ok(status);
    }

    method AssertEligible(session: Session, lecture: Option<Lecture>, actor: Actor) returns (refusal: Option<ScanError>)
      ensures refusal.None? <==> Eligible(config, students.profiles, actor.id, session, lecture)
      ensures refusal.Some? ==> refusal.value == Refusal(config, students.profiles, actor.id, session, lecture)
      ensures refusal == Some(WrongOrganization) ==> lecture.Some? && lecture.value.org != session.org
      ensures refusal == Some(ProfileIncomplete) ==>
        lecture.Some? && !Cohort.ResolveCohort(config.read, ProfileOf(students.profiles, actor.id)).Resolved?
    {
      if lecture.None? {
        return if config.allowUnlinked then None else Some(NotInCohort);
      }
      if lecture.value.org != session.org {
        return Some(WrongOrganization);
      }
      var cohort := Cohort.ResolveCohort(config.read, ProfileOf(students.profiles, actor.id));
      if !cohort.Resolved? {
        return Some(ProfileIncomplete);
      }
      if !Cohort.CohortMatches(lecture.value.address, cohort.criteria) {
        return Some(NotInCohort);
      }
      refusal := None;
    }
  }

  /* --------------------------- Opening and closing ------------------------- */

  datatype SessionError = NotFound | Conflict | NoRoom

  datatype Operator = Operator(id: UserId, org: OrgId, isInstructor: bool)

  /** In the operator's organization, and an instructor's own. */
  predicate Theirs(lectures: map<LectureId, Lecture>, lecture: LectureId, operator: Operator) {
    && lecture in lectures && lectures[lecture].org == operator.org
    && (operator.isInstructor ==> lectures[lecture].instructor == operator.id)
  }

  predicate MayOpenLecture(lectures: map<LectureId, Lecture>, lecture: LectureId, operator: Operator) {
    Theirs(lectures, lecture, operator) && lectures[lecture].isActive && Text.Trim(lectures[lecture].room) != ""
  }

  /** This occurrence has a session already. */
  predicate OpenedAlready(t: Sessions, lecture: LectureId, org: OrgId, now: Instant) {
    OpenedBetween(t, lecture, org, now - OPEN_LATE_MS, now + OPEN_LATE_MS) != {}
  }

  /** Some session of the lecture was opened less than twelve hours from `now`, or
      exactly twelve hours before it. */
  predicate OpenedNear(t: Sessions, lecture: LectureId, org: OrgId, now: Instant) {
    exists g :: g in t && IsNear(t[g], lecture, org, now)
  }

  predicate IsNear(s: Session, lecture: LectureId, org: OrgId, now: Instant) {
    s.lecture == Some(lecture) && s.org == org && now - 12 * HOUR_MS <= s.startTime < now + 12 * HOUR_MS
  }

  lemma OpenedAlreadyIff(t: Sessions, lecture: LectureId, org: OrgId, now: Instant)
    ensures OpenedAlready(t, lecture, org, now) <==> OpenedNear(t, lecture, org, now)
  {
    if OpenedNear(t, lecture, org, now) {
      var g :| g in t && IsNear(t[g], lecture, org, now);
      assert g in OpenedBetween(t, lecture, org, now - OPEN_LATE_MS, now + OPEN_LATE_MS);
    }
  }

  class SessionService {
    const sessions: SessionRepository
    const lectures: map<LectureId, Lecture>

    constructor (sessions: SessionRepository, lectures: map<LectureId, Lecture>)
      ensures this.sessions == sessions && this.lectures == lectures
    {
      this.sessions, this.lectures := sessions, lectures;
    }

    method CreateSession(id: SessionId, lecture: Option<LectureId>, operator: Operator, now: Instant, at: Instant)
      returns (error: Option<SessionError>)
      requires id !in sessions.table
      modifies sessions
      ensures error.None? <==> (lecture.Some? ==>
        MayOpenLecture(lectures, lecture.value, operator)
            && !OpenedAlready(old(sessions.table), lecture.value, operator.org, now))
      ensures error.None? <==> (lecture.Some? ==>
        MayOpenLecture(lectures, lecture.value, operator)
            && !OpenedNear(old(sessions.table), lecture.value, operator.org, now))
      ensures error.None? ==> sessions.table == old(sessions.table)[id := Session(operator.org, lecture,
        if lecture.Some? then Some(lectures[lecture.value].course) else None, at, Active, None, None, None)]
      ensures error.Some? ==> sessions.table == old(sessions.table)
    {
      if lecture.Some? {
        OpenedAlreadyIff(sessions.table, lecture.value, operator.org, now);
        var refusal := LoadScheduleForOpening(lecture.value, operator);
        if refusal.Some? {
          return refusal;
        }
        var existing := sessions.FindOpenedForScheduleBetween(lecture.value, operator.org, now - OPEN_LATE_MS,
            now + OPEN_LATE_MS);
        if existing != [] {
          assert existing[0] in SetOf(existing);
          return Some(Conflict);
        }
      }
      sessions.Create(id, operator.org, lecture, if lecture.Some? then Some(lectures[lecture.value].course) else None,
          at);
      error := None;
    }

    /** Tenant and ownership first, then cancellation, then the room. */
    method LoadScheduleForOpening(lecture: LectureId, operator: Operator) returns (refusal: Option<SessionError>)
      ensures refusal.None? <==> MayOpenLecture(lectures, lecture, operator)
      ensures refusal == Some(NotFound) <==>
        (|| lecture !in lectures || lectures[lecture].org != operator.org
         || (operator.isInstructor && lectures[lecture].instructor != operator.id))
      ensures refusal == Some(Conflict) <==> Theirs(lectures, lecture, operator) && !lectures[lecture].isActive
      ensures refusal == Some(NoRoom) <==>
        Theirs(lectures, lecture, operator) && lectures[lecture].isActive && Text.IsBlank(lectures[lecture].room)
    {
      if lecture !in lectures || lectures[lecture].org != operator.org {
        return Some(NotFound);
      }
      Text.BlankTextTrimsAway(lectures[lecture].room);
      if operator.isInstructor && lectures[lecture].instructor != operator.id {
        return Some(NotFound);
      }
      if !lectures[lecture].isActive {
        return Some(Conflict);
      }
      if Text.Trim(lectures[lecture].room) == "" {
        return Some(NoRoom);
      }
      refusal := None;
    }

    /** `visible` is the outcome of the authorization check. Undisturbed, a manual
        close ends an open session now and leaves a closed one as it is. */
    method CloseSession(id: SessionId, visible: bool, at: Instant) returns (error: Option<SessionError>)
      modifies sessions
      ensures error.None? <==> visible && id in old(sessions.table) && old(sessions.table)[id].status == Active
      ensures sessions.table ==
        if error.None? then old(sessions.table)[id := ClosedWith(old(sessions.table)[id], at, Manual)]
            else old(sessions.table)
      ensures error == Some(Conflict) ==> id in old(sessions.table) && old(sessions.table)[id].status == Closed
    {
      if !visible || id !in sessions.table {
        return Some(NotFound);
      }
      if sessions.table[id].status != Active {
        return Some(Conflict);
      }
      sessions.UpdateStatus(id, at, Manual);
      error := None;
    }
  }

  /* ------------------- One session every twelve hours ---------------------- */

  /** Sessions of one lecture and organization opened over twelve hours apart. */
  ghost predicate SpacedOut(t: Sessions) {
    forall a, b :: a in t && b in t && a != b && SameLecture(t[a], t[b]) ==>
      t[a].startTime - t[b].startTime > 12 * HOUR_MS || t[b].startTime - t[a].startTime > 12 * HOUR_MS
  }

  predicate SameLecture(a: Session, b: Session) {
    a.lecture.Some? && a.lecture == b.lecture && a.org == b.org
  }

  datatype Change = Opened(id: SessionId, lecture: Option<LectureId>, org: OrgId, now: Instant,
      at: Instant) | Other(at: Instant)

  /** A successful opening, or any statement that moves no session's opening. */
  ghost predicate Changes(t: Sessions, ch: Change, t': Sessions) {
    match ch
    case Opened(id, lecture, org, now, at) =>
      && id !in t && now <= at && (lecture.Some? ==> !OpenedAlready(t, lecture.value, org, now))
      && id in t' && t'[id].lecture == lecture && t'[id].org == org && t'[id].startTime == at && t' == t[id := t'[id]]
    case Other(_) =>
      && t'.Keys == t.Keys
      && forall id :: id in t ==>
          t'[id].startTime == t[id].startTime && t'[id].lecture == t[id].lecture && t'[id].org == t[id].org
  }

  function StartOf(ch: Change): Instant {
    if ch.Opened? then ch.now else ch.at
  }

  ghost predicate OpenedBy(t: Sessions, clock: Instant) {
    forall id :: id in t ==> t[id].startTime <= clock
  }

  lemma ChangeKeepsSpacing(t: Sessions, ch: Change, t': Sessions)
    requires Changes(t, ch, t') && SpacedOut(t) && OpenedBy(t, StartOf(ch))
    ensures SpacedOut(t') && OpenedBy(t', ch.at)
  {
    if ch.Opened? {
      forall a | a in t && SameLecture(t[a], t'[ch.id]) ensures ch.at - t[a].startTime > OPEN_LATE_MS {
        assert a !in OpenedBetween(t, ch.lecture.value, ch.org, ch.now - OPEN_LATE_MS, ch.now + OPEN_LATE_MS);
      }
    } else {
      StartsUnmoved(t, ch, t');
    }
  }

  lemma StartsUnmoved(t: Sessions, ch: Change, t': Sessions)
    requires Changes(t, ch, t') && ch.Other? && SpacedOut(t)
    ensures SpacedOut(t')
  {
    forall a, b | a in t && b in t && a != b && SameLecture(t'[a], t'[b]) ensures SameLecture(t[a], t[b]) {}
  }

  ghost predicate ChangesAt(tables: seq<Sessions>, changes: seq<Change>, i: nat)
    requires i < |changes| && |tables| == |changes| + 1
  {
    Changes(tables[i], changes[i], tables[i + 1])
  }

  /** With a clock that never runs backwards and one request at a time, no lecture
      gets a second session within twelve hours of another. */
  lemma {:induction false} OneSessionPerHalfDay(tables: seq<Sessions>, changes: seq<Change>)
    requires |tables| == |changes| + 1 && tables[0] == map[]
    requires forall i :: 0 <= i < |changes| ==> ChangesAt(tables, changes, i)
    requires forall i :: 0 <= i < |changes| - 1 ==> changes[i].at <= StartOf(changes[i + 1])
    ensures SpacedOut(tables[|changes|])
    ensures |changes| > 0 ==> OpenedBy(tables[|changes|], changes[|changes| - 1].at)
  {
    if changes != [] {
      var n := |changes| - 1;
      var before, done := tables[..n + 1], changes[..n];
      forall i | 0 <= i < n ensures ChangesAt(before, done, i) {
        assert ChangesAt(tables, changes, i);
      }
      OneSessionPerHalfDay(before, done);
      assert n > 0 ==> changes[n - 1].at <= StartOf(changes[n]);
      assert ChangesAt(tables, changes, n) && OpenedBy(tables[n], StartOf(changes[n]));
      ChangeKeepsSpacing(tables[n], changes[n], tables[n + 1]);
    }
  }
}
