/** The reminder table and what each single database statement does to it. */
module NotificationTable {
  import opened Prelude
  import opened Lectures

  type NotificationId = nat
  type Token = nat

  datatype NotificationStatus = Pending | Sent | Failed | Cancelled

  datatype ReminderType = Instructor24H | Instructor30M | Student10M

  /** The unique constraint: one person, one lecture, one occurrence, one type. */
  datatype Key = Key(user: UserId, lecture: LectureId, occurrence: Instant, kind: ReminderType)

  /** `writtenFrom` is the lecture whose details the stored text was rendered from. */
  datatype Notification = Notification(
    key: Key, org: OrgId, writtenFrom: Lecture, scheduledFor: Instant,
    status: NotificationStatus, sentAt: Option<Instant>,
    attempts: nat, lockedAt: Option<Instant>, lockedBy: Option<Token>)

  type Table = map<NotificationId, Notification>

  const BATCH_SIZE := 100
  const MAX_ATTEMPTS := 3
  const LOCK_TIMEOUT_MS := 5 * 60 * 1000
  const STALE_AFTER_MINUTES := 60

  /* -------------------------------- Claiming ------------------------------- */

  /** Due, and unlocked or locked by a worker that has since died. */
  predicate Claimable(n: Notification, now: Instant) {
    && n.status == Pending && n.scheduledFor <= now
    && (n.lockedAt.None? || n.lockedAt.value < now - LOCK_TIMEOUT_MS)
  }

  function ClaimableIds(t: Table, now: Instant): set<NotificationId> {
    set id | id in t && Claimable(t[id], now)
  }

  function DueTimes(t: Table): map<NotificationId, Option<Instant>> {
    map id | id in t :: Some(t[id].scheduledFor)
  }

  function Locked(n: Notification, now: Instant, token: Token): Notification {
    n.(lockedAt := Some(now), lockedBy := Some(token), attempts := n.attempts + 1)
  }

  /** The claiming UPDATE re-tests the lock in the same statement. */
  function ClaimRows(t: Table, ids: set<NotificationId>, now: Instant, token: Token): Table {
    map id | id in t :: if id in ids && Claimable(t[id], now) then Locked(t[id], now, token) else t[id]
  }

  function HeldBy(t: Table, token: Token): set<NotificationId> {
    set id | id in t && t[id].lockedBy == Some(token) && t[id].status == Pending
  }

  /* -------------------------------- Outcomes ------------------------------- */

  function Unlocked(n: Notification, status: NotificationStatus): Notification {
    n.(status := status, lockedAt := None, lockedBy := None)
  }

  function MarkSent(t: Table, id: NotificationId, at: Instant): Table
    requires id in t
  {
    t[id := Unlocked(t[id], Sent).(sentAt := Some(at))]
  }

  function MarkFailed(t: Table, id: NotificationId, giveUp: bool): Table
    requires id in t
  {
    t[id := Unlocked(t[id], if giveUp then Failed else Pending)]
  }

  /* ------------------------- Cancelling and discarding --------------------- */

  function OverdueIds(t: Table, before: Instant): set<NotificationId> {
    set id | id in t && t[id].status == Pending && t[id].scheduledFor < before
  }

  function CancelOverdue(t: Table, before: Instant): Table {
    map id | id in t :: if t[id].status == Pending && t[id].scheduledFor < before then Unlocked(t[id], Cancelled)
        else t[id]
  }

  function CancelPendingFor(t: Table, lecture: LectureId): Table {
    map id | id in t :: if t[id].status == Pending && t[id].key.lecture == lecture then Unlocked(t[id], Cancelled)
        else t[id]
  }

  /** This lecture's PENDING rows are CANCELLED and unlocked; every other row, of this
      lecture or another, is as it was, and none is gone. */
  ghost predicate OnlyItsPendingCancelled(t: Table, t': Table, lecture: LectureId) {
    && t'.Keys == t.Keys
    && (forall id :: id in t && (t[id].key.lecture != lecture || t[id].status != Pending) ==> t'[id] == t[id])
    && forall id :: id in t && t[id].key.lecture == lecture && t[id].status == Pending ==>
        t'[id] == t[id].(status := Cancelled, lockedAt := None, lockedBy := None)
  }

  predicate Unsent(n: Notification, lecture: LectureId) {
    n.key.lecture == lecture && n.sentAt.None? && (n.status == Pending || n.status == Cancelled)
  }

  function DeleteUnsentFor(t: Table, lecture: LectureId): Table {
    map id | id in t && !Unsent(t[id], lecture) :: t[id]
  }

  /** The development helper brings a pending reminder forward. */
  function Released(t: Table, id: NotificationId, at: Instant): Table {
    if id in t && t[id].status == Pending && t[id].scheduledFor > at then t[id := t[id].(scheduledFor := at)] else t
  }

  /** It makes the row due at once, unless it was due already, and touches no other. */
  lemma ReleaseMakesDue(t: Table, id: NotificationId, at: Instant)
    ensures Released(t, id, at).Keys == t.Keys
    ensures forall other :: other in t && (other != id || t[id].status != Pending) ==>
      Released(t, id, at)[other] == t[other]
    ensures id in t && t[id].status == Pending ==>
      && Released(t, id, at)[id].(scheduledFor := t[id].scheduledFor) == t[id]
      && Released(t, id, at)[id].scheduledFor == if t[id].scheduledFor > at then at else t[id].scheduledFor
  {
  }

  /* ---------------------------- The keyed insert --------------------------- */

  /** One reminder to be written. */
  datatype Draft = Draft(key: Key, org: OrgId, writtenFrom: Lecture, scheduledFor: Instant)

  predicate HasKey(t: Table, key: Key) {
    exists id :: id in t && t[id].key == key
  }

  function RowOf(d: Draft): Notification {
    Notification(d.key, d.org, d.writtenFrom, d.scheduledFor, Pending, None, 0, None, None)
  }

  ghost predicate KeysUnique(t: Table) {
    forall a, b :: a in t && b in t && a != b ==> t[a].key != t[b].key
  }

  ghost predicate Below(t: Table, next: NotificationId) {
    forall id :: id in t ==> id < next
  }

  /** Rows kept, and new ones written from the drafts under keys not yet taken. */
  ghost predicate Extends(t: Table, t': Table) {
    (forall id :: id in t ==> id in t' && t'[id] == t[id]) && (KeysUnique(t) ==> KeysUnique(t'))
  }

  /** The new rows are drafts, under keys that were free. */
  ghost predicate NewRowsFrom(t: Table, t': Table, drafts: seq<Draft>) {
    forall id :: id in t' && id !in t ==> IsNewRow(t, t'[id], drafts)
  }

  ghost predicate IsNewRow(t: Table, n: Notification, drafts: seq<Draft>) {
    !HasKey(t, n.key) && exists d :: d in drafts && n == RowOf(d)
  }

  ghost predicate Inserted(t: Table, t': Table, drafts: seq<Draft>) {
    Extends(t, t') && NewRowsFrom(t, t', drafts) && forall d :: d in drafts ==> HasKey(t', d.key)
  }

  /** Waiting, never tried, in nobody's hands. */
  predicate IsQueued(n: Notification) {
    n.status == Pending && n.sentAt.None? && n.attempts == 0 && n.lockedAt.None? && n.lockedBy.None?
  }

  lemma NewRowsAreQueued(t: Table, t': Table, drafts: seq<Draft>)
    requires NewRowsFrom(t, t', drafts)
    ensures forall id :: id in t' && id !in t ==> IsQueued(t'[id])
  {
    forall id | id in t' && id !in t ensures IsQueued(t'[id]) {
      assert IsNewRow(t, t'[id], drafts);
    }
  }

  lemma InsertOneMore(t: Table, mid: Table, drafts: seq<Draft>, d: Draft, next: NotificationId)
    requires Inserted(t, mid, drafts) && Below(t, next) && Below(mid, next)
    ensures Inserted(t, if HasKey(mid, d.key) then mid else mid[next := RowOf(d)], drafts + [d])
  {
    var t' := if HasKey(mid, d.key) then mid else mid[next := RowOf(d)];
    KeysPersist(mid, t');
    KeysPersist(t, mid);
    assert HasKey(t', d.key) by {
      if !HasKey(mid, d.key) { assert t'[next].key == d.key; }
    }
    forall id | id in t' && id !in t ensures IsNewRow(t, t'[id], drafts + [d]) {
      if id in mid {
        assert IsNewRow(t, mid[id], drafts);
        var e :| e in drafts && mid[id] == RowOf(e);
        assert e in drafts + [d];
      } else {
        assert d in drafts + [d] && t'[id] == RowOf(d);
      }
    }
    assert Extends(t, t') by {
      forall a, b | a in t' && b in t' && a != b && KeysUnique(mid) ensures t'[a].key != t'[b].key {
        if a == next && !HasKey(mid, d.key) { assert b in mid; }
        if b == next && !HasKey(mid, d.key) { assert a in mid; }
      }
    }
  }

  lemma KeysPersist(t: Table, t': Table)
    requires forall id :: id in t ==> id in t' && t'[id] == t[id]
    ensures forall key :: HasKey(t, key) ==> HasKey(t', key)
  {
  }
}
