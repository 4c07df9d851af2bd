/** The dispatcher: delivering one row, and a whole tick. */
module Dispatcher {
  import opened Prelude
  import opened Lectures
  import opened NotificationTable
  import opened LeaseProtocol
  import opened NotificationRepositories
  import Batches

  datatype DispatchResult = DispatchResult(cancelled: nat, claimed: nat, sent: nat, failed: nat, retrying: nat)

  datatype Outcome = WasSent | HasFailed | WillRetry

  function OutcomeOf(attempts: nat, answer: Answer): Outcome {
    if answer == Delivered then WasSent
    else if answer == Rejected || attempts >= MAX_ATTEMPTS then HasFailed
    else WillRetry
  }

  /** A row after its delivery has been recorded. */
  function Recorded(n: Notification, answer: Answer, now: Instant): Notification {
    match OutcomeOf(n.attempts, answer)
    case WasSent => Unlocked(n, Sent).(sentAt := Some(now))
    case HasFailed => Unlocked(n, Failed)
    case WillRetry => Unlocked(n, Pending)
  }

  /** What one delivery makes of a row. A delivered reminder is SENT, now. A rejected
      one is FAILED, whatever the attempt. One that met an outage is FAILED on the
      third attempt or later and before that back in the queue. Nothing else of the
      row changes but its lock, which is gone. */
  predicate DeliveredOnce(n: Notification, after: Notification, answer: Answer, now: Instant) {
    && (after.key, after.org, after.writtenFrom, after.scheduledFor, after.attempts)
       == (n.key, n.org, n.writtenFrom, n.scheduledFor, n.attempts)
    && after.lockedAt.None? && after.lockedBy.None?
    && (answer == Delivered <==> after.status == Sent)
    && after.sentAt == (if answer == Delivered then Some(now) else n.sentAt)
    && (answer == Rejected ==> after.status == Failed)
    && (answer == Threw ==> if n.attempts < 3 then after.status == Pending else after.status == Failed)
  }

  predicate Tells(outcome: Outcome, status: NotificationStatus) {
    match outcome
    case WasSent => status == Sent
    case HasFailed => status == Failed
    case WillRetry => status == Pending
  }

  lemma RecordedIsDeliveredOnce(n: Notification, answer: Answer, now: Instant)
    ensures DeliveredOnce(n, Recorded(n, answer, now), answer, now)
  {
  }

  /** What a row becomes in one tick of a lone worker. */
  function Ticked(n: Notification, overdue: bool, claimed: bool, now: Instant, token: Token,
      provider: Notification -> Answer): Notification
  {
    if overdue then Unlocked(n, Cancelled)
    else if claimed then Recorded(Locked(n, now, token), provider(Locked(n, now, token)), now)
    else n
  }

  function TooOld(now: Instant): Instant {
    now - STALE_AFTER_MINUTES * MINUTE_MS
  }

  class NotificationDispatcher {
    const notifications: NotificationRepository
    const provider: Notification -> Answer

    constructor (notifications: NotificationRepository, provider: Notification -> Answer)
      ensures this.notifications == notifications && this.provider == provider
    {
      this.notifications, this.provider := notifications, provider;
    }

    /** One delivery: the provider is asked once and its answer recorded. */
    method Deliver(n: Notification, id: NotificationId, now: Instant) returns (outcome: Outcome)
      requires id in notifications.table && notifications.table[id] == n
      modifies notifications`table
      ensures notifications.table == old(notifications.table)[id := Recorded(n, provider(n), now)]
      ensures outcome == OutcomeOf(n.attempts, provider(n))
      ensures DeliveredOnce(n, notifications.table[id], provider(n), now)
      ensures Tells(outcome, notifications.table[id].status)
    {
      var lastChance := n.attempts >= MAX_ATTEMPTS;
      match provider(n)
      case Delivered =>
        notifications.MarkSent(id, now);
        outcome := WasSent;
      case Rejected =>
        notifications.MarkFailed(id, true);
        outcome := HasFailed;
      case Threw =>
        notifications.MarkFailed(id, lastChance);
        outcome := if lastChance then HasFailed else WillRetry;
    }

    /** Delivers and records the claimed rows one by one. */
    method DeliverAll(batch: seq<NotificationId>, now: Instant) returns (sent: nat, failed: nat, retrying: nat)
      requires NoDuplicates(batch) && SetOf(batch) <= notifications.table.Keys
      modifies notifications`table
      ensures DeliveredTo(old(notifications.table), notifications.table, SetOf(batch), provider, now)
      ensures Counted(notifications.table, SetOf(batch), sent, failed, retrying)
    {
      ghost var t := notifications.table;
      sent, failed, retrying := 0, 0, 0;
      ghost var done: set<NotificationId> := {};
      NoneCounted(t);
      var i := 0;
      while i < |batch|
        invariant 0 <= i <= |batch| && done == SetOf(batch[..i])
        invariant Counted(notifications.table, done, sent, failed, retrying)
        invariant DeliveredTo(t, notifications.table, done, provider, now)
      {
        var id := batch[i];
        NextIsNew(batch, i);
        OneMoreCounted(notifications.table, done, sent, failed, retrying, id,
            Recorded(notifications.table[id], provider(notifications.table[id]), now));
        OneMoreDelivered(t, notifications.table, done, id, provider, now);
        done := done + {id};
        var outcome := Deliver(notifications.table[id], id, now);
        match outcome {
          case WasSent => sent := sent + 1;
          case HasFailed => failed := failed + 1;
          case WillRetry => retrying := retrying + 1;
        }
        i := i + 1;
      }
      assert batch[..i] == batch;
    }

    /** Long-overdue rows are retired, then up to a hundred due ones are claimed,
        each delivered once and recorded; nothing else is touched, and every
        claimed row is accounted for. */
    method Tick(now: Instant, token: Token) returns (result: DispatchResult, ghost claimed: set<NotificationId>)
      requires forall id :: id in notifications.table ==> notifications.table[id].lockedBy != Some(token)
      modifies notifications`table
      ensures TickedTo(old(notifications.table), notifications.table, claimed, now, token, provider)
      ensures EachClaimedIsDelivered(old(notifications.table), notifications.table, claimed, now, token, provider)
      ensures claimed <= Due(old(notifications.table), now)
      ensures |claimed| == 100 || claimed == Due(old(notifications.table), now)
      ensures result.cancelled == |OverdueIds(old(notifications.table), TooOld(now))|
      ensures result.claimed == |claimed| == result.sent + result.failed + result.retrying
      ensures Counted(notifications.table, claimed, result.sent, result.failed, result.retrying)
    {
      ghost var t := notifications.table;
      var cancelled := notifications.CancelOverdue(TooOld(now));
      ghost var t1 := notifications.table;
      CancellingLeavesDue(t, now);
      assert forall id :: id in t1 ==> t1[id].lockedBy != Some(token);
      var batch, candidates := notifications.ClaimDue(now, token);
      claimed := SetOf(batch);
      ghost var t2 := notifications.table;
      BatchTakesAll(batch, candidates, t1, now);
      var sent, failed, retrying := DeliverAll(batch, now);
      result := DispatchResult(cancelled, |batch|, sent, failed, retrying);
      EveryRowIsCounted(notifications.table, claimed, sent, failed, retrying);
      TickInThreeSteps(t, t1, t2, notifications.table, claimed, now, token, provider);
      ClaimedRowsAreDelivered(t, notifications.table, claimed, now, token, provider);
    }
  }

  /** The listed rows have been delivered and recorded, the others not touched. */
  ghost predicate DeliveredTo(t: Table, t': Table, ids: set<NotificationId>, provider: Notification -> Answer,
      now: Instant)
  {
    t'.Keys == t.Keys && forall id :: id in t ==>
        t'[id] == if id in ids then Recorded(t[id], provider(t[id]), now) else t[id]
  }

  ghost predicate TickedTo(t: Table, t': Table, claimed: set<NotificationId>, now: Instant, token: Token,
      provider: Notification -> Answer)
  {
    t'.Keys == t.Keys
    && forall id :: id in t ==>
        t'[id] == Ticked(t[id], id in OverdueIds(t, TooOld(now)), id in claimed, now, token, provider)
  }

  /** The row was locked and its attempt counted, then delivered once as it stood. */
  ghost predicate ClaimedAndDelivered(n: Notification, after: Notification, now: Instant, token: Token,
      provider: Notification -> Answer)
  {
    var taken := n.(lockedAt := Some(now), lockedBy := Some(token), attempts := n.attempts + 1);
    DeliveredOnce(taken, after, provider(taken), now)
  }

  /** Each claimed row was delivered, each long overdue one retired, and no other
      touched. */
  ghost predicate EachClaimedIsDelivered(t: Table, t': Table, claimed: set<NotificationId>, now: Instant, token: Token,
      provider: Notification -> Answer)
  {
    && t'.Keys == t.Keys
    && (forall id :: id in claimed ==> id in t && ClaimedAndDelivered(t[id], t'[id], now, token, provider))
    && (forall id :: id in t && LongOverdue(t[id], now) ==>
          id !in claimed && t'[id] == t[id].(status := Cancelled, lockedAt := None, lockedBy := None))
    && forall id :: id in t && id !in claimed && !LongOverdue(t[id], now) ==> t'[id] == t[id]
  }

  /** Still waiting over an hour after its moment. */
  predicate LongOverdue(n: Notification, now: Instant) {
    n.status == Pending && n.scheduledFor < now - HOUR_MS
  }

  lemma ClaimedRowsAreDelivered(t: Table, t': Table, claimed: set<NotificationId>, now: Instant, token: Token,
      provider: Notification -> Answer)
    requires TickedTo(t, t', claimed, now, token, provider) && claimed <= Due(t, now)
    ensures EachClaimedIsDelivered(t, t', claimed, now, token, provider)
  {
    forall id | id in claimed ensures ClaimedAndDelivered(t[id], t'[id], now, token, provider) {
      RecordedIsDeliveredOnce(Locked(t[id], now, token), provider(Locked(t[id], now, token)), now);
    }
  }

  lemma OneMoreDelivered(t: Table, mid: Table, ids: set<NotificationId>, id: NotificationId,
      provider: Notification -> Answer, now: Instant)
    requires DeliveredTo(t, mid, ids, provider, now) && id in t && id !in ids
    ensures DeliveredTo(t, mid[id := Recorded(mid[id], provider(mid[id]), now)], ids + {id}, provider, now)
  {
  }

  lemma NextIsNew(batch: seq<NotificationId>, i: nat)
    requires NoDuplicates(batch) && i < |batch|
    ensures batch[i] in SetOf(batch) && batch[i] !in SetOf(batch[..i])
    ensures SetOf(batch[..i + 1]) == SetOf(batch[..i]) + {batch[i]}
  {
  }

  lemma TickInThreeSteps(t: Table, t1: Table, t2: Table, t3: Table, claimed: set<NotificationId>, now: Instant,
      token: Token, provider: Notification -> Answer)
    requires t1 == NotificationTable.CancelOverdue(t, TooOld(now)) && t2 == ClaimRows(t1, claimed, now, token)
    requires claimed <= ClaimableIds(t1, now) && DeliveredTo(t2, t3, claimed, provider, now)
    ensures TickedTo(t, t3, claimed, now, token, provider)
  {
  }

  lemma NoneCounted(t: Table)
    ensures Counted(t, {}, 0, 0, 0)
  {
  }

  function WithStatus(t: Table, ids: set<NotificationId>, status: NotificationStatus): set<NotificationId> {
    set id | id in ids && id in t && t[id].status == status
  }

  /** The tallies are those of the rows' statuses: sent, given up, back in the queue. */
  ghost predicate Counted(t: Table, ids: set<NotificationId>, sent: nat, failed: nat, retrying: nat) {
    && sent == |WithStatus(t, ids, Sent)| && failed == |WithStatus(t, ids, Failed)|
        && retrying == |WithStatus(t, ids, Pending)|
    && forall id :: id in ids ==> id in t && t[id].status != Cancelled
  }

  lemma OneMoreWithStatus(t: Table, ids: set<NotificationId>, id: NotificationId, n: Notification,
      status: NotificationStatus)
    requires id !in ids
    ensures |WithStatus(t[id := n], ids + {id}, status)| == |WithStatus(t, ids, status)| + if n.status == status then 1
        else 0
  {
    var before, after := WithStatus(t, ids, status), WithStatus(t[id := n], ids + {id}, status);
    if n.status == status {
      assert after == before + {id};
    } else {
      assert after == before;
    }
  }

  lemma OneMoreCounted(t: Table, ids: set<NotificationId>, sent: nat, failed: nat, retrying: nat, id: NotificationId,
      n: Notification)
    requires Counted(t, ids, sent, failed, retrying) && id in t && id !in ids && n.status != Cancelled
    ensures Counted(t[id := n], ids + {id}, sent + if n.status == Sent then 1 else 0,
                    failed + if n.status == Failed then 1 else 0, retrying + if n.status == Pending then 1 else 0)
  {
    OneMoreWithStatus(t, ids, id, n, Sent);
    OneMoreWithStatus(t, ids, id, n, Failed);
    OneMoreWithStatus(t, ids, id, n, Pending);
  }

  lemma EveryRowIsCounted(t: Table, ids: set<NotificationId>, sent: nat, failed: nat, retrying: nat)
    requires Counted(t, ids, sent, failed, retrying)
    ensures |ids| == sent + failed + retrying
  {
    assert ids == (WithStatus(t, ids, Sent) + WithStatus(t, ids, Failed)) + WithStatus(t, ids, Pending);
  }

  /** What a tick may claim: due and not long overdue. */
  function Due(t: Table, now: Instant): set<NotificationId> {
    ClaimableIds(t, now) - OverdueIds(t, TooOld(now))
  }

  lemma CancellingLeavesDue(t: Table, now: Instant)
    ensures ClaimableIds(NotificationTable.CancelOverdue(t, TooOld(now)), now) == Due(t, now)
  {
  }

  lemma BatchTakesAll(batch: seq<NotificationId>, candidates: seq<NotificationId>, t: Table, now: Instant)
    requires Batches.IsBatch(candidates, ClaimableIds(t, now), DueTimes(t), BATCH_SIZE)
    requires NoDuplicates(batch) && SetOf(batch) == SetOf(candidates)
    ensures |SetOf(batch)| == |batch| && SetOf(batch) <= ClaimableIds(t, now)
    ensures |batch| == BATCH_SIZE || SetOf(batch) == ClaimableIds(t, now)
  {
    NoDuplicatesCardinality(batch);
    NoDuplicatesCardinality(candidates);
    if |batch| != BATCH_SIZE {
      assert |ClaimableIds(t, now) - SetOf(batch)| == 0;
    }
  }
}
