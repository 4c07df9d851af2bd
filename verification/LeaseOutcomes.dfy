/** From which states a reminder can still go out, and from which a SENT or FAILED one
    can still change: the exact conditions behind "never twice". With `failures` the
    database may refuse to record an outcome, without it every record succeeds. */
module LeaseOutcomes {
  import opened Prelude
  import opened NotificationTable
  import opened LeaseProtocol
  import opened LeaseTheorems
  import Batches

  /* ------------------------------ Continuations ---------------------------- */

  predicate MayHappen(step: Step, failures: bool) {
    failures || !step.RecordFails?
  }

  ghost predicate Continues(run: seq<State>, steps: seq<Step>, s: State, failures: bool) {
    IsRun(run, steps) && run[0] == s && forall i :: 0 <= i < |steps| ==> MayHappen(steps[i], failures)
  }

  ghost predicate Reaches(s: State, s': State, failures: bool) {
    exists run, steps :: Continues(run, steps, s, failures) && run[|steps|] == s'
  }

  lemma ReachesItself(s: State, failures: bool)
    ensures Reaches(s, s, failures)
  {
    assert Continues([s], [], s, failures);
  }

  lemma ReachesBy(s: State, mid: State, step: Step, failures: bool)
    requires Reaches(s, mid, failures) && Enabled(mid, step) && MayHappen(step, failures)
    ensures Reaches(s, Apply(mid, step), failures)
  {
    var run, steps :| Continues(run, steps, s, failures) && run[|steps|] == mid;
    var run', steps' := OneMore(run, steps, step);
    assert Continues(run', steps', s, failures);
  }

  /** Some continuation delivers the row once more. */
  ghost predicate GoesOut(s: State, id: NotificationId, failures: bool) {
    exists run, steps :: Continues(run, steps, s, failures) && Successes(steps, id) > 0
  }

  lemma ReachesADelivery(s: State, mid: State, w: Token, id: NotificationId, failures: bool)
    requires Reaches(s, mid, failures) && Holds(mid, w, id) && mid.workers[w].answered.None?
    ensures GoesOut(s, id, failures)
  {
    var run, steps :| Continues(run, steps, s, failures) && run[|steps|] == mid;
    var run', steps' := OneMore(run, steps, Deliver(w, id, Delivered));
    assert Continues(run', steps', s, failures);
  }

  /* ------------------------- When it can still go out ---------------------- */

  /** The worker has an answer about another row to record, which is still there. */
  predicate RecordsAnother(s: State, w: Token, id: NotificationId) {
    HasAnswer(s, w) && s.workers[w].answered.value.0 != id && s.workers[w].answered.value.0 in s.table
  }

  /** The worker has an answer about this row that puts it back in the queue. */
  predicate PutsBack(s: State, w: Token, id: NotificationId, failures: bool)
    requires Holds(s, w, id)
  {
    && s.workers[w].answered.Some? && s.workers[w].answered.value.0 == id && id in s.table
    && AttemptOf(s, w, id) < MAX_ATTEMPTS && (s.workers[w].answered.value.1 == Threw || failures)
  }

  /** The worker has the row in hand and is not past delivering or retrying it. */
  predicate CanDeliver(s: State, w: Token, id: NotificationId, failures: bool) {
    && Holds(s, w, id)
    && (s.workers[w].answered.None? || RecordsAnother(s, w, id) || PutsBack(s, w, id, failures))
  }

  predicate Queued(s: State, id: NotificationId) {
    id in s.table && s.table[id].status == Pending
  }

  ghost predicate CanGoOut(s: State, id: NotificationId, failures: bool) {
    Queued(s, id) || exists w :: CanDeliver(s, w, id, failures)
  }

  /* ----------------------- It can: from the queue -------------------------- */

  /** With everything due earlier retired, a read late enough may return the row. */
  lemma RowCanBeCandidate(t: Table, id: NotificationId) returns (now: Instant, batch: seq<NotificationId>)
    requires id in t && t[id].status == Pending
    requires forall other :: other in t && t[other].status == Pending ==> t[id].scheduledFor <= t[other].scheduledFor
    ensures Claimable(t[id], now) && id in batch
    ensures Batches.IsBatch(batch, ClaimableIds(t, now), DueTimes(t), BATCH_SIZE)
  {
    var lock := if t[id].lockedAt.None? then 0 else t[id].lockedAt.value;
    now := (if lock < t[id].scheduledFor then t[id].scheduledFor else lock) + LOCK_TIMEOUT_MS + 1;
    batch := Batches.FirstCanBeTaken(id, ClaimableIds(t, now), DueTimes(t), BATCH_SIZE);
  }

  lemma OverdueLeavesTheRest(t: Table, id: NotificationId)
    requires id in t && t[id].status == Pending
    ensures
      var after := CancelOverdue(t, t[id].scheduledFor);
      && id in after && after[id] == t[id]
      && forall other :: other in after && after[other].status == Pending ==>
          t[id].scheduledFor <= after[other].scheduledFor
  {
  }

  lemma ClaimLocks(s: State, token: Token, id: NotificationId)
    requires Enabled(s, Claim(token)) && id in s.table && id in s.workers[token].ids
    requires Claimable(s.table[id], s.workers[token].now)
    ensures
      var after := AfterClaim(s, token);
      && token in after.workers && after.workers[token].HasClaimed?
      && id in after.table && after.table[id].lockedBy == Some(token) && after.table[id].status == Pending
  {
  }

  lemma ReadBackHolds(s: State, token: Token, id: NotificationId)
    requires Enabled(s, ReadBack(token)) && id in s.table
    requires s.table[id].lockedBy == Some(token) && s.table[id].status == Pending
    ensures Holds(AfterReadBack(s, token), token, id) && AfterReadBack(s, token).workers[token].answered.None?
  {
    assert id in HeldBy(s.table, token);
  }

  lemma QueuedGoesOut(s: State, mid: State, id: NotificationId, failures: bool)
    requires Reaches(s, mid, failures) && Queued(mid, id)
    ensures GoesOut(s, id, failures)
  {
    var retire := Overdue(mid.table[id].scheduledFor);
    var s1 := Apply(mid, retire);
    OverdueLeavesTheRest(mid.table, id);
    ReachesBy(s, mid, retire, failures);
    var now, batch := RowCanBeCandidate(s1.table, id);
    var token := Above(s1.usedTokens);
    ReachesBy(s, s1, ReadCandidates(token, now, batch), failures);
    var s2 := Apply(s1, ReadCandidates(token, now, batch));
    ReachesBy(s, s2, Claim(token), failures);
    assert id in s2.workers[token].ids;
    ClaimLocks(s2, token, id);
    var s3 := Apply(s2, Claim(token));
    ReachesBy(s, s3, ReadBack(token), failures);
    ReadBackHolds(s3, token, id);
    ReachesADelivery(s, Apply(s3, ReadBack(token)), token, id, failures);
  }

  /* ------------------------- It can: from a hand --------------------------- */

  lemma RecordFreesTheHand(s: State, w: Token, id: NotificationId)
    requires Holds(s, w, id) && RecordsAnother(s, w, id)
    ensures
      var after := AfterRecord(s, w);
      Holds(after, w, id) && after.workers[w].answered.None? && AttemptOf(after, w, id) == AttemptOf(s, w, id)
      && (id in after.table <==> id in s.table) && (id in s.table ==> after.table[id] == s.table[id])
  {
  }

  lemma RecordPutsBack(s: State, w: Token, id: NotificationId)
    requires Holds(s, w, id) && PutsBack(s, w, id, false)
    ensures Enabled(s, Record(w)) && Queued(AfterRecord(s, w), id)
  {
  }

  lemma FailedRecordThenPutsBack(s: State, w: Token, id: NotificationId)
    requires Holds(s, w, id) && PutsBack(s, w, id, true) && !PutsBack(s, w, id, false)
    ensures Enabled(s, RecordFails(w))
    ensures Holds(AfterRecordFails(s, w), w, id) && PutsBack(AfterRecordFails(s, w), w, id, false)
  {
  }

  lemma HeldGoesOut(s: State, w: Token, id: NotificationId, failures: bool)
    requires CanDeliver(s, w, id, failures)
    ensures GoesOut(s, id, failures)
  {
    ReachesItself(s, failures);
    if s.workers[w].answered.None? {
      ReachesADelivery(s, s, w, id, failures);
    } else if RecordsAnother(s, w, id) {
      RecordFreesTheHand(s, w, id);
      ReachesBy(s, s, Record(w), failures);
      ReachesADelivery(s, Apply(s, Record(w)), w, id, failures);
    } else {
      var mid := s;
      if !PutsBack(s, w, id, false) {
        FailedRecordThenPutsBack(s, w, id);
        ReachesBy(s, s, RecordFails(w), failures);
        mid := Apply(s, RecordFails(w));
      }
      RecordPutsBack(mid, w, id);
      ReachesBy(s, mid, Record(w), failures);
      QueuedGoesOut(s, Apply(mid, Record(w)), id, failures);
    }
  }

  /* ------------------------------- It cannot ------------------------------- */

  /** Whoever can deliver it after the step could before, or took it from the queue. */
  lemma HandsWereFree(s: State, step: Step, w: Token, id: NotificationId, failures: bool)
    requires Inv(s) && Enabled(s, step) && MayHappen(step, failures) && id in s.usedIds
    requires CanDeliver(Apply(s, step), w, id, failures)
    ensures CanGoOut(s, id, failures)
  {
    if step.ReadBack? && step.token == w {
      assert id in HeldBy(s.table, w);
    } else {
      HeldBefore(s, step, w, id);
      assert CanDeliver(s, w, id, failures) by {
        AnswersStand(s, step, w, id, failures);
      }
    }
  }

  lemma AnswersStand(s: State, step: Step, w: Token, id: NotificationId, failures: bool)
    requires Inv(s) && Enabled(s, step) && MayHappen(step, failures) && Holds(s, w, id) && id in s.usedIds
    requires !(step.ReadBack? && step.token == w) && CanDeliver(Apply(s, step), w, id, failures)
    ensures CanDeliver(s, w, id, failures)
  {
    var s' := Apply(s, step);
    if s.workers[w].answered.Some? {
      var r := s.workers[w].answered.value.0;
      if Holds(s, w, r) { assert HolderInv(s, w, r); }
    }
  }

  /** Only a retry puts a row that is not in the queue back there. */
  lemma QueueWasThere(s: State, step: Step, id: NotificationId, failures: bool)
    requires Inv(s) && Enabled(s, step) && MayHappen(step, failures) && id in s.usedIds && Queued(Apply(s, step), id)
    ensures CanGoOut(s, id, failures)
  {
    if step.Record? && !Queued(s, id) {
      assert CanDeliver(s, step.token, id, failures);
    }
  }

  lemma StepCannotBringItOut(s: State, step: Step, id: NotificationId, failures: bool)
    requires Inv(s) && Enabled(s, step) && MayHappen(step, failures) && id in s.usedIds && !CanGoOut(s, id, failures)
    ensures Success(step, id) == 0 && id in Apply(s, step).usedIds && !CanGoOut(Apply(s, step), id, failures)
  {
    if Success(step, id) == 1 {
      assert CanDeliver(s, step.token, id, failures);
    }
    if Queued(Apply(s, step), id) {
      QueueWasThere(s, step, id, failures);
    }
    forall w ensures !CanDeliver(Apply(s, step), w, id, failures) {
      if CanDeliver(Apply(s, step), w, id, failures) {
        HandsWereFree(s, step, w, id, failures);
      }
    }
  }

  lemma {:induction false} CannotGoOutLater(run: seq<State>, steps: seq<Step>, s: State, id: NotificationId,
      failures: bool, j: nat)
    requires Inv(s) && Continues(run, steps, s, failures) && j < |run| && id in s.usedIds && !CanGoOut(s, id, failures)
    ensures Inv(run[j]) && id in run[j].usedIds && !CanGoOut(run[j], id, failures) && Successes(steps[..j], id) == 0
  {
    if j > 0 {
      CannotGoOutLater(run, steps, s, id, failures, j - 1);
      assert Follows(run, steps, j - 1) && MayHappen(steps[j - 1], failures);
      assert steps[..j][..j - 1] == steps[..j - 1];
      StepKeepsInv(run[j - 1], steps[j - 1]);
      StepCannotBringItOut(run[j - 1], steps[j - 1], id, failures);
    }
  }

  /* -------------------------------- Theorems ------------------------------- */

  lemma GoesOutIff(s: State, id: NotificationId, failures: bool)
    requires Inv(s) && id in s.usedIds
    ensures GoesOut(s, id, failures) <==> CanGoOut(s, id, failures)
  {
    if CanGoOut(s, id, failures) {
      if Queued(s, id) {
        ReachesItself(s, failures);
        QueuedGoesOut(s, s, id, failures);
      } else {
        var w :| CanDeliver(s, w, id, failures);
        HeldGoesOut(s, w, id, failures);
      }
    } else if GoesOut(s, id, failures) {
      var run, steps :| Continues(run, steps, s, failures) && Successes(steps, id) > 0;
      assert steps[..|steps|] == steps;
      CannotGoOutLater(run, steps, s, id, failures, |steps|);
    }
  }

  /** After any run, a row that ever existed can be delivered in some continuation if
      and only if it is in the queue, or some worker has it in hand and has not been
      answered about it, having recorded or being able to record its last answer, or
      has an answer that will put it back in the queue. */
  lemma RowCanGoOutIff(run: seq<State>, steps: seq<Step>, j: nat, id: NotificationId, failures: bool)
    requires IsRun(run, steps) && Start(run[0]) && j < |run| && id in run[j].usedIds
    ensures GoesOut(run[j], id, failures) <==> CanGoOut(run[j], id, failures)
  {
    RunKeepsInv(run, steps, j);
    GoesOutIff(run[j], id, failures);
  }

  /** So a reminder recorded as SENT goes out again exactly when another worker still
      has it in hand in one of those ways. */
  lemma SentRowGoesOutAgainIff(run: seq<State>, steps: seq<Step>, j: nat, id: NotificationId, failures: bool)
    requires IsRun(run, steps) && Start(run[0]) && j < |run|
    requires id in run[j].table && run[j].table[id].status == Sent
    ensures GoesOut(run[j], id, failures) <==> exists w :: CanDeliver(run[j], w, id, failures)
  {
    RunKeepsInv(run, steps, j);
    assert RowInv(run[j], id);
    GoesOutIff(run[j], id, failures);
  }

  /* --------------------- When an outcome can still change ------------------ */

  function RecordedStatus(attempt: nat, answer: Answer): NotificationStatus {
    if answer == Delivered then Sent else if GivesUp(attempt, answer) then Failed else Pending
  }

  /** The worker has an answer about this row whose record changes its status, or
      whose failing record does. */
  predicate RecordsChange(s: State, w: Token, id: NotificationId, failures: bool)
    requires Holds(s, w, id)
  {
    && s.workers[w].answered.Some? && s.workers[w].answered.value.0 == id && id in s.table
    && var attempt, answer := AttemptOf(s, w, id), s.workers[w].answered.value.1;
    || RecordedStatus(attempt, answer) != s.table[id].status
    || (failures && answer != Threw && RecordedStatus(attempt, Threw) != s.table[id].status)
  }

  predicate CanChange(s: State, w: Token, id: NotificationId, failures: bool) {
    && Holds(s, w, id)
    && (s.workers[w].answered.None? || RecordsAnother(s, w, id) || RecordsChange(s, w, id, failures))
  }

  predicate HasStatus(s: State, id: NotificationId, status: NotificationStatus) {
    id in s.table && s.table[id].status == status
  }

  /** Some continuation leaves the row deleted or with another status. */
  ghost predicate Changes(s: State, id: NotificationId, status: NotificationStatus, failures: bool) {
    exists s' :: Reaches(s, s', failures) && !HasStatus(s', id, status)
  }

  lemma RecordGivesStatus(s: State, w: Token, id: NotificationId)
    requires Holds(s, w, id) && s.workers[w].answered.Some? && s.workers[w].answered.value.0 == id && id in s.table
    ensures Enabled(s, Record(w))
    ensures HasStatus(AfterRecord(s, w), id, RecordedStatus(AttemptOf(s, w, id), s.workers[w].answered.value.1))
  {
  }

  lemma FreeHandChanges(s: State, mid: State, w: Token, id: NotificationId, status: NotificationStatus, failures: bool)
    requires Reaches(s, mid, failures) && Holds(mid, w, id) && mid.workers[w].answered.None?
    requires HasStatus(mid, id, status) && (status == Sent || status == Failed)
    ensures Changes(s, id, status, failures)
  {
    var answer := if status == Sent then Rejected else Delivered;
    ReachesBy(s, mid, Deliver(w, id, answer), failures);
    var s1 := Apply(mid, Deliver(w, id, answer));
    RecordGivesStatus(s1, w, id);
    ReachesBy(s, s1, Record(w), failures);
    assert !HasStatus(Apply(s1, Record(w)), id, status);
  }

  lemma HeldChanges(s: State, w: Token, id: NotificationId, status: NotificationStatus, failures: bool)
    requires CanChange(s, w, id, failures) && HasStatus(s, id, status) && (status == Sent || status == Failed)
    ensures Changes(s, id, status, failures)
  {
    ReachesItself(s, failures);
    if s.workers[w].answered.None? {
      FreeHandChanges(s, s, w, id, status, failures);
    } else if RecordsAnother(s, w, id) {
      RecordFreesTheHand(s, w, id);
      ReachesBy(s, s, Record(w), failures);
      FreeHandChanges(s, Apply(s, Record(w)), w, id, status, failures);
    } else {
      var mid := s;
      if RecordedStatus(AttemptOf(s, w, id), s.workers[w].answered.value.1) == status {
        ReachesBy(s, s, RecordFails(w), failures);
        mid := Apply(s, RecordFails(w));
      }
      RecordGivesStatus(mid, w, id);
      ReachesBy(s, mid, Record(w), failures);
      assert !HasStatus(Apply(mid, Record(w)), id, status);
    }
  }

  /** Nobody can change it. */
  ghost predicate Unchangeable(s: State, id: NotificationId, status: NotificationStatus, failures: bool) {
    && Inv(s) && HasStatus(s, id, status) && (status == Sent || status == Failed)
    && forall w :: !CanChange(s, w, id, failures)
  }

  lemma StepLeavesStatus(s: State, step: Step, id: NotificationId, status: NotificationStatus, failures: bool)
    requires Unchangeable(s, id, status, failures) && Enabled(s, step) && MayHappen(step, failures)
    ensures HasStatus(Apply(s, step), id, status)
  {
    assert RowInv(s, id);
    if step.Record? && s.workers[step.token].answered.value.0 == id {
      assert !CanChange(s, step.token, id, failures);
      RecordGivesStatus(s, step.token, id);
    }
  }

  lemma StepLeavesHands(s: State, step: Step, id: NotificationId, status: NotificationStatus, failures: bool, w: Token)
    requires Unchangeable(s, id, status, failures) && Enabled(s, step) && MayHappen(step, failures)
    requires HasStatus(Apply(s, step), id, status)
    ensures !CanChange(Apply(s, step), w, id, failures)
  {
    assert step.ReadBack? ==> id !in HeldBy(s.table, step.token);
    if Holds(Apply(s, step), w, id) {
      HeldBefore(s, step, w, id);
      HandStaysClosed(s, step, id, status, failures, w);
    }
  }

  lemma HandStaysClosed(s: State, step: Step, id: NotificationId, status: NotificationStatus, failures: bool, w: Token)
    requires Unchangeable(s, id, status, failures) && Enabled(s, step) && MayHappen(step, failures)
    requires HasStatus(Apply(s, step), id, status) && Holds(s, w, id) && Holds(Apply(s, step), w, id)
    requires !(step.ReadBack? && step.token == w)
    ensures !CanChange(Apply(s, step), w, id, failures)
  {
    assert !CanChange(s, w, id, failures);
    var r := s.workers[w].answered.value.0;
    if Holds(s, w, r) { assert HolderInv(s, w, r); }
  }

  lemma {:induction false} UnchangeableStays(run: seq<State>, steps: seq<Step>, s: State, id: NotificationId,
      status: NotificationStatus, failures: bool, j: nat)
    requires Continues(run, steps, s, failures) && j < |run| && Unchangeable(s, id, status, failures)
    ensures Unchangeable(run[j], id, status, failures)
  {
    if j > 0 {
      UnchangeableStays(run, steps, s, id, status, failures, j - 1);
      assert Follows(run, steps, j - 1) && MayHappen(steps[j - 1], failures);
      StepKeepsUnchangeable(run[j - 1], steps[j - 1], id, status, failures);
    }
  }

  lemma StepKeepsUnchangeable(s: State, step: Step, id: NotificationId, status: NotificationStatus, failures: bool)
    requires Unchangeable(s, id, status, failures) && Enabled(s, step) && MayHappen(step, failures)
    ensures Unchangeable(Apply(s, step), id, status, failures)
  {
    StepKeepsInv(s, step);
    StepLeavesStatus(s, step, id, status, failures);
    forall w ensures !CanChange(Apply(s, step), w, id, failures) {
      StepLeavesHands(s, step, id, status, failures, w);
    }
  }

  /** After any run a SENT or FAILED row can still change its status or disappear if
      and only if some worker has it in hand and has not been answered about it,
      having recorded or being able to record its last answer, or has an answer about
      it whose record says otherwise. */
  lemma SettledRowChangesIff(run: seq<State>, steps: seq<Step>, j: nat, id: NotificationId, failures: bool)
    requires IsRun(run, steps) && Start(run[0]) && j < |run|
    requires id in run[j].table && Settled(run[j].table[id])
    ensures Changes(run[j], id, run[j].table[id].status, failures) <==> exists w :: CanChange(run[j], w, id, failures)
  {
    var s, status := run[j], run[j].table[id].status;
    RunKeepsInv(run, steps, j);
    if w :| CanChange(s, w, id, failures) {
      HeldChanges(s, w, id, status, failures);
    } else if Changes(s, id, status, failures) {
      var s' :| Reaches(s, s', failures) && !HasStatus(s', id, status);
      var more, after :| Continues(more, after, s, failures) && more[|after|] == s';
      UnchangeableStays(more, after, s, id, status, failures, |after|);
    }
  }
}
