/** What the reminder lease guarantees over whole runs. */
module LeaseTheorems {
  import opened Prelude
  import opened NotificationTable
  import opened LeaseProtocol
  import Batches

  lemma {:induction false} RunKeepsInv(run: seq<State>, steps: seq<Step>, i: nat)
    requires IsRun(run, steps) && Start(run[0]) && i < |run|
    ensures Inv(run[i])
  {
    if i > 0 {
      RunKeepsInv(run, steps, i - 1);
      assert Follows(run, steps, i - 1);
      StepKeepsInv(run[i - 1], steps[i - 1]);
    }
  }

  lemma {:induction false} TakeoversOnlyGrow(run: seq<State>, steps: seq<Step>, i: nat, j: nat, id: NotificationId)
    requires IsRun(run, steps) && i <= j < |run|
    ensures HistoryOf(run[i], id).takeovers <= HistoryOf(run[j], id).takeovers
  {
    if i < j {
      TakeoversOnlyGrow(run, steps, i, j - 1, id);
      var s, step := run[j - 1], steps[j - 1];
      assert Follows(run, steps, j - 1);
      StepTakeoversGrow(s, step, id);
    }
  }

  lemma StepTakeoversGrow(s: State, step: Step, id: NotificationId)
    requires Enabled(s, step)
    ensures HistoryOf(s, id).takeovers <= HistoryOf(Apply(s, step), id).takeovers
  {
  }

  /** A takeover is counted exactly when a claiming UPDATE takes a row whose lock
      is older than the timeout on that worker's clock. */
  lemma TakeoverMeansStale(s: State, step: Step, id: NotificationId)
    requires Enabled(s, step)
    ensures
      var before, after := HistoryOf(s, id).takeovers, HistoryOf(Apply(s, step), id).takeovers;
      after == before + (
        if step.Claim? && id in s.table && id in s.workers[step.token].ids
           && s.table[id].status == Pending && s.table[id].scheduledFor <= s.workers[step.token].now
           && s.table[id].lockedAt.Some?
           && s.table[id].lockedAt.value < s.workers[step.token].now - 5 * MINUTE_MS
        then 1 else 0)
  {
  }

  /* ------------------------------ Exclusivity ------------------------------ */

  /** No row is in two workers' hands at once unless a stale lock on it was taken
      over; and the two lock fields are always set together, on PENDING rows only. */
  lemma LeaseIsExclusive(run: seq<State>, steps: seq<Step>, j: nat, id: NotificationId)
    requires IsRun(run, steps) && Start(run[0]) && j < |run| && id in run[j].table
    ensures LockOk(run[j].table[id])
    ensures HistoryOf(run[j], id).takeovers == 0 ==>
      forall v, w :: Holds(run[j], v, id) && Holds(run[j], w, id) ==> v == w
  {
    RunKeepsInv(run, steps, j);
    var s := run[j];
    assert RowInv(s, id);
    if HistoryOf(s, id).takeovers == 0 {
      forall v, w | Holds(s, v, id) && Holds(s, w, id) ensures v == w {
        assert LeaseOk(s, v, id) && LeaseOk(s, w, id);
      }
    }
  }

  /* --------------------------- Attempts, deliveries ------------------------ */

  lemma {:induction false} BoundedSet(s: set<nat>, n: nat)
    requires forall x :: x in s ==> 1 <= x <= n
    ensures |s| <= n
  {
    if n == 0 {
      assert s == {};
    } else {
      BoundedSet(s - {n}, n - 1);
    }
  }

  function Success(step: Step, id: NotificationId): nat {
    if step.Deliver? && step.id == id && step.answer == Delivered then 1 else 0
  }

  /** How many times the provider accepted this row. */
  function Successes(steps: seq<Step>, id: NotificationId): nat {
    if steps == [] then 0
    else Successes(steps[..|steps| - 1], id) + Success(steps[|steps| - 1], id)
  }

  lemma OnlyDeliveriesAreDelivered(s: State, step: Step, id: NotificationId)
    requires Enabled(s, step) && Success(step, id) == 0
    ensures HistoryOf(Apply(s, step), id).delivered == HistoryOf(s, id).delivered
  {
  }

  lemma DeliveryIsCounted(s: State, step: Step, id: NotificationId)
    requires Inv(s) && Enabled(s, step)
    ensures |HistoryOf(Apply(s, step), id).delivered| == |HistoryOf(s, id).delivered| + Success(step, id)
  {
    if step.Deliver? && step.id == id && step.answer == Delivered {
      assert HolderInv(s, step.token, id);
      var before, after := HistoryOf(s, id).delivered,
          HistoryOf(AfterDeliver(s, step.token, id, Delivered), id).delivered;
      assert after == before + {AttemptOf(s, step.token, id)};
    } else {
      OnlyDeliveriesAreDelivered(s, step, id);
    }
  }

  /** Its history counts the provider's acceptances of every row, one deleted in a
      worker's hands included. */
  lemma {:induction false} DeliveriesAreCounted(run: seq<State>, steps: seq<Step>, j: nat, id: NotificationId)
    requires IsRun(run, steps) && Start(run[0]) && j < |run|
    ensures Successes(steps[..j], id) == |HistoryOf(run[j], id).delivered|
  {
    if j > 0 {
      DeliveriesAreCounted(run, steps, j - 1, id);
      RunKeepsInv(run, steps, j - 1);
      assert Follows(run, steps, j - 1);
      assert steps[..j][..j - 1] == steps[..j - 1];
      DeliveryIsCounted(run[j - 1], steps[j - 1], id);
    }
  }

  /** A delivery the provider accepted and the database then refused to record. */
  predicate LosesRecord(s: State, step: Step, id: NotificationId) {
    && step.RecordFails? && HasAnswer(s, step.token)
    && s.workers[step.token].answered.value == (id, Delivered)
  }

  /** How many of a row's successful deliveries could not be recorded. */
  function LostRecords(run: seq<State>, steps: seq<Step>, id: NotificationId, j: nat): nat
    requires |run| == |steps| + 1 && j < |run|
  {
    if j == 0 then 0
    else LostRecords(run, steps, id, j - 1) + if LosesRecord(run[j - 1], steps[j - 1], id) then 1 else 0
  }

  lemma LossIsCounted(s: State, step: Step, id: NotificationId)
    requires Inv(s) && Enabled(s, step)
    ensures |HistoryOf(Apply(s, step), id).unrecorded| ==
      |HistoryOf(s, id).unrecorded| + if LosesRecord(s, step, id) then 1 else 0
  {
    if LosesRecord(s, step, id) {
      assert HolderInv(s, step.token, id);
      var before, after := HistoryOf(s, id).unrecorded, HistoryOf(AfterRecordFails(s, step.token), id).unrecorded;
      assert after == before + {AttemptOf(s, step.token, id)};
    } else {
      OnlyLossesAreUnrecorded(s, step, id);
    }
  }

  lemma OnlyLossesAreUnrecorded(s: State, step: Step, id: NotificationId)
    requires Enabled(s, step) && !LosesRecord(s, step, id)
    ensures HistoryOf(Apply(s, step), id).unrecorded == HistoryOf(s, id).unrecorded
  {
  }

  lemma {:induction false} LossesAreCounted(run: seq<State>, steps: seq<Step>, j: nat, id: NotificationId)
    requires IsRun(run, steps) && Start(run[0]) && j < |run|
    ensures LostRecords(run, steps, id, j) == |HistoryOf(run[j], id).unrecorded|
  {
    if j > 0 {
      LossesAreCounted(run, steps, j - 1, id);
      RunKeepsInv(run, steps, j - 1);
      assert Follows(run, steps, j - 1);
      LossIsCounted(run[j - 1], steps[j - 1], id);
    }
  }

  lemma PaidForBounds(h: History, free: bool)
    requires AttemptsPaidFor(h, free)
    ensures h.claims + (if free then 1 else 0) <= MAX_ATTEMPTS + h.takeovers
    ensures |h.delivered| <= 1 + h.takeovers + |h.unrecorded|
  {
    var recorded := h.delivered - h.unrecorded;
    BoundedSet(h.retried, MAX_ATTEMPTS - 1);
    BoundedSet(h.retried + recorded, h.claims);
    assert |h.retried + recorded| == |h.retried| + |recorded| by {
      assert h.retried !! recorded;
    }
    assert h.delivered == recorded + h.unrecorded;
  }

  /** In every run a row, deleted or not, is claimed at most three times, plus once
      for each stale lock on it that was taken over, and delivered at most once, plus
      once for each takeover and each delivery the database refused to record; a row
      free to be claimed again has used at most two attempts, plus the takeovers. */
  lemma AttemptsAndDeliveriesAreBounded(run: seq<State>, steps: seq<Step>, j: nat, id: NotificationId)
    requires IsRun(run, steps) && Start(run[0]) && j < |run|
    ensures HistoryOf(run[j], id).claims <= 3 + HistoryOf(run[j], id).takeovers
    ensures id in run[j].table ==> run[j].table[id].attempts == HistoryOf(run[j], id).claims
    ensures id in run[j].table && Free(run[j].table[id]) ==>
      run[j].table[id].attempts < 3 + HistoryOf(run[j], id).takeovers
    ensures Successes(steps[..j], id) <= 1 + HistoryOf(run[j], id).takeovers + LostRecords(run, steps, id, j)
  {
    RunKeepsInv(run, steps, j);
    DeliveriesAreCounted(run, steps, j, id);
    LossesAreCounted(run, steps, j, id);
    assert PaidFor(run[j], id);
    if id in run[j].table { assert RowInv(run[j], id); }
    PaidForBounds(HistoryOf(run[j], id), id in run[j].table && Free(run[j].table[id]));
  }

  /* ------------------------------ Terminal states -------------------------- */

  predicate Settled(n: Notification) {
    n.status == Sent || n.status == Failed
  }

  lemma StepKeepsSettled(s: State, step: Step, id: NotificationId)
    requires Inv(s) && Enabled(s, step) && id in s.table && Settled(s.table[id])
    requires HistoryOf(s, id).takeovers == 0
    ensures id in Apply(s, step).table && Apply(s, step).table[id].status == s.table[id].status
  {
    assert RowInv(s, id);
    if step.Record? {
      assert !Holds(s, step.token, id);
    }
  }

  /** Without takeovers of a row, SENT and FAILED are where it stays. */
  lemma {:induction false} SentAndFailedAreTerminal(run: seq<State>, steps: seq<Step>, i: nat, j: nat,
      id: NotificationId)
    requires IsRun(run, steps) && Start(run[0]) && i <= j < |run|
    requires id in run[i].table && Settled(run[i].table[id])
    requires HistoryOf(run[j], id).takeovers == 0
    ensures id in run[j].table && run[j].table[id].status == run[i].table[id].status
  {
    if i < j {
      var s, step := run[j - 1], steps[j - 1];
      assert Follows(run, steps, j - 1);
      StepTakeoversGrow(s, step, id);
      SentAndFailedAreTerminal(run, steps, i, j - 1, id);
      RunKeepsInv(run, steps, j - 1);
      StepKeepsSettled(s, step, id);
    }
  }

  /* ------------------------- The bounds are reached ------------------------ */

  lemma Extend(run: seq<State>, steps: seq<Step>, step: Step)
    requires IsRun(run, steps) && Enabled(run[|steps|], step)
    ensures IsRun(run + [Apply(run[|steps|], step)], steps + [step])
    ensures forall id :: Successes(steps + [step], id) == Successes(steps, id) + Success(step, id)
  {
    var run', steps' := run + [Apply(run[|steps|], step)], steps + [step];
    forall i | 0 <= i < |steps'| ensures Follows(run', steps', i) {
      if i < |steps| { assert Follows(run, steps, i); }
    }
    assert steps'[..|steps|] == steps;
  }

  lemma RowZeroIsTheBatch(t: Table, now: Instant)
    requires t.Keys == {0} && Claimable(t[0], now)
    ensures Batches.IsBatch([0], ClaimableIds(t, now), DueTimes(t), BATCH_SIZE)
  {
    assert ClaimableIds(t, now) == {0} && SetOf([0]) == {0};
  }

  lemma ClaimOfRowZero(s: State, token: Token, now: Instant)
    requires token in s.workers && s.workers[token] == HasCandidates(now, [0])
    requires s.table.Keys == {0} && Claimable(s.table[0], now)
    ensures
      var after := Apply(s, Claim(token));
      && after.table == map[0 := Locked(s.table[0], now, token)] && after.usedTokens == s.usedTokens
      && after.workers == s.workers[token := HasClaimed(now)]
      && HistoryOf(after, 0).takeovers == HistoryOf(s, 0).takeovers + (if s.table[0].lockedAt.Some? then 1 else 0)
  {
    assert SetOf([0]) == {0};
    TakeoverMeansStale(s, Claim(token), 0);
  }

  lemma ReadBackOfRowZero(s: State, token: Token, now: Instant)
    requires token in s.workers && s.workers[token] == HasClaimed(now)
    requires s.table.Keys == {0} && s.table[0].lockedBy == Some(token) && s.table[0].status == Pending
    ensures
      var after := Apply(s, ReadBack(token));
      && after.table == s.table && after.usedTokens == s.usedTokens && after.history == s.history
      && after.workers == s.workers[token := Delivering(now, map[0 := s.table[0].attempts], None)]
  {
    assert HeldBy(s.table, token) == {0};
    assert Apply(s, ReadBack(token)).workers[token].todo == map[0 := s.table[0].attempts];
  }

  /** One tick up to the read-back, on a table with the single due row 0. */
  lemma TickTakesTheRow(run: seq<State>, steps: seq<Step>, token: Token, now: Instant)
    returns (run': seq<State>, steps': seq<Step>)
    requires IsRun(run, steps)
    requires run[|steps|].table.Keys == {0} && Claimable(run[|steps|].table[0], now)
    requires token !in run[|steps|].usedTokens
    ensures IsRun(run', steps') && run'[0] == run[0] && Successes(steps', 0) == Successes(steps, 0)
    ensures
      var before, after := run[|steps|], run'[|steps'|];
      && after.table == map[0 := Locked(before.table[0], now, token)]
      && after.workers == before.workers[token := Delivering(now, map[0 := before.table[0].attempts + 1], None)]
      && after.usedTokens == before.usedTokens + {token}
      && HistoryOf(after, 0).takeovers
         == HistoryOf(before, 0).takeovers + (if before.table[0].lockedAt.Some? then 1 else 0)
  {
    var s := run[|steps|];
    RowZeroIsTheBatch(s.table, now);
    run', steps' := OneMore(run, steps, ReadCandidates(token, now, [0]));
    ClaimOfRowZero(run'[|steps'|], token, now);
    run', steps' := OneMore(run', steps', Claim(token));
    ReadBackOfRowZero(run'[|steps'|], token, now);
    run', steps' := OneMore(run', steps', ReadBack(token));
  }

  lemma OneMore(run: seq<State>, steps: seq<Step>, step: Step) returns (run': seq<State>, steps': seq<Step>)
    requires IsRun(run, steps) && Enabled(run[|steps|], step)
    ensures IsRun(run', steps') && run'[0] == run[0] && steps' == steps + [step]
    ensures run'[|steps'|] == Apply(run[|steps|], step)
    ensures forall id :: Successes(steps', id) == Successes(steps, id) + Success(step, id)
  {
    Extend(run, steps, step);
    run', steps' := run + [Apply(run[|steps|], step)], steps + [step];
  }

  /** A worker that outlives its lease can deliver after its successor: with one
      takeover a reminder does go out twice. */
  lemma OneTakeoverCanDeliverTwice(draft: Notification)
    requires IsDraft(draft)
    ensures exists run, steps ::
      && IsRun(run, steps) && Start(run[0])
      && HistoryOf(run[|steps|], 0).takeovers == 1 && Successes(steps, 0) == 2
  {
    var s0 := State(map[], map[], {}, {}, map[]);
    var run, steps := [s0], [];
    assert IsRun(run, steps);
    run, steps := OneMore(run, steps, Insert(0, draft));
    var now := draft.scheduledFor;
    run, steps := TickTakesTheRow(run, steps, 1, now);
    run, steps := TickTakesTheRow(run, steps, 2, now + LOCK_TIMEOUT_MS + 1);
    assert Holds(run[|steps|], 1, 0) && Holds(run[|steps|], 2, 0);
    run, steps := OneMore(run, steps, Deliver(1, 0, Delivered));
    assert Holds(run[|steps|], 2, 0);
    run, steps := OneMore(run, steps, Deliver(2, 0, Delivered));
  }

  /** So can one failed record, without any takeover: the reminder is put back in the
      queue although it went out. */
  lemma OneLostRecordCanDeliverTwice(draft: Notification)
    requires IsDraft(draft)
    ensures exists run, steps ::
      && IsRun(run, steps) && Start(run[0])
      && HistoryOf(run[|steps|], 0).takeovers == 0 && Successes(steps, 0) == 2
  {
    var s0 := State(map[], map[], {}, {}, map[]);
    var run, steps := [s0], [];
    assert IsRun(run, steps);
    run, steps := OneMore(run, steps, Insert(0, draft));
    var now := draft.scheduledFor;
    run, steps := TickTakesTheRow(run, steps, 1, now);
    assert Holds(run[|steps|], 1, 0);
    run, steps := OneMore(run, steps, Deliver(1, 0, Delivered));
    run, steps := OneMore(run, steps, RecordFails(1));
    var before := run[|steps|];
    run, steps := OneMore(run, steps, Record(1));
    assert run[|steps|].table[0] == Unlocked(before.table[0], Pending);
    run, steps := TickTakesTheRow(run, steps, 2, now);
    assert Holds(run[|steps|], 2, 0);
    run, steps := OneMore(run, steps, Deliver(2, 0, Delivered));
  }
}
