/** Workers that keep their deadline: whoever still has a row in hand when another
    worker claims read its own clock at most one lock timeout before that worker.
    Dead workers' locks may go stale and be taken over; runs may be of any length. */
module LeaseTimely {
  import opened Prelude
  import opened NotificationTable
  import opened LeaseProtocol
  import opened LeaseTheorems

  /** Nobody with a row in hand is overdue when `claimer` claims. */
  ghost predicate NobodyOverdue(s: State, claimer: Token)
    requires claimer in s.workers
  {
    forall v, id :: Holds(s, v, id) && v != claimer ==> s.workers[claimer].now <= s.workers[v].now + LOCK_TIMEOUT_MS
  }

  ghost predicate TimelyStep(s: State, step: Step)
    requires Enabled(s, step)
  {
    step.Claim? ==> NobodyOverdue(s, step.token)
  }

  ghost predicate TimelyAt(run: seq<State>, steps: seq<Step>, i: nat)
    requires i < |steps| && |run| == |steps| + 1
  {
    Follows(run, steps, i) && TimelyStep(run[i], steps[i])
  }

  /** Deliveries finish before their lease goes stale. */
  ghost predicate Timely(run: seq<State>, steps: seq<Step>) {
    |run| == |steps| + 1 && forall i :: 0 <= i < |steps| ==> TimelyAt(run, steps, i)
  }

  /** A live locker's lock carries its own clock reading; whoever has a row in hand
      holds its lock, unless it was cancelled meanwhile; nobody shares a row. */
  ghost predicate LockDated(s: State, id: NotificationId)
    requires id in s.table
  {
    var n := s.table[id];
    n.lockedBy.Some? && n.lockedBy.value in s.workers ==> n.lockedAt == Some(s.workers[n.lockedBy.value].now)
  }

  ghost predicate HolderLocks(s: State, w: Token, id: NotificationId) {
    Holds(s, w, id) && id in s.table ==> s.table[id].lockedBy == Some(w) || s.table[id].status == Cancelled
  }

  ghost predicate OneHolder(s: State, v: Token, w: Token, id: NotificationId) {
    Holds(s, v, id) && Holds(s, w, id) ==> v == w
  }

  ghost predicate TimelyInv(s: State) {
    && Inv(s)
    && (forall id :: id in s.table ==> LockDated(s, id))
    && (forall w, id :: HolderLocks(s, w, id))
    && (forall v, w, id :: OneHolder(s, v, w, id))
  }

  lemma StepKeepsLockDated(s: State, step: Step, id: NotificationId)
    requires TimelyInv(s) && Enabled(s, step) && id in Apply(s, step).table
    ensures LockDated(Apply(s, step), id)
  {
    if id in s.table { assert LockDated(s, id) && RowInv(s, id); }
  }

  /** A claim spares whatever is in somebody's hands. */
  lemma ClaimSparesHeldRows(s: State, claimer: Token, w: Token, id: NotificationId)
    requires TimelyInv(s) && Enabled(s, Claim(claimer)) && NobodyOverdue(s, claimer)
    requires Holds(s, w, id) && w != claimer && id in s.table
    ensures AfterClaim(s, claimer).table[id] == s.table[id]
  {
    assert HolderLocks(s, w, id) && LockDated(s, id) && RowInv(s, id);
  }

  lemma RecordKeepsHolderLocks(s: State, token: Token, w: Token, id: NotificationId)
    requires TimelyInv(s) && Enabled(s, Record(token))
    ensures HolderLocks(AfterRecord(s, token), w, id)
  {
    assert HolderLocks(s, w, id) && OneHolder(s, token, w, id);
  }

  lemma StepKeepsHolderLocks(s: State, step: Step, w: Token, id: NotificationId)
    requires TimelyInv(s) && Enabled(s, step) && TimelyStep(s, step)
    ensures HolderLocks(Apply(s, step), w, id)
  {
    if step.Record? {
      RecordKeepsHolderLocks(s, step.token, w, id);
    } else if Holds(Apply(s, step), w, id) && !(step.ReadBack? && step.token == w) {
      HeldBefore(s, step, w, id);
      assert HolderLocks(s, w, id) && HolderInv(s, w, id);
      if id in s.table { assert RowInv(s, id); }
      if step.Claim? && id in s.table { ClaimSparesHeldRows(s, step.token, w, id); }
    }
  }

  /** Reading back finds only rows nobody has in hand. */
  lemma ReaderFindsFreeHands(s: State, reader: Token, v: Token, id: NotificationId)
    requires TimelyInv(s) && Enabled(s, ReadBack(reader)) && Holds(AfterReadBack(s, reader), reader, id)
    ensures !Holds(s, v, id)
  {
    assert id in HeldBy(s.table, reader) && HolderLocks(s, v, id);
  }

  lemma StepKeepsOneHolder(s: State, step: Step, v: Token, w: Token, id: NotificationId)
    requires TimelyInv(s) && Enabled(s, step)
    ensures OneHolder(Apply(s, step), v, w, id)
  {
    assert OneHolder(s, v, w, id);
    if Holds(Apply(s, step), v, id) && Holds(Apply(s, step), w, id) && v != w {
      if step.ReadBack? && step.token == v {
        HeldBefore(s, step, w, id);
        ReaderFindsFreeHands(s, v, w, id);
      } else if step.ReadBack? && step.token == w {
        HeldBefore(s, step, v, id);
        ReaderFindsFreeHands(s, w, v, id);
      } else {
        HeldBefore(s, step, v, id);
        HeldBefore(s, step, w, id);
      }
    }
  }

  lemma StepKeepsTimelyInv(s: State, step: Step)
    requires TimelyInv(s) && Enabled(s, step) && TimelyStep(s, step)
    ensures TimelyInv(Apply(s, step))
  {
    var s' := Apply(s, step);
    StepKeepsInv(s, step);
    forall id | id in s'.table ensures LockDated(s', id) { StepKeepsLockDated(s, step, id); }
    forall w, id ensures HolderLocks(s', w, id) { StepKeepsHolderLocks(s, step, w, id); }
    forall v, w, id ensures OneHolder(s', v, w, id) { StepKeepsOneHolder(s, step, v, w, id); }
  }

  lemma {:induction false} RunKeepsTimelyInv(run: seq<State>, steps: seq<Step>, j: nat)
    requires IsRun(run, steps) && Start(run[0]) && Timely(run, steps) && j < |run|
    ensures TimelyInv(run[j])
  {
    if j == 0 {
      RunKeepsInv(run, steps, 0);
    } else {
      RunKeepsTimelyInv(run, steps, j - 1);
      assert TimelyAt(run, steps, j - 1);
      StepKeepsTimelyInv(run[j - 1], steps[j - 1]);
    }
  }

  /* -------------------------------- Theorems ------------------------------- */

  /** In a timely run of any length no row is ever in two workers' hands, and
      whoever has it in hand holds its lock unless it was cancelled. */
  lemma TimelyWorkersNeverShareARow(run: seq<State>, steps: seq<Step>, j: nat, v: Token, w: Token, id: NotificationId)
    requires IsRun(run, steps) && Start(run[0]) && Timely(run, steps) && j < |run|
    requires Holds(run[j], v, id)
    ensures Holds(run[j], w, id) ==> w == v
    ensures id in run[j].table ==> run[j].table[id].lockedBy == Some(v) || run[j].table[id].status == Cancelled
  {
    RunKeepsTimelyInv(run, steps, j);
    assert OneHolder(run[j], v, w, id) && HolderLocks(run[j], v, id);
  }

  lemma StepKeepsOutcome(s: State, step: Step, id: NotificationId)
    requires TimelyInv(s) && Enabled(s, step) && id in s.table && Settled(s.table[id])
    ensures id in Apply(s, step).table && Apply(s, step).table[id] == s.table[id]
  {
    assert RowInv(s, id);
    if step.Record? { assert HolderLocks(s, step.token, id); }
  }

  lemma OutcomeIsKeptAt(run: seq<State>, steps: seq<Step>, j: nat, id: NotificationId)
    requires IsRun(run, steps) && Start(run[0]) && Timely(run, steps) && j < |steps|
    requires id in run[j].table && Settled(run[j].table[id])
    ensures id in run[j + 1].table && run[j + 1].table[id] == run[j].table[id]
  {
    RunKeepsTimelyInv(run, steps, j);
    assert TimelyAt(run, steps, j);
    StepKeepsOutcome(run[j], steps[j], id);
  }

  /** In a timely run of any length, dead workers' rows recovered or not, SENT and
      FAILED are final: the row never changes again. */
  lemma {:induction false} TimelyOutcomesAreFinal(run: seq<State>, steps: seq<Step>, i: nat, j: nat, id: NotificationId)
    requires IsRun(run, steps) && Start(run[0]) && Timely(run, steps) && i <= j < |run|
    requires id in run[i].table && Settled(run[i].table[id])
    ensures id in run[j].table && run[j].table[id] == run[i].table[id]
    decreases j
  {
    if i < j {
      TimelyOutcomesAreFinal(run, steps, i, j - 1, id);
      OutcomeIsKeptAt(run, steps, j - 1, id);
    }
  }

  /* ---------------------------- When nobody dies --------------------------- */

  /** The step ends a worker whose lock stays on a row. */
  ghost predicate Strands(s: State, step: Step)
    requires Enabled(s, step)
  {
    var s' := Apply(s, step);
    exists id :: id in s'.table && s'.table[id].lockedBy.Some? && s'.table[id].lockedBy.value in s.workers
      && s'.table[id].lockedBy.value !in s'.workers
  }

  /** No worker dies with a row locked, and none has claimed so long ago, read back
      yet or not, that its locks are stale when another worker claims. */
  ghost predicate ProperStep(s: State, step: Step)
    requires Enabled(s, step)
  {
    && !Strands(s, step)
    && (step.Claim? ==> forall v :: v in s.workers && v != step.token && !s.workers[v].HasCandidates? && InUse(s, v) ==>
          s.workers[step.token].now <= s.workers[v].now + LOCK_TIMEOUT_MS)
  }

  /** The worker has yet to read back, or still has a row in hand. */
  predicate InUse(s: State, v: Token) {
    v in s.workers && (s.workers[v].HasClaimed? || (s.workers[v].Delivering? && s.workers[v].todo != map[]))
  }

  ghost predicate ProperAt(run: seq<State>, steps: seq<Step>, i: nat)
    requires i < |steps| && |run| == |steps| + 1
  {
    Follows(run, steps, i) && ProperStep(run[i], steps[i])
  }

  ghost predicate Proper(run: seq<State>, steps: seq<Step>) {
    |run| == |steps| + 1 && forall i :: 0 <= i < |steps| ==> ProperAt(run, steps, i)
  }

  /** Every lock belongs to a live worker that has yet to finish with the row. */
  ghost predicate LockAlive(s: State, id: NotificationId)
    requires id in s.table
  {
    var n := s.table[id];
    n.lockedBy.Some? ==>
      && n.lockedBy.value in s.workers
      && (s.workers[n.lockedBy.value].HasClaimed? || Holds(s, n.lockedBy.value, id))
  }

  ghost predicate ProperInv(s: State) {
    && TimelyInv(s)
    && (forall id :: id in s.table ==> LockAlive(s, id))
    && forall id :: HistoryOf(s, id).takeovers == 0
  }

  lemma ProperIsTimely(s: State, step: Step)
    requires Enabled(s, step) && ProperStep(s, step)
    ensures TimelyStep(s, step)
  {
    if step.Claim? {
      forall v, id | Holds(s, v, id) && v != step.token
        ensures s.workers[step.token].now <= s.workers[v].now + LOCK_TIMEOUT_MS {
        assert InUse(s, v);
      }
    }
  }

  lemma ProperClaimTakesOverNothing(s: State, claimer: Token, id: NotificationId)
    requires ProperInv(s) && Enabled(s, Claim(claimer)) && ProperStep(s, Claim(claimer)) && id in s.table
    requires s.table[id].lockedAt.Some?
    ensures !Claimable(s.table[id], s.workers[claimer].now)
  {
    assert RowInv(s, id) && LockAlive(s, id) && LockDated(s, id);
    var v := s.table[id].lockedBy.value;
    assert ClaimInv(s, claimer, id);
    assert InUse(s, v);
  }

  lemma ProperStepTakesOverNothing(s: State, step: Step, id: NotificationId)
    requires ProperInv(s) && Enabled(s, step) && ProperStep(s, step)
    ensures HistoryOf(Apply(s, step), id).takeovers == 0
  {
    if step.Claim? && id in s.table && s.table[id].lockedAt.Some? {
      ProperClaimTakesOverNothing(s, step.token, id);
    }
    TakeoverMeansStale(s, step, id);
  }

  lemma RecordKeepsLockAlive(s: State, token: Token, id: NotificationId)
    requires ProperInv(s) && Enabled(s, Record(token)) && !Strands(s, Record(token))
    requires id in AfterRecord(s, token).table
    ensures LockAlive(AfterRecord(s, token), id)
  {
    assert LockAlive(s, id) && RowInv(s, id);
    var recorded := s.workers[token].answered.value.0;
    if recorded !in s.table {
      assert s.table[id].lockedBy.Some? ==> s.table[id].lockedBy.value in Apply(s, Record(token)).workers;
    } else if id == recorded {
      assert AfterRecord(s, token).table[id].lockedBy.None?;
    }
  }

  lemma StepKeepsLockAlive(s: State, step: Step, id: NotificationId)
    requires ProperInv(s) && Enabled(s, step) && ProperStep(s, step) && id in Apply(s, step).table
    ensures LockAlive(Apply(s, step), id)
  {
    if step.Record? {
      RecordKeepsLockAlive(s, step.token, id);
    } else if id in s.table {
      assert LockAlive(s, id) && RowInv(s, id);
      if step.Claim? && s.table[id].lockedAt.Some? { ProperClaimTakesOverNothing(s, step.token, id); }
    }
  }

  lemma StepKeepsProperInv(s: State, step: Step)
    requires ProperInv(s) && Enabled(s, step) && ProperStep(s, step)
    ensures ProperInv(Apply(s, step))
  {
    var s' := Apply(s, step);
    ProperIsTimely(s, step);
    StepKeepsTimelyInv(s, step);
    forall id | id in s'.table ensures LockAlive(s', id) { StepKeepsLockAlive(s, step, id); }
    forall id ensures HistoryOf(s', id).takeovers == 0 { ProperStepTakesOverNothing(s, step, id); }
  }

  lemma {:induction false} RunKeepsProperInv(run: seq<State>, steps: seq<Step>, j: nat)
    requires IsRun(run, steps) && Start(run[0]) && Proper(run, steps) && j < |run|
    ensures ProperInv(run[j])
  {
    if j == 0 {
      RunKeepsInv(run, steps, 0);
    } else {
      RunKeepsProperInv(run, steps, j - 1);
      assert ProperAt(run, steps, j - 1);
      StepKeepsProperInv(run[j - 1], steps[j - 1]);
    }
  }

  /** When deliveries finish in time and no worker dies holding a row, there are no
      takeovers at all: every row has at most three attempts, fewer when it is put
      back in the queue, and at most one successful delivery besides those the
      database refused to record. */
  lemma WithoutDeathsEachRowIsDeliveredOnce(run: seq<State>, steps: seq<Step>, j: nat, id: NotificationId)
    requires IsRun(run, steps) && Start(run[0]) && Proper(run, steps) && j < |run|
    ensures HistoryOf(run[j], id).takeovers == 0
    ensures HistoryOf(run[j], id).claims <= 3
    ensures id in run[j].table && Free(run[j].table[id]) ==> run[j].table[id].attempts < 3
    ensures Successes(steps[..j], id) <= 1 + LostRecords(run, steps, id, j)
  {
    RunKeepsProperInv(run, steps, j);
    AttemptsAndDeliveriesAreBounded(run, steps, j, id);
  }
}
