/** Every interleaving of the reminder workers' statements: reading candidates,
    the claiming UPDATE, reading back by token, delivering, and recording the
    outcome, with crashes, stale-lock takeovers, failing records, cancellations and
    deletions in between. A worker is known by its token, a fresh UUID per tick. */
module LeaseProtocol {
  import opened Prelude
  import opened Lectures
  import opened NotificationTable
  import Batches

  datatype Answer = Delivered | Rejected | Threw

  /** One tick in flight. `todo` maps each row read back to the attempt count it
      was read back with; `answered` is the provider's reply not yet recorded. */
  datatype Worker =
    | HasCandidates(now: Instant, ids: seq<NotificationId>)
    | HasClaimed(now: Instant)
    | Delivering(now: Instant, todo: map<NotificationId, nat>, answered: Option<(NotificationId, Answer)>)

  /** What has happened to a row, deleted or not: how often it was claimed, how
      often a stale lock on it was taken over, which attempts ended in a retry and in
      a successful delivery, and which successful deliveries could not be recorded. */
  datatype History = History(claims: nat, takeovers: nat, retried: set<nat>, delivered: set<nat>, unrecorded: set<nat>)

  datatype State = State(
    table: Table, workers: map<Token, Worker>, usedTokens: set<Token>, usedIds: set<NotificationId>,
    history: map<NotificationId, History>)

  datatype Step =
    | ReadCandidates(token: Token, now: Instant, ids: seq<NotificationId>)
    | Claim(token: Token)
    | ReadBack(token: Token)
    | Deliver(token: Token, id: NotificationId, answer: Answer)
    | Record(token: Token)
    | RecordFails(token: Token)
    | Crash(token: Token)
    | Insert(id: NotificationId, draft: Notification)
    | Overdue(before: Instant)
    | CancelLecture(lecture: LectureId)
    | DiscardLecture(lecture: LectureId)
    | Release(id: NotificationId, at: Instant)

  function HistoryOf(s: State, id: NotificationId): History {
    if id in s.history then s.history[id] else History(0, 0, {}, {}, {})
  }

  predicate Holds(s: State, w: Token, id: NotificationId) {
    w in s.workers && s.workers[w].Delivering? && id in s.workers[w].todo
  }

  function AttemptOf(s: State, w: Token, id: NotificationId): nat
    requires Holds(s, w, id)
  {
    s.workers[w].todo[id]
  }

  /** The provider has replied about a row in hand, and the reply is to be recorded. */
  predicate HasAnswer(s: State, w: Token) {
    && w in s.workers && s.workers[w].Delivering? && s.workers[w].answered.Some?
    && s.workers[w].answered.value.0 in s.workers[w].todo
  }

  predicate IsDraft(n: Notification) {
    n.status == Pending && n.attempts == 0 && n.lockedAt.None? && n.lockedBy.None? && n.sentAt.None?
  }

  ghost predicate Enabled(s: State, step: Step) {
    match step
    case ReadCandidates(token, now, ids) =>
      token !in s.usedTokens && Batches.IsBatch(ids, ClaimableIds(s.table, now), DueTimes(s.table), BATCH_SIZE)
    case Claim(token) => token in s.workers && s.workers[token].HasCandidates?
    case ReadBack(token) => token in s.workers && s.workers[token].HasClaimed?
    case Deliver(token, id, _) => Holds(s, token, id) && s.workers[token].answered.None?
    case Record(token) => HasAnswer(s, token)
    case RecordFails(token) => HasAnswer(s, token) && s.workers[token].answered.value.1 != Threw
    case Crash(token) => token in s.workers
    case Insert(id, draft) => id !in s.usedIds && IsDraft(draft)
    case _ => true
  }

  /** What the claiming UPDATE takes. */
  function Won(t: Table, ids: set<NotificationId>, now: Instant): set<NotificationId> {
    set id | id in t && id in ids && Claimable(t[id], now)
  }

  /** One more claim, and a takeover if somebody held a lock. */
  function Claimed(h: History, wasLocked: bool): History {
    h.(claims := h.claims + 1, takeovers := h.takeovers + if wasLocked then 1 else 0)
  }

  function AfterClaim(s: State, token: Token): State
    requires token in s.workers && s.workers[token].HasCandidates?
  {
    var w := s.workers[token];
    var won := Won(s.table, SetOf(w.ids), w.now);
    s.(table := ClaimRows(s.table, SetOf(w.ids), w.now, token),
       workers := s.workers[token := HasClaimed(w.now)],
       history := map id | id in s.history.Keys + won ::
         if id in won && id in s.table then Claimed(HistoryOf(s, id), s.table[id].lockedAt.Some?) else HistoryOf(s, id))
  }

  function AfterReadBack(s: State, token: Token): State
    requires token in s.workers && s.workers[token].HasClaimed?
  {
    var held := HeldBy(s.table, token);
    s.(workers := s.workers[token := Delivering(s.workers[token].now, map id | id in held && id in s.table ::
        s.table[id].attempts, None)])
  }

  function AfterDeliver(s: State, token: Token, id: NotificationId, answer: Answer): State
    requires Holds(s, token, id)
  {
    var h := HistoryOf(s, id);
    s.(workers := s.workers[token := s.workers[token].(answered := Some((id, answer)))],
       history := if answer == Delivered then s.history[id := h.(delivered := h.delivered + {AttemptOf(s, token, id)})]
           else s.history)
  }

  /** An outage is retried unless this was the last chance; a rejection is final. */
  function GivesUp(attempt: nat, answer: Answer): bool {
    answer == Rejected || attempt >= MAX_ATTEMPTS
  }

  /** Recording against a row deleted meanwhile throws and ends the tick. */
  function AfterRecord(s: State, token: Token): State
    requires Enabled(s, Record(token))
  {
    var w := s.workers[token];
    var (id, answer) := w.answered.value;
    var attempt := w.todo[id];
    var h := HistoryOf(s, id);
    if id !in s.table then s.(workers := s.workers - {token})
    else if answer == Delivered then
      s.(table := MarkSent(s.table, id, w.now),
          workers := s.workers[token := w.(todo := w.todo - {id}, answered := None)])
    else
      s.(table := MarkFailed(s.table, id, GivesUp(attempt, answer)),
         workers := s.workers[token := w.(todo := w.todo - {id}, answered := None)],
         history := if GivesUp(attempt, answer) then s.history
             else s.history[id := h.(retried := h.retried + {attempt})])
  }

  /** The database refuses the outcome. That is caught like an outage of the
      provider, so the next record puts the row back or, on the last chance, gives it
      up. When that one fails too the tick ends, which is a crash. */
  function AfterRecordFails(s: State, token: Token): State
    requires HasAnswer(s, token)
  {
    var w := s.workers[token];
    var (id, answer) := w.answered.value;
    var h := HistoryOf(s, id);
    s.(workers := s.workers[token := w.(answered := Some((id, Threw)))],
       history := if answer != Delivered then s.history
           else s.history[id := h.(unrecorded := h.unrecorded + {w.todo[id]})])
  }

  ghost function Apply(s: State, step: Step): State
    requires Enabled(s, step)
  {
    match step
    case ReadCandidates(token, now, ids) =>
      s.(workers := s.workers[token := HasCandidates(now, ids)], usedTokens := s.usedTokens + {token})
    case Claim(token) => AfterClaim(s, token)
    case ReadBack(token) => AfterReadBack(s, token)
    case Deliver(token, id, answer) => AfterDeliver(s, token, id, answer)
    case Record(token) => AfterRecord(s, token)
    case RecordFails(token) => AfterRecordFails(s, token)
    case Crash(token) => s.(workers := s.workers - {token})
    case Insert(id, draft) => s.(table := s.table[id := draft], usedIds := s.usedIds + {id})
    case Overdue(before) => s.(table := CancelOverdue(s.table, before))
    case CancelLecture(lecture) => s.(table := CancelPendingFor(s.table, lecture))
    case DiscardLecture(lecture) => s.(table := DeleteUnsentFor(s.table, lecture))
    case Release(id, at) => s.(table := Released(s.table, id, at))
  }

  predicate Start(s: State) {
    s == State(map[], map[], {}, {}, map[])
  }

  ghost predicate Follows(run: seq<State>, steps: seq<Step>, i: nat)
    requires i < |steps| && |run| == |steps| + 1
  {
    Enabled(run[i], steps[i]) && run[i + 1] == Apply(run[i], steps[i])
  }

  ghost predicate IsRun(run: seq<State>, steps: seq<Step>) {
    |run| == |steps| + 1 && forall i :: 0 <= i < |steps| ==> Follows(run, steps, i)
  }

  /* ------------------------------ Invariants ------------------------------- */

  predicate Free(n: Notification) {
    n.status == Pending && n.lockedAt.None?
  }

  /** The lock is two fields or none, only a PENDING row carries one, and a SENT
      row says when. */
  predicate LockOk(n: Notification) {
    && (n.lockedAt.Some? <==> n.lockedBy.Some?)
    && (n.status != Pending ==> n.lockedAt.None?)
    && (n.status == Sent ==> n.sentAt.Some?)
  }

  /** Every claim after the first is paid for, by a takeover or by a retry. */
  ghost predicate AttemptsPaidFor(h: History, free: bool) {
    && (forall a :: a in h.retried ==> 1 <= a < MAX_ATTEMPTS && a <= h.claims)
    && (forall a :: a in h.delivered ==> 1 <= a <= h.claims && (a !in h.retried || a in h.unrecorded))
    && h.unrecorded <= h.delivered
    && h.claims + (if free then 1 else 0) <= h.takeovers + 1 + |h.retried|
  }

  /** Of every row that ever was, still there or deleted. */
  ghost predicate PaidFor(s: State, id: NotificationId) {
    AttemptsPaidFor(HistoryOf(s, id), id in s.table && Free(s.table[id]))
  }

  ghost predicate RowInv(s: State, id: NotificationId)
    requires id in s.table
  {
    && id in s.usedIds
    && LockOk(s.table[id])
    && s.table[id].attempts == HistoryOf(s, id).claims
    && (s.table[id].lockedBy.Some? ==> s.table[id].lockedBy.value in s.usedTokens && s.table[id].attempts >= 1)
  }

  /** A row in a worker's hands: its attempt is its own and still undecided, and
      if it is the latest attempt then the lock, if any, is this worker's. */
  ghost predicate HolderInv(s: State, w: Token, id: NotificationId)
    requires Holds(s, w, id)
  {
    var h, a := HistoryOf(s, id), AttemptOf(s, w, id);
    && id in s.usedIds
    && 1 <= a <= h.claims
    && a !in h.retried
    && (a in h.delivered && a !in h.unrecorded ==> s.workers[w].answered == Some((id, Delivered)))
    && (a in h.unrecorded ==> s.workers[w].answered == Some((id, Threw)))
    && (s.workers[w].answered == Some((id, Delivered)) ==> a in h.delivered)
    && (id in s.table && a == h.claims && s.table[id].lockedBy.Some? ==> s.table[id].lockedBy == Some(w))
  }

  /** A worker that has not claimed yet locks nothing; one that has not read back
      yet has locked only rows whose latest attempt is undecided. */
  ghost predicate ClaimInv(s: State, w: Token, id: NotificationId)
    requires w in s.workers && id in s.table
  {
    var h := HistoryOf(s, id);
    s.table[id].lockedBy == Some(w) ==>
      && !s.workers[w].HasCandidates?
      && (s.workers[w].HasClaimed? ==> h.claims !in h.retried && h.claims !in h.delivered)
  }

  ghost predicate HoldersDiffer(s: State) {
    forall v, w, id :: Holds(s, v, id) && Holds(s, w, id) && v != w ==> AttemptOf(s, v, id) != AttemptOf(s, w, id)
  }

  /** As long as no stale lock on a row was taken over, whoever holds it holds
      the lock, unless the row was cancelled under their hands. */
  ghost predicate LeaseOk(s: State, w: Token, id: NotificationId)
    requires Holds(s, w, id) && id in s.table
  {
    HistoryOf(s, id).takeovers == 0 ==>
      && AttemptOf(s, w, id) == s.table[id].attempts
      && (s.table[id].lockedBy == Some(w) || s.table[id].status == Cancelled)
  }

  ghost predicate Inv(s: State) {
    && s.workers.Keys <= s.usedTokens && s.history.Keys <= s.usedIds
    && (forall id :: PaidFor(s, id))
    && (forall id :: id in s.table ==> RowInv(s, id))
    && (forall w, id :: Holds(s, w, id) ==> HolderInv(s, w, id))
    && HoldersDiffer(s)
    && (forall w, id :: w in s.workers && id in s.table ==> ClaimInv(s, w, id))
    && (forall w, id :: Holds(s, w, id) && id in s.table ==> LeaseOk(s, w, id))
  }

  /* ---------------------------- Paid-for attempts -------------------------- */

  lemma ClaimIsPaidFor(s: State, token: Token, id: NotificationId)
    requires Inv(s) && Enabled(s, Claim(token))
    ensures PaidFor(AfterClaim(s, token), id)
  {
    assert PaidFor(s, id);
    if id in s.table { assert RowInv(s, id); }
  }

  lemma DeliverIsPaidFor(s: State, token: Token, delivered: NotificationId, answer: Answer, id: NotificationId)
    requires Inv(s) && Enabled(s, Deliver(token, delivered, answer))
    ensures PaidFor(AfterDeliver(s, token, delivered, answer), id)
  {
    assert PaidFor(s, id) && HolderInv(s, token, delivered);
  }

  /** A retry frees the row, and its attempt pays for the next claim. */
  lemma RetryIsPaidFor(h: History, attempt: nat)
    requires AttemptsPaidFor(h, false) && 1 <= attempt < MAX_ATTEMPTS && attempt <= h.claims
    requires attempt !in h.retried && (attempt !in h.delivered || attempt in h.unrecorded)
    ensures AttemptsPaidFor(h.(retried := h.retried + {attempt}), true)
  {
  }

  lemma RecordIsPaidFor(s: State, token: Token, id: NotificationId)
    requires Inv(s) && Enabled(s, Record(token))
    ensures PaidFor(AfterRecord(s, token), id)
  {
    var after := AfterRecord(s, token);
    assert PaidFor(s, id);
    var recorded, answer := s.workers[token].answered.value.0, s.workers[token].answered.value.1;
    assert HolderInv(s, token, recorded);
    if recorded != id || id !in s.table {
      assert HistoryOf(after, id) == HistoryOf(s, id) && (id in after.table <==> id in s.table);
    } else if answer != Delivered && !GivesUp(AttemptOf(s, token, id), answer) {
      RetryIsPaidFor(HistoryOf(s, id), AttemptOf(s, token, id));
    } else {
      assert !Free(after.table[id]) && HistoryOf(after, id) == HistoryOf(s, id);
    }
  }

  lemma FailedRecordIsPaidFor(s: State, token: Token, id: NotificationId)
    requires Inv(s) && Enabled(s, RecordFails(token))
    ensures PaidFor(AfterRecordFails(s, token), id)
  {
    assert PaidFor(s, id) && HolderInv(s, token, s.workers[token].answered.value.0);
  }

  /** The other steps leave a row's history alone and free no row but a new one. */
  lemma OthersArePaidFor(s: State, step: Step, id: NotificationId)
    requires Inv(s) && Enabled(s, step)
    requires !step.Claim? && !step.Deliver? && !step.Record? && !step.RecordFails?
    ensures PaidFor(Apply(s, step), id)
  {
    assert PaidFor(s, id);
    assert HistoryOf(Apply(s, step), id) == HistoryOf(s, id);
    if step.Insert? && step.id == id { assert id !in s.history; }
  }

  lemma StepIsPaidFor(s: State, step: Step, id: NotificationId)
    requires Inv(s) && Enabled(s, step)
    ensures PaidFor(Apply(s, step), id)
  {
    match step
    case Claim(token) => ClaimIsPaidFor(s, token, id);
    case Deliver(token, delivered, answer) => DeliverIsPaidFor(s, token, delivered, answer, id);
    case Record(token) => RecordIsPaidFor(s, token, id);
    case RecordFails(token) => FailedRecordIsPaidFor(s, token, id);
    case _ => OthersArePaidFor(s, step, id);
  }

  /* --------------------------------- Rows ---------------------------------- */

  lemma ClaimKeepsRowInv(s: State, token: Token, id: NotificationId)
    requires Inv(s) && Enabled(s, Claim(token)) && id in AfterClaim(s, token).table
    ensures RowInv(AfterClaim(s, token), id)
  {
    assert RowInv(s, id);
  }

  lemma RecordKeepsRowInv(s: State, token: Token, id: NotificationId)
    requires Inv(s) && Enabled(s, Record(token)) && id in AfterRecord(s, token).table
    ensures RowInv(AfterRecord(s, token), id)
  {
    assert RowInv(s, id);
  }

  lemma OtherStepsKeepRowInv(s: State, step: Step, id: NotificationId)
    requires Inv(s) && Enabled(s, step) && id in Apply(s, step).table && !step.Claim? && !step.Record?
    ensures RowInv(Apply(s, step), id)
  {
    if id in s.table { assert RowInv(s, id); }
    assert id in s.table || id !in s.history;
  }

  lemma StepKeepsRowInv(s: State, step: Step, id: NotificationId)
    requires Inv(s) && Enabled(s, step) && id in Apply(s, step).table
    ensures RowInv(Apply(s, step), id)
  {
    match step
    case Claim(token) => ClaimKeepsRowInv(s, token, id);
    case Record(token) => RecordKeepsRowInv(s, token, id);
    case _ => OtherStepsKeepRowInv(s, step, id);
  }

  /* ------------------------------- Holders --------------------------------- */

  lemma DeliverKeepsHolderInv(s: State, token: Token, delivered: NotificationId, answer: Answer, w: Token,
      id: NotificationId)
    requires Inv(s) && Enabled(s, Deliver(token, delivered, answer))
    requires Holds(AfterDeliver(s, token, delivered, answer), w, id)
    ensures HolderInv(AfterDeliver(s, token, delivered, answer), w, id)
  {
    assert HolderInv(s, w, id);
    if w != token && id == delivered {
      assert AttemptOf(s, token, id) != AttemptOf(s, w, id);
    }
  }

  lemma RecordKeepsHolderInv(s: State, token: Token, w: Token, id: NotificationId)
    requires Inv(s) && Enabled(s, Record(token)) && Holds(AfterRecord(s, token), w, id)
    ensures HolderInv(AfterRecord(s, token), w, id)
  {
    assert Holds(s, w, id) && HolderInv(s, w, id);
    var recorded := s.workers[token].answered.value.0;
    if w != token && id == recorded {
      assert Holds(s, token, id);
      assert AttemptOf(s, token, id) != AttemptOf(s, w, id);
    }
  }

  lemma FailedRecordKeepsHolderInv(s: State, token: Token, w: Token, id: NotificationId)
    requires Inv(s) && Enabled(s, RecordFails(token)) && Holds(AfterRecordFails(s, token), w, id)
    ensures HolderInv(AfterRecordFails(s, token), w, id)
  {
    assert Holds(s, w, id) && HolderInv(s, w, id);
    var failed := s.workers[token].answered.value.0;
    if w != token && id == failed {
      assert Holds(s, token, id);
      assert AttemptOf(s, token, id) != AttemptOf(s, w, id);
    }
  }

  lemma ReadBackKeepsHolderInv(s: State, token: Token, w: Token, id: NotificationId)
    requires Inv(s) && Enabled(s, ReadBack(token)) && Holds(AfterReadBack(s, token), w, id)
    ensures HolderInv(AfterReadBack(s, token), w, id)
  {
    if w == token {
      assert id in HeldBy(s.table, w) && RowInv(s, id) && ClaimInv(s, w, id) && PaidFor(s, id);
    } else {
      assert Holds(s, w, id) && HolderInv(s, w, id);
    }
  }

  lemma ClaimKeepsHolderInv(s: State, token: Token, w: Token, id: NotificationId)
    requires Inv(s) && Enabled(s, Claim(token)) && Holds(AfterClaim(s, token), w, id)
    ensures HolderInv(AfterClaim(s, token), w, id)
  {
    assert Holds(s, w, id) && HolderInv(s, w, id);
  }

  lemma StepKeepsHolderInv(s: State, step: Step, w: Token, id: NotificationId)
    requires Inv(s) && Enabled(s, step) && Holds(Apply(s, step), w, id)
    ensures HolderInv(Apply(s, step), w, id)
  {
    match step
    case Claim(token) => ClaimKeepsHolderInv(s, token, w, id);
    case Deliver(token, delivered, answer) => DeliverKeepsHolderInv(s, token, delivered, answer, w, id);
    case Record(token) => RecordKeepsHolderInv(s, token, w, id);
    case RecordFails(token) => FailedRecordKeepsHolderInv(s, token, w, id);
    case ReadBack(token) => ReadBackKeepsHolderInv(s, token, w, id);
    case _ =>
      assert Holds(s, w, id) && HolderInv(s, w, id);
  }

  /** Somebody else's verdict on an old attempt does not touch a fresh claim. */
  lemma DeliverySparesFreshClaims(s: State, token: Token, delivered: NotificationId, answer: Answer, w: Token,
      id: NotificationId)
    requires Inv(s) && Enabled(s, Deliver(token, delivered, answer)) && w in s.workers && id in s.table
    ensures ClaimInv(AfterDeliver(s, token, delivered, answer), w, id)
  {
    assert ClaimInv(s, w, id) && HolderInv(s, token, delivered);
  }

  lemma RecordSparesFreshClaims(s: State, token: Token, w: Token, id: NotificationId)
    requires Inv(s) && Enabled(s, Record(token))
    requires w in AfterRecord(s, token).workers && id in AfterRecord(s, token).table
    ensures ClaimInv(AfterRecord(s, token), w, id)
  {
    assert ClaimInv(s, w, id);
    var recorded := s.workers[token].answered.value.0;
    assert HolderInv(s, token, recorded);
    if recorded == id {
      assert AfterRecord(s, token).table[id].lockedBy.None?;
    }
  }

  lemma FailedRecordSparesFreshClaims(s: State, token: Token, w: Token, id: NotificationId)
    requires Inv(s) && Enabled(s, RecordFails(token)) && w in AfterRecordFails(s, token).workers && id in s.table
    ensures ClaimInv(AfterRecordFails(s, token), w, id)
  {
    assert ClaimInv(s, w, id);
  }

  lemma OtherStepsKeepClaimInv(s: State, step: Step, w: Token, id: NotificationId)
    requires Inv(s) && Enabled(s, step) && w in Apply(s, step).workers && id in Apply(s, step).table
    requires !step.Deliver? && !step.Record? && !step.RecordFails?
    ensures ClaimInv(Apply(s, step), w, id)
  {
    if id in s.table {
      assert RowInv(s, id) && PaidFor(s, id);
      if w in s.workers { assert ClaimInv(s, w, id); }
    }
  }

  lemma StepKeepsClaimInv(s: State, step: Step, w: Token, id: NotificationId)
    requires Inv(s) && Enabled(s, step) && w in Apply(s, step).workers && id in Apply(s, step).table
    ensures ClaimInv(Apply(s, step), w, id)
  {
    match step
    case Deliver(token, delivered, answer) => DeliverySparesFreshClaims(s, token, delivered, answer, w, id);
    case Record(token) => RecordSparesFreshClaims(s, token, w, id);
    case RecordFails(token) => FailedRecordSparesFreshClaims(s, token, w, id);
    case _ => OtherStepsKeepClaimInv(s, step, w, id);
  }

  /** Only the read-back puts a row in anybody's hands. */
  lemma HeldBefore(s: State, step: Step, w: Token, id: NotificationId)
    requires Enabled(s, step) && Holds(Apply(s, step), w, id) && !(step.ReadBack? && step.token == w)
    ensures Holds(s, w, id) && AttemptOf(Apply(s, step), w, id) == AttemptOf(s, w, id)
  {
  }

  /** Whoever reads a row back holds its lock, and so a later attempt than anybody
      else who still has it in hand. */
  lemma ReaderIsLatest(s: State, reader: Token, v: Token, id: NotificationId)
    requires Inv(s) && Enabled(s, ReadBack(reader)) && Holds(s, v, id) && v != reader
    requires Holds(AfterReadBack(s, reader), reader, id)
    ensures AttemptOf(AfterReadBack(s, reader), reader, id) != AttemptOf(s, v, id)
  {
    assert id in HeldBy(s.table, reader) && HolderInv(s, v, id) && RowInv(s, id);
  }

  lemma StepKeepsHoldersDiffer(s: State, step: Step, v: Token, w: Token, id: NotificationId)
    requires Inv(s) && Enabled(s, step) && v != w
    requires Holds(Apply(s, step), v, id) && Holds(Apply(s, step), w, id)
    ensures AttemptOf(Apply(s, step), v, id) != AttemptOf(Apply(s, step), w, id)
  {
    if step.ReadBack? && step.token == v {
      HeldBefore(s, step, w, id);
      ReaderIsLatest(s, v, w, id);
    } else if step.ReadBack? && step.token == w {
      HeldBefore(s, step, v, id);
      ReaderIsLatest(s, w, v, id);
    } else {
      HeldBefore(s, step, v, id);
      HeldBefore(s, step, w, id);
    }
  }

  lemma RecordKeepsLease(s: State, token: Token, w: Token, id: NotificationId)
    requires Inv(s) && Enabled(s, Record(token)) && Holds(AfterRecord(s, token), w, id)
    requires id in AfterRecord(s, token).table
    ensures LeaseOk(AfterRecord(s, token), w, id)
  {
    assert Holds(s, w, id) && LeaseOk(s, w, id);
    var recorded := s.workers[token].answered.value.0;
    if w != token && id == recorded {
      assert Holds(s, token, id) && LeaseOk(s, token, id);
      assert AttemptOf(s, token, id) != AttemptOf(s, w, id);
    }
  }

  lemma StepKeepsLease(s: State, step: Step, w: Token, id: NotificationId)
    requires Inv(s) && Enabled(s, step) && Holds(Apply(s, step), w, id) && id in Apply(s, step).table
    ensures LeaseOk(Apply(s, step), w, id)
  {
    if step.Record? {
      RecordKeepsLease(s, step.token, w, id);
    } else if Holds(s, w, id) {
      assert HolderInv(s, w, id);
      if id in s.table {
        assert RowInv(s, id) && LeaseOk(s, w, id);
      }
    }
  }

  lemma StepKeepsInv(s: State, step: Step)
    requires Inv(s) && Enabled(s, step)
    ensures Inv(Apply(s, step))
  {
    var s' := Apply(s, step);
    forall id ensures PaidFor(s', id) { StepIsPaidFor(s, step, id); }
    forall id | id in s'.table ensures RowInv(s', id) { StepKeepsRowInv(s, step, id); }
    forall w, id | Holds(s', w, id) ensures HolderInv(s', w, id) { StepKeepsHolderInv(s, step, w, id); }
    forall v, w, id | Holds(s', v, id) && Holds(s', w, id) && v != w
        ensures AttemptOf(s', v, id) != AttemptOf(s', w, id) {
      StepKeepsHoldersDiffer(s, step, v, w, id);
    }
    forall w, id | w in s'.workers && id in s'.table ensures ClaimInv(s', w, id) { StepKeepsClaimInv(s, step, w, id); }
    forall w, id | Holds(s', w, id) && id in s'.table ensures LeaseOk(s', w, id) { StepKeepsLease(s, step, w, id); }
    KeysStayUsed(s, step);
  }

  lemma KeysStayUsed(s: State, step: Step)
    requires Inv(s) && Enabled(s, step)
    ensures Apply(s, step).workers.Keys <= Apply(s, step).usedTokens
    ensures Apply(s, step).history.Keys <= Apply(s, step).usedIds
  {
    if step.Claim? {
      forall id | id in Won(s.table, SetOf(s.workers[step.token].ids), s.workers[step.token].now)
          ensures id in s.usedIds {
        assert RowInv(s, id);
      }
    }
    if step.Deliver? { assert HolderInv(s, step.token, step.id); }
    if step.Record? || step.RecordFails? { assert HolderInv(s, step.token, s.workers[step.token].answered.value.0); }
  }
}
