/** The lease protocol's statements, run by one worker alone: they do what the
    dispatcher's tick does. */
module LeaseRuns {
  import opened Prelude
  import opened Lectures
  import opened NotificationTable
  import opened LeaseProtocol
  import opened LeaseOutcomes
  import opened Dispatcher
  import Batches

  lemma ReachesThen(s: State, mid: State, s': State, failures: bool)
    requires Reaches(s, mid, failures) && Reaches(mid, s', failures)
    ensures Reaches(s, s', failures)
  {
    var run, steps :| Continues(run, steps, s, failures) && run[|steps|] == mid;
    var more, after :| Continues(more, after, mid, failures) && more[|after|] == s';
    var all, every := run + more[1..], steps + after;
    forall i | 0 <= i < |every| ensures Follows(all, every, i) {
      if i < |steps| {
        assert Follows(run, steps, i);
      } else {
        assert Follows(more, after, i - |steps|);
      }
    }
    assert Continues(all, every, s, failures) && all[|every|] == s';
  }

  /* --------------------------- One row, undisturbed ------------------------ */

  /** The worker has the row in hand as it stands, and no answer outstanding. */
  predicate InHand(s: State, w: Token, id: NotificationId) {
    && Holds(s, w, id) && s.workers[w].answered.None?
    && id in s.table && AttemptOf(s, w, id) == s.table[id].attempts
  }

  /** One delivery and its record, undisturbed, write what `deliver` writes. */
  lemma UndisturbedDeliveryWrites(s: State, w: Token, id: NotificationId, answer: Answer) returns (s': State)
    requires InHand(s, w, id)
    ensures Reaches(s, s', false)
    ensures s'.table == s.table[id := Recorded(s.table[id], answer, s.workers[w].now)]
    ensures DeliveredOnce(s.table[id], s'.table[id], answer, s.workers[w].now)
    ensures s'.workers == s.workers[w := Delivering(s.workers[w].now, s.workers[w].todo - {id}, None)]
  {
    var s1 := Apply(s, Deliver(w, id, answer));
    ReachesItself(s, false);
    ReachesBy(s, s, Deliver(w, id, answer), false);
    assert Enabled(s1, Record(w));
    ReachesBy(s, s1, Record(w), false);
    s' := Apply(s1, Record(w));
  }

  /* --------------------------- A tick, undisturbed ------------------------- */

  /** What the worker still has to deliver is in hand, as it stands. */
  ghost predicate AllInHand(s: State, w: Token, now: Instant, ids: set<NotificationId>) {
    && w in s.workers && s.workers[w].Delivering? && s.workers[w].now == now && s.workers[w].answered.None?
    && s.workers[w].todo.Keys == ids && forall id :: id in ids ==> InHand(s, w, id)
  }

  lemma {:induction false} UndisturbedDeliveriesWrite(s: State, w: Token, now: Instant, ids: set<NotificationId>,
      provider: Notification -> Answer) returns (s': State)
    requires AllInHand(s, w, now, ids)
    ensures Reaches(s, s', false) && DeliveredTo(s.table, s'.table, ids, provider, now)
    ensures AllInHand(s', w, now, {})
    decreases ids
  {
    if ids == {} {
      s' := s;
      ReachesItself(s, false);
    } else {
      var id :| id in ids;
      var s1 := UndisturbedDeliveryWrites(s, w, id, provider(s.table[id]));
      s' := UndisturbedDeliveriesWrite(s1, w, now, ids - {id}, provider);
      ReachesThen(s, s1, s', false);
    }
  }

  lemma ClaimedAreHeld(s: State, token: Token)
    requires Enabled(s, Claim(token)) && HeldBy(s.table, token) == {}
    requires SetOf(s.workers[token].ids) <= ClaimableIds(s.table, s.workers[token].now)
    ensures HeldBy(AfterClaim(s, token).table, token) == SetOf(s.workers[token].ids)
  {
    var w := s.workers[token];
    var after := AfterClaim(s, token).table;
    forall id ensures id in HeldBy(after, token) <==> id in SetOf(w.ids) {
      assert id in SetOf(w.ids) ==> id in ClaimableIds(s.table, w.now);
      assert id in s.table ==> id !in HeldBy(s.table, token);
    }
  }

  lemma ReadBackPutsInHand(s: State, token: Token, ids: set<NotificationId>)
    requires Enabled(s, ReadBack(token)) && HeldBy(s.table, token) == ids
    ensures AllInHand(AfterReadBack(s, token), token, s.workers[token].now, ids)
  {
  }

  /** Reading candidates, claiming and reading back, undisturbed. */
  lemma UndisturbedClaimTakes(s: State, token: Token, now: Instant, ids: seq<NotificationId>) returns (s': State)
    requires Enabled(s, ReadCandidates(token, now, ids)) && HeldBy(s.table, token) == {}
    ensures Reaches(s, s', false) && s'.table == ClaimRows(s.table, SetOf(ids), now, token)
    ensures AllInHand(s', token, now, SetOf(ids))
  {
    var s1 := Apply(s, ReadCandidates(token, now, ids));
    var s2 := Apply(s1, Claim(token));
    s' := Apply(s2, ReadBack(token));
    ReachesItself(s, false);
    ReachesBy(s, s, ReadCandidates(token, now, ids), false);
    ReachesBy(s, s1, Claim(token), false);
    ReachesBy(s, s2, ReadBack(token), false);
    ClaimedAreHeld(s1, token);
    ReadBackPutsInHand(s2, token, SetOf(ids));
  }

  /** One worker left alone, retiring the overdue first, does to the table what a
      tick of the dispatcher does. */
  lemma UndisturbedTickWrites(s: State, token: Token, now: Instant, ids: seq<NotificationId>,
      provider: Notification -> Answer) returns (s': State)
    requires token !in s.usedTokens && HeldBy(s.table, token) == {}
    requires Batches.IsBatch(ids, ClaimableIds(CancelOverdue(s.table, TooOld(now)), now),
        DueTimes(CancelOverdue(s.table, TooOld(now))), BATCH_SIZE)
    ensures Reaches(s, s', false) && TickedTo(s.table, s'.table, SetOf(ids), now, token, provider)
    ensures EachClaimedIsDelivered(s.table, s'.table, SetOf(ids), now, token, provider)
  {
    var s1 := Apply(s, Overdue(TooOld(now)));
    ReachesItself(s, false);
    ReachesBy(s, s, Overdue(TooOld(now)), false);
    assert HeldBy(s1.table, token) == {};
    var s2 := UndisturbedClaimTakes(s1, token, now, ids);
    s' := UndisturbedDeliveriesWrite(s2, token, now, SetOf(ids), provider);
    ReachesThen(s, s1, s2, false);
    ReachesThen(s, s2, s', false);
    CancellingLeavesDue(s.table, now);
    assert SetOf(ids) <= ClaimableIds(s1.table, now);
    TickInThreeSteps(s.table, s1.table, s2.table, s'.table, SetOf(ids), now, token, provider);
    ClaimedRowsAreDelivered(s.table, s'.table, SetOf(ids), now, token, provider);
  }

  /* ------------------------- Edits of the timetable ------------------------ */

  /** Deactivating a lecture takes its reminders out of the queue: one can still go out
      exactly when some worker has it in hand. */
  lemma CancelledGoesOutIff(s: State, lecture: LectureId, id: NotificationId, failures: bool)
    requires Inv(s) && id in s.table && s.table[id].key.lecture == lecture
    ensures
      var s' := Apply(s, CancelLecture(lecture));
      GoesOut(s', id, failures) <==> exists w :: CanDeliver(s', w, id, failures)
  {
    StepKeepsInv(s, CancelLecture(lecture));
    GoesOutIff(Apply(s, CancelLecture(lecture)), id, failures);
  }

  /** So does editing it, whose unsent reminders are gone. */
  lemma DiscardedGoesOutIff(s: State, lecture: LectureId, id: NotificationId, failures: bool)
    requires Inv(s) && id in s.table && s.table[id].key.lecture == lecture && s.table[id].sentAt.None?
    ensures
      var s' := Apply(s, DiscardLecture(lecture));
      GoesOut(s', id, failures) <==> exists w :: CanDeliver(s', w, id, failures)
  {
    StepKeepsInv(s, DiscardLecture(lecture));
    GoesOutIff(Apply(s, DiscardLecture(lecture)), id, failures);
  }

  /** A free row brought forward can be claimed from that moment on. */
  lemma ReleasedIsClaimable(s: State, id: NotificationId, at: Instant, now: Instant)
    requires id in s.table && Free(s.table[id]) && at <= now
    ensures id in ClaimableIds(Apply(s, Release(id, at)).table, now)
  {
  }

  /** A worker whose row was deleted under it, or that died, delivers nothing more. */
  lemma GoneWorkersDeliverNothing(s: State, step: Step, w: Token, id: NotificationId, failures: bool)
    requires Enabled(s, step) && (step == Crash(w)
      || (step == Record(w) && s.workers[w].answered.value.0 !in s.table))
    ensures !CanDeliver(Apply(s, step), w, id, failures)
  {
  }
}
