/** What requests about one-time codes are answered, told from what happened before
    them and not from the table: the throttles from the codes issued, a guess from
    the wrong guesses since the code was issued. */
module CodeAnswers {
  import opened Prelude
  import opened ChallengeTable
  import opened OneTimeCodes

  predicate AsksForACode(op: Op) {
    op.IssueCode? || op.NotifyWithoutCode?
  }

  predicate About(op: Op, email: string, purpose: Purpose) {
    !op.Prune? && op.email == email && op.purpose == purpose
  }

  /** The request got as far as writing a code. */
  ghost predicate Issues(l: Limits, s: State, op: Op) {
    AsksForACode(op) && (AnswerOf(l, s, op) == Accepted || AnswerOf(l, s, op) == MailFailed)
  }

  /* ------------------------------ The throttles ---------------------------- */

  /** A code was issued there less than the cooldown ago. */
  ghost predicate IssuedJustBefore(issued: seq<Issuance>, l: Limits, email: string, purpose: Purpose, now: Instant) {
    exists i :: 0 <= i < |issued| && issued[i].email == email && issued[i].purpose == purpose
        && now < issued[i].at + l.cooldownSeconds * 1000
  }

  lemma CooldownInMilliseconds(createdAt: Instant, l: Limits, now: Instant)
    ensures InCooldown(createdAt, l, now) <==> now < createdAt + l.cooldownSeconds * 1000
  {
  }

  lemma CooldownFollowsTheHistory(l: Limits, s: State, clock: Instant, email: string, purpose: Purpose, now: Instant)
    requires ValidLimits(l) && Inv(l, s, clock) && clock <= now
    ensures CoolingDown(s.table, l, email, purpose, now) <==> IssuedJustBefore(s.issued, l, email, purpose, now)
  {
    if id :| id in s.table && For(s.table[id], email, purpose) && InCooldown(s.table[id].createdAt, l, now) {
      assert RowOk(l, s, id);
      CooldownInMilliseconds(s.table[id].createdAt, l, now);
    }
    if IssuedJustBefore(s.issued, l, email, purpose, now) {
      var i :| 0 <= i < |s.issued| && s.issued[i].email == email && s.issued[i].purpose == purpose
               && now < s.issued[i].at + l.cooldownSeconds * 1000;
      assert s.issued[i].at >= clock - RETENTION_MS;
      assert RowOk(l, s, i);
      CooldownInMilliseconds(s.table[i].createdAt, l, now);
    }
  }

  lemma HourFollowsTheHistory(l: Limits, s: State, clock: Instant, email: string, now: Instant)
    requires Inv(l, s, clock) && clock <= now
    ensures IssuedSince(s.table, email, now - HOUR_MS) == IssuedWithin(s.issued, email, now - HOUR_MS, clock)
  {
    var since := IssuedSince(s.table, email, now - HOUR_MS);
    forall i ensures i in since <==> i in IssuedWithin(s.issued, email, now - HOUR_MS, clock) {
      if i in s.table {
        assert RowOk(l, s, i);
      }
    }
  }

  /** How a request for a code is answered, in terms of the codes issued so far. */
  ghost predicate AnsweredByHistory(l: Limits, s: State, op: Op, pruning: bool)
    requires AsksForACode(op)
  {
    var soon := IssuedJustBefore(s.issued, l, op.email, op.purpose, op.checkedAt);
    var many := |IssuedWithin(s.issued, op.email, op.checkedAt - 60 * 60 * 1000, op.checkedAt)| >= l.perHour;
    && (AnswerOf(l, s, op) == TooSoon <==> soon)
    && (AnswerOf(l, s, op) == TooMany <==> !soon && many)
    && (AnswerOf(l, s, op) == MailFailed <==> !soon && !many && op.IssueCode? && !op.mailed)
    && After(l, s, op, pruning).issued
       == s.issued + if soon || many then [] else [Issuance(op.email, op.purpose, op.at)]
  }

  lemma HistoryAnswers(l: Limits, s: State, clock: Instant, op: Op, pruning: bool)
    requires ValidLimits(l) && Inv(l, s, clock) && AsksForACode(op) && clock <= op.checkedAt
    ensures AnsweredByHistory(l, s, op, pruning)
  {
    CooldownFollowsTheHistory(l, s, clock, op.email, op.purpose, op.checkedAt);
    HourFollowsTheHistory(l, s, clock, op.email, op.checkedAt);
    assert IssuedWithin(s.issued, op.email, op.checkedAt - HOUR_MS, op.checkedAt)
        == IssuedWithin(s.issued, op.email, op.checkedAt - HOUR_MS, clock);
  }

  /** A request for a code is put off exactly while a code issued for the same address
      and purpose is younger than the cooldown, refused exactly when the address has
      had its hour's worth of codes, both purposes together, and otherwise issues one
      more; whatever was consumed, burned or pruned meanwhile. */
  lemma ThrottlesFollowTheHistory(l: Limits, ops: seq<Op>, op: Op, pruning: bool)
    requires ValidLimits(l) && InOrder(ops + [op]) && AsksForACode(op)
    ensures AnsweredByHistory(l, AfterAll(l, ops, pruning), op, pruning)
  {
    StateBefore(l, ops, op, pruning);
    HistoryAnswers(l, AfterAll(l, ops, pruning), if ops == [] then op.checkedAt else ClockAfter(ops), op, pruning);
  }

  /** When the next request starts, the invariant holds at a clock not ahead of it. */
  lemma StateBefore(l: Limits, ops: seq<Op>, op: Op, pruning: bool)
    requires ValidLimits(l) && InOrder(ops + [op])
    ensures
      var clock := if ops == [] then StartOf(op) else ClockAfter(ops);
      InOrder(ops) && Inv(l, AfterAll(l, ops, pruning), clock) && clock <= StartOf(op) <= op.at
  {
    var all := ops + [op];
    assert forall i :: 0 <= i < |ops| ==> all[i] == ops[i];
    assert all[|ops|] == op && StartOf(all[|ops|]) <= all[|ops|].at;
    RunKeepsInv(l, ops, pruning);
    if ops != [] {
      assert all[|ops| - 1].at <= StartOf(all[|ops|]);
    }
  }

  /* ------------------------------- The guesses ----------------------------- */

  /** The code issued as `id` at `issuedAt` after n wrong guesses, seen at `clock`:
      until it expires it can be spent exactly if it was mailed and n is below the
      ceiling, and no other code for the address can. */
  ghost predicate Tracks(l: Limits, s: State, clock: Instant, id: ChallengeId, issue: Op, n: nat)
    requires issue.IssueCode?
  {
    && id < |s.issued|
    && (forall x :: x in s.table && x != id && For(s.table[x], issue.email, issue.purpose) ==>
          s.table[x].consumedAt.Some?)
    && (id in s.table ==>
          && For(s.table[id], issue.email, issue.purpose) && s.table[id].codeHash == issue.codeHash
          && s.table[id].expiresAt == issue.at + l.ttlMinutes * MINUTE_MS)
    && (clock < issue.at + l.ttlMinutes * MINUTE_MS ==>
          && id in s.table && (s.table[id].consumedAt.None? <==> issue.mailed && n < l.maxAttempts)
          && (s.table[id].consumedAt.None? ==> s.table[id].attempts == n))
  }

  lemma IssueIsTracked(l: Limits, s: State, clock: Instant, issue: Op, pruning: bool)
    requires ValidLimits(l) && Inv(l, s, clock) && clock <= StartOf(issue) <= issue.at
    requires issue.IssueCode? && Issues(l, s, issue)
    ensures Tracks(l, After(l, s, issue, pruning), issue.at, |s.issued|, issue, 0)
  {
  }

  /** A wrong guess at the code, or a request about something else. */
  ghost predicate LeavesTheCode(l: Limits, s: State, op: Op, issue: Op)
    requires issue.IssueCode?
  {
    && (About(op, issue.email, issue.purpose) && AsksForACode(op) ==> !Issues(l, s, op))
    && (About(op, issue.email, issue.purpose) && op.Verify? ==> !op.matches(issue.codeHash))
  }

  predicate IsGuess(op: Op, issue: Op)
    requires issue.IssueCode?
  {
    op.Verify? && About(op, issue.email, issue.purpose)
  }

  lemma OtherIssueIsNoMatter(l: Limits, s: State, clock: Instant, op: Op, pruning: bool, id: ChallengeId, issue: Op,
      n: nat)
    requires ValidLimits(l) && Inv(l, s, clock) && clock <= op.at && AsksForACode(op)
    requires issue.IssueCode? && Tracks(l, s, clock, id, issue, n) && LeavesTheCode(l, s, op, issue)
    ensures Tracks(l, After(l, s, op, pruning), op.at, id, issue, n)
  {
    var mailed := op.NotifyWithoutCode? || op.mailed;
    if Issues(l, s, op) {
      assert |s.issued| !in s.table by {
        InvKnowsTheRows(l, s, clock);
      }
      IssueSparesOthers(s.table, l, |s.issued|, op, mailed, issue);
    } else {
      assert After(l, s, op, pruning) == s;
    }
  }

  lemma IssueSparesOthers(t: Table, l: Limits, id: ChallengeId, op: Op, mailed: bool, issue: Op)
    requires AsksForACode(op) && issue.IssueCode? && id !in t && !About(op, issue.email, issue.purpose)
    ensures
      var t' := AfterIssue(t, l, id, op.email, op.purpose, op.codeHash, op.at, mailed);
      && (forall x :: x in t' ==> x in t || (x == id && !For(t'[x], issue.email, issue.purpose)))
      && (forall x :: x in t ==> x in t' && t'[x].email == t[x].email && t'[x].purpose == t[x].purpose)
      && (forall x :: x in t && For(t[x], issue.email, issue.purpose) ==> t'[x] == t[x])
  {
  }

  /** Only the code itself can be live for its address and purpose. */
  lemma OnlyTheCodeIsLive(l: Limits, s: State, clock: Instant, at: Instant, id: ChallengeId, issue: Op, n: nat)
    requires clock <= at && issue.IssueCode? && Tracks(l, s, clock, id, issue, n)
    ensures
      var live := LiveIds(s.table, issue.email, issue.purpose, at, l.maxAttempts);
      if issue.mailed && n < l.maxAttempts && at < issue.at + l.ttlMinutes * MINUTE_MS then live == {id} else live == {}
  {
    var live := LiveIds(s.table, issue.email, issue.purpose, at, l.maxAttempts);
    forall x | x in live ensures x == id {}
  }

  lemma WrongGuessIsCounted(l: Limits, s: State, clock: Instant, op: Op, pruning: bool, id: ChallengeId, issue: Op,
      n: nat)
    requires ValidLimits(l) && clock <= op.at && issue.IssueCode? && IsGuess(op, issue)
    requires Tracks(l, s, clock, id, issue, n) && LeavesTheCode(l, s, op, issue)
    ensures Tracks(l, After(l, s, op, pruning), op.at, id, issue, n + 1)
  {
    OnlyTheCodeIsLive(l, s, clock, op.at, id, issue, n);
  }

  lemma OtherGuessIsNoMatter(l: Limits, s: State, clock: Instant, op: Op, pruning: bool, id: ChallengeId, issue: Op,
      n: nat)
    requires clock <= op.at && issue.IssueCode? && !AsksForACode(op) && !IsGuess(op, issue)
    requires Tracks(l, s, clock, id, issue, n)
    ensures Tracks(l, After(l, s, op, pruning), op.at, id, issue, n)
  {
  }

  lemma StaysTracked(l: Limits, s: State, clock: Instant, op: Op, pruning: bool, id: ChallengeId, issue: Op, n: nat)
    requires ValidLimits(l) && Inv(l, s, clock) && clock <= op.at
    requires issue.IssueCode? && Tracks(l, s, clock, id, issue, n) && LeavesTheCode(l, s, op, issue)
    ensures Tracks(l, After(l, s, op, pruning), op.at, id, issue, n + if IsGuess(op, issue) then 1 else 0)
  {
    if AsksForACode(op) {
      OtherIssueIsNoMatter(l, s, clock, op, pruning, id, issue, n);
    } else if IsGuess(op, issue) {
      WrongGuessIsCounted(l, s, clock, op, pruning, id, issue, n);
    } else {
      OtherGuessIsNoMatter(l, s, clock, op, pruning, id, issue, n);
    }
  }

  /** How many of these requests are guesses at the code's address and purpose. */
  function Guesses(ops: seq<Op>, issue: Op): nat
    requires issue.IssueCode?
  {
    if ops == [] then 0 else Guesses(ops[..|ops| - 1], issue) + if IsGuess(ops[|ops| - 1], issue) then 1 else 0
  }

  /** The states the requests lead through, from an empty table. */
  ghost predicate IsHistory(l: Limits, ops: seq<Op>, states: seq<State>, pruning: bool) {
    && |states| == |ops| + 1 && states[0] == State(map[], [], [])
    && forall k :: 0 <= k < |ops| ==> StepsAt(l, ops, states, k, pruning)
  }

  ghost predicate StepsAt(l: Limits, ops: seq<Op>, states: seq<State>, k: nat, pruning: bool)
    requires k < |ops| && |states| == |ops| + 1
  {
    states[k + 1] == After(l, states[k], ops[k], pruning)
  }

  lemma {:induction false} HistoryIsTheRun(l: Limits, ops: seq<Op>, states: seq<State>, k: nat, pruning: bool)
    requires IsHistory(l, ops, states, pruning) && k <= |ops|
    ensures states[k] == AfterAll(l, ops[..k], pruning)
  {
    if k > 0 {
      HistoryIsTheRun(l, ops, states, k - 1, pruning);
      assert StepsAt(l, ops, states, k - 1, pruning);
      assert ops[..k][..k - 1] == ops[..k - 1];
    }
  }

  function ClockAt(ops: seq<Op>, k: nat): Instant
    requires k < |ops|
  {
    if k == 0 then StartOf(ops[0]) else ops[k - 1].at
  }

  lemma HistoryKeepsInv(l: Limits, ops: seq<Op>, states: seq<State>, k: nat, pruning: bool)
    requires ValidLimits(l) && InOrder(ops) && IsHistory(l, ops, states, pruning) && k < |ops|
    ensures Inv(l, states[k], ClockAt(ops, k)) && ClockAt(ops, k) <= StartOf(ops[k]) <= ops[k].at
  {
    HistoryIsTheRun(l, ops, states, k, pruning);
    assert ops[..k] + [ops[k]] == ops[..k + 1];
    StateBefore(l, ops[..k], ops[k], pruning);
  }

  /** Request i issued a code, and until request j none has replaced or guessed it. */
  ghost predicate Undisturbed(l: Limits, ops: seq<Op>, states: seq<State>, i: nat, j: nat)
    requires i < j <= |ops| < |states|
  {
    && ops[i].IssueCode? && Issues(l, states[i], ops[i])
    && forall k :: i < k < j ==> LeavesTheCode(l, states[k], ops[k], ops[i])
  }

  lemma OneMoreGuessed(ops: seq<Op>, i: nat, k: nat)
    requires i < k < |ops| && ops[i].IssueCode?
    ensures Guesses(ops[i + 1..k + 1], ops[i]) ==
      Guesses(ops[i + 1..k], ops[i]) + if IsGuess(ops[k], ops[i]) then 1 else 0
  {
    assert ops[i + 1..k + 1][..k - i - 1] == ops[i + 1..k];
  }

  lemma TrackedOneMore(l: Limits, ops: seq<Op>, states: seq<State>, i: nat, k: nat, pruning: bool)
    requires ValidLimits(l) && InOrder(ops) && IsHistory(l, ops, states, pruning)
    requires i < k < |ops| && ops[i].IssueCode? && LeavesTheCode(l, states[k], ops[k], ops[i])
    requires Tracks(l, states[k], ops[k - 1].at, |states[i].issued|, ops[i], Guesses(ops[i + 1..k], ops[i]))
    ensures Tracks(l, states[k + 1], ops[k].at, |states[i].issued|, ops[i], Guesses(ops[i + 1..k + 1], ops[i]))
  {
    HistoryKeepsInv(l, ops, states, k, pruning);
    assert StepsAt(l, ops, states, k, pruning);
    OneMoreGuessed(ops, i, k);
    StaysTracked(l, states[k], ops[k - 1].at, ops[k], pruning, |states[i].issued|, ops[i],
        Guesses(ops[i + 1..k], ops[i]));
  }

  lemma {:induction false} CodeIsTracked(l: Limits, ops: seq<Op>, states: seq<State>, i: nat, j: nat, pruning: bool)
    requires ValidLimits(l) && InOrder(ops) && IsHistory(l, ops, states, pruning)
    requires i < j <= |ops| && Undisturbed(l, ops, states, i, j)
    ensures Tracks(l, states[j], ops[j - 1].at, |states[i].issued|, ops[i], Guesses(ops[i + 1..j], ops[i]))
    decreases j
  {
    if i < j - 1 {
      CodeIsTracked(l, ops, states, i, j - 1, pruning);
      TrackedOneMore(l, ops, states, i, j - 1, pruning);
    } else {
      HistoryKeepsInv(l, ops, states, i, pruning);
      assert StepsAt(l, ops, states, i, pruning);
      IssueIsTracked(l, states[i], ClockAt(ops, i), ops[i], pruning);
    }
  }

  /** A code can be mistyped: after any number of wrong guesses the next one is
      answered Spent exactly if it is right, the code was mailed and has not expired,
      and the wrong guesses since it was issued are fewer than the ceiling. */
  lemma GuessIsSpentIff(l: Limits, ops: seq<Op>, states: seq<State>, i: nat, j: nat, pruning: bool)
    requires ValidLimits(l) && InOrder(ops) && IsHistory(l, ops, states, pruning)
    requires i < j < |ops| && Undisturbed(l, ops, states, i, j)
    requires IsGuess(ops[j], ops[i])
    ensures AnswerOf(l, states[j], ops[j]) == Spent <==>
      (&& ops[j].matches(ops[i].codeHash) && ops[i].mailed && ops[j].at < ops[i].at + l.ttlMinutes * 60 * 1000
       && Guesses(ops[i + 1..j], ops[i]) < l.maxAttempts)
  {
    CodeIsTracked(l, ops, states, i, j, pruning);
    HistoryKeepsInv(l, ops, states, j, pruning);
    OnlyTheCodeIsLive(l, states[j], ops[j - 1].at, ops[j].at, |states[i].issued|, ops[i],
        Guesses(ops[i + 1..j], ops[i]));
  }
}
