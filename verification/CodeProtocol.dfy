/** Every interleaving of verifying, burning, issuing and pruning. Issuing's
    retire-and-create is one atomic step; everything else a request does is a
    step of its own. */
module CodeProtocol {
  import opened Prelude
  import opened ChallengeTable

  /** A request in flight and the row it holds on to. */
  datatype Proc =
    | Found(id: ChallengeId)
    | Wrong(id: ChallengeId)
    | OutOfAttempts(id: ChallengeId)
    | Undelivered(id: ChallengeId)
    | Right(id: ChallengeId)

  datatype Issuance = Issuance(email: string, purpose: Purpose)

  /** `issued` and `spent` are history only: every code ever issued, a code's
      place being its id, and which requests were told they spent which code. */
  datatype State = State(table: Table, procs: map<nat, Proc>, issued: seq<Issuance>, spent: seq<ChallengeId>)

  datatype Step =
    | IssueCode(pid: nat, email: string, purpose: Purpose, codeHash: nat, at: Instant, expiresAt: Instant, mailed: bool)
    | FindLive(pid: nat, email: string, purpose: Purpose, now: Instant, maxAttempts: nat, found: ChallengeId)
    | Compare(pid: nat, matches: bool)
    | RecordFailed(pid: nat, maxAttempts: nat)
    | Burn(pid: nat, at: Instant)
    | Spend(pid: nat, at: Instant)
    | Prune(before: Instant)
    | Crash(pid: nat)

  ghost predicate Enabled(s: State, step: Step) {
    match step
    case IssueCode(pid, _, _, _, _, _, _) => pid !in s.procs
    case FindLive(pid, email, purpose, now, maxAttempts, found) =>
      pid !in s.procs && found in LiveIds(s.table, email, purpose, now, maxAttempts)
    case Compare(pid, _) => pid in s.procs && s.procs[pid].Found?
    case RecordFailed(pid, _) => pid in s.procs && s.procs[pid].Wrong?
    case Burn(pid, _) => pid in s.procs && (s.procs[pid].OutOfAttempts? || s.procs[pid].Undelivered?)
    case Spend(pid, _) => pid in s.procs && s.procs[pid].Right?
    case Prune(_) => true
    case Crash(pid) => pid in s.procs
  }

  /** The conditional update won: this caller spends the code. */
  predicate Wins(s: State, step: Step) {
    step.Spend? && step.pid in s.procs && s.procs[step.pid].id in s.table
        && s.table[s.procs[step.pid].id].consumedAt.None?
  }

  ghost function Apply(s: State, step: Step): State
    requires Enabled(s, step)
  {
    match step
    case IssueCode(pid, email, purpose, codeHash, at, expiresAt, mailed) =>
      var id := |s.issued|;
      State(Issue(s.table, id, Challenge(email, purpose, codeHash, 0, None, at, expiresAt)),
            if mailed then s.procs else s.procs[pid := Undelivered(id)],
            s.issued + [Issuance(email, purpose)], s.spent)
    case FindLive(pid, _, _, _, _, found) => s.(procs := s.procs[pid := Found(found)])
    case Compare(pid, matches) => s.(procs := s.procs[pid := if matches then Right(s.procs[pid].id)
        else Wrong(s.procs[pid].id)])
    case RecordFailed(pid, maxAttempts) =>
      var id := s.procs[pid].id;
      if id !in s.table then s.(procs := s.procs - {pid})
      else
        var t := FailedAttempt(s.table, id);
        s.(table := t, procs := if t[id].attempts >= maxAttempts then s.procs[pid := OutOfAttempts(id)]
            else s.procs - {pid})
    case Burn(pid, at) => s.(table := Consume(s.table, s.procs[pid].id, at), procs := s.procs - {pid})
    case Spend(pid, at) =>
      s.(table := Consume(s.table, s.procs[pid].id, at), procs := s.procs - {pid},
         spent := if Wins(s, step) then s.spent + [s.procs[pid].id] else s.spent)
    case Prune(before) => s.(table := PruneExpiredBefore(s.table, before))
    case Crash(pid) => s.(procs := s.procs - {pid})
  }

  predicate Start(s: State) {
    s == State(map[], map[], [], [])
  }

  ghost predicate Follows(run: seq<State>, steps: seq<Step>, i: nat)
    requires i < |steps| && |run| == |steps| + 1
  {
    Enabled(run[i], steps[i]) && run[i + 1] == Apply(run[i], steps[i])
  }

  ghost predicate IsRun(run: seq<State>, steps: seq<Step>) {
    |run| == |steps| + 1 && forall i :: 0 <= i < |steps| ==> Follows(run, steps, i)
  }

  /* ------------------------------ Invariants ------------------------------- */

  /** Can still be spent. */
  predicate Open(s: State, id: ChallengeId) {
    id in s.table && s.table[id].consumedAt.None?
  }

  predicate Superseded(s: State, id: ChallengeId)
    requires id < |s.issued|
  {
    exists k :: id < k < |s.issued| && s.issued[k] == s.issued[id]
  }

  ghost predicate RowOk(s: State, id: ChallengeId)
    requires id in s.table
  {
    && id < |s.issued| && s.issued[id] == Issuance(s.table[id].email, s.table[id].purpose)
    && (Open(s, id) ==> !Superseded(s, id) && id !in s.spent)
  }

  ghost predicate Inv(s: State) {
    && (forall id :: id in s.table ==> RowOk(s, id))
    && (forall pid :: pid in s.procs ==> s.procs[pid].id < |s.issued|)
    && (forall id :: id in s.spent ==> id < |s.issued|)
    && NoDuplicates(s.spent)
  }

  lemma StepKeepsRowOk(s: State, step: Step, id: ChallengeId)
    requires Inv(s) && Enabled(s, step) && id in Apply(s, step).table
    ensures RowOk(Apply(s, step), id)
  {
    var s' := Apply(s, step);
    if id in s.table { assert RowOk(s, id); }
    forall k | id < k < |s'.issued| && Open(s', id) ensures s'.issued[k] != s'.issued[id] {
      if k < |s.issued| {
        assert Open(s, id) && !Superseded(s, id);
        assert s'.issued[k] == s.issued[k] && s'.issued[id] == s.issued[id];
      }
    }
  }

  lemma StepKeepsInv(s: State, step: Step)
    requires Inv(s) && Enabled(s, step)
    ensures Inv(Apply(s, step))
  {
    var s' := Apply(s, step);
    forall id | id in s'.table ensures RowOk(s', id) { StepKeepsRowOk(s, step, id); }
    if Wins(s, step) { assert RowOk(s, s.procs[step.pid].id); }
    if step.FindLive? { assert RowOk(s, step.found); }
  }

  lemma {:induction false} RunKeepsInv(run: seq<State>, steps: seq<Step>, i: nat)
    requires IsRun(run, steps) && Start(run[0]) && i < |run|
    ensures Inv(run[i])
  {
    if i > 0 {
      RunKeepsInv(run, steps, i - 1);
      assert Follows(run, steps, i - 1);
      StepKeepsInv(run[i - 1], steps[i - 1]);
    }
  }

  /** Once a code of the log is spent, burned, superseded or pruned it stays so. */
  lemma ClosedStaysClosed(s: State, step: Step, id: ChallengeId)
    requires Inv(s) && Enabled(s, step) && id < |s.issued| && !Open(s, id)
    ensures !Open(Apply(s, step), id)
  {
  }

  lemma {:induction false} ClosedForGood(run: seq<State>, steps: seq<Step>, i: nat, j: nat, id: ChallengeId)
    requires IsRun(run, steps) && Start(run[0]) && i <= j < |run|
    requires id < |run[i].issued| && !Open(run[i], id)
    ensures id < |run[j].issued| && !Open(run[j], id)
    decreases j
  {
    if i < j {
      ClosedForGood(run, steps, i, j - 1, id);
      assert Follows(run, steps, j - 1);
      RunKeepsInv(run, steps, j - 1);
      ClosedStaysClosed(run[j - 1], steps[j - 1], id);
    }
  }

  /* -------------------------------- Theorems ------------------------------- */

  /** However requests race, a code is spent by at most one of them. */
  lemma SpentAtMostOnce(run: seq<State>, steps: seq<Step>, i: nat)
    requires IsRun(run, steps) && Start(run[0]) && i < |run|
    ensures NoDuplicates(run[i].spent)
    ensures forall id :: id in run[i].spent ==> !Open(run[i], id)
  {
    RunKeepsInv(run, steps, i);
    forall id | id in run[i].spent ensures !Open(run[i], id) {
      if id in run[i].table { assert RowOk(run[i], id); }
    }
  }

  /** Each address and purpose has at most one unconsumed code at any time. */
  lemma OneOpenCode(run: seq<State>, steps: seq<Step>, i: nat)
    requires IsRun(run, steps) && Start(run[0]) && i < |run|
    ensures OneUnconsumed(run[i].table)
  {
    var s := run[i];
    RunKeepsInv(run, steps, i);
    forall a, b | a in s.table && b in s.table && s.table[a].consumedAt.None? && s.table[b].consumedAt.None?
      && For(s.table[b], s.table[a].email, s.table[a].purpose) ensures a == b {
      assert RowOk(s, a) && RowOk(s, b);
      assert !Superseded(s, a) && !Superseded(s, b) && s.issued[a] == s.issued[b];
    }
  }

  /** A superseded code never verifies: whoever wins the spend holds the newest
      code of its address and purpose at that moment. */
  lemma OnlyTheNewestIsSpent(run: seq<State>, steps: seq<Step>, i: nat)
    requires IsRun(run, steps) && Start(run[0]) && i < |steps| && Wins(run[i], steps[i])
    ensures
      var id := run[i].procs[steps[i].pid].id;
      id < |run[i].issued| && !Superseded(run[i], id) && id !in run[i].spent && run[i + 1].spent == run[i].spent + [id]
  {
    assert Follows(run, steps, i);
    RunKeepsInv(run, steps, i);
    assert RowOk(run[i], run[i].procs[steps[i].pid].id);
  }

  /** A code burned by some request, for whatever reason, is never spent after. */
  lemma BurnedNeverVerifies(run: seq<State>, steps: seq<Step>, i: nat, j: nat)
    requires IsRun(run, steps) && Start(run[0]) && i < j < |steps|
    requires steps[i].Burn? && Wins(run[j], steps[j])
    ensures Enabled(run[i], steps[i]) && run[j].procs[steps[j].pid].id != run[i].procs[steps[i].pid].id
  {
    assert Follows(run, steps, i);
    RunKeepsInv(run, steps, i);
    var id := run[i].procs[steps[i].pid].id;
    ClosedForGood(run, steps, i + 1, j, id);
  }
}
