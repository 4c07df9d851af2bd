/** The code protocol's statements, run by one request alone: they do what the
    service's request does. */
module CodeRuns {
  import opened Prelude
  import opened ChallengeTable
  import opened CodeProtocol
  import Requests = OneTimeCodes

  /** These steps, one after the other and nothing in between, lead from s to s'. */
  ghost predicate Leads(s: State, steps: seq<Step>, s': State)
    decreases |steps|
  {
    if steps == [] then s' == s else Enabled(s, steps[0]) && Leads(Apply(s, steps[0]), steps[1..], s')
  }

  /** Issuing, and burning at once a code whose mail could not be sent. */
  lemma UndisturbedIssueWrites(s: State, l: Limits, pid: nat, email: string, purpose: Purpose, codeHash: nat,
      at: Instant, mailed: bool) returns (steps: seq<Step>, s': State)
    requires pid !in s.procs
    ensures Leads(s, steps, s') && s'.procs == s.procs && s'.spent == s.spent
    ensures s'.table == Requests.AfterIssue(s.table, l, |s.issued|, email, purpose, codeHash, at, mailed)
    ensures s'.issued == s.issued + [Issuance(email, purpose)]
  {
    var issue := IssueCode(pid, email, purpose, codeHash, at, at + l.ttlMinutes * MINUTE_MS, mailed);
    var s1 := Apply(s, issue);
    if mailed {
      steps, s' := [issue], s1;
    } else {
      steps, s' := [issue, Burn(pid, at)], Apply(s1, Burn(pid, at));
      assert steps[1..] == [Burn(pid, at)];
      assert s1.procs - {pid} == s.procs;
    }
  }

  /** Looking up, comparing and then spending, or counting and perhaps burning. */
  lemma UndisturbedVerifyWrites(s: State, l: Limits, pid: nat, email: string, purpose: Purpose, matches: nat -> bool,
      at: Instant) returns (steps: seq<Step>, s': State)
    requires pid !in s.procs && LiveIds(s.table, email, purpose, at, l.maxAttempts) != {}
    ensures
      var live := LiveIds(s.table, email, purpose, at, l.maxAttempts);
      var right := matches(s.table[Requests.TheOne(live)].codeHash);
      && Leads(s, steps, s') && s'.procs == s.procs && s'.issued == s.issued
      && s'.table == Requests.AfterGuess(s.table, l, live, matches, at)
      && s'.spent == s.spent + if right then [Requests.TheOne(live)] else []
  {
    var live := LiveIds(s.table, email, purpose, at, l.maxAttempts);
    var id := Requests.TheOne(live);
    var right := matches(s.table[id].codeHash);
    var find, compare := FindLive(pid, email, purpose, at, l.maxAttempts, id), Compare(pid, right);
    var s2 := Apply(Apply(s, find), compare);
    var more: seq<Step>;
    if right {
      more, s' := [Spend(pid, at)], Apply(s2, Spend(pid, at));
      assert s2.procs[pid] == Right(id);
    } else {
      more, s' := WrongGuessWrites(s2, l, pid, id, at);
    }
    assert s2.procs - {pid} == s.procs;
    steps := [find, compare] + more;
    assert steps[1..] == [compare] + more && steps[1..][1..] == more;
    assert Leads(s2, more, s');
    assert Leads(Apply(s, find), steps[1..], s');
  }

  lemma WrongGuessWrites(s: State, l: Limits, pid: nat, id: ChallengeId, at: Instant)
    returns (steps: seq<Step>, s': State)
    requires pid in s.procs && s.procs[pid] == Wrong(id) && id in s.table
    ensures Leads(s, steps, s') && s'.procs == s.procs - {pid} && s'.issued == s.issued && s'.spent == s.spent
    ensures s'.table == Requests.AfterWrongGuess(s.table, id, l.maxAttempts, at)
  {
    var record, burn := RecordFailed(pid, l.maxAttempts), Burn(pid, at);
    var s1 := Apply(s, record);
    if s.table[id].attempts + 1 >= l.maxAttempts {
      steps, s' := [record, burn], Apply(s1, burn);
      assert steps[1..] == [burn];
      assert s1.procs - {pid} == s.procs - {pid};
    } else {
      steps, s' := [record], s1;
    }
  }

  /** Pruning is one statement. */
  lemma PruneWrites(s: State, l: Limits, at: Instant)
    ensures Apply(s, Prune(at - 24 * HOUR_MS)).table ==
      Requests.After(l, Requests.State(s.table, [], []), Requests.Prune(at), true).table
  {
  }
}
