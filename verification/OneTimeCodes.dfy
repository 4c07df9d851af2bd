/** Issuing and guessing one-time codes one request at a time, under a clock that
    never runs backwards: what each request does, and what every run keeps. */
module OneTimeCodes {
  import opened Prelude
  import opened ChallengeTable

  const RETENTION_MS := 24 * HOUR_MS

  predicate InCooldown(createdAt: Instant, l: Limits, now: Instant) {
    l.cooldownSeconds - (now - createdAt) / SECOND_MS > 0
  }

  ghost predicate CoolingDown(t: Table, l: Limits, email: string, purpose: Purpose, now: Instant) {
    exists id :: id in t && For(t[id], email, purpose) && InCooldown(t[id].createdAt, l, now)
  }

  predicate AtHourlyLimit(t: Table, l: Limits, email: string, now: Instant) {
    |IssuedSince(t, email, now - HOUR_MS)| >= l.perHour
  }

  datatype Refusal = Cooldown(seconds: int) | HourlyLimit

  /** `matches` says which stored hashes a guess fits. Issuing and notifying check
      the throttles a moment before they write. */
  datatype Op =
    | IssueCode(email: string, purpose: Purpose, codeHash: nat, checkedAt: Instant, at: Instant, mailed: bool)
    | NotifyWithoutCode(email: string, purpose: Purpose, codeHash: nat, checkedAt: Instant, at: Instant)
    | Verify(email: string, purpose: Purpose, matches: nat -> bool, at: Instant)
    | Prune(at: Instant)

  datatype Answer = TooSoon | TooMany | Accepted | MailFailed | Spent | Invalid | Pruned

  datatype Issuance = Issuance(email: string, purpose: Purpose, at: Instant)

  /** `seen` is how many codes had been issued when the guess was compared. */
  datatype Guess = Guess(id: ChallengeId, at: Instant, seen: nat)

  /** `issued` and `guesses` are history only; a row's id is its place in `issued`. */
  datatype State = State(table: Table, issued: seq<Issuance>, guesses: seq<Guess>)

  function StartOf(op: Op): Instant {
    if op.IssueCode? || op.NotifyWithoutCode? then op.checkedAt else op.at
  }

  ghost predicate MayIssue(t: Table, l: Limits, email: string, purpose: Purpose, now: Instant) {
    !CoolingDown(t, l, email, purpose, now) && !AtHourlyLimit(t, l, email, now)
  }

  ghost function TheOne(ids: set<ChallengeId>): (id: ChallengeId)
    requires ids != {}
    ensures id in ids
  {
    var id :| id in ids; id
  }

  /** A wrong guess burns the code with its last attempt. */
  function AfterWrongGuess(t: Table, id: ChallengeId, maxAttempts: nat, at: Instant): Table
    requires id in t
  {
    if t[id].attempts + 1 >= maxAttempts then Consume(FailedAttempt(t, id), id, at) else FailedAttempt(t, id)
  }

  ghost function AfterGuess(t: Table, l: Limits, live: set<ChallengeId>, matches: nat -> bool, at: Instant): Table
    requires live <= t.Keys
  {
    if live == {} then t
    else if matches(t[TheOne(live)].codeHash) then Consume(t, TheOne(live), at)
    else AfterWrongGuess(t, TheOne(live), l.maxAttempts, at)
  }

  ghost function AfterIssue(t: Table, l: Limits, id: ChallengeId, email: string, purpose: Purpose, codeHash: nat,
      at: Instant, mailed: bool): Table
  {
    var t' := Issue(t, id, Fresh(email, purpose, codeHash, at, l.ttlMinutes));
    if mailed then t' else Consume(t', id, at)
  }

  /** `pruning` false leaves the housekeeping out. */
  ghost function After(l: Limits, s: State, op: Op, pruning: bool): State {
    match op
    case IssueCode(email, purpose, codeHash, checkedAt, at, mailed) =>
      if !MayIssue(s.table, l, email, purpose, checkedAt) then s
      else State(AfterIssue(s.table, l, |s.issued|, email, purpose, codeHash, at, mailed),
          s.issued + [Issuance(email, purpose, at)], s.guesses)
    case NotifyWithoutCode(email, purpose, codeHash, checkedAt, at) =>
      if !MayIssue(s.table, l, email, purpose, checkedAt) then s
      else State(AfterIssue(s.table, l, |s.issued|, email, purpose, codeHash, at, true),
          s.issued + [Issuance(email, purpose, at)], s.guesses)
    case Verify(email, purpose, matches, at) =>
      var live := LiveIds(s.table, email, purpose, at, l.maxAttempts);
      if live == {} then s
      else s.(table := AfterGuess(s.table, l, live, matches, at),
          guesses := s.guesses + [Guess(TheOne(live), at, |s.issued|)])
    case Prune(at) => if pruning then s.(table := PruneExpiredBefore(s.table, at - RETENTION_MS)) else s
  }

  ghost function AnswerOf(l: Limits, s: State, op: Op): Answer {
    match op
    case IssueCode(email, purpose, _, checkedAt, _, mailed) =>
      if CoolingDown(s.table, l, email, purpose, checkedAt) then TooSoon
      else if AtHourlyLimit(s.table, l, email, checkedAt) then TooMany
      else if mailed then Accepted else MailFailed
    case NotifyWithoutCode(email, purpose, _, checkedAt, _) =>
      if CoolingDown(s.table, l, email, purpose, checkedAt) then TooSoon
      else if AtHourlyLimit(s.table, l, email, checkedAt) then TooMany else Accepted
    case Verify(email, purpose, matches, at) =>
      var live := LiveIds(s.table, email, purpose, at, l.maxAttempts);
      if live != {} && matches(s.table[TheOne(live)].codeHash) then Spent else Invalid
    case Prune(_) => Pruned
  }

  ghost function AfterAll(l: Limits, ops: seq<Op>, pruning: bool): State {
    if ops == [] then State(map[], [], [])
    else After(l, AfterAll(l, ops[..|ops| - 1], pruning), ops[|ops| - 1], pruning)
  }

  /** Each request starts when the one before is over. */
  ghost predicate InOrder(ops: seq<Op>) {
    && (forall i :: 0 <= i < |ops| ==> StartOf(ops[i]) <= ops[i].at)
    && forall i :: 0 <= i < |ops| - 1 ==> ops[i].at <= StartOf(ops[i + 1])
  }

  /* ------------------------------ Invariants ------------------------------- */

  ghost predicate SameAddress(a: Issuance, b: Issuance) {
    a.email == b.email && a.purpose == b.purpose
  }

  /** Nothing was issued for the same address and purpose between `id` and `upTo`. */
  ghost predicate NewestUpTo(issued: seq<Issuance>, id: ChallengeId, upTo: nat)
    requires id < upTo <= |issued|
  {
    forall k :: id < k < upTo ==> !SameAddress(issued[id], issued[k])
  }

  ghost predicate RowOk(l: Limits, s: State, id: ChallengeId)
    requires id in s.table
  {
    var c := s.table[id];
    && id < |s.issued| && s.issued[id] == Issuance(c.email, c.purpose, c.createdAt)
    && c.expiresAt == c.createdAt + l.ttlMinutes * MINUTE_MS
    && (c.consumedAt.None? ==>
        NewestUpTo(s.issued, id, |s.issued|) && c.attempts < l.maxAttempts && |GuessesAt(s.guesses, id)| == c.attempts)
  }

  function GuessesAt(guesses: seq<Guess>, id: ChallengeId): set<nat> {
    set j | 0 <= j < |guesses| && guesses[j].id == id
  }

  /** The codes issued to the same address in the hour up to issuance `k`. */
  function HourBefore(issued: seq<Issuance>, k: nat): set<nat>
    requires k < |issued|
  {
    set i | 0 <= i < k && issued[i].email == issued[k].email && issued[i].at >= issued[k].at - HOUR_MS
  }

  ghost predicate GuessOk(s: State, g: Guess) {
    && g.id < g.seen <= |s.issued| && NewestUpTo(s.issued, g.id, g.seen)
    && (forall i :: 0 <= i < g.seen ==> s.issued[i].at <= g.at)
    && (forall i :: g.seen <= i < |s.issued| ==> s.issued[i].at >= g.at)
  }

  ghost predicate Sorted(issued: seq<Issuance>, clock: Instant) {
    && (forall i, k :: 0 <= i < k < |issued| ==> issued[i].at <= issued[k].at)
    && (forall i :: 0 <= i < |issued| ==> issued[i].at <= clock)
  }

  ghost predicate Inv(l: Limits, s: State, clock: Instant) {
    && Sorted(s.issued, clock)
    && (forall id :: id in s.table ==> RowOk(l, s, id))
    && (forall id :: 0 <= id < |s.issued| && s.issued[id].at >= clock - RETENTION_MS ==> id in s.table)
    && (forall k :: 0 <= k < |s.issued| ==> |HourBefore(s.issued, k)| < l.perHour)
    && (forall g :: g in s.guesses ==> GuessOk(s, g) && g.at <= clock)
    && (forall id :: 0 <= id < |s.issued| ==> |GuessesAt(s.guesses, id)| <= l.maxAttempts)
  }

  lemma UnconsumedIsUnique(l: Limits, s: State, clock: Instant)
    requires Inv(l, s, clock)
    ensures OneUnconsumed(s.table)
  {
  }

  /** The check counted every code of the last hour: none has been pruned. */
  lemma CheckSeesTheHour(l: Limits, s: State, clock: Instant, email: string, checkedAt: Instant, at: Instant,
      purpose: Purpose)
    requires Inv(l, s, clock) && clock <= checkedAt <= at && !AtHourlyLimit(s.table, l, email, checkedAt)
    ensures
      var issued := s.issued + [Issuance(email, purpose, at)];
      |HourBefore(issued, |s.issued|)| < l.perHour
  {
    var issued := s.issued + [Issuance(email, purpose, at)];
    forall i | i in HourBefore(issued, |s.issued|) ensures i in IssuedSince(s.table, email, checkedAt - HOUR_MS) {
      assert issued[i] == s.issued[i];
      assert i in s.table by {
        assert s.issued[i].at >= at - HOUR_MS >= clock - RETENTION_MS;
      }
      assert RowOk(l, s, i);
    }
    SubsetCardinality(HourBefore(issued, |s.issued|), IssuedSince(s.table, email, checkedAt - HOUR_MS));
  }

  lemma HourBeforeIsStable(issued: seq<Issuance>, more: seq<Issuance>, k: nat)
    requires k < |issued|
    ensures HourBefore(issued + more, k) == HourBefore(issued, k)
  {
  }

  lemma NobodyGuessedAhead(l: Limits, s: State, clock: Instant)
    requires Inv(l, s, clock)
    ensures GuessesAt(s.guesses, |s.issued|) == {}
  {
  }

  lemma IssuedRowsAreOk(l: Limits, s: State, clock: Instant, email: string, purpose: Purpose, codeHash: nat,
      at: Instant, mailed: bool, id: ChallengeId)
    requires ValidLimits(l) && Inv(l, s, clock) && clock <= at
    requires id in AfterIssue(s.table, l, |s.issued|, email, purpose, codeHash, at, mailed)
    ensures RowOk(l, State(AfterIssue(s.table, l, |s.issued|, email, purpose, codeHash, at, mailed),
        s.issued + [Issuance(email, purpose, at)], s.guesses), id)
  {
  }

  lemma RateIsKept(l: Limits, s: State, clock: Instant, email: string, purpose: Purpose, checkedAt: Instant,
      at: Instant)
    requires Inv(l, s, clock) && clock <= checkedAt <= at && !AtHourlyLimit(s.table, l, email, checkedAt)
    ensures
      var issued := s.issued + [Issuance(email, purpose, at)];
      forall k :: 0 <= k < |issued| ==> |HourBefore(issued, k)| < l.perHour
  {
    CheckSeesTheHour(l, s, clock, email, checkedAt, at, purpose);
    var issued := s.issued + [Issuance(email, purpose, at)];
    forall k | 0 <= k < |issued| ensures |HourBefore(issued, k)| < l.perHour {
      if k < |s.issued| { HourBeforeIsStable(s.issued, [Issuance(email, purpose, at)], k); }
    }
  }

  lemma IssueKeepsGuesses(l: Limits, s: State, clock: Instant, t: Table, i: Issuance)
    requires Inv(l, s, clock) && clock <= i.at
    ensures forall g :: g in s.guesses ==> GuessOk(State(t, s.issued + [i], s.guesses), g) && g.at <= i.at
  {
  }

  lemma RecentRowsAreKept(l: Limits, s: State, clock: Instant, email: string, purpose: Purpose, codeHash: nat,
      at: Instant, mailed: bool)
    requires Inv(l, s, clock) && clock <= at
    ensures
      var issued := s.issued + [Issuance(email, purpose, at)];
      forall id :: 0 <= id < |issued| && issued[id].at >= at - RETENTION_MS ==>
        id in AfterIssue(s.table, l, |s.issued|, email, purpose, codeHash, at, mailed)
  {
  }

  lemma IssueKeepsInv(l: Limits, s: State, clock: Instant, email: string, purpose: Purpose, codeHash: nat,
      checkedAt: Instant, at: Instant, mailed: bool)
    requires ValidLimits(l) && Inv(l, s, clock) && clock <= checkedAt <= at
    requires MayIssue(s.table, l, email, purpose, checkedAt)
    ensures Inv(l, State(AfterIssue(s.table, l, |s.issued|, email, purpose, codeHash, at, mailed),
        s.issued + [Issuance(email, purpose, at)], s.guesses), at)
  {
    var s' := State(AfterIssue(s.table, l, |s.issued|, email, purpose, codeHash, at, mailed),
        s.issued + [Issuance(email, purpose, at)], s.guesses);
    forall id | id in s'.table ensures RowOk(l, s', id) {
      IssuedRowsAreOk(l, s, clock, email, purpose, codeHash, at, mailed, id);
    }
    RateIsKept(l, s, clock, email, purpose, checkedAt, at);
    RecentRowsAreKept(l, s, clock, email, purpose, codeHash, at, mailed);
    NobodyGuessedAhead(l, s, clock);
    IssueKeepsGuesses(l, s, clock, s'.table, Issuance(email, purpose, at));
    assert Sorted(s'.issued, at);
  }

  lemma OneMoreGuess(guesses: seq<Guess>, g: Guess, id: ChallengeId)
    ensures |GuessesAt(guesses + [g], id)| == |GuessesAt(guesses, id)| + if g.id == id then 1 else 0
  {
    var more := GuessesAt(guesses + [g], id);
    if g.id == id {
      assert more == GuessesAt(guesses, id) + {|guesses|};
    } else {
      assert more == GuessesAt(guesses, id);
    }
  }

  lemma GuessKeepsRow(l: Limits, s: State, clock: Instant, live: set<ChallengeId>, matches: nat -> bool, at: Instant,
      i: ChallengeId)
    requires ValidLimits(l) && Inv(l, s, clock) && i in s.table && live != {} && live <= s.table.Keys
    requires forall id :: id in live ==> s.table[id].consumedAt.None?
    ensures
      var s' := State(AfterGuess(s.table, l, live, matches, at), s.issued,
          s.guesses + [Guess(TheOne(live), at, |s.issued|)]);
      RowOk(l, s', i)
  {
    assert RowOk(l, s, i);
    OneMoreGuess(s.guesses, Guess(TheOne(live), at, |s.issued|), i);
  }

  lemma GuessKeepsCeiling(l: Limits, s: State, clock: Instant, g: Guess, i: ChallengeId)
    requires Inv(l, s, clock) && i < |s.issued| && g.id in s.table && s.table[g.id].consumedAt.None?
    ensures |GuessesAt(s.guesses + [g], i)| <= l.maxAttempts
  {
    assert RowOk(l, s, g.id);
    OneMoreGuess(s.guesses, g, i);
  }

  lemma VerifyKeepsInv(l: Limits, s: State, clock: Instant, op: Op, pruning: bool)
    requires ValidLimits(l) && Inv(l, s, clock) && op.Verify? && clock <= op.at
    ensures Inv(l, After(l, s, op, pruning), op.at)
  {
    var live := LiveIds(s.table, op.email, op.purpose, op.at, l.maxAttempts);
    if live != {} {
      var s' := After(l, s, op, pruning);
      var g := Guess(TheOne(live), op.at, |s.issued|);
      assert RowOk(l, s, g.id);
      forall i | i in s'.table ensures RowOk(l, s', i) {
        GuessKeepsRow(l, s, clock, live, op.matches, op.at, i);
      }
      forall i | 0 <= i < |s.issued| ensures |GuessesAt(s'.guesses, i)| <= l.maxAttempts {
        GuessKeepsCeiling(l, s, clock, g, i);
      }
      forall h | h in s'.guesses ensures GuessOk(s', h) && h.at <= op.at {
        if h in s.guesses { assert GuessOk(s, h); }
      }
    }
  }

  lemma PruneKeepsInv(l: Limits, s: State, clock: Instant, op: Op, pruning: bool)
    requires Inv(l, s, clock) && op.Prune? && clock <= op.at
    ensures Inv(l, After(l, s, op, pruning), op.at)
  {
  }

  lemma StillInv(l: Limits, s: State, clock: Instant, later: Instant)
    requires Inv(l, s, clock) && clock <= later
    ensures Inv(l, s, later)
  {
  }

  lemma OpKeepsInv(l: Limits, s: State, clock: Instant, op: Op, pruning: bool)
    requires ValidLimits(l) && Inv(l, s, clock) && clock <= StartOf(op) <= op.at
    ensures Inv(l, After(l, s, op, pruning), op.at)
  {
    match op
    case IssueCode(email, purpose, codeHash, checkedAt, at, mailed) =>
      if MayIssue(s.table, l, email, purpose, checkedAt) {
        IssueKeepsInv(l, s, clock, email, purpose, codeHash, checkedAt, at, mailed);
      } else { StillInv(l, s, clock, at); }
    case NotifyWithoutCode(email, purpose, codeHash, checkedAt, at) =>
      if MayIssue(s.table, l, email, purpose, checkedAt) {
        IssueKeepsInv(l, s, clock, email, purpose, codeHash, checkedAt, at, true);
      } else { StillInv(l, s, clock, at); }
    case Verify(_, _, _, _) => VerifyKeepsInv(l, s, clock, op, pruning);
    case Prune(_) => PruneKeepsInv(l, s, clock, op, pruning);
  }

  function ClockAfter(ops: seq<Op>): Instant {
    if ops == [] then 0 else ops[|ops| - 1].at
  }

  lemma {:induction false} RunKeepsInv(l: Limits, ops: seq<Op>, pruning: bool)
    requires ValidLimits(l) && InOrder(ops)
    ensures Inv(l, AfterAll(l, ops, pruning), ClockAfter(ops))
  {
    if ops != [] {
      var front := ops[..|ops| - 1];
      RunKeepsInv(l, front, pruning);
      if front == [] {
        assert Inv(l, AfterAll(l, front, pruning), StartOf(ops[0]));
        OpKeepsInv(l, AfterAll(l, front, pruning), StartOf(ops[0]), ops[0], pruning);
      } else {
        assert ops[|front| - 1].at <= StartOf(ops[|front|]);
        OpKeepsInv(l, AfterAll(l, front, pruning), ClockAfter(front), ops[|front|], pruning);
      }
    }
  }

  /** Every run leaves the table as the next request needs it: at most one live code
      to find, and the next id free. */
  lemma RunsServeTheNextRequest(l: Limits, ops: seq<Op>, pruning: bool)
    requires ValidLimits(l) && InOrder(ops)
    ensures OneUnconsumed(AfterAll(l, ops, pruning).table)
    ensures |AfterAll(l, ops, pruning).issued| !in AfterAll(l, ops, pruning).table
  {
    RunKeepsInv(l, ops, pruning);
    UnconsumedIsUnique(l, AfterAll(l, ops, pruning), ClockAfter(ops));
    InvKnowsTheRows(l, AfterAll(l, ops, pruning), ClockAfter(ops));
  }

  /* ---------------------------- The two ceilings --------------------------- */

  function IssuedWithin(issued: seq<Issuance>, email: string, from: Instant, to: Instant): set<nat> {
    set i | 0 <= i < |issued| && issued[i].email == email && from <= issued[i].at <= to
  }

  lemma HourHolds(l: Limits, s: State, clock: Instant, email: string, from: Instant)
    requires Inv(l, s, clock)
    ensures |IssuedWithin(s.issued, email, from, from + HOUR_MS)| <= l.perHour
  {
    var within := IssuedWithin(s.issued, email, from, from + HOUR_MS);
    if within != {} {
      var last := Greatest(within);
      assert within - {last} <= HourBefore(s.issued, last);
      SubsetCardinality(within - {last}, HourBefore(s.issued, last));
      assert within == (within - {last}) + {last};
    }
  }

  /** In every hour, wherever it starts, an address is issued at most the hourly
      limit of codes, both purposes together. */
  lemma HourlyLimitHolds(l: Limits, ops: seq<Op>, pruning: bool, email: string, from: Instant)
    requires ValidLimits(l) && InOrder(ops)
    ensures |IssuedWithin(AfterAll(l, ops, pruning).issued, email, from, from + HOUR_MS)| <= l.perHour
  {
    RunKeepsInv(l, ops, pruning);
    HourHolds(l, AfterAll(l, ops, pruning), ClockAfter(ops), email, from);
  }

  lemma Greatest(ids: set<nat>) returns (g: nat)
    requires ids != {}
    ensures g in ids && forall i :: i in ids ==> i <= g
  {
    g :| g in ids;
    if ids != {g} {
      var first := g;
      var other := Greatest(ids - {g});
      assert forall i :: i in ids ==> i == first || i in ids - {first};
      if other > g { g := other; }
    }
  }

  function GuessesWithin(s: State, email: string, from: Instant, to: Instant): set<nat> {
    set j | 0 <= j < |s.guesses| && s.guesses[j].id < |s.issued| && s.issued[s.guesses[j].id].email == email
        && from <= s.guesses[j].at <= to
  }

  function GuessedIds(s: State, guesses: set<nat>): set<ChallengeId>
    requires forall j :: j in guesses ==> j < |s.guesses|
  {
    set j | j in guesses :: s.guesses[j].id
  }

  lemma SplitCardinality<T>(a: set<T>, b: set<T>)
    ensures |a| <= |a - b| + |b|
  {
  }

  lemma UnionCardinality<T>(a: set<T>, b: set<T>)
    ensures |a + b| <= |a| + |b|
  {
  }

  lemma OneMoreTime(all: nat, rest: nat, one: nat, m: nat, n: nat)
    requires all <= rest + one && one <= m && rest <= m * n
    ensures all <= m * (n + 1)
  {
    assert m * n + m == m * (n + 1);
  }

  lemma AtMostAsOften(m: nat, n: nat, k: nat)
    requires n <= k
    ensures m * n <= m * k
  {
  }

  /** Each code is compared at most the attempt ceiling of times. */
  lemma {:induction false} FewGuessesPerCode(l: Limits, s: State, guesses: set<nat>, ids: set<ChallengeId>)
    requires forall id :: id in ids ==> |GuessesAt(s.guesses, id)| <= l.maxAttempts
    requires forall j :: j in guesses ==> j < |s.guesses| && s.guesses[j].id in ids
    ensures |guesses| <= l.maxAttempts * |ids|
    decreases ids
  {
    if ids == {} {
      assert guesses == {};
    } else {
      var id :| id in ids;
      var rest := guesses - GuessesAt(s.guesses, id);
      OthersAreGuessed(s, guesses, ids, id);
      FewGuessesPerCode(l, s, rest, ids - {id});
      SplitCardinality(guesses, GuessesAt(s.guesses, id));
      OneMoreTime(|guesses|, |rest|, |GuessesAt(s.guesses, id)|, l.maxAttempts, |ids - {id}|);
      assert |ids| == |ids - {id}| + 1;
    }
  }

  lemma OthersAreGuessed(s: State, guesses: set<nat>, ids: set<ChallengeId>, id: ChallengeId)
    requires forall j :: j in guesses ==> j < |s.guesses| && s.guesses[j].id in ids
    ensures forall j :: j in guesses - GuessesAt(s.guesses, id) ==>
      j < |s.guesses| && s.guesses[j].id in ids - {id}
  {
  }

  /** The codes of one purpose issued before the window. */
  function OldCodes(s: State, ids: set<ChallengeId>, purpose: Purpose, from: Instant): set<ChallengeId> {
    set id | id in ids && id < |s.issued| && s.issued[id].purpose == purpose && s.issued[id].at < from
  }

  lemma AtMostOneOldCode(s: State, g: Guess, h: Guess, from: Instant)
    requires GuessOk(s, g) && GuessOk(s, h) && g.at >= from && h.at >= from
    requires SameAddress(s.issued[g.id], s.issued[h.id]) && s.issued[g.id].at < from && s.issued[h.id].at < from
    ensures g.id == h.id
  {
  }

  lemma OldCodesAreTwo(l: Limits, s: State, clock: Instant, email: string, purpose: Purpose, from: Instant,
      ids: set<ChallengeId>)
    requires Inv(l, s, clock)
    requires ids == GuessedIds(s, GuessesWithin(s, email, from, from + HOUR_MS))
    ensures |OldCodes(s, ids, purpose, from)| <= 1
  {
    var earlier := OldCodes(s, ids, purpose, from);
    if earlier != {} {
      var a :| a in earlier;
      forall b | b in earlier ensures b == a {
        var j :| j in GuessesWithin(s, email, from, from + HOUR_MS) && s.guesses[j].id == a;
        var k :| k in GuessesWithin(s, email, from, from + HOUR_MS) && s.guesses[k].id == b;
        assert s.guesses[j] in s.guesses && s.guesses[k] in s.guesses;
        AtMostOneOldCode(s, s.guesses[j], s.guesses[k], from);
      }
      assert earlier == {a};
    }
  }

  /** The codes guessed at within an hour: those of the hour, and per purpose the
      one still live when it began. */
  lemma FewCodesAreGuessed(l: Limits, s: State, clock: Instant, email: string, from: Instant)
    requires Inv(l, s, clock)
    ensures |GuessedIds(s, GuessesWithin(s, email, from, from + HOUR_MS))| <= l.perHour + 2
  {
    var guesses := GuessesWithin(s, email, from, from + HOUR_MS);
    var ids := GuessedIds(s, guesses);
    var within := IssuedWithin(s.issued, email, from, from + HOUR_MS);
    var verification := OldCodes(s, ids, EmailVerification, from);
    var reset := OldCodes(s, ids, PasswordReset, from);
    HourHolds(l, s, clock, email, from);
    OldCodesAreTwo(l, s, clock, email, EmailVerification, from, ids);
    OldCodesAreTwo(l, s, clock, email, PasswordReset, from, ids);
    forall id | id in ids ensures id in within + (verification + reset) {
      var j :| j in guesses && s.guesses[j].id == id;
      assert s.guesses[j] in s.guesses && GuessOk(s, s.guesses[j]);
    }
    SubsetCardinality(ids, within + (verification + reset));
    UnionCardinality(within, verification + reset);
    UnionCardinality(verification, reset);
  }

  lemma FewGuesses(l: Limits, s: State, clock: Instant, email: string, from: Instant)
    requires Inv(l, s, clock)
    ensures |GuessesWithin(s, email, from, from + HOUR_MS)| <= l.maxAttempts * (l.perHour + 2)
  {
    var guesses := GuessesWithin(s, email, from, from + HOUR_MS);
    var ids := GuessedIds(s, guesses);
    FewCodesAreGuessed(l, s, clock, email, from);
    FewGuessesPerCode(l, s, guesses, ids);
    AtMostAsOften(l.maxAttempts, |ids|, l.perHour + 2);
  }

  /** In every hour at most the attempt ceiling times the hourly limit and two
      guesses are compared with an address's codes. */
  lemma GuessesAreBounded(l: Limits, ops: seq<Op>, pruning: bool, email: string, from: Instant)
    requires ValidLimits(l) && InOrder(ops)
    ensures |GuessesWithin(AfterAll(l, ops, pruning), email, from, from + HOUR_MS)| <= l.maxAttempts * (l.perHour + 2)
  {
    RunKeepsInv(l, ops, pruning);
    FewGuesses(l, AfterAll(l, ops, pruning), ClockAfter(ops), email, from);
  }

  /* -------------------------- Pruning is invisible ------------------------- */

  /** Long past its expiry. */
  predicate Dead(c: Challenge, now: Instant) {
    c.expiresAt < now - RETENTION_MS
  }

  /** `t'` is `t` with some dead rows missing. */
  ghost predicate PrunedCopy(t: Table, t': Table, now: Instant) {
    && (forall id :: id in t' ==> id in t && t'[id] == t[id])
    && (forall id :: id in t && id !in t' ==> Dead(t[id], now))
  }

  ghost predicate ExpiryKnown(l: Limits, t: Table) {
    forall id :: id in t ==> t[id].expiresAt == t[id].createdAt + l.ttlMinutes * MINUTE_MS
  }

  /** Pruned rows are missed by none of the three lookups, now or later. */
  lemma LookupsIgnoreTheDead(l: Limits, t: Table, t': Table, now: Instant, later: Instant, email: string,
      purpose: Purpose)
    requires ValidLimits(l) && ExpiryKnown(l, t) && PrunedCopy(t, t', now) && now <= later
    ensures LiveIds(t', email, purpose, later, l.maxAttempts) == LiveIds(t, email, purpose, later, l.maxAttempts)
    ensures CoolingDown(t', l, email, purpose, later) <==> CoolingDown(t, l, email, purpose, later)
    ensures IssuedSince(t', email, later - HOUR_MS) == IssuedSince(t, email, later - HOUR_MS)
  {
  }

  lemma AnswersAgree(l: Limits, s: State, s': State, now: Instant, op: Op)
    requires ValidLimits(l) && ExpiryKnown(l, s.table) && PrunedCopy(s.table, s'.table, now) && now <= StartOf(op)
    ensures AnswerOf(l, s', op) == AnswerOf(l, s, op)
    ensures !op.Prune? ==> (
      && LiveIds(s'.table, op.email, op.purpose, StartOf(op), l.maxAttempts) == LiveIds(s.table, op.email, op.purpose,
          StartOf(op), l.maxAttempts)
      && (MayIssue(s'.table, l, op.email, op.purpose, StartOf(op)) <==>
          MayIssue(s.table, l, op.email, op.purpose, StartOf(op))))
  {
    if !op.Prune? {
      LookupsIgnoreTheDead(l, s.table, s'.table, now, StartOf(op), op.email, op.purpose);
    }
  }

  lemma IssueCopies(l: Limits, t: Table, t': Table, now: Instant, id: ChallengeId, email: string, purpose: Purpose,
      codeHash: nat, at: Instant, mailed: bool)
    requires PrunedCopy(t, t', now) && now <= at && id !in t
    ensures PrunedCopy(AfterIssue(t, l, id, email, purpose, codeHash, at, mailed),
        AfterIssue(t', l, id, email, purpose, codeHash, at, mailed), at)
  {
  }

  lemma GuessCopies(l: Limits, t: Table, t': Table, now: Instant, live: set<ChallengeId>, matches: nat -> bool,
      at: Instant)
    requires PrunedCopy(t, t', now) && now <= at && live <= t'.Keys
    ensures PrunedCopy(AfterGuess(t, l, live, matches, at), AfterGuess(t', l, live, matches, at), at)
  {
  }

  lemma InvKnowsTheRows(l: Limits, s: State, clock: Instant)
    requires Inv(l, s, clock)
    ensures ExpiryKnown(l, s.table) && |s.issued| !in s.table
  {
  }

  lemma OpKeepsPrunedCopy(l: Limits, s: State, s': State, now: Instant, op: Op)
    requires ValidLimits(l) && ExpiryKnown(l, s.table) && |s.issued| !in s.table && PrunedCopy(s.table, s'.table, now)
    requires s'.issued == s.issued && s'.guesses == s.guesses && now <= StartOf(op) <= op.at
    ensures AnswerOf(l, s', op) == AnswerOf(l, s, op)
    ensures PrunedCopy(After(l, s, op, false).table, After(l, s', op, true).table, op.at)
    ensures After(l, s', op, true).issued == After(l, s, op, false).issued
    ensures After(l, s', op, true).guesses == After(l, s, op, false).guesses
  {
    AnswersAgree(l, s, s', now, op);
    match op
    case IssueCode(email, purpose, codeHash, _, at, mailed) =>
      IssueCopies(l, s.table, s'.table, now, |s.issued|, email, purpose, codeHash, at, mailed);
    case NotifyWithoutCode(email, purpose, codeHash, _, at) =>
      IssueCopies(l, s.table, s'.table, now, |s.issued|, email, purpose, codeHash, at, true);
    case Verify(email, purpose, matches, at) =>
      GuessCopies(l, s.table, s'.table, now, LiveIds(s'.table, email, purpose, at, l.maxAttempts), matches, at);
    case Prune(_) =>
  }

  /** Every request is answered alike whether or not the housekeeping ran. */
  lemma PruningIsInvisible(l: Limits, ops: seq<Op>, i: nat)
    requires ValidLimits(l) && InOrder(ops) && i < |ops|
    ensures AnswerOf(l, AfterAll(l, ops[..i], true), ops[i]) == AnswerOf(l, AfterAll(l, ops[..i], false), ops[i])
  {
    var front := ops[..i];
    PrunedRunIsACopy(l, front);
    RunKeepsInv(l, front, false);
    InvKnowsTheRows(l, AfterAll(l, front, false), ClockAfter(front));
    assert i > 0 ==> ops[i - 1].at <= StartOf(ops[i]);
    AnswersAgree(l, AfterAll(l, front, false), AfterAll(l, front, true), if i == 0 then StartOf(ops[0])
        else ClockAfter(front), ops[i]);
  }

  lemma {:induction false} PrunedRunIsACopy(l: Limits, ops: seq<Op>)
    requires ValidLimits(l) && InOrder(ops)
    ensures
      var a, b := AfterAll(l, ops, false), AfterAll(l, ops, true);
      PrunedCopy(a.table, b.table, ClockAfter(ops)) && b.issued == a.issued && b.guesses == a.guesses
  {
    if ops != [] {
      var n := |ops| - 1;
      var front := ops[..n];
      PrunedRunIsACopy(l, front);
      RunKeepsInv(l, front, false);
      InvKnowsTheRows(l, AfterAll(l, front, false), ClockAfter(front));
      var now := if n == 0 then StartOf(ops[0]) else ClockAfter(front);
      assert n > 0 ==> ops[n - 1].at <= StartOf(ops[n]);
      OpKeepsPrunedCopy(l, AfterAll(l, front, false), AfterAll(l, front, true), now, ops[n]);
    }
  }
}
