/** Issuing and spending one-time codes as the service does it, statement after
    statement, with no other request in between. */
module EmailChallengeServices {
  import opened Prelude
  import opened ChallengeTable
  import opened EmailChallengeRepositories
  import opened OneTimeCodes

  class EmailChallengeService {
    const challenges: EmailChallengeRepository
    const limits: Limits

    constructor (challenges: EmailChallengeRepository, limits: Limits)
      ensures this.challenges == challenges && this.limits == limits
    {
      this.challenges, this.limits := challenges, limits;
    }

    /** The seconds reported are exactly how much longer the cooldown lasts. */
    method AssertMayIssue(email: string, purpose: Purpose, now: Instant) returns (refusal: Option<Refusal>)
      ensures refusal.None? <==> MayIssue(challenges.table, limits, email, purpose, now)
      ensures refusal == Some(HourlyLimit) ==> !CoolingDown(challenges.table, limits, email, purpose, now)
      ensures refusal.Some? && refusal.value.Cooldown? ==>
        && refusal.value.seconds > 0
        && CoolingDown(challenges.table, limits, email, purpose, now + (refusal.value.seconds - 1) * SECOND_MS)
        && !CoolingDown(challenges.table, limits, email, purpose, now + refusal.value.seconds * SECOND_MS)
    {
      var latest := challenges.FindLatest(email, purpose);
      if latest.Some? {
        var elapsedSeconds := (now - latest.value) / SECOND_MS;
        var remaining := limits.cooldownSeconds - elapsedSeconds;
        NewestDecidesTheCooldown(challenges.table, limits, email, purpose, latest.value, now);
        if remaining > 0 {
          WaitingEndsTheCooldown(limits, latest.value, now, remaining);
          NewestDecidesTheCooldown(challenges.table, limits, email, purpose, latest.value,
              now + (remaining - 1) * SECOND_MS);
          NewestDecidesTheCooldown(challenges.table, limits, email, purpose, latest.value, now + remaining * SECOND_MS);
          return Some(Cooldown(remaining));
        }
      }
      var issuedThisHour := challenges.CountSince(email, now - 60 * 60_000);
      if issuedThisHour >= limits.perHour {
        return Some(HourlyLimit);
      }
      refusal := None;
    }

    /** The row is written before the mail is sent, so a failed delivery counts
        against the throttles; the code nobody received is burned. */
    method Issue(email: string, purpose: Purpose, codeHash: nat, checkedAt: Instant, at: Instant, mailed: bool)
      returns (answer: Answer)
      requires challenges.Valid()
      modifies challenges
      ensures challenges.Valid()
      ensures challenges.table ==
        if MayIssue(old(challenges.table), limits, email, purpose, checkedAt)
        then AfterIssue(old(challenges.table), limits, old(challenges.nextId), email, purpose, codeHash, at, mailed)
        else old(challenges.table)
      ensures answer == AnswerOf(limits, State(old(challenges.table), [], []),
          IssueCode(email, purpose, codeHash, checkedAt, at, mailed))
    {
      var refusal := AssertMayIssue(email, purpose, checkedAt);
      if refusal.Some? {
        return if refusal.value.Cooldown? then TooSoon else TooMany;
      }
      var id := challenges.Issue(email, purpose, codeHash, at, limits.ttlMinutes);
      if mailed {
        return Accepted;
      }
      challenges.Burn(id, at);
      answer := MailFailed;
    }

    method NotifyWithoutCode(email: string, purpose: Purpose, codeHash: nat, checkedAt: Instant, at: Instant)
      returns (answer: Answer)
      requires challenges.Valid()
      modifies challenges
      ensures challenges.Valid()
      ensures challenges.table ==
        if MayIssue(old(challenges.table), limits, email, purpose, checkedAt)
        then AfterIssue(old(challenges.table), limits, old(challenges.nextId), email, purpose, codeHash, at, true)
        else old(challenges.table)
      ensures answer == AnswerOf(limits, State(old(challenges.table), [], []),
          OneTimeCodes.NotifyWithoutCode(email, purpose, codeHash, checkedAt, at))
    {
      var refusal := AssertMayIssue(email, purpose, checkedAt);
      if refusal.Some? {
        return if refusal.value.Cooldown? then TooSoon else TooMany;
      }
      var _ := challenges.Issue(email, purpose, codeHash, at, limits.ttlMinutes);
      answer := Accepted;
    }

    /** Spends the one live code if the guess fits it; otherwise the guess is
        counted, and the last one burns the code. */
    method Verify(email: string, purpose: Purpose, matches: nat -> bool, at: Instant) returns (spent: bool)
      requires challenges.Valid()
      modifies challenges`table
      ensures challenges.Valid()
      ensures challenges.table ==
        AfterGuess(old(challenges.table), limits,
            LiveIds(old(challenges.table), email, purpose, at, limits.maxAttempts), matches, at)
      ensures spent <==> AnswerOf(limits, State(old(challenges.table), [], []),
          OneTimeCodes.Verify(email, purpose, matches, at)) == Spent
      ensures forall id :: id in LiveIds(old(challenges.table), email, purpose, at, limits.maxAttempts) ==>
        id in challenges.table && GuessTaken(old(challenges.table)[id], challenges.table[id],
            matches(old(challenges.table)[id].codeHash), limits.maxAttempts, at)
    {
      ghost var live := LiveIds(challenges.table, email, purpose, at, limits.maxAttempts);
      var challenge := challenges.FindLive(email, purpose, at, limits.maxAttempts);
      if challenge.None? {
        return false;
      }
      var id := challenge.value;
      assert TheOne(live) == id;
      if !matches(challenges.table[id].codeHash) {
        var attempts := challenges.RecordFailedAttempt(id);
        if attempts >= limits.maxAttempts {
          challenges.Burn(id, at);
        }
        return false;
      }
      spent := challenges.Consume(id, at);
    }

    method PruneExpired(now: Instant) returns (count: nat)
      requires challenges.Valid()
      modifies challenges`table
      ensures challenges.Valid()
      ensures challenges.table == PruneExpiredBefore(old(challenges.table), now - 24 * HOUR_MS)
      ensures challenges.table == After(limits, State(old(challenges.table), [], []), Prune(now), true).table
      ensures forall id :: id in challenges.table <==>
        id in old(challenges.table) && old(challenges.table)[id].expiresAt + 24 * HOUR_MS >= now
      ensures count == |old(challenges.table)| - |challenges.table|
    {
      count := challenges.PruneExpiredBefore(now - 24 * 60 * 60_000);
    }
  }

  /** A right guess spends the code. A wrong one is counted and leaves it to be guessed
      again, until the last one it is allowed. */
  predicate GuessTaken(before: Challenge, after: Challenge, right: bool, maxAttempts: nat, at: Instant) {
    && (after.email, after.purpose, after.codeHash, after.createdAt, after.expiresAt)
       == (before.email, before.purpose, before.codeHash, before.createdAt, before.expiresAt)
    && after.attempts == before.attempts + (if right then 0 else 1)
    && after.consumedAt == if right || after.attempts >= maxAttempts then Some(at) else None
  }

  /** Older codes cool down no longer than the newest. */
  lemma NewestDecidesTheCooldown(t: Table, l: Limits, email: string, purpose: Purpose, newest: Instant, now: Instant)
    requires exists id :: id in t && For(t[id], email, purpose) && t[id].createdAt == newest
    requires forall id :: id in t && For(t[id], email, purpose) ==> t[id].createdAt <= newest
    ensures CoolingDown(t, l, email, purpose, now) <==> InCooldown(newest, l, now)
  {
  }

  lemma WaitingEndsTheCooldown(l: Limits, createdAt: Instant, now: Instant, remaining: int)
    requires remaining == l.cooldownSeconds - (now - createdAt) / SECOND_MS
    ensures InCooldown(createdAt, l, now + (remaining - 1) * SECOND_MS)
    ensures !InCooldown(createdAt, l, now + remaining * SECOND_MS)
  {
  }
}
