/** The one-time-code table as its repository reads and updates it. */
module EmailChallengeRepositories {
  import opened Prelude
  import opened ChallengeTable

  /** For this address and purpose, neither spent nor burned nor retired, not expired,
      and not guessed at too often. */
  predicate IsSpendable(c: Challenge, email: string, purpose: Purpose, now: Instant, maxAttempts: nat) {
    && c.email == email && c.purpose == purpose
    && c.consumedAt.None? && now < c.expiresAt && c.attempts < maxAttempts
  }

  /** An unspent code for this address and purpose is retired; any other row stays. */
  predicate Retired(before: Challenge, after: Challenge, email: string, purpose: Purpose, at: Instant) {
    after == if before.email == email && before.purpose == purpose && before.consumedAt.None?
             then before.(consumedAt := Some(at)) else before
  }

  /** An unspent row has been stamped; nothing else has changed. */
  ghost predicate OnlyStamped(t: Table, t': Table, id: ChallengeId, at: Instant) {
    && t'.Keys == t.Keys
    && (forall other :: other in t && other != id ==> t'[other] == t[other])
    && (id in t ==> t'[id] == if t[id].consumedAt.Some? then t[id] else t[id].(consumedAt := Some(at)))
  }

  class EmailChallengeRepository {
    var table: Table
    var nextId: ChallengeId

    /** At most one unconsumed code per address and purpose, and fresh ids ahead. */
    ghost predicate Valid()
      reads this
    {
      OneUnconsumed(table) && forall id :: id in table ==> id < nextId
    }

    constructor ()
      ensures Valid() && table == map[] && nextId == 0
    {
      table, nextId := map[], 0;
    }

    /** The newest of these rows. */
    static method Newest(t: Table, ids: set<ChallengeId>) returns (r: Option<ChallengeId>)
      requires ids <= t.Keys
      ensures r.None? <==> ids == {}
      ensures r.Some? ==> r.value in ids && forall id :: id in ids ==> t[id].createdAt <= t[r.value].createdAt
    {
      r := None;
      var left := ids;
      while left != {}
        invariant left <= ids && (r.None? <==> left == ids)
        invariant r.Some? ==> r.value in ids && forall id :: id in ids - left ==>
            t[id].createdAt <= t[r.value].createdAt
        decreases left
      {
        var id :| id in left;
        if r.None? || t[id].createdAt > t[r.value].createdAt {
          r := Some(id);
        }
        left := left - {id};
      }
    }

    method FindLive(email: string, purpose: Purpose, now: Instant, maxAttempts: nat) returns (r: Option<ChallengeId>)
      ensures r.None? <==> LiveIds(table, email, purpose, now, maxAttempts) == {}
      ensures r.Some? ==> r.value in LiveIds(table, email, purpose, now, maxAttempts)
      ensures r.Some? ==> IsSpendable(table[r.value], email, purpose, now, maxAttempts)
      ensures r.None? ==> forall id :: id in table ==> !IsSpendable(table[id], email, purpose, now, maxAttempts)
      ensures r.Some? && OneUnconsumed(table) ==> LiveIds(table, email, purpose, now, maxAttempts) == {r.value}
      ensures r.Some? ==> forall id :: id in LiveIds(table, email, purpose, now, maxAttempts) ==>
          table[id].createdAt <= table[r.value].createdAt
    {
      var ids := LiveIds(table, email, purpose, now, maxAttempts);
      r := Newest(table, ids);
      assert forall id :: id in table && id !in ids ==> !IsSpendable(table[id], email, purpose, now, maxAttempts);
    }

    /** When the newest code for this address and purpose was issued. */
    method FindLatest(email: string, purpose: Purpose) returns (r: Option<Instant>)
      ensures r.None? <==> forall id :: id in table ==> !For(table[id], email, purpose)
      ensures r.Some? ==> exists id :: id in table && For(table[id], email, purpose) && table[id].createdAt == r.value
      ensures r.Some? ==> forall id :: id in table && For(table[id], email, purpose) ==> table[id].createdAt <= r.value
    {
      var t := table;
      var ids := set id | id in t && For(t[id], email, purpose);
      var newest := Newest(t, ids);
      if newest.None? {
        assert forall id :: id in t && For(t[id], email, purpose) ==> id in ids;
        return None;
      }
      r := Some(t[newest.value].createdAt);
      assert For(t[newest.value], email, purpose);
    }

    method CountSince(email: string, since: Instant) returns (n: nat)
      ensures n == |IssuedSince(table, email, since)|
    {
      n := |IssuedSince(table, email, since)|;
    }

    /** Retire and create in one transaction. */
    method Issue(email: string, purpose: Purpose, codeHash: nat, at: Instant, ttlMinutes: nat) returns (id: ChallengeId)
      requires Valid()
      modifies this
      ensures Valid()
      ensures id == old(nextId) && nextId == id + 1
      ensures table == ChallengeTable.Issue(old(table), id, Fresh(email, purpose, codeHash, at, ttlMinutes))
      ensures id in table && table[id].codeHash == codeHash
        && IsSpendable(table[id], email, purpose, at + ttlMinutes * MINUTE_MS - 1, 1)
        && table[id].expiresAt == at + ttlMinutes * MINUTE_MS && table[id].createdAt == at
      ensures forall other :: other in old(table) ==>
        other in table && Retired(old(table)[other], table[other], email, purpose, at)
    {
      var t := table;
      id := nextId;
      var retired := map i | i in t :: if For(t[i], email, purpose) && t[i].consumedAt.None?
          then t[i].(consumedAt := Some(at)) else t[i];
      table := retired[id := Fresh(email, purpose, codeHash, at, ttlMinutes)];
      nextId := nextId + 1;
    }

    method RecordFailedAttempt(id: ChallengeId) returns (attempts: nat)
      requires Valid() && id in table
      modifies this`table
      ensures Valid()
      ensures table == FailedAttempt(old(table), id) && attempts == table[id].attempts
    {
      table := table[id := table[id].(attempts := table[id].attempts + 1)];
      attempts := table[id].attempts;
    }

    /** True for the one caller that spends the code. */
    method Consume(id: ChallengeId, at: Instant) returns (spent: bool)
      requires Valid()
      modifies this`table
      ensures Valid()
      ensures table == ChallengeTable.Consume(old(table), id, at) && OnlyStamped(old(table), table, id, at)
      ensures spent <==> id in old(table) && old(table)[id].consumedAt.None?
    {
      spent := id in table && table[id].consumedAt.None?;
      if spent {
        table := table[id := table[id].(consumedAt := Some(at))];
      }
    }

    method Burn(id: ChallengeId, at: Instant)
      requires Valid()
      modifies this`table
      ensures Valid()
      ensures table == ChallengeTable.Consume(old(table), id, at) && OnlyStamped(old(table), table, id, at)
    {
      if id in table && table[id].consumedAt.None? {
        table := table[id := table[id].(consumedAt := Some(at))];
      }
    }

    method PruneExpiredBefore(before: Instant) returns (count: nat)
      requires Valid()
      modifies this`table
      ensures Valid()
      ensures table == ChallengeTable.PruneExpiredBefore(old(table), before)
      ensures forall id :: id in table <==> id in old(table) && old(table)[id].expiresAt >= before
      ensures forall id :: id in table ==> table[id] == old(table)[id]
      ensures count == |old(table)| - |table|
    {
      var t := table;
      table := ChallengeTable.PruneExpiredBefore(t, before);
      SubsetCardinality(table.Keys, t.Keys);
      count := |t| - |table|;
    }
  }
}
