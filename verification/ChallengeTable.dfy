/** The one-time-code table and what each single database statement does to it.
    A row's identifier is its place in the order of issuing. */
module ChallengeTable {
  import opened Prelude

  type ChallengeId = nat

  datatype Purpose = EmailVerification | PasswordReset

  datatype Challenge = Challenge(
    email: string, purpose: Purpose, codeHash: nat, attempts: nat,
    consumedAt: Option<Instant>, createdAt: Instant, expiresAt: Instant)

  type Table = map<ChallengeId, Challenge>

  /** OTP_TTL_MINUTES, OTP_MAX_ATTEMPTS, OTP_RESEND_COOLDOWN_SECONDS and
      OTP_MAX_PER_EMAIL_PER_HOUR. */
  datatype Limits = Limits(ttlMinutes: nat, maxAttempts: nat, cooldownSeconds: nat, perHour: nat)

  /** What the environment schema allows. */
  predicate ValidLimits(l: Limits) {
    && 1 <= l.ttlMinutes <= 60 && 1 <= l.maxAttempts <= 20
    && l.cooldownSeconds <= 3600 && 1 <= l.perHour <= 50
  }

  predicate For(c: Challenge, email: string, purpose: Purpose) {
    c.email == email && c.purpose == purpose
  }

  predicate Live(c: Challenge, email: string, purpose: Purpose, now: Instant, maxAttempts: nat) {
    For(c, email, purpose) && c.consumedAt.None? && c.expiresAt > now && c.attempts < maxAttempts
  }

  function LiveIds(t: Table, email: string, purpose: Purpose, now: Instant, maxAttempts: nat): set<ChallengeId> {
    set id | id in t && Live(t[id], email, purpose, now, maxAttempts)
  }

  function IssuedSince(t: Table, email: string, since: Instant): set<ChallengeId> {
    set id | id in t && t[id].email == email && t[id].createdAt >= since
  }

  function Fresh(email: string, purpose: Purpose, codeHash: nat, at: Instant, ttlMinutes: nat): Challenge {
    Challenge(email, purpose, codeHash, 0, None, at, at + ttlMinutes * MINUTE_MS)
  }

  /** One transaction: every unconsumed code of this address and purpose is
      retired and the new one written. */
  function Issue(t: Table, id: ChallengeId, c: Challenge): Table {
    (map i | i in t :: if For(t[i], c.email, c.purpose) && t[i].consumedAt.None?
        then t[i].(consumedAt := Some(c.createdAt)) else t[i])[id := c]
  }

  function FailedAttempt(t: Table, id: ChallengeId): Table
    requires id in t
  {
    t[id := t[id].(attempts := t[id].attempts + 1)]
  }

  /** Both spending and burning: only an unconsumed row is stamped. */
  function Consume(t: Table, id: ChallengeId, at: Instant): Table {
    if id in t && t[id].consumedAt.None? then t[id := t[id].(consumedAt := Some(at))] else t
  }

  function PruneExpiredBefore(t: Table, before: Instant): Table {
    map id | id in t && t[id].expiresAt >= before :: t[id]
  }

  predicate Unconsumed(t: Table, id: ChallengeId) {
    id in t && t[id].consumedAt.None?
  }

  /** At most one unconsumed code per address and purpose. */
  ghost predicate OneUnconsumed(t: Table) {
    forall a, b :: Unconsumed(t, a) && Unconsumed(t, b) && For(t[b], t[a].email, t[a].purpose) ==> a == b
  }
}
