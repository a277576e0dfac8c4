/** The revocation garbage collector. */
module TokenCleanup {
  import opened Wrappers
  import opened Entities
  import opened Store
  import opened AuthMiddleware
  import opened AuthService

  /** The records `deleteMany({ where: { expiresAt: { lt: now } } })` leaves: those expiring at `now` or later. */
  function Unexpired(revoked: map<string, nat>, now: nat): (r: map<string, nat>)
    ensures forall t | t in r :: t in revoked && r[t] == revoked[t] && now <= r[t]
    ensures forall t | t in revoked && now <= revoked[t] :: t in r
  {
    map t | t in revoked && now <= revoked[t] :: revoked[t]
  }

  /** `removeExpiredTokens`: only the revocation store changes. */
  method RemoveExpiredTokens(db: Db, now: nat)
    modifies db`revoked
    ensures db.revoked == Unexpired(old(db.revoked), now)
  {
    db.revoked := Unexpired(db.revoked, now);
  }

  /** After a cleanup no record has expired, and running it again at the same instant removes nothing more. */
  lemma CleanupIdempotent(revoked: map<string, nat>, now: nat)
    ensures forall t | t in Unexpired(revoked, now) :: !(Unexpired(revoked, now)[t] < now)
    ensures Unexpired(Unexpired(revoked, now), now) == Unexpired(revoked, now)
  {
  }

  /** Records expiring later than `now`, or exactly at it, survive: the comparison is strict. */
  lemma CleanupKeepsBoundary(revoked: map<string, nat>, now: nat, token: string)
    requires token in revoked && revoked[token] == now
    ensures token in Unexpired(revoked, now) && Unexpired(revoked, now)[token] == now
  {
  }

  /** A token that verifies at `now` has not yet reached its `exp`, as the token library checks. */
  ghost predicate VerifyHonoursExpiry(verify: string -> Option<DecodedToken>, now: nat) {
    forall t | verify(t).Some? :: now < verify(t).value.exp * 1000
  }

  /**
   * Cleanup never lets a revoked token back in: with records at their
   * tokens' expiry and a verifier that refuses expired tokens, the gate
   * accepts exactly the same requests before and after.
   */
  lemma CleanupKeepsRefusals(authorization: Option<string>, revoked: map<string, nat>,
                              verify: string -> Option<DecodedToken>, now: nat)
    requires RecordsMatchClaims(revoked, verify)
    requires VerifyHonoursExpiry(verify, now)
    ensures Decide(authorization, Unexpired(revoked, now), verify).Authenticated?
        <==> Decide(authorization, revoked, verify).Authenticated?
  {
  }
}
