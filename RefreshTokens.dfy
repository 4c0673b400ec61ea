/** Refresh tokens: `handlePOSTRefresh` exchanges a stored token that is at
    most 60 days old for a new access token, and `handlePOSTRevoke` deletes
    such a token. Times are instants in nanoseconds on one wall clock; the
    current time is a parameter. */
module RefreshTokens {
  import opened GoTypes

  /** `time.Hour` in nanoseconds. */
  const Hour: int := 3600 * 1_000_000_000

  /** `time.Duration(1)*time.Hour*24*60`: sixty days. */
  const Lifetime: int := Hour * 24 * 60

  /** Go's `t.Sub(u)`: the duration from `u` to `t`, saturated to the range
      of a 64-bit `time.Duration`. */
  function Sub(t: int, u: int): (d: int)
    ensures IsInt64(d)
    ensures IsInt64(t - u) ==> d == t - u
    ensures t - u > MaxInt64 ==> d == MaxInt64
    ensures t - u < MinInt64 ==> d == MinInt64
  {
    if t - u > MaxInt64 then MaxInt64
    else if t - u < MinInt64 then MinInt64
    else t - u
  }

  /** The expiry test of both handlers, `now.Sub(token.CreatedAt) > 60 days`.
      Saturation never changes its verdict: a token expires exactly when
      more than sixty days have passed since it was created. */
  predicate Expired(now: int, createdAt: int)
    ensures Expired(now, createdAt) <==> now - createdAt > Lifetime
  {
    Sub(now, createdAt) > Lifetime
  }

  /** A stored refresh token. */
  datatype RefreshToken = RefreshToken(token: Bytes, userId: int, createdAt: int)

  /** The stored refresh tokens, by token string. */
  type TokenStore = map<Bytes, RefreshToken>

  /** How `handlePOSTRefresh` ends: a new access token for `userId`, or an
      error status (401 for an unknown or expired token, 400 when its user
      is gone). */
  datatype RefreshOutcome = Issued(userId: int) | Refused(status: int)

  function Refresh(store: TokenStore, users: set<int>, token: Bytes, now: int): (r: RefreshOutcome)
    ensures r.Issued? <==>
      token in store && !Expired(now, store[token].createdAt) && store[token].userId in users
    ensures r.Issued? ==> r.userId == store[token].userId
    ensures r.Refused? ==> r.status == (if token in store && !Expired(now, store[token].createdAt) then 400 else 401)
  {
    if token !in store then Refused(401)
    else if Expired(now, store[token].createdAt) then Refused(401)
    else if store[token].userId !in users then Refused(400)
    else Issued(store[token].userId)
  }

  /** How `handlePOSTRevoke` ends, with the token store afterwards. */
  datatype Revocation = Revocation(status: int, store: TokenStore)

  function Revoke(store: TokenStore, token: Bytes, now: int): (r: Revocation)
    ensures r.status == 204 <==> token in store && !Expired(now, store[token].createdAt)
    ensures r.status != 204 ==> r.status == 401 && r.store == store
    ensures r.status == 204 ==> r.store == store - {token}
  {
    if token !in store then Revocation(401, store)
    else if Expired(now, store[token].createdAt) then Revocation(401, store)
    else Revocation(204, store - {token})
  }

  /** Exactly sixty days after creation a token is still good; one second
      later it has expired. */
  lemma ExpiryBoundary(createdAt: int)
    ensures !Expired(createdAt + Lifetime, createdAt)
    ensures Expired(createdAt + Lifetime + 1_000_000_000, createdAt)
    ensures !Expired(createdAt + Lifetime - 1_000_000_000, createdAt)
  {
  }

  /** Once expired, a token stays expired. */
  lemma ExpiredStaysExpired(createdAt: int, now: int, later: int)
    requires Expired(now, createdAt) && now <= later
    ensures Expired(later, createdAt)
  {
  }

  /** Revoking touches no other stored token. */
  lemma RevokeKeepsOthers(store: TokenStore, token: Bytes, now: int, other: Bytes)
    requires other in store && other != token
    ensures other in Revoke(store, token, now).store
    ensures Revoke(store, token, now).store[other] == store[other]
  {
  }

  /** An expired token is refused and never deleted by a revoke. */
  lemma ExpiredTokenNotRevoked(store: TokenStore, token: Bytes, now: int)
    requires token in store && Expired(now, store[token].createdAt)
    ensures Revoke(store, token, now) == Revocation(401, store)
  {
  }

  /** After a successful revoke, the token neither refreshes nor revokes
      again, at any later time. */
  lemma RevokedTokenIsDead(store: TokenStore, users: set<int>, token: Bytes, now: int, later: int)
    requires Revoke(store, token, now).status == 204
    ensures Refresh(Revoke(store, token, now).store, users, token, later) == Refused(401)
    ensures Revoke(Revoke(store, token, now).store, token, later).status == 401
  {
  }
}
