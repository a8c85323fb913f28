/**
 * Signed JSON Web Tokens (RFC 7519) as minted by backend/utils/token.ts and
 * checked by `jwt.verify`. A token is represented by its claims: the secret
 * class it is signed under, the `userId` payload, the `iat` claim and the
 * `exp` claim of section 4.1.4 of RFC 7519, all times in whole seconds.
 * Two tokens with equal claims serialise to the same string, so datatype
 * equality stands for the string comparison the server performs.
 */
module Tokens {

  type UserId = nat

  /** The signing secret: JWT_ACCESS_SECRET or JWT_REFRESH_SECRET, assumed distinct. */
  datatype Kind = AccessSecret | RefreshSecret

  datatype Token = Token(kind: Kind, userId: UserId, issuedAt: int, exp: int)

  /** `expiresIn: "15m"` */
  const AccessLifetime: int := 900
  /** `expiresIn: "7d"` */
  const RefreshLifetime: int := 604800

  /** What a request carries where a token string is expected. */
  datatype Presented =
    | Missing           // undefined, null or "" (falsy in JavaScript)
    | Garbage           // a string that is not a well-formed token under any secret
    | Jwt(token: Token)

  datatype VerifyError = Malformed | BadSignature | Expired

  datatype Verified = Verified(userId: UserId) | Rejected(error: VerifyError)

  /**
   * `jwt.verify(presented, secret)` at time `now`: the signature is checked
   * first, then expiry; a token is expired once `now >= exp`.
   */
  function Verify(p: Presented, secret: Kind, now: int): (v: Verified)
    ensures v.Verified? <==> p.Jwt? && p.token.kind == secret && now < p.token.exp
    ensures v.Verified? ==> v.userId == p.token.userId
    ensures p.Jwt? && p.token.kind != secret ==> v == Rejected(BadSignature)
    ensures p.Jwt? && p.token.kind == secret && now >= p.token.exp ==> v == Rejected(Expired)
  {
    match p
    case Missing => Rejected(Malformed)
    case Garbage => Rejected(Malformed)
    case Jwt(t) =>
      if t.kind != secret then Rejected(BadSignature)
      else if now >= t.exp then Rejected(Expired)
      else Verified(t.userId)
  }

  /** `generateAccessToken(userId)` called at time `now`. */
  function GenerateAccessToken(userId: UserId, now: int): (t: Token)
    ensures t.userId == userId && t.issuedAt == now
    ensures forall later :: now <= later < now + AccessLifetime ==>
      Verify(Jwt(t), AccessSecret, later) == Verified(userId)
    ensures forall later :: now + AccessLifetime <= later ==>
      Verify(Jwt(t), AccessSecret, later) == Rejected(Expired)
    ensures forall later :: Verify(Jwt(t), RefreshSecret, later) == Rejected(BadSignature)
  {
    Token(AccessSecret, userId, now, now + AccessLifetime)
  }

  /** `generateRefreshToken(userId)` called at time `now`. */
  function GenerateRefreshToken(userId: UserId, now: int): (t: Token)
    ensures t.userId == userId && t.issuedAt == now
    ensures forall later :: now <= later < now + RefreshLifetime ==>
      Verify(Jwt(t), RefreshSecret, later) == Verified(userId)
    ensures forall later :: now + RefreshLifetime <= later ==>
      Verify(Jwt(t), RefreshSecret, later) == Rejected(Expired)
    ensures forall later :: Verify(Jwt(t), AccessSecret, later) == Rejected(BadSignature)
  {
    Token(RefreshSecret, userId, now, now + RefreshLifetime)
  }

  /** Tokens minted in different seconds, or for different users, differ as strings. */
  lemma DistinctMints(u1: UserId, n1: int, u2: UserId, n2: int)
    requires u1 != u2 || n1 != n2
    ensures GenerateRefreshToken(u1, n1) != GenerateRefreshToken(u2, n2)
    ensures GenerateAccessToken(u1, n1) != GenerateRefreshToken(u2, n2)
  {
  }
}
