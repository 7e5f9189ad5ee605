/** A symbolic model of the JSON Web Tokens (RFC 7519) the backend issues with
    `jwt.sign(payload, JWT_SECRET, { expiresIn: "7d" })` and checks with `jwt.verify`.
    A signature is modelled as a seal that records the key and everything it covers, so
    a token verifies only if it was sealed with the server's secret over its own contents. */
module Jwt {
  import opened Wrappers

  /** `expiresIn: "7d"`, in seconds. */
  const SevenDays: int := 7 * 24 * 60 * 60

  /** The payload `{documentId, docId, pin, title}`. */
  datatype Claims = Claims(documentId: string, docId: int, pin: int, title: string)

  /** The signature: which key was used over which claims, issue time and expiry. */
  datatype Seal = Seal(key: string, claims: Claims, iat: int, exp: int)

  /** A signed token: its claims, `iat` and `exp` (section 4.1.6 and 4.1.4 of RFC 7519, in
      seconds since the epoch) and the signature. */
  datatype Token = Token(claims: Claims, iat: int, exp: int, signature: Seal)

  /** `jwt.sign` at time `now` (seconds). */
  function Sign(claims: Claims, secret: string, now: int): (t: Token)
    ensures t.claims == claims && t.iat == now && t.exp == now + SevenDays
    ensures t.signature.key == secret
    ensures Verify(t, secret, now) == Some(claims)
  {
    Token(claims, now, now + SevenDays, Seal(secret, claims, now, now + SevenDays))
  }

  /** `jwt.verify` at time `now`: the payload when the signature matches the secret and the
      token has not expired (expired once `now >= exp`), none when it would throw. */
  function Verify(t: Token, secret: string, now: int): (r: Option<Claims>)
    ensures r.Some? ==> r.value == t.claims && now < t.exp && t.signature.key == secret
  {
    if t.signature == Seal(secret, t.claims, t.iat, t.exp) && now < t.exp then Some(t.claims) else None
  }

  /** A freshly signed token verifies to its own payload, exactly until seven days have passed. */
  lemma SignVerifyRoundTrip(claims: Claims, secret: string, issued: int, now: int)
    ensures Verify(Sign(claims, secret, issued), secret, now)
         == if now < issued + SevenDays then Some(claims) else None
  {
  }

  /** A token signed under another key never verifies. */
  lemma ForeignKeyRejected(claims: Claims, key: string, secret: string, issued: int, now: int)
    requires key != secret
    ensures Verify(Sign(claims, key, issued), secret, now) == None
  {
  }

  /** Changing the claims or the expiry of a signed token makes it fail verification. */
  lemma TamperingRejected(t: Token, claims: Claims, exp: int, secret: string, now: int)
    requires claims != t.claims || exp != t.exp
    requires t.signature == Seal(secret, t.claims, t.iat, t.exp)
    ensures Verify(t.(claims := claims, exp := exp), secret, now) == None
  {
  }
}
