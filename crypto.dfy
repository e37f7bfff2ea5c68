/** The two library pairs index.js relies on, as abstract functions: bcrypt's
    `hash`/`compare` and JSON Web Token `sign`/`verify` (RFC 7519). Their
    internals (Blowfish, HMAC, base64url) are not modelled; only the laws the
    server needs are stated, as predicates the lemmas require. */
module Crypto {
  import opened Wrappers

  /** The cost factor `bcrypt.hash(password, 10)` passes. */
  const SaltRounds: nat := 10

  /** `expiresIn: "1h"`, in seconds. */
  const TokenLifetime: int := 3600

  /** bcrypt: `hash(password, rounds, salt)` and `compare(password, hash)`.
      The salt bcrypt draws at random is an explicit argument. */
  datatype Hasher = Hasher(hash: (string, nat, string) -> string, compare: (string, string) -> bool)

  /** A password always compares equal to its own hash. */
  ghost predicate HashLaw(h: Hasher)
  {
    forall p, salt :: h.compare(p, h.hash(p, SaltRounds, salt))
  }

  /** The claims of a token: the user's id and email, and the issue and expiry
      times (seconds since the epoch) that `jwt.sign` adds. */
  datatype Claims = Claims(id: nat, email: string, iat: int, exp: int)

  /** JSON Web Tokens under one fixed secret: `sign(claims)` and
      `verify(token, now)`, which decodes the claims or fails (None). */
  datatype Signer = Signer(sign: Claims -> string, verify: (string, int) -> Option<Claims>)

  /** A signed token verifies to its own claims until its expiry, and fails
      from then on (`jsonwebtoken` rejects once `now >= exp`); a compact token
      is base64url segments joined by dots, so it has no space and is never empty. */
  ghost predicate TokenLaw(j: Signer)
  {
    && (forall c, now :: j.verify(j.sign(c), now) == if now < c.exp then Some(c) else None)
    && (forall c :: ' ' !in j.sign(c) && j.sign(c) != "")
  }

  /** The claims `jwt.sign({ id, email }, secret, { expiresIn: "1h" })` signs at time `now`. */
  function IssueClaims(id: nat, email: string, now: int): (c: Claims)
    ensures c.id == id && c.email == email
    ensures c.exp - c.iat == TokenLifetime && c.iat == now
  {
    Claims(id, email, now, now + TokenLifetime)
  }
}
