/** The token codec and the other cryptographic primitives. They are not
    modelled: each is an uninterpreted function, and `Sound` states the only
    facts the session core relies on. */
module TokenCodec {
  import opened Common

  /** The JWT payload fields the core reads; `exp` is in whole seconds. */
  datatype Claims = Claims(sub: Option<string>, exp: Option<int>)

  datatype Primitives = Primitives(
    encodeJwt: Claims -> string,                      // jwt.encode with the service key
    decodeJwt: (string, Instant) -> Option<Claims>,   // jwt.decode at an instant; None: PyJWTError
    sha256Hex: string -> string,                      // hashlib.sha256(...).hexdigest()
    hashpw: (string, string) -> string,               // bcrypt.hashpw(password, salt)
    checkpw: (string, string) -> bool)                // bcrypt.checkpw(password, hash)

  /** A token the service signed decodes to its own claims strictly before
      its `exp` second and is refused from then on (PyJWT rejects when
      `exp <= now`); nothing decodes at or after its own `exp`; a password
      verifies against its own bcrypt hash; and what a token decodes to does
      not depend on the instant, only whether it decodes does. */
  ghost predicate Sound(c: Primitives) {
    && (forall cl: Claims, now: Instant :: cl.exp.Some? ==>
          c.decodeJwt(c.encodeJwt(cl), now) == if now < cl.exp.value * Second then Some(cl) else None)
    && (forall t: string, now: Instant ::
          c.decodeJwt(t, now).Some? && c.decodeJwt(t, now).value.exp.Some? ==>
            now < c.decodeJwt(t, now).value.exp.value * Second)
    && (forall p: string, salt: string :: c.checkpw(p, c.hashpw(p, salt)))
    && (forall t: string, a: Instant, b: Instant ::
          c.decodeJwt(t, a).Some? && c.decodeJwt(t, b).Some? ==> c.decodeJwt(t, a) == c.decodeJwt(t, b))
  }
}
