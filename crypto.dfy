/** The two foreign libraries, bcryptjs and jsonwebtoken, as abstract
    functions handed to the handlers. Nothing is assumed about them except
    where a lemma states it as a hypothesis. */
module Crypto {

  /** The payload a login token is signed over. */
  datatype Claims = Claims(id: nat, email: string)

  /** `bcrypt.hash(password, rounds)` with the random salt it draws made an
      explicit argument, and `bcrypt.compare(password, hash)`. */
  datatype Bcrypt = Bcrypt(
    hash: (string, nat, string) -> string,
    compare: (string, string) -> bool)

  /** `jwt.sign(claims, secret, { expiresIn })` and `jwt.verify(token,
      secret)`, the latter true when it does not throw. */
  datatype Jwt = Jwt(
    sign: (Claims, string, string) -> string,
    verify: (string, string) -> bool)

  /** The bcrypt contract: a password matches every hash made from it. */
  ghost predicate CompareAcceptsOwnHash(b: Bcrypt) {
    forall password, rounds, salt :: b.compare(password, b.hash(password, rounds, salt))
  }

  /** A token just signed with `secret` verifies under `secret` (before it
      expires; there is no clock in this model). */
  ghost predicate VerifyAcceptsFreshToken(j: Jwt, secret: string, expiresIn: string) {
    forall c :: j.verify(j.sign(c, secret, expiresIn), secret)
  }
}
