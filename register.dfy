/** `POST /api/auth/register`: validate the body, refuse an email already
    in the users table, then store the email with a bcrypt hash of the
    password (10 rounds) and answer with the new id and email only. */
module RegisterRoute {
  import opened Http
  import opened Users
  import opened Crypto

  const HashRounds: nat := 10

  /** The handler. `body` is `None` when the request body does not parse
      as JSON or is JSON `null` (the catch-all answers 500); any other JSON
      value that is not an object reads as credentials whose fields are
      both `None`, hence 400; `salt` is the randomness
      `bcrypt.hash` draws. */
  method Register(users: UserTable, body: Option<Credentials>, bcrypt: Bcrypt, salt: string)
    returns (resp: Response)
    requires users.Valid()
    modifies users
    ensures users.Valid()
    ensures body.None? ==> resp == InternalError && unchanged(users)
    ensures body.Some? && !CredentialsGiven(body.value) ==>
              resp == Response(400, Message("Missing email or password")) && unchanged(users)
    // a taken email is refused whatever the password
    ensures body.Some? && CredentialsGiven(body.value) &&
            FindByEmail(old(users.rows), body.value.email.value).Some? ==>
              resp == Response(400, Message("User already exists")) && unchanged(users)
    ensures body.Some? && CredentialsGiven(body.value) &&
            FindByEmail(old(users.rows), body.value.email.value).None? ==>
              var email := body.value.email.value;
              var stored := UserRow(old(users.nextId), email, bcrypt.hash(body.value.password.value, HashRounds, salt));
              users.rows == old(users.rows) + [stored] &&
              resp == Response(201, UserRegistered("User registered successfully", stored.id, email))
    ensures resp.status != 201 ==> unchanged(users)
    ensures EmailsUnique(old(users.rows)) ==> EmailsUnique(users.rows)
  {
    if body.None? {
      return InternalError;
    }
    var email, password := body.value.email, body.value.password;
    if !Given(email) || !Given(password) {
      return Response(400, Message("Missing email or password"));
    }
    if FindByEmail(users.rows, email.value).Some? {
      return Response(400, Message("User already exists"));
    }
    var hashed := bcrypt.hash(password.value, HashRounds, salt);
    var row := users.Insert(email.value, hashed);
    resp := Response(201, UserRegistered("User registered successfully", row.id, row.email));
  }
}
