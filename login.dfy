/** `POST /api/auth/login`: a read-only decision over the users table. A
    missing field is a 400; an unknown email and a wrong password get the
    same 401; otherwise a token signed over the account's id and email,
    valid for one hour. */
module LoginRoute {
  import opened Http
  import opened Users
  import opened Crypto

  const TokenLifetime: string := "1h"

  /** The one answer to bad credentials, whichever of the two checks failed. */
  const InvalidCredentials: Response := Response(401, Message("Invalid email or password"))

  /** The handler. It only reads `users`; `body` is `None` when the request
      body does not parse as JSON or is JSON `null` (the catch-all answers
      500); any other JSON value that is not an object reads as credentials
      whose fields are both `None`, hence 400. */
  function Login(users: seq<UserRow>, body: Option<Credentials>, bcrypt: Bcrypt, jwt: Jwt, secret: string)
    : (r: Response)
    ensures r.status in {200, 400, 401, 500}
    ensures r.status == 500 <==> body.None?
    ensures r.status == 400 <==> body.Some? && !CredentialsGiven(body.value)
    ensures r.status == 401 ==> r == InvalidCredentials
    ensures r.status == 200 ==>
              body.Some? && CredentialsGiven(body.value) &&
              var u := FindByEmail(users, body.value.email.value);
              u.Some? && bcrypt.compare(body.value.password.value, u.value.password) &&
              r.body == LoggedIn("Login successful", jwt.sign(Claims(u.value.id, u.value.email), secret, TokenLifetime))
  {
    if body.None? then InternalError
    else if !Given(body.value.email) || !Given(body.value.password) then
      Response(400, Message("Missing email or password"))
    else
      match FindByEmail(users, body.value.email.value)
      case None => InvalidCredentials
      case Some(user) =>
        if !bcrypt.compare(body.value.password.value, user.password) then InvalidCredentials
        else Response(200, LoggedIn("Login successful", jwt.sign(Claims(user.id, user.email), secret, TokenLifetime)))
  }

  /** An unknown email and a known email with a wrong password get exactly
      the same response, so a caller cannot tell which accounts exist. */
  lemma NoAccountEnumeration(users: seq<UserRow>, unknown: Credentials, wrong: Credentials,
                             bcrypt: Bcrypt, jwt: Jwt, secret: string)
    requires CredentialsGiven(unknown) && CredentialsGiven(wrong)
    requires forall u :: u in users ==> u.email != unknown.email.value
    requires exists u :: u in users && u.email == wrong.email.value
    requires forall u :: u in users && u.email == wrong.email.value ==>
               !bcrypt.compare(wrong.password.value, u.password)
    ensures Login(users, Some(unknown), bcrypt, jwt, secret) == InvalidCredentials
    ensures Login(users, Some(wrong), bcrypt, jwt, secret) == InvalidCredentials
  {
  }

  /** With unique emails, login succeeds exactly when some account has the
      email and its stored hash accepts the password; the token it issues
      is signed over that account's id and email. */
  lemma LoginSucceedsIff(users: seq<UserRow>, c: Credentials, bcrypt: Bcrypt, jwt: Jwt, secret: string)
    requires EmailsUnique(users) && CredentialsGiven(c)
    ensures Login(users, Some(c), bcrypt, jwt, secret).status == 200 <==>
              exists i :: 0 <= i < |users| && users[i].email == c.email.value &&
                          bcrypt.compare(c.password.value, users[i].password)
    ensures forall i :: 0 <= i < |users| && users[i].email == c.email.value &&
                        bcrypt.compare(c.password.value, users[i].password) ==>
              Login(users, Some(c), bcrypt, jwt, secret) ==
                Response(200, LoggedIn("Login successful",
                                       jwt.sign(Claims(users[i].id, c.email.value), secret, TokenLifetime)))
  {
    forall i | 0 <= i < |users| && users[i].email == c.email.value
      ensures FindByEmail(users, c.email.value) == Some(users[i])
    {
      FindByEmailUnique(users, i);
    }
  }

  /** The round trip: right after registering `email` with `password`
      (its hash appended as a new row for an email no row had), logging in
      with the same pair succeeds with a token for the new account. This
      needs only the bcrypt contract that a password matches its own hash. */
  lemma RegisterThenLogin(before: seq<UserRow>, id: nat, email: string, password: string,
                          rounds: nat, salt: string, bcrypt: Bcrypt, jwt: Jwt, secret: string)
    requires CompareAcceptsOwnHash(bcrypt)
    requires email != "" && password != ""
    requires FindByEmail(before, email).None?
    ensures Login(before + [UserRow(id, email, bcrypt.hash(password, rounds, salt))],
                  Some(Credentials(Some(email), Some(password))), bcrypt, jwt, secret) ==
              Response(200, LoggedIn("Login successful", jwt.sign(Claims(id, email), secret, TokenLifetime)))
  {
    var row := UserRow(id, email, bcrypt.hash(password, rounds, salt));
    FindByEmailAppend(before, row, email);
    assert bcrypt.compare(password, row.password);
  }
}
