/** The three handlers used together the way the application uses them:
    register an account, log in with it, and post a job with the token the
    login returned. */
module Scenario {
  import opened Http
  import opened Jobs
  import opened Users
  import opened Crypto
  import opened RegisterRoute
  import opened LoginRoute
  import opened AdminJobs

  /** Given a bcrypt whose compare accepts a password's own hash, a jwt
      whose fresh tokens verify and contain no space (a signed JWT is
      dot-separated base64url), a new email and a complete job, all three
      calls succeed and the job table grows by exactly the posted job. */
  method RegisterLoginPost(users: UserTable, jobs: JobTable, email: string, password: string,
                           salt: string, req: JobRequest, bcrypt: Bcrypt, jwt: Jwt,
                           secret: string, now: string)
    returns (registered: Response, loggedIn: Response, posted: Response)
    requires users.Valid() && jobs.Valid()
    requires CompareAcceptsOwnHash(bcrypt)
    requires VerifyAcceptsFreshToken(jwt, secret, TokenLifetime)
    requires forall c :: ' ' !in jwt.sign(c, secret, TokenLifetime)
    requires email != "" && password != "" && FindByEmail(users.rows, email).None?
    requires AllFieldsGiven(req)
    modifies users, jobs
    ensures users.Valid() && jobs.Valid()
    ensures registered == Response(201, UserRegistered("User registered successfully", old(users.nextId), email))
    ensures loggedIn == Response(200, LoggedIn("Login successful",
                                               jwt.sign(Claims(old(users.nextId), email), secret, TokenLifetime)))
    ensures posted.status == 201 && posted.body.JobCreated?
    ensures jobs.rows == old(jobs.rows) + [posted.body.job]
  {
    var credentials := Some(Credentials(Some(email), Some(password)));
    ghost var before := users.rows;
    registered := Register(users, credentials, bcrypt, salt);
    RegisterThenLogin(before, registered.body.id, email, password, HashRounds, salt, bcrypt, jwt, secret);
    loggedIn := Login(users.rows, credentials, bcrypt, jwt, secret);
    var token := loggedIn.body.token;
    PresentedTokenOfBearer(token);
    posted := CreateJob(jobs, Some(BearerPrefix + token), Some(req), jwt, secret, now);
  }
}
