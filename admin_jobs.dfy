/** `POST /api/jobs/admin`: create a job posting. The handler is a chain of
    early returns: a `Bearer ` Authorization header, a token that verifies,
    all five fields given, and only then one insert into the jobs table. */
module AdminJobs {
  import opened Http
  import opened Jobs
  import opened Text
  import opened Crypto

  const BearerPrefix: string := "Bearer "

  /** The JSON body of the request; `None` stands for a field the body
      lacks (or sets to null). */
  datatype JobRequest = JobRequest(
    title: Option<string>,
    company: Option<string>,
    location: Option<string>,
    jobType: Option<string>,
    description: Option<string>)

  /** None of the five fields is missing or empty. */
  predicate AllFieldsGiven(req: JobRequest) {
    Given(req.title) && Given(req.company) && Given(req.location) &&
    Given(req.jobType) && Given(req.description)
  }

  /** The token a request presents: nothing when the Authorization header
      is absent or does not start with `Bearer `, and otherwise
      `authHeader.split(' ')[1]`, the text after the prefix up to the next
      space. */
  function PresentedToken(authorization: Option<string>): (t: Option<string>)
    ensures t.Some? <==> authorization.Some? && StartsWith(authorization.value, BearerPrefix)
    ensures t.Some? ==> t.value == TakeUntil(authorization.value[|BearerPrefix|..], ' ')
  {
    if authorization.None? || !StartsWith(authorization.value, BearerPrefix) then
      None
    else
      var h := authorization.value;
      var after := h[|BearerPrefix|..];
      assert h == "Bearer" + [' '] + after;
      SplitAfterPiece("Bearer", after, ' ');
      SplitHead(after, ' ');
      Some(Split(h, ' ')[1])
  }

  /** A space-free token sent as `Bearer <token>` is the token presented. */
  lemma PresentedTokenOfBearer(token: string)
    requires ' ' !in token
    ensures PresentedToken(Some(BearerPrefix + token)) == Some(token)
  {
    var h := BearerPrefix + token;
    assert h[..|BearerPrefix|] == BearerPrefix;
    assert h[|BearerPrefix|..] == token;
    TakeUntilAll(token, ' ');
  }

  lemma PresentedTokenExamples()
    ensures PresentedToken(Some("Bearer abc")) == Some("abc")
    ensures PresentedToken(Some("Bearer ")) == Some("")
  {
    PresentedTokenOfBearer("abc");
    assert BearerPrefix + "abc" == "Bearer abc";
    PresentedTokenOfBearer("");
    assert BearerPrefix + "" == "Bearer ";
  }

  /** Only the first space-separated word after the prefix is presented. */
  lemma PresentedTokenStopsAtSpace()
    ensures PresentedToken(Some("Bearer a b")) == Some("a")
  {
    var h := "Bearer a b";
    assert h[..|BearerPrefix|] == BearerPrefix;
    assert h[|BearerPrefix|..] == "a b";
    assert "a b"[1..] == " b" && " b"[0] == ' ';
    assert TakeUntil("a b", ' ') == ['a'] + TakeUntil(" b", ' ') == "a";
  }

  /** Any other scheme, or a missing header, presents no token. */
  lemma PresentedTokenRejects()
    ensures PresentedToken(Some("Token abc")) == None
    ensures PresentedToken(Some("bearer abc")) == None
    ensures PresentedToken(Some("")) == None
    ensures PresentedToken(None) == None
  {
    assert "Token abc"[0] != BearerPrefix[0];
    assert "bearer abc"[0] != BearerPrefix[0];
  }

  /** The request carries a token that verifies under `secret`. */
  predicate Authorized(authorization: Option<string>, jwt: Jwt, secret: string) {
    var t := PresentedToken(authorization);
    t.Some? && jwt.verify(t.value, secret)
  }

  /** The handler. `body` is `None` when the request body does not parse
      as JSON or is JSON `null` (the handler's catch-all answers 500); any
      other JSON value that is not an object reads as a request whose
      fields are all `None`, hence 400; `now` is the store's
      clock at insert time. */
  method CreateJob(jobs: JobTable, authorization: Option<string>, body: Option<JobRequest>,
                   jwt: Jwt, secret: string, now: string) returns (resp: Response)
    requires jobs.Valid()
    modifies jobs
    ensures jobs.Valid()
    // authorization is decided before the body is looked at
    ensures !Authorized(authorization, jwt, secret) ==> resp.status == 401 && unchanged(jobs)
    ensures PresentedToken(authorization).None? ==>
              resp == Response(401, Message("Unauthorized"))
    ensures PresentedToken(authorization).Some? && !Authorized(authorization, jwt, secret) ==>
              resp == Response(401, Message("Invalid token"))
    ensures Authorized(authorization, jwt, secret) && body.None? ==>
              resp == InternalError && unchanged(jobs)
    ensures Authorized(authorization, jwt, secret) && body.Some? && !AllFieldsGiven(body.value) ==>
              resp == Response(400, Message("Missing job fields")) && unchanged(jobs)
    ensures Authorized(authorization, jwt, secret) && body.Some? && AllFieldsGiven(body.value) ==>
              var r := body.value;
              var row := Job(old(jobs.nextId), r.title.value, r.company.value, r.location.value,
                             r.jobType.value, r.description.value, now);
              jobs.rows == old(jobs.rows) + [row] &&
              (forall j :: j in old(jobs.rows) ==> j.id != row.id) &&
              resp == Response(201, JobCreated("Job created successfully", row))
  {
    var token := PresentedToken(authorization);
    if token.None? {
      return Response(401, Message("Unauthorized"));
    }
    if !jwt.verify(token.value, secret) {
      return Response(401, Message("Invalid token"));
    }
    if body.None? {
      return InternalError;
    }
    var r := body.value;
    if !AllFieldsGiven(r) {
      return Response(400, Message("Missing job fields"));
    }
    var row := jobs.Insert(r.title.value, r.company.value, r.location.value,
                           r.jobType.value, r.description.value, now);
    resp := Response(201, JobCreated("Job created successfully", row));
  }
}
