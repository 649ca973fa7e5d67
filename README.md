# Job board: request decisions and job-list filtering in Dafny

This project models the small core of a job-board web application. The
rest of the application is React rendering and database glue.

- **Job-list filtering** (`JobList`, over `Seqs` and `Text`). The client
  component builds the distinct job types and locations from the jobs it
  is given (`Array.from(new Set(...))`). It narrows those option lists by
  a case-insensitive substring search. It shows the jobs that match the
  selected type and location, where an empty selection means "no filter".
  Its six `useState` variables become the fields of the class
  `FilterPanel`, and each click or typing handler becomes a method.
- **Posting a job** (`AdminJobs`). `POST /api/jobs/admin` is a chain of
  early returns: a `Bearer ` Authorization header, then a token that
  verifies, then five non-empty fields, then exactly one insert into the
  jobs table (`Jobs.JobTable`).
- **Registration** (`RegisterRoute`). The handler validates the body and
  refuses an email already in the users table (`Users.UserTable`). It then
  inserts the email together with a bcrypt hash (10 rounds) of the
  password. The response carries only the new id and the email.
- **Login** (`LoginRoute`). This is a read-only decision. A missing field
  gives 400. An unknown email and a wrong password give the same 401. A
  valid pair gives 200 and a token signed over `{id, email}` with a
  lifetime of one hour.
- **Scenario** ties the three handlers together: register, log in, then
  post a job with the token the login returned.

bcryptjs and jsonwebtoken are foreign libraries. Here they are records of
abstract functions (`Crypto.Bcrypt`, `Crypto.Jwt`) passed to the handlers.
Their contracts are not axioms. They are hypotheses of the lemmas that
need them: `CompareAcceptsOwnHash` says a password matches its own hash,
and `VerifyAcceptsFreshToken` says a freshly signed token verifies.
Other outside inputs are parameters too: the random salt `bcrypt.hash`
draws, the store's clock (`now`), and the signing secret. The tables are
sequences of rows in insertion order, and each table has a serial id
counter.

## Model

| member | source | states |
|---|---|---|
| Seqs.Distinct | app/components/JobListWithFilter.tsx:31-32 | The distinct-values list has no duplicates. It holds exactly the values of the input. Its values are ordered by their first appearance in the input, the order a JavaScript `Set` enumerates them. |
| Seqs.DistinctUnique | app/components/JobListWithFilter.tsx:31-32 | Those three properties determine the list: any duplicate-free list of the same values in first-appearance order equals `Distinct`. |
| Seqs.SubseqNoDuplicates | app/components/JobListWithFilter.tsx:35-40 | A subsequence of a duplicate-free list is duplicate-free. |
| JobList.JobTypeOptionsSpec | app/components/JobListWithFilter.tsx:31 | `jobTypeOptions` has no duplicates. A type is in it iff some job has that `job_type`. Types are ordered by the first job that has them. |
| JobList.LocationOptionsSpec | app/components/JobListWithFilter.tsx:32 | The same holds for `locationOptions` over `location`. |
| Text.ContainsEmpty | app/components/JobListWithFilter.tsx:36 | Every string `includes` the empty string. |
| Text.LowerOfUpper | app/components/JobListWithFilter.tsx:36 | Lower-casing an upper-cased string equals lower-casing the original, for ASCII letters. |
| JobList.FilterOptions | app/components/JobListWithFilter.tsx:35-40 | The narrowed options are a subsequence of the options. An option is kept iff its lower-cased text contains the lower-cased search. |
| JobList.FilterOptionsNoDuplicates | app/components/JobListWithFilter.tsx:35-40 | Narrowing a duplicate-free option list keeps it duplicate-free. |
| JobList.FilterOptionsEmptySearch | app/components/JobListWithFilter.tsx:35-40 | An empty search keeps every option, in order. |
| JobList.FilterOptionsIgnoresCase | app/components/JobListWithFilter.tsx:35-40 | Two searches that lower-case alike keep exactly the same options. |
| JobList.FilterOptionsUpperCaseSearch | app/components/JobListWithFilter.tsx:35-40 | Typing the search in capitals keeps exactly the same options. |
| JobList.FilterJobs | app/components/JobListWithFilter.tsx:43-47 | `filteredJobs` is an order-preserving subsequence of `jobs`. A job is in it iff it matches both selections, where an empty selection matches everything. Each kept job appears as often as in `jobs`. |
| JobList.FilterJobsNoSelection | app/components/JobListWithFilter.tsx:43-47 | With both selections empty, `filteredJobs` equals `jobs`. |
| JobList.FilterJobsIdempotent | app/components/JobListWithFilter.tsx:43-47 | Applying the same filter to `filteredJobs` returns it unchanged. |
| JobList.FilterJobsComposes | app/components/JobListWithFilter.tsx:43-47 | Filtering by type and location equals filtering by type alone, then by location alone. |
| JobList.FilterJobsLocationNarrows | app/components/JobListWithFilter.tsx:43-47 | Adding a location selection yields a subsequence of the type-only result, never a longer list. |
| JobList.OfferedTypeMatchesSomeJob | app/components/JobListWithFilter.tsx:31-47 | Selecting any offered job type, with no location selected, leaves at least one job shown. |
| JobList.OfferedLocationMatchesSomeJob | app/components/JobListWithFilter.tsx:31-47 | Selecting any offered location, with no type selected, leaves at least one job shown. |
| JobList.FilterPanel.constructor | app/components/JobListWithFilter.tsx:21-28 | All four strings start empty and both dropdowns start closed, so every job is shown. |
| JobList.FilterPanel.ClearFilters | app/components/JobListWithFilter.tsx:50-57 | All four strings become empty and both dropdowns close. Afterwards every job and every option is shown. |
| JobList.FilterPanel.ToggleTypeDropdown | app/components/JobListWithFilter.tsx:66 | The job-type dropdown flips between open and closed. Nothing else changes. |
| JobList.FilterPanel.SetTypeSearch | app/components/JobListWithFilter.tsx:77 | The job-type search becomes the typed text, and the type options are narrowed by it. Nothing else changes. |
| JobList.FilterPanel.SelectType | app/components/JobListWithFilter.tsx:87-91 | The option becomes the selected type, the dropdown closes and the search clears. The location state is unchanged. Every shown job matches the selected type. With no location selected, an offered type shows at least one job. |
| JobList.FilterPanel.ClearTypeFilter | app/components/JobListWithFilter.tsx:100-104 | The type selection and search become empty and the dropdown closes. The location state is unchanged. |
| JobList.FilterPanel.ToggleLocationDropdown | app/components/JobListWithFilter.tsx:117 | The location dropdown flips between open and closed. Nothing else changes. |
| JobList.FilterPanel.SetLocationSearch | app/components/JobListWithFilter.tsx:128 | The location search becomes the typed text, and the location options are narrowed by it. Nothing else changes. |
| JobList.FilterPanel.SelectLocation | app/components/JobListWithFilter.tsx:138-142 | The option becomes the selected location, the dropdown closes and the search clears. The job-type state is unchanged. Every shown job matches the selected location. |
| JobList.FilterPanel.ClearLocationFilter | app/components/JobListWithFilter.tsx:151-155 | The location selection and search become empty and the dropdown closes. The job-type state is unchanged. |
| Text.JoinSplit | app/api/jobs/admin/route.ts:17 | `split(' ')` loses nothing: no piece contains the separator, and joining the pieces gives back the header. |
| Text.SplitJoin | app/api/jobs/admin/route.ts:17 | Conversely, splitting the join of separator-free pieces gives back the pieces. |
| Text.SplitHead | app/api/jobs/admin/route.ts:17 | The first piece of a split is the text before the first separator. |
| AdminJobs.PresentedToken | app/api/jobs/admin/route.ts:13-17 | A token is presented iff the header is present and starts with `Bearer `. The token is then the text after the prefix up to the next space. |
| AdminJobs.PresentedTokenOfBearer | app/api/jobs/admin/route.ts:17 | For a token without spaces, `Bearer <token>` presents exactly that token. |
| AdminJobs.PresentedTokenExamples | app/api/jobs/admin/route.ts:17 | `"Bearer abc"` presents `"abc"`, and `"Bearer "` presents `""`. |
| AdminJobs.PresentedTokenStopsAtSpace | app/api/jobs/admin/route.ts:17 | `"Bearer a b"` presents only `"a"`. |
| AdminJobs.PresentedTokenRejects | app/api/jobs/admin/route.ts:13-16 | Another scheme, a lower-case `bearer`, an empty header and a missing header all present nothing. |
| Jobs.JobTable.Insert | app/api/jobs/admin/route.ts:31-34 | Exactly one row is appended. It carries the five fields, a fresh id and the store's time. Existing rows are untouched. |
| AdminJobs.CreateJob | app/api/jobs/admin/route.ts:10-44 | Without a token the result is 401 "Unauthorized". With a failing token it is 401 "Invalid token". Both are decided before the body is read. With a body that does not parse as JSON, or is JSON `null`, the result is 500. With a missing or empty field it is 400 "Missing job fields". In all those cases the table is unchanged. Otherwise one row with the five fields is appended and the response is 201 with that row. |
| Users.FindByEmail | app/api/auth/login/route.ts:24-33 | The lookup finds nothing iff no row has the email. Otherwise it returns a row of the table with that email. |
| Users.FindByEmailAppend | app/api/auth/login/route.ts:24-33 | Appending a row changes a lookup only for an email no earlier row has, so the earliest row wins. |
| Users.FindByEmailUnique | app/api/auth/login/route.ts:24-33 | With unique emails, the lookup returns the one row that has the email. |
| Users.UserTable.Insert | app/api/auth/register/route.ts:35-38 | Exactly one row `(fresh id, email, hash)` is appended. Existing rows are untouched. |
| RegisterRoute.Register | app/api/auth/register/route.ts:5-58 | A body that does not parse as JSON, or is JSON `null`, gives 500. A missing or empty email or password gives 400 "Missing email or password". A taken email gives 400 "User already exists" whatever the password. In all those cases the table is unchanged. Otherwise one row `(id, email, hash(password, 10, salt))` is appended, never the plaintext, and the response is 201 with only the id and email. Email uniqueness is preserved. |
| LoginRoute.Login | app/api/auth/login/route.ts:10-70 | The status is 500 iff the body does not parse as JSON or is JSON `null`, and 400 iff a field is missing or empty. Every 401 is the single response "Invalid email or password". A 200 means the first row with the email exists and its hash accepts the password. The token is then signed over that row's `{id, email}` with lifetime `1h`. The table is only read. |
| LoginRoute.NoAccountEnumeration | app/api/auth/login/route.ts:26-42 | An unknown email and a known email with a wrong password get the identical 401 response. |
| LoginRoute.LoginSucceedsIff | app/api/auth/login/route.ts:24-62 | With unique emails, login returns 200 iff some account has the email and its hash accepts the password. The token then carries that account's id and the given email. |
| LoginRoute.RegisterThenLogin | app/api/auth/login/route.ts:24-62 | After the row a successful registration appends, login with the same email and password returns 200 and a token for the new account. This assumes only that bcrypt's compare accepts a password's own hash. |
| Scenario.RegisterLoginPost | app/api/jobs/admin/route.ts:13-39 | Register, then login, then posting a complete job with `Bearer <token>` give 201, 200 and 201. The job table grows by exactly the posted row. |

## Left out

- Rendering, styling and date formatting of the job list are not modelled (`toLocaleDateString`, the "No options found" and "No jobs match" texts). They are presentation only.
- `toLowerCase` is modelled for ASCII letters only. Unicode case mapping is not modelled.
- React batches the `setState` calls of one handler. The model assigns the fields in order; the final state is the same.
- An option can only be clicked while its dropdown is open and the option is shown. The handler does not check this, so `SelectType` and `SelectLocation` accept any string.
- Database errors that the handlers' catch-all turns into 500 are not modelled. The only 500 modelled is a request body that does not parse as JSON or is JSON `null`, because reading a field of it throws. Any other JSON value that is not an object (a number, a string, an array) reads as a body whose fields are all absent, so it gets the 400 for missing fields.
- JSON fields that are neither a string nor absent (numbers, booleans) are not modelled. A field is either absent/null (`None`) or a string; the empty string is rejected as JavaScript truthiness does.
- bcrypt hashing and comparison, and JWT signing and verification, are abstract functions. Token expiry has no clock here; only the `expiresIn` argument `"1h"` is recorded.
- The module-load check that `JWT_SECRET` is set is not modelled. The secret is a parameter of the handlers.
- The `users` table schema is not part of this model, so neither is any database uniqueness constraint. Registration checks the email and then inserts it. Two concurrent registrations of one email could both pass the check; requests are modelled one at a time.
- `SELECT ... WHERE email = $1` has no `ORDER BY`. Its first row is modelled as the earliest inserted row with that email.
- `GET /api/jobs` (app/api/jobs/route.ts) is a single SQL query whose ordering is done by the database. It is not part of this model.
- `DELETE /api/jobs/admin/[jobId]` (app/api/jobs/admin/[jobId]/route.ts) is not part of this model.
- The dashboard, home page, navigation bar, layout and database pool (app/dashboard/page.tsx, app/page.tsx, app/components/Navbar.tsx, app/layout.tsx, app/lib/db.ts) are UI and connection glue. They are not part of this model.
- The job-creation handler discards the payload decoded from the token. It checks only that verification succeeds, and the model does the same.
