# Authguard request gating and registration, modelled in Dafny

Authguard is a small Express server that registers accounts and checks
JWT session tokens. Every request passes two global middlewares in order:
an input check (a zod schema over the JSON body) and then a per-user rate
limiter keyed by the body's `userName`. Only then does the request reach
the `/sign-up` handler (look the name up, create the account and return a
token signed with the user's password, or report that the account exists)
or the `/login` handler (verify the presented token with the presented
password: 200 or 401).

This project models that core as one sequential state machine. The state
is the rate table (`map<string, int>`) together with the account store (a
sequence of records); `Service.Handle` is a pure step from a state and a
request to a reply and a new state, `Service.ResetWindow` is the periodic
clearing of the rate table, and `Service.Run` folds a sequence of requests
and window resets.

Modules, one per component: `RateLimiter` (the counter table),
`Validation` (the body schema), `Accounts` (the store: lookup and append),
`Tokens` (symbolic sign/verify), `Registration` (the sign-up handler),
`Service` (the pipeline and login reply), `ServiceProperties` (lemmas over
requests and request sequences), `JsCounterTable` (the rate table with
JavaScript object semantics, see Findings), `Wrappers` (Option/Result).

Modelling decisions:
- The limiter refuses when the recorded count is `> 5` (index.js:41), so
  six requests per user and window pass and the seventh gets 429. The
  comment at index.js:32 says "up to 5"; the model follows the code, and
  `RateLimiter.SixAdmittedSeventhDenied` pins the boundary.
- The middlewares are global (index.js:29-30), so login requests are also
  validated and rate limited on their body; the model does the same.
- The email grammar belongs to the validation library and is not visible;
  it is the parameter `isEmail: string -> bool` of every operation.
- A token is `Token(userName, secret)`; signing at sign-up uses the
  user's password as the secret (index.js:139). A missing or unparsable
  authorization header is `None`, and so is a missing password header.

## Model

| member | source | states |
|---|---|---|
| RateLimiter.Admit | index.js:35-56 | a request proceeds iff its user's recorded count (0 when absent) is at most 5; if it proceeds that count becomes one more, if refused the table is unchanged; no other user's entry changes; counts stay within [1, 6] |
| RateLimiter.Reset | index.js:58-60 | after the window reset no user has a recorded count, so every user's next request proceeds, and the table satisfies the [1, 6] bound |
| RateLimiter.BurstBoundary | index.js:39-55 | in a run of n requests from one user, the i-th proceeds iff the starting count plus i is at most 5; the count ends at min(start + n, 6); other users untouched |
| RateLimiter.SixAdmittedSeventhDenied | index.js:39-55 | for a user with no entry, seven requests in one window give six admissions and then a refusal |
| RateLimiter.ResetGrantsFreshWindow | index.js:39-60 | after the reset any user, including one refused before it, is recorded with count 1 on the next request and gets six admissions before the seventh is refused |
| Validation.Validate | index.js:63-84 | a body is accepted iff email is a string the email grammar accepts, userName is a string (empty allowed), password is a string of length at least 8 and age is a number; accepted data re-encodes to exactly the body |
| Validation.EncodeThenValidate | index.js:65-74 | validating the body built from registration data returns that data iff the email and password-length rules hold |
| Accounts.FindOne | index.js:114-124 | the lookup finds a record with the name iff one exists, and what it returns is a stored record with that name |
| Accounts.DoesExist | index.js:114-124 | true iff some stored record has the user name; absence is a plain false |
| Accounts.UniqueCountAtMostOne | index.js:133-145 | in a store without duplicate names each name has at most one record |
| Accounts.CountPositiveIffExists | index.js:114-124 | the number of records with a name is positive iff a record with that name exists |
| Registration.SignUp | index.js:127-146 | an existing name gets "already exists" and the store is unchanged; a new name gets exactly one appended record with its name, password, email and age, and a token signed with the password; no other name's record count changes; duplicate-freedom is preserved |
| Registration.SignUpTwiceOneRecord | index.js:133-145 | signing up the same new name twice in a row issues a token, then reports the account exists, leaving exactly one record |
| Registration.IssuedTokenVerifiesOnlyWithPassword | index.js:139-161 | the token issued at sign-up verifies with a presented secret iff it is the registered password and not empty |
| Tokens.Sign | index.js:139 | the signed token verifies with a presented secret iff it equals the signing secret and is not empty, and then yields the signed user name |
| Tokens.Verify | index.js:153-161 | verification succeeds iff a token is presented and the presented secret is non-empty and the one it was signed with, yielding its user name; a missing token fails, and a missing or empty secret is refused outright |
| Tokens.SignThenVerify | index.js:139-155 | a token signed with a non-empty secret verifies with a presented secret iff the two are equal, and then yields the signed user name |
| Service.LoginReply | index.js:149-162 | login replies "logged in" (200) iff the token is present and the presented password is its signing secret and not empty; every other case, an empty password header included, is Unauthorised (401) |
| Service.Handle | index.js:29-162 | the reply is 422 iff the body fails validation and 429 iff it validates and its user's count exceeds 5; both leave the state unchanged; a validated request updates the table as the limiter does; an admitted sign-up gets "already exists" iff a record with its name exists and otherwise a token signed with its password; an admitted login gets 200 iff the token is present and the presented password is its non-empty secret, else 401; only an issued token appends a record; the bounded-count and no-duplicate invariant is preserved |
| ServiceProperties.StatusByCause | index.js:29-162 | the status of every reply by its cause: 422 iff the body fails validation (index.js:82), 429 iff it validates and its user is over the limit (index.js:43), 401 iff an admitted login's token does not verify (index.js:160), and 200 for every other request (Express's default) |
| Service.Initial | index.js:33 | the server starts with an empty rate table (every user's count is 0) over whatever records the persistent store already holds; it satisfies the invariant whenever those records have no duplicate names |
| Service.Run | index.js:58-60 | processing requests and window resets in order yields one reply per arriving request, and the store only grows, by at most one record per reply |
| Service.ResetWindow | index.js:58-60 | the window reset empties every recorded count, keeps the store, admits every user's next request and preserves the invariant |
| ServiceProperties.WindowThrottle | index.js:29-55 | within one window, the i-th request gets 429 iff it validates and its user's starting count plus the number of earlier validated requests from that user exceeds 5 |
| ServiceProperties.SeventhRequestThrottled | index.js:39-55 | a run of valid requests from a user without an entry: the first six pass the limiter and every later one gets 429 |
| ServiceProperties.RunPreservesInv | index.js:133-145 | after any sequence of requests and window resets the counts stay in [1, 6] and no user name has more than one record |
| ServiceProperties.InvalidInputBeforeRateLimit | index.js:29-30 | an invalid body naming a user already over the limit still gets 422 (not 429), and consumes no rate slot |
| ServiceProperties.ResetReadmits | index.js:58-60 | after the reset a valid request is never refused with 429 and its user's count restarts at 1 |
| ServiceProperties.SignUpTwice | index.js:133-145 | two identical sign-ups for a new name, both admitted by the limiter, return a token then "already exists", and the store gains exactly that one record |
| ServiceProperties.LoginWithIssuedToken | index.js:139-161 | the token from a sign-up logs in (200) iff the login presents the registered password; otherwise 401 |
| JsCounterTable.JsAdmit | index.js:33-56 | the limiter on an object-literal table: throws once "hasOwnProperty" has an entry, passes "__proto__" without recording it, and otherwise agrees with RateLimiter.Admit |
| JsCounterTable.ProtoKeyNeverThrottled | index.js:47-53 | as written, any number of requests from "__proto__" in one window all pass and the table is unchanged |
| JsCounterTable.ProtoKeyCounterexample | index.js:39-55 | seven requests from "__proto__": the seventh passes as written but is refused by the plain-map limiter |
| JsCounterTable.OwnCheckKeyBreaksLimiter | index.js:39-53 | as written, after one request from "hasOwnProperty" every user's next limiter call throws; the plain-map limiter admits it |

## Left out

- HTTP plumbing: routing, JSON body parsing, the listener and the catch-all 400 handler (index.js:25-28, 164-174). Only the two routes' replies are modelled; the 400 appears only in the Findings discussion.
- Database connection, schema and configuration loading (index.js:86-100): replaced by an in-memory sequence of records.
- The timer that resets the rate table every second (index.js:58-60): modelled as the explicit `WindowElapsed` event, with no clock.
- JWT cryptography, encoding, algorithms and expiry (index.js:139, 155): tokens are symbolic pairs of claim and secret. A missing or empty presented secret is refused, as the library does for a signed token.
- The email grammar of the validation library: a parameter predicate.
- Tokens.Verify: assumes a token library that refuses unsigned tokens. Releases of jsonwebtoken up to 8.5.1 accept a token with algorithm "none" when the secret is missing or empty (CVE-2022-23540), so there a login without a password header could get 200. No package manifest pins the version, and unsigned tokens are not modelled.
- RateLimiter.Admit: the pipeline uses a plain map as the rate table. The object-literal behaviour for the user names "__proto__" and "hasOwnProperty" is modelled only in `JsCounterTable` (see Findings).
- Validation.Validate: a number is an unbounded integer, so fractional ages and the library's treatment of special numbers are not modelled; password length is counted in characters of `string`, not in UTF-16 code units as JavaScript counts it.
- Registration.SignUp: record creation is not awaited in the source (index.js:137) and may fail or race with a concurrent sign-up of the same name; the model completes the creation within the step and is sequential, so the duplicate-account race is not modelled.
- Requests to any other route. They still pass both global middlewares (index.js:29-30), so a valid body consumes a rate slot before the 404; `ServiceProperties.WindowThrottle` counts only requests to the two modelled routes.
- Bodies that carry extra fields: the schema ignores them, so they do not change the outcome.

## Findings

| source | as written | input that shows it | evidently intended | confidence | as-written member | corrected member |
|---|---|---|---|---|---|---|
| index.js:47-53 | the rate table is an object literal, so `userVisitCount["__proto__"] = 1` hits the prototype setter, which ignores numbers; the name never gets an entry | seven requests with `userName` "__proto__" in one window: all pass | every user name is throttled after six requests per window | not executed; high (standard JavaScript object semantics) | JsCounterTable.ProtoKeyCounterexample | RateLimiter.SixAdmittedSeventhDenied |
| index.js:39 | the limiter calls `userVisitCount.hasOwnProperty(...)` on the table itself; an entry named "hasOwnProperty" shadows the method with a number | one request with `userName` "hasOwnProperty", then a request from any user in the same window: the call throws and the catch-all answers 400 | the membership test is unaffected by which names are stored | not executed; high (standard JavaScript object semantics) | JsCounterTable.OwnCheckKeyBreaksLimiter | RateLimiter.Admit |
