# TaskFlow authentication: a Dafny model

This project models the authentication core of the TaskFlow backend: the
`/auth` router (`/signup`, `/login`, `/tokenIsValid` and `GET /`) and the
`auth` middleware that guards protected routes. The users table is a class
whose rows signup changes in place. Login, tokenIsValid and the body of
`GET /` are pure functions over the rows. The middleware is a method that
either writes a rejecting response itself or admits the request with the
user id and the raw token. Admitting stands for `next()`, called after
`req.user` and `req.token` are set.

Modules, leaves first:

- `Options`: the optional value.
- `Bcrypt`: `Hash(password, salt)` and `Compare(password, digest)`. The
  salt that `bcryptjs.hash` draws at random is a parameter. A stored
  password has the type `Digest`, so a row can never hold the plaintext.
- `Users`: the row type, the `select ... where eq(column, value)` query
  (`Select`), the uniqueness predicates, and the `UserTable` class whose
  `Insert` is refused by the primary key when the id is already present.
- `Jwt`: tokens, `Sign` and `Verify` with the single key `"passwordKey"`.
  A header value is either a well-formed token, abstracted to its claims
  and the key that signed it, or text that does not parse as a token.
  `Verify` returns the claims or `Rejected`. `Rejected` stands for the
  exception `jwt.verify` throws.
- `Http`: status codes and the meaningful part of each JSON body.
- `AuthMiddleware`: the gate `Auth` and the predicates that specify it.
  `ClaimedId` is the id a header's token verifies to. `Authentic` says
  that id belongs to a stored user.
- `AuthRoutes`: the four handlers, the `GET /` chain (gate, then
  handler) and lemmas that relate several calls.

Inputs the handlers get from their environment are parameters:

- the bcrypt salt;
- the id the database generates for a new row;
- the `x-auth-token` header, as `Option<Token>`.

When a header is present but empty, it is `Some(Malformed(""))`, which
`if (!token)` treats as absent.

Three behaviours of the code differ from what a reader of the API might expect; the model follows the code:

- `POST /tokenIsValid` answers 500 when the token does not verify, because
  `jwt.verify` throws into the catch block. It is not a probe that never
  fails.
- The bodies of signup (201) and login (200) carry the stored row,
  password digest included (`returning()` and `...existingUser`).
- Login compares the password only with the first row the query returns
  for that email. The "succeeds exactly when some row matches" lemmas therefore
  assume unique emails.

## Model

| member | source | states |
|---|---|---|
| `Bcrypt.CompareHash` | backend/src/routes/auth.ts:72 | a password matches the digest produced from it, for every salt |
| `Jwt.VerifySign` | backend/src/middleware/auth.ts:27 | a token signed for an id with the key verifies under that key to exactly that id |
| `Jwt.VerifyOtherKey` | backend/src/routes/auth.ts:98 | a token signed with any other key is rejected (the throw) |
| `Jwt.VerifiedOnlyIfSigned` | backend/src/middleware/auth.ts:27-35 | a token verifies to an id if and only if it is the token signed for that id with the key |
| `Users.Select` | backend/src/routes/auth.ts:29-32 | the query returns exactly the rows of the table that satisfy the filter, each at most as often as the table holds it, and no more rows than the table has |
| `Users.Matches` | backend/src/routes/auth.ts:32 | the `eq(column, value)` condition: a row matches an email filter when its email is that value, and an id filter when its id is that value |
| `Users.SelectNone` | backend/src/routes/auth.ts:34 | a query that no row satisfies returns the empty result |
| `Users.SelectAtMostOne` | backend/src/routes/auth.ts:62-65 | on a unique key (email under the signup invariant, id under the primary key) the query returns at most one row |
| `Users.SelectMember` | backend/src/routes/auth.ts:62-65 | on a unique key, the query for a stored row's key returns exactly that row, so `[existingUser]` is that row |
| `Users.SelectAppend` | backend/src/routes/auth.ts:47 | after an insert, a query returns its old result followed by the new row exactly when the new row matches |
| `Users.AppendKeepsEmailsUnique` | backend/src/routes/auth.ts:34-47 | appending a row whose email is not taken keeps emails unique |
| `Users.AppendKeepsIdsUnique` | backend/src/routes/auth.ts:47 | appending a row whose id is not taken keeps the primary key unique |
| `Users.UserTable.Insert` | backend/src/routes/auth.ts:47 | with a fresh id, the row is appended and returned; with a taken id, the insert fails and the table is unchanged; the primary key holds afterwards |
| `AuthRoutes.NewRow` | backend/src/routes/auth.ts:41-47 | the row signup inserts carries the generated id and the request's name and email, and its stored digest matches the request's password |
| `AuthRoutes.Signup` | backend/src/routes/auth.ts:24-52 | a taken email gives 400 and no change; otherwise exactly one row is appended (the request's name and email, the digest of the password, the new id), with 201 and that row; a refused insert gives 500 and no change; unique emails stay unique in every case |
| `AuthRoutes.Login` | backend/src/routes/auth.ts:57-85 | the status is 200 or 400; a token is issued only with 200; an unknown email gives 400 and the unknown-email message; on 200 the row is stored, has the email, its digest matches the password, and the token is `Sign(key, row.id)` |
| `AuthRoutes.LoginWrongPassword` | backend/src/routes/auth.ts:72-77 | with unique emails, a stored email whose digest does not match the password gives 400 with the wrong-password message and no token |
| `AuthRoutes.LoginSucceeds` | backend/src/routes/auth.ts:79-81 | with unique emails, a stored email and a matching password give 200 with the token signed for that row's id and the row |
| `AuthRoutes.TokenIsValid` | backend/src/routes/auth.ts:88-122 | 500 exactly when a present token does not verify; otherwise 200 with `true` if and only if the token verifies to the id of a stored user (false for an absent header, a falsy payload, or an unknown id) |
| `AuthRoutes.CurrentUser` | backend/src/routes/auth.ts:124-137 | no `req.user` gives 401; otherwise 200 with the token the gate attached, plus a stored row with the admitted id, present exactly when such a row exists |
| `AuthRoutes.GetCurrentUser` | backend/src/routes/auth.ts:124-133 | the gated route answers 200 exactly when the gate admits; it then returns a stored row whose id is the token's, together with the raw header token; otherwise it answers 500 for a token that does not verify and 401 in every other case |
| `AuthRoutes.CurrentUserIsStoredRow` | backend/src/routes/auth.ts:131-133 | with unique ids, the handler returns the one stored row of the admitted id |
| `AuthRoutes.LoginTokenAuthentic` | backend/src/routes/auth.ts:79-81 | a token issued by login verifies to the logged-in row's id, is accepted by the gate, and makes tokenIsValid answer true |
| `AuthRoutes.SignupThenLogin` | backend/src/routes/auth.ts:39-81 | after signup with a fresh email, login with the same email and password answers 200 with the new row and the token for its id |
| `AuthRoutes.SignupSession` | backend/src/routes/auth.ts:22-137 | signup, login, gate and `GET /` compose: the login token is admitted as the new user, and `GET /` returns the new row with that token |
| `AuthMiddleware.Truthy` | backend/src/middleware/auth.ts:22 | the `if (!token)` test (also backend/src/routes/auth.ts:93): an absent header is falsy and every well-formed token is truthy; an empty header, written `Malformed("")`, is falsy |
| `AuthMiddleware.ClaimedId` | backend/src/middleware/auth.ts:27-35 | there is a claimed id exactly when the header is truthy and verifies under the key to an `{ id }` payload, and then the header is the token signed for that id |
| `AuthMiddleware.Auth` | backend/src/middleware/auth.ts:18-52 | an absent or empty header gives 401; a token that does not verify gives 500 (the catch); a falsy payload gives 401; an id with no stored user gives 401; it admits if and only if the token verifies to a stored user's id, and then sets the user to that id and the token to the raw header; it has no `modifies` clause, so it never changes the table |

## Left out

- Express wiring, static files, JSON parsing and `listen` (backend/src/index.ts) are I/O only.
- The task router (backend/src/routes/task.ts) has an empty handler, and no task logic is modelled.
- The database configuration (backend/src/drizzle.config.ts) is configuration only.
- The schema and the database module are not part of this model. A row has only the columns the handlers use: id, name, email and password.
- A possible unique constraint on the email column in the schema is not modelled. The model relies only on the check before the insert.
- Ids are natural numbers. The database draws random UUIDs, which here are a parameter. A drawn id that is already present makes the insert fail, as the primary key would.
- The bcrypt algorithm and its cost factor 8 are not modelled. `Checksum` is a stand-in, and the handlers rely only on `Bcrypt.CompareHash`. Collisions of the real function are neither ruled out nor used.
- JWT encoding, HMAC and expiry are not modelled. No expiry is set when signing.
- A verified payload that is an object without an `id` is not modelled. A payload is either `{ id }` or falsy.
- Database failures (lost connections, query errors) are not modelled. In the model the catch blocks are reached only through a token that does not verify or a refused insert. The 500 answer of `GET /` (`json(false)`) therefore cannot arise here.
- AuthRoutes.Login: request bodies are taken to carry string fields. A login body without a string password makes `bcryptjs.compare` reject, and the handler answers 500; that path is not modelled, so the contract's "200 or 400" holds only for well-formed bodies.
- AuthRoutes.Signup: likewise, a signup body without a string password makes `bcryptjs.hash` reject, and the handler answers 500; that path is not modelled.
- Jwt.Sign: the `iat` (issued-at) claim that `jwt.sign` adds by default is dropped. A `Signed` token stands for every token with those claims and that key, so two logins of one user give the same model token, and the equalities `token == Sign(KEY, id)` in the login contracts hold only up to `iat`.
- Jwt.VerifiedOnlyIfSigned: for the same reason, "only the token signed for an id verifies to it" means only a token with that id claim and that key, whatever its `iat`.
- Users.Select: the result is in insertion order. A `select` without `order by` promises no order, so "the first matching row" that login checks means the first row the database returns; the login lemmas that matter assume unique emails, where order does not matter.
- Concurrency is not modelled. The check-then-insert of signup is sequential, so two concurrent signups with the same email are beyond the model.
- The exact JSON payloads and raw error objects are reduced to the status, the message text and the meaningful fields.
- Change-password, profile update, profile images, task CRUD and sync are not in the shown code and are not modelled.
