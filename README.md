# User authentication backend: a Dafny model

This project models the request handlers of a small username/password
authentication service: registration (`POST /register`), login
(`POST /login`), and reading and updating the caller's profile
(`GET /profile`, `PUT /profile`). The relational `users` table and the
`profiles` document collection are in-memory values. A handler's answer
is a `Response(status, body)`.

- `Users` holds the users table. Rows are kept in id order, with the
  AUTO_INCREMENT counter beside them. `SELECT ... WHERE` is a filter, and
  `const [row] = rows` takes the first row of the result. `INSERT` keeps
  what the `VARCHAR(255)` columns keep: a value whose excess over 255
  characters is only trailing spaces is cut down, as MySQL does in every
  SQL mode. In strict SQL mode, MySQL's default, which the connection
  does not change, it refuses a value that would lose any other character, an id
  past the `INT` maximum, and a row whose kept username or email would
  break the UNIQUE constraints.
  `WellFormed` is the table invariant those constraints give. Column
  comparison goes through a collation parameter, because MySQL's default
  collations compare case-insensitively. Use the identity function for
  exact comparison.
- `Registration` models the register handler in two forms:
  - a function over a table value (`RegisterOutcome`);
  - a class that owns the table and inserts into it in place
    (`UserStore.Register`). Its postcondition is that function.
- `Authentication` models the login handler as a function of the table
  and the request.
- `Profiles` models getProfile as a function of both stores. updateProfile
  is a method on a class that owns the profile map. The map is keyed by
  `userId`, which the schema declares unique.

Things the handlers take from outside are parameters:

- The password key-derivation function (bcrypt, cost 10) is the parameter
  `kdf`. Each stored hash carries its salt, as a bcrypt string does, so
  verification re-derives the digest under the stored salt.
- The random salt is a parameter.
- The token signer is the parameter `sign`: the signer at one instant. It
  holds the JSON Web Token secret, the issue time and the expiry, so two
  requests handled at different instants use different signers.
- The authenticated caller's id is a parameter.
- A thrown error is the parameter `fault`, which names the step that
  throws if that step is reached. Store errors, bcrypt errors and signer
  errors are all modelled this way.

Behaviour of the handlers worth noting:

- **Registration can persist a row and still answer 500.** The INSERT
  happens before the row is re-selected and the token is signed. So a
  failure at either of those later steps leaves the new row in place
  while the caller is told that registration failed
  (`RegisterServerError`).
- **No input validation on register.** The code does not check for an
  empty username or password, or for a malformed email. The length of a username or email
  is not checked, so one over 255 characters reaches the INSERT unless
  the collation already matches it to an existing row. If only trailing spaces lie past the
  column width, the row is stored cut down and the answer is 201 with the
  cut-down values. Otherwise, in strict SQL mode, the INSERT refuses the row and the
  answer is the generic 500. A cut-down value can also collide with an existing row
  that the given value did not match. Then the INSERT refuses it too
  (`RegisterInsertRefused`).
- **A `null` dob is not cleared.** An omitted `dob` is stored as `null`.
  An explicit `dob: null` reaches `new Date(null)` and is stored as the
  epoch. An explicit `null` age or contact is stored as `null`.
- **updateProfile does not check that the user row exists.** It upserts
  for any authenticated id. getProfile answers 404 when the row is
  missing.

Login is a function, so it cannot change the users table. Likewise, only
a successful INSERT changes the table during registration.

## Model

| member | source | states |
|---|---|---|
| `Credentials.Verify` | user-auth/backend/login.js:21-22 | `bcrypt.compare`: a password verifies against a stored hash exactly when deriving it under the hash's own salt gives the stored digest. |
| `Credentials.Hash` | user-auth/backend/register.js:29-30 | The stored hash keeps the generated salt, and comparing the original password against it succeeds. This is the round trip that login relies on. |
| `Users.Select` | user-auth/backend/register.js:13-16 | A query result holds exactly the table rows that satisfy the WHERE condition, and no more rows than the table has. The same filter models the SELECTs at login.js:13-16 and profile_update.js:31-34. |
| `Users.FindByUsername` | user-auth/backend/register.js:13-17 | A row is found only if its username collates equal to the requested one. No row is found only if no row has that username. |
| `Users.FindByEmail` | user-auth/backend/register.js:21-25 | A row is found only if its email collates equal to the requested one. No row is found only if no row has that email. |
| `Users.FindById` | user-auth/backend/register.js:37-40 | A row is found only if it has the requested id. No row is found only if no row has that id. |
| `Users.Stored` | user-auth/backend/db/mysql_connection.js:29-30 | The value a `VARCHAR(255)` column keeps has at most 255 characters. It is a prefix of the given value, and only trailing spaces were cut. A value of at most 255 characters is kept as given. |
| `Users.Insert` | user-auth/backend/db/mysql_connection.js:27-31 | The store accepts a row exactly when three things hold. Its username and email lose nothing but trailing spaces to their `VARCHAR(255)` columns. The next id fits the `INT` column. The kept username and email are both free under the collation. The row is appended holding the kept values and the next AUTO_INCREMENT id, which is then advanced. Accepting it keeps ids, usernames and emails unique. |
| `Users.WellFormed` | user-auth/backend/db/mysql_connection.js:28-30 | The table invariant that the PRIMARY KEY and the UNIQUE columns give: ids are positive, ascending and below the counter, and no two rows share a username or an email under the collation. Every registration attempt keeps it (`Registration.RegisterPreservesUniqueness`). |
| `Users.Project` | user-auth/backend/login.js:32-36 | The public `{id, username, email}` object built from a row. It never holds the password hash. The same object is built at register.js:48-52 and profile_update.js:44-48. |
| `Registration.RegisterOutcome` | user-auth/backend/register.js:9-58 | The status is 201, 400 or 500. A 400 carries one of the two conflict messages and leaves the table unchanged. A 500 is the generic registration error. It happens only when a step the handler reaches throws (`Reaches`: the username lookup always, the email lookup once the username is free, bcrypt and the INSERT once the email is free too, the re-select and the signing once the INSERT accepts the row), or when the INSERT refuses the row. A reached failing step always gives it, and one before the INSERT leaves the table unchanged. The table either is unchanged or gains exactly the one new row, holding the kept username and email and the password hash. A 201 happens only with no failure, after that row is added. |
| `Registration.UsernameConflict` | user-auth/backend/register.js:13-19 | When the username is taken, the answer is 400 "Username already exists", whatever the email, and nothing is written. Username is therefore checked before email. |
| `Registration.EmailConflict` | user-auth/backend/register.js:21-27 | When the username is free but the email is taken, the answer is 400 "Email already exists" and nothing is written. |
| `Registration.RegisterSucceeds` | user-auth/backend/register.js:29-53 | With both keys free, the INSERT accepting the row and no failure, exactly one row is added. It holds the next id, the username and email the columns keep, and the hash of the password. The answer is 201 with a token signed over that id and the projection {id, username, email} of the stored row. |
| `Registration.RegisterServerError` | user-auth/backend/register.js:54-57 | Every failing step the handler reaches answers 500 "Server error during registration". The table is unchanged exactly when the failure comes before the INSERT takes effect; otherwise it holds the one new row. |
| `Registration.RegisterInsertRefused` | user-auth/backend/register.js:32-35 | With both keys free, a row the INSERT refuses gets the generic 500 and nothing is written. The INSERT refuses a row when a username or email would lose more than trailing spaces, when the id is past the `INT` maximum, or when a cut-down key collides. |
| `Registration.RegisterPreservesUniqueness` | user-auth/backend/register.js:13-35 | After any registration attempt, ids, usernames and emails are still unique, and ids stay below the counter. |
| `Registration.UserStore.constructor` | user-auth/backend/db/mysql_connection.js:24-34 | A new table is empty, with ids starting at 1, and satisfies the table invariant. |
| `Registration.UserStore.Register` | user-auth/backend/register.js:9-58 | The handler's early returns and its in-place INSERT produce the response and new table that `RegisterOutcome` gives for the old table. The table invariant is kept. |
| `Authentication.Login` | user-auth/backend/login.js:9-42 | The status is 200, 401 or 500, and every 401 is the same "Invalid credentials" payload. The answer is 200 exactly when no step fails, the username is found and the password verifies against the stored hash. A 200 carries a token signed over the found row's id and that row's {id, username, email}. A 500 is "Server error during login". It happens exactly when the failing step is one the handler reaches: the lookup, the comparison once a row is found, or the signing once the password verifies. |
| `Authentication.FailuresIndistinguishable` | user-auth/backend/login.js:13-24 | An unknown username and a known username with a wrong password both get the identical 401 payload. |
| `Authentication.RegisterThenLogin` | user-auth/backend/login.js:13-37 | After a successful registration, logging in with the password and the username registration answered with answers 200. That answer carries a token over the new id, signed by the login's own signer, and the same public user that registration returned. The username that works is the one registration answered with: the given one, less any trailing spaces cut at the column width. |
| `Profiles.Replacement` | user-auth/backend/profile_update.js:78-83 | An update replaces all three fields. An omitted or null age or contact is stored as null, and an omitted dob as null. A null dob is stored as the epoch. A given value is stored as given. |
| `Profiles.Upsert` | user-auth/backend/profile_update.js:76-89 | After an update the caller has exactly one profile, holding the replacement. It is created if absent and replaced if present. No profile is removed, and every other user's profile is unchanged. |
| `Profiles.UpsertIdempotent` | user-auth/backend/profile_update.js:76-89 | Applying the same update twice leaves the same profiles as applying it once. |
| `Profiles.UpsertForgetsPrevious` | user-auth/backend/profile_update.js:78-83 | What an update stores does not depend on what was stored before. Nothing is merged. |
| `Profiles.GetProfile` | user-auth/backend/profile_update.js:29-70 | The status is 200, 404 or 500. The answer is 404 "User not found" exactly when the caller's row is missing and that lookup did not fail. A 200 carries the caller's {id, username, email}. Its profile is null exactly when the caller has no profile, and otherwise holds exactly the stored age, dob and contact. A 500 is "Failed to fetch profile" with the error's message. It happens only when a step throws, and always when the failing step is one the handler reaches: the user lookup, or the profile lookup once the user row is found. |
| `Profiles.ProfileStore.constructor` | user-auth/backend/profile_update.js:5-25 | The collection starts empty. |
| `Profiles.ProfileStore.UpdateProfile` | user-auth/backend/profile_update.js:72-105 | Without a failure, the map becomes the upsert of the old map and the answer is 200 echoing the stored age, dob and contact. With a failure, nothing changes and the answer is 500 "Failed to update profile" with the error's message and code. |
| `Profiles.UpdateThenGet` | user-auth/backend/profile_update.js:76-95 | After an update, reading the profile back gives exactly the fields the update stored and echoed, for any caller whose user row exists. |
| `Profiles.NoProfileYet` | user-auth/backend/profile_update.js:40-50 | A user who has never updated gets 200 with their projection and `profile: null`, not an error. |

## Left out

- HTTP wiring is not modelled: routing, cors, helmet and morgan, the generic error handler and startup in user-auth/backend/server.js.
- The `protect` middleware that verifies tokens is not part of this model. The caller's id is a parameter. Token expiry and tampering, and JSON Web Token signing itself, are folded into the `sign` parameter.
- Connection pooling and connecting to either store are not modelled. The UNIQUE constraints on `username` and `email` are modelled, in `Users.Insert` and `Users.WellFormed`.
- bcrypt internals are abstract in the `kdf` parameter. This covers the cost factor, salt generation (the salt is a parameter) and the truncation of passwords to 72 bytes.
- `created_at` and the document timestamps are not modelled, because they come from the clock.
- Parsing a `dob` string with `new Date(...)`, including invalid dates, is not modelled. A given dob is already a date.
- Mongoose casting and validators are not modelled: the `min: 1` on age, the 10-digit pattern on contact, and the casting of strings or fractional numbers. A cast error is one more failure in the `fault` parameter. Age is an integer. Validators are not run on this update, so no value is rejected for failing them.
- Request bodies whose `username`, `email` or `password` is missing, null or not a string are outside the model. Fields are strings. What the source does with such bodies varies: some make a query or bcrypt throw, while a number is bound and compared as a number and can register successfully.
- Concurrency is not modelled: two registrations racing between the check and the INSERT, and last-write-wins between concurrent upserts. An AUTO_INCREMENT value consumed by a failed INSERT is not modelled either.
- Non-strict SQL mode is not modelled. `Users.Insert` follows strict mode, MySQL's default, and refuses a value that would lose more than trailing spaces; in non-strict mode MySQL would cut it with a warning and store the row.
- `err.code` in the update error is modelled as optional text, whatever its type in the store's error.
- The React frontend is not modelled: pages, navigation bar, form schemas and local storage.
