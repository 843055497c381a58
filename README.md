# Virtual-pet to-do application: accounts, sessions and schema

This project models the core of a small Flask web application. In it, a user
owns one virtual pet ("mascota") and a list of tasks ("tareas"). The model
covers two parts:

- **The request handlers with logic** (`app.py`):
  - `register`: validates a form, normalises the username and email, refuses
    duplicates and stores a salted password hash.
  - `login`: the first user with the trimmed username, then a password check,
    then the session.
  - `logout`: clears the session.
  - `index`: the session check in front of the home page.
- **The schema** (`models.py`):
  - the three tables and their primary keys;
  - the unique email;
  - the unique one-pet-per-user owner reference;
  - the non-null owner references;
  - the column defaults;
  - the `all, delete-orphan` cascade from a user to its pet and its tasks.

Files:

- `wrappers.dfy`: `Option` and `Result`.
- `text.dfy`: Python's `str.strip()` (with Python's whitespace set) and the
  ASCII part of `str.lower()`, with the lemmas about their composition.
- `credentials.dfy`: `generate_password_hash` and `check_password_hash`. The
  key-derivation function is a parameter, and the salt is an argument of
  `Register`. Only one property is assumed about it, and it is stated as a
  lemma precondition: `CollisionFree`, meaning different passwords under one
  salt give different digests.
- `rows.dfy`: tables as sequences of rows in primary-key (rowid) order.
  - `FirstIndex` is `query.filter(...).first()`.
  - `Keep` is a filtered table.
  - `NextKey` is SQLite's next rowid, which is the largest key plus one.
- `schema.dfy`: the rows, the constraints (`TablesValid`), the lookup by
  key, the cascade, and the class `Store` whose methods insert and delete
  rows.
- `auth.dfy`: each handler's decision as a function, the properties of those
  decisions as lemmas, and the class `App` holding the store and the session.
  Its methods are the handlers and are proved equal to the decision
  functions. It also models the handler `login` as written (see Findings).

The model follows the code in two places that are easy to misread:

- `register` creates only the user row. It does not create a pet for the new
  user.
- Only `email` is declared unique. Two users can share a username
  (`Schema.UsernameNotUnique`). The handlers look users up by username and
  take the first match in key order.

## Model

| member | source | states |
|---|---|---|
| Text.Strip | app.py:52-53 | the result is the slice between the unique trim bounds (no surrounding whitespace, non-space ends); empty exactly when the input is all whitespace |
| Text.StripIgnoresPadding | app.py:32 | stripping ignores any whitespace padding added around an already-trimmed value |
| Text.StripIdempotent | app.py:52 | stripping twice is stripping once |
| Text.EmailVariantsCollide | app.py:53 | two emails equal up to ASCII case and surrounding whitespace normalise to the same stored email |
| Text.NormalizeEmailIdempotent | app.py:53 | normalising an already-normalised email changes nothing |
| Text.Lower | app.py:53 | each ASCII capital becomes the matching small letter (code point plus 32), every other character stays in place, and the length is kept |
| Text.NormalizeEmail | app.py:53 | `.strip().lower()`: no longer than the input, empty exactly when the input is all whitespace, and no ASCII capital left |
| Credentials.GenerateHash | app.py:69 | the stored hash keeps the salt it was made with and accepts the password it was made from |
| Credentials.CheckHash | app.py:38 | re-derives the digest from the stored salt and the given password and compares it; its meaning is stated by `CheckGeneratedHash` |
| Credentials.CheckGeneratedHash | app.py:38 | under a collision-free hash, the hash generated from a password accepts exactly that password |
| Rows.FirstIndex | app.py:62 | `.first()`: the index of the first row matching the filter, every earlier row fails it, and none exactly when no row matches |
| Rows.FirstIndexAppended | app.py:34 | a matching row appended after non-matching rows is the first match |
| Rows.Keep | models.py:24-29 | a filtered table keeps exactly the original rows that pass the filter |
| Rows.KeepOrder | models.py:24-29 | filtering keeps the relative order of rows |
| Rows.KeepPairwise | models.py:12-14 | a filtered table keeps every relation that held between earlier and later rows (key order, uniqueness) |
| Rows.KeepAll | models.py:24-29 | a filter that every row passes changes nothing |
| Rows.AppendPairwise | models.py:12-14 | appending a row related to all earlier rows preserves a pairwise relation |
| Rows.NextKey | app.py:71-72 | the rowid SQLite assigns to a new row: at least 1 and above the last row's key |
| Rows.NextKeyFresh | models.py:12 | the next key is larger than every key in the table |
| Schema.TablesValid | models.py:12-68 | the declared constraints: increasing primary keys in every table, unique `email`, unique pet owner, and every pet and task owned by an existing user; it is the store's `Valid()` |
| Schema.NewUser | app.py:70 | the new row has the given username, email and hash and a key above the last user's |
| Schema.FindUser | app.py:22 | `User.query.get(id)`: a user with that key if one exists, none exactly when no user has it |
| Schema.FindUserByKey | models.py:12 | with unique keys, looking a stored user up by its key finds that user |
| Schema.AtMostOnePetPerUser | models.py:48 | two pets with the same owner are the same row |
| Schema.UsernameNotUnique | models.py:13-14 | the constraints admit two users with the same username |
| Schema.InsertUserKeepsValid | models.py:12-15 | inserting a user whose email is not in use keeps every constraint, and the new key is unused |
| Schema.DeleteCascade | models.py:24-29 | deleting a user removes exactly that user, its pet and its tasks, nothing else, and every constraint still holds |
| Schema.DeleteAbsentUser | models.py:24-29 | deleting a user that does not exist changes no table |
| Schema.Store.InsertUser | models.py:12-15 | a duplicate email is refused with a unique violation and nothing changes; otherwise exactly one row with the next key is appended |
| Schema.Store.InsertPet | models.py:40-48 | an insert succeeds exactly when the name and the owner are given, the owner exists and it has no pet; otherwise a not-null, foreign-key or unique violation; the points default to 0 |
| Schema.Store.InsertTask | models.py:60-68 | an insert succeeds exactly when the description, the points and the owner are given and the owner exists; otherwise a not-null or foreign-key violation; completion defaults to false, and the creation date is the date fixed when the schema loaded |
| Schema.Store.DeleteUser | models.py:24-29 | the new tables are the cascade of the old ones, the user is gone, and nothing changes when it did not exist |
| Auth.RegisterDecision | app.py:51-74 | a registration that succeeds has a valid form, the trimmed username, the normalised email, a hash that accepts the password, and a username and email no stored user has |
| Auth.RegisterRejectsMissingField | app.py:52-58 | the missing-field message is given exactly when a field is empty after trimming or a password is empty |
| Auth.RegisterRejectsMismatch | app.py:59-61 | the mismatch message is given exactly when all fields are present and the passwords differ |
| Auth.RegisterRejectsDuplicate | app.py:62-68 | a valid form is refused as a duplicate exactly when some user has the trimmed username or the normalised email |
| Auth.RegisterUsernameTaken | app.py:62-66 | the username message is given exactly when a user with the username comes before every user with the email |
| Auth.RegisterEmailTaken | app.py:62-67 | the email message is given exactly when the first clashing user has the email but another username |
| Auth.RegisterUsernameFirst | app.py:64-65 | a user holding both the username and the email gets the username message |
| Auth.RegisterRejectsEmailVariant | app.py:53 | an email differing from a stored one only in case and padding is never registered |
| Auth.RegisterStoresRow | app.py:62-72 | registration succeeds exactly for a valid form with an unused username and email; the stored row has the trimmed username, the normalised email, a hash that accepts the password and a fresh key, and the constraints still hold |
| Auth.LoginDecision | app.py:31-46 | login (corrected to store `id_user`) never crashes; a successful one returns a stored user with the trimmed username whose hash accepts the password |
| Auth.LoginOutcomes | app.py:32-46 | unknown user exactly when no user has the trimmed username; otherwise the first such user's hash decides between logged in and wrong password |
| Auth.RegisterThenLogin | app.py:32-43 | the user just registered logs in with the same (trimmed) username and password, and with no other password |
| Auth.SessionFor | app.py:39-41 | the session left by a successful (corrected) login holds exactly the user's key and username |
| Auth.SessionUser | app.py:22 | the user the session's `user_id` names: a stored user with that key, none exactly when the value is not a key in use |
| Auth.IndexDecision | app.py:19-27 | not logged in exactly when there is no `user_id`; stale exactly when `user_id` names no stored user; otherwise the home page of the user with that key |
| Auth.LoginThenIndex | app.py:18-27 | after a successful (corrected) login the home page shows that user |
| Auth.DeletedUserSessionIsStale | app.py:22-26 | once the user is deleted, the session it held is stale and the home page clears it |
| Auth.LoginAsWrittenDecision | app.py:38-40 | login as written never logs anyone in, and wherever it does not crash it agrees with the corrected login |
| Auth.LoginAsWrittenNeverLogsIn | app.py:38-43 | as written, login never succeeds: it raises exactly where the corrected login succeeds |
| Auth.RegisteredUserCannotLogIn | app.py:40 | as written, a freshly registered user giving the right password is not logged in |
| Auth.LoginAsWrittenCounterexample | app.py:40 | the concrete user "ana" with password "pw123": logged in under the corrected handler, a crash under the one as written, and the cleared session leaves her logged out |
| Auth.ScenarioRegistrations | app.py:52-72 | a padded mixed-case email is stored trimmed and lower-cased, and a later form with the same email in other case is refused with the email message |
| Auth.App.Register | app.py:50-74 | the outcome is the register decision on the old users; exactly the new row is appended when registered; pets, tasks and the session are unchanged |
| Auth.App.Login | app.py:30-46 | (corrected to store `id_user`) the outcome is the login decision; on success the session holds exactly the user's key and username, otherwise it is unchanged |
| Auth.App.LoginAsWritten | app.py:30-46 | the outcome is the as-written decision; on the crash the session is left cleared, otherwise it is unchanged |
| Auth.App.Logout | app.py:77-81 | the session is empty afterwards, whatever it held |
| Auth.App.Index | app.py:17-27 | the outcome is the index decision on the old session; a stale session is cleared, any other is unchanged |

## Left out

- Rendering templates, flash messages, redirects and the 404 handler: each handler is reduced to the outcome it reaches.
- The `_flashes` entry that every `flash()` call writes into the session is not part of the modelled session. Where `Auth.App.Register`, `Auth.App.Login`, `Auth.App.LoginAsWritten`, `Auth.App.Logout` and `Auth.App.Index` say the session is unchanged, holds exactly some keys, or is empty, that holds apart from `_flashes`: in the source, register changes the session through its flash message, and logout and the stale branch of index leave a session holding the new message.
- The order of `.first()`: the queries of `login` and `register` have no ORDER BY. The model takes rows in key order, which is what SQLite's full-table scan returns here (no index serves `username` or the OR filter), but SQL does not promise it. When two different users match the duplicate query, UsernameTaken versus EmailTaken depends on that order; so does which user of a shared username `login` checks.
- GET requests, which only render a form.
- A form field that is absent is the same as an empty one, as `request.form.get(name, '')` makes it.
- The password hash is built on an abstract key-derivation function. PBKDF2/scrypt and the random salt are not modelled; the salt is a parameter.
- Concurrent requests: the handlers are modelled one request at a time. The development server that `app.run` starts serves requests on threads, and `register` runs its duplicate query (app.py:62) and its insert and commit (app.py:71-72) as separate steps. Two interleaved registrations can therefore store the same username, which no constraint forbids. With the same email, the second commit raises an unhandled `IntegrityError`. Auth.App.Register proves that failure unreachable only because no other request runs between the check and the insert.
- Columns that are nullable and have a default (`puntos_totales`, `estado`, `fecha_creacion`): an explicit NULL is not modelled. An unset argument takes the default, so these columns never hold NULL in the model.
- Persistence, transactions and commit: in the model, every store method takes effect at once.
- Whether the foreign keys are enforced: SQLite enforces them only with `PRAGMA foreign_keys=ON`, which the application does not set. The model treats the declared references as enforced.
- Which error the database reports when an insert breaks two constraints at once. The model checks NOT NULL first, then the foreign key, then uniqueness.
- The declared `String(n)` lengths: SQLite does not enforce them and `register` does not check them. They are only the constants and `WithinDeclaredLengths`.
- `date.today()`: the creation-date default is the store's `creationDefault`, fixed when the store is built.
- Text.Lower: folds only ASCII letters; Python's `str.lower()` also folds the rest of Unicode (and can change a string's length).
- A `user_id` in the session that is not a non-negative integer is treated as naming no user.
- Auth.App.LoginAsWritten: after the exception, the framework may or may not send the cleared session back to the client (that depends on its error handling). The model leaves the session cleared.
- Orphan deletion when a pet is detached from its user without deleting the user: the application never does this.
- `__repr__` methods, `config.py`, `static/script.js` and the commented-out routes.
- Task completion and point accrual: the repository has no code for them.

## Findings

| source | as written | input that shows it | evidently intended | confidence | as-written member | corrected member |
|---|---|---|---|---|---|---|
| app.py:40 | after a correct password, `login` clears the session and then reads `user.id`, but the user model's key column is `id_user`, so the request raises `AttributeError` and nobody is ever logged in | a stored user "ana" whose hash was generated from "pw123", logging in with "ana" and "pw123" | store `user.id_user` in the session so that the user is logged in and `index` shows their page | not executed | Auth.LoginAsWrittenCounterexample | Auth.RegisterThenLogin |
