# Account and access-control core of the FastAPI backend

This project models the account and authorisation logic of `backend/main.py`
in Dafny. The backend is a FastAPI web application with two SQLite tables and
one cookie session:

- `users(id, username UNIQUE, password, is_admin)`
- `logs(id, user_id, action, timestamp)`
- a session that holds either nothing or a snapshot of one `users` row

The request handlers are transitions on that state:

- registration makes the first account an admin;
- login checks a bcrypt digest, stores the row snapshot in the session and
  appends a `login` log row;
- logout clears the session;
- five admin routes are guarded by the snapshot's `is_admin` flag;
- the admin routes list users, flip a user's flag, delete a user other than
  oneself, and list the log joined with the users that still exist, newest
  first.

Files:

- `wrappers.dfy`: module `Wrappers`, the `Option` type.
- `passwords.dfy`: module `Passwords`. The bcrypt context is modelled as an
  ideal salted hash (`Hash`, `Verify`). The random salt is a parameter.
- `tables.dfy`: module `Tables`, the two tables and the SQL statements the
  handlers run on them, written as functions:
  - the lookups by username and by id;
  - the credential check;
  - the `is_admin` update and the delete;
  - the user projection;
  - the inner join of logs with users;
  - the `ORDER BY timestamp DESC` sort.

  It also states the table constraints (ascending AUTOINCREMENT ids, unique
  usernames) and the lemmas that each update keeps them.
- `app.dfy`: module `App`. The class `Backend` holds the fields `users`,
  `nextUserId`, `logs`, `nextLogId` and `session`, with one method per
  handler. Each handler returns an `Outcome`: a redirect, a page with what it
  would show, or an HTTP error with status and detail. The module also has
  the access guards, the lemmas that link register, login and the log view,
  and three walk-through methods. The walk-throughs play out one scenario:
  alice becomes admin and bob does not; bob is refused the user list; alice
  promotes bob and may not delete herself.

The tables are sequences in rowid order. The users table is a sequence rather
than a map from ids because `SELECT id, username, is_admin FROM users` lists it
in that order. The lookups `WHERE username = ?` and `WHERE id = ?` go through
the UNIQUE index and the rowid; the model's lookups return the first matching
row, which is the same row because both keys are unique. AUTOINCREMENT is a
counter per table that only grows, starts at 1, and is not consumed by a
refused registration. The store's clock is the parameter `now` of `Login`.

## Model

| member | source | states |
|---|---|---|
| `Passwords.VerifyHash` | backend/main.py:97 | a stored digest accepts exactly the plaintext it was made from, whatever the salt |
| `Tables.FindByUsername` | backend/main.py:96 | the lookup by exact username returns a row of the table with that name, and returns None exactly when no row has it |
| `Tables.FindById` | backend/main.py:141 | the lookup by id returns a row with that id, and returns None exactly when no row has it |
| `Tables.Authenticate` | backend/main.py:96-97 | success gives a row with that username whose digest verifies the password; with unique usernames, failure happens exactly when no row with that username verifies it |
| `Tables.FlipAdmin` | backend/main.py:141-144 | the row with that id has its `is_admin` negated; every other row, and every other field of that row, is unchanged; the length is kept |
| `Tables.RemoveById` | backend/main.py:158 | the rows left are exactly the old rows whose id differs from the target |
| `Tables.Summaries` | backend/main.py:132 | one `(id, username, is_admin)` triple per row, in rowid order |
| `Tables.JoinUsers` | backend/main.py:168-171 | every log row whose user still exists yields a row carrying that user's current username; every result row comes from such a log row; no more rows than log entries; with ascending log ids the result's ids ascend too, so each log entry yields at most one row |
| `Tables.InsertByTime` | backend/main.py:172 | inserting into a newest-first list keeps it newest first and adds exactly that row |
| `Tables.NewestFirst` | backend/main.py:172 | the result is in non-increasing timestamp order and is a permutation of the input |
| `Tables.FlipAdminTwice` | backend/main.py:143-144 | toggling the same id twice restores the table |
| `Tables.FlipAdminKeepsTable` | backend/main.py:144 | the role update keeps ids ascending and usernames unique |
| `Tables.RemoveByIdKeepsTable` | backend/main.py:158 | the delete keeps ids ascending and usernames unique |
| `Tables.AppendUserKeepsTable` | backend/main.py:72-75 | inserting a row with the next id and an unused username keeps both table constraints |
| `Tables.FindByUsernameFinds` | backend/main.py:96 | with unique usernames, looking up a row's username finds exactly that row |
| `App.RequireUser` | backend/main.py:110-114 | 401 "Not authenticated" exactly when the session is empty; otherwise the session snapshot itself |
| `App.RequireAdmin` | backend/main.py:122-124 | access is granted exactly when the session holds a snapshot whose `is_admin` is set; an empty session gives 401 and a non-admin snapshot gives 403 with the route's detail |
| `App.RegisterThenAuthenticate` | backend/main.py:67-97 | after a successful registration, logging in with the same username and plaintext finds the new row |
| `App.LoginFailureIsUniform` | backend/main.py:96-103 | a wrong password on an existing username gives the same result as an unknown username |
| `App.JoinHidesOrphans` | backend/main.py:171 | a log entry whose user was deleted has no row in the log view |
| `App.FlipAdminMissing` | backend/main.py:141-146 | toggling an id that no row has leaves the users table unchanged |
| `App.Backend.constructor` | backend/main.py:26-52 | the first startup, on a fresh database file, leaves both tables empty, both counters at 1 and the session empty |
| `App.Backend.Restart` | backend/main.py:13-52 | a later startup keeps both tables and both counters and empties the session, since the new secret key invalidates every earlier cookie |
| `App.Backend.Register` | backend/main.py:62-84 | a taken username yields "Username already exists" and no change. Otherwise the request redirects to `/login` and appends exactly one row: the next id, the username, `Hash(salt, password)`, and `is_admin` set exactly when the table was empty. Logs and session are unchanged, and the table constraints are kept |
| `App.Backend.Login` | backend/main.py:93-103 | on verified credentials the session becomes the full row snapshot, exactly one `(next id, row id, "login", now)` log row is appended, and the request redirects to `/client/dashboard`. Otherwise it yields "Invalid credentials" and changes nothing. Users are never changed |
| `App.Backend.Logout` | backend/main.py:105-108 | the session is empty afterwards, whatever it held, and the request redirects to `/`; nothing else changes |
| `App.Backend.ClientDashboard` | backend/main.py:116-118 | 401 without a session; otherwise the dashboard for the snapshot |
| `App.Backend.AdminDashboard` | backend/main.py:120-125 | 401 without a session, 403 "Admin access only" for a non-admin snapshot, otherwise the admin dashboard; no state changes |
| `App.Backend.ListUsers` | backend/main.py:127-134 | 401 without a session and 403 "Admins only" for a non-admin snapshot. Otherwise it lists every row's id, username and flag in rowid order. No state changes |
| `App.Backend.ToggleRole` | backend/main.py:136-146 | 401 or 403 without an admin snapshot, and then nothing changes. Otherwise the request redirects to `/admin/users` and only that id's flag is flipped, or nothing changes when no row has the id. Session and logs are untouched |
| `App.Backend.DeleteUser` | backend/main.py:148-160 | 401 or 403 without an admin snapshot. 400 "Cannot delete yourself." when the target is the snapshot's own id. In both cases nothing is removed. Otherwise only the rows with that id are removed and the request redirects to `/admin/users`. Logs and session are untouched |
| `App.Backend.ViewLogs` | backend/main.py:162-181 | 401, or 403 "Access denied", without an admin snapshot. Otherwise the rows are newest first and are a permutation of the join of logs with the existing users. Each log entry whose user still exists shows exactly once, under that user's current name. No state changes |
| `App.RegisterAliceAndBob` | backend/main.py:62-84 | registering alice into an empty table makes her admin, bob is not admin, and a second "bob" is refused |

## Left out

- App.Backend.constructor: it models the first start on a fresh `backend/users.db`. Later starts, which keep the tables and counters, are `App.Backend.Restart`.
- Passwords.VerifyHash: bcrypt reads only the first 72 bytes of a password and passlib silently truncates longer ones, so for passwords of 72 bytes or more a different plaintext with the same first 72 bytes also verifies. The ideal hash accepts only the exact plaintext.
- bcrypt refuses a password containing a NUL byte. Registration then fails with a server error before the insert, and login with such a password fails with a server error rather than "Invalid credentials". The model's `Register` and `Login` treat such a password like any other.
- A `user_id` outside SQLite's signed 64-bit integer range makes the toggle and delete queries raise an overflow error, a server error with nothing changed. The model's `ToggleRole` and `DeleteUser` treat it like any other missing id and redirect.
- The SQLite connection handling, commits and the DDL text are left out. The tables are in-memory sequences, and the schema's constraints are the `UsersTable` and `LogsTable` predicates.
- bcrypt is modelled as an ideal salted hash. Collisions, cost factors and constant-time comparison are not modelled. The salt is a parameter standing for bcrypt's randomness.
- Cookie signing, the random secret key and session expiry are not modelled. The model holds the session slot of one client. Other clients' cookies hold their own snapshots, which the guards read the same way.
- Template rendering, static files and the 303 status code are reduced to the `Outcome` datatype. The GET pages that only render a form (`/`, `/register`, `/login`) are left out.
- `toggle_user_role` and `delete_user` raise `HTTPException(403)` with no detail. The model gives these `None`, and the framework's default text for them is not modelled.
- Concurrency is not modelled, including the count-then-insert gap in registration and concurrent toggles. Every request is an atomic sequential transition.
- Form parsing is not modelled, such as a `user_id` that is not an integer (422).
- Database failures are not modelled. A failed log insert during login cannot occur in the model.
- `logs.user_id` is nullable in the schema, but the only writer always stores a user id, so the model's log rows always carry one.
- `Tables.NewestFirst`: SQLite leaves the order of log rows with equal timestamps open. The contract promises only the order and the permutation, and the function picks one of the admissible orders. The timestamp's one-second resolution is not modelled; `now` is any integer.
- `App.Backend.ListUsers`: the query has no `ORDER BY`. The model returns rowid order, which is what SQLite's table scan gives.
- The commented-out application setup at the end of `backend/main.py` is left out.
- `backend/auth.py` is not wired into the running application. Its `authenticate_user` is the same check as `Tables.Authenticate`.
- The router modules under `backend/routers/` only render templates and are not included by the running application.
