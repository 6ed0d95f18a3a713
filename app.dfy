/**
 * The request handlers of the backend as transitions of one application
 * state: the `users` and `logs` tables, their AUTOINCREMENT counters, and
 * the session slot of the client making the requests.
 *
 * Responses are reduced to an `Outcome`: a redirect, a page with what it
 * would render, or an HTTP error with its status and detail text.
 */
module App {
  import opened Wrappers
  import opened Passwords
  import opened Tables

  datatype Outcome =
    /** A 303 redirect to `location`. */
    | Redirect(location: string)
    /** A form page rendered again with an error message. */
    | FormError(template: string, error: string)
    /** A dashboard page for the signed-in user. */
    | Dashboard(template: string, user: User)
    /** The admin user list. */
    | UserList(summaries: seq<UserSummary>, user: User)
    /** The admin log view. */
    | LogList(entries: seq<LogRow>, user: User)
    /** An `HTTPException`; `detail` is None where the handler gives none. */
    | HttpError(status: int, detail: Option<string>)

  /** What an access guard decides: go on as `user`, or answer with `response`. */
  datatype Access = Granted(user: User) | Refused(response: Outcome)

  const NotAuthenticated: Outcome := HttpError(401, Some("Not authenticated"))

  /**
   * `get_current_user`: the session snapshot, or a 401 when the session
   * holds no user.
   */
  function RequireUser(session: Option<User>): (r: Access)
    ensures r.Granted? <==> session.Some?
    ensures r.Granted? ==> r.user == session.value
    ensures r.Refused? ==> r.response == NotAuthenticated
  {
    match session
    case None => Refused(NotAuthenticated)
    case Some(u) => Granted(u)
  }

  /**
   * `get_current_user` followed by a route's `is_admin` check. The flag is
   * read from the session snapshot, never from the users table.
   */
  function RequireAdmin(session: Option<User>, detail: Option<string>): (r: Access)
    ensures r.Granted? <==> session.Some? && session.value.isAdmin
    ensures r.Granted? ==> r.user == session.value
    ensures session.None? ==> r == Refused(NotAuthenticated)
    ensures session.Some? && !session.value.isAdmin ==> r == Refused(HttpError(403, detail))
  {
    var g := RequireUser(session);
    if g.Refused? then g
    else if !g.user.isAdmin then Refused(HttpError(403, detail))
    else g
  }

  /** Registering into a table without that username, then logging in with the same password, succeeds. */
  lemma RegisterThenAuthenticate(users: seq<User>, nextId: int, name: string, p: Password, salt: Salt, isAdmin: bool)
    requires UsersTable(users, nextId) && nextId >= 1
    requires FindByUsername(users, name).None?
    ensures var row := User(nextId, name, Hash(salt, p), isAdmin);
      Authenticate(users + [row], name, p) == Some(row)
  {
    var row := User(nextId, name, Hash(salt, p), isAdmin);
    AppendUserKeepsTable(users, nextId, row);
    FindByUsernameFinds(users + [row], |users|);
  }

  /**
   * A wrong password on an existing username is refused exactly like an
   * unknown username.
   */
  lemma LoginFailureIsUniform(users: seq<User>, name: string, p: Password, unknown: string, q: Password)
    requires UniqueUsernames(users)
    requires FindByUsername(users, name).Some?
    requires FindByUsername(users, unknown).None?
    requires Authenticate(users, name, p).None?
    ensures Authenticate(users, unknown, q) == Authenticate(users, name, p)
  {
  }

  /** A log entry of a deleted user is absent from the joined log view. */
  lemma JoinHidesOrphans(logs: seq<LogEntry>, nextLogId: int, users: seq<User>, l: LogEntry)
    requires LogsTable(logs, nextLogId)
    requires l in logs && FindById(users, l.userId).None?
    ensures forall row :: row in JoinUsers(logs, users) ==> row.id != l.id
  {
  }

  /** Rows with strictly ascending ids hold each row at most once. */
  lemma {:induction false} AscendingRowsOnce(rows: seq<LogRow>)
    requires RowIdsAscending(rows)
    ensures forall x :: x in rows ==> multiset(rows)[x] == 1
  {
    if |rows| > 0 {
      var tail := rows[1..];
      assert RowIdsAscending(tail);
      AscendingRowsOnce(tail);
      assert rows == [rows[0]] + tail;
      assert rows[0] !in tail;
    }
  }

  /** Flipping the flag of an id no row has leaves the table as it was. */
  lemma FlipAdminMissing(users: seq<User>, id: int)
    requires FindById(users, id).None?
    ensures FlipAdmin(users, id) == users
  {
  }

  class Backend {
    var users: seq<User>
    var nextUserId: int
    var logs: seq<LogEntry>
    var nextLogId: int
    var session: Option<User>

    /** Both tables keep their constraints; the session snapshot may be stale. */
    ghost predicate Valid()
      reads this
    {
      UsersTable(users, nextUserId) && nextUserId >= 1 && LogsTable(logs, nextLogId) && nextLogId >= 1
    }

    /** The first `startup`, on a fresh database file: both tables exist and are empty; no one is signed in. */
    constructor ()
      ensures Valid()
      ensures users == [] && logs == [] && session == None
      ensures nextUserId == 1 && nextLogId == 1
    {
      users := [];
      nextUserId := 1;
      logs := [];
      nextLogId := 1;
      session := None;
    }

    /**
     * A later `startup`: `CREATE TABLE IF NOT EXISTS` keeps both tables and
     * their AUTOINCREMENT counters in the database file, while the freshly
     * drawn session key makes every earlier session cookie unreadable.
     */
    method Restart()
      requires Valid()
      modifies this`session
      ensures Valid() && session == None
      ensures users == old(users) && logs == old(logs)
      ensures nextUserId == old(nextUserId) && nextLogId == old(nextLogId)
    {
      session := None;
    }

    /** `POST /register`. */
    method Register(username: string, password: Password, salt: Salt) returns (out: Outcome)
      requires Valid()
      modifies this
      ensures Valid()
      ensures logs == old(logs) && nextLogId == old(nextLogId) && session == old(session)
      ensures FindByUsername(old(users), username).Some? ==>
        && out == FormError("register.html", "Username already exists")
        && users == old(users) && nextUserId == old(nextUserId)
      ensures FindByUsername(old(users), username).None? ==>
        && out == Redirect("/login")
        && users == old(users) + [User(old(nextUserId), username, Hash(salt, password), |old(users)| == 0)]
        && nextUserId == old(nextUserId) + 1
    {
      var userCount := |users|;
      var hashed := Hash(salt, password);
      var isAdmin := userCount == 0;
      if FindByUsername(users, username).Some? {
        return FormError("register.html", "Username already exists");
      }
      var row := User(nextUserId, username, hashed, isAdmin);
      AppendUserKeepsTable(users, nextUserId, row);
      users := users + [row];
      nextUserId := nextUserId + 1;
      out := Redirect("/login");
    }

    /** `POST /login`; `now` is the store's clock when the log row is written. */
    method Login(username: string, password: Password, now: int) returns (out: Outcome)
      requires Valid()
      modifies this
      ensures Valid()
      ensures users == old(users) && nextUserId == old(nextUserId)
      ensures Authenticate(old(users), username, password).Some? ==>
        && session == Authenticate(old(users), username, password)
        && logs == old(logs) + [LogEntry(old(nextLogId), session.value.id, "login", now)]
        && nextLogId == old(nextLogId) + 1
        && out == Redirect("/client/dashboard")
      ensures Authenticate(old(users), username, password).None? ==>
        && session == old(session) && logs == old(logs) && nextLogId == old(nextLogId)
        && out == FormError("login.html", "Invalid credentials")
    {
      var user := Authenticate(users, username, password);
      if user.Some? {
        session := user;
        logs := logs + [LogEntry(nextLogId, user.value.id, "login", now)];
        nextLogId := nextLogId + 1;
        return Redirect("/client/dashboard");
      }
      out := FormError("login.html", "Invalid credentials");
    }

    /** `GET /logout`: the session is emptied, whatever it held. */
    method Logout() returns (out: Outcome)
      requires Valid()
      modifies this`session
      ensures Valid()
      ensures session == None && out == Redirect("/")
    {
      session := None;
      out := Redirect("/");
    }

    /** `GET /client/dashboard`: any signed-in user. */
    method ClientDashboard() returns (out: Outcome)
      ensures session.None? ==> out == NotAuthenticated
      ensures session.Some? ==> out == Dashboard("client/dashboard.html", session.value)
    {
      var g := RequireUser(session);
      if g.Refused? {
        return g.response;
      }
      out := Dashboard("client/dashboard.html", g.user);
    }

    /** `GET /admin/dashboard`. */
    method AdminDashboard() returns (out: Outcome)
      ensures session.None? ==> out == NotAuthenticated
      ensures session.Some? && !session.value.isAdmin ==> out == HttpError(403, Some("Admin access only"))
      ensures session.Some? && session.value.isAdmin ==> out == Dashboard("admin/dashboard.html", session.value)
    {
      var g := RequireAdmin(session, Some("Admin access only"));
      if g.Refused? {
        return g.response;
      }
      out := Dashboard("admin/dashboard.html", g.user);
    }

    /** `GET /admin/users`: every row's id, username and flag, in rowid order. */
    method ListUsers() returns (out: Outcome)
      ensures session.None? ==> out == NotAuthenticated
      ensures session.Some? && !session.value.isAdmin ==> out == HttpError(403, Some("Admins only"))
      ensures session.Some? && session.value.isAdmin ==>
        && out.UserList? && out.user == session.value && |out.summaries| == |users|
        && forall i :: 0 <= i < |users| ==>
             out.summaries[i] == UserSummary(users[i].id, users[i].username, users[i].isAdmin)
    {
      var g := RequireAdmin(session, Some("Admins only"));
      if g.Refused? {
        return g.response;
      }
      out := UserList(Summaries(users), g.user);
    }

    /** `POST /admin/toggle-role`. */
    method ToggleRole(userId: int) returns (out: Outcome)
      requires Valid()
      modifies this`users
      ensures Valid()
      ensures session.None? ==> out == NotAuthenticated && users == old(users)
      ensures session.Some? && !session.value.isAdmin ==> out == HttpError(403, None) && users == old(users)
      ensures session.Some? && session.value.isAdmin ==>
        out == Redirect("/admin/users") && users == FlipAdmin(old(users), userId)
    {
      var g := RequireAdmin(session, None);
      if g.Refused? {
        return g.response;
      }
      var user := FindById(users, userId);
      if user.Some? {
        FlipAdminKeepsTable(users, nextUserId, userId);
        users := FlipAdmin(users, userId);
      } else {
        FlipAdminMissing(users, userId);
      }
      out := Redirect("/admin/users");
    }

    /** `POST /admin/delete-user`: an admin may delete any row but their own. */
    method DeleteUser(userId: int) returns (out: Outcome)
      requires Valid()
      modifies this`users
      ensures Valid()
      ensures session.None? ==> out == NotAuthenticated && users == old(users)
      ensures session.Some? && !session.value.isAdmin ==> out == HttpError(403, None) && users == old(users)
      ensures session.Some? && session.value.isAdmin && userId == session.value.id ==>
        out == HttpError(400, Some("Cannot delete yourself.")) && users == old(users)
      ensures session.Some? && session.value.isAdmin && userId != session.value.id ==>
        out == Redirect("/admin/users") && users == RemoveById(old(users), userId)
    {
      var g := RequireAdmin(session, None);
      if g.Refused? {
        return g.response;
      }
      if userId == g.user.id {
        return HttpError(400, Some("Cannot delete yourself."));
      }
      RemoveByIdKeepsTable(users, nextUserId, userId);
      users := RemoveById(users, userId);
      out := Redirect("/admin/users");
    }

    /** `GET /admin/logs`: the log rows of users that still exist, newest first. */
    method ViewLogs() returns (out: Outcome)
      requires Valid()
      ensures session.None? ==> out == NotAuthenticated
      ensures session.Some? && !session.value.isAdmin ==> out == HttpError(403, Some("Access denied"))
      ensures session.Some? && session.value.isAdmin ==>
        && out.LogList? && out.user == session.value
        && NewestFirstOrder(out.entries)
        && multiset(out.entries) == multiset(JoinUsers(logs, users))
        && forall l :: l in logs && FindById(users, l.userId).Some? ==>
             multiset(out.entries)[JoinRow(l, FindById(users, l.userId).value)] == 1
    {
      var g := RequireAdmin(session, Some("Access denied"));
      if g.Refused? {
        return g.response;
      }
      var joined := JoinUsers(logs, users);
      AscendingRowsOnce(joined);
      out := LogList(NewestFirst(joined), g.user);
    }
  }

  /**
   * The first account registered is the admin, the second is not, and a
   * second registration of a taken name is refused.
   */
  method RegisterAliceAndBob() returns (app: Backend)
    ensures fresh(app) && app.Valid()
    ensures app.users == [User(1, "alice", Hash(7, "pw1"), true), User(2, "bob", Hash(8, "pw2"), false)]
    ensures app.logs == [] && app.nextLogId == 1 && app.session == None
  {
    app := new Backend();
    var out := app.Register("alice", "pw1", 7);
    assert out == Redirect("/login");
    out := app.Register("bob", "pw2", 8);
    assert app.users[1].username == "bob";
    out := app.Register("bob", "other", 9);
    assert out == FormError("register.html", "Username already exists");
  }

  /** A wrong password is refused; the second account signs in and is refused the user list. */
  method NonAdminWalkthrough()
  {
    var app := RegisterAliceAndBob();
    var out := app.Login("bob", "pw1", 100);
    assert out == FormError("login.html", "Invalid credentials");
    assert app.session == None;
    out := app.Login("bob", "pw2", 101);
    assert app.session == Some(app.users[1]);
    assert app.logs == [LogEntry(1, 2, "login", 101)];
    out := app.ListUsers();
    assert out == HttpError(403, Some("Admins only"));
  }

  /**
   * The admin sees both rows, promotes the second account and may not
   * delete itself; having demoted itself, it keeps admin access through its
   * session snapshot until it signs out.
   */
  method AdminWalkthrough()
  {
    var app := RegisterAliceAndBob();
    var alice := app.users[0];
    var out := app.Login("alice", "pw1", 102);
    assert app.session == Some(alice);
    out := app.ListUsers();
    assert out.UserList? && out.summaries == [UserSummary(1, "alice", true), UserSummary(2, "bob", false)];
    out := app.ToggleRole(2);
    assert app.users[1].isAdmin;
    out := app.DeleteUser(1);
    assert out == HttpError(400, Some("Cannot delete yourself.")) && app.users[0] == alice;
    out := app.ToggleRole(1);
    assert !app.users[0].isAdmin;
    out := app.AdminDashboard();
    assert out == Dashboard("admin/dashboard.html", alice);
    out := app.Logout();
    out := app.AdminDashboard();
    assert out == NotAuthenticated;
  }
}
