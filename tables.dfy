/**
 * The two SQLite tables of the backend and the queries and updates the
 * handlers run on them.
 *
 * `users` is kept as a sequence of rows in rowid order (the order SQLite
 * stores and scans them in), `logs` likewise. AUTOINCREMENT ids are handed
 * out by the caller from a counter that only grows.
 */
module Tables {
  import opened Wrappers
  import opened Passwords

  /** A row of `users(id, username UNIQUE, password, is_admin)`. */
  datatype User = User(id: int, username: string, password: PasswordHash, isAdmin: bool)

  /** A row of `logs(id, user_id, action, timestamp)`. */
  datatype LogEntry = LogEntry(id: int, userId: int, action: string, timestamp: int)

  /** A row of the admin log view: the log row joined with its user's current name. */
  datatype LogRow = LogRow(id: int, username: string, action: string, timestamp: int)

  /** The projection `SELECT id, username, is_admin FROM users` shows for one row. */
  datatype UserSummary = UserSummary(id: int, username: string, isAdmin: bool)

  /** Row ids strictly increase along the table and lie in [1, nextId). */
  ghost predicate UserIdsBelow(users: seq<User>, nextId: int)
  {
    && (forall i, j :: 0 <= i < j < |users| ==> users[i].id < users[j].id)
    && (forall i :: 0 <= i < |users| ==> 1 <= users[i].id < nextId)
  }

  /** The UNIQUE constraint on `users.username`. */
  ghost predicate UniqueUsernames(users: seq<User>)
  {
    forall i, j :: 0 <= i < |users| && 0 <= j < |users| && users[i].username == users[j].username ==> i == j
  }

  /** The invariant the users table keeps between requests. */
  ghost predicate UsersTable(users: seq<User>, nextId: int)
  {
    UserIdsBelow(users, nextId) && UniqueUsernames(users)
  }

  /** Log ids strictly increase along the table and lie in [1, nextId). */
  ghost predicate LogsTable(logs: seq<LogEntry>, nextId: int)
  {
    && (forall i, j :: 0 <= i < j < |logs| ==> logs[i].id < logs[j].id)
    && (forall i :: 0 <= i < |logs| ==> 1 <= logs[i].id < nextId)
  }

  /** `SELECT * FROM users WHERE username = ?` followed by `fetchone()`. */
  function FindByUsername(users: seq<User>, name: string): (r: Option<User>)
    ensures r.Some? ==> r.value in users && r.value.username == name
    ensures r.None? <==> forall i :: 0 <= i < |users| ==> users[i].username != name
  {
    if |users| == 0 then None
    else if users[0].username == name then Some(users[0])
    else FindByUsername(users[1..], name)
  }

  /** `SELECT * FROM users WHERE id = ?` followed by `fetchone()`. */
  function FindById(users: seq<User>, id: int): (r: Option<User>)
    ensures r.Some? ==> r.value in users && r.value.id == id
    ensures r.None? <==> forall i :: 0 <= i < |users| ==> users[i].id != id
  {
    if |users| == 0 then None
    else if users[0].id == id then Some(users[0])
    else FindById(users[1..], id)
  }

  /**
   * The credential check of the login handler: the row with that exact
   * username, provided the password verifies against its stored digest.
   * An unknown username and a wrong password both give None.
   */
  function Authenticate(users: seq<User>, name: string, p: Password): (r: Option<User>)
    ensures r.Some? ==> r.value in users && r.value.username == name && Verify(p, r.value.password)
    ensures UniqueUsernames(users) ==>
      (r.None? <==> forall i :: 0 <= i < |users| && users[i].username == name ==> !Verify(p, users[i].password))
  {
    var row := FindByUsername(users, name);
    if row.Some? && Verify(p, row.value.password) then row else None
  }

  /** `UPDATE users SET is_admin = NOT is_admin WHERE id = ?`. */
  function FlipAdmin(users: seq<User>, id: int): (r: seq<User>)
    ensures |r| == |users|
    ensures forall i :: 0 <= i < |users| ==>
      r[i] == if users[i].id == id then users[i].(isAdmin := !users[i].isAdmin) else users[i]
  {
    if |users| == 0 then []
    else
      var head := if users[0].id == id then users[0].(isAdmin := !users[0].isAdmin) else users[0];
      [head] + FlipAdmin(users[1..], id)
  }

  /** `DELETE FROM users WHERE id = ?`: exactly the rows with another id stay. */
  function RemoveById(users: seq<User>, id: int): (r: seq<User>)
    ensures forall u :: u in r <==> u in users && u.id != id
    ensures |r| <= |users|
  {
    if |users| == 0 then []
    else if users[0].id == id then RemoveById(users[1..], id)
    else [users[0]] + RemoveById(users[1..], id)
  }

  /** `SELECT id, username, is_admin FROM users`, in rowid order. */
  function Summaries(users: seq<User>): (r: seq<UserSummary>)
    ensures |r| == |users|
    ensures forall i :: 0 <= i < |users| ==>
      r[i] == UserSummary(users[i].id, users[i].username, users[i].isAdmin)
  {
    if |users| == 0 then [] else [UserSummary(users[0].id, users[0].username, users[0].isAdmin)] + Summaries(users[1..])
  }

  /** The row the log view shows for a log entry whose user `u` still exists. */
  function JoinRow(l: LogEntry, u: User): LogRow
  {
    LogRow(l.id, u.username, l.action, l.timestamp)
  }

  /** Log entries in strictly increasing id order, as AUTOINCREMENT appends them. */
  ghost predicate EntryIdsAscending(logs: seq<LogEntry>)
  {
    forall i, j :: 0 <= i < j < |logs| ==> logs[i].id < logs[j].id
  }

  /** Joined rows in strictly increasing log id order: no log entry shows twice. */
  ghost predicate RowIdsAscending(rows: seq<LogRow>)
  {
    forall i, j :: 0 <= i < j < |rows| ==> rows[i].id < rows[j].id
  }

  /**
   * `FROM logs JOIN users ON logs.user_id = users.id`: an inner join on the
   * primary key, so each log entry whose user still exists yields exactly one
   * row, in log order, and a log entry whose user no longer exists yields none.
   */
  function JoinUsers(logs: seq<LogEntry>, users: seq<User>): (r: seq<LogRow>)
    ensures |r| <= |logs|
    ensures forall l :: l in logs && FindById(users, l.userId).Some? ==>
      JoinRow(l, FindById(users, l.userId).value) in r
    ensures forall row :: row in r ==>
      exists l :: l in logs && FindById(users, l.userId).Some? && row == JoinRow(l, FindById(users, l.userId).value)
    ensures EntryIdsAscending(logs) ==> RowIdsAscending(r)
  {
    if |logs| == 0 then []
    else
      var rest := JoinUsers(logs[1..], users);
      var owner := FindById(users, logs[0].userId);
      if owner.Some? then
        assert EntryIdsAscending(logs) ==> EntryIdsAscending(logs[1..]);
        JoinedAfterHead(logs, rest);
        [JoinRow(logs[0], owner.value)] + rest
      else rest
  }

  /**
   * With ascending log ids, the rows joined from the later entries all carry
   * a larger id than the first entry, so the first entry's row may go in front.
   */
  lemma JoinedAfterHead(logs: seq<LogEntry>, rest: seq<LogRow>)
    requires |logs| > 0
    requires forall row :: row in rest ==> exists l :: l in logs[1..] && row.id == l.id
    ensures EntryIdsAscending(logs) && RowIdsAscending(rest) ==>
      forall x: LogRow :: x.id == logs[0].id ==> RowIdsAscending([x] + rest)
  {
    if EntryIdsAscending(logs) && RowIdsAscending(rest) {
      forall x: LogRow | x.id == logs[0].id ensures RowIdsAscending([x] + rest) {
        var r := [x] + rest;
        forall i, j | 0 <= i < j < |r| ensures r[i].id < r[j].id {
          assert r[j] == rest[j - 1];
          if i > 0 {
            assert r[i] == rest[i - 1];
          } else {
            assert rest[j - 1] in rest;
            var l :| l in logs[1..] && rest[j - 1].id == l.id;
            var k :| 0 <= k < |logs[1..]| && logs[1..][k] == l;
            assert logs[k + 1] == l;
          }
        }
      }
    }
  }

  /** Rows in non-increasing timestamp order. */
  ghost predicate NewestFirstOrder(rows: seq<LogRow>)
  {
    forall i, j :: 0 <= i < j < |rows| ==> rows[i].timestamp >= rows[j].timestamp
  }

  /** Places one row into a list already ordered newest first. */
  function InsertByTime(x: LogRow, rows: seq<LogRow>): (r: seq<LogRow>)
    requires NewestFirstOrder(rows)
    ensures NewestFirstOrder(r)
    ensures multiset(r) == multiset(rows) + multiset{x}
  {
    if |rows| == 0 then [x]
    else if x.timestamp >= rows[0].timestamp then [x] + rows
    else
      var rest := InsertByTime(x, rows[1..]);
      assert rows == [rows[0]] + rows[1..];
      assert forall y :: y in rest ==> y.timestamp <= rows[0].timestamp by {
        forall y | y in rest ensures y.timestamp <= rows[0].timestamp {
          assert y in multiset(rest);
          if y != x {
            assert y in multiset(rows[1..]);
          }
        }
      }
      ConsNewestFirst(rows[0], rest);
      [rows[0]] + rest
  }

  /** A row no older than every row of an ordered list may go in front of it. */
  lemma ConsNewestFirst(x: LogRow, rows: seq<LogRow>)
    requires NewestFirstOrder(rows)
    requires forall y :: y in rows ==> y.timestamp <= x.timestamp
    ensures NewestFirstOrder([x] + rows)
  {
  }

  /**
   * `ORDER BY logs.timestamp DESC`. SQLite leaves the order of equal
   * timestamps open; this ordering is one of the admissible ones.
   */
  function NewestFirst(rows: seq<LogRow>): (r: seq<LogRow>)
    ensures NewestFirstOrder(r)
    ensures multiset(r) == multiset(rows)
  {
    if |rows| == 0 then []
    else
      assert rows == [rows[0]] + rows[1..];
      InsertByTime(rows[0], NewestFirst(rows[1..]))
  }

  /** Flipping the admin flag of the same id twice restores the table. */
  lemma FlipAdminTwice(users: seq<User>, id: int)
    ensures FlipAdmin(FlipAdmin(users, id), id) == users
  {
  }

  /** Flipping an admin flag keeps ids and usernames, hence the table invariant. */
  lemma FlipAdminKeepsTable(users: seq<User>, nextId: int, id: int)
    requires UsersTable(users, nextId)
    ensures UsersTable(FlipAdmin(users, id), nextId)
  {
    var r := FlipAdmin(users, id);
    assert forall i :: 0 <= i < |r| ==> r[i].id == users[i].id && r[i].username == users[i].username;
  }

  /** Dropping the first row keeps the table invariant. */
  lemma TailKeepsTable(users: seq<User>, nextId: int)
    requires |users| > 0 && UsersTable(users, nextId)
    ensures UsersTable(users[1..], nextId)
  {
  }

  /** A row with a smaller id and a new username may go in front of a table. */
  lemma ConsKeepsTable(u: User, rest: seq<User>, nextId: int)
    requires UsersTable(rest, nextId) && 1 <= u.id < nextId
    requires forall v :: v in rest ==> u.id < v.id && u.username != v.username
    ensures UsersTable([u] + rest, nextId)
  {
  }

  /** Deleting a row keeps the remaining ids ascending and the usernames unique. */
  lemma {:induction false} RemoveByIdKeepsTable(users: seq<User>, nextId: int, id: int)
    requires UsersTable(users, nextId)
    ensures UsersTable(RemoveById(users, id), nextId)
  {
    if |users| > 0 {
      var tail := users[1..];
      TailKeepsTable(users, nextId);
      RemoveByIdKeepsTable(tail, nextId, id);
      if users[0].id != id {
        var rest := RemoveById(tail, id);
        forall v | v in rest ensures users[0].id < v.id && users[0].username != v.username {
          var m :| 0 <= m < |tail| && tail[m] == v;
          assert users[m + 1] == v;
        }
        ConsKeepsTable(users[0], rest, nextId);
      }
    }
  }

  /** Appending a fresh row whose username is not taken keeps the table invariant. */
  lemma AppendUserKeepsTable(users: seq<User>, nextId: int, u: User)
    requires UsersTable(users, nextId)
    requires u.id == nextId >= 1
    requires FindByUsername(users, u.username).None?
    ensures UsersTable(users + [u], nextId + 1)
  {
  }

  /**
   * Two rows of a table that keeps the invariant are told apart by their
   * username: a lookup by username finds the one row that has it.
   */
  lemma FindByUsernameFinds(users: seq<User>, k: nat)
    requires UniqueUsernames(users)
    requires k < |users|
    ensures FindByUsername(users, users[k].username) == Some(users[k])
  {
  }
}
