/** `repositories.UserRepository`: the `users` table. The table is a map from id
    to row with the next id the store will assign. As with items, a database
    failure is the `fault` argument of each call: when it is given, the call
    reports it and changes nothing. */
module UserStore {
  import opened Errors
  import opened Models

  /** Every entry of `users` is a stored row, and no row appears twice. */
  ghost predicate PartOfUsers(users: seq<User>, rows: map<int, User>) {
    && (forall k :: 0 <= k < |users| ==> users[k].id in rows && rows[users[k].id] == users[k])
    && (forall j, k :: 0 <= j < k < |users| ==> users[j].id != users[k].id)
  }

  /** `users` lists every row of `rows` exactly once, in some order. */
  ghost predicate ListsUsers(users: seq<User>, rows: map<int, User>) {
    && PartOfUsers(users, rows)
    && (forall id :: id in rows ==> rows[id] in users)
  }

  /** A listing is empty exactly when the table has no row. */
  lemma UserListingEmpty(users: seq<User>, rows: map<int, User>)
    requires ListsUsers(users, rows)
    ensures users == [] <==> forall id :: id !in rows
  {
    if users != [] {
      assert users[0].id in rows;
    }
  }

  /** Some stored row has this username. */
  ghost predicate Taken(rows: map<int, User>, username: string) {
    exists id :: id in rows && rows[id].username == username
  }

  /** `SELECT * FROM users WHERE id = @id`, scanned into one row. */
  function FindUser(rows: map<int, User>, id: int, fault: Option<string>): (r: Outcome<User>)
    ensures r.err.None? <==> fault.None? && id in rows
    ensures r.err.None? ==> r.value == rows[id]
    ensures fault.Some? ==> r == Outcome(ZeroUser, DbError(fault))
    ensures fault.None? && id !in rows ==> r == Outcome(ZeroUser, Some(NoRows))
  {
    if fault.Some? then Outcome(ZeroUser, DbError(fault))
    else if id in rows then Outcome(rows[id], None)
    else Outcome(ZeroUser, Some(NoRows))
  }

  class UserRepository {
    var rows: map<int, User>
    var nextId: int

    /** Each row is stored under its own id, and every id in use is below the
        next one to be assigned. */
    ghost predicate Valid()
      reads this
    {
      nextId >= 1 && forall id :: id in rows ==> rows[id].id == id && 1 <= id < nextId
    }

    constructor ()
      ensures Valid() && rows == map[] && nextId == 1
    {
      rows := map[];
      nextId := 1;
    }

    /** GetUsers: the rows the query streams back, with id, username and
        password, each once. A failed query (`fault`) gives nothing and the
        error. `cut` is a failure while the rows stream back: the stream ends
        after that many rows, and because the loop never asks `rows.Err()`,
        the rows read so far come back with no error. An uninterrupted stream
        gives every row. */
    method GetUsers(fault: Option<string>, cut: Option<nat>) returns (users: seq<User>, err: Option<Error>)
      requires Valid()
      ensures fault.Some? ==> users == [] && err == DbError(fault)
      ensures fault.None? ==> err.None? && PartOfUsers(users, rows)
      ensures fault.None? && cut.Some? ==> |users| <= cut.value
      ensures fault.None? && (cut.None? || |users| < cut.value) ==> ListsUsers(users, rows)
    {
      if fault.Some? {
        return [], DbError(fault);
      }
      users, err := [], None;
      var id := 1;
      while id < nextId && (cut.None? || |users| < cut.value)
        invariant 1 <= id <= nextId
        invariant cut.Some? ==> |users| <= cut.value
        invariant forall k :: 0 <= k < |users| ==>
          users[k].id in rows && rows[users[k].id] == users[k] && users[k].id < id
        invariant forall j, k :: 0 <= j < k < |users| ==> users[j].id < users[k].id
        invariant forall r :: r in rows && r < id ==> rows[r] in users
      {
        if id in rows {
          users := users + [rows[id]];
        }
        id := id + 1;
      }
    }

    /** GetUserByID: the row with that id, or the zero user with NoRows. */
    method GetUserByID(id: int, fault: Option<string>) returns (user: User, err: Option<Error>)
      ensures Outcome(user, err) == FindUser(rows, id, fault)
    {
      var r := FindUser(rows, id, fault);
      user, err := r.value, r.err;
    }

    /** GetUserByUsername: a row whose username is exactly the argument, or
        the zero user with NoRows when there is none. The query has no
        ORDER BY, so which of several matching rows comes back is not fixed;
        this store takes the one with the smallest id. */
    method GetUserByUsername(username: string, fault: Option<string>) returns (user: User, err: Option<Error>)
      requires Valid()
      ensures fault.Some? ==> user == ZeroUser && err == DbError(fault)
      ensures fault.None? ==> (err.None? <==> Taken(rows, username))
      ensures err.None? ==> user.id in rows && rows[user.id] == user && user.username == username
      ensures fault.None? && !Taken(rows, username) ==> user == ZeroUser && err == Some(NoRows)
    {
      if fault.Some? {
        return ZeroUser, DbError(fault);
      }
      var id := 1;
      while id < nextId
        invariant 1 <= id <= nextId
        invariant forall r :: r in rows && r < id ==> rows[r].username != username
      {
        if id in rows && rows[id].username == username {
          return rows[id], None;
        }
        id := id + 1;
      }
      return ZeroUser, Some(NoRows);
    }

    /** CreateUser: inserts the username and password exactly as given (the
        store hashes nothing) under a fresh id, ignoring the input's id, and
        returns the stored row. */
    method CreateUser(user: User, fault: Option<string>) returns (created: User, err: Option<Error>)
      requires Valid()
      modifies this
      ensures Valid()
      ensures fault.Some? ==> created == ZeroUser && err == DbError(fault) && rows == old(rows) && nextId == old(nextId)
      ensures fault.None? ==> err.None?
      ensures fault.None? ==> created == User(old(nextId), user.username, user.password)
      ensures fault.None? ==> old(nextId) !in old(rows) && rows == old(rows)[old(nextId) := created]
      ensures fault.None? ==> nextId == old(nextId) + 1
    {
      if fault.Some? {
        return ZeroUser, DbError(fault);
      }
      created := User(nextId, user.username, user.password);
      rows := rows[nextId := created];
      nextId := nextId + 1;
      err := None;
    }
  }

  /** A stored row's username is taken; after an insert the new username is
      taken and every username taken before still is. */
  lemma TakenAfterInsert(rows: map<int, User>, id: int, user: User, name: string)
    requires id !in rows
    ensures Taken(rows[id := user], user.username)
    ensures Taken(rows, name) ==> Taken(rows[id := user], name)
  {
    assert id in rows[id := user] && rows[id := user][id].username == user.username;
    if Taken(rows, name) {
      var k :| k in rows && rows[k].username == name;
      assert k in rows[id := user] && rows[id := user][k].username == name;
    }
  }
}
