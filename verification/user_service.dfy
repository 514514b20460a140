/** `services.UserService`: the user operations the auth handlers call. It
    renames the store's "no rows" to `UserNotFound`, reports an empty user
    list as `UsersNotFound`, and hashes the password before anything is
    stored. The password hasher is the `hash` argument. */
module UserServices {
  import opened Errors
  import opened Models
  import opened UserStore

  /** The single-user lookup: the store's result with `NoRows` renamed to
      `UserNotFound` and every other error kept. */
  function Translate(found: Outcome<User>): (r: Outcome<User>)
    ensures r.value == found.value
    ensures Is(found.err, NoRows) ==> r.err == Some(UserNotFound)
    ensures !Is(found.err, NoRows) ==> r.err == found.err
    ensures !Is(r.err, NoRows)
  {
    if Is(found.err, NoRows) then Outcome(found.value, Some(UserNotFound)) else found
  }

  /** The by-id lookup finds exactly the stored rows. */
  lemma LookupByIdFindsStored(rows: map<int, User>, id: int, fault: Option<string>)
    ensures Translate(FindUser(rows, id, fault)).err.None? <==> fault.None? && id in rows
    ensures fault.None? ==> (Is(Translate(FindUser(rows, id, fault)).err, UserNotFound) <==> id !in rows)
    ensures fault.Some? ==> Translate(FindUser(rows, id, fault)).err == DbError(fault)
  {
  }

  class UserService {
    const repo: UserRepository

    constructor (repo: UserRepository)
      ensures this.repo == repo
    {
      this.repo := repo;
    }

    /** GetUsers: the store's listing. A database error is passed through;
        an empty listing is `UsersNotFound` with no users. With an
        uninterrupted stream that is exactly an empty table; a stream cut
        before its first row reads as one too. */
    method GetUsers(fault: Option<string>, cut: Option<nat>) returns (users: seq<User>, err: Option<Error>)
      requires repo.Valid()
      ensures fault.Some? ==> users == [] && err == DbError(fault)
      ensures fault.None? && cut.None? ==> (err.None? <==> exists id :: id in repo.rows)
      ensures fault.None? && err.None? ==> users != [] && PartOfUsers(users, repo.rows)
      ensures fault.None? && err.None? && (cut.None? || |users| < cut.value) ==> ListsUsers(users, repo.rows)
      ensures fault.None? && err.Some? ==> users == [] && err == Some(UsersNotFound)
      ensures fault.None? && cut == Some(0) ==> users == [] && err == Some(UsersNotFound)
      ensures cut.Some? ==> |users| <= cut.value
    {
      users, err := repo.GetUsers(fault, cut);
      if err.Some? {
        return [], err;
      }
      if cut.None? {
        UserListingEmpty(users, repo.rows);
      }
      if |users| == 0 {
        return [], Some(UsersNotFound);
      }
    }

    /** GetUserByID: the row with that id, `UserNotFound` when there is none,
        or the database's error unchanged. */
    method GetUserByID(id: int, fault: Option<string>) returns (user: User, err: Option<Error>)
      ensures Outcome(user, err) == Translate(FindUser(repo.rows, id, fault))
    {
      user, err := repo.GetUserByID(id, fault);
      if Is(err, NoRows) {
        err := Some(UserNotFound);
      }
    }

    /** GetUserByUsername: a row with that username, `UserNotFound` when
        there is none, or the database's error unchanged. */
    method GetUserByUsername(username: string, fault: Option<string>) returns (user: User, err: Option<Error>)
      requires repo.Valid()
      ensures fault.Some? ==> user == ZeroUser && err == DbError(fault)
      ensures fault.None? ==> (err.None? <==> Taken(repo.rows, username))
      ensures fault.None? && !Taken(repo.rows, username) ==> user == ZeroUser && err == Some(UserNotFound)
      ensures err.None? ==> user.id in repo.rows && repo.rows[user.id] == user && user.username == username
    {
      user, err := repo.GetUserByUsername(username, fault);
      if Is(err, NoRows) {
        err := Some(UserNotFound);
      }
    }

    /** CreateUser: hashes the password first. If hashing fails, the input
        user and the hasher's error come back and the store is not touched.
        Otherwise the store receives only the username and the hash (never
        the input password, nor the input id), and its row comes back. */
    method CreateUser(user: User, hash: string -> Outcome<string>, fault: Option<string>)
      returns (created: User, err: Option<Error>)
      requires repo.Valid()
      modifies repo
      ensures repo.Valid()
      ensures hash(user.password).err.Some? ==>
        created == user && err == hash(user.password).err
      ensures hash(user.password).err.Some? ==>
        repo.rows == old(repo.rows) && repo.nextId == old(repo.nextId)
      ensures hash(user.password).err.None? ==> err == DbError(fault)
      ensures hash(user.password).err.None? && fault.Some? ==>
        created == ZeroUser && repo.rows == old(repo.rows) && repo.nextId == old(repo.nextId)
      ensures hash(user.password).err.None? && fault.None? ==>
        created == User(old(repo.nextId), user.username, hash(user.password).value)
      ensures hash(user.password).err.None? && fault.None? ==>
        old(repo.nextId) !in old(repo.rows) && repo.rows == old(repo.rows)[created.id := created]
      ensures hash(user.password).err.None? && fault.None? ==> repo.nextId == old(repo.nextId) + 1
    {
      var hashed := hash(user.password);
      if hashed.err.Some? {
        return user, hashed.err;
      }
      var details := User(0, user.username, hashed.value);
      created, err := repo.CreateUser(details, fault);
    }
  }
}
