/** What a client sees through the layers: the handlers' answers when the
    service functions are the ones the item and user services compute over
    the tables. */
module EndToEnd {
  import opened Errors
  import opened Models
  import opened Helper
  import opened Validation
  import ItemStore
  import ItemServices
  import ItemHandlers
  import UserStore
  import AuthHandlers

  /** GET /api/items/{id} over the items table: 404 exactly when the lookup
      succeeded in finding nothing; the stored row when there is one; and,
      because only `ItemNotFound` is reported, a database failure answers
      200 with the zero item. */
  lemma GetItemByIdOverTable(rows: map<int, Item>, id: int, fault: Option<string>)
    ensures ItemHandlers.GetItemByID(Some(id), k => ItemServices.LookupItem(rows, k, fault)).status == StatusNotFound
            <==> fault.None? && id !in rows
    ensures fault.None? && id in rows ==>
      ItemHandlers.GetItemByID(Some(id), k => ItemServices.LookupItem(rows, k, fault)) == Response(StatusOK, ItemRecord(rows[id]))
    ensures fault.Some? ==>
      ItemHandlers.GetItemByID(Some(id), k => ItemServices.LookupItem(rows, k, fault)) == Response(StatusOK, ItemRecord(ZeroItem))
  {
    var lookup := k => ItemServices.LookupItem(rows, k, fault);
    assert lookup(id) == ItemServices.LookupItem(rows, id, fault);
  }

  /** GET /api/items over the items table, given what the item service
      returns for a failed query (`fault`) or a stream cut after `cut` rows.
      A failed query is 500. With an uninterrupted stream, 404 comes exactly
      when the table is empty, and a 200 answer lists every row. A stream cut
      before its first row is 404 "No items found" whatever the table holds,
      and any 200 answer lists only stored rows. */
  lemma GetItemsOverTable(items: seq<Item>, rows: map<int, Item>, fault: Option<string>, cut: Option<nat>)
    requires fault.Some? ==> items == []
    requires fault.None? ==> ItemStore.PartOfRows(items, rows)
    requires fault.None? && cut.Some? ==> |items| <= cut.value
    requires fault.None? && (cut.None? || |items| < cut.value) ==> ItemStore.ListsRows(items, rows)
    ensures fault.Some? ==> ItemHandlers.GetItems(Outcome(items, DbError(fault))).status == StatusInternalServerError
    ensures fault.None? && cut.None? ==>
      (ItemHandlers.GetItems(Outcome(items, DbError(fault))).status == StatusNotFound <==> forall id :: id !in rows)
    ensures fault.None? && cut == Some(0) ==>
      ItemHandlers.GetItems(Outcome(items, DbError(fault))) == Reply(StatusNotFound, ItemHandlers.NoItems)
    ensures ItemHandlers.GetItems(Outcome(items, DbError(fault))).status == StatusOK ==>
      forall item :: item in ItemHandlers.GetItems(Outcome(items, DbError(fault))).body.items ==>
        item.id in rows && rows[item.id] == item
    ensures cut.None? && ItemHandlers.GetItems(Outcome(items, DbError(fault))).status == StatusOK ==>
      forall id :: id in rows ==> rows[id] in ItemHandlers.GetItems(Outcome(items, DbError(fault))).body.items
  {
    if fault.None? && cut.None? {
      ItemStore.ListingEmpty(items, rows);
    }
  }

  /** A lookup that behaves as the user service's by-username lookup with a
      working database: it either finds a stored row with that username or
      reports `UserNotFound`. */
  ghost predicate StoreLookup(rows: map<int, User>, lookup: string -> Outcome<User>) {
    forall name ::
      || Is(lookup(name).err, UserNotFound)
      || (lookup(name).err.None? && lookup(name).value.id in rows
          && rows[lookup(name).value.id] == lookup(name).value && lookup(name).value.username == name)
  }

  /** With the corrected login, a token is only ever issued for a stored user
      whose username is the one the client logged in with. */
  lemma IntendedTokenNamesStoredUser(rows: map<int, User>, body: User, check: User -> ValidatorResult,
                                     lookup: string -> Outcome<User>, compare: (string, string) -> bool,
                                     issue: int -> Outcome<string>)
    requires StoreLookup(rows, lookup)
    ensures AuthHandlers.LoginAsIntended(Some(body), check, lookup, compare, issue).status == StatusOK ==>
      exists id :: id in rows && rows[id].username == body.username
        && AuthHandlers.LoginAsIntended(Some(body), check, lookup, compare, issue).body == Token(issue(id).value)
  {
    var r := AuthHandlers.LoginAsIntended(Some(body), check, lookup, compare, issue);
    if r.status == StatusOK {
      var found := lookup(body.username);
      assert found.err.None? && found.value.id in rows && rows[found.value.id].username == body.username;
      assert r.body == Token(issue(found.value.id).value);
    }
  }

  /** The written login gives no such guarantee: with a single stored user,
      id 7, and a body that carries no id, the token is issued for id 0, and
      no stored user has id 0. */
  lemma WrittenTokenNamesNoStoredUser()
    ensures
      var rows := map[7 := User(7, "alice", "hash-of-secret")];
      var lookup := (name: string) => if name == "alice" then Outcome(rows[7], None) else Outcome(ZeroUser, Some(UserNotFound));
      var r := AuthHandlers.Login(Some(User(0, "alice", "secret")), (u: User) => Passed, lookup,
                                  (plain: string, hashed: string) => true, AuthHandlers.SubjectToken);
      && StoreLookup(rows, lookup)
      && r == Response(StatusOK, Token("sub:0"))
      && 0 !in rows
  {
  }

  /** A lookup that behaves exactly as the user service's by-username lookup
      over `rows` with a working database: it succeeds exactly when the name
      is taken, then with a stored row of that name, and otherwise reports
      `UserNotFound` with the zero user. */
  ghost predicate ServiceLookup(rows: map<int, User>, lookup: string -> Outcome<User>) {
    forall name ::
      && (lookup(name).err.None? <==> UserStore.Taken(rows, name))
      && (!UserStore.Taken(rows, name) ==> lookup(name) == Outcome(ZeroUser, Some(UserNotFound)))
      && (lookup(name).err.None? ==>
            lookup(name).value.id in rows && rows[lookup(name).value.id] == lookup(name).value
            && lookup(name).value.username == name)
  }

  /** Register, then log in with the same credentials. Registering a free
      username answers 201 with the row the store created under the fresh
      id; registering it again answers 409. Logging in then succeeds, and
      the corrected login issues the token for the new id, where the written
      one issues it for the id in the body. */
  lemma RegisterThenLogin(rows: map<int, User>, id: int, hashed: string, body: User,
                          check: User -> ValidatorResult, create: User -> Outcome<User>,
                          before: string -> Outcome<User>, after: string -> Outcome<User>,
                          compare: (string, string) -> bool, issue: int -> Outcome<string>)
    requires Messages(check(body)) == []
    requires id !in rows && !UserStore.Taken(rows, body.username)
    requires ServiceLookup(rows, before)
    requires create(body) == Outcome(User(id, body.username, hashed), None)
    requires ServiceLookup(rows[id := User(id, body.username, hashed)], after)
    requires compare(body.password, hashed)
    ensures AuthHandlers.Register(Some(body), check, before, create)
            == Response(StatusCreated, UserRecord(User(id, body.username, hashed)))
    ensures AuthHandlers.Register(Some(body), check, after, create)
            == Reply(StatusConflict, AuthHandlers.UsernameTaken)
    ensures issue(id).err.None? ==>
      AuthHandlers.LoginAsIntended(Some(body), check, after, compare, issue) == Response(StatusOK, Token(issue(id).value))
    ensures issue(body.id).err.None? ==>
      AuthHandlers.Login(Some(body), check, after, compare, issue) == Response(StatusOK, Token(issue(body.id).value))
  {
    var stored := User(id, body.username, hashed);
    var table := rows[id := stored];
    assert before(body.username) == Outcome(ZeroUser, Some(UserNotFound));
    UserStore.TakenAfterInsert(rows, id, stored, body.username);
    var found := after(body.username);
    assert found.err.None?;
    assert found.value == stored;
  }
}
