# auction-api, modelled in Dafny

This project models the core of auction-api, a small Go HTTP service. Users
register and log in, and authenticated callers create, list, read and
update auctioned items. The request path has four layers:

- **Handlers** are chains of early returns that map a decoded request to a
  status code and a JSON body.
- **Services** rename the database's "no rows" to their own not-found errors,
  check that a row exists before updating or deleting it, and hash a
  password before it is stored.
- **Repositories** run one SQL statement each against two tables, `items`
  and `users`.
- **The auth guard** is the middleware in front of the item routes. It cuts
  the token out of the `Authorization` header around the word `Bearer`, has
  it verified, and either answers 400 itself or calls the wrapped handler
  with the caller's id in the request context.

One module per source file:

| module | file | source |
|---|---|---|
| `Models` | models.dfy | `internal/models/item.go`, `internal/models/user.go` |
| `Validation` | validate.dfy | `internal/lib/validate.go` |
| `Middleware` | middleware.dfy | `internal/middleware/middleware.go` |
| `ItemStore` | item_repository.dfy | `internal/repositories/item_repository.go` |
| `ItemServices` | item_service.dfy | `internal/services/item_service.go` |
| `ItemHandlers` | item_handler.dfy | `internal/handlers/item_handler.go` |
| `UserStore` | user_repository.dfy | `internal/repositories/user_repository.go` |
| `UserServices` | user_service.dfy | `internal/services/user_service.go` |
| `AuthHandlers` | auth_handler.dfy | `internal/handlers/auth_handler.go` |

Four more modules support these and tie them together:

- `Errors` holds the error values, Go's `(value, error)` pairs and the database
  failure.
- `Strings` holds `strings.Split`, `strings.TrimSpace` and `strings.ToLower`.
- `Helper` holds the status codes and the response bodies.
- `EndToEnd` holds lemmas that read the handlers over the tables.

How the Go program is represented:

- **Tables.** Each table is a class holding a map from id to row and the
  next id the table will assign.
- **Repository methods.** Each method updates the map in place and states
  the whole new table in its postcondition. A failed query (a lost
  connection, a violated constraint) is the method's `fault` argument: when
  it is given, the call reports `Database(reason)` and changes nothing.
- **Interrupted listings.** The listing loops never ask `rows.Err()`. So a
  failure while the rows stream back (the `cut` argument: the stream ends
  after that many rows) is not reported. The rows read so far come back
  with no error.
- **Services.** Services are classes that hold their repository.
- **Listing order.** `GetItems` and `GetUsers` walk the table in ascending
  id order. Their contracts promise only what SQL promises: every row once,
  in some order.
- **Handlers and the guard.** These are pure functions. The services, the
  validator, the password hasher and comparer, and the token issuer and
  verifier are function arguments. "The service is not called" is stated
  as "the response is the same for every service".
- **Body keys.** A message body is `{"messsage": text}`. The key really is
  spelled with three s's (`Helper.MessageKey`).

## Model

| member | source | states |
|---|---|---|
| Models.ValidItemFields | internal/models/item.go:5-7 | a valid item has a non-empty name of 3 to 100 characters, a bid of at least 1, and a non-zero owner |
| Models.ValidUserFields | internal/models/user.go:5-6 | a valid user has a username of 3 to 25 characters and a password of 8 to 50 |
| Models.ItemValid | internal/models/item.go:5-7 | the conjunction of the item's `validate:` tags: name required, 3 to 100 characters; bid required, at least 1; owner required |
| Models.UserValid | internal/models/user.go:5-6 | the conjunction of the user's `validate:` tags: username required, 3 to 25 characters; password required, 8 to 50 characters |
| Models.ItemValidityIgnoresId | internal/models/item.go:4 | the item's id carries no validation tag, so changing it never changes the item's validity |
| Models.UserValidityIgnoresId | internal/models/user.go:4 | the user's id carries no validation tag, so changing it never changes the user's validity |
| Models.ItemJson | internal/models/item.go:4-7 | every item field is `omitempty`: a key is present exactly when its field is non-zero, and then it holds that field |
| Models.ValidItemJsonHasData | internal/models/item.go:5-7 | a valid item always serialises its name, bid and owner |
| Models.UserJson | internal/models/user.go:4-6 | a serialised user always has exactly the keys id, username and password, so the password is always written out |
| Strings.Split | internal/middleware/middleware.go:22 | splitting gives at least one piece |
| Strings.JoinSplit | internal/middleware/middleware.go:22 | joining the pieces with the separator gives back the header |
| Strings.SplitPiecesFree | internal/lib/validate.go:24 | no piece contains the separator |
| Strings.TwoPieces | internal/middleware/middleware.go:22-27 | for a separator that cannot overlap itself, splitting gives exactly two pieces if and only if the separator occurs exactly once |
| Strings.PiecesAroundSole | internal/middleware/middleware.go:22-29 | when the separator occurs once, the two pieces are the text before it and the text after it |
| Strings.SpaceEnd | internal/middleware/middleware.go:29 | the scan for the start stops at the first character that is not white space, and everything it passes is white space |
| Strings.SpaceStart | internal/middleware/middleware.go:29 | the scan back for the stop, never below the start, stops after the last character that is not white space |
| Strings.TrimSpace | internal/middleware/middleware.go:29 | the trimmed token is no longer than the original, and neither of its ends is white space |
| Strings.TrimSpaceCutsSpace | internal/middleware/middleware.go:29 | the trimmed token is an infix of the original, with only white space cut off on either side |
| Strings.TrimSpaceUnique | internal/middleware/middleware.go:29 | for white space, then a text whose ends are not white space, then white space, trimming gives exactly that text |
| Strings.TrimSpaceIdempotent | internal/middleware/middleware.go:29 | trimming twice is the same as trimming once |
| Strings.ToLower | internal/lib/validate.go:77 | lower-casing keeps the length and lower-cases each character in place |
| Strings.ToLowerIdempotent | internal/lib/validate.go:77 | lower-casing twice is the same as lower-casing once |
| Validation.TagName | internal/lib/validate.go:23-30 | the field name is the json tag's text before its first comma, which contains no comma; the name is "" exactly when that text is empty or is `-` |
| Validation.MessageFor | internal/lib/validate.go:40-75 | a tag outside the table gets the fixed fallback message, and no message is empty |
| Validation.TableForModelTags | internal/lib/validate.go:41-70 | `required`, `min` and `max` give their field- and parameter-specific messages, and `numeric` gives a message that does not depend on the field |
| Validation.EntryShape | internal/lib/validate.go:77 | an entry's field is the reported name lower-cased: same length, no upper-case ASCII letter left, and unchanged by lower-casing again |
| Validation.Entries | internal/lib/validate.go:37-78 | one entry per violation, in the validator's order, each built from its violation |
| Validation.EntriesAppend | internal/lib/validate.go:37-78 | the entries of two runs of violations are the two runs' entries concatenated |
| Validation.Messages | internal/lib/validate.go:32-36 | there are no entries exactly when validation passed, or failed with something other than a violation list, or reported no violations |
| Validation.Entry | internal/lib/validate.go:40-77 | the entry for one violation: the reported name lower-cased, with the table's message for its tag |
| Validation.ValidateStruct | internal/lib/validate.go:21-85 | the loop returns the entries of the violations, one per violation in order, and nothing when there is no violation list |
| Middleware.SchemeOverlapFree | internal/middleware/middleware.go:22 | two occurrences of "Bearer" can never overlap |
| Middleware.BearerToken | internal/middleware/middleware.go:22-29 | a token is extracted exactly when "Bearer" occurs once anywhere in the header, and it is the trimmed text after that occurrence |
| Middleware.Decide | internal/middleware/middleware.go:33-50 | rejections follow the precedence unknown claims, then expiry, then invalid, each with 400; otherwise the request is forwarded with `userId` bound to the subject; every rejection is 400 |
| Middleware.AuthGuard | internal/middleware/middleware.go:13-52 | an empty header gives 400 "You need to be logged in to access this"; a header without exactly one "Bearer" gives 400 "Bearer token not in proper format"; otherwise the verifier decides; every rejection is 400 |
| Middleware.ForwardedOnlyWhenVerified | internal/middleware/middleware.go:29-50 | the wrapped handler is called exactly when the header has one "Bearer" and the verifier accepts the trimmed token; the context then binds `userId` to the subject and keeps every other entry |
| Middleware.PrefixIgnored | internal/middleware/middleware.go:22-29 | whatever precedes "Bearer" in the header is ignored |
| ItemStore.ListingEmpty | internal/repositories/item_repository.go:20-44 | a listing of the table is empty exactly when the table has no row |
| ItemStore.FindRow | internal/repositories/item_repository.go:47-62 | the lookup succeeds exactly when there is no fault and the id is stored, and it then returns that row; an absent id gives the zero item with NoRows |
| ItemStore.ItemRepository.GetItems | internal/repositories/item_repository.go:20-44 | a failed query gives nothing and the error; otherwise no error, and only stored rows, each at most once; a stream cut after n rows gives at most n of them; an uninterrupted stream lists every stored row exactly once, so an empty table gives an empty list |
| ItemStore.ItemRepository.GetItemByID | internal/repositories/item_repository.go:47-62 | returns the store's lookup of that id |
| ItemStore.ItemRepository.CreateItem | internal/repositories/item_repository.go:65-82 | stores name, bid and owner under the next fresh id, ignores the input's id, and returns the stored row; no other row changes |
| ItemStore.ItemRepository.UpdateItem | internal/repositories/item_repository.go:85-103 | replaces the three data fields of the row with that id, keeps its id, and returns the new row; an absent id gives NoRows and changes nothing; no other row changes |
| ItemStore.ItemRepository.DeleteItem | internal/repositories/item_repository.go:106-119 | removes the row with that id and no other; an absent id is not an error |
| ItemServices.LookupItem | internal/services/item_service.go:43-54 | no rows becomes `ItemNotFound` with the zero item; a database error is passed through unchanged; a stored id gives its row |
| ItemServices.LookupFindsStored | internal/services/item_service.go:43-54 | with a working database, the lookup succeeds if and only if the id is stored, and reports `ItemNotFound` if and only if it is not |
| ItemServices.LookupAfterStore | internal/services/item_service.go:43-54 | after a row is stored under an id, looking that id up returns the row |
| ItemServices.LookupAfterRemove | internal/services/item_service.go:43-54 | after an id is removed, its lookup gives `ItemNotFound`, and lookups of every other id are unchanged |
| ItemServices.ItemService.GetItems | internal/services/item_service.go:26-40 | repository errors pass through unchanged, `ItemsNotFound` is never returned, an empty table is not an error, and a cut stream gives the rows read so far with no error |
| ItemServices.ItemService.GetItemByID | internal/services/item_service.go:43-54 | the answer is the service lookup of that id over the current table |
| ItemServices.ItemService.CreateItem | internal/services/item_service.go:57-66 | the repository's insert and its result, unchanged |
| ItemServices.ItemService.UpdateItem | internal/services/item_service.go:69-85 | a missing id gives `ItemNotFound` and no write; a failed lookup returns its error and writes nothing; otherwise the row takes the new data under its own id |
| ItemServices.ItemService.DeleteItem | internal/services/item_service.go:88-104 | a missing id gives `ItemNotFound` and deletes nothing; otherwise that row, and only it, is removed |
| ItemServices.CreateThenGet | internal/services/item_service.go:57-66 | creating an item and then looking up the returned id gives back an equal item |
| ItemServices.DeleteThenGet | internal/services/item_service.go:88-104 | after a delete, looking up the same id gives `ItemNotFound` |
| ItemServices.UpdateMissing | internal/services/item_service.go:69-75 | updating an id that is not stored gives `ItemNotFound` and leaves every row as it was |
| ItemHandlers.GetItems | internal/handlers/item_handler.go:22-41 | `ItemsNotFound` gives 404 "No items found", any other error 500 "Error retrieving items", an empty list 404; 200 with the list exactly when there is no error and the list is non-empty |
| ItemHandlers.GetItemByID | internal/handlers/item_handler.go:43-61 | an unparsable id gives 400 "Invalid item ID"; `ItemNotFound` gives 404 "Item not found"; every other outcome, errors included, gives 200 with the returned item |
| ItemHandlers.CreateItem | internal/handlers/item_handler.go:63-88 | a decode failure gives 400 "Invalid request body", a non-empty violation list gives 400 with that list, and a service error gives 500 "Error creating item"; 201 with the created item exactly when all three pass |
| ItemHandlers.UpdateItem | internal/handlers/item_handler.go:90-123 | checks the path id, then the body, then validation, then the service; the service is asked to update the path's id; `ItemNotFound` gives 404, and any other outcome 200 with the returned item |
| ItemHandlers.RejectedBeforeService | internal/handlers/item_handler.go:44-113 | a bad path id, a bad body or a violation answers 400 without consulting the service |
| ItemHandlers.UpdateStatuses | internal/handlers/item_handler.go:90-123 | the update answers 200, 400 or 404, and 200 exactly when every check passed and the service did not report `ItemNotFound` |
| UserStore.UserListingEmpty | internal/repositories/user_repository.go:20-44 | a listing of the users table is empty exactly when the table has no row |
| UserStore.FindUser | internal/repositories/user_repository.go:47-62 | the lookup succeeds exactly when there is no fault and the id is stored, and it then returns that row; an absent id gives NoRows |
| UserStore.UserRepository.GetUsers | internal/repositories/user_repository.go:20-44 | a failed query gives nothing and the error; otherwise no error, and only stored users, each at most once; a stream cut after n rows gives at most n of them; an uninterrupted stream lists every stored user exactly once |
| UserStore.UserRepository.GetUserByID | internal/repositories/user_repository.go:47-62 | returns the store's lookup of that id |
| UserStore.UserRepository.GetUserByUsername | internal/repositories/user_repository.go:65-80 | with a working database it succeeds if and only if some row has that username, and it returns such a row; otherwise the zero user with NoRows |
| UserStore.UserRepository.CreateUser | internal/repositories/user_repository.go:83-99 | stores the username and password exactly as given under a fresh id, ignores the input's id, and returns the stored row |
| UserStore.TakenAfterInsert | internal/repositories/user_repository.go:83-99 | after an insert the new username is taken, and every username taken before still is |
| UserServices.Translate | internal/services/user_service.go:44-69 | no rows becomes `UserNotFound`; the user value and every other error are passed through |
| UserServices.LookupByIdFindsStored | internal/services/user_service.go:44-55 | with a working database, the lookup by id succeeds if and only if the id is stored, and reports `UserNotFound` if and only if it is not; a database error passes through |
| UserServices.UserService.GetUsers | internal/services/user_service.go:27-41 | repository errors pass through; an empty listing is `UsersNotFound` with no users; with an uninterrupted stream that happens exactly when the table is empty, and otherwise every user comes back; a stream cut before its first row is `UsersNotFound` too |
| UserServices.UserService.GetUserByID | internal/services/user_service.go:44-55 | the translated lookup of that id |
| UserServices.UserService.GetUserByUsername | internal/services/user_service.go:58-69 | a row with that username; `UserNotFound` exactly when no row has it; a database error passes through |
| UserServices.UserService.CreateUser | internal/services/user_service.go:72-93 | a hashing failure returns the input user and the error and leaves the table untouched; otherwise the table receives the username and the hash, never the input password or id, and the stored row comes back |
| AuthHandlers.Register | internal/handlers/auth_handler.go:22-54 | decode and validation failures give 400; any lookup outcome other than `UserNotFound` gives 409 "Username is already taken" with nothing created; a create error gives 500; 201 with the created user exactly when all checks pass |
| AuthHandlers.Login | internal/handlers/auth_handler.go:56-100 | an unknown username and a wrong password give the same 400; a lookup error is not reported, and the password is compared against whatever came back; the token is issued for the body's id; 500 "Internal server error" exactly when the user was found, the password matched and issuing failed |
| AuthHandlers.SameAnswerForUnknownUserAndWrongPassword | internal/handlers/auth_handler.go:74-86 | an unknown username and a wrong password give identical responses |
| AuthHandlers.LoginIssuesForBodyId | internal/handlers/auth_handler.go:88 | with a stored user of id 7 and a body without an id, the written login issues the token for id 0 and the corrected one for 7 |
| AuthHandlers.LoginAsIntended | internal/handlers/auth_handler.go:56-100 | the same chain as the written login, except that the token is issued for the found user's id: 200 exactly when the user was found, the password matched and issuing for that id succeeded, and 500 exactly when that issue failed |
| AuthHandlers.LoginAsIntendedOnlyFixesSubject | internal/handlers/auth_handler.go:88 | when the body carries the found user's id, the corrected login answers exactly as the written one |
| EndToEnd.GetItemByIdOverTable | internal/handlers/item_handler.go:53-60 | over the items table, the answer is 404 exactly when the database worked and the id is absent, and 200 with the row when it is stored; a database failure answers 200 with the zero item |
| EndToEnd.GetItemsOverTable | internal/handlers/item_handler.go:22-41 | over the items table, a failed query gives 500; with an uninterrupted stream, 404 exactly when the table is empty and a 200 answer lists every row; a stream cut before its first row gives 404 "No items found" whatever the table holds; a 200 answer lists only stored rows |
| EndToEnd.IntendedTokenNamesStoredUser | internal/handlers/auth_handler.go:74-99 | with the corrected login, a token is issued only for a stored user whose username is the one given at login |
| EndToEnd.WrittenTokenNamesNoStoredUser | internal/handlers/auth_handler.go:88 | with the written login, a successful login can yield a token for an id that no stored user has |
| EndToEnd.RegisterThenLogin | internal/handlers/auth_handler.go:22-99 | registering a free username answers 201 with the row created under the fresh id, and registering it again answers 409; logging in with the same credentials then answers 200, with the corrected login's token issued for the new id and the written login's for the id in the body |

## Findings

| source | as written | input that shows it | evidently intended | confidence | as-written member | corrected member |
|---|---|---|---|---|---|---|
| internal/handlers/auth_handler.go:88 | `Login` passes the id decoded from the request body to `GenerateToken`. The body decodes into a `User`, whose id has the json key `id`. So the token's subject is whatever id the client sends, and 0 when the body has none. The auth guard then puts that id into the request context as `userId`. | stored user `{id: 7, username: "alice"}` and body `{"username": "alice", "password": <matching>}` give a token for subject 0 | issue the token for the id of the user the lookup found (`existingUser.ID`) | not executed | AuthHandlers.Login, with AuthHandlers.LoginIssuesForBodyId and EndToEnd.WrittenTokenNamesNoStoredUser | AuthHandlers.LoginAsIntended, with EndToEnd.IntendedTokenNamesStoredUser |

## Left out

- Routing, server start-up and configuration (`cmd/api/api.go`, `internal/config/config.go`) are not modelled. The router puts `AuthGuard` in front of the `/api/items` routes only; `/register` and `/login` are unguarded.
- `ItemHandler.DeleteItem` is registered by the router but is not defined in the handler file, so it has no model. The item service's `DeleteItem` is modelled.
- The connection pool (`internal/lib/db.go`) is not modelled. Its one-time initialisation is concurrency and I/O. The tables are in-memory maps, and a failure is the `fault` argument.
- Validation.ValidateStruct: the validator is a package-level variable that every call rebuilds and then uses. Concurrent requests, which net/http serves on separate goroutines, can therefore validate with a validator whose tag-name function is not yet registered, and report Go field names (`itemname`, "ItemName is required"). The model is sequential and does not capture this race.
- A concurrent write between the service's existence check and its update or delete is not modelled, because the model is sequential. Each step gets its own `fault` argument.
- Password hashing and comparison (`internal/lib/hash.go`, bcrypt) are the `hash` and `compare` arguments.
- Token issuing and verification (`internal/lib/token.go`, JWT signing and the wall clock, including the expiry rule) are the `issue` and `verify` arguments.
- The JSON decoding of request bodies and the parsing of the path id with `strconv.ParseInt` (`internal/handlers/helper/helper.go`) are inputs: `None` stands for a failed decode or parse. Response writing becomes a `Response` value.
- Two parts of the validator are not modelled: its own evaluation of the `validate:` tags, and its fallback to the Go field name when the tag name is "". Its outcome is the input of `ValidateStruct`, and the models' validity predicates are read off the tags.
- Strings.ToLower: lower-cases ASCII letters only; Go's `strings.ToLower` also maps the other Unicode upper-case letters.
- Strings.IsSpace: is the Unicode White_Space set that Go's `unicode.IsSpace` uses. Invalid UTF-8 is not modelled, because strings here are sequences of code points.
- `bid_amount` is a Go `float64`; here it is an exact real with no rounding.
- Ids are unbounded integers, and the `int64` range is not modelled.
- How the database assigns ids is not part of the source. The model's counter gives each insert the next id, and a failed insert consumes no id.
- `ItemService.GetItems` checks for no rows after it has already returned on every error. That check can never fire, so it has no model of its own. Its consequence is part of the contract: `ItemsNotFound` is never returned.
- When a single-row query fails, Go scans nothing, and the repository returns the zero record beside the error. The model returns the zero record on every failure. A scan that fails half-way is not modelled.
- `GetUserByUsername` returns one matching row, and with several matches SQL does not fix which. The model returns the one with the smallest id. The contract promises only "a row with that username".
- Logging calls are left out.
