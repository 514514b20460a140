/** `handlers.ItemHandler`: each HTTP handler for items is a chain of early
    returns. Its inputs are the parsed path id (`None` when the path segment
    is not a base-10 int64), the decoded body (`None` when the JSON does not
    decode), the validator's verdict on the body, and the item service's
    answer. The service and the validator are function arguments, so a
    handler that never calls one gives a response that does not depend on
    it. */
module ItemHandlers {
  import opened Errors
  import opened Models
  import opened Helper
  import opened Validation

  const NoItems := "No items found"
  const ListError := "Error retrieving items"
  const InvalidId := "Invalid item ID"
  const NotFound := "Item not found"
  const InvalidBody := "Invalid request body"
  const CreateError := "Error creating item"

  /** GetItems, given the service's answer. */
  function GetItems(listing: Outcome<seq<Item>>): (r: Response)
    ensures r.status == StatusOK <==> listing.err.None? && listing.value != []
    ensures r.status == StatusOK ==> r.body == ItemList(listing.value)
    ensures Is(listing.err, ItemsNotFound) ==> r == Reply(StatusNotFound, NoItems)
    ensures listing.err.Some? && !Is(listing.err, ItemsNotFound) ==> r == Reply(StatusInternalServerError, ListError)
    ensures listing.err.None? && listing.value == [] ==> r == Reply(StatusNotFound, NoItems)
  {
    if Is(listing.err, ItemsNotFound) then Reply(StatusNotFound, NoItems)
    else if listing.err.Some? then Reply(StatusInternalServerError, ListError)
    else if |listing.value| == 0 then Reply(StatusNotFound, NoItems)
    else Response(StatusOK, ItemList(listing.value))
  }

  /** GetItemByID. Only `ItemNotFound` is reported; any other error still
      gives 200 with whatever item the service handed back. */
  function GetItemByID(id: Option<int>, lookup: int -> Outcome<Item>): (r: Response)
    ensures id.None? ==> r == Reply(StatusBadRequest, InvalidId)
    ensures id.Some? && Is(lookup(id.value).err, ItemNotFound) ==> r == Reply(StatusNotFound, NotFound)
    ensures id.Some? && !Is(lookup(id.value).err, ItemNotFound) ==>
      r == Response(StatusOK, ItemRecord(lookup(id.value).value))
  {
    if id.None? then Reply(StatusBadRequest, InvalidId)
    else
      var found := lookup(id.value);
      if Is(found.err, ItemNotFound) then Reply(StatusNotFound, NotFound)
      else Response(StatusOK, ItemRecord(found.value))
  }

  /** CreateItem. */
  function CreateItem(body: Option<Item>, check: Item -> ValidatorResult, create: Item -> Outcome<Item>): (r: Response)
    ensures body.None? ==> r == Reply(StatusBadRequest, InvalidBody)
    ensures body.Some? && Messages(check(body.value)) != [] ==>
      r == Response(StatusBadRequest, ErrorList(Messages(check(body.value))))
    ensures r.status == StatusCreated <==>
      body.Some? && Messages(check(body.value)) == [] && create(body.value).err.None?
    ensures r.status == StatusCreated ==> r.body == ItemRecord(create(body.value).value)
    ensures body.Some? && Messages(check(body.value)) == [] && create(body.value).err.Some? ==>
      r == Reply(StatusInternalServerError, CreateError)
  {
    if body.None? then Reply(StatusBadRequest, InvalidBody)
    else
      var messages := Messages(check(body.value));
      if messages != [] then Response(StatusBadRequest, ErrorList(messages))
      else
        var created := create(body.value);
        if created.err.Some? then Reply(StatusInternalServerError, CreateError)
        else Response(StatusCreated, ItemRecord(created.value))
  }

  /** UpdateItem. The checks run in the order path id, body, validation,
      service; the service is asked to update the row named by the path,
      whatever id the body carries. Only `ItemNotFound` is reported; any
      other outcome gives 200 with whatever item the service handed back. */
  function UpdateItem(id: Option<int>, body: Option<Item>, check: Item -> ValidatorResult,
                      update: (int, Item) -> Outcome<Item>): (r: Response)
    ensures id.None? ==> r == Reply(StatusBadRequest, InvalidId)
    ensures id.Some? && body.None? ==> r == Reply(StatusBadRequest, InvalidBody)
    ensures id.Some? && body.Some? && Messages(check(body.value)) != [] ==>
      r == Response(StatusBadRequest, ErrorList(Messages(check(body.value))))
    ensures id.Some? && body.Some? && Messages(check(body.value)) == [] ==>
      if Is(update(id.value, body.value).err, ItemNotFound) then r == Reply(StatusNotFound, NotFound)
      else r == Response(StatusOK, ItemRecord(update(id.value, body.value).value))
  {
    if id.None? then Reply(StatusBadRequest, InvalidId)
    else if body.None? then Reply(StatusBadRequest, InvalidBody)
    else
      var messages := Messages(check(body.value));
      if messages != [] then Response(StatusBadRequest, ErrorList(messages))
      else
        var updated := update(id.value, body.value);
        if Is(updated.err, ItemNotFound) then Reply(StatusNotFound, NotFound)
        else Response(StatusOK, ItemRecord(updated.value))
  }

  /** A rejected path id or body, or a body with violations, answers 400
      before the service is consulted: any two services give the same
      response. */
  lemma RejectedBeforeService(id: Option<int>, body: Option<Item>, check: Item -> ValidatorResult,
                              lookup1: int -> Outcome<Item>, lookup2: int -> Outcome<Item>,
                              create1: Item -> Outcome<Item>, create2: Item -> Outcome<Item>,
                              update1: (int, Item) -> Outcome<Item>, update2: (int, Item) -> Outcome<Item>)
    ensures id.None? ==> GetItemByID(id, lookup1) == GetItemByID(id, lookup2)
    ensures body.None? || Messages(check(body.value)) != [] ==>
      CreateItem(body, check, create1) == CreateItem(body, check, create2)
      && CreateItem(body, check, create1).status == StatusBadRequest
    ensures id.None? || body.None? || Messages(check(body.value)) != [] ==>
      UpdateItem(id, body, check, update1) == UpdateItem(id, body, check, update2)
      && UpdateItem(id, body, check, update1).status == StatusBadRequest
  {
  }

  /** UpdateItem answers 200, 400 or 404, and 200 exactly when every check
      passed and the service did not report `ItemNotFound`. */
  lemma UpdateStatuses(id: Option<int>, body: Option<Item>, check: Item -> ValidatorResult,
                       update: (int, Item) -> Outcome<Item>)
    ensures UpdateItem(id, body, check, update).status in {StatusOK, StatusBadRequest, StatusNotFound}
    ensures UpdateItem(id, body, check, update).status == StatusOK <==>
      id.Some? && body.Some? && Messages(check(body.value)) == [] && !Is(update(id.value, body.value).err, ItemNotFound)
  {
  }
}
