/** `services.ItemService`: the item operations the handlers call. It renames
    the store's "no rows" to `ItemNotFound`, and it looks a row up before it
    updates or deletes it. Each step that reaches the database takes its own
    `fault` argument: `lookupFault` for the existence check and `writeFault`
    for the write after it. */
module ItemServices {
  import opened Errors
  import opened Models
  import opened ItemStore

  /** The service's single-item lookup. It is the store's lookup with
      `NoRows` renamed to `ItemNotFound`, and every other error kept. */
  function LookupItem(rows: map<int, Item>, id: int, fault: Option<string>): (r: Outcome<Item>)
    ensures r.err.None? <==> fault.None? && id in rows
    ensures r.err.None? ==> r.value == rows[id]
    ensures fault.None? && id !in rows ==> r == Outcome(ZeroItem, Some(ItemNotFound))
    ensures fault.Some? ==> r == Outcome(ZeroItem, DbError(fault))
    ensures !Is(r.err, NoRows)
  {
    var found := FindRow(rows, id, fault);
    if Is(found.err, NoRows) then Outcome(found.value, Some(ItemNotFound)) else found
  }

  /** The lookup finds exactly the rows that are stored. With no fault it
      succeeds or reports `ItemNotFound`, and nothing else. */
  lemma LookupFindsStored(rows: map<int, Item>, id: int)
    ensures LookupItem(rows, id, None).err.None? <==> id in rows
    ensures Is(LookupItem(rows, id, None).err, ItemNotFound) <==> id !in rows
  {
  }

  /** After a row is stored under an id, the lookup of that id returns it. */
  lemma LookupAfterStore(rows: map<int, Item>, id: int, item: Item)
    ensures LookupItem(rows[id := item], id, None) == Outcome(item, None)
  {
  }

  /** After an id is removed, its lookup reports `ItemNotFound`. Lookups of
      other ids are unaffected. */
  lemma LookupAfterRemove(rows: map<int, Item>, id: int, other: int)
    ensures LookupItem(rows - {id}, id, None) == Outcome(ZeroItem, Some(ItemNotFound))
    ensures other != id ==> LookupItem(rows - {id}, other, None) == LookupItem(rows, other, None)
  {
  }

  class ItemService {
    const repo: ItemRepository

    constructor (repo: ItemRepository)
      ensures this.repo == repo
    {
      this.repo := repo;
    }

    /** GetItems: the store's listing, and its error unchanged. It never
        reports `ItemsNotFound`, and an empty table is not an error. A stream
        cut after `cut` rows gives the rows read so far and no error. */
    method GetItems(fault: Option<string>, cut: Option<nat>) returns (items: seq<Item>, err: Option<Error>)
      requires repo.Valid()
      ensures err == DbError(fault)
      ensures !Is(err, ItemsNotFound)
      ensures fault.Some? ==> items == []
      ensures fault.None? ==> PartOfRows(items, repo.rows)
      ensures fault.None? && cut.Some? ==> |items| <= cut.value
      ensures fault.None? && (cut.None? || |items| < cut.value) ==> ListsRows(items, repo.rows)
    {
      items, err := repo.GetItems(fault, cut);
    }

    /** GetItemByID: the row with that id; `ItemNotFound` when there is none;
        the database's error, unchanged, when the lookup fails. */
    method GetItemByID(id: int, fault: Option<string>) returns (item: Item, err: Option<Error>)
      ensures Outcome(item, err) == LookupItem(repo.rows, id, fault)
    {
      item, err := repo.GetItemByID(id, fault);
      if Is(err, NoRows) {
        err := Some(ItemNotFound);
      }
    }

    /** CreateItem: the store's insert and its result, unchanged. */
    method CreateItem(item: Item, fault: Option<string>) returns (created: Item, err: Option<Error>)
      requires repo.Valid()
      modifies repo
      ensures repo.Valid()
      ensures err == DbError(fault)
      ensures fault.Some? ==> created == ZeroItem && repo.rows == old(repo.rows) && repo.nextId == old(repo.nextId)
      ensures fault.None? ==> created == Item(old(repo.nextId), item.itemName, item.bidAmount, item.auctionedBy)
      ensures fault.None? ==> old(repo.nextId) !in old(repo.rows) && repo.rows == old(repo.rows)[created.id := created]
      ensures fault.None? ==> repo.nextId == old(repo.nextId) + 1
    {
      created, err := repo.CreateItem(item, fault);
    }

    /** UpdateItem: looks the id up first. When the lookup fails, whether
        because the row is missing (`ItemNotFound`) or because the database
        failed, nothing is written and that error is returned. Otherwise the
        row gets the three data fields of `data` and keeps its id. */
    method UpdateItem(itemId: int, data: Item, lookupFault: Option<string>, writeFault: Option<string>)
      returns (updated: Item, err: Option<Error>)
      requires repo.Valid()
      modifies repo
      ensures repo.Valid() && repo.nextId == old(repo.nextId)
      ensures LookupItem(old(repo.rows), itemId, lookupFault).err.Some? ==>
        updated == ZeroItem && err == LookupItem(old(repo.rows), itemId, lookupFault).err && repo.rows == old(repo.rows)
      ensures lookupFault.None? && itemId !in old(repo.rows) ==> err == Some(ItemNotFound)
      ensures lookupFault.None? && itemId in old(repo.rows) && writeFault.Some? ==>
        updated == ZeroItem && err == DbError(writeFault) && repo.rows == old(repo.rows)
      ensures lookupFault.None? && itemId in old(repo.rows) && writeFault.None? ==>
        err.None? && updated == Item(itemId, data.itemName, data.bidAmount, data.auctionedBy)
      ensures lookupFault.None? && itemId in old(repo.rows) && writeFault.None? ==>
        repo.rows == old(repo.rows)[itemId := updated]
    {
      var existing;
      existing, err := GetItemByID(itemId, lookupFault);
      if err.Some? {
        return existing, err;
      }
      updated, err := repo.UpdateItem(itemId, data, writeFault);
    }

    /** DeleteItem: looks the id up first. When the lookup fails, nothing is
        deleted and that error is returned; otherwise the row is removed. */
    method DeleteItem(itemId: int, lookupFault: Option<string>, writeFault: Option<string>) returns (err: Option<Error>)
      requires repo.Valid()
      modifies repo
      ensures repo.Valid() && repo.nextId == old(repo.nextId)
      ensures LookupItem(old(repo.rows), itemId, lookupFault).err.Some? ==>
        err == LookupItem(old(repo.rows), itemId, lookupFault).err && repo.rows == old(repo.rows)
      ensures lookupFault.None? && itemId !in old(repo.rows) ==> err == Some(ItemNotFound)
      ensures lookupFault.None? && itemId in old(repo.rows) ==> err == DbError(writeFault)
      ensures lookupFault.None? && itemId in old(repo.rows) && writeFault.Some? ==> repo.rows == old(repo.rows)
      ensures lookupFault.None? && itemId in old(repo.rows) && writeFault.None? ==>
        repo.rows == old(repo.rows) - {itemId}
    {
      var existing;
      existing, err := GetItemByID(itemId, lookupFault);
      if err.Some? {
        return err;
      }
      err := repo.DeleteItem(itemId, writeFault);
    }
  }

  /** A create followed by a lookup of the returned id gives back an equal
      item: the input's three data fields under the new id. */
  method CreateThenGet(service: ItemService, item: Item) returns (created: Item, found: Item, err: Option<Error>)
    requires service.repo.Valid()
    modifies service.repo
    ensures err.None? && found == created
    ensures found == Item(created.id, item.itemName, item.bidAmount, item.auctionedBy)
  {
    var createErr;
    created, createErr := service.CreateItem(item, None);
    found, err := service.GetItemByID(created.id, None);
  }

  /** A successful delete followed by a lookup of the same id reports
      `ItemNotFound`. */
  method DeleteThenGet(service: ItemService, id: int) returns (deleteErr: Option<Error>, found: Item, err: Option<Error>)
    requires service.repo.Valid()
    modifies service.repo
    ensures deleteErr.None? ==> found == ZeroItem && err == Some(ItemNotFound)
    ensures deleteErr.Some? ==> deleteErr == Some(ItemNotFound) && err == Some(ItemNotFound)
  {
    deleteErr := service.DeleteItem(id, None, None);
    found, err := service.GetItemByID(id, None);
  }

  /** Updating an id that is not stored reports `ItemNotFound` and leaves
      every row as it was. */
  method UpdateMissing(service: ItemService, id: int, data: Item) returns (updated: Item, err: Option<Error>)
    requires service.repo.Valid() && id !in service.repo.rows
    modifies service.repo
    ensures err == Some(ItemNotFound) && updated == ZeroItem
    ensures service.repo.rows == old(service.repo.rows)
  {
    updated, err := service.UpdateItem(id, data, None, None);
  }
}
