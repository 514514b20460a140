/** `repositories.ItemRepository`: the `items` table. The table is a map from
    id to row with the next id the store will assign. A database failure
    (lost connection, a violated constraint, ...) is the `fault` argument of
    each call: when it is given, the call reports it and changes nothing. */
module ItemStore {
  import opened Errors
  import opened Models

  /** Every entry of `items` is a stored row, and no row appears twice. */
  ghost predicate PartOfRows(items: seq<Item>, rows: map<int, Item>) {
    && (forall k :: 0 <= k < |items| ==> items[k].id in rows && rows[items[k].id] == items[k])
    && (forall j, k :: 0 <= j < k < |items| ==> items[j].id != items[k].id)
  }

  /** `items` lists every row of `rows` exactly once, in some order. */
  ghost predicate ListsRows(items: seq<Item>, rows: map<int, Item>) {
    && PartOfRows(items, rows)
    && (forall id :: id in rows ==> rows[id] in items)
  }

  /** A listing is empty exactly when the table has no row. */
  lemma ListingEmpty(items: seq<Item>, rows: map<int, Item>)
    requires ListsRows(items, rows)
    ensures items == [] <==> forall id :: id !in rows
  {
    if items != [] {
      assert items[0].id in rows;
    }
  }

  /** `SELECT * FROM items WHERE id = @id`, scanned into one row. */
  function FindRow(rows: map<int, Item>, id: int, fault: Option<string>): (r: Outcome<Item>)
    ensures r.err.None? <==> fault.None? && id in rows
    ensures r.err.None? ==> r.value == rows[id]
    ensures fault.Some? ==> r == Outcome(ZeroItem, DbError(fault))
    ensures fault.None? && id !in rows ==> r == Outcome(ZeroItem, Some(NoRows))
  {
    if fault.Some? then Outcome(ZeroItem, DbError(fault))
    else if id in rows then Outcome(rows[id], None)
    else Outcome(ZeroItem, Some(NoRows))
  }

  class ItemRepository {
    var rows: map<int, Item>
    var nextId: int

    /** Each row is stored under its own id, and every id in use is below the
        next one to be assigned. */
    ghost predicate Valid()
      reads this
    {
      nextId >= 1 && forall id :: id in rows ==> rows[id].id == id && 1 <= id < nextId
    }

    constructor ()
      ensures Valid() && rows == map[] && nextId == 1
    {
      rows := map[];
      nextId := 1;
    }

    /** GetItems: the rows the query streams back, each once. A failed query
        (`fault`) gives nothing and the error. `cut` is a failure while the
        rows stream back: the stream ends after that many rows, and because
        the loop never asks `rows.Err()`, the rows read so far come back with
        no error. An uninterrupted stream gives every row, and an empty table
        an empty list and no error. */
    method GetItems(fault: Option<string>, cut: Option<nat>) returns (items: seq<Item>, err: Option<Error>)
      requires Valid()
      ensures fault.Some? ==> items == [] && err == DbError(fault)
      ensures fault.None? ==> err.None? && PartOfRows(items, rows)
      ensures fault.None? && cut.Some? ==> |items| <= cut.value
      ensures fault.None? && (cut.None? || |items| < cut.value) ==> ListsRows(items, rows)
    {
      if fault.Some? {
        return [], DbError(fault);
      }
      items, err := [], None;
      var id := 1;
      while id < nextId && (cut.None? || |items| < cut.value)
        invariant 1 <= id <= nextId
        invariant cut.Some? ==> |items| <= cut.value
        invariant forall k :: 0 <= k < |items| ==>
          items[k].id in rows && rows[items[k].id] == items[k] && items[k].id < id
        invariant forall j, k :: 0 <= j < k < |items| ==> items[j].id < items[k].id
        invariant forall r :: r in rows && r < id ==> rows[r] in items
      {
        if id in rows {
          items := items + [rows[id]];
        }
        id := id + 1;
      }
    }

    /** GetItemByID: the row with that id, or the zero item with NoRows. */
    method GetItemByID(id: int, fault: Option<string>) returns (item: Item, err: Option<Error>)
      ensures Outcome(item, err) == FindRow(rows, id, fault)
    {
      var r := FindRow(rows, id, fault);
      item, err := r.value, r.err;
    }

    /** CreateItem: inserts name, bid and owner under a fresh id (the input's
        id is ignored) and returns the stored row. */
    method CreateItem(item: Item, fault: Option<string>) returns (created: Item, err: Option<Error>)
      requires Valid()
      modifies this
      ensures Valid()
      ensures fault.Some? ==> created == ZeroItem && err == DbError(fault) && rows == old(rows) && nextId == old(nextId)
      ensures fault.None? ==> err.None?
      ensures fault.None? ==> created == Item(old(nextId), item.itemName, item.bidAmount, item.auctionedBy)
      ensures fault.None? ==> old(nextId) !in old(rows) && rows == old(rows)[old(nextId) := created]
      ensures fault.None? ==> nextId == old(nextId) + 1
    {
      if fault.Some? {
        return ZeroItem, DbError(fault);
      }
      created := Item(nextId, item.itemName, item.bidAmount, item.auctionedBy);
      rows := rows[nextId := created];
      nextId := nextId + 1;
      err := None;
    }

    /** UpdateItem: replaces the three data fields of the row with `itemID`,
        keeps its id and returns the new row; an absent id is NoRows and
        nothing changes. No other row is touched. */
    method UpdateItem(itemID: int, item: Item, fault: Option<string>) returns (updated: Item, err: Option<Error>)
      requires Valid()
      modifies this
      ensures Valid() && nextId == old(nextId)
      ensures fault.Some? ==> updated == ZeroItem && err == DbError(fault) && rows == old(rows)
      ensures fault.None? && itemID !in old(rows) ==>
        updated == ZeroItem && err == Some(NoRows) && rows == old(rows)
      ensures fault.None? && itemID in old(rows) ==>
        err.None? && updated == Item(itemID, item.itemName, item.bidAmount, item.auctionedBy)
      ensures fault.None? && itemID in old(rows) ==> rows == old(rows)[itemID := updated]
    {
      if fault.Some? {
        return ZeroItem, DbError(fault);
      }
      if itemID !in rows {
        return ZeroItem, Some(NoRows);
      }
      updated := Item(itemID, item.itemName, item.bidAmount, item.auctionedBy);
      rows := rows[itemID := updated];
      err := None;
    }

    /** DeleteItem: removes the row with that id, if any; an absent id is not
        an error. No other row is touched. */
    method DeleteItem(id: int, fault: Option<string>) returns (err: Option<Error>)
      requires Valid()
      modifies this
      ensures Valid() && nextId == old(nextId)
      ensures err == DbError(fault)
      ensures fault.Some? ==> rows == old(rows)
      ensures fault.None? ==> rows == old(rows) - {id}
    {
      if fault.Some? {
        return DbError(fault);
      }
      rows := rows - {id};
      err := None;
    }
  }
}
