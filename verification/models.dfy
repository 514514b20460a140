/** The two records of the service, `internal/models`: an auctioned item and a
    user. Each `validate:` struct tag becomes one conjunct of a validity
    predicate, and each `json:` tag one entry of the record's JSON object. */
module Models {

  /** `bid_amount` is a Go float64; it is modelled as an exact real. */
  datatype Item = Item(id: int, itemName: string, bidAmount: real, auctionedBy: int)

  datatype User = User(id: int, username: string, password: string)

  /** The zero values Go hands back beside an error. */
  const ZeroItem := Item(0, "", 0.0, 0)
  const ZeroUser := User(0, "", "")

  /** The validator's `required` on a string, `min`/`max` on a string (a count
      of characters) and `required` on a number (not the zero value). */
  predicate RequiredText(s: string) { s != "" }
  predicate MinLen(s: string, n: nat) { |s| >= n }
  predicate MaxLen(s: string, n: nat) { |s| <= n }

  /** Item's tags: `item_name` required,min=3,max=100; `bid_amount`
      required,numeric,min=1; `auctioned_by` required,numeric. `numeric` holds
      of every Go number, so it adds no conjunct; `id` has no tag. */
  predicate ItemValid(i: Item) {
    && RequiredText(i.itemName) && MinLen(i.itemName, 3) && MaxLen(i.itemName, 100)
    && i.bidAmount != 0.0 && i.bidAmount >= 1.0
    && i.auctionedBy != 0
  }

  /** User's tags: `username` required,min=3,max=25; `password`
      required,min=8,max=50; `id` has no tag. */
  predicate UserValid(u: User) {
    && RequiredText(u.username) && MinLen(u.username, 3) && MaxLen(u.username, 25)
    && RequiredText(u.password) && MinLen(u.password, 8) && MaxLen(u.password, 50)
  }

  /** What a valid item guarantees about each field. */
  lemma ValidItemFields(i: Item)
    requires ItemValid(i)
    ensures 3 <= |i.itemName| <= 100 && i.itemName != ""
    ensures i.bidAmount >= 1.0
    ensures i.auctionedBy != 0
  {
  }

  /** What a valid user guarantees about each field. */
  lemma ValidUserFields(u: User)
    requires UserValid(u)
    ensures 3 <= |u.username| <= 25
    ensures 8 <= |u.password| <= 50
  {
  }

  /** An item's id carries no constraint, so its validity never depends on it. */
  lemma ItemValidityIgnoresId(i: Item, id: int)
    ensures ItemValid(i.(id := id)) == ItemValid(i)
  {
  }

  /** A user's id carries no constraint either. */
  lemma UserValidityIgnoresId(u: User, id: int)
    ensures UserValid(u.(id := id)) == UserValid(u)
  {
  }

  /** A JSON value as encoding/json writes the fields of these records. */
  datatype Json = JString(text: string) | JInt(number: int) | JReal(amount: real)

  /** encoding/json on an Item: every field is `omitempty`, so a field holding
      its zero value is left out of the object. */
  function ItemJson(i: Item): (obj: map<string, Json>)
    ensures obj.Keys <= {"id", "item_name", "bid_amount", "auctioned_by"}
    ensures "id" in obj <==> i.id != 0
    ensures "item_name" in obj <==> i.itemName != ""
    ensures "bid_amount" in obj <==> i.bidAmount != 0.0
    ensures "auctioned_by" in obj <==> i.auctionedBy != 0
    ensures "id" in obj ==> obj["id"] == JInt(i.id)
    ensures "item_name" in obj ==> obj["item_name"] == JString(i.itemName)
    ensures "bid_amount" in obj ==> obj["bid_amount"] == JReal(i.bidAmount)
    ensures "auctioned_by" in obj ==> obj["auctioned_by"] == JInt(i.auctionedBy)
  {
    var withId := if i.id != 0 then map["id" := JInt(i.id)] else map[];
    var withName := if i.itemName != "" then withId["item_name" := JString(i.itemName)] else withId;
    var withBid := if i.bidAmount != 0.0 then withName["bid_amount" := JReal(i.bidAmount)] else withName;
    if i.auctionedBy != 0 then withBid["auctioned_by" := JInt(i.auctionedBy)] else withBid
  }

  /** encoding/json on a User: no field is `omitempty`, so all three are always
      written, the password included. */
  function UserJson(u: User): (obj: map<string, Json>)
    ensures obj.Keys == {"id", "username", "password"}
    ensures obj["password"] == JString(u.password)
    ensures obj["username"] == JString(u.username) && obj["id"] == JInt(u.id)
  {
    map["id" := JInt(u.id), "username" := JString(u.username), "password" := JString(u.password)]
  }

  /** A valid item always serialises its three data fields. */
  lemma ValidItemJsonHasData(i: Item)
    requires ItemValid(i)
    ensures {"item_name", "bid_amount", "auctioned_by"} <= ItemJson(i).Keys
  {
  }
}
