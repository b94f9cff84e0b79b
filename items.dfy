/** The `/items` router: list, lookups, create, partial update and delete of
    the items table. */
module Items {
  import opened Wrappers
  import opened Order
  import opened Tables
  import Utils

  /** The body of `POST /items/create`. */
  datatype NewItem = NewItem(name: string, description: string)

  /** The body of `PUT /items/update/id/{id}`: a `None` field is left as it is. */
  datatype ItemUpdate = ItemUpdate(name: Option<string>, description: Option<string>)

  /** The statuses each route lists in its `responses=`. */
  const ListResponses: seq<int> := [204]
  const CreateResponses: seq<int> := [409]
  const UpdateResponses: seq<int> := [204, 409]
  const DeleteResponses: seq<int> := [204, 400]

  // ---- queries ----------------------------------------------------------------

  /** `GET /items/`: `SELECT * FROM items ORDER BY name LIMIT limit OFFSET skip`. */
  ghost function GetItems(items: map<Id, Item>, skip: nat, limit: nat): (r: Outcome<Item>)
    ensures r.OkList? || r.NoContent?
    ensures r.NoContent? <==> skip >= |items.Keys| || limit == 0
    ensures Rows(r) == Window(SortedRows(items, ItemName), skip, limit)
    ensures r.OkList? ==> |r.rows| == Min(limit, |items.Keys| - skip)
    ensures r.OkList? ==> forall i :: 0 <= i < |r.rows| ==> r.rows[i] in items.Values
    ensures r.OkList? && ItemsValid(items) ==> forall i, j :: 0 <= i < j < |r.rows| ==> r.rows[i] != r.rows[j]
    ensures r.OkList? ==> SortedBy(r.rows, ItemName)
  {
    ItemRowsDistinct(items);
    SortedPage(items, ItemName, skip, limit)
  }

  /** `GET /items/id/{id}`. */
  function GetItemById(items: map<Id, Item>, id: Id): (r: Outcome<Item>)
    ensures r.Ok? || r.NoContent?
    ensures r.Ok? <==> id in items
    ensures r.Ok? ==> r.value == items[id]
  {
    if id in items then Ok(items[id]) else NoContent
  }

  /** `GET /items/name/{name}`. */
  ghost function GetItemByName(items: map<Id, Item>, name: string): (r: Outcome<Item>)
    ensures r.Ok? || r.NoContent?
    ensures r.Ok? <==> exists id :: id in items && items[id].name == name
    ensures r.Ok? ==> r.value in items.Values && r.value.name == name
  {
    FindByName(items, ItemName, name)
  }

  /** An item found by id is found again by its name, and by nothing else. */
  lemma LookupsAgree(items: map<Id, Item>, id: Id)
    requires ItemsValid(items) && id in items
    ensures GetItemByName(items, items[id].name) == GetItemById(items, id)
    ensures GetItemById(items, id) == Ok(items[id]) && items[id].id == id
  {
    FindByNameUnique(items, ItemName, id);
  }

  // ---- writes -----------------------------------------------------------------

  /** The row `it` after `SET name = COALESCE($2, name), description =
      COALESCE($3, description)`: each supplied field replaces the stored one,
      each `None` field keeps it, and the id never changes. */
  function Patch(it: Item, upd: ItemUpdate): (p: Item)
    ensures p.id == it.id
    ensures p.name == if upd.name.Some? then upd.name.value else it.name
    ensures p.description == if upd.description.Some? then upd.description.value else it.description
  {
    Item(it.id, Coalesce(upd.name, it.name), Coalesce(upd.description, it.description))
  }

  /** Sending the same update twice changes nothing the first did not, and an
      update with no field leaves the row as it was. */
  lemma PatchIdempotent(it: Item, upd: ItemUpdate)
    ensures Patch(Patch(it, upd), upd) == Patch(it, upd)
    ensures upd.name.None? && upd.description.None? ==> Patch(it, upd) == it
  {
  }

  /** `POST /items/create` with `id` as the freshly generated UUID. A name (or
      id) already in the table is a unique violation: 409, nothing inserted. */
  method CreateItem(db: Database, id: Id, item: NewItem) returns (r: Outcome<Item>)
    requires db.Valid()
    modifies db
    ensures db.Valid()
    ensures db.stores == old(db.stores) && db.stock == old(db.stock)
    ensures r.Ok? || r.Conflict?
    ensures Documented(r, CreateResponses)
    ensures r.Conflict? <==> id in old(db.items) || NameTaken(old(db.items), ItemName, item.name)
    ensures r.Conflict? ==> db.items == old(db.items)
    ensures r.Ok? ==> r.value == Item(id, item.name, item.description)
    ensures r.Ok? ==> db.items == old(db.items)[id := r.value] && id !in old(db.items)
    ensures r.Ok? ==> GetItemByName(db.items, item.name) == r && GetItemById(db.items, id) == r
  {
    if id in db.items || NameTaken(db.items, ItemName, item.name) {
      return Conflict;
    }
    var rec := Item(id, item.name, item.description);
    db.items := db.items[id := rec];
    r := Ok(rec);
    LookupsAgree(db.items, id);
  }

  /** `PUT /items/update/id/{id}`: 204 when no row has that id, 409 when the
      new name belongs to another item, otherwise the patched row. */
  method UpdateItem(db: Database, id: Id, upd: ItemUpdate) returns (r: Outcome<Item>)
    requires db.Valid()
    modifies db
    ensures db.Valid()
    ensures db.stores == old(db.stores) && db.stock == old(db.stock)
    ensures r.Ok? || r.NoContent? || r.Conflict?
    ensures Documented(r, UpdateResponses)
    ensures r.NoContent? <==> id !in old(db.items)
    ensures r.Conflict? <==>
              id in old(db.items)
              && NameTakenByOther(old(db.items), ItemName, Patch(old(db.items)[id], upd).name, id)
    ensures !r.Ok? ==> db.items == old(db.items)
    ensures r.Ok? ==> r.value == Patch(old(db.items)[id], upd) && db.items == old(db.items)[id := r.value]
  {
    if id !in db.items {
      return NoContent;
    }
    var rec := Patch(db.items[id], upd);
    if NameTakenByOther(db.items, ItemName, rec.name, id) {
      return Conflict;
    }
    db.items := db.items[id := rec];
    r := Ok(rec);
  }

  /** `DELETE /items/delete/id/{id}`: 204 when absent; a row that stock still
      references is a foreign-key violation: 400 and the item stays. */
  method DeleteItemById(db: Database, id: Id) returns (r: Outcome<Item>)
    requires db.Valid()
    modifies db
    ensures db.Valid()
    ensures db.stores == old(db.stores) && db.stock == old(db.stock)
    ensures r.Ok? || r.NoContent? || r.BadRequest?
    ensures Documented(r, DeleteResponses)
    ensures r.NoContent? <==> id !in old(db.items)
    ensures r.BadRequest? <==> id in old(db.items) && ItemReferenced(old(db.stock), id)
    ensures !r.Ok? ==> db.items == old(db.items)
    ensures r.Ok? ==> r.value == old(db.items)[id] && db.items == old(db.items) - {id}
    ensures r.Ok? ==> GetItemById(db.items, id) == NoContent
  {
    if id !in db.items {
      return NoContent;
    }
    if ItemReferenced(db.stock, id) {
      return BadRequest;
    }
    r := Ok(db.items[id]);
    db.items := db.items - {id};
  }

  /** The `responses=` list of every route resolves against the status table. */
  lemma RouteResponsesResolve()
    ensures Utils.HttpResponses(ListResponses).Some?
    ensures Utils.HttpResponses(CreateResponses).Some?
    ensures Utils.HttpResponses(UpdateResponses).Some?
    ensures Utils.HttpResponses(DeleteResponses).Some?
  {
  }
}
