/** The `/stores` router: list, lookups, create, partial update and delete of
    the stores table. The router exists twice in the repository, as
    `app/routers/stores.py` and as a top-level `stores.py` with the same text;
    this module models both. */
module Stores {
  import opened Wrappers
  import opened Order
  import opened Tables
  import Utils

  /** The body of `POST /stores/create`. */
  datatype NewStore = NewStore(name: string, description: string, address: string)

  /** The body of `PUT /stores/update/id/{id}`: a `None` field is left as it is. */
  datatype StoreUpdate = StoreUpdate(name: Option<string>, description: Option<string>, address: Option<string>)

  /** The statuses each route lists in its `responses=`. */
  const ListResponses: seq<int> := [204]
  const CreateResponses: seq<int> := [409]
  const UpdateResponses: seq<int> := [204, 409]
  const DeleteResponses: seq<int> := [204, 400]

  // ---- queries ----------------------------------------------------------------

  /** `GET /stores/`: `SELECT * FROM stores ORDER BY name LIMIT limit OFFSET skip`. */
  ghost function GetStores(stores: map<Id, Store>, skip: nat, limit: nat): (r: Outcome<Store>)
    ensures r.OkList? || r.NoContent?
    ensures r.NoContent? <==> skip >= |stores.Keys| || limit == 0
    ensures Rows(r) == Window(SortedRows(stores, StoreName), skip, limit)
    ensures r.OkList? ==> |r.rows| == Min(limit, |stores.Keys| - skip)
    ensures r.OkList? ==> forall i :: 0 <= i < |r.rows| ==> r.rows[i] in stores.Values
    ensures r.OkList? && StoresValid(stores) ==> forall i, j :: 0 <= i < j < |r.rows| ==> r.rows[i] != r.rows[j]
    ensures r.OkList? ==> SortedBy(r.rows, StoreName)
  {
    StoreRowsDistinct(stores);
    SortedPage(stores, StoreName, skip, limit)
  }

  /** `GET /stores/id/{id}`. */
  function GetStoreById(stores: map<Id, Store>, id: Id): (r: Outcome<Store>)
    ensures r.Ok? || r.NoContent?
    ensures r.Ok? <==> id in stores
    ensures r.Ok? ==> r.value == stores[id]
  {
    if id in stores then Ok(stores[id]) else NoContent
  }

  /** `GET /stores/name/{name}`. */
  ghost function GetStoreByName(stores: map<Id, Store>, name: string): (r: Outcome<Store>)
    ensures r.Ok? || r.NoContent?
    ensures r.Ok? <==> exists id :: id in stores && stores[id].name == name
    ensures r.Ok? ==> r.value in stores.Values && r.value.name == name
  {
    FindByName(stores, StoreName, name)
  }

  /** A store found by id is found again by its name, and by nothing else. */
  lemma LookupsAgree(stores: map<Id, Store>, id: Id)
    requires StoresValid(stores) && id in stores
    ensures GetStoreByName(stores, stores[id].name) == GetStoreById(stores, id)
    ensures GetStoreById(stores, id) == Ok(stores[id]) && stores[id].id == id
  {
    FindByNameUnique(stores, StoreName, id);
  }

  // ---- writes -----------------------------------------------------------------

  /** The row `s` after `SET name = COALESCE($2, name), description =
      COALESCE($3, description), address = COALESCE($4, address)` (the
      statement with the comma it lacks in the source put back): each supplied
      field replaces the stored one, each `None` field keeps it, and the id
      never changes. */
  function Patch(s: Store, upd: StoreUpdate): (p: Store)
    ensures p.id == s.id
    ensures p.name == if upd.name.Some? then upd.name.value else s.name
    ensures p.description == if upd.description.Some? then upd.description.value else s.description
    ensures p.address == if upd.address.Some? then upd.address.value else s.address
  {
    Store(s.id, Coalesce(upd.name, s.name), Coalesce(upd.description, s.description),
          Coalesce(upd.address, s.address))
  }

  /** Sending the same update twice changes nothing the first did not, and an
      update with no field leaves the row as it was. */
  lemma PatchIdempotent(s: Store, upd: StoreUpdate)
    ensures Patch(Patch(s, upd), upd) == Patch(s, upd)
    ensures upd.name.None? && upd.description.None? && upd.address.None? ==> Patch(s, upd) == s
  {
  }

  /** `POST /stores/create` with `id` as the freshly generated UUID. A name (or
      id) already in the table is a unique violation: 409, nothing inserted. */
  method CreateStore(db: Database, id: Id, store: NewStore) returns (r: Outcome<Store>)
    requires db.Valid()
    modifies db
    ensures db.Valid()
    ensures db.items == old(db.items) && db.stock == old(db.stock)
    ensures r.Ok? || r.Conflict?
    ensures Documented(r, CreateResponses)
    ensures r.Conflict? <==> id in old(db.stores) || NameTaken(old(db.stores), StoreName, store.name)
    ensures r.Conflict? ==> db.stores == old(db.stores)
    ensures r.Ok? ==> r.value == Store(id, store.name, store.description, store.address)
    ensures r.Ok? ==> db.stores == old(db.stores)[id := r.value] && id !in old(db.stores)
    ensures r.Ok? ==> GetStoreByName(db.stores, store.name) == r && GetStoreById(db.stores, id) == r
  {
    if id in db.stores || NameTaken(db.stores, StoreName, store.name) {
      return Conflict;
    }
    var rec := Store(id, store.name, store.description, store.address);
    db.stores := db.stores[id := rec];
    r := Ok(rec);
    LookupsAgree(db.stores, id);
  }

  /** `PUT /stores/update/id/{id}` as evidently intended: 204 when no row has
      that id, 409 when the new name belongs to another store, otherwise the
      patched row. */
  method UpdateStore(db: Database, id: Id, upd: StoreUpdate) returns (r: Outcome<Store>)
    requires db.Valid()
    modifies db
    ensures db.Valid()
    ensures db.items == old(db.items) && db.stock == old(db.stock)
    ensures r.Ok? || r.NoContent? || r.Conflict?
    ensures Documented(r, UpdateResponses)
    ensures r.NoContent? <==> id !in old(db.stores)
    ensures r.Conflict? <==>
              id in old(db.stores)
              && NameTakenByOther(old(db.stores), StoreName, Patch(old(db.stores)[id], upd).name, id)
    ensures !r.Ok? ==> db.stores == old(db.stores)
    ensures r.Ok? ==> r.value == Patch(old(db.stores)[id], upd) && db.stores == old(db.stores)[id := r.value]
  {
    if id !in db.stores {
      return NoContent;
    }
    var rec := Patch(db.stores[id], upd);
    if NameTakenByOther(db.stores, StoreName, rec.name, id) {
      return Conflict;
    }
    db.stores := db.stores[id := rec];
    r := Ok(rec);
  }

  /** `PUT /stores/update/id/{id}` as written: the SET list has no comma
      between the `description` and `address` assignments, so PostgreSQL
      rejects the statement with a syntax error that the handler does not
      catch. Every call is a 500 and the table is left as it was. */
  method UpdateStoreAsWritten(db: Database, id: Id, upd: StoreUpdate) returns (r: Outcome<Store>)
    ensures r == ServerError
    ensures !Documented(r, UpdateResponses)
  {
    r := ServerError;
  }

  /** An existing store updated with no field at all: the intended statement
      answers 200 with the unchanged row, the statement as written a 500. */
  method UpdateStoreDefectWitness()
  {
    var db := new Database();
    var created := CreateStore(db, 1, NewStore("Main", "flagship", "1 High St"));
    var noChange := StoreUpdate(None, None, None);
    var intended := UpdateStore(db, 1, noChange);
    assert intended == Ok(Store(1, "Main", "flagship", "1 High St"));
    var asWritten := UpdateStoreAsWritten(db, 1, noChange);
    assert asWritten == ServerError && asWritten != intended;
  }

  /** `DELETE /stores/delete/id/{id}`: 204 when absent; a row that stock still
      references is a foreign-key violation: 400 and the store stays. */
  method DeleteStoreById(db: Database, id: Id) returns (r: Outcome<Store>)
    requires db.Valid()
    modifies db
    ensures db.Valid()
    ensures db.items == old(db.items) && db.stock == old(db.stock)
    ensures r.Ok? || r.NoContent? || r.BadRequest?
    ensures Documented(r, DeleteResponses)
    ensures r.NoContent? <==> id !in old(db.stores)
    ensures r.BadRequest? <==> id in old(db.stores) && StoreReferenced(old(db.stock), id)
    ensures !r.Ok? ==> db.stores == old(db.stores)
    ensures r.Ok? ==> r.value == old(db.stores)[id] && db.stores == old(db.stores) - {id}
    ensures r.Ok? ==> GetStoreById(db.stores, id) == NoContent
  {
    if id !in db.stores {
      return NoContent;
    }
    if StoreReferenced(db.stock, id) {
      return BadRequest;
    }
    r := Ok(db.stores[id]);
    db.stores := db.stores - {id};
  }

  /** The `responses=` list of every route resolves against the status table. */
  lemma RouteResponsesResolve()
    ensures Utils.HttpResponses(ListResponses).Some?
    ensures Utils.HttpResponses(CreateResponses).Some?
    ensures Utils.HttpResponses(UpdateResponses).Some?
    ensures Utils.HttpResponses(DeleteResponses).Some?
  {
  }
}
