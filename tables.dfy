/** The three tables of the database (items, stores, stock), the integrity
    constraints the handlers rely on, and what a handler answers.

    The schema itself is not part of this model; the constraints below are the
    ones the handlers' error mapping implies: a unique violation (409) on
    names, a foreign-key violation (400) between stock and its item and store,
    and stock quantities and prices that are never below zero. */
module Tables {
  import opened Wrappers
  import opened Order
  import Utils

  /** A row identifier (a UUID); only equality is used. */
  type Id = nat

  datatype Item = Item(id: Id, name: string, description: string)

  datatype Store = Store(id: Id, name: string, description: string, address: string)

  /** A stock row; the table is keyed by (itemId, storeId). */
  datatype StockRec = StockRec(itemId: Id, storeId: Id, available: int, sold: int, price: real)

  function ItemName(it: Item): string { it.name }

  function StoreName(s: Store): string { s.name }

  /** What a handler answers: a record or a list (200), or an HTTP error.
      `ServerError` is a database error the handler does not catch. */
  datatype Outcome<T> =
    | Ok(value: T)
    | OkList(rows: seq<T>)
    | NoContent     // 204
    | Conflict      // 409
    | BadRequest    // 400
    | ServerError   // 500

  function StatusCode<T>(o: Outcome<T>): int
  {
    match o
    case Ok(_) => 200
    case OkList(_) => 200
    case NoContent => 204
    case Conflict => 409
    case BadRequest => 400
    case ServerError => 500
  }

  /** `o` is a 200 or one of the statuses a route lists in its `responses=`. */
  predicate Documented<T>(o: Outcome<T>, codes: seq<int>)
  {
    StatusCode(o) == 200 || StatusCode(o) in codes
  }

  /** Every status a handler raises itself (204, 400, 409) is in the status
      table, so `http_exception(code)` builds it with the table's text. */
  lemma RaisedStatusesHaveDescriptions<T>(o: Outcome<T>)
    requires o.NoContent? || o.Conflict? || o.BadRequest?
    ensures StatusCode(o) in Utils.CodeResponseList
    ensures Utils.HttpException(StatusCode(o), None).Some?
    ensures Utils.HttpException(StatusCode(o), None).value.detail
            == match o
               case NoContent => "No content"
               case Conflict => "Duplicate record"
               case _ => "Bad request"
  {
  }

  // ---- constraints -------------------------------------------------------

  /** Some row of `m` has this name. */
  predicate NameTaken<V>(m: map<Id, V>, nameOf: V -> string, name: string)
  {
    exists j :: j in m && nameOf(m[j]) == name
  }

  /** Some row of `m` other than `id` has this name. */
  predicate NameTakenByOther<V>(m: map<Id, V>, nameOf: V -> string, name: string, id: Id)
  {
    exists j :: j in m && j != id && nameOf(m[j]) == name
  }

  /** The unique constraint on the name column. */
  ghost predicate NamesUnique<V>(m: map<Id, V>, nameOf: V -> string)
  {
    forall a, b :: a in m && b in m && nameOf(m[a]) == nameOf(m[b]) ==> a == b
  }

  predicate NonNegative(s: StockRec)
  {
    s.available >= 0 && s.sold >= 0 && s.price >= 0.0
  }

  /** Some stock row references the item `id`. */
  predicate ItemReferenced(stock: map<(Id, Id), StockRec>, id: Id)
  {
    exists k :: k in stock && stock[k].itemId == id
  }

  /** Some stock row references the store `id`. */
  predicate StoreReferenced(stock: map<(Id, Id), StockRec>, id: Id)
  {
    exists k :: k in stock && stock[k].storeId == id
  }

  ghost predicate ItemsValid(items: map<Id, Item>)
  {
    (forall id :: id in items ==> items[id].id == id) && NamesUnique(items, ItemName)
  }

  ghost predicate StoresValid(stores: map<Id, Store>)
  {
    (forall id :: id in stores ==> stores[id].id == id) && NamesUnique(stores, StoreName)
  }

  /** Each stock row sits under its own key, references an existing item and
      store, and holds no negative quantity or price. */
  ghost predicate StockValid(items: map<Id, Item>, stores: map<Id, Store>, stock: map<(Id, Id), StockRec>)
  {
    forall k :: k in stock ==>
      && stock[k].itemId == k.0 && stock[k].storeId == k.1
      && k.0 in items && k.1 in stores
      && NonNegative(stock[k])
  }

  ghost predicate TablesValid(items: map<Id, Item>, stores: map<Id, Store>, stock: map<(Id, Id), StockRec>)
  {
    ItemsValid(items) && StoresValid(stores) && StockValid(items, stores, stock)
  }

  /** Items carry their own id, so no two ids hold the same item. */
  lemma ItemRowsDistinct(items: map<Id, Item>)
    ensures ItemsValid(items) ==> DistinctRows(items)
  {
  }

  /** Stores carry their own id, so no two ids hold the same store. */
  lemma StoreRowsDistinct(stores: map<Id, Store>)
    ensures StoresValid(stores) ==> DistinctRows(stores)
  {
  }

  /** The database the handlers share. */
  class Database {
    var items: map<Id, Item>
    var stores: map<Id, Store>
    var stock: map<(Id, Id), StockRec>

    ghost predicate Valid()
      reads this
    {
      TablesValid(items, stores, stock)
    }

    constructor ()
      ensures Valid()
      ensures items == map[] && stores == map[] && stock == map[]
    {
      items, stores, stock := map[], map[], map[];
    }
  }

  // ---- LIMIT / OFFSET -----------------------------------------------------

  function Min(a: int, b: int): int
  {
    if a <= b then a else b
  }

  /** `LIMIT limit OFFSET skip` applied to the ordered rows `rows`. */
  function Window<T>(rows: seq<T>, skip: nat, limit: nat): (w: seq<T>)
    ensures |w| == if skip >= |rows| then 0 else Min(limit, |rows| - skip)
    ensures forall i :: 0 <= i < |w| ==> skip + i < |rows| && w[i] == rows[skip + i]
  {
    if skip >= |rows| then [] else rows[skip..skip + Min(limit, |rows| - skip)]
  }

  /** The rows an answer carries: none for anything but a list. */
  function Rows<T>(o: Outcome<T>): seq<T>
  {
    if o.OkList? then o.rows else []
  }

  /** A list handler's answer: the window, or 204 when it is empty. */
  function Page<T>(rows: seq<T>, skip: nat, limit: nat): (r: Outcome<T>)
    ensures r.OkList? || r.NoContent?
    ensures r.NoContent? <==> skip >= |rows| || limit == 0
    ensures r.OkList? ==> r.rows == Window(rows, skip, limit) && 0 < |r.rows| <= limit
    ensures r.OkList? ==> |r.rows| == Min(limit, |rows| - skip)
    ensures Rows(r) == Window(rows, skip, limit)
  {
    var w := Window(rows, skip, limit);
    if |w| == 0 then NoContent else OkList(w)
  }

  /** A list handler over a table: `ORDER BY key LIMIT limit OFFSET skip`,
      or 204 when that window is empty. The rows answered are exactly the
      window at `skip` of the table's name-ordered listing. */
  ghost function SortedPage<K, V>(m: map<K, V>, key: V -> string, skip: nat, limit: nat): (r: Outcome<V>)
    ensures r.OkList? || r.NoContent?
    ensures r.NoContent? <==> skip >= |m.Keys| || limit == 0
    ensures Rows(r) == Window(SortedRows(m, key), skip, limit)
    ensures r.OkList? ==> |r.rows| == Min(limit, |m.Keys| - skip)
    ensures r.OkList? ==> forall i :: 0 <= i < |r.rows| ==> r.rows[i] in m.Values
    ensures r.OkList? && DistinctRows(m) ==> forall i, j :: 0 <= i < j < |r.rows| ==> r.rows[i] != r.rows[j]
    ensures r.OkList? ==> SortedBy(r.rows, key)
  {
    var rows := SortedRows(m, key);
    WindowSorted(rows, key, skip, limit);
    WindowWithin(rows, m.Values, skip, limit);
    WindowDistinct(rows, skip, limit);
    Page(rows, skip, limit)
  }

  /** A window of rows without repeats has no repeats. */
  lemma WindowDistinct<T>(rows: seq<T>, skip: nat, limit: nat)
    ensures (forall i, j :: 0 <= i < j < |rows| ==> rows[i] != rows[j]) ==>
            forall i, j :: 0 <= i < j < |Window(rows, skip, limit)| ==> Window(rows, skip, limit)[i] != Window(rows, skip, limit)[j]
  {
  }

  /** Reading a page and then the page after it reads the same rows of the
      table as one page of the combined size. */
  lemma ConsecutivePages<K, V>(m: map<K, V>, key: V -> string, skip: nat, a: nat, b: nat)
    ensures Rows(SortedPage(m, key, skip, a)) + Rows(SortedPage(m, key, skip + a, b))
            == Rows(SortedPage(m, key, skip, a + b))
  {
    ConsecutiveWindows(SortedRows(m, key), skip, a, b);
  }

  /** A window holds only rows of what it is a window of. */
  lemma WindowWithin<T>(rows: seq<T>, vals: set<T>, skip: nat, limit: nat)
    requires forall i :: 0 <= i < |rows| ==> rows[i] in vals
    ensures forall i :: 0 <= i < |Window(rows, skip, limit)| ==> Window(rows, skip, limit)[i] in vals
  {
  }

  /** Reading a page and then the page after it reads the same rows as one
      page of the combined size. */
  lemma {:induction false} ConsecutiveWindows<T>(rows: seq<T>, skip: nat, a: nat, b: nat)
    ensures Window(rows, skip, a) + Window(rows, skip + a, b) == Window(rows, skip, a + b)
  {
    var w1, w2, w := Window(rows, skip, a), Window(rows, skip + a, b), Window(rows, skip, a + b);
    assert |w1| + |w2| == |w|;
    forall i | 0 <= i < |w| ensures (w1 + w2)[i] == w[i] {
      if i >= |w1| {
        assert w2[i - |w1|] == rows[skip + a + (i - |w1|)];
      }
    }
  }

  /** A window of name-ordered rows is name-ordered. */
  lemma WindowSorted<T>(rows: seq<T>, key: T -> string, skip: nat, limit: nat)
    requires SortedBy(rows, key)
    ensures SortedBy(Window(rows, skip, limit), key)
  {
    var w := Window(rows, skip, limit);
    forall i, j | 0 <= i < j < |w| ensures NameLe(key(w[i]), key(w[j])) {
      assert w[i] == rows[skip + i] && w[j] == rows[skip + j];
    }
  }

  // ---- lookups -------------------------------------------------------------

  /** `SELECT * FROM m WHERE name = $1` read with `fetchrow`: the first
      matching row, or 204 when none matches. */
  ghost function FindByName<V>(m: map<Id, V>, nameOf: V -> string, name: string): (r: Outcome<V>)
    ensures r.Ok? || r.NoContent?
    ensures r.Ok? <==> NameTaken(m, nameOf, name)
    ensures r.Ok? ==> r.value in m.Values && nameOf(r.value) == name
  {
    if NameTaken(m, nameOf, name) then
      var j :| j in m && nameOf(m[j]) == name;
      Ok(m[j])
    else NoContent
  }

  /** Under the unique constraint the lookup by name finds exactly the row
      holding that name. */
  lemma FindByNameUnique<V>(m: map<Id, V>, nameOf: V -> string, id: Id)
    requires NamesUnique(m, nameOf) && id in m
    ensures FindByName(m, nameOf, nameOf(m[id])) == Ok(m[id])
  {
  }
}
