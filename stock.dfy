/** The `/stock` router: the ledger adjustment (an upsert that adds deltas
    with a floor at zero and replaces the price) and the three report
    queries over stock joined with the names of its item and store. */
module Stock {
  import opened Wrappers
  import opened Order
  import opened Tables
  import Utils

  /** The body of `POST /stock/add`: `available` and `sold` are optional
      deltas, `price` an optional new price. */
  datatype StockChange = StockChange(itemId: Id, storeId: Id, available: Option<int>, sold: Option<int>, price: Option<real>)

  /** A report row: a stock row with the names of its item and store. */
  datatype StockReport = StockReport(item: string, store: string, stock: StockRec)

  function ReportItem(r: StockReport): string { r.item }

  function ReportStore(r: StockReport): string { r.store }

  /** The statuses each route lists in its `responses=`. */
  const ReportResponses: seq<int> := [204]
  const ChangeResponses: seq<int> := [400, 409]

  // ---- the ledger -----------------------------------------------------------

  /** `GREATEST(x, 0)`. */
  function Max0(x: int): int { if x < 0 then 0 else x }

  function Max0Real(x: real): real { if x < 0.0 then 0.0 else x }

  /** The row an absent key is treated as: nothing available, nothing sold, no price. */
  function Prior(prev: Option<StockRec>, ch: StockChange): StockRec
  {
    match prev
    case Some(s) => s
    case None => StockRec(ch.itemId, ch.storeId, 0, 0, 0.0)
  }

  /** The row `INSERT ... ON CONFLICT (item_id, store_id) DO UPDATE` leaves
      under the key: the VALUES list when `prev` is `None`, the SET list
      applied to `prev` otherwise. Either way it is the existing (or an empty)
      row with the deltas added and floored at zero, and the price replaced
      when one is supplied. */
  function Merge(prev: Option<StockRec>, ch: StockChange): (r: StockRec)
    ensures r.itemId == Prior(prev, ch).itemId && r.storeId == Prior(prev, ch).storeId
    ensures r.available == Max0(Prior(prev, ch).available + Coalesce(ch.available, 0))
    ensures r.sold == Max0(Prior(prev, ch).sold + Coalesce(ch.sold, 0))
    ensures r.price == Max0Real(if ch.price.Some? then ch.price.value else Prior(prev, ch).price)
    ensures NonNegative(r)
  {
    match prev
    case None =>
      StockRec(ch.itemId, ch.storeId, Max0(Coalesce(ch.available, 0)), Max0(Coalesce(ch.sold, 0)),
               Max0Real(Coalesce(ch.price, 0.0)))
    case Some(s) =>
      StockRec(s.itemId, s.storeId, Max0(s.available + Coalesce(ch.available, 0)),
               Max0(s.sold + Coalesce(ch.sold, 0)), Max0Real(Coalesce(ch.price, s.price)))
  }

  /** A negative delta at least as large as what is there leaves zero, never
      less, for `available` and for `sold` alike. */
  lemma FloorAtZero(prev: Option<StockRec>, ch: StockChange)
    ensures Prior(prev, ch).available + Coalesce(ch.available, 0) <= 0 ==> Merge(prev, ch).available == 0
    ensures Prior(prev, ch).sold + Coalesce(ch.sold, 0) <= 0 ==> Merge(prev, ch).sold == 0
  {
  }

  /** Without a price the stored (non-negative) price stays; with one the
      price is replaced, not added to. */
  lemma PriceIsSetNotAdded(s: StockRec, ch: StockChange)
    requires s.price >= 0.0
    ensures ch.price.None? ==> Merge(Some(s), ch).price == s.price
    ensures ch.price.Some? ==> Merge(Some(s), ch).price == Max0Real(ch.price.value)
  {
  }

  /** The deltas of both adjustments, and the later price if any. */
  function Combined(a: StockChange, b: StockChange): StockChange
  {
    StockChange(a.itemId, a.storeId,
                Some(Coalesce(a.available, 0) + Coalesce(b.available, 0)),
                Some(Coalesce(a.sold, 0) + Coalesce(b.sold, 0)),
                if b.price.Some? then b.price else a.price)
  }

  /** Two adjustments in a row of the same (item, store) row are one
      adjustment by the summed deltas, as long as the first does not reach
      the floor: +3 then +4 on an absent row gives 7. */
  lemma AdjustmentsAccumulate(prev: Option<StockRec>, a: StockChange, b: StockChange)
    requires a.itemId == b.itemId && a.storeId == b.storeId
    requires prev.Some? ==> prev.value.itemId == a.itemId && prev.value.storeId == a.storeId
    requires Prior(prev, a).available + Coalesce(a.available, 0) >= 0
    requires Prior(prev, a).sold + Coalesce(a.sold, 0) >= 0
    ensures Merge(Some(Merge(prev, a)), b) == Merge(prev, Combined(a, b))
  {
  }

  /** A first adjustment of 10 available, 0 sold at price 9.99, then -3
      available and 2 sold with no price: 7 available, 2 sold, price kept. */
  lemma AdjustmentScenario()
    ensures Merge(None, StockChange(1, 2, Some(10), Some(0), Some(9.99))) == StockRec(1, 2, 10, 0, 9.99)
    ensures Merge(Some(StockRec(1, 2, 10, 0, 9.99)), StockChange(1, 2, Some(-3), Some(2), None))
            == StockRec(1, 2, 7, 2, 9.99)
  {
  }

  /** `POST /stock/add`, run in one transaction. A change naming an item or
      a store that does not exist violates the foreign key: 400 and the
      transaction leaves the stock table as it was. Otherwise the merged row is
      stored under (itemId, storeId) and returned; no other row changes. */
  method ChangeStock(db: Database, ch: StockChange) returns (r: Outcome<StockRec>)
    requires db.Valid()
    modifies db
    ensures db.Valid()
    ensures db.items == old(db.items) && db.stores == old(db.stores)
    ensures r.Ok? || r.BadRequest?
    ensures Documented(r, ChangeResponses)
    ensures r.BadRequest? <==> ch.itemId !in old(db.items) || ch.storeId !in old(db.stores)
    ensures r.BadRequest? ==> db.stock == old(db.stock)
    ensures r.Ok? ==>
              var key := (ch.itemId, ch.storeId);
              && r.value == Merge(if key in old(db.stock) then Some(old(db.stock)[key]) else None, ch)
              && db.stock == old(db.stock)[key := r.value]
  {
    if ch.itemId !in db.items || ch.storeId !in db.stores {
      return BadRequest;
    }
    var key := (ch.itemId, ch.storeId);
    var prev := if key in db.stock then Some(db.stock[key]) else None;
    var rec := Merge(prev, ch);
    db.stock := db.stock[key := rec];
    r := Ok(rec);
  }

  // ---- reports -------------------------------------------------------------

  /** `FROM stock JOIN items ON items.id=stock.item_id JOIN stores ON
      stores.id=stock.store_id`, keyed like the stock table: a stock row is
      joined exactly when its item and its store exist, and the joined row is
      the stock row with their names. */
  function Joined(items: map<Id, Item>, stores: map<Id, Store>, stock: map<(Id, Id), StockRec>): map<(Id, Id), StockReport>
  {
    map k | k in stock && Joins(items, stores, stock[k]) :: Report(items, stores, stock[k])
  }

  /** The stock row `s` meets an item row and a store row in the join. */
  predicate Joins(items: map<Id, Item>, stores: map<Id, Store>, s: StockRec)
  {
    s.itemId in items && s.storeId in stores
  }

  /** The joined row: `s` with the names of its item and store. */
  function Report(items: map<Id, Item>, stores: map<Id, Store>, s: StockRec): StockReport
    requires Joins(items, stores, s)
  {
    StockReport(items[s.itemId].name, stores[s.storeId].name, s)
  }

  /** The join holds a row exactly for each stock row whose item and store
      exist, and that row is the stock row with their names. */
  lemma JoinedRows(items: map<Id, Item>, stores: map<Id, Store>, stock: map<(Id, Id), StockRec>)
    ensures forall k :: k in Joined(items, stores, stock) <==> k in stock && Joins(items, stores, stock[k])
    ensures forall k :: k in Joined(items, stores, stock) ==>
              Joined(items, stores, stock)[k] == Report(items, stores, stock[k])
  {
  }

  /** Under the foreign keys the inner join drops no stock row. */
  lemma JoinKeepsEveryRow(items: map<Id, Item>, stores: map<Id, Store>, stock: map<(Id, Id), StockRec>)
    requires StockValid(items, stores, stock)
    ensures Joined(items, stores, stock).Keys == stock.Keys
    ensures forall k :: k in stock ==> Joined(items, stores, stock)[k].stock == stock[k]
  {
  }

  /** Each joined row carries its stock row, which sits under its own key,
      so no two keys hold the same joined row. */
  lemma JoinedRowsDistinct(items: map<Id, Item>, stores: map<Id, Store>, stock: map<(Id, Id), StockRec>)
    ensures StockValid(items, stores, stock) ==> DistinctRows(Joined(items, stores, stock))
  {
  }

  /** The joined rows of the item `id` (`WHERE stock.item_id = $1`). */
  function OfItem(rep: map<(Id, Id), StockReport>, id: Id): (sub: map<(Id, Id), StockReport>)
    ensures forall k :: k in sub <==> k in rep && rep[k].stock.itemId == id
    ensures forall k :: k in sub ==> sub[k] == rep[k]
  {
    map k | k in rep && rep[k].stock.itemId == id :: rep[k]
  }

  /** The joined rows of the item named `name` (`WHERE items.name = $1`). */
  function OfItemName(rep: map<(Id, Id), StockReport>, name: string): (sub: map<(Id, Id), StockReport>)
    ensures forall k :: k in sub <==> k in rep && rep[k].item == name
    ensures forall k :: k in sub ==> sub[k] == rep[k]
  {
    map k | k in rep && rep[k].item == name :: rep[k]
  }

  /** Rows drawn from the item's report are joined rows of that item. */
  lemma OfItemRows(rep: map<(Id, Id), StockReport>, id: Id, rows: seq<StockReport>)
    requires forall i :: 0 <= i < |rows| ==> rows[i] in OfItem(rep, id).Values
    ensures forall i :: 0 <= i < |rows| ==> rows[i] in rep.Values && rows[i].stock.itemId == id
  {
    var sub := OfItem(rep, id);
    forall i | 0 <= i < |rows| ensures rows[i] in rep.Values && rows[i].stock.itemId == id {
      assert rows[i] in sub.Values;
      var k :| k in sub && sub[k] == rows[i];
      assert rep[k] == rows[i];
    }
  }

  /** Rows drawn from the named item's report are joined rows with that item name. */
  lemma OfItemNameRows(rep: map<(Id, Id), StockReport>, name: string, rows: seq<StockReport>)
    requires forall i :: 0 <= i < |rows| ==> rows[i] in OfItemName(rep, name).Values
    ensures forall i :: 0 <= i < |rows| ==> rows[i] in rep.Values && rows[i].item == name
  {
    var sub := OfItemName(rep, name);
    forall i | 0 <= i < |rows| ensures rows[i] in rep.Values && rows[i].item == name {
      assert rows[i] in sub.Values;
      var k :| k in sub && sub[k] == rows[i];
      assert rep[k] == rows[i];
    }
  }

  /** The item's rows of a table without repeated rows repeat none either. */
  lemma OfItemDistinct(rep: map<(Id, Id), StockReport>, id: Id)
    ensures DistinctRows(rep) ==> DistinctRows(OfItem(rep, id))
  {
  }

  /** The named item's rows of a table without repeated rows repeat none either. */
  lemma OfItemNameDistinct(rep: map<(Id, Id), StockReport>, name: string)
    ensures DistinctRows(rep) ==> DistinctRows(OfItemName(rep, name))
  {
  }

  /** Under the constraints an item's report repeats no row. */
  lemma ItemReportDistinct(items: map<Id, Item>, stores: map<Id, Store>, stock: map<(Id, Id), StockRec>, id: Id)
    ensures StockValid(items, stores, stock) ==> DistinctRows(OfItem(Joined(items, stores, stock), id))
  {
    JoinedRowsDistinct(items, stores, stock);
    OfItemDistinct(Joined(items, stores, stock), id);
  }

  /** Under the constraints a named item's report repeats no row. */
  lemma ItemNameReportDistinct(items: map<Id, Item>, stores: map<Id, Store>, stock: map<(Id, Id), StockRec>, name: string)
    ensures StockValid(items, stores, stock) ==> DistinctRows(OfItemName(Joined(items, stores, stock), name))
  {
    JoinedRowsDistinct(items, stores, stock);
    OfItemNameDistinct(Joined(items, stores, stock), name);
  }

  /** `GET /stock/`: the window at `skip` of the joined rows ordered by item name. */
  ghost function GetStock(items: map<Id, Item>, stores: map<Id, Store>, stock: map<(Id, Id), StockRec>,
                          skip: nat, limit: nat): (r: Outcome<StockReport>)
    ensures r.OkList? || r.NoContent?
    ensures r.NoContent? <==> skip >= |Joined(items, stores, stock).Keys| || limit == 0
    ensures Rows(r) == Window(SortedRows(Joined(items, stores, stock), ReportItem), skip, limit)
    ensures r.OkList? ==> |r.rows| == Min(limit, |Joined(items, stores, stock).Keys| - skip)
    ensures r.OkList? ==> forall i :: 0 <= i < |r.rows| ==> r.rows[i] in Joined(items, stores, stock).Values
    ensures r.OkList? && StockValid(items, stores, stock) ==>
              forall i, j :: 0 <= i < j < |r.rows| ==> r.rows[i] != r.rows[j]
    ensures r.OkList? ==> SortedBy(r.rows, ReportItem)
  {
    JoinedRowsDistinct(items, stores, stock);
    SortedPage(Joined(items, stores, stock), ReportItem, skip, limit)
  }

  /** `GET /stock/items/id/{id}`: the window at `skip` of the item's joined
      rows ordered by store name. */
  ghost function GetStockByItemId(items: map<Id, Item>, stores: map<Id, Store>, stock: map<(Id, Id), StockRec>,
                                  id: Id, skip: nat, limit: nat): (r: Outcome<StockReport>)
    ensures r.OkList? || r.NoContent?
    ensures r.NoContent? <==> skip >= |OfItem(Joined(items, stores, stock), id).Keys| || limit == 0
    ensures Rows(r) == Window(SortedRows(OfItem(Joined(items, stores, stock), id), ReportStore), skip, limit)
    ensures r.OkList? ==> |r.rows| == Min(limit, |OfItem(Joined(items, stores, stock), id).Keys| - skip)
    ensures r.OkList? ==> forall i :: 0 <= i < |r.rows| ==>
              r.rows[i] in Joined(items, stores, stock).Values && r.rows[i].stock.itemId == id
    ensures r.OkList? && StockValid(items, stores, stock) ==>
              forall i, j :: 0 <= i < j < |r.rows| ==> r.rows[i] != r.rows[j]
    ensures r.OkList? ==> SortedBy(r.rows, ReportStore)
  {
    ItemReportDistinct(items, stores, stock, id);
    var r := SortedPage(OfItem(Joined(items, stores, stock), id), ReportStore, skip, limit);
    if r.OkList? then OfItemRows(Joined(items, stores, stock), id, r.rows); r else r
  }

  /** `GET /stock/items/name/{name}` as evidently intended (`WHERE items.name
      = $1`): the window at `skip` of the named item's joined rows ordered by
      store name. */
  ghost function GetStockByItemName(items: map<Id, Item>, stores: map<Id, Store>, stock: map<(Id, Id), StockRec>,
                                    name: string, skip: nat, limit: nat): (r: Outcome<StockReport>)
    ensures r.OkList? || r.NoContent?
    ensures r.NoContent? <==> skip >= |OfItemName(Joined(items, stores, stock), name).Keys| || limit == 0
    ensures Rows(r) == Window(SortedRows(OfItemName(Joined(items, stores, stock), name), ReportStore), skip, limit)
    ensures r.OkList? ==> |r.rows| == Min(limit, |OfItemName(Joined(items, stores, stock), name).Keys| - skip)
    ensures r.OkList? ==> forall i :: 0 <= i < |r.rows| ==>
              r.rows[i] in Joined(items, stores, stock).Values && r.rows[i].item == name
    ensures r.OkList? && StockValid(items, stores, stock) ==>
              forall i, j :: 0 <= i < j < |r.rows| ==> r.rows[i] != r.rows[j]
    ensures r.OkList? ==> SortedBy(r.rows, ReportStore)
  {
    ItemNameReportDistinct(items, stores, stock, name);
    var r := SortedPage(OfItemName(Joined(items, stores, stock), name), ReportStore, skip, limit);
    if r.OkList? then OfItemNameRows(Joined(items, stores, stock), name, r.rows); r else r
  }

  /** Item names are unique, so asking by an item's name reads the same
      rows as asking by its id. */
  lemma {:induction false} ByNameIsById(items: map<Id, Item>, stores: map<Id, Store>, stock: map<(Id, Id), StockRec>,
                                        id: Id, skip: nat, limit: nat)
    requires TablesValid(items, stores, stock) && id in items
    ensures GetStockByItemName(items, stores, stock, items[id].name, skip, limit)
            == GetStockByItemId(items, stores, stock, id, skip, limit)
  {
    var rep := Joined(items, stores, stock);
    assert OfItemName(rep, items[id].name) == OfItem(rep, id) by {
      forall k | k in rep ensures rep[k].item == items[id].name <==> rep[k].stock.itemId == id {
        assert rep[k].item == items[stock[k].itemId].name;
      }
    }
  }

  /** `GET /stock/items/name/{name}` as written: it filters on `stock.name`,
      a column the stock table does not have, so PostgreSQL rejects the query
      with an error the handler does not catch. Every call is a 500. */
  function GetStockByItemNameAsWritten(items: map<Id, Item>, stores: map<Id, Store>, stock: map<(Id, Id), StockRec>,
                                       name: string, skip: nat, limit: nat): (r: Outcome<StockReport>)
    ensures r == ServerError
    ensures !Documented(r, ReportResponses)
  {
    ServerError
  }

  /** One item "Widget" stocked in one store: the intended query lists its
      row, the query as written answers 500. */
  lemma StockByNameDefectWitness()
    ensures var items := map[1 := Item(1, "Widget", "a widget")];
            var stores := map[2 := Store(2, "Main", "flagship", "1 High St")];
            var stock := map[(1, 2) := StockRec(1, 2, 10, 0, 9.99)];
            && GetStockByItemName(items, stores, stock, "Widget", 0, 100).OkList?
            && GetStockByItemNameAsWritten(items, stores, stock, "Widget", 0, 100) == ServerError
  {
    var items := map[1 := Item(1, "Widget", "a widget")];
    var stores := map[2 := Store(2, "Main", "flagship", "1 High St")];
    var stock := map[(1, 2) := StockRec(1, 2, 10, 0, 9.99)];
    var named := OfItemName(Joined(items, stores, stock), "Widget");
    assert (1, 2) in named;
    assert |named.Keys| >= 1;
  }

  /** The `responses=` list of every route resolves against the status table. */
  lemma RouteResponsesResolve()
    ensures Utils.HttpResponses(ReportResponses).Some?
    ensures Utils.HttpResponses(ChangeResponses).Some?
  {
  }
}
