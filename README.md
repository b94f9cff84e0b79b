# Item stock service: a Dafny model

The service is a small CRUD API over three tables in PostgreSQL:

- **items**: id, unique name, description;
- **stores**: id, unique name, description, address;
- **stock**: one row per (item, store) pair, with `available`, `sold` and `price`.

Every handler is one SQL statement. Its behaviour is the statement's meaning plus the mapping from the
database's exception to an HTTP status: a unique violation is 409, a foreign-key violation is 400, and
an empty result is 204. The one handler with a real rule is `POST /stock/add`. It is an upsert keyed by
(item, store). It adds the `available` and `sold` deltas to the existing row (or to an empty one),
floors each at zero, and replaces the price when one is supplied.

This project models the three tables as one `Tables.Database` object holding three maps. Each
handler that writes is a method that takes that object and modifies it; each read-only handler is a
function of the maps. Every method and function returns an `Outcome`:

- `Ok` and `OkList` are 200;
- `NoContent` is 204, `Conflict` is 409 and `BadRequest` is 400;
- `ServerError` is 500, a database error the handler does not catch.

The integrity constraints that the handlers' error mapping implies form the invariant
`Tables.TablesValid`:

- names are unique within items and within stores;
- every stock row sits under its own key and references an existing item and store;
- `available`, `sold` and `price` are never negative.

Every writing handler requires and preserves this invariant. The two members that model the
update of a store as written (`Stores.UpdateStoreAsWritten` and its witness) do not need it: that
statement fails before it reads any row.

Modules:

- `Wrappers`: `Option` and `Coalesce`.
- `Utils`: `app/routers/utils.py`.
- `Order`: the name order and the name-ordered listing of a table.
- `Tables`: records, outcomes, constraints, the `Database` class, `LIMIT`/`OFFSET` windows and lookup
  by name.
- `Items`, `Stores`, `Stock`: the three routers.
  `stores.py` and `app/routers/stores.py` have the same text, so `Stores` models both.

Choices made in the model:

- The fresh UUID that `uuid.uuid4()` generates is a parameter `id` of the two create methods. If that
  id is already in the table, the insert breaks the primary key. That is a unique violation, so the
  model answers 409 for it, the same as for a taken name.
- Deleting an item or store that stock rows still reference does not cascade. The delete handlers
  catch the foreign-key violation and answer 400, so the model keeps the row and answers 400.
- `ORDER BY name` is modelled as code-point lexicographic order (`Order.NameLe`). Rows with equal
  names (possible in the stock reports) come out in an order the model does not fix.
- `skip` and `limit` are natural numbers. With negative values PostgreSQL rejects `LIMIT`/`OFFSET`,
  which the handlers do not catch.
- `price` is a `real`.

## Model

| member | source | states |
|---|---|---|
| `Utils.HttpResponses` | app/routers/utils.py:3-11 | the result exists exactly when every code is in the status table; its key set is exactly the set of codes given, and each maps to its table entry |
| `Utils.HttpException` | app/routers/utils.py:13-15 | the status code is the code given; the detail is the message when it is non-empty, else the table's description; a missing code with no message is a lookup failure |
| `Tables.RaisedStatusesHaveDescriptions` | app/routers/utils.py:3-15 | 204, 409 and 400, the statuses the handlers raise themselves, are in the table, and their details are "No content", "Duplicate record" and "Bad request" |
| `Tables.ItemRowsDistinct` | app/routers/items.py:70-79 | items carry their own id, so under the constraints no two ids hold the same item |
| `Tables.StoreRowsDistinct` | app/routers/stores.py:72-81 | stores carry their own id, so under the constraints no two ids hold the same store |
| `Tables.Window` | app/routers/items.py:37-38 | `LIMIT limit OFFSET skip` has length min(limit, rows - skip), or 0 past the end, and its i-th row is row skip + i |
| `Tables.Page` | app/routers/items.py:34-42 | a list handler answers 204 exactly when skip is at or past the row count or limit is 0; otherwise it answers 200 with exactly the window, of length min(limit, rows - skip); either way the rows it carries are the window |
| `Tables.ConsecutiveWindows` | app/routers/items.py:37-38 | the page at skip of size a, followed by the page at skip + a of size b, is the page at skip of size a + b |
| `Tables.WindowSorted` | app/routers/items.py:36-38 | a window of name-ordered rows is name-ordered |
| `Tables.WindowDistinct` | app/routers/items.py:37-38 | a window of rows without repeats has no repeats |
| `Tables.WindowWithin` | app/routers/items.py:37-38 | a window holds only rows of what it windows |
| `Tables.SortedPage` | app/routers/items.py:34-42 | a list handler over a table answers 204 exactly when skip is at or past the row count or limit is 0; the rows it answers are exactly the window at skip of the table's name-ordered listing, min(limit, n - skip) of them, rows of the table, none repeated when no two keys hold the same row, in name order |
| `Tables.ConsecutivePages` | app/routers/items.py:34-42 | reading the page at skip of size a and then the page at skip + a of size b reads the same rows as the page at skip of size a + b |
| `Tables.FindByName` | app/routers/items.py:61-63 | the lookup by name answers a row exactly when some row holds the name, and that row holds it; otherwise it answers 204 |
| `Tables.FindByNameUnique` | app/routers/items.py:61-64 | under the unique-name constraint, the lookup by a row's name answers that very row |
| `Order.OrderedKeys` | app/routers/items.py:35-36 | `ORDER BY name` lists each key once, only keys of the table, every key of the table, and names in non-decreasing order |
| `Order.NameLeReflexive` | app/routers/items.py:36 | the name order relates every name to itself |
| `Order.NameLeTotal` | app/routers/items.py:36 | any two names are comparable, so `ORDER BY name` can order any table |
| `Order.NameLeTransitive` | app/routers/items.py:36 | the name order is transitive |
| `Order.NameLeAntisymmetric` | app/routers/items.py:36 | two names each at most the other are equal |
| `Order.SortedRows` | app/routers/items.py:35-36 | `SELECT * ... ORDER BY name` has one row per key, holds only rows of the table and every row of the table, repeats no row when no two keys hold the same row, and is name-ordered |
| `Items.GetItems` | app/routers/items.py:30-42 | 204 exactly when skip is at or past the item count or limit is 0; the items answered are exactly the window at skip of the name-ordered items, min(limit, n - skip) of them, distinct under the constraints, in name order |
| `Items.GetItemById` | app/routers/items.py:48-53 | the item stored under the id, or 204 exactly when there is none |
| `Items.GetItemByName` | app/routers/items.py:59-64 | an item with that name exactly when one exists, or 204 |
| `Items.LookupsAgree` | app/routers/items.py:48-64 | under the constraints, looking an item up by its name gives the same answer as looking it up by its id |
| `Items.Patch` | app/routers/items.py:89-91 | the updated row: each supplied field replaces the stored one (an empty string too), each `None` field keeps it, and the id never changes |
| `Items.PatchIdempotent` | app/routers/items.py:85-98 | sending the same update twice gives the row the first one gave; an update with no field leaves the row unchanged |
| `Items.CreateItem` | app/routers/items.py:70-79 | 409 with the table unchanged exactly when the name (or the id) is taken; otherwise exactly one item is added and returned, and a lookup by its name or id finds it; the constraints are kept and the other tables are untouched |
| `Items.UpdateItem` | app/routers/items.py:85-98 | 204 with no change when the id is absent; 409 with no change when the new name belongs to another item; otherwise only that row is replaced by its patched version, which is returned |
| `Items.DeleteItemById` | app/routers/items.py:104-114 | 204 when absent; 400 with the item kept when a stock row references it; otherwise exactly that item is removed and returned |
| `Items.RouteResponsesResolve` | app/routers/items.py:28-102 | every `responses=` list of the items router resolves against the status table |
| `Stores.GetStores` | stores.py:32-44 | 204 exactly when skip is at or past the store count or limit is 0; the stores answered are exactly the window at skip of the name-ordered stores, min(limit, n - skip) of them, distinct under the constraints, in name order |
| `Stores.GetStoreById` | app/routers/stores.py:50-55 | the store stored under the id, or 204 exactly when there is none |
| `Stores.GetStoreByName` | app/routers/stores.py:61-66 | a store with that name exactly when one exists, or 204 |
| `Stores.LookupsAgree` | app/routers/stores.py:50-66 | under the constraints, looking a store up by its name gives the same answer as looking it up by its id |
| `Stores.Patch` | app/routers/stores.py:91-94 | the updated row under the intended statement: each of name, description and address is replaced if supplied and kept if `None`, and the id never changes |
| `Stores.PatchIdempotent` | app/routers/stores.py:87-101 | sending the same update twice gives the row the first one gave; an update with no field leaves the row unchanged |
| `Stores.CreateStore` | stores.py:72-81 | 409 with the table unchanged exactly when the name (or the id) is taken; otherwise exactly one store is added and returned, and a lookup by its name or id finds it |
| `Stores.UpdateStore` | app/routers/stores.py:87-101 | the update as intended: 204 with no change when the id is absent; 409 with no change on a name held by another store; otherwise that row is patched and returned |
| `Stores.UpdateStoreAsWritten` | stores.py:90-96 | the statement as written is rejected by PostgreSQL, so every call is a 500 that the route does not document |
| `Stores.DeleteStoreById` | stores.py:107-117 | 204 when absent; 400 with the store kept when a stock row references it; otherwise exactly that store is removed and returned |
| `Stores.RouteResponsesResolve` | app/routers/stores.py:30-105 | every `responses=` list of the stores router resolves against the status table |
| `Stock.Merge` | app/routers/stock.py:110-115 | the merged row is the existing row, or an empty one for an absent key, with each delta added and floored at zero; the price is the supplied one floored at zero, else the old one; all three fields are non-negative |
| `Stock.FloorAtZero` | app/routers/stock.py:111-114 | a negative delta at least as large as what is there leaves 0, for `available` and for `sold`, whether the row existed or not |
| `Stock.PriceIsSetNotAdded` | app/routers/stock.py:115 | an omitted price keeps the stored price; a supplied price replaces it (floored at 0) |
| `Stock.AdjustmentsAccumulate` | app/routers/stock.py:110-115 | two adjustments in a row of the same (item, store) row equal one adjustment by the summed deltas when the first stays above the floor (so +3 then +4 from nothing gives 7) |
| `Stock.AdjustmentScenario` | app/routers/stock.py:110-115 | 10 available at 9.99, then -3 available and +2 sold, gives 7 available, 2 sold, price 9.99 |
| `Stock.ChangeStock` | app/routers/stock.py:105-122 | 400 with the stock table unchanged exactly when the item or the store does not exist; otherwise the merged row is stored under (item, store), no other row changes, and the stored row is returned; items and stores are untouched and the constraints are kept |
| `Stock.JoinedRows` | app/routers/stock.py:39-42 | `Stock.Joined` (with its parts `Joins` and `Report`): the inner join holds a row exactly for each stock row whose item and store exist, and that row is the stock row with the item's and the store's names |
| `Stock.JoinKeepsEveryRow` | app/routers/stock.py:39-42 | under the foreign keys, the join of stock with items and stores has exactly the stock table's keys and carries each stock row unchanged |
| `Stock.JoinedRowsDistinct` | app/routers/stock.py:39-42 | under the constraints no two keys of the join hold the same joined row |
| `Stock.OfItem` | app/routers/stock.py:65 | `WHERE stock.item_id = $1`: exactly the joined rows of that item, unchanged |
| `Stock.OfItemName` | app/routers/stock.py:88 | the intended `WHERE items.name = $1`: exactly the joined rows whose item has that name, unchanged |
| `Stock.OfItemDistinct` | app/routers/stock.py:65 | the item filter introduces no repeated row |
| `Stock.OfItemNameDistinct` | app/routers/stock.py:88 | the name filter introduces no repeated row |
| `Stock.OfItemRows` | app/routers/stock.py:65 | rows drawn from `WHERE stock.item_id = $1` are joined rows of that item |
| `Stock.OfItemNameRows` | app/routers/stock.py:88 | rows drawn from the intended `WHERE items.name = $1` are joined rows with that item name |
| `Stock.GetStock` | app/routers/stock.py:34-49 | 204 exactly when skip is at or past the joined row count or limit is 0; the rows answered are exactly the window at skip of the joined rows in item-name order, min(limit, n - skip) of them, joined rows, distinct under the constraints, in item-name order |
| `Stock.GetStockByItemId` | app/routers/stock.py:55-72 | 204 exactly when the window of the item's joined rows is empty; the rows answered are exactly the window at skip of the item's joined rows in store-name order, min(limit, n - skip) of them, each a joined row of that item, distinct under the constraints |
| `Stock.GetStockByItemName` | app/routers/stock.py:78-95 | the query as intended: 204 exactly when the window is empty; the rows answered are exactly the window at skip of the named item's joined rows in store-name order, min(limit, n - skip) of them, each a joined row with that name, distinct under the constraints |
| `Stock.ByNameIsById` | app/routers/stock.py:55-95 | under the constraints, the report by an item's name equals the report by its id, for every window |
| `Stock.GetStockByItemNameAsWritten` | app/routers/stock.py:83-95 | the query as written names a column the stock table lacks, so every call is a 500 that the route does not document |
| `Stock.StockByNameDefectWitness` | app/routers/stock.py:88 | with one item stocked in one store, the intended query lists its row while the query as written answers 500 |
| `Stock.RouteResponsesResolve` | app/routers/stock.py:32-99 | every `responses=` list of the stock router resolves against the status table |

## Findings

| source | as written | input that shows it | evidently intended | confidence | as-written member | corrected member |
|---|---|---|---|---|---|---|
| app/routers/stores.py:93-94 (also stores.py:93-94) | no comma between `description = COALESCE($3, description)` and `address = COALESCE($4, address)`, so the UPDATE is a syntax error and every update is a 500 | an existing store updated with all fields `None` (`Stores.UpdateStoreDefectWitness`) | three comma-separated `COALESCE` assignments, as in app/routers/items.py:89-91 | high; not executed | `Stores.UpdateStoreAsWritten` | `Stores.UpdateStore` |
| app/routers/stock.py:88 | `WHERE stock.name = $1` filters on a column the stock rows do not have (their fields are at app/routers/stock.py:9-14), so every call is a 500 | item "Widget" stocked in one store, asked for by name (`Stock.StockByNameDefectWitness`) | `WHERE items.name = $1` | medium (the schema is not part of this model); not executed | `Stock.GetStockByItemNameAsWritten` | `Stock.GetStockByItemName` |

## Left out

- Connection pooling, `async`/`await` and concurrency: each handler is one atomic state change.
- The no-lost-update guarantee of `ON CONFLICT` under concurrent adjustments is a database property.
  The model runs adjustments one after another.
- The transaction around `POST /stock/add` is modelled only as "stock unchanged on 400".
- FastAPI and pydantic parsing and serialisation, UUID parsing, the HTTP transport, and the OpenAPI
  metadata beyond the `responses=` lists are not modelled.
- The text of `repr(e)` in the 400 detail of `POST /stock/add` is not modelled: it is the database's
  message.
- Stock.ChangeStock never answers 409, although its route lists 409. `ON CONFLICT` absorbs the only
  unique violation it could meet.
- Stock.ChangeStock does not model check and not-null violations. Both are caught as 400, but after
  `COALESCE`/`GREATEST` no value the handler sends can break either, as far as the handlers show. The
  schema's own check constraints are not part of this model.
- Integer width and overflow of `available` and `sold` are not modelled. The column types are not
  part of this model, and an overflow would be an uncaught 500.
- Floating-point behaviour of `price` (NaN, infinities, rounding) is not modelled; it is a `real`.
- PostgreSQL collation is not modelled. `ORDER BY` uses code-point order, and the order among equal
  names is left unspecified.
- Uncaught database errors other than the two findings (connectivity, negative `LIMIT`/`OFFSET`,
  overflow) are not modelled; they surface as 500.
- main.py (app construction, router registration, pool startup and shutdown) is framework wiring.
  `Tables.Database`'s constructor gives the empty tables instead.
