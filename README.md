# Shopping-item store: a Dafny model

This project models the record store behind the shopping-list service in
`main.py`. The service keeps a table of shopping items. Each item has an
integer primary key `id`, a `name`, a `quantity` and an optional
`description`. It offers five operations on the table: get one item by id,
list a page of items, create, update and delete. Over these, HTTP endpoints
answer 404 "Item not found" whenever get, update or delete finds no item.

The service keeps its table in SQLite. This model keeps it in memory instead.

- `records.dfy` (module `Records`) holds the row (`Item`) and the request
  payload (`ItemCreate`).
- `storage.dfy` (module `Storage`) holds the table. It is a class,
  `ItemTable`, whose one field `rows` is the sequence of rows in the order
  the storage engine yields them.
  - The two queries are functions of that sequence. `Get` finds the first row
    with the id, as `.first()` does. `List` skips and then takes rows, as
    OFFSET/LIMIT do. A negative offset counts as 0 and a negative limit as no
    limit, which is how SQLite reads them; the route does not reject either.
  - The three writes are methods that change `rows`. Each states the whole new
    table, what `Get` then finds under every key, and that the primary-key
    constraint (`UniqueIds`) still holds.
  - The writes are specified by id-based functions (`Replaced`, `Without`, and
    insertion at a position). Lemmas show what `Get` finds after each of
    them. For overwriting, a further lemma shows what `List` then returns.
    Other lemmas show that on a table with unique ids, each function is the
    same as the one-row, in-place change the method makes.
- `api.dfy` (module `Api`) holds the endpoints' not-found rule (`Respond`),
  `read_item`, `update_item` and `delete_item`. It also has a verified client
  session: create "Milk", read it, replace its fields, delete it, and get a
  404 on the next read.

The storage engine makes two choices that the source does not control, so
`Create` takes both as parameters:

- the key of a new row, which must be one not in use;
- where the new row falls in the order the engine yields rows.

`FreshId` shows that a key not in use always exists.

Two things the code leaves open, and the model leaves open too:

- `get_shopping_items` has no ORDER BY, so the model promises no ascending-id
  order, only "the rows after the first `skip`, in the engine's order".
- Nothing in main.py fixes whether ids are reused after a delete, so the model
  makes no promise either way.

The column default `quantity = 1` (main.py:21) cannot be reached through the
API, because the request schema requires `quantity` (main.py:30).

## Model

| member | source | states |
|---|---|---|
| `Records.Stored` | main.py:57-58 | the row built from a payload carries exactly the payload's name, quantity and description under the given key, and no other row does |
| `Storage.Get` | main.py:51-52 | None exactly when no row has the id; otherwise a row of the table with that id, and no earlier row has it (the first match) |
| `Storage.List` | main.py:54-55 | never more than `limit` rows (a negative limit is no limit); each row returned is the corresponding row after the first `skip`; the page falls short of `limit` only when the table runs out |
| `Storage.ListDefaults` | main.py:87 | with the defaults skip 0 and limit 100 the listing is the first hundred rows, and on an empty table it is empty |
| `Storage.ListPagesJoin` | main.py:55 | a page of `first` rows followed by the next page of `second` rows is the page of `first + second` rows from the same offset |
| `Storage.ListedRowsAreFound` | main.py:51-55 | on a table with unique ids, every listed row is what get returns for its id |
| `Storage.FreshId` | main.py:19 | a key of at least 1 above every key in use, so not in use: the key a new row needs always exists |
| `Storage.GetFindsRow` | main.py:19 | on a table with unique ids, get returns each row when asked for its id |
| `Storage.GetInserted` | main.py:57-62 | after a row with an unused key is added anywhere in the table, get finds it under its key and finds the same as before under every other key |
| `Storage.InsertedKeepsUnique` | main.py:19 | adding a row with an unused key keeps the ids unique and adds exactly that key to the keys in use |
| `Storage.GetReplaced` | main.py:64-72 | after the rows keyed `id` are overwritten, get finds the new row under `id` when `id` was in use, and otherwise finds the same as before |
| `Storage.ListReplaced` | main.py:54-55 | after the rows keyed `id` are overwritten, every listing page has the same length and the same rows in the same places, with the overwritten row where the old one stood |
| `Storage.CreatedWithoutDescription` | main.py:28-31 | a create from a payload without `description` stores a row whose description is None, with the given name and quantity, and get finds it under its key |
| `Storage.ReplacedKeepsUnique` | main.py:64-72 | overwriting a row with one of the same id keeps the ids unique |
| `Storage.ReplacedAt` | main.py:65-69 | on a table with unique ids, overwriting by id is overwriting the single row at its position |
| `Storage.GetWithout` | main.py:74-79 | after the rows keyed `id` are removed, get finds nothing under `id` and the same as before under every other key |
| `Storage.WithoutKeepsUnique` | main.py:74-79 | removing rows keeps the ids unique and removes exactly `id` from the keys in use |
| `Storage.WithoutAt` | main.py:75-77 | on a table with unique ids, removing by id is removing the single row at its position |
| `Storage.WithoutMissing` | main.py:75-79 | removing a key that is not in use leaves the table as it was |
| `Storage.ItemTable.constructor` | main.py:25 | a new table is empty and satisfies the primary-key constraint |
| `Storage.ItemTable.Create` | main.py:57-62 | returns the new row with the chosen unused key and exactly the payload's fields; the table gains that one row at the chosen position and nothing else changes; get then returns it under its key and the same as before under every other key |
| `Storage.ItemTable.Update` | main.py:64-72 | when the key is in use, returns the row with the same key and exactly the payload's fields (no merge with old values), and get then returns that row; when the key is not in use, returns None and the table is unchanged; the row count and every other key's row are unchanged |
| `Storage.ItemTable.Delete` | main.py:74-79 | returns the row as it was before removal, or None when the key is not in use; the table loses exactly that row (none when missing); get then returns None under the key and the same as before under every other key |
| `Api.ReadItem` | main.py:91-96 | 404 "Item not found" exactly when no row has the id; otherwise a row of the table with that id |
| `Api.ReadStoredItem` | main.py:91-96 | on a table with unique ids, read_item answers with each row when asked for its id |
| `Api.UpdateItem` | main.py:98-103 | 404 "Item not found" with the table unchanged exactly when the id was not in use; otherwise the row with the payload's fields, which read_item then returns |
| `Api.DeleteItem` | main.py:105-110 | 404 "Item not found" with the table unchanged exactly when the id was not in use; otherwise what read_item returned just before; read_item then answers 404 |

## Left out

- HTTP routing, decorators, JSON serialisation and the `response_model` views
  (main.py:14, main.py:33-40, main.py:82-110 apart from the not-found check).
  `create_item` and `read_items` pass the storage result through unchanged,
  so `ItemTable.Create` and `List` stand for them.
- The SQLAlchemy engine, session factory and `get_db` session lifecycle, along
  with `commit`, `refresh` and `create_all` (main.py:8-11, main.py:25,
  main.py:43-48). These are I/O and library calls. Each write is modelled as
  one atomic change of the in-memory table.
- Storage failures, such as a lost connection. They are exceptions from the
  library, and the model has no error path for them.
- Pydantic validation (main.py:27-40). A malformed body is rejected before any
  code modelled here runs.
- The engine's row order and its choice of new keys. Both are parameters of
  `ItemTable.Create`, with no promise of ascending order or of keys never
  being reused.
- The column default `quantity = 1` (main.py:21). The request schema makes
  `quantity` required (main.py:30), so the default is never used.
- Integer width. `id` and `quantity` are unbounded integers here. SQLite
  stores 64-bit integers, and the model does not capture overflow at that
  bound.
- `check_same_thread=False` and concurrent requests (main.py:9). Concurrency
  is left to the storage engine.
