# Restaurant order ledger — a Dafny model

This project models the order ledger behind a small restaurant web service.
For each restaurant table the service keeps one SQLite table `table_<n>` with
one row per ordered menu item: `(item_id, quantity, prep_time)`. Five endpoint
handlers work on it:

- `add_item` creates the table if it is missing. It then inserts the item with a
  random preparation time of 5 to 15 minutes. If the item is already there, it
  adds the quantity to the row instead.
- `delete_item` removes the item's row.
- `update_quantity` overwrites the item's quantity.
- `get_all_items` lists a table.
- `get_specific_item` returns the item's row as a list of at most one item.

The model has three modules:

- `Decimal` (`decimal.dfy`) renders counts as Rust's `{}` does. It also proves
  that a client reading the leading number of a status message gets the count back.
- `Store` (`store.dfy`) treats the database as a map from table number to table,
  and each table as a map from `item_id` to `(quantity, prep_time)`. It gives the
  meaning of each SQL statement the handlers issue: `create table if not exists`,
  the accumulating upsert, `delete … where`, `update … set quantity`, and the two
  selects.
- `Ledger` (`ledger.dfy`) holds the handlers themselves. The three handlers that
  change the database are methods of the class `Ledger`. Its field `tables` is
  the database, and its invariant is that every table name is valid SQL and every
  stored preparation time lies in [5, 16). The two read-only handlers are
  functions of the database.

Things the handlers cannot predict are inputs to the model:

- Storage faults are a `Faults` value. It has one flag per step: connect,
  create table, prepare, execute, `query_map`, `collect`. Each flag selects the
  error text the handler returns for that step.
- The random preparation time is a parameter `prepTime` with `5 <= prepTime < 16`.
  This mirrors `gen_range(5..16)`, whose range is half-open.

Three behaviours of the code are easy to miss, and the model keeps them as
written:

- Reads on a table nothing was ever added to do not return an empty result.
  `delete_item`, `get_all_items`, `get_specific_item` and `update_quantity`
  never issue `create table if not exists`, so their statement fails to prepare.
  They return `"Failed to prepare query"`.
- A failed insert after the table was created still leaves the new, empty
  table in place.
- A negative table number gives the name `table_-1`, which is a SQL syntax
  error. `add_item` then panics on the unwrapped table creation (modelled as
  `Abort`). The other handlers fail to prepare.

## Model

| member | source | states |
|---|---|---|
| `Decimal.Render` | src/main.rs:80-82 | the count in a status message is written in decimal: at least one digit, all digits, and a leading `0` only for zero |
| `Decimal.ReadBackRendered` | src/main.rs:80-82 | reading the leading number of the decimal text of `n`, followed by any text that does not start with a digit, gives back `n` |
| `Store.CreateIfNotExists` | src/main.rs:58-64 | after `create table if not exists` the table exists; an existing table keeps all its rows (the statement changes nothing then); a new table is empty; no other table changes |
| `Store.Upsert` | src/main.rs:66-70 | the upsert leaves exactly one row for the item: a new item gets `(q, t)`; an existing item gets old quantity + `q` and keeps its preparation time; no other row changes |
| `Store.AddsAccumulate` | src/main.rs:68-69 | two adds of the same item equal one add of the summed quantity, and the second draw of the preparation time is ignored |
| `Store.Matching` | src/main.rs:105-111 | a statement `where item_id = id` affects at most one row, and exactly one iff the item is in the table |
| `Store.DeleteWhere` | src/main.rs:100 | `delete … where item_id = id` removes exactly that item's key and leaves every other row as it was |
| `Store.SetQuantity` | src/main.rs:226-228 | `update … set quantity = q` keeps the table's keys; it stores `q` unclamped and keeps the preparation time; an absent item changes nothing; other rows are untouched |
| `Store.SelectAll` | src/main.rs:131-152 | the full select lists exactly as many items as the table has rows; every item is a stored row; every row appears exactly once (multiset count 1); item ids ascend |
| `Store.SelectAllSingleRow` | src/main.rs:131-152 | a table with one row lists exactly that row |
| `Store.SelectWhere` | src/main.rs:178-198 | the point select returns as many items as rows match (0 or 1), and each is the stored row of the item |
| `Store.SelectWhereFiltersSelectAll` | src/main.rs:131-198 | the point select equals the full listing filtered on the item id |
| `Store.ReadAfterWrite` | src/main.rs:68-228 | reading an item back gives: nothing after a delete; the new quantity with the old preparation time after an update; the accumulated row (or the new row with the drawn time) after an add. Delete after add equals delete alone |
| `Ledger.MessagesCarryCount` | src/main.rs:80-82 | each of the three status messages ("menu item inserted!", "menu item deleted!", "row updated!") starts with the affected-row count, and a client reads that count back from it |
| `Ledger.GetAllItems` | src/main.rs:119-163 | connect failure gives "Failed to connect to database"; a missing or invalid table, or a prepare fault, gives "Failed to prepare query"; a query fault gives "Failed to fetch menu items for table_<n>"; a collect fault gives "Could not collect items"; it succeeds iff none of these occurs, with each row of the table listed exactly once |
| `Ledger.GetSpecificItem` | src/main.rs:166-210 | same error branches as the listing; on success at most one item, none iff the item is absent, otherwise the stored row |
| `Ledger.PointQueryAgreesWithListing` | src/main.rs:119-210 | the point query and the listing succeed or fail together, and on success the point query is the listing filtered on the item |
| `Ledger.ListedPrepTimesInRange` | src/main.rs:47-48 | on a database the handlers built, every listed preparation time lies in [5, 16) |
| `Ledger.Ledger.constructor` | src/main.rs:246-248 | a new database has no tables and satisfies the ledger invariant |
| `Ledger.Ledger.AddItem` | src/main.rs:43-85 | connect fault: error, nothing changes. Invalid name or create fault: abort, nothing changes. Prepare or execute fault: error, table created. Otherwise "1 menu item inserted!" (also for an accumulated add) and only this table's upsert happens. No other table changes; the invariant holds |
| `Ledger.Ledger.DeleteItem` | src/main.rs:87-116 | never creates a table; a missing table gives "Failed to prepare query"; an execute fault gives "Failed to delete menu item" and changes nothing; otherwise it removes the row and reports 1, or reports 0 as a success when the item is absent; other tables unchanged |
| `Ledger.Ledger.UpdateQuantity` | src/main.rs:212-243 | never creates a table; a missing table gives "Failed to prepare query"; an execute fault gives "Failed to update table" and changes nothing; otherwise it stores the new quantity, with no clamping and the same preparation time, and reports 1, or reports 0 as a success when the item is absent; other tables unchanged |
| `Ledger.DeleteThenGet` | src/main.rs:87-210 | after a successful `delete_item`, a `get_specific_item` of the same table and item that meets no storage fault returns an empty list |
| `Ledger.OrderLineScenario` | src/main.rs:43-116 | from an empty database: add 3 of item 42 then read `[(42, 3, t1)]`; add 2 more then read `[(42, 5, t1)]`, keeping the first preparation time; delete then read `[]` |
| `Ledger.UnwrittenTableScenario` | src/main.rs:87-243 | list, get, delete and update on a table nothing was added to all fail with "Failed to prepare query", and the table still does not exist afterwards |
| `Ledger.QuantityUpdateScenario` | src/main.rs:212-243 | updating an absent item reports "0 row updated!"; updating to -2 reports 1 row, and reading back gives quantity -2 with the original preparation time |
| `Ledger.SeparateTablesScenario` | src/main.rs:87-163 | with item 5 ordered at tables 1 and 2, deleting it at table 1 leaves table 2 listing exactly its own row |

## Left out

- HTTP routing, `index`, `main`'s server start-up and `rocket()`: these are transport and wiring. The Rocket attributes and the tests only check HTTP status codes.
- The file `data.sqlite` and the connection to it. A `Ledger` object stands for the database, and connection failures are the injected `connect` fault.
- Building SQL text with `format!`: each statement is modelled by what it does. The one effect of the text that matters, that a negative table number is not a valid table name, is kept.
- The random number generator: the preparation time is a parameter, bounded as `gen_range(5..16)` bounds it.
- Storage faults: they are injected flags, so the model does not say when SQLite fails, only what each handler does when it does.
- The panic of `.unwrap()` on table creation: it is the reply `Abort`, which stands for Rocket's error response after a panic.
- JSON serialisation of `Item`, `ItemList` and `StatusMessage`, and the debug `println!` of fetched items.
- 64-bit integers: ids and quantities are unbounded integers. Rocket's rejection of path segments outside the `i64` range is not modelled. Neither is SQLite turning an overflowing integer sum into a real number.
- Concurrency: handlers run one at a time in the model. SQLite's atomicity under concurrent writers is not modelled.
- Row order: the model lists rows in ascending `item_id`, the scan order of a table keyed by its integer primary key. Only the multiset of rows and the ascending ids are stated. No caller relies on the order.
