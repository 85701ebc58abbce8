/** The SQLite database behind the service, seen abstractly: one SQL table
    `table_<n>` per restaurant table number `n`, each keyed by `item_id`, and
    what each SQL statement the handlers issue does to it. */
module Store {

  /** One line item as the handlers return it (the `Item` struct). */
  datatype Item = Item(itemId: int, quantity: int, prepTime: int)

  /** The non-key columns of one row of `table_<n>`. */
  datatype Row = Row(quantity: int, prepTime: int)

  /** The rows of one `table_<n>`. `item_id integer primary key` makes the item
      the key, so a table holds at most one row per item. */
  type Table = map<int, Row>

  /** The whole database: a table number is a key once `table_<n>` exists. */
  type Db = map<int, Table>

  /** `gen_range(5..16)` draws from the half-open range [5, 16). */
  const PrepTimeLow: int := 5
  const PrepTimeEnd: int := 16

  predicate PrepTimeInRange(t: int) {
    PrepTimeLow <= t < PrepTimeEnd
  }

  /** `table_<n>` is a valid SQL name only when `n` prints without a minus sign;
      `table_-1` is a syntax error in every statement that names it. */
  predicate ValidTableName(n: int) {
    n >= 0
  }

  /** What the handlers keep true of the database: every table has a valid
      name and every stored preparation time came from the random draw. */
  ghost predicate WellFormed(db: Db) {
    forall n :: n in db ==>
      ValidTableName(n) && forall id :: id in db[n] ==> PrepTimeInRange(db[n][id].prepTime)
  }

  function ItemOf(t: Table, id: int): Item
    requires id in t
  {
    Item(id, t[id].quantity, t[id].prepTime)
  }

  /** `create table if not exists table_<n> (...)`: afterwards the table exists;
      an existing table keeps its rows, a new one is empty; no other table changes. */
  function CreateIfNotExists(db: Db, n: int): (db': Db)
    ensures db'.Keys == db.Keys + {n}
    ensures forall m :: m in db ==> db'[m] == db[m]
    ensures n in db ==> db' == db
    ensures n !in db ==> db'[n] == map[]
  {
    if n in db then db else db[n := map[]]
  }

  /** `insert into table_<n> (item_id, quantity, prep_time) values (id, q, prep)
      on conflict(item_id) do update set quantity = quantity + q`. */
  function Upsert(t: Table, id: int, q: int, prep: int): (t': Table)
    ensures t'.Keys == t.Keys + {id}
    ensures id !in t ==> t'[id] == Row(q, prep)
    ensures id in t ==> t'[id] == Row(t[id].quantity + q, t[id].prepTime)
    ensures forall k :: k in t && k != id ==> t'[k] == t[k]
  {
    if id in t then t[id := Row(t[id].quantity + q, t[id].prepTime)] else t[id := Row(q, prep)]
  }

  /** Adding the same item twice is adding the summed quantity once, and the
      preparation time is the one drawn for the first add whatever the second draw. */
  lemma AddsAccumulate(t: Table, id: int, q1: int, q2: int, prep1: int, prep2: int)
    ensures Upsert(Upsert(t, id, q1, prep1), id, q2, prep2) == Upsert(t, id, q1 + q2, prep1)
  {
  }

  /** Rows a statement `... where item_id = id` touches: the key is unique,
      so one if the item is present and none otherwise. */
  function Matching(t: Table, id: int): (count: nat)
    ensures count <= 1
    ensures count == 1 <==> id in t
  {
    if id in t then 1 else 0
  }

  /** `delete from table_<n> where item_id = id`. */
  function DeleteWhere(t: Table, id: int): (t': Table)
    ensures t'.Keys == t.Keys - {id}
    ensures forall k :: k in t' ==> t'[k] == t[k]
  {
    t - {id}
  }

  /** `update table_<n> set quantity = q where item_id = id`: no clamping, and
      the preparation time stays. */
  function SetQuantity(t: Table, id: int, q: int): (t': Table)
    ensures t'.Keys == t.Keys
    ensures id in t ==> t'[id] == Row(q, t[id].prepTime)
    ensures forall k :: k in t && k != id ==> t'[k] == t[k]
  {
    if id in t then t[id := Row(q, t[id].prepTime)] else t
  }

  predicate IsSmallest(m: int, keys: set<int>) {
    m in keys && forall k :: k in keys ==> m <= k
  }

  /** A set of item ids that holds `x` has a smallest member. */
  lemma {:induction false} SmallestKeyExists(keys: set<int>, x: int)
    requires x in keys
    ensures exists m :: IsSmallest(m, keys)
    decreases |keys|
  {
    var rest := keys - {x};
    if exists y :: y in rest {
      var y :| y in rest;
      SmallestKeyExists(rest, y);
      var m :| IsSmallest(m, rest);
      assert forall k :: k in keys ==> k == x || k in rest;
      var w := if x < m then x else m;
      assert IsSmallest(w, keys);
    } else {
      assert IsSmallest(x, keys);
    }
  }

  /** Every listed item is a row of `t`, as stored. */
  ghost predicate RowsOf(t: Table, items: seq<Item>) {
    forall it :: it in items ==> it.itemId in t && it == ItemOf(t, it.itemId)
  }

  /** Every row of `t` is listed exactly once. */
  ghost predicate EachRowOnce(t: Table, items: seq<Item>) {
    forall id :: id in t ==> multiset(items)[ItemOf(t, id)] == 1
  }

  /** Item ids strictly increase along the listing. */
  ghost predicate Ascending(items: seq<Item>) {
    forall i, j :: 0 <= i < j < |items| ==> items[i].itemId < items[j].itemId
  }

  /** Listing the smallest row first, then the listing of the other rows,
      lists the whole table. */
  lemma ListingStep(t: Table, m: int, tail: seq<Item>)
    requires m in t && IsSmallest(m, t.Keys)
    requires |tail| == |t - {m}|
    requires RowsOf(t - {m}, tail) && EachRowOnce(t - {m}, tail) && Ascending(tail)
    ensures var items := [ItemOf(t, m)] + tail;
      |items| == |t| && RowsOf(t, items) && EachRowOnce(t, items) && Ascending(items)
  {
    var rest := t - {m};
    var items := [ItemOf(t, m)] + tail;
    assert |rest| == |t| - 1 by {
      assert rest.Keys == t.Keys - {m};
    }
    assert forall it :: it in tail ==> it.itemId in rest && it == ItemOf(t, it.itemId);
    assert RowsOf(t, items) by {
      forall it | it in items ensures it.itemId in t && it == ItemOf(t, it.itemId) {
        if it != ItemOf(t, m) { assert it in tail; }
      }
    }
    assert ItemOf(t, m) !in tail;
    assert EachRowOnce(t, items) by {
      forall id | id in t ensures multiset(items)[ItemOf(t, id)] == 1 {
        assert multiset(items) == multiset{ItemOf(t, m)} + multiset(tail);
        if id != m {
          assert id in rest && ItemOf(t, id) == ItemOf(rest, id);
        }
      }
    }
    assert Ascending(items) by {
      forall i, j | 0 <= i < j < |items| ensures items[i].itemId < items[j].itemId {
        if i > 0 { assert items[i] == tail[i - 1]; }
        assert items[j] == tail[j - 1] && items[j] in tail;
      }
    }
  }

  /** `select item_id, quantity, prep_time from table_<n>`: each row of the
      table exactly once, as stored, in ascending item_id (the scan order of a
      table whose integer primary key is its rowid). */
  function SelectAll(t: Table): (items: seq<Item>)
    ensures |items| == |t|
    ensures RowsOf(t, items) && EachRowOnce(t, items) && Ascending(items)
    decreases |t|
  {
    if exists m :: m in t && IsSmallest(m, t.Keys) then
      var m :| m in t && IsSmallest(m, t.Keys);
      var tail := SelectAll(t - {m});
      ListingStep(t, m, tail);
      [ItemOf(t, m)] + tail
    else
      assert forall id :: id in t ==> exists m :: IsSmallest(m, t.Keys) by {
        forall id | id in t ensures exists m :: IsSmallest(m, t.Keys) {
          SmallestKeyExists(t.Keys, id);
        }
      }
      assert forall k :: k in t.Keys <==> k in {};
      []
  }

  /** A table with a single row lists just that row. */
  lemma SelectAllSingleRow(id: int, row: Row)
    ensures SelectAll(map[id := row]) == [Item(id, row.quantity, row.prepTime)]
  {
  }

  /** `select item_id, quantity, prep_time from table_<n> where item_id = id`. */
  function SelectWhere(t: Table, id: int): (items: seq<Item>)
    ensures |items| == Matching(t, id)
    ensures forall it :: it in items ==> it == ItemOf(t, id)
  {
    if id in t then [ItemOf(t, id)] else []
  }

  /** The items of a listing whose item_id is `id`, in listing order. */
  function Filter(items: seq<Item>, id: int): seq<Item> {
    if items == [] then []
    else (if items[0].itemId == id then [items[0]] else []) + Filter(items[1..], id)
  }

  lemma {:induction false} FilterAscendingRows(t: Table, items: seq<Item>, id: int)
    requires RowsOf(t, items) && Ascending(items)
    ensures Filter(items, id) == if id in t && ItemOf(t, id) in items then [ItemOf(t, id)] else []
  {
    if items != [] {
      var rest := items[1..];
      assert forall it :: it in rest ==> it in items;
      assert forall i, j :: 0 <= i < j < |rest| ==> rest[i].itemId < rest[j].itemId by {
        forall i, j | 0 <= i < j < |rest| ensures rest[i].itemId < rest[j].itemId {
          assert rest[i] == items[i + 1] && rest[j] == items[j + 1];
        }
      }
      FilterAscendingRows(t, rest, id);
      if items[0].itemId == id {
        forall it | it in rest ensures it.itemId > id {
          var j :| 0 <= j < |rest| && rest[j] == it;
          assert items[j + 1] == it;
        }
      }
    }
  }

  /** The point query agrees with the full listing filtered on the item:
      `... where item_id = id` returns what `select ... from table_<n>` lists for it. */
  lemma {:induction false} SelectWhereFiltersSelectAll(t: Table, id: int)
    ensures SelectWhere(t, id) == Filter(SelectAll(t), id)
  {
    var all := SelectAll(t);
    FilterAscendingRows(t, all, id);
    if id in t {
      assert multiset(all)[ItemOf(t, id)] == 1;
    }
  }

  /** What the point select reads back after each write to the item: nothing
      after a delete, the new quantity with the old preparation time after an
      update, and the accumulated row after an add. Deleting after an add
      leaves the table as deleting alone would. */
  lemma ReadAfterWrite(t: Table, id: int, q: int, prep: int)
    ensures SelectWhere(DeleteWhere(t, id), id) == []
    ensures id in t ==> SelectWhere(SetQuantity(t, id, q), id) == [Item(id, q, t[id].prepTime)]
    ensures id !in t ==> SelectWhere(SetQuantity(t, id, q), id) == []
    ensures id in t ==> SelectWhere(Upsert(t, id, q, prep), id) == [Item(id, t[id].quantity + q, t[id].prepTime)]
    ensures id !in t ==> SelectWhere(Upsert(t, id, q, prep), id) == [Item(id, q, prep)]
    ensures DeleteWhere(Upsert(t, id, q, prep), id) == DeleteWhere(t, id)
  {
  }
}
