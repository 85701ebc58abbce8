/** The five order-ledger endpoints of the restaurant service: three handlers
    that change the database (add, delete, update quantity) as methods of a
    `Ledger` object holding it, and two read-only queries (list a table, get
    one item) as functions of the database. Storage faults are an injected
    `Faults` value and the random preparation time is a parameter. */
module Ledger {
  import opened Decimal
  import opened Store

  /** Which storage steps fail on this call; each set flag selects the error
      branch the handler takes when that step fails. */
  datatype Faults = Faults(
    connect: bool,      // Connection::open("data.sqlite")
    createTable: bool,  // `create table if not exists`, whose error is unwrapped
    prepare: bool,      // preparing the handler's statement
    execute: bool,      // executing it
    query: bool,        // query_map running a select
    collect: bool)      // collecting the selected rows into a vector

  const NoFaults := Faults(false, false, false, false, false, false)

  /** What a handler gives back: a payload, an error text, or a panic. */
  datatype Reply<T> = Ok(value: T) | Err(error: string) | Abort

  datatype StatusMessage = StatusMessage(message: string)

  datatype ItemList = ItemList(items: seq<Item>)

  const ConnectFailed := "Failed to connect to database"
  const PrepareFailed := "Failed to prepare query"
  const InsertFailed := "Failed to insert menu item"
  const DeleteFailed := "Failed to delete menu item"
  const UpdateFailed := "Failed to update table"
  const CollectFailed := "Could not collect items"

  function FetchFailed(tableNum: nat): string {
    "Failed to fetch menu items for table_" + Render(tableNum)
  }

  function InsertedMessage(rows: nat): string {
    Render(rows) + " menu item inserted!"
  }

  function DeletedMessage(rows: nat): string {
    Render(rows) + " menu item deleted!"
  }

  function UpdatedMessage(rows: nat): string {
    Render(rows) + " row updated!"
  }

  /** Each status message starts with the affected-row count, and a client
      reading the leading number gets that count back. */
  lemma MessagesCarryCount(rows: nat)
    ensures LeadingNumber(InsertedMessage(rows)) == rows
    ensures LeadingNumber(DeletedMessage(rows)) == rows
    ensures LeadingNumber(UpdatedMessage(rows)) == rows
  {
    ReadBackRendered(rows, " menu item inserted!");
    ReadBackRendered(rows, " menu item deleted!");
    ReadBackRendered(rows, " row updated!");
  }

  /** A statement naming `table_<n>` prepares when the name is valid SQL and
      the table exists (SQLite resolves the table while preparing). */
  predicate Prepares(db: Db, tableNum: int, faults: Faults) {
    !faults.prepare && ValidTableName(tableNum) && tableNum in db
  }

  /** get_all_items: the rows of `table_<tableNum>`. Nothing creates the table,
      so on a table never written to it fails to prepare. */
  function GetAllItems(db: Db, tableNum: int, faults: Faults): (r: Reply<ItemList>)
    ensures !r.Abort?
    ensures faults.connect ==> r == Err(ConnectFailed)
    ensures !faults.connect && !Prepares(db, tableNum, faults) ==> r == Err(PrepareFailed)
    ensures !faults.connect && Prepares(db, tableNum, faults) && faults.query ==>
              r == Err(FetchFailed(tableNum))
    ensures !faults.connect && Prepares(db, tableNum, faults) && !faults.query && faults.collect ==>
              r == Err(CollectFailed)
    ensures r.Ok? <==> !faults.connect && Prepares(db, tableNum, faults) && !faults.query && !faults.collect
    ensures r.Ok? ==> RowsOf(db[tableNum], r.value.items) && EachRowOnce(db[tableNum], r.value.items)
  {
    if faults.connect then Err(ConnectFailed)
    else if !Prepares(db, tableNum, faults) then Err(PrepareFailed)
    else if faults.query then Err(FetchFailed(tableNum))
    else if faults.collect then Err(CollectFailed)
    else Ok(ItemList(SelectAll(db[tableNum])))
  }

  /** get_specific_item: a list holding the row of `itemId` if there is one.
      It fails to prepare on a table never written to. */
  function GetSpecificItem(db: Db, tableNum: int, itemId: int, faults: Faults): (r: Reply<ItemList>)
    ensures !r.Abort?
    ensures faults.connect ==> r == Err(ConnectFailed)
    ensures !faults.connect && !Prepares(db, tableNum, faults) ==> r == Err(PrepareFailed)
    ensures !faults.connect && Prepares(db, tableNum, faults) && faults.query ==>
              r == Err(FetchFailed(tableNum))
    ensures !faults.connect && Prepares(db, tableNum, faults) && !faults.query && faults.collect ==>
              r == Err(CollectFailed)
    ensures r.Ok? <==> !faults.connect && Prepares(db, tableNum, faults) && !faults.query && !faults.collect
    ensures r.Ok? ==> |r.value.items| <= 1
    ensures r.Ok? ==> (r.value.items == [] <==> itemId !in db[tableNum])
    ensures r.Ok? && itemId in db[tableNum] ==> r.value.items == [ItemOf(db[tableNum], itemId)]
  {
    if faults.connect then Err(ConnectFailed)
    else if !Prepares(db, tableNum, faults) then Err(PrepareFailed)
    else if faults.query then Err(FetchFailed(tableNum))
    else if faults.collect then Err(CollectFailed)
    else Ok(ItemList(SelectWhere(db[tableNum], itemId)))
  }

  /** The point query answers what the full listing says about the item: both
      succeed or fail together, and on success the point query's list is the
      listing filtered on the item. */
  lemma PointQueryAgreesWithListing(db: Db, tableNum: int, itemId: int, faults: Faults)
    ensures GetSpecificItem(db, tableNum, itemId, faults).Ok? == GetAllItems(db, tableNum, faults).Ok?
    ensures GetAllItems(db, tableNum, faults).Ok? ==>
              GetSpecificItem(db, tableNum, itemId, faults).value.items
                == Filter(GetAllItems(db, tableNum, faults).value.items, itemId)
  {
    if GetAllItems(db, tableNum, faults).Ok? {
      SelectWhereFiltersSelectAll(db[tableNum], itemId);
    }
  }

  /** On a database the handlers built, every listed preparation time is one
      the random draw can produce. */
  lemma ListedPrepTimesInRange(db: Db, tableNum: int, faults: Faults)
    requires WellFormed(db)
    ensures var r := GetAllItems(db, tableNum, faults);
      r.Ok? ==> forall it :: it in r.value.items ==> PrepTimeInRange(it.prepTime)
  {
  }

  /** The database file `data.sqlite` and the handlers that change it. */
  class Ledger {
    var tables: Db

    ghost predicate Valid()
      reads this
    {
      WellFormed(tables)
    }

    /** A database that has no tables yet. */
    constructor ()
      ensures Valid() && tables == map[]
    {
      tables := map[];
    }

    /** add_item: make sure `table_<tableNum>` exists, then insert the item with
        the drawn preparation time, or add `quantity` to the row already there. */
    method AddItem(itemId: int, quantity: int, tableNum: int, prepTime: int, faults: Faults)
      returns (r: Reply<StatusMessage>)
      requires Valid()
      requires PrepTimeInRange(prepTime)
      modifies this
      ensures Valid()
      ensures tables.Keys <= old(tables).Keys + {tableNum}
      ensures forall n :: n in old(tables) && n != tableNum ==> n in tables && tables[n] == old(tables)[n]
      ensures faults.connect ==> r == Err(ConnectFailed) && tables == old(tables)
      ensures !faults.connect && (!ValidTableName(tableNum) || faults.createTable) ==>
                r == Abort && tables == old(tables)
      ensures !faults.connect && ValidTableName(tableNum) && !faults.createTable && faults.prepare ==>
                r == Err(PrepareFailed) && tables == CreateIfNotExists(old(tables), tableNum)
      ensures !faults.connect && ValidTableName(tableNum) && !faults.createTable && !faults.prepare
              && faults.execute ==>
                r == Err(InsertFailed) && tables == CreateIfNotExists(old(tables), tableNum)
      ensures !faults.connect && ValidTableName(tableNum) && !faults.createTable && !faults.prepare
              && !faults.execute ==>
                r == Ok(StatusMessage(InsertedMessage(1)))
                && tables == old(tables)[tableNum :=
                     Upsert(CreateIfNotExists(old(tables), tableNum)[tableNum], itemId, quantity, prepTime)]
    {
      if faults.connect {
        return Err(ConnectFailed);
      }
      if !ValidTableName(tableNum) || faults.createTable {
        return Abort;
      }
      tables := CreateIfNotExists(tables, tableNum);
      if faults.prepare {
        return Err(PrepareFailed);
      }
      if faults.execute {
        return Err(InsertFailed);
      }
      tables := tables[tableNum := Upsert(tables[tableNum], itemId, quantity, prepTime)];
      r := Ok(StatusMessage(InsertedMessage(1)));
    }

    /** delete_item: remove the item's row; an absent item is a success that
        reports zero rows. The table is never created here. */
    method DeleteItem(itemId: int, tableNum: int, faults: Faults) returns (r: Reply<StatusMessage>)
      requires Valid()
      modifies this
      ensures Valid()
      ensures tables.Keys == old(tables).Keys
      ensures forall n :: n in old(tables) && n != tableNum ==> tables[n] == old(tables)[n]
      ensures faults.connect ==> r == Err(ConnectFailed) && tables == old(tables)
      ensures !faults.connect && !Prepares(old(tables), tableNum, faults) ==>
                r == Err(PrepareFailed) && tables == old(tables)
      ensures !faults.connect && Prepares(old(tables), tableNum, faults) && faults.execute ==>
                r == Err(DeleteFailed) && tables == old(tables)
      ensures !faults.connect && Prepares(old(tables), tableNum, faults) && !faults.execute ==>
                r == Ok(StatusMessage(DeletedMessage(Matching(old(tables)[tableNum], itemId))))
                && tables == old(tables)[tableNum := DeleteWhere(old(tables)[tableNum], itemId)]
    {
      if faults.connect {
        return Err(ConnectFailed);
      }
      if !Prepares(tables, tableNum, faults) {
        return Err(PrepareFailed);
      }
      if faults.execute {
        return Err(DeleteFailed);
      }
      var rowsAffected := Matching(tables[tableNum], itemId);
      tables := tables[tableNum := DeleteWhere(tables[tableNum], itemId)];
      r := Ok(StatusMessage(DeletedMessage(rowsAffected)));
    }

    /** update_quantity: overwrite the item's quantity, keeping its preparation
        time; an absent item is a success that reports zero rows. The table is
        never created here. */
    method UpdateQuantity(itemId: int, tableNum: int, newQuantity: int, faults: Faults)
      returns (r: Reply<StatusMessage>)
      requires Valid()
      modifies this
      ensures Valid()
      ensures tables.Keys == old(tables).Keys
      ensures forall n :: n in old(tables) && n != tableNum ==> tables[n] == old(tables)[n]
      ensures faults.connect ==> r == Err(ConnectFailed) && tables == old(tables)
      ensures !faults.connect && !Prepares(old(tables), tableNum, faults) ==>
                r == Err(PrepareFailed) && tables == old(tables)
      ensures !faults.connect && Prepares(old(tables), tableNum, faults) && faults.execute ==>
                r == Err(UpdateFailed) && tables == old(tables)
      ensures !faults.connect && Prepares(old(tables), tableNum, faults) && !faults.execute ==>
                r == Ok(StatusMessage(UpdatedMessage(Matching(old(tables)[tableNum], itemId))))
                && tables == old(tables)[tableNum := SetQuantity(old(tables)[tableNum], itemId, newQuantity)]
    {
      if faults.connect {
        return Err(ConnectFailed);
      }
      if !Prepares(tables, tableNum, faults) {
        return Err(PrepareFailed);
      }
      if faults.execute {
        return Err(UpdateFailed);
      }
      var rowsAffected := Matching(tables[tableNum], itemId);
      tables := tables[tableNum := SetQuantity(tables[tableNum], itemId, newQuantity)];
      r := Ok(StatusMessage(UpdatedMessage(rowsAffected)));
    }
  }

  /** After a successful delete of an item, reading that item back finds
      nothing whenever the read itself meets no storage fault. */
  method DeleteThenGet(ledger: Ledger, itemId: int, tableNum: int, deleteFaults: Faults, getFaults: Faults)
    returns (deleted: Reply<StatusMessage>, got: Reply<ItemList>)
    requires ledger.Valid()
    modifies ledger
    ensures ledger.Valid()
    ensures deleted.Ok? && !getFaults.connect && !getFaults.prepare && !getFaults.query && !getFaults.collect ==>
              got == Ok(ItemList([]))
  {
    deleted := ledger.DeleteItem(itemId, tableNum, deleteFaults);
    got := GetSpecificItem(ledger.tables, tableNum, itemId, getFaults);
  }

  /** One order line at table 1 from a fresh database, with no storage faults:
      add 3 of item 42, add 2 more, delete it, reading the item after each step. */
  method OrderLineScenario(prep1: int, prep2: int)
    returns (added: Reply<StatusMessage>, afterAdd: Reply<ItemList>,
             addedAgain: Reply<StatusMessage>, afterAddAgain: Reply<ItemList>,
             deleted: Reply<StatusMessage>, afterDelete: Reply<ItemList>)
    requires PrepTimeInRange(prep1) && PrepTimeInRange(prep2)
    ensures added == Ok(StatusMessage(InsertedMessage(1)))
    ensures afterAdd == Ok(ItemList([Item(42, 3, prep1)]))
    ensures addedAgain == Ok(StatusMessage(InsertedMessage(1)))
    ensures afterAddAgain == Ok(ItemList([Item(42, 5, prep1)]))
    ensures deleted == Ok(StatusMessage(DeletedMessage(1)))
    ensures afterDelete == Ok(ItemList([]))
  {
    var ledger := new Ledger();
    added := ledger.AddItem(42, 3, 1, prep1, NoFaults);
    assert ledger.tables == map[1 := map[42 := Row(3, prep1)]];
    afterAdd := GetSpecificItem(ledger.tables, 1, 42, NoFaults);
    addedAgain := ledger.AddItem(42, 2, 1, prep2, NoFaults);
    assert ledger.tables[1] == map[42 := Row(5, prep1)];
    assert ledger.tables == map[1 := map[42 := Row(5, prep1)]];
    afterAddAgain := GetSpecificItem(ledger.tables, 1, 42, NoFaults);
    deleted := ledger.DeleteItem(42, 1, NoFaults);
    assert ledger.tables == map[1 := map[]];
    afterDelete := GetSpecificItem(ledger.tables, 1, 42, NoFaults);
  }

  /** Only adding creates a table: with no storage faults, every other
      handler fails to prepare on a table nothing was added to, and none of
      them creates it. */
  method UnwrittenTableScenario(prep: int)
    returns (listed: Reply<ItemList>, got: Reply<ItemList>, deleted: Reply<StatusMessage>,
             updated: Reply<StatusMessage>, listedAgain: Reply<ItemList>)
    requires PrepTimeInRange(prep)
    ensures listed == Err(PrepareFailed) && got == Err(PrepareFailed)
    ensures deleted == Err(PrepareFailed) && updated == Err(PrepareFailed)
    ensures listedAgain == Err(PrepareFailed)
  {
    var ledger := new Ledger();
    var _ := ledger.AddItem(5, 1, 1, prep, NoFaults);
    listed := GetAllItems(ledger.tables, 2, NoFaults);
    got := GetSpecificItem(ledger.tables, 2, 5, NoFaults);
    deleted := ledger.DeleteItem(5, 2, NoFaults);
    updated := ledger.UpdateQuantity(5, 2, 3, NoFaults);
    listedAgain := GetAllItems(ledger.tables, 2, NoFaults);
  }

  /** Updating a quantity with no storage faults: an absent item reports zero
      rows, and a negative quantity is stored as given with the preparation
      time kept. */
  method QuantityUpdateScenario(prep: int)
    returns (updateAbsent: Reply<StatusMessage>, updateNegative: Reply<StatusMessage>,
             afterUpdate: Reply<ItemList>)
    requires PrepTimeInRange(prep)
    ensures updateAbsent == Ok(StatusMessage(UpdatedMessage(0)))
    ensures updateNegative == Ok(StatusMessage(UpdatedMessage(1)))
    ensures afterUpdate == Ok(ItemList([Item(5, -2, prep)]))
  {
    var ledger := new Ledger();
    var _ := ledger.AddItem(5, 1, 1, prep, NoFaults);
    assert ledger.tables == map[1 := map[5 := Row(1, prep)]];
    updateAbsent := ledger.UpdateQuantity(6, 1, 4, NoFaults);
    assert ledger.tables == map[1 := map[5 := Row(1, prep)]];
    updateNegative := ledger.UpdateQuantity(5, 1, -2, NoFaults);
    assert ledger.tables[1] == map[5 := Row(-2, prep)];
    afterUpdate := GetSpecificItem(ledger.tables, 1, 5, NoFaults);
  }

  /** Tables 1 and 2 both order item 5, with no storage faults: deleting the
      item at table 1 leaves table 2's row as it was. */
  method SeparateTablesScenario(prep1: int, prep2: int)
    returns (deleted: Reply<StatusMessage>, otherTable: Reply<ItemList>)
    requires PrepTimeInRange(prep1) && PrepTimeInRange(prep2)
    ensures deleted == Ok(StatusMessage(DeletedMessage(1)))
    ensures otherTable == Ok(ItemList([Item(5, 7, prep2)]))
  {
    var ledger := new Ledger();
    var _ := ledger.AddItem(5, 1, 1, prep1, NoFaults);
    var _ := ledger.AddItem(5, 7, 2, prep2, NoFaults);
    assert ledger.tables == map[1 := map[5 := Row(1, prep1)], 2 := map[5 := Row(7, prep2)]];
    deleted := ledger.DeleteItem(5, 1, NoFaults);
    assert ledger.tables[2] == map[5 := Row(7, prep2)];
    otherTable := GetAllItems(ledger.tables, 2, NoFaults);
    SelectAllSingleRow(5, Row(7, prep2));
  }
}
