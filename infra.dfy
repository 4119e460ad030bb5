/**
 * The item repository of infra.go over an in-memory items table. The table is
 * a sequence of rows in storage order; ids come from an auto-increment
 * counter. SQL itself is not modelled, only what the three statements do to
 * rows.
 */
module Infra {
  import opened Wrappers

  /** The Item record. */
  datatype Item = Item(id: int, name: string, category: string, image: string)

  /** A row of the items table as stored: the text columns may hold NULL. */
  datatype Row = Row(id: int, name: Option<string>, category: Option<string>, imageName: Option<string>)

  datatype DbError =
    | StoreFailure(message: string)  // the statement itself failed (connection, locking, schema)
    | ScanNull(column: string)       // Scan met a NULL where the Item field is a Go string
    | NoRows                         // sql.ErrNoRows: QueryRow matched nothing
    | StepFailure                    // what rows.Err() reports after rows.Next() stopped on an error

  /** rows.Scan(&item.ID, &item.Name, &item.Category, &item.Image): columns in order, NULL cannot become a string. */
  function Scan(r: Row): Result<Item, DbError>
  {
    if r.name.None? then Err(ScanNull("name"))
    else if r.category.None? then Err(ScanNull("category"))
    else if r.imageName.None? then Err(ScanNull("image_name"))
    else Ok(Item(r.id, r.name.value, r.category.value, r.imageName.value))
  }

  /** The row Insert writes for item under the given id: the item's own ID field is not written. */
  function NewRow(id: int, item: Item): Row
  {
    Row(id, Some(item.name), Some(item.category), Some(item.image))
  }

  /**
   * What GetAll's `for rows.Next()` loop computes from the selected rows: every
   * row scanned in table order, the first failing scan aborting the listing.
   */
  function ScanAll(rows: seq<Row>): Result<seq<Item>, DbError>
  {
    if |rows| == 0 then Ok([])
    else
      match ScanAll(rows[..|rows| - 1])
      case Err(e) => Err(e)
      case Ok(items) =>
        match Scan(rows[|rows| - 1])
        case Err(e) => Err(e)
        case Ok(item) => Ok(items + [item])
  }

  /** The first row whose id column equals id. */
  function FindRow(rows: seq<Row>, id: int): (k: Option<nat>)
    ensures k.Some? ==> k.value < |rows| && rows[k.value].id == id
    ensures k.Some? ==> forall j :: 0 <= j < k.value ==> rows[j].id != id
    ensures k.None? ==> forall j :: 0 <= j < |rows| ==> rows[j].id != id
  {
    if |rows| == 0 then None
    else if rows[0].id == id then Some(0)
    else
      match FindRow(rows[1..], id)
      case None => None
      case Some(k) => Some(k + 1)
  }

  /** SELECT id, name, category, image_name FROM items WHERE id = ?, then Scan. */
  function SelectById(rows: seq<Row>, id: int): Result<Item, DbError>
  {
    match FindRow(rows, id)
    case None => Err(NoRows)
    case Some(k) => Scan(rows[k])
  }

  /**
   * The rows that the full-table cursor's rows.Next() reaches: all of them,
   * or those before the position where stepping fails (a driver error or a
   * cancelled request context), where rows.Next() returns false.
   */
  function Reached(rows: seq<Row>, stepFailure: Option<nat>): (r: seq<Row>)
    ensures stepFailure.None? ==> r == rows
  {
    if stepFailure.Some? && stepFailure.value < |rows| then rows[..stepFailure.value] else rows
  }

  /** Whether stepping the cursor fails before the end of the table. */
  predicate StepFails(rows: seq<Row>, stepFailure: Option<nat>)
  {
    stepFailure.Some? && stepFailure.value < |rows|
  }

  /** Ids handed out by AUTOINCREMENT: positive, below the next one, increasing in table order. */
  predicate TableInvariant(rows: seq<Row>, nextId: int)
  {
    1 <= nextId &&
    (forall i :: 0 <= i < |rows| ==> 1 <= rows[i].id < nextId) &&
    (forall i, j :: 0 <= i < j < |rows| ==> rows[i].id < rows[j].id)
  }

  // ---------------------------------------------------------------------
  // Properties of the listing and of the lookup

  /** The listing succeeds exactly when every row scans, and then holds every row, in table order. */
  lemma {:induction false} ScanAllOk(rows: seq<Row>)
    ensures ScanAll(rows).Ok? <==> forall i :: 0 <= i < |rows| ==> Scan(rows[i]).Ok?
    ensures ScanAll(rows).Ok? ==>
              |ScanAll(rows).value| == |rows| &&
              forall i :: 0 <= i < |rows| ==> ScanAll(rows).value[i] == Scan(rows[i]).value
  {
    if |rows| > 0 {
      var init := rows[..|rows| - 1];
      ScanAllOk(init);
      assert forall i :: 0 <= i < |init| ==> init[i] == rows[i];
    }
  }

  /** A failed listing reports the error of the first row that does not scan, and nothing else. */
  lemma {:induction false} ScanAllErr(rows: seq<Row>)
    ensures ScanAll(rows).Err? ==>
              exists i :: 0 <= i < |rows| && Scan(rows[i]) == Err(ScanAll(rows).error) &&
                          forall j :: 0 <= j < i ==> Scan(rows[j]).Ok?
  {
    if |rows| > 0 && ScanAll(rows).Err? {
      var init := rows[..|rows| - 1];
      assert forall i :: 0 <= i < |init| ==> init[i] == rows[i];
      if ScanAll(init).Err? {
        ScanAllErr(init);
        var i :| 0 <= i < |init| && Scan(init[i]) == Err(ScanAll(init).error) &&
                 forall j :: 0 <= j < i ==> Scan(init[j]).Ok?;
        assert Scan(rows[i]) == Err(ScanAll(rows).error);
      } else {
        ScanAllOk(init);
        var last := |rows| - 1;
        assert Scan(rows[last]) == Err(ScanAll(rows).error);
        assert forall j :: 0 <= j < last ==> Scan(rows[j]).Ok?;
      }
    }
  }

  /** Once a prefix of the table fails to scan, the whole listing fails with the same error. */
  lemma {:induction false} ScanAllPrefixFailure(rows: seq<Row>, n: nat)
    requires n <= |rows|
    requires ScanAll(rows[..n]).Err?
    ensures ScanAll(rows) == ScanAll(rows[..n])
    decreases |rows| - n
  {
    if n < |rows| {
      var next := rows[..n + 1];
      assert next[..n] == rows[..n];
      assert ScanAll(next) == ScanAll(rows[..n]);
      ScanAllPrefixFailure(rows, n + 1);
    } else {
      assert rows[..n] == rows;
    }
  }

  /**
   * With unique ids, the lookup by id agrees with the listing: it finds an item
   * exactly when the listing holds one with that id, and then the same item.
   */
  lemma {:induction false} SelectByIdAgreesWithListing(rows: seq<Row>, id: int, items: seq<Item>)
    requires forall i, j :: 0 <= i < j < |rows| ==> rows[i].id < rows[j].id
    requires ScanAll(rows) == Ok(items)
    ensures SelectById(rows, id).Ok? <==> exists i :: 0 <= i < |items| && items[i].id == id
    ensures forall i :: 0 <= i < |items| && items[i].id == id ==> SelectById(rows, id) == Ok(items[i])
  {
    ScanAllOk(rows);
    assert forall i :: 0 <= i < |rows| ==> items[i].id == rows[i].id;
    var k := FindRow(rows, id);
    if k.Some? {
      assert items[k.value].id == id;
      forall i | 0 <= i < |items| && items[i].id == id
        ensures i == k.value
      {
      }
    }
  }

  /** The row Insert adds under the next auto-increment id is what the lookup by that id returns. */
  lemma {:induction false} InsertedRowFound(rows: seq<Row>, nextId: int, item: Item)
    requires TableInvariant(rows, nextId)
    ensures SelectById(rows + [NewRow(nextId, item)], nextId) == Ok(Item(nextId, item.name, item.category, item.image))
  {
    var rows' := rows + [NewRow(nextId, item)];
    assert forall j :: 0 <= j < |rows| ==> rows'[j] == rows[j];
    assert rows'[|rows|].id == nextId;
    var k := FindRow(rows', nextId);
    assert k.Some?;
    assert k.value == |rows|;
  }

  /** Insert leaves the listing of the existing rows as it was and adds the new item after them. */
  lemma InsertedRowListed(rows: seq<Row>, id: int, item: Item)
    ensures ScanAll(rows + [NewRow(id, item)]) ==
              match ScanAll(rows)
              case Ok(items) => Ok(items + [Item(id, item.name, item.category, item.image)])
              case Err(e) => Err(e)
  {
    assert (rows + [NewRow(id, item)])[..|rows|] == rows;
  }

  /**
   * GetAll as written never consults rows.Err(): when stepping fails after n
   * rows that scan, the listing is the first n items and no error, although
   * the table holds more.
   */
  lemma PartialListing(rows: seq<Row>, n: nat)
    requires n < |rows|
    requires forall i :: 0 <= i < |rows| ==> Scan(rows[i]).Ok?
    ensures ScanAll(Reached(rows, Some(n))).Ok? && ScanAll(rows).Ok?
    ensures |ScanAll(Reached(rows, Some(n))).value| == n < |ScanAll(rows).value|
    ensures forall i :: 0 <= i < n ==> ScanAll(Reached(rows, Some(n))).value[i] == Scan(rows[i]).value
  {
    var prefix := rows[..n];
    assert forall i :: 0 <= i < n ==> prefix[i] == rows[i];
    ScanAllOk(prefix);
    ScanAllOk(rows);
  }

  /**
   * The listing with rows.Err() checked: a step failure is an error, so a
   * successful listing always holds every row of the table.
   */
  function CheckedListing(rows: seq<Row>, stepFailure: Option<nat>): (r: Result<seq<Item>, DbError>)
  {
    match ScanAll(Reached(rows, stepFailure))
    case Err(e) => Err(e)
    case Ok(items) => if StepFails(rows, stepFailure) then Err(StepFailure) else Ok(items)
  }

  lemma CheckedListingComplete(rows: seq<Row>, stepFailure: Option<nat>)
    ensures CheckedListing(rows, stepFailure).Ok? ==> ScanAll(rows) == CheckedListing(rows, stepFailure)
    ensures CheckedListing(rows, stepFailure).Ok? <==>
              !StepFails(rows, stepFailure) && forall i :: 0 <= i < |rows| ==> Scan(rows[i]).Ok?
  {
    ScanAllOk(rows);
    if StepFails(rows, stepFailure) {
      var prefix := rows[..stepFailure.value];
      if ScanAll(prefix).Err? {
        ScanAllErr(prefix);
        var i :| 0 <= i < |prefix| && Scan(prefix[i]) == Err(ScanAll(prefix).error);
        assert prefix[i] == rows[i];
      }
    }
  }

  // ---------------------------------------------------------------------
  // itemRepository

  class ItemRepository {
    /** The items table, in storage order. */
    var rows: seq<Row>
    /** The id AUTOINCREMENT assigns to the next inserted row. */
    var nextId: int
    /** Set while the database cannot run statements: every statement then fails with this message. */
    var failure: Option<string>
    /** Set when stepping GetAll's cursor fails before the row at this position. */
    var stepFailure: Option<nat>

    predicate Valid()
      reads this
    {
      TableInvariant(rows, nextId)
    }

    constructor (rows: seq<Row>, nextId: int, failure: Option<string>, stepFailure: Option<nat>)
      requires TableInvariant(rows, nextId)
      ensures Valid()
      ensures this.rows == rows && this.nextId == nextId && this.failure == failure
      ensures this.stepFailure == stepFailure
    {
      this.rows := rows;
      this.nextId := nextId;
      this.failure := failure;
      this.stepFailure := stepFailure;
    }

    /** What GetAll yields in the current state: the rows the cursor reaches, scanned. */
    function Listing(): Result<seq<Item>, DbError>
      reads this
    {
      if failure.Some? then Err(StoreFailure(failure.value)) else ScanAll(Reached(rows, stepFailure))
    }

    /** What GetAllChecked yields in the current state. */
    function Checked(): Result<seq<Item>, DbError>
      reads this
    {
      if failure.Some? then Err(StoreFailure(failure.value)) else CheckedListing(rows, stepFailure)
    }

    /** What GetByID(id) yields in the current state. */
    function Selected(id: int): Result<Item, DbError>
      reads this
    {
      if failure.Some? then Err(StoreFailure(failure.value)) else SelectById(rows, id)
    }

    /** INSERT INTO items (name, category, image_name) VALUES (?, ?, ?). */
    method Insert(item: Item) returns (err: Option<DbError>)
      requires Valid()
      modifies this`rows, this`nextId
      ensures Valid()
      ensures failure.Some? ==> err == Some(StoreFailure(failure.value)) && rows == old(rows) && nextId == old(nextId)
      ensures failure.None? ==> err.None? && rows == old(rows) + [NewRow(old(nextId), item)] && nextId == old(nextId) + 1
    {
      if failure.Some? {
        return Some(StoreFailure(failure.value));
      }
      rows := rows + [NewRow(nextId, item)];
      nextId := nextId + 1;
      return None;
    }

    /**
     * SELECT id, name, category, image_name FROM items, scanned row by row
     * while rows.Next() reports a row: the rows reached, in table order, or
     * nothing and the first scan error. rows.Err() is not consulted, so a
     * cursor that stops on an error still yields its items and no error.
     */
    method GetAll() returns (items: seq<Item>, err: Option<DbError>)
      ensures err.None? <==> Listing().Ok?
      ensures err.None? ==> items == Listing().value
      ensures err.Some? ==> items == [] && err.value == Listing().error
    {
      if failure.Some? {
        return [], Some(StoreFailure(failure.value));
      }
      ghost var reached := Reached(rows, stepFailure);
      items := [];
      var i := 0;
      while i < |rows| && stepFailure != Some(i)
        invariant 0 <= i <= |reached|
        invariant reached[..i] == rows[..i]
        invariant ScanAll(reached[..i]) == Ok(items)
      {
        var scanned := Scan(rows[i]);
        assert reached[..i + 1][..i] == reached[..i];
        if scanned.Err? {
          ScanAllPrefixFailure(reached, i + 1);
          return [], Some(scanned.error);
        }
        items := items + [scanned.value];
        i := i + 1;
      }
      assert reached[..i] == reached;
      err := None;
    }

    /** GetAll as intended: rows.Err() is checked after the loop, so a step failure is an error. */
    method GetAllChecked() returns (items: seq<Item>, err: Option<DbError>)
      ensures err.None? <==> Checked().Ok?
      ensures err.None? ==> items == Checked().value
      ensures err.Some? ==> items == [] && err.value == Checked().error
    {
      items, err := GetAll();
      if err.None? && StepFails(rows, stepFailure) {
        items, err := [], Some(StepFailure);
      }
    }

    /** SELECT ... WHERE id = ?: the row with that id, or an error and no item. */
    method GetByID(id: int) returns (item: Option<Item>, err: Option<DbError>)
      ensures item.Some? <==> err.None?
      ensures failure.Some? ==> err == Some(StoreFailure(failure.value))
      ensures failure.None? && item.Some? ==>
                item.value.id == id &&
                exists i :: 0 <= i < |rows| && rows[i].id == id && Scan(rows[i]) == Ok(item.value)
      ensures failure.None? ==> (err == Some(NoRows) <==> forall i :: 0 <= i < |rows| ==> rows[i].id != id)
      ensures item.Some? ==> Selected(id) == Ok(item.value)
      ensures err.Some? ==> Selected(id) == Err(err.value)
    {
      if failure.Some? {
        return None, Some(StoreFailure(failure.value));
      }
      match SelectById(rows, id)
      case Ok(found) =>
        item, err := Some(found), None;
      case Err(e) =>
        item, err := None, Some(e);
    }
  }
}
