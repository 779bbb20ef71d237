/**
 * One row of the logistics table and the value domains of its columns.
 *
 * A pandas cell may hold an integer, a float, a string, a timestamp or a
 * missing value (NaN), and the simulator relies on that looseness: a row
 * read from the input file carries NaN in the columns the input never had
 * (`isDeleted`, `Day`, `Hour`), and an update may write a string into
 * `InventoryStatusID`.
 */
module Records {

  import opened Clock

  /** The content of one cell of the table. */
  datatype Cell = Null | Int(i: int) | Real(x: real) | Str(s: string) | Time(t: int)

  /**
   * The `isDeleted` cell: missing for rows of the input file, False for
   * rows the simulator created and has not deleted, True once deleted.
   */
  datatype DeletedFlag = Unset | NotDeleted | Deleted

  /** The columns an update may overwrite, in the order the source lists them. */
  datatype Column = StorageLocationID | InventoryStatusID | Status | Priority

  /** The columns the simulator writes only when it creates a row. */
  datatype Attributes = Attributes(
    detailNumber: Cell, loadNumber: Cell, lotNumber: Cell, shipmentLineID: Cell,
    receiptKey: Cell, clientID: Cell, warehouseID: Cell, siteID: Cell,
    productID: Cell, assetTypeID: Cell, holdFlagBool: Cell, unitQTY: Cell,
    weight: Cell, volume: Cell, category: Cell, supplier: Cell,
    manufacturedDateTime: Cell, expirationDateTime: Cell, receivedDateTime: Cell,
    addedDateTime: Cell, lastMoveDateTime: Cell)

  /** A row of the table. `created` and `modified` are timestamps in seconds. */
  datatype Record = Record(
    id: int,
    attributes: Attributes,
    storageLocationID: Cell,
    inventoryStatusID: Cell,
    status: Cell,
    priority: Cell,
    created: int,
    modified: int,
    isDeleted: DeletedFlag,
    day: Cell,
    hour: Cell)

  const Categories: seq<string> := ["Electronics", "Clothing", "Furniture", "Food"]
  const Suppliers: seq<string> := ["SupplierA", "SupplierB", "SupplierC"]
  const Statuses: seq<string> := ["Pending", "Shipped", "Delivered"]
  const Priorities: seq<string> := ["High", "Medium", "Low"]

  /** The labels an update draws from, whichever of the last three columns it chose. */
  const UpdateLabels: seq<string> := Statuses + Priorities

  /** Only a row whose flag is exactly False is a candidate for update or delete. */
  predicate IsLive(r: Record)
  {
    r.isDeleted == NotDeleted
  }

  /** An integer cell in the half-open range [lo, hi) of `np.random.randint(lo, hi)`. */
  predicate InRange(c: Cell, lo: int, hi: int)
  {
    c.Int? && lo <= c.i < hi
  }

  /** A string cell holding one of the given labels. */
  predicate OneOf(c: Cell, labels: seq<string>)
  {
    c.Str? && c.s in labels
  }

  /** The cell of a row in one of the updatable columns. */
  function Get(r: Record, col: Column): Cell
  {
    match col
    case StorageLocationID => r.storageLocationID
    case InventoryStatusID => r.inventoryStatusID
    case Status => r.status
    case Priority => r.priority
  }

  /** `df.loc[idx, col] = v`: the row with one updatable column overwritten. */
  function Set(r: Record, col: Column, v: Cell): (r': Record)
    ensures Get(r', col) == v
    ensures forall c :: c != col ==> Get(r', c) == Get(r, c)
    ensures r'.id == r.id && r'.attributes == r.attributes
    ensures r'.created == r.created && r'.modified == r.modified
    ensures r'.isDeleted == r.isDeleted && r'.day == r.day && r'.hour == r.hour
  {
    match col
    case StorageLocationID => r.(storageLocationID := v)
    case InventoryStatusID => r.(inventoryStatusID := v)
    case Status => r.(status := v)
    case Priority => r.(priority := v)
  }

  /** The values an update may leave in a column. */
  predicate UpdateValue(col: Column, v: Cell)
  {
    if col == StorageLocationID then InRange(v, 1000, 9999) else OneOf(v, UpdateLabels)
  }

  /**
   * `a` and `b` agree on every column except the updatable column `col`
   * and `Modified`: what one update may change in the row it picked.
   */
  predicate SameExcept(a: Record, b: Record, col: Column)
  {
    && a.id == b.id && a.attributes == b.attributes
    && a.created == b.created && a.isDeleted == b.isDeleted
    && a.day == b.day && a.hour == b.hour
    && (forall c :: c != col ==> Get(a, c) == Get(b, c))
  }

  /** `a` and `b` agree on every column except `isDeleted`: what a delete may change. */
  predicate SameButFlag(a: Record, b: Record)
  {
    a == b.(isDeleted := a.isDeleted)
  }

  /** The flag stayed, or went from False to True; it never goes back. */
  predicate FlagStep(before: DeletedFlag, after: DeletedFlag)
  {
    before == after || (before == NotDeleted && after == Deleted)
  }

  /** Column `col` of `b` is that of `a`, or a value an update writes. */
  predicate KeptOrUpdated(a: Record, b: Record, col: Column)
  {
    Get(b, col) == Get(a, col) || UpdateValue(col, Get(b, col))
  }

  /** `KeptOrUpdated` for each of the four updatable columns. */
  predicate ColumnsKeptOrUpdated(a: Record, b: Record)
  {
    && KeptOrUpdated(a, b, StorageLocationID) && KeptOrUpdated(a, b, InventoryStatusID)
    && KeptOrUpdated(a, b, Status) && KeptOrUpdated(a, b, Priority)
  }

  /**
   * Any number of updates in the hour starting at `now` took row `a` to
   * row `b`: nothing changed unless the row was live, and then only the
   * updatable columns (each to a value an update can write) and `Modified`
   * (to an instant of that hour) changed.
   */
  predicate UpdatedDuring(a: Record, b: Record, now: int)
  {
    && a.id == b.id && a.attributes == b.attributes
    && a.created == b.created && a.isDeleted == b.isDeleted
    && a.day == b.day && a.hour == b.hour
    && (a != b ==> IsLive(a) && InHour(b.modified, now))
    && ColumnsKeptOrUpdated(a, b)
  }

  /** Successive updates within one hour compose. */
  lemma UpdatedDuringTransitive(a: Record, b: Record, c: Record, now: int)
    requires UpdatedDuring(a, b, now) && UpdatedDuring(b, c, now)
    ensures UpdatedDuring(a, c, now)
  {
  }
}
