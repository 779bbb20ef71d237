/**
 * The row factory, `create_records`: builds the rows one simulated hour
 * adds to the table. Every random draw of a row is an input (a
 * `RecordDraw`), so what is proved holds for every outcome of the random
 * number generator that respects the bounds of its calls.
 */
module RowFactory {

  import opened Clock
  import opened Records

  /** A drawn minute and second, for `random_timestamp_within_hour`. */
  datatype Offset = Offset(minute: int, second: int)

  /** The random draws that fill one new row, one per column. */
  datatype RecordDraw = RecordDraw(
    detailNumber: int, loadNumber: int, lotNumber: int, shipmentLineID: int,
    receiptKey: int, clientID: int, warehouseID: int, siteID: int,
    productID: int, inventoryStatusID: int, storageLocationID: int, assetTypeID: int,
    holdFlagBool: int, unitQTY: int,
    weight: real, volume: real,
    category: string, supplier: string, status: string, priority: string,
    manufacturedDays: int, expirationDays: int, receivedDays: int,
    addedDays: int, lastMoveDays: int,
    created: Offset, modified: Offset)

  /**
   * The bounds of the generator calls that produce a row: `randint(lo, hi)`
   * excludes `hi`, `random()` lies in [0, 1), `choice` picks one of its list.
   */
  predicate ValidRecordDraw(d: RecordDraw)
  {
    && 1000 <= d.detailNumber < 9999 && 1000 <= d.loadNumber < 9999
    && 1000 <= d.lotNumber < 9999 && 1000 <= d.shipmentLineID < 9999
    && 1000 <= d.receiptKey < 9999 && 100 <= d.clientID < 999
    && 10 <= d.warehouseID < 99 && 10 <= d.siteID < 99
    && 1000 <= d.productID < 9999 && 10 <= d.inventoryStatusID < 99
    && 1000 <= d.storageLocationID < 9999 && 1000 <= d.assetTypeID < 9999
    && (d.holdFlagBool == 0 || d.holdFlagBool == 1) && 1 <= d.unitQTY < 500
    && 0.0 <= d.weight < 1.0 && 0.0 <= d.volume < 1.0
    && d.category in Categories && d.supplier in Suppliers
    && d.status in Statuses && d.priority in Priorities
    && 0 <= d.manufacturedDays < 1000 && 30 <= d.expirationDays < 365
    && 0 <= d.receivedDays < 30 && 0 <= d.addedDays < 10 && 0 <= d.lastMoveDays < 30
    && ValidOffset(d.created.minute, d.created.second)
    && ValidOffset(d.modified.minute, d.modified.second)
  }

  /** A timestamp cell `days` whole days after 2020-01-01. */
  function DaysAfter2020(days: int): Cell
  {
    Time(Jan2020 + days * SecondsPerDay)
  }

  /**
   * What a row just built for the hour starting at `now` holds in every
   * column, independently of how it was drawn: each integer column in the
   * range of its generator call, each label column one of its labels,
   * each float column in its scaled range, each historical date inside its
   * window after 2020-01-01, `Created` and `Modified` inside the hour,
   * `isDeleted` False and `Day`/`Hour` the bucket of `now`.
   */
  predicate FreshRow(r: Record, now: int)
  {
    var a := r.attributes;
    && InRange(a.detailNumber, 1000, 9999) && InRange(a.loadNumber, 1000, 9999)
    && InRange(a.lotNumber, 1000, 9999) && InRange(a.shipmentLineID, 1000, 9999)
    && InRange(a.receiptKey, 1000, 9999) && InRange(a.clientID, 100, 999)
    && InRange(a.warehouseID, 10, 99) && InRange(a.siteID, 10, 99)
    && InRange(a.productID, 1000, 9999) && InRange(a.assetTypeID, 1000, 9999)
    && InRange(r.inventoryStatusID, 10, 99) && InRange(r.storageLocationID, 1000, 9999)
    && InRange(a.holdFlagBool, 0, 2) && InRange(a.unitQTY, 1, 500)
    && a.weight.Real? && 0.0 <= a.weight.x < 1000.0
    && a.volume.Real? && 0.0 <= a.volume.x < 10.0
    && OneOf(a.category, Categories) && OneOf(a.supplier, Suppliers)
    && OneOf(r.status, Statuses) && OneOf(r.priority, Priorities)
    && a.manufacturedDateTime.Time?
    && Jan2020 <= a.manufacturedDateTime.t < Jan2020 + 1000 * SecondsPerDay
    && a.expirationDateTime.Time?
    && Jan2020 + 30 * SecondsPerDay <= a.expirationDateTime.t < Jan2020 + 365 * SecondsPerDay
    && a.receivedDateTime.Time?
    && Jan2020 <= a.receivedDateTime.t < Jan2020 + 30 * SecondsPerDay
    && a.addedDateTime.Time?
    && Jan2020 <= a.addedDateTime.t < Jan2020 + 10 * SecondsPerDay
    && a.lastMoveDateTime.Time?
    && Jan2020 <= a.lastMoveDateTime.t < Jan2020 + 30 * SecondsPerDay
    && InHour(r.created, now) && InHour(r.modified, now)
    && r.isDeleted == NotDeleted
    && r.day == Int(DayOf(now)) && r.hour == Int(HourOf(now))
  }

  /** The dictionary `create_records` builds for one row; `NewRecordFresh` states what it holds. */
  function NewRecord(id: int, now: int, d: RecordDraw): (r: Record)
    requires ValidRecordDraw(d)
    ensures r.id == id && IsLive(r)
  {
    Record(
      id := id,
      attributes := Attributes(
        detailNumber := Int(d.detailNumber), loadNumber := Int(d.loadNumber),
        lotNumber := Int(d.lotNumber), shipmentLineID := Int(d.shipmentLineID),
        receiptKey := Int(d.receiptKey), clientID := Int(d.clientID),
        warehouseID := Int(d.warehouseID), siteID := Int(d.siteID),
        productID := Int(d.productID), assetTypeID := Int(d.assetTypeID),
        holdFlagBool := Int(d.holdFlagBool), unitQTY := Int(d.unitQTY),
        weight := Real(d.weight * 1000.0), volume := Real(d.volume * 10.0),
        category := Str(d.category), supplier := Str(d.supplier),
        manufacturedDateTime := DaysAfter2020(d.manufacturedDays),
        expirationDateTime := DaysAfter2020(d.expirationDays),
        receivedDateTime := DaysAfter2020(d.receivedDays),
        addedDateTime := DaysAfter2020(d.addedDays),
        lastMoveDateTime := DaysAfter2020(d.lastMoveDays)),
      storageLocationID := Int(d.storageLocationID),
      inventoryStatusID := Int(d.inventoryStatusID),
      status := Str(d.status),
      priority := Str(d.priority),
      created := WithinHour(now, d.created.minute, d.created.second),
      modified := WithinHour(now, d.modified.minute, d.modified.second),
      isDeleted := NotDeleted,
      day := Int(DayOf(now)),
      hour := Int(HourOf(now)))
  }

  /** Whatever the draws, the row built from them is a fresh row of the hour of `now`. */
  lemma NewRecordFresh(id: int, now: int, d: RecordDraw)
    requires ValidRecordDraw(d)
    ensures FreshRow(NewRecord(id, now, d), now)
  {
  }

  /**
   * The list `create_records(len(draws), start_id, current_datetime)`
   * returns, as a value: one row per draw, in order, with consecutive IDs
   * from `startId` on, every one of them live.
   */
  function NewRows(startId: int, now: int, draws: seq<RecordDraw>): (rows: seq<Record>)
    requires forall k :: 0 <= k < |draws| ==> ValidRecordDraw(draws[k])
    ensures |rows| == |draws|
    ensures forall k :: 0 <= k < |rows| ==> rows[k].id == startId + k && IsLive(rows[k])
    decreases |draws|, 1
  {
    if draws == [] then [] else NewRowsNonEmpty(startId, now, draws)
  }

  /**
   * The case of `NewRows` with at least one draw: the rows of all draws but
   * the last, then the row of the last one. A separate function, so that a
   * proof that mentions `NewRows` sees one row only when it asks for it.
   */
  function NewRowsNonEmpty(startId: int, now: int, draws: seq<RecordDraw>): (rows: seq<Record>)
    requires forall k :: 0 <= k < |draws| ==> ValidRecordDraw(draws[k])
    requires draws != []
    ensures |rows| == |draws|
    ensures forall k :: 0 <= k < |rows| ==> rows[k].id == startId + k && IsLive(rows[k])
    decreases |draws|, 0
  {
    var n := |draws| - 1;
    NewRows(startId, now, draws[..n]) + [NewRecord(startId + n, now, draws[n])]
  }

  /**
   * Row `k` of the list is the dictionary built from draw `k` with ID
   * `startId + k`, so every row is a fresh row of the hour of `now`.
   */
  lemma {:induction false} NewRowsAt(startId: int, now: int, draws: seq<RecordDraw>, k: nat)
    requires forall j :: 0 <= j < |draws| ==> ValidRecordDraw(draws[j])
    requires k < |draws|
    ensures NewRows(startId, now, draws)[k] == NewRecord(startId + k, now, draws[k])
    ensures FreshRow(NewRows(startId, now, draws)[k], now)
    decreases |draws|
  {
    var n := |draws| - 1;
    if k < n {
      NewRowsAt(startId, now, draws[..n], k);
    } else {
      NewRecordFresh(startId + k, now, draws[k]);
    }
  }

  /**
   * `create_records(num_records, start_id, current_datetime)`: appends one
   * new row per iteration and returns exactly `NewRows`. With
   * `numRecords == 0` the result is empty.
   */
  method CreateRecords(numRecords: nat, startId: int, now: int, draws: seq<RecordDraw>)
    returns (newRecords: seq<Record>)
    requires |draws| == numRecords
    requires forall k :: 0 <= k < |draws| ==> ValidRecordDraw(draws[k])
    ensures newRecords == NewRows(startId, now, draws)
  {
    newRecords := [];
    for i := 0 to numRecords
      invariant newRecords == NewRows(startId, now, draws[..i])
    {
      var newRecord := NewRecord(startId + i, now, draws[i]);
      assert draws[..i + 1][..i] == draws[..i];
      newRecords := newRecords + [newRecord];
    }
    assert draws[..numRecords] == draws;
  }

  /** A row built for an hour that starts at a whole hour has `Day`/`Hour` describing its own timestamps. */
  lemma NewRecordBucket(id: int, now: int, d: RecordDraw)
    requires ValidRecordDraw(d) && HourAligned(now)
    ensures var r := NewRecord(id, now, d);
      && r.day == Int(DayOf(r.created)) && r.hour == Int(HourOf(r.created))
      && r.day == Int(DayOf(r.modified)) && r.hour == Int(HourOf(r.modified))
  {
    var r := NewRecord(id, now, d);
    SameBucket(now, r.created);
    SameBucket(now, r.modified);
  }

  /**
   * `Created` and `Modified` are drawn independently, so a new row may be
   * modified before it was created: a valid draw with `Created` at minute
   * 59 and `Modified` at minute 0 exists for every hour.
   */
  lemma CreatedMayFollowModified(id: int, now: int)
    ensures exists d :: ValidRecordDraw(d) && NewRecord(id, now, d).created > NewRecord(id, now, d).modified
  {
    var d := RecordDraw(
      1000, 1000, 1000, 1000, 1000, 100, 10, 10, 1000, 10, 1000, 1000, 0, 1,
      0.0, 0.0, "Electronics", "SupplierA", "Pending", "High",
      0, 30, 0, 0, 0, Offset(59, 0), Offset(0, 0));
    assert ValidRecordDraw(d);
    assert NewRecord(id, now, d).created == now + 59 * 60;
  }
}
