/**
 * The measurement table and the two router procedures that work on it
 * (src/server/api/routers/post.ts): the one-time `importData` and
 * `getLatest`. The table is a sequence of rows in insertion order together
 * with the next value of its serial id.
 */
module Store {
  import opened Wrappers
  import opened Json
  import opened Ingest

  /** A row of the energy measurement table (src/server/db/schema.ts). */
  datatype Row = Row(id: nat, timestamp: int, muid: string, meterAddress: string, value: string)

  /** What `importData` returns on success. */
  datatype ImportSummary = ImportSummary(insertedValues: seq<Row>, insertedCount: nat, latestMeasurement: Option<Row>)

  function WithId(d: Draft, id: nat): Row
  {
    Row(id, d.timestamp, d.muid, d.meterAddress, d.value)
  }

  /** The rows one insert creates: the values in order, with serial ids counting up from `start`. */
  function Numbered(ds: seq<Draft>, start: nat): seq<Row>
  {
    seq(|ds|, i requires 0 <= i < |ds| => WithId(ds[i], start + i))
  }

  /**
   * `findFirst` ordered by descending timestamp: a row whose timestamp no
   * other row exceeds, or nothing on an empty table.
   */
  function Latest(rows: seq<Row>): (r: Option<Row>)
    ensures r.None? <==> rows == []
    ensures r.Some? ==> r.value in rows && forall x :: x in rows ==> x.timestamp <= r.value.timestamp
  {
    if rows == [] then None
    else
      var rest := Latest(rows[1..]);
      assert rows == [rows[0]] + rows[1..];
      if rest.None? || rest.value.timestamp <= rows[0].timestamp then Some(rows[0]) else rest
  }

  class MeasurementStore {
    /** The rows, in insertion order. */
    var rows: seq<Row>
    /** The next value of the serial `id` column. */
    var nextId: nat

    /** Ids are below the serial counter and increase with insertion order. */
    ghost predicate Valid()
      reads this
    {
      && nextId >= 1
      && (forall i :: 0 <= i < |rows| ==> rows[i].id < nextId)
      && (forall i, j :: 0 <= i < j < |rows| ==> rows[i].id < rows[j].id)
    }

    constructor ()
      ensures Valid() && rows == [] && nextId == 1
    {
      rows := [];
      nextId := 1;
    }

    /** `findFirst()` without an ordering: some row, exactly when the table is not empty. */
    function FindFirst(): (r: Option<Row>)
      reads this
      ensures r.None? <==> rows == []
      ensures r.Some? ==> r.value in rows
    {
      if rows == [] then None else Some(rows[0])
    }

    /** `getLatest`: null exactly on an empty table, otherwise a stored row with the greatest timestamp. */
    function GetLatest(): (r: Option<Row>)
      reads this
      ensures r.None? <==> rows == []
      ensures r.Some? ==> r.value in rows && forall x :: x in rows ==> x.timestamp <= r.value.timestamp
    {
      Latest(rows)
    }

    /** `insert(...).values(values).returning()`: appends the values with fresh, increasing ids and returns the new rows. */
    method Insert(values: seq<Draft>) returns (inserted: seq<Row>)
      requires Valid()
      modifies this
      ensures Valid()
      ensures inserted == Numbered(values, old(nextId))
      ensures rows == old(rows) + inserted
      ensures nextId == old(nextId) + |values|
    {
      inserted := Numbered(values, nextId);
      rows := rows + inserted;
      nextId := nextId + |values|;
    }

    /**
     * `importData` as written: refuses when the table already holds a row;
     * otherwise parses every record of the containers, maps them with the
     * mapper as written and inserts them all at once, so that any failure
     * leaves the table untouched. Since that mapper rejects every parsed
     * record, only an import without records gets past it.
     */
    method ImportData(containers: seq<Json>, env: Env) returns (r: Result<ImportSummary, Error>)
      requires Valid()
      modifies this
      ensures Valid()
      ensures old(rows) != [] ==> r == Failure(DataAlreadyImported) && rows == old(rows) && nextId == old(nextId)
      ensures old(rows) == [] && ParseAll(containers, env).Success? && AllRecords(containers) != [] ==>
                r == Failure(ValueIsNotANumber) && rows == old(rows) && nextId == old(nextId)
      ensures old(rows) == [] && PrepareAsWritten(containers, env).Failure? ==>
                r == Failure(PrepareAsWritten(containers, env).error) && rows == old(rows) && nextId == old(nextId)
      ensures old(rows) == [] && PrepareAsWritten(containers, env).Success? ==>
                AllRecords(containers) == [] && rows == [] && nextId == old(nextId) &&
                r == Success(ImportSummary([], 0, None))
    {
      var measurement := FindFirst();
      if measurement.Some? {
        return Failure(DataAlreadyImported);
      }
      var rawMeasurements := FetchJsonDataAndParse(containers, env);
      if rawMeasurements.Failure? {
        return Failure(rawMeasurements.error);
      }
      var insertParams := MapMeasurementsAsWritten(rawMeasurements.value, env);
      AsWrittenRejectsEveryRecord(containers, env);
      if insertParams.Failure? {
        return Failure(insertParams.error);
      }
      var insertedValues := Insert(insertParams.value);
      var insertedCount := |insertedValues|;
      var latestMeasurement := GetLatest();
      return Success(ImportSummary(insertedValues, insertedCount, latestMeasurement));
    }

    /**
     * `importData` with the intended mapper: the same steps, but every
     * record with a numeric register becomes a row.
     */
    method ImportDataIntended(containers: seq<Json>, env: Env) returns (r: Result<ImportSummary, Error>)
      requires Valid()
      modifies this
      ensures Valid()
      ensures old(rows) != [] ==> r == Failure(DataAlreadyImported) && rows == old(rows) && nextId == old(nextId)
      ensures old(rows) == [] && Prepare(containers, env).Failure? ==>
                r == Failure(Prepare(containers, env).error) && rows == old(rows) && nextId == old(nextId)
      ensures old(rows) == [] && Prepare(containers, env).Success? ==>
                var inserted := Numbered(Prepare(containers, env).value, old(nextId));
                && rows == inserted
                && nextId == old(nextId) + |inserted|
                && r == Success(ImportSummary(inserted, |inserted|, Latest(inserted)))
    {
      var measurement := FindFirst();
      if measurement.Some? {
        return Failure(DataAlreadyImported);
      }
      var rawMeasurements := FetchJsonDataAndParse(containers, env);
      if rawMeasurements.Failure? {
        return Failure(rawMeasurements.error);
      }
      var insertParams := MapMeasurements(rawMeasurements.value, env);
      if insertParams.Failure? {
        return Failure(insertParams.error);
      }
      var insertedValues := Insert(insertParams.value);
      var insertedCount := |insertedValues|;
      var latestMeasurement := GetLatest();
      assert rows == insertedValues;
      return Success(ImportSummary(insertedValues, insertedCount, latestMeasurement));
    }
  }

  /**
   * Two imports as written into a fresh table: a first import over a
   * non-empty set of records ends in an error and stores nothing, so the
   * second one is never refused and fails the same way.
   */
  method ImportTwice(containers: seq<Json>, env: Env) returns (first: Result<ImportSummary, Error>, second: Result<ImportSummary, Error>, stored: nat)
    ensures ParseAll(containers, env).Failure? ==>
              first == Failure(ParseAll(containers, env).error) && second == first && stored == 0
    ensures ParseAll(containers, env).Success? && AllRecords(containers) != [] ==>
              first == Failure(ValueIsNotANumber) && second == first && stored == 0
    ensures ParseAll(containers, env).Success? && AllRecords(containers) == [] ==>
              first == Success(ImportSummary([], 0, None)) && second == first && stored == 0
  {
    var store := new MeasurementStore();
    first := store.ImportData(containers, env);
    second := store.ImportData(containers, env);
    stored := |store.rows|;
  }

  /**
   * Two imports with the intended mapper into a fresh table: the second one
   * is refused exactly when the first one stored at least one row.
   */
  method ImportTwiceIntended(containers: seq<Json>, env: Env) returns (first: Result<ImportSummary, Error>, second: Result<ImportSummary, Error>, stored: nat)
    ensures Prepare(containers, env).Failure? ==>
              first == Failure(Prepare(containers, env).error) && second == first && stored == 0
    ensures Prepare(containers, env).Success? ==>
              && first.Success?
              && first.value.insertedCount == |Prepare(containers, env).value| == stored
              && (stored > 0 ==> second == Failure(DataAlreadyImported))
              && (stored == 0 ==> second == first)
  {
    var store := new MeasurementStore();
    first := store.ImportDataIntended(containers, env);
    second := store.ImportDataIntended(containers, env);
    stored := |store.rows|;
  }
}
