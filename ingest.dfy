/**
 * The ingestion half of the measurements router (src/server/api/routers/post.ts):
 * the record schema, the check and flattening of the downloaded containers,
 * and the mapping of records to insert rows.
 */
module Ingest {
  import opened Wrappers
  import opened Json
  import opened Seqs

  /** The register key the mapper prefers. */
  const PrimaryRegister: string := "0100011D00FF"
  /** The register key the mapper falls back to. */
  const SecondaryRegister: string := "0100021D00FF"

  /**
   * The behaviour of library code the model does not look into:
   * `z.string().datetime()` as a validity predicate and `new Date(s)` as a
   * conversion to an instant (milliseconds). `numberText` is not library
   * behaviour of the importer, which converts no number to text: it is the
   * decimal text the corrected mapper stores for a numeric register value.
   */
  datatype Env = Env(isDatetime: string -> bool, instantOf: string -> int, numberText: real -> string)

  /** The errors the import can end in. */
  datatype Error =
    | InvalidDataStructure   // "Invalid data structure in response"
    | SchemaMismatch         // the ZodError thrown by `rawMeasurementSchema.parse`
    | ValueIsNotANumber      // "Value is not a number"
    | DataAlreadyImported    // "Data already imported"

  datatype Tags = Tags(muid: string, quality: string)

  /** A record as `rawMeasurementSchema` returns it: unknown keys stripped, registers `number | undefined`. */
  datatype RawMeasurement = RawMeasurement(
    measurement: string,
    timestamp: string,
    tags: Tags,
    primary: Option<real>,     // "0100011D00FF"
    secondary: Option<real>)   // "0100021D00FF"

  /** An insert row of the measurement table, before the store assigns its id. */
  datatype Draft = Draft(timestamp: int, muid: string, meterAddress: string, value: string)

  // ---------------------------------------------------------------------------
  // The record schema
  // ---------------------------------------------------------------------------

  predicate HasString(j: Json, name: string)
  {
    Field(j, name).Some? && Field(j, name).value.JString?
  }

  predicate NumberOrAbsent(j: Json, name: string)
  {
    Field(j, name).None? || Field(j, name).value.JNumber?
  }

  /** What `rawMeasurementSchema` accepts, stated as a property of the JSON value. */
  ghost predicate MatchesSchema(j: Json, env: Env)
  {
    && j.JObject?
    && HasString(j, "measurement")
    && HasString(j, "timestamp")
    && env.isDatetime(Field(j, "timestamp").value.s)
    && Field(j, "tags").Some?
    && Field(j, "tags").value.JObject?
    && HasString(Field(j, "tags").value, "muid")
    && HasString(Field(j, "tags").value, "quality")
    && NumberOrAbsent(j, PrimaryRegister)
    && NumberOrAbsent(j, SecondaryRegister)
  }

  /** An optional number as the JSON field it came from. */
  function NumberField(v: Option<real>): Option<Json>
  {
    if v.Some? then Some(JNumber(v.value)) else None
  }

  function StringField(j: Json, name: string): Result<string, Error>
  {
    match Field(j, name)
    case Some(JString(s)) => Success(s)
    case _ => Failure(SchemaMismatch)
  }

  function OptionalNumberField(j: Json, name: string): Result<Option<real>, Error>
  {
    match Field(j, name)
    case None => Success(None)
    case Some(JNumber(n)) => Success(Some(n))
    case Some(_) => Failure(SchemaMismatch)
  }

  /**
   * `rawMeasurementSchema.parse(data)`: succeeds exactly on the values that
   * match the schema, and then returns what the schema's fields hold.
   */
  function ParseRecord(j: Json, env: Env): (r: Result<RawMeasurement, Error>)
    ensures r.Success? <==> MatchesSchema(j, env)
    ensures r.Failure? ==> r.error == SchemaMismatch
    ensures r.Success? ==>
              && Field(j, "measurement") == Some(JString(r.value.measurement))
              && Field(j, "timestamp") == Some(JString(r.value.timestamp))
              && Field(Field(j, "tags").value, "muid") == Some(JString(r.value.tags.muid))
              && Field(Field(j, "tags").value, "quality") == Some(JString(r.value.tags.quality))
              && Field(j, PrimaryRegister) == NumberField(r.value.primary)
              && Field(j, SecondaryRegister) == NumberField(r.value.secondary)
  {
    if !j.JObject? || Field(j, "tags").None? || !Field(j, "tags").value.JObject? then Failure(SchemaMismatch)
    else
      var tags := Field(j, "tags").value;
      var measurement := StringField(j, "measurement");
      var timestamp := StringField(j, "timestamp");
      var muid := StringField(tags, "muid");
      var quality := StringField(tags, "quality");
      var primary := OptionalNumberField(j, PrimaryRegister);
      var secondary := OptionalNumberField(j, SecondaryRegister);
      if measurement.Failure? || timestamp.Failure? || !env.isDatetime(timestamp.value)
         || muid.Failure? || quality.Failure? || primary.Failure? || secondary.Failure?
      then Failure(SchemaMismatch)
      else Success(RawMeasurement(measurement.value, timestamp.value, Tags(muid.value, quality.value),
                                  primary.value, secondary.value))
  }

  /** Adds the field `name` when the optional number is present. */
  function WithNumber(fields: map<string, Json>, name: string, v: Option<real>): map<string, Json>
  {
    if v.Some? then fields[name := JNumber(v.value)] else fields
  }

  /** The JSON record that carries exactly the fields of `m`. */
  function Encode(m: RawMeasurement): Json
  {
    var tags := JObject(map["muid" := JString(m.tags.muid), "quality" := JString(m.tags.quality)]);
    var base := map["measurement" := JString(m.measurement), "timestamp" := JString(m.timestamp), "tags" := tags];
    JObject(WithNumber(WithNumber(base, PrimaryRegister, m.primary), SecondaryRegister, m.secondary))
  }

  /** Parsing a record that carries exactly the schema's fields gives them back, whenever its timestamp is a valid datetime. */
  lemma ParseEncode(m: RawMeasurement, env: Env)
    ensures ParseRecord(Encode(m), env) == if env.isDatetime(m.timestamp) then Success(m) else Failure(SchemaMismatch)
  {
    // Dafny finds each field on its own; naming them keeps the proof cheap and stable across solver seeds.
    var j := Encode(m);
    var tags := JObject(map["muid" := JString(m.tags.muid), "quality" := JString(m.tags.quality)]);
    assert Field(j, "tags") == Some(tags);
    assert Field(tags, "muid") == Some(JString(m.tags.muid));
    assert Field(tags, "quality") == Some(JString(m.tags.quality));
    assert Field(j, "measurement") == Some(JString(m.measurement));
    assert Field(j, "timestamp") == Some(JString(m.timestamp));
    assert Field(j, PrimaryRegister) == NumberField(m.primary);
    assert Field(j, SecondaryRegister) == NumberField(m.secondary);
  }

  function RecordParser(env: Env): Json -> Result<RawMeasurement, Error>
  {
    j => ParseRecord(j, env)
  }

  // ---------------------------------------------------------------------------
  // The downloaded containers
  // ---------------------------------------------------------------------------

  /**
   * The container check passes: the value is truthy, of type "object", and
   * its `data` property is an array. For a decoded JSON value that is
   * exactly an object with an array `data` field.
   */
  predicate IsValidContainer(c: Json)
    ensures IsValidContainer(c) <==> c.JObject? && "data" in c.fields && c.fields["data"].JArray?
  {
    Truthy(c) && TypeOf(c) == "object" && IsArray(DataProperty(c))
  }

  /** The records of a valid container. */
  function DataItems(c: Json): seq<Json>
  {
    if IsValidContainer(c) then DataProperty(c).value.items else []
  }

  /** All records of the containers, container after container. */
  function AllRecords(cs: seq<Json>): seq<Json>
  {
    if cs == [] then [] else DataItems(cs[0]) + AllRecords(cs[1..])
  }

  /**
   * What `fetchJsonDataAndParse` computes from the decoded containers: each
   * container is checked and then each of its records parsed, in order, and
   * the first failure aborts everything.
   */
  function ParseAll(cs: seq<Json>, env: Env): (r: Result<seq<RawMeasurement>, Error>)
    ensures r.Failure? ==> r.error == InvalidDataStructure || r.error == SchemaMismatch
    ensures r.Success? ==> |r.value| == |AllRecords(cs)|
  {
    if cs == [] then Success([])
    else if !IsValidContainer(cs[0]) then Failure(InvalidDataStructure)
    else
      var parsed := Traverse(DataItems(cs[0]), RecordParser(env));
      if parsed.Failure? then
        TraverseFailure(DataItems(cs[0]), RecordParser(env));
        Then(parsed, ParseAll(cs[1..], env))
      else
        Then(parsed, ParseAll(cs[1..], env))
  }

  lemma {:induction false} ParseAllConcat(a: seq<Json>, b: seq<Json>, env: Env)
    ensures ParseAll(a + b, env) == Then(ParseAll(a, env), ParseAll(b, env))
  {
    if a == [] {
      assert a + b == b;
      if ParseAll(b, env).Success? {
        assert [] + ParseAll(b, env).value == ParseAll(b, env).value;
      }
    } else {
      assert (a + b)[0] == a[0];
      assert (a + b)[1..] == a[1..] + b;
      if IsValidContainer(a[0]) {
        ParseAllConcat(a[1..], b, env);
        ThenAssociative(Traverse(DataItems(a[0]), RecordParser(env)), ParseAll(a[1..], env), ParseAll(b, env));
      }
    }
  }

  /**
   * A container that is falsy, not an object, or without an array `data`
   * field, reached after every earlier container parsed, makes the whole
   * parse fail with the invalid-structure error.
   */
  lemma ParseAllRejectsInvalidContainer(cs: seq<Json>, env: Env, i: nat)
    requires i < |cs| && !IsValidContainer(cs[i])
    requires ParseAll(cs[..i], env).Success?
    ensures ParseAll(cs, env) == Failure(InvalidDataStructure)
  {
    ParseAllStep(cs, i, env);
    ParseAllPrefixFailure(cs, i + 1, env);
  }

  /**
   * When every container is valid, the parse is the parse of all their
   * records, concatenated in container order and then record order.
   */
  lemma {:induction false} ParseAllFlattens(cs: seq<Json>, env: Env)
    requires forall i :: 0 <= i < |cs| ==> IsValidContainer(cs[i])
    ensures ParseAll(cs, env) == Traverse(AllRecords(cs), RecordParser(env))
  {
    if cs != [] {
      assert forall i :: 0 <= i < |cs| - 1 ==> cs[1..][i] == cs[i + 1];
      ParseAllFlattens(cs[1..], env);
      TraverseConcat(DataItems(cs[0]), AllRecords(cs[1..]), RecordParser(env));
    }
  }

  /**
   * The parse succeeds exactly when every container is valid and every
   * record matches the schema; it then returns one parsed record per raw
   * record, in order.
   */
  lemma ParseAllSpec(cs: seq<Json>, env: Env)
    ensures ParseAll(cs, env).Success? <==>
              (forall i :: 0 <= i < |cs| ==> IsValidContainer(cs[i])) &&
              (forall k :: 0 <= k < |AllRecords(cs)| ==> MatchesSchema(AllRecords(cs)[k], env))
    ensures ParseAll(cs, env).Success? ==>
              |ParseAll(cs, env).value| == |AllRecords(cs)| &&
              forall k :: 0 <= k < |AllRecords(cs)| ==>
                ParseAll(cs, env).value[k] == ParseRecord(AllRecords(cs)[k], env).value
  {
    if forall i :: 0 <= i < |cs| ==> IsValidContainer(cs[i]) {
      ParseAllFlattens(cs, env);
    } else {
      var i :| 0 <= i < |cs| && !IsValidContainer(cs[i]);
      if ParseAll(cs[..i], env).Success? {
        ParseAllRejectsInvalidContainer(cs, env, i);
      } else {
        ParseAllPrefixFailure(cs, i, env);
      }
    }
  }

  /** Parsing one more container extends the parse of the containers before it. */
  lemma ParseAllStep(cs: seq<Json>, i: nat, env: Env)
    requires i < |cs|
    ensures ParseAll(cs[..i + 1], env) ==
              Then(ParseAll(cs[..i], env),
                   if IsValidContainer(cs[i]) then Traverse(DataItems(cs[i]), RecordParser(env))
                   else Failure(InvalidDataStructure))
  {
    assert cs[..i + 1] == cs[..i] + [cs[i]];
    ParseAllConcat(cs[..i], [cs[i]], env);
    assert [cs[i]][1..] == [];
    var t := Traverse(DataItems(cs[i]), RecordParser(env));
    if t.Success? {
      assert t.value + [] == t.value;
    }
  }

  /** Once the containers up to `n` fail, the whole parse fails the same way. */
  lemma ParseAllPrefixFailure(cs: seq<Json>, n: nat, env: Env)
    requires n <= |cs| && ParseAll(cs[..n], env).Failure?
    ensures ParseAll(cs, env) == ParseAll(cs[..n], env)
  {
    assert cs == cs[..n] + cs[n..];
    ParseAllConcat(cs[..n], cs[n..], env);
  }

  /** The inner `forEach` of `fetchJsonDataAndParse`: parses each record of one container and pushes it. */
  method PushRecords(rawMeasurements: seq<RawMeasurement>, data: seq<Json>, env: Env)
    returns (r: Result<seq<RawMeasurement>, Error>)
    ensures r == Then(Success(rawMeasurements), Traverse(data, RecordParser(env)))
  {
    var parse := RecordParser(env);
    var pushed := rawMeasurements;
    var j := 0;
    while j < |data|
      invariant 0 <= j <= |data|
      invariant Traverse(data[..j], parse).Success?
      invariant pushed == rawMeasurements + Traverse(data[..j], parse).value
    {
      var parsed := parse(data[j]);
      if parsed.Failure? {
        TraversePrefixFailure(data, j, parse);
        return Failure(parsed.error);
      }
      TraverseSnoc(data[..j], data[j], parse);
      assert data[..j + 1] == data[..j] + [data[j]];
      pushed := pushed + [parsed.value];
      j := j + 1;
    }
    assert data[..j] == data;
    return Success(pushed);
  }

  /**
   * `fetchJsonDataAndParse` after the downloads: checks each container in
   * turn, pushes its parsed records, and throws at the first invalid
   * container or record.
   */
  method FetchJsonDataAndParse(rawDataArray: seq<Json>, env: Env) returns (r: Result<seq<RawMeasurement>, Error>)
    ensures r == ParseAll(rawDataArray, env)
  {
    var rawMeasurements: seq<RawMeasurement> := [];
    var i := 0;
    while i < |rawDataArray|
      invariant 0 <= i <= |rawDataArray|
      invariant ParseAll(rawDataArray[..i], env) == Success(rawMeasurements)
    {
      var rawData := rawDataArray[i];
      ParseAllStep(rawDataArray, i, env);
      if !Truthy(rawData) || TypeOf(rawData) != "object" || !IsArray(DataProperty(rawData)) {
        ParseAllPrefixFailure(rawDataArray, i + 1, env);
        return Failure(InvalidDataStructure);
      }
      var pushed := PushRecords(rawMeasurements, DataProperty(rawData).value.items, env);
      if pushed.Failure? {
        ParseAllPrefixFailure(rawDataArray, i + 1, env);
        return pushed;
      }
      rawMeasurements := pushed.value;
      i := i + 1;
    }
    assert rawDataArray[..i] == rawDataArray;
    return Success(rawMeasurements);
  }

  // ---------------------------------------------------------------------------
  // Mapping records to insert rows
  // ---------------------------------------------------------------------------

  /**
   * The register key the mapper uses: the primary key when its value is
   * defined, the secondary key otherwise. This choice is itself the rule the
   * importer follows, so the contract states the rule case by case.
   */
  function SelectRegister(m: RawMeasurement): (key: string)
    ensures m.primary.Some? ==> key == PrimaryRegister
    ensures m.primary.None? ==> key == SecondaryRegister
  {
    if m.primary.Some? then PrimaryRegister else SecondaryRegister
  }

  /**
   * The run-time value of `measurement[key]` for a register key: a number or
   * `undefined`. The mapper only ever reads one of the two register keys.
   */
  function RegisterValue(m: RawMeasurement, key: string): (r: Option<Json>)
    requires key == PrimaryRegister || key == SecondaryRegister
    ensures key == PrimaryRegister ==> (r.Some? <==> m.primary.Some?) && (r.Some? ==> r.value == JNumber(m.primary.value))
    ensures key == SecondaryRegister ==> (r.Some? <==> m.secondary.Some?) && (r.Some? ==> r.value == JNumber(m.secondary.value))
  {
    if key == PrimaryRegister then NumberField(m.primary) else NumberField(m.secondary)
  }

  /**
   * The callback of `mapMeasurementsToInsertParams` as written: it accepts
   * the selected register only when its run-time value is a string.
   */
  function MapRecordAsWritten(m: RawMeasurement, env: Env): (r: Result<Draft, Error>)
    ensures r.Success? ==> r.value.meterAddress == SelectRegister(m) && RegisterValue(m, r.value.meterAddress) == Some(JString(r.value.value))
    ensures r.Failure? ==> r.error == ValueIsNotANumber
  {
    var meterAddress := SelectRegister(m);
    match RegisterValue(m, meterAddress)
    case Some(JString(s)) => Success(Draft(env.instantOf(m.timestamp), m.tags.muid, meterAddress, s))
    case _ => Failure(ValueIsNotANumber)
  }

  /** The schema types both registers as numbers, so the string check rejects every parsed record. */
  lemma SchemaRecordRejected(m: RawMeasurement, env: Env)
    ensures MapRecordAsWritten(m, env) == Failure(ValueIsNotANumber)
  {
  }

  /** The value of the selected register, when it is defined: the number the mapper reads at the selected key. */
  function SelectedValue(m: RawMeasurement): (r: Option<real>)
    ensures NumberField(r) == RegisterValue(m, SelectRegister(m))
  {
    if m.primary.Some? then m.primary else m.secondary
  }

  /**
   * The mapping callback as intended: the selected register must hold a
   * number, and the row stores that number's decimal text.
   */
  function MapRecord(m: RawMeasurement, env: Env): (r: Result<Draft, Error>)
    ensures r.Success? <==> m.primary.Some? || m.secondary.Some?
    ensures r.Failure? ==> r.error == ValueIsNotANumber
    ensures r.Success? ==>
              && r.value.timestamp == env.instantOf(m.timestamp)
              && r.value.muid == m.tags.muid
              && (r.value.meterAddress == PrimaryRegister <==> m.primary.Some?)
              && (r.value.meterAddress == SecondaryRegister <==> m.primary.None?)
              && r.value.value == env.numberText(SelectedValue(m).value)
  {
    var meterAddress := SelectRegister(m);
    match RegisterValue(m, meterAddress)
    case Some(JNumber(n)) => Success(Draft(env.instantOf(m.timestamp), m.tags.muid, meterAddress, env.numberText(n)))
    case _ => Failure(ValueIsNotANumber)
  }

  function RowMapper(env: Env): RawMeasurement -> Result<Draft, Error>
  {
    m => MapRecord(m, env)
  }

  function RowMapperAsWritten(env: Env): RawMeasurement -> Result<Draft, Error>
  {
    m => MapRecordAsWritten(m, env)
  }

  /**
   * `mapMeasurementsToInsertParams` with the intended callback: one row per
   * record, in order, unless some record has no register value at all.
   */
  function MapMeasurements(ms: seq<RawMeasurement>, env: Env): (r: Result<seq<Draft>, Error>)
    ensures r.Success? <==> forall i :: 0 <= i < |ms| ==> SelectedValue(ms[i]).Some?
    ensures r.Failure? ==> r.error == ValueIsNotANumber
    ensures r.Success? ==> |r.value| == |ms|
    ensures r.Success? ==>
              forall i :: 0 <= i < |ms| ==>
                && r.value[i].muid == ms[i].tags.muid
                && r.value[i].timestamp == env.instantOf(ms[i].timestamp)
                && r.value[i].meterAddress == SelectRegister(ms[i])
                && r.value[i].value == env.numberText(SelectedValue(ms[i]).value)
  {
    var r := Traverse(ms, RowMapper(env));
    if r.Failure? then
      TraverseFailure(ms, RowMapper(env));
      r
    else r
  }

  /** `mapMeasurementsToInsertParams` as written. */
  function MapMeasurementsAsWritten(ms: seq<RawMeasurement>, env: Env): (r: Result<seq<Draft>, Error>)
    ensures ms != [] ==> r == Failure(ValueIsNotANumber)
    ensures ms == [] ==> r == Success([])
  {
    if ms != [] then
      SchemaRecordRejected(ms[0], env);
      TraverseFirstFailure(ms, RowMapperAsWritten(env), 0);
      Traverse(ms, RowMapperAsWritten(env))
    else
      Traverse(ms, RowMapperAsWritten(env))
  }

  // ---------------------------------------------------------------------------
  // Everything between the store check and the insert
  // ---------------------------------------------------------------------------

  /** The rows the import inserts, with the intended mapper: parse, then map. */
  function Prepare(cs: seq<Json>, env: Env): (r: Result<seq<Draft>, Error>)
    ensures r.Failure? ==> r.error == InvalidDataStructure || r.error == SchemaMismatch || r.error == ValueIsNotANumber
    ensures r.Success? ==> |r.value| == |AllRecords(cs)|
  {
    match ParseAll(cs, env)
    case Failure(e) => Failure(e)
    case Success(ms) => MapMeasurements(ms, env)
  }

  /** The same with the mapper as written. */
  function PrepareAsWritten(cs: seq<Json>, env: Env): (r: Result<seq<Draft>, Error>)
    ensures r.Failure? ==> r.error == InvalidDataStructure || r.error == SchemaMismatch || r.error == ValueIsNotANumber
    ensures r.Success? ==> r.value == [] && AllRecords(cs) == []
  {
    match ParseAll(cs, env)
    case Failure(e) => Failure(e)
    case Success(ms) => MapMeasurementsAsWritten(ms, env)
  }

  /**
   * With the mapper as written, every parse that yields at least one record
   * ends in "Value is not a number": a record that passes the schema carries
   * a number, never a string, in the selected register.
   */
  lemma AsWrittenRejectsEveryRecord(cs: seq<Json>, env: Env)
    ensures ParseAll(cs, env).Success? && AllRecords(cs) != [] ==> PrepareAsWritten(cs, env) == Failure(ValueIsNotANumber)
  {
    ParseAllSpec(cs, env);
  }

  /**
   * With the intended mapper, the rows are one per raw record, in container
   * order and then record order, carrying each record's muid, instant,
   * selected register and value text.
   */
  lemma PrepareSpec(cs: seq<Json>, env: Env)
    ensures Prepare(cs, env).Success? <==>
              (forall i :: 0 <= i < |cs| ==> IsValidContainer(cs[i])) &&
              (forall k :: 0 <= k < |AllRecords(cs)| ==>
                 MatchesSchema(AllRecords(cs)[k], env) &&
                 SelectedValue(ParseRecord(AllRecords(cs)[k], env).value).Some?)
    ensures Prepare(cs, env).Success? ==>
              |Prepare(cs, env).value| == |AllRecords(cs)| &&
              forall k :: 0 <= k < |AllRecords(cs)| ==>
                var m := ParseRecord(AllRecords(cs)[k], env).value;
                Prepare(cs, env).value[k] == Draft(env.instantOf(m.timestamp), m.tags.muid, SelectRegister(m),
                                                   env.numberText(SelectedValue(m).value))
  {
    ParseAllSpec(cs, env);
  }
}
