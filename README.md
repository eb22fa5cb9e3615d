# Energy measurement import and exploration, modelled in Dafny

This project models the data path of a small energy-metering dashboard.

On the server, the `importData` procedure of the measurements router does the following:
- It refuses to run when the measurement table already holds a row.
- It takes the two downloaded JSON documents ("containers") and checks that each is an object whose `data` field is an array.
- It validates every record of every container against the record schema (`measurement`, an ISO datetime `timestamp`, `tags.muid`, `tags.quality`, and two optional numeric registers `0100011D00FF` and `0100021D00FF`).
- It maps each record to an insert row (`timestamp`, `muid`, `meterAddress`, `value`), inserts all rows at once and returns them, their count and the latest row. As written, the mapper rejects every record that passed the schema (see "## Findings"). So the model has two versions of the import: `ImportData` follows the code as written, and `ImportDataIntended` uses the intended mapper, which accepts numeric registers.

`getLatest` returns the row with the greatest timestamp, or null on an empty table.

On the client, the exploration view does two things:
- It flattens the loaded pages, groups their points by `muid` with a `reduce` into a plain object, and lists the groups with `Object.entries`, each sorted by time.
- Its `loadMore` requests the next page only when the query reports one.

The modules:

- `Wrappers`: `Option` and `Result`.
- `Seqs`:
  - `Traverse` models a `map` whose callback may throw;
  - `WithKey` is order-preserving selection;
  - `SortBy` is the stable sort of `Array.prototype.sort`;
  - `Distinct` says a sequence has no repeats.
- `Json`: decoded JSON values with JavaScript truthiness, `typeof` and property access.
- `Ingest`: the record schema, the container check and flattening (as a loop, with `FetchJsonDataAndParse`), and the mapping to insert rows.
- `Store`: the measurement table as a class holding its rows and its serial counter, with `ImportData`, `GetLatest` and an insert.
- `Explore`: the `muidData` memo (the `GroupByMuid` loop and its reference `GroupedSpec`, `Object.entries` order, the per-muid sort) and the `loadMore` guard.

Library behaviour is passed in as functions rather than modelled:
- `z.string().datetime()` is `Env.isDatetime`;
- `new Date(s)` is `Env.instantOf` on the server and the `timeOf` parameter on the client.

`Env.numberText` is not library behaviour. The importer as written converts no number to text. `numberText` is the decimal text that the intended mapper stores for a numeric register value.

## Model

| member | source | states |
|---|---|---|
| Ingest.ParseRecord | src/server/api/routers/post.ts:11-20 | A record parses exactly when it matches the schema, i.e. string `measurement`, a `timestamp` the datetime check accepts, object `tags` with string `muid` and `quality`, and each register absent or a number. Any other record fails with the schema error. On success every field holds the record's value, and unknown keys are dropped. |
| Ingest.ParseEncode | src/server/api/routers/post.ts:11-20 | Parsing the JSON encoding of a record gives the record back, exactly when its timestamp passes the datetime check. |
| Ingest.IsValidContainer | src/server/api/routers/post.ts:61-65 | A container passes the check exactly when it is an object whose `data` field is an array. Falsy values, non-objects, arrays and objects without an array `data` fail. |
| Ingest.ParseAll | src/server/api/routers/post.ts:58-79 | The reference parse fails only with "Invalid data structure" or the schema error. On success it returns one parsed record per raw record. |
| Ingest.ParseAllConcat | src/server/api/routers/post.ts:58-79 | Parsing two lists of containers one after the other is the same as parsing their concatenation. The first failure wins. |
| Ingest.ParseAllRejectsInvalidContainer | src/server/api/routers/post.ts:60-71 | If every earlier container parsed, a container that is falsy, not of type "object", or without an array `data` field makes the whole parse fail with "Invalid data structure". |
| Ingest.ParseAllFlattens | src/server/api/routers/post.ts:58-79 | When every container passes the check, the parse is the record parser mapped over all records, flattened in container order. |
| Ingest.ParseAllSpec | src/server/api/routers/post.ts:58-79 | Parsing succeeds exactly when every container passes the check and every record matches the schema. On success there is one parsed record per raw record, in order. |
| Ingest.PushRecords | src/server/api/routers/post.ts:73-76 | The inner loop appends each record's parse to the accumulated list and stops at the first schema failure. |
| Ingest.FetchJsonDataAndParse | src/server/api/routers/post.ts:58-79 | The loop over containers computes exactly the reference parse `ParseAll`: the container check, then each record pushed in order. |
| Ingest.SelectRegister | src/server/api/routers/post.ts:27-30 | The primary register key is chosen when its value is defined; otherwise the secondary key is chosen. |
| Ingest.RegisterValue | src/server/api/routers/post.ts:31 | The run-time value of `measurement[key]`, defined on the two register keys. For either key it is that register's number when the register is defined, and `undefined` otherwise. |
| Ingest.MapRecordAsWritten | src/server/api/routers/post.ts:26-44 | The mapping callback as written. It succeeds only when the run-time value at the selected register key is a string. The row then carries that key and that string. Otherwise it fails with "Value is not a number". |
| Ingest.SchemaRecordRejected | src/server/api/routers/post.ts:31-36 | The callback as written rejects every schema-parsed record with "Value is not a number": the selected register holds a number or nothing, never a string. |
| Ingest.MapMeasurementsAsWritten | src/server/api/routers/post.ts:23-45 | The mapper as written fails with "Value is not a number" on every non-empty list of schema-parsed records and returns no rows on the empty list. |
| Ingest.PrepareAsWritten | src/server/api/routers/post.ts:99-100 | Parse-then-map as written fails only with "Invalid data structure", the schema error or "Value is not a number". When it succeeds, the containers hold no record and there is no row. |
| Ingest.AsWrittenRejectsEveryRecord | src/server/api/routers/post.ts:11-45 | With the mapper as written, every parse that yields at least one record ends in "Value is not a number". |
| Ingest.MapRecord | src/server/api/routers/post.ts:26-44 | (intended) The callback succeeds exactly when a register is defined. The row carries the record's instant and muid, the primary key if and only if the primary register is defined, and the decimal text of the selected value. |
| Ingest.MapMeasurements | src/server/api/routers/post.ts:23-45 | (intended) The mapper succeeds exactly when every record has a register value. It then returns one row per record, in order, each built from its record. Otherwise it fails with "Value is not a number". |
| Ingest.Prepare | src/server/api/routers/post.ts:99-100 | (intended) Parse-then-map fails only with "Invalid data structure", the schema error or "Value is not a number". On success there is one row per raw record. |
| Ingest.PrepareSpec | src/server/api/routers/post.ts:99-100 | (intended) Parse-then-map succeeds exactly when every container is valid and every record matches the schema and has a register. Row k is then built from record k of the flattened containers. |
| Store.Latest | src/server/api/routers/post.ts:109-113 | Without an order tie-break, findFirst by descending timestamp gives nothing exactly on an empty table. Otherwise it gives a stored row whose timestamp no row exceeds. |
| Store.MeasurementStore.FindFirst | src/server/api/routers/post.ts:92 | An unordered findFirst yields some stored row exactly when the table is not empty. |
| Store.MeasurementStore.GetLatest | src/server/api/routers/post.ts:128-137 | Returns null exactly on an empty table; otherwise a stored row with the greatest timestamp. |
| Store.MeasurementStore.Insert | src/server/api/routers/post.ts:102-105 | The `insert(...).values(...).returning()` call, on rows of the shape that src/server/db/schema.ts:39-52 declares. It appends the rows with serial ids counting up from the next id, keeps the ids increasing, and returns exactly the new rows. |
| Store.MeasurementStore.ImportData | src/server/api/routers/post.ts:91-116 | As written: a table with rows refuses the import with "Data already imported" and is left unchanged. On an empty table, a parse that yields at least one record fails with "Value is not a number" and stores nothing. A failed parse returns its error and leaves the table unchanged. An import succeeds only when there is no record, and then stores nothing and returns an empty summary. That success case rests on the empty insert modelled as inserting nothing (see "## Left out"). |
| Store.MeasurementStore.ImportDataIntended | src/server/api/routers/post.ts:91-116 | (intended) A table with rows refuses the import with "Data already imported" and is left unchanged. A failed parse or mapping leaves the table unchanged and returns that error. Otherwise the table holds exactly the prepared rows, numbered from the next id, and the result lists them, their count and the latest of them. |
| Store.ImportTwice | src/server/api/routers/post.ts:91-116 | As written, two imports into a fresh table give the same result and store nothing: the parse error, "Value is not a number" when there is a record, or an empty summary when there is none. The last case rests on the empty insert modelled as inserting nothing (see "## Left out"). |
| Store.ImportTwiceIntended | src/server/api/routers/post.ts:91-116 | (intended) Into a fresh table, a second import is refused exactly when the first stored at least one row. A failed first import stores nothing. |
| Explore.ChartData | src/app/_components/ExploreData.tsx:61 | The `flatMap` over the loaded pages: the pages' points concatenated in page order. Every page's points are among the result. |
| Explore.Flattened | src/app/_components/ExploreData.tsx:61 | The `?? []` fallback: no points while the query has no data, otherwise the flattened pages. |
| Explore.ChartDataConcat | src/app/_components/ExploreData.tsx:60-62 | Flattening pages is compatible with appending pages: the points of newly loaded pages come after the points already loaded. |
| Explore.ChartDataMembers | src/app/_components/ExploreData.tsx:60-62 | A point is in the flattened data exactly when some loaded page holds it. |
| Explore.Group | src/app/_components/ExploreData.tsx:62-70 | The outcome of the `reduce`. It throws a TypeError exactly when some loaded point's muid names a member a plain object inherits. Otherwise it yields the reference grouping. |
| Explore.FirstOccurrencesSpec | src/app/_components/ExploreData.tsx:62-70 | The keys the reduce creates are pairwise distinct and are exactly the muids of the input. |
| Explore.FirstIndex | src/app/_components/ExploreData.tsx:62-70 | The position at which a muid is first seen: it holds that muid and no earlier point does. |
| Explore.FirstOccurrencesOrdered | src/app/_components/ExploreData.tsx:62-70 | The keys are created in the order in which their muid is first seen. |
| Explore.GetSpec | src/app/_components/ExploreData.tsx:62-70 | After the reduce, each key holds exactly its muid's points in input order. Any other name holds nothing. |
| Explore.Step | src/app/_components/ExploreData.tsx:63-69 | The reducer callback adds the muid as a new last key when it is new and otherwise keeps the keys. It appends the point to that muid's array and leaves every other key's array unchanged. |
| Explore.GroupedSpecStep | src/app/_components/ExploreData.tsx:63-69 | The reducer callback maps the reference grouping of a prefix to that of the prefix one point longer. It creates the key (with an empty array) when the muid is new, then pushes the point. |
| Explore.FoldIsGrouping | src/app/_components/ExploreData.tsx:62-70 | Folding the callback over all points from the empty object yields the reference grouping: the keys in first-seen order, each holding its muid's points in input order. |
| Explore.GroupByMuid | src/app/_components/ExploreData.tsx:60-70 | The reduce loop throws a TypeError exactly when some muid names a member a plain object inherits; otherwise it yields the reference grouping. |
| Explore.EntriesOrder | src/app/_components/ExploreData.tsx:72 | `Object.entries` lists every own key exactly once. Array-index keys come first, in ascending numeric order. The other keys follow in creation order. |
| Explore.EntriesOrderOfNames | src/app/_components/ExploreData.tsx:72 | Without array-index keys, `Object.entries` follows key-creation order. |
| Explore.Project | src/app/_components/ExploreData.tsx:72-79 | The `map` over the entries: exactly one series per key, in the order given, each carrying its key. |
| Explore.ProjectAt | src/app/_components/ExploreData.tsx:72-79 | Series i carries key i and holds that key's array sorted by time. |
| Explore.ComputeMuidData | src/app/_components/ExploreData.tsx:59-80 | The memo throws exactly when a loaded muid names an inherited member. Otherwise it yields the series of the loaded points. |
| Explore.EntryKeys | src/app/_components/ExploreData.tsx:72 | The keys the entries visit are distinct, as many as the distinct muids, and exactly the loaded muids. |
| Explore.SeriesMuids | src/app/_components/ExploreData.tsx:72-79 | There is one series per distinct muid, no muid appears twice, and every loaded muid has a series. |
| Explore.SeriesData | src/app/_components/ExploreData.tsx:75-77 | Each series' data is its muid's points sorted by time, as a stable sort: ordered by time, a permutation of those points, equal times kept in input order. |
| Explore.SeriesMembers | src/app/_components/ExploreData.tsx:59-80 | A point is in a series exactly when it was loaded and carries that series' muid. |
| Explore.SeriesOrder | src/app/_components/ExploreData.tsx:72-79 | When no muid is an array index, the series appear in the order in which their muid was first seen. |
| Explore.SeriesCount | src/app/_components/ExploreData.tsx:59-80 | The series together hold exactly as many points as were loaded. |
| Explore.NextPageParam | src/app/_components/ExploreData.tsx:55 | `getNextPageParam`: nothing before any page has loaded, otherwise the cursor the last loaded page returned. |
| Explore.HasNextPage | src/app/_components/ExploreData.tsx:55 | The query's `hasNextPage`: there is a loaded page, and the last one returned a cursor. |
| Explore.LoadMore | src/app/_components/ExploreData.tsx:82-86 | A page is requested exactly when there is a next page, and then with the cursor the last loaded page returned. |
| Explore.LoadMoreStopsAtLastPage | src/app/_components/ExploreData.tsx:55 | Once a page arrives without a cursor, `loadMore` requests nothing more. |
| Seqs.Traverse | src/server/api/routers/post.ts:26 | A throwing `map` succeeds exactly when every callback does. The results are then one per element, in order. |
| Seqs.TraverseConcat | src/server/api/routers/post.ts:26 | Mapping a concatenation equals mapping each part, with the first failure winning. |
| Seqs.TraverseFirstFailure | src/server/api/routers/post.ts:26 | The error of a failed map is the error of the first failing element. |
| Seqs.SortBy | src/app/_components/ExploreData.tsx:75-77 | The sort with a numeric comparator orders by key, permutes its input, and is stable. |
| Seqs.SortedSelectionFirst | src/app/_components/ExploreData.tsx:72 | The elements satisfying a predicate, sorted by a key, followed by the rest in order: a permutation of the input. Every element satisfying the predicate comes before the others and in key order, and the others keep their order. |
| Seqs.DistinctPermutation | src/app/_components/ExploreData.tsx:72 | A permutation of a sequence without repeats has no repeats. |

## Left out

- Downloading the two documents is not modelled. The fixed URLs, `fetch`, `response.json()` and `Promise.all` are replaced by the list of decoded documents passed in. A network or JSON syntax error therefore never occurs in the model.
- The race between `findFirst` and the insert under concurrent imports is not modelled. Each procedure runs atomically on the table.
- The tRPC plumbing is left out: procedure builders, error codes and serialisation of results. The error message becomes the `Error` constructor.
- The `hello` and `create` procedures of the router are not part of this model.
- The `createdAt` and `updatedAt` columns are left out: they are set by the database and the clock, and the core never reads them.
- The insert itself is not modelled in detail. Drizzle's SQL, a database error, and the behaviour of an insert with an empty value list are not modelled; an empty insert is modelled as inserting nothing. If the library rejects an empty value list instead, the import as written never succeeds. Rows returned by `returning()` are exactly the stored rows.
- The ISO datetime check of the schema is a parameter, not implemented. So is date parsing, on both server and client. The decimal text the intended mapper stores is a parameter too.
- Store.Latest: among rows with an equal greatest timestamp it picks one; it does not claim which row the database returns.
- Invalid date strings are not modelled: `new Date` gives NaN for them, which makes the comparator's result NaN. `timeOf` returns an integer for every string.
- Numbers are reals. IEEE-754 doubles, NaN and negative zero are not modelled, and `0` is the only falsy number.
- Explore: the sort is applied to copies in the model. The arrays `Array.prototype.sort` mutates in place are fresh objects created inside the memo, so no caller sees the mutation.
- React and the hooks are not part of this model: rendering, memoisation caching, the query's state and `fetchNextPage`'s request. `LoadMore` returns the request it would make.
- The server's paginated `getAllMeasurements` query is not part of this model. Its pages are the input of the view.

## Findings

| source | as written | input that shows it | evidently intended | confidence | as-written member | corrected member |
|---|---|---|---|---|---|---|
| src/server/api/routers/post.ts:18-19, 31-36 | The schema types both registers as `number`, but the mapper throws "Value is not a number" unless the selected register's value has `typeof` "string". So every record that passed the schema is rejected. | A container `{"data": [{"measurement": "energy", "timestamp": "2023-02-01T00:00:00Z", "tags": {"muid": "m", "quality": "measured"}, "0100011D00FF": 0.05}]}`: the record parses, then the mapper throws. | Accept a numeric register and store its decimal text in the numeric `value` column. | not executed | Ingest.MapMeasurementsAsWritten, Store.MeasurementStore.ImportData | Ingest.MapMeasurements, Store.MeasurementStore.ImportDataIntended |
