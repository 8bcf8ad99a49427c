# CSV request ingestion: a Dafny model

This project models the CSV ingestion path of a small request-tracking backend
(`Src/index.ts`). An uploaded CSV file is parsed into rows. The first row must
carry the headers `RequestID`, `RequestType`, `RequestStatus` and
`RequestData`. Rows are then grouped into buckets keyed by their raw
`RequestType` text. When the file ends, each bucket key goes through
`parseInt` and the table router, and every record of a bucket with a known
type is inserted into that table. The per-table count is logged. The project
also models the router on its own and the `Total` of the `/summary` report.

Modules:

- `Wrappers`: `Option`, standing for JavaScript's `undefined`.
- `Router`: `getRequestTableName`, the switch from a request-type code to a table name.
- `IngestSpec`: the meaning of ingestion as functions on values, with the lemmas about it:
  - header check (`HasExpectedHeaders`, `AcceptedRows`), bucketing (`BucketKey`, `ToRecord`, `AddToBucket`, `Bucketed`), key resolution (`ParseInt`, `TableFor`);
  - the end phase for a given bucket order (`FlushBucket`, `FlushAll`), and the inserts it makes when nothing throws (`Emit`);
  - an independent reference, `RowInserts`: the inserts read off the rows one at a time, without buckets.
- `Ingest`: the pipeline as imperative code.
  - Class `Ingestion`: `data` (the bucket dictionary), `isHeaderChecked`, `halted` (for `parser.end()`), `inserts` (the `db.run` calls that completed; a call that throws is made but adds nothing) and `messages` (the console lines).
  - `OnRow` is the `data` handler; `OnEnd` and `InsertBucket` are the `end` handler; `OnReadError` is the read stream's `error` handler.
  - `Feed` hands the rows to `OnRow` until the parser halts. `ProcessCSV` runs `Feed` on a fresh ingestion, then `OnReadError` if the stream failed, then `OnEnd`.
- `Aggregator`: the summary object and its `Total`.

Whether a `db.run` call throws is a parameter, `throws`. It sees the call and every insert completed before it in the same ingestion. So a failure that depends on earlier inserts, such as a repeated primary key (`RequestID` is the primary key of every table, `Src/Tables.ts:4`), can be expressed. `RepeatedIdStopsAtSecond` shows it for two identical type-1 rows; `DistinctIdsAllInserted` shows that two rows with different ids are both inserted under the same failure rule.

Main results:

- `ProcessCSV`'s contract. The inserts and console lines are those of `FlushAll` over one order that lists every bucket once. When no call of this run throws (each insert checked against the inserts made before it in this run), the inserts are the reference `RowInserts` of the accepted rows, grouped bucket by bucket and in file order inside each bucket (`KeyedInserts`). As a multiset they equal the reference whatever the bucket order. So each accepted row whose type resolves is inserted exactly once, into its table, and a row with an unknown type is never inserted. An error line is logged exactly when some insert, made after the ones before it, throws. A file whose first row fails the header check inserts nothing.
- If some insert throws, what was inserted is a sub-multiset of the same reference, and no completed insert is one that throws.
- `BucketIsSelection`: each bucket holds exactly the records of the rows with its key, in file order.
- `BucketTotalIsRowCount`: the bucket lengths add up to the number of accepted rows.

## Behaviour kept as the code has it

- The router spells the type-3 table `"NewLicence"`. The schema (`Src/Tables.ts:21`) declares `"NewLicense"`. `OnlyNewLicenceIsUndeclared` and `NewLicenseNeverRouted` state the result: type-3 records never reach the table that the summary counts. `SummaryMissesNewLicence` states it for the summary: its `Total` leaves out every insert into `"NewLicence"`.
- The bucketed record keeps only `RequestID`, `RequestStatus` and `RequestData`. The insert still passes `record.RequestType`. So the second value of every insert is `None` (`undefined`). `InsertOf`, `RowInsertsShape` and `EmitShape` state this, and so does `ProcessCSV`'s contract.
- The whole end loop sits inside a single `try`/`catch`. The first `db.run` that throws therefore ends the end phase: no later insert happens, no count is logged for that bucket, and one error line is logged. A general design for this pipeline would isolate such failures row by row. The model follows the code.
- The header check runs on rows until one passes. In practice that is the first row: if it fails, the parser is halted, and `ProcessCSV` delivers no more rows. `SameHeadersSameVerdict` shows that a later row with the same header names would fail the check too.
- A field missing from a row reads as `None`. A row without a `RequestType` is bucketed under the key `"undefined"`. That key resolves to no table.
- Which code goes to which of the five names is fixed by the body of `Router.RequestTableName`, the lookup table itself. Its contract fixes the domain (1..5) and the set of names; `RequestTableNameInjective` and `RequestTableNameOnto` make it a one-to-one map onto the five names. `UnknownTypeIsDropped` and `SingleDigitKeys` pin codes 1 and 3.

## Model

| member | source | states |
|---|---|---|
| `Router.RequestTableName` | Src/index.ts:32-47 | a name is returned exactly for codes 1..5, and it is one of the five router names; every other integer gives `undefined` |
| `Router.RequestTableNameInjective` | Src/index.ts:34-43 | two codes that route to the same table are the same code |
| `Router.RequestTableNameOnto` | Src/index.ts:34-43 | each of the five names is the route of some code in 1..5 |
| `Router.OnlyNewLicenceIsUndeclared` | Src/index.ts:38-39 | code 3, and only code 3, routes to a name the schema does not declare |
| `Router.NewLicenseNeverRouted` | Src/Tables.ts:21 | no code routes to the declared `NewLicense` table |
| `IngestSpec.HasExpectedHeaders` | Src/index.ts:57-59 | the check passes if and only if all four expected header names are keys of the row |
| `IngestSpec.SameHeadersSameVerdict` | Src/index.ts:56-59 | rows with the same header names get the same verdict from the check |
| `IngestSpec.AcceptedRows` | Src/index.ts:56-64 | the rows that reach a bucket are all rows when the first row passes the check, and none when it fails; every accepted sequence starts with a row that passes |
| `IngestSpec.BucketKey` | Src/index.ts:66-68 | a row is keyed by its `RequestType` text; a row without one is keyed by `"undefined"`, which parses to no number |
| `IngestSpec.ToRecord` | Src/index.ts:66-70 | the bucketed record has an id, status and payload exactly when the row has those columns, with their values unchanged, and no request type |
| `IngestSpec.InsertOf` | Src/index.ts:80-81 | an insert goes to the given table, passes the record's id, status and payload, and passes no request type |
| `IngestSpec.DigitPrefixLength` | Src/index.ts:76 | the result is the length of the longest leading run of decimal digits |
| `IngestSpec.ParseInt` | Src/index.ts:76 | a number is produced exactly when the key starts with a digit; otherwise NaN (`None`) |
| `IngestSpec.ParseIntIgnoresSuffix` | Src/index.ts:76 | characters after the leading digits are ignored ("3abc" parses as 3) |
| `IngestSpec.TableFor` | Src/index.ts:76-77 | a key resolves to a table exactly when it parses to a number in 1..5, and the table is one of the five router names |
| `IngestSpec.SingleDigitKeys` | Src/index.ts:76 | a one-digit key resolves to the router's table for that digit |
| `IngestSpec.AddToBucket` | Src/index.ts:67-70 | the row's record is appended to its key's bucket (a new bucket for a new key); every other bucket is unchanged |
| `IngestSpec.PushToBucket` | Src/index.ts:67-70 | creating an empty bucket for a new key and then pushing the record is `AddToBucket` |
| `IngestSpec.BucketedSnoc` | Src/index.ts:66-70 | accepting one more row adds its record to the end of its own bucket and changes no other bucket |
| `IngestSpec.BucketIsSelection` | Src/index.ts:66-70 | a bucket exists exactly for keys some accepted row carries, and holds the records of exactly those rows, in file order |
| `IngestSpec.EveryKeyHasBucket` | Src/index.ts:67-69 | every accepted row's key has a bucket |
| `IngestSpec.BucketTotalIsRowCount` | Src/index.ts:66-70 | for any listing of the bucket keys, the bucket lengths sum to the number of accepted rows |
| `IngestSpec.IngestIsRowByRow` | Src/index.ts:75-83 | in any bucket order, the no-throw inserts equal as a multiset the row-by-row inserts of the accepted rows with a resolvable key |
| `IngestSpec.EmitInFileOrder` | Src/index.ts:75-83 | the no-throw inserts are, bucket after bucket in visiting order, the inserts of that bucket's rows in file order |
| `IngestSpec.RowInsertsShape` | Src/index.ts:80-81 | every reference insert targets one of the five router tables and passes no request type |
| `IngestSpec.FirstThrow` | Src/index.ts:79-83 | the result is the index of the first insert that throws after the ones before it, or the bucket length when none does |
| `IngestSpec.CommitsFailsIff` | Src/index.ts:79-83 | a run of inserts stops early exactly when some insert, made after all the ones before it, throws |
| `IngestSpec.FlushBucketCommits` | Src/index.ts:76-85 | for one bucket (`FlushBucket`): an unknown key does nothing; otherwise the inserts made are the bucket's inserts up to the first that throws, and the line logged is the error line on a throw and the count line otherwise |
| `IngestSpec.FlushAllCommits` | Src/index.ts:74-89 | over the listed buckets (`FlushAll`), the inserts made are the no-throw inserts up to the first that throws; after a throw nothing more is inserted |
| `IngestSpec.FlushMessages` | Src/index.ts:78-88 | without a throw, the lines are the count lines of the resolved buckets in visiting order; with one, the count lines of the buckets before it and then one error line; the error line appears exactly on a throw |
| `IngestSpec.ReportedCountIsRowCount` | Src/index.ts:78-84 | each count line names the table of a visited key and reports the number of rows with that key |
| `IngestSpec.FlushStep` | Src/index.ts:75-86 | visiting one more bucket before any throw appends that bucket's inserts and console lines |
| `IngestSpec.FlushStaysAborted` | Src/index.ts:74-89 | after a throw, the remaining buckets change nothing |
| `IngestSpec.EmitShape` | Src/index.ts:80-81 | every no-throw insert targets one of the five router tables and passes no request type |
| `IngestSpec.IngestOutcome` | Src/index.ts:73-90 | in any bucket order, the inserts are a sub-multiset of the reference, equal to it and in per-bucket file order when no call of this run throws after the ones before it; an error line appears exactly when some insert throws; no completed insert throws or carries a request type |
| `IngestSpec.RequestRowFields` | Src/index.ts:66 | a row with the four columns passes the check, is keyed by its type, and its record keeps the other three values unchanged |
| `IngestSpec.UnknownTypeIsDropped` | Src/index.ts:76-77 | for rows of types 1, 99 and 3, the type-99 row is dropped and the other two go to `AccountRequest` and `NewLicence` |
| `IngestSpec.RepeatedIdStopsAtSecond` | Src/index.ts:79-88 | two identical type-1 rows with a repeated-key failure: the first is inserted, the second throws, and only the error line is logged |
| `IngestSpec.DistinctIdsAllInserted` | Src/index.ts:75-83 | with a repeated-key failure, two type-1 rows with different ids: no call of the run throws, and the end phase inserts both, in file order, into AccountRequest |
| `Ingest.Ingestion.constructor` | Src/index.ts:52-53 | the ingestion starts with no buckets, the header flag unset and nothing inserted or logged |
| `Ingest.Ingestion.OnRow` | Src/index.ts:55-71 | while unchecked, a row without the headers halts the parse, is dropped and is logged; otherwise the flag is set (and stays set, with no re-check) and the row's record is appended to its bucket |
| `Ingest.Ingestion.Feed` | Src/index.ts:55-64 | a fresh ingestion fed a file's rows accepts all of them when the first passes the check, and none (with one mismatch line) when it fails; the parser is ended exactly when the first row fails the check; nothing is inserted during the row phase |
| `Ingest.Ingestion.OnReadError` | Src/index.ts:93-96 | a read failure logs its line and ends the parser |
| `Ingest.Ingestion.InsertBucket` | Src/index.ts:76-85 | an unknown key does nothing; a known key inserts the bucket's records in order until one throws, then logs the count or the error, as `FlushBucket` says |
| `Ingest.Ingestion.OnEnd` | Src/index.ts:73-90 | the inserts and console lines are those of `FlushAll` over one order that lists every bucket once; buckets are unchanged |
| `Ingest.ProcessCSV` | Src/index.ts:50-98 | inserts and lines are those of `FlushAll` over one enumeration of the accepted rows' buckets, after the mismatch and read-error lines; when no call of this run throws after the ones before it, the inserts are the reference in per-bucket file order; an error line appears exactly when an insert throws; a file whose first row fails the check gives no insert; no insert carries a request type |
| `Ingest.ProcessOutcome` | Src/index.ts:73-90 | the same facts about `FlushAll` over the accepted rows' buckets, for any enumeration |
| `Aggregator.MakeSummary` | Src/index.ts:140-148 | each count is reported under its name, and `Total` is their sum; it is zero exactly when every count is zero |
| `Aggregator.SummaryMissesNewLicence` | Src/count.ts:42-49 | on tables filled only by ingestion inserts, the summary's `NewLicense` count is zero and its `Total` is the number of inserts minus those into `"NewLicence"` |

## Left out

- The Express app, the routes, the Multer upload filter and the HTTP responses (`Src/index.ts:14-29, 101-121, 158-160`): framework plumbing with no ingestion logic.
- File reading and CSV parsing (`Src/index.ts:51, 92-97`): the input is the already-parsed sequence of rows. A read failure is a flag, `readFails`, taken to happen after the given rows: `OnReadError` logs its line and halts the parser, and the end phase then runs over the rows read so far.
- Asynchrony: `db.run` is a synchronous append to `inserts`. The upload response is sent before ingestion finishes, and that is not modelled. `Data/Connect.ts` is not part of this model. So the `throws` parameter says which calls throw synchronously. A failure reported later, outside the `try`, is not modelled.
- Rows that the CSV parser may still deliver after `parser.end()`, and the stream error that writing after the end would cause, are not modelled. `ProcessCSV` stops feeding rows once `halted` is set.
- `IngestSpec.ParseInt`: models `parseInt` as the value of the leading decimal digits. JavaScript also skips leading whitespace, accepts a sign, and reads a `0x` prefix as hexadecimal. So keys such as `" 3"`, `"+3"` or `"0x3"` resolve in the source but not in the model. Keys like `"01"` resolve to 1 in both.
- The order of `Object.entries`: buckets are visited in an arbitrary order, returned as a ghost `visited`. No promise depends on which order it is. Across buckets, results are stated for that order or as multisets; each bucket's own inserts keep file order.
- Bucket keys that name properties JavaScript objects inherit (`"__proto__"`, `"constructor"`, `"toString"`) are not modelled. The model treats every key as a bucket of its own.
- `Src/count.ts` (five database selects returning `.length`, combined with `Promise.all`) and `Src/Route.ts` (database selects and `JSON.parse` of stored fields): these are calls into a database layer and a JSON library that are not part of this model. So the summary's all-or-nothing failure when one count query fails is not modelled. `Aggregator.MakeSummary` takes the five counts as inputs; `SummaryMissesNewLicence` takes each count to be the number of completed inserts into that table.
- `Src/Tables.ts` declares a schema with no behaviour. Only its table names are used, as `Router.DeclaredTables`. The generic four-column insert does not match the columns the schema declares; such a mismatch shows in the model only as a call that `throws`.
- `Aggregator.MakeSummary`: counts are unbounded naturals. JavaScript numbers are floating point, and their sums are exact only below 2^53.
- Console lines are modelled by their kind and values only (`Message`), not by their text or the error object they print.
