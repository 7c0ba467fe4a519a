# ETL row pipeline: a Dafny model

This project models the row pipeline of the EventBridge ETL examples. It covers three AWS Lambda handlers that are meant to turn an uploaded text file into DynamoDB items:

- **extract.** There are two copies of this handler. For every S3 notification inside every SQS message, it reads the object from S3 and cuts the contents into lines on `"\r\n"` and each line into fields on `","`. Line 0 is the header row and the other lines are data rows.
  - The `05_eventbridge_etl` copy then sends one "extracted" event per data row to the `ETLEventBus` bus.
  - The `implement_the_eventBridge_ETL_architecture` copy parses and logs, and does nothing else.
- **transform.** It zips the header names of one event with the values of its data row into an object.
- **load.** It renames five properties of a record into a DynamoDB item, `put`s it, and sends one "success" event that carries the put parameters.

Modules:

- `Csv` (`csv.dfy`) holds the text handling.
  - JavaScript `String.prototype.split` with a non-empty separator is the recursive function `Split`.
  - `Join` is its inverse, proved in both directions.
  - `Parse` and `Unparse` move between a file's text and its header row and data rows. They are proved to be inverse bijections between arbitrary texts and well-formed tables.
- `Effects` (`effects.dfy`) holds what the handlers exchange with AWS.
  - Each external call is appended to an effect log together with whether it succeeded.
  - S3 is a map from object reference (bucket, key) to contents. A reference that is not in the map makes `getObject` fail.
  - EventBridge's answers are an oracle `bus: nat -> bool` over log positions.
  - DynamoDB's answer is a boolean. A put with a missing or empty table name or `id` always fails.
  - A handler run is its log plus how its promise settles, `Resolved` or `Rejected(why)`.
- `ExtractLog` (`extract_log.dfy`) is the log-only extract handler. There is one method per loop of the source (SQS records, S3 records), proved against the specification function `ReadRun`.
- `ExtractEmit` (`extract_emit.dfy`) is the emitting extract handler. There is one method per loop of the source (SQS records, S3 records, data rows), proved against the specification function `EmitRun`.
- `Transform` (`transform.dfy`) is the transform handler. It is a loop over a map variable, proved against the left fold `Zip`.
- `Load` (`load.dfy`) is the load handler. It is a pure mapping plus a fixed two-step effect log.
- `Sequences` (`sequences.dfy`) holds facts about cutting and rejoining sequences that the loop proofs use.

Three more modelling choices:

- The SQS body and its S3 notification records are given already decoded, as `SqsRecord(s3Records)`. A body without `Records` is the empty sequence, because `for...in` over `undefined` does nothing.
- Missing `s3.bucket.name` and `s3.object.key` are `None` in `ObjectRef`. S3's contents are a `Store`, a map whose every key has a non-empty bucket name and a non-empty key. A notification missing either one therefore names no stored object, and its `getObject` fails like the read of a missing object.
- The transform handler's row is a sequence of strings, because the extract handler sends an array. The source annotates `data` as `string`, but the code indexes it as an array. A missing `detail.data` is `None`; the handler then throws on the first header, and returns an empty object when there are no headers.

## Model

| member | source | states |
|---|---|---|
| Csv.Lines | 05_eventbridge_etl/lambda-fns/extract/index.ts:39-43 | the file cut into lines on "\r\n" and each line into fields on ","; stated by `ParsePartition`, `UnparseParse`, `ParseWellFormed` and `FieldsWithoutLineBreak` |
| Csv.Parse | 05_eventbridge_etl/lambda-fns/extract/index.ts:39-45 | line 0 is the header row and the later lines the data rows; stated by `ParsePartition`, and inverted by `Unparse` in `UnparseParse` and `ParseUnparse` |
| Csv.Split | 05_eventbridge_etl/lambda-fns/extract/index.ts:39-43 | JavaScript `split` with a non-empty separator always yields at least one part |
| Csv.JoinSplit | 05_eventbridge_etl/lambda-fns/extract/index.ts:39-43 | joining the parts of a split with the same separator gives back the input exactly |
| Csv.SplitPartsFree | 05_eventbridge_etl/lambda-fns/extract/index.ts:39-43 | no part of a split contains the separator it was split on |
| Csv.SplitFree | 05_eventbridge_etl/lambda-fns/extract/index.ts:40 | a text without the separator splits into itself alone |
| Csv.SplitJoin | 05_eventbridge_etl/lambda-fns/extract/index.ts:39-43 | for a separator whose occurrences cannot overlap, splitting the join of one or more separator-free parts gives the parts back (no parts join to "", which splits to `[""]`) |
| Csv.SeparatorsBorderFree | 05_eventbridge_etl/lambda-fns/extract/index.ts:40-42 | neither "\r\n" nor "," can overlap itself, so both splits are invertible |
| Csv.ParsePartition | 05_eventbridge_etl/lambda-fns/extract/index.ts:39-45 | header row followed by the data rows is exactly the list of lines, there is one data row fewer than lines, and the header row is line 0 split on "," |
| Csv.UnparseParse | implement_the_eventBridge_ETL_architecture/lambda-fns/extract/index.ts:42-48 | re-joining fields with "," and lines with "\r\n" reproduces the file contents exactly |
| Csv.ParseWellFormed | implement_the_eventBridge_ETL_architecture/lambda-fns/extract/index.ts:42-46 | every line has at least one field, no field contains ",", and no line contains "\r\n" |
| Csv.ParseUnparse | 05_eventbridge_etl/lambda-fns/extract/index.ts:39-45 | a well-formed table survives writing out and parsing back unchanged |
| Csv.FieldsWithoutLineBreak | implement_the_eventBridge_ETL_architecture/lambda-fns/extract/index.ts:42-46 | no header or data field contains "\r\n" |
| Csv.TrailingLineBreak | 05_eventbridge_etl/lambda-fns/extract/index.ts:39-45 | a trailing "\r\n" keeps the header row and adds exactly one data row `[""]` |
| Effects.FirstMissing | implement_the_eventBridge_ETL_architecture/lambda-fns/extract/index.ts:39 | the position of the first reference S3 does not hold: every earlier one is stored, it is not, or it is the length when all are stored |
| Effects.FirstMissingUnique | implement_the_eventBridge_ETL_architecture/lambda-fns/extract/index.ts:39 | any position with those three properties is the first missing one |
| Effects.Objects | 05_eventbridge_etl/lambda-fns/extract/index.ts:15-22 | the S3 records of every SQS record, in the order the two loops visit them; stated by `ObjectsNested` |
| Effects.ObjectsNested | 05_eventbridge_etl/lambda-fns/extract/index.ts:15-22 | the S3 records of SQS record i come after those of earlier SQS records and before those of later ones |
| ExtractLog.ReadRun | implement_the_eventBridge_ETL_architecture/lambda-fns/extract/index.ts:16-52 | the calls made for the objects in nested order, each read recording whether S3 has the object, rejecting at the first missing one; stated by `ReadRunReadsUpTo`, `ReadRunStops` and `ReadRunOnlyReads` |
| ExtractLog.ReadRunReadsUpTo | implement_the_eventBridge_ETL_architecture/lambda-fns/extract/index.ts:16-39 | the objects are read in the nested order, stopping at the first missing one, which rejects; otherwise the run resolves |
| ExtractLog.ReadRunStops | implement_the_eventBridge_ETL_architecture/lambda-fns/extract/index.ts:39 | once the handler has rejected, no later object is touched |
| ExtractLog.ReadRunOnlyReads | implement_the_eventBridge_ETL_architecture/lambda-fns/extract/index.ts:39-51 | the only calls are object reads, and the handler resolves exactly when every object is stored, with one read per S3 record in order and nothing else |
| ExtractLog.UnaddressableRejects | implement_the_eventBridge_ETL_architecture/lambda-fns/extract/index.ts:29-39 | an S3 record without a bucket name or an object key rejects the handler there or earlier, and nothing after it is read |
| ExtractLog.ReadS3Records | implement_the_eventBridge_ETL_architecture/lambda-fns/extract/index.ts:24-52 | the loop over one message's S3 records continues `ReadRun` over them, and returns the parsed tables of the objects it could read, stopping at the first missing one |
| ExtractLog.Handler | implement_the_eventBridge_ETL_architecture/lambda-fns/extract/index.ts:16-52 | the nested loops make exactly the calls of `ReadRun` and settle the same way; the tables parsed are those of the objects read before the first missing one, each equal to `Parse` of its contents |
| ExtractEmit.RowEffects | 05_eventbridge_etl/lambda-fns/extract/index.ts:47-74 | one putEvents per data row, answered by EventBridge; stated by `RowEffectsAt` |
| ExtractEmit.ObjectEffects | 05_eventbridge_etl/lambda-fns/extract/index.ts:26-74 | the read of one object and, when S3 has it, its row events; stated by `ObjectEffectsAt` |
| ExtractEmit.EmitRun | 05_eventbridge_etl/lambda-fns/extract/index.ts:15-76 | the calls made for the objects in nested order, rejecting at the first missing one; stated by `EmitRunReads`, `EffectsRecordAnswers`, `EmitRunStops`, `EmitRunAppend` and `BusIndependent` |
| ExtractEmit.RowEffectsAt | 05_eventbridge_etl/lambda-fns/extract/index.ts:47-66 | exactly one putEvents per data row, in row order, each on the ETL bus (Source "myETLapp", EventBusName "ETLEventBus", DetailType "EtlProcess") with detail `{status: "extracted", headers, data: row}` for that row |
| ExtractEmit.ObjectEffectsAt | 05_eventbridge_etl/lambda-fns/extract/index.ts:36-66 | for one object: a single read first, recording whether S3 has it; then, when it does, one event per data row, on the ETL bus and carrying the file's header row and that row |
| ExtractEmit.EmitRunStops | 05_eventbridge_etl/lambda-fns/extract/index.ts:36 | a missing object rejects the handler and nothing after it happens |
| ExtractEmit.SameReadsAsLogOnly | 05_eventbridge_etl/lambda-fns/extract/index.ts:15-45 | this copy reads the same objects in the same order and settles the same way as the log-only copy |
| ExtractEmit.EmitRunReads | 05_eventbridge_etl/lambda-fns/extract/index.ts:15-39 | the objects read are those up to and including the first missing one, where the handler rejects; otherwise all of them, and it resolves |
| ExtractEmit.UnaddressableRejects | 05_eventbridge_etl/lambda-fns/extract/index.ts:26-36 | an S3 record without a bucket name or an object key rejects the handler there or earlier, and nothing after it is read |
| ExtractEmit.EffectsRecordAnswers | 05_eventbridge_etl/lambda-fns/extract/index.ts:36-73 | every read succeeds exactly when S3 holds the object, every event is an "extracted" entry with Source "myETLapp", EventBusName "ETLEventBus" and DetailType "EtlProcess", answered as EventBridge says, and nothing is written to DynamoDB |
| ExtractEmit.BusIndependent | 05_eventbridge_etl/lambda-fns/extract/index.ts:65-73 | a rejected putEvents is swallowed: whatever EventBridge answers, the handler makes the same calls and settles the same way |
| ExtractEmit.EmitRunAppend | 05_eventbridge_etl/lambda-fns/extract/index.ts:15-21 | files are handled one after another: after a resolved run over `a`, the run over `a + b` continues with the run over `b`, with EventBridge's answers taken from where `a` stopped |
| ExtractEmit.OneFile | 05_eventbridge_etl/lambda-fns/extract/index.ts:36-66 | for one stored file the log is one read followed by one event per data row, in order, as many entries as the file has lines |
| ExtractEmit.TrailingLineBreakEvent | 05_eventbridge_etl/lambda-fns/extract/index.ts:39-66 | a trailing "\r\n" leaves the log unchanged except for one extra event, for the row `[""]` |
| ExtractEmit.SendRows | 05_eventbridge_etl/lambda-fns/extract/index.ts:47-74 | the row loop appends exactly the row events of the table to the log |
| ExtractEmit.HandleObject | 05_eventbridge_etl/lambda-fns/extract/index.ts:26-74 | reports whether S3 has the object, and appends the read and, when it has, the row events of its parsed contents |
| ExtractEmit.HandleS3Records | 05_eventbridge_etl/lambda-fns/extract/index.ts:21-75 | the loop over one message's S3 records continues the run of `EmitRun` over them |
| ExtractEmit.Handler | 05_eventbridge_etl/lambda-fns/extract/index.ts:15-76 | the nested loops make exactly the calls of `EmitRun` over all S3 records in nested order, and settle the same way |
| Transform.Zip | implement_the_eventBridge_ETL_architecture/lambda-fns/transform/index.ts:11-15 | the object after the loop, header by header in order; stated by `ZipKeys`, `ZipValue`, `ZipDistinct`, `ZipShortRow`, `ZipAgree`, `ZipDropsExtra` and `ZipSize` |
| Transform.Handler | implement_the_eventBridge_ETL_architecture/lambda-fns/transform/index.ts:7-18 | the handler throws exactly when `detail.data` is missing and there is a header; otherwise the returned `Object` is the zip of headers with the row, and holds exactly the header names as keys |
| Transform.ZipKeys | implement_the_eventBridge_ETL_architecture/lambda-fns/transform/index.ts:11-15 | the keys are exactly the header names |
| Transform.ZipValue | implement_the_eventBridge_ETL_architecture/lambda-fns/transform/index.ts:13-15 | a header holds the value at its last index: with a duplicated name the later index wins |
| Transform.ZipDistinct | implement_the_eventBridge_ETL_architecture/lambda-fns/transform/index.ts:13-15 | with distinct header names, header i holds `data[i]`, which is `undefined` past the end of the row |
| Transform.ZipShortRow | implement_the_eventBridge_ETL_architecture/lambda-fns/transform/index.ts:13-14 | a header at an index past the end of the row holds `undefined`, also when the name occurs again later |
| Transform.ZipAgree | implement_the_eventBridge_ETL_architecture/lambda-fns/transform/index.ts:13-14 | only the values at header indices are read |
| Transform.ZipDropsExtra | implement_the_eventBridge_ETL_architecture/lambda-fns/transform/index.ts:13 | values past the last header are dropped |
| Transform.ZipSize | implement_the_eventBridge_ETL_architecture/lambda-fns/transform/index.ts:11-15 | at most one key per header, and exactly one per header when the names are distinct |
| Load.ToItem | 05_eventbridge_etl/lambda-fns/load/index.ts:9-15 | the renaming of `ID`, `HouseNum`, `Street`, `Town` and `Zip` into the item; stated by `FromItemToItem`, `ToItemFromItem` and `ToItemDependsOnSourceKeys` |
| Load.FromItem | 05_eventbridge_etl/lambda-fns/load/index.ts:9-15 | reading an item back as a record gives exactly the five source properties |
| Load.ToItemFromItem | 05_eventbridge_etl/lambda-fns/load/index.ts:9-15 | renaming a record read back from an item gives the item |
| Load.FromItemToItem | 05_eventbridge_etl/lambda-fns/load/index.ts:9-15 | renaming keeps `ID`, `HouseNum`, `Street`, `Town` and `Zip` (as `undefined` when absent) and loses everything else |
| Load.ToItemDependsOnSourceKeys | 05_eventbridge_etl/lambda-fns/load/index.ts:9-15 | two records give the same item exactly when they agree on the five source properties |
| Load.Handler | 05_eventbridge_etl/lambda-fns/load/index.ts:6-46 | the put, then the success event after a successful put; stated by `HandlerOutcome`, `HandlerPutsFirst`, `SuccessFollowsPut`, `OneEvent` and `EventFailureSwallowed` |
| Load.HandlerOutcome | 05_eventbridge_etl/lambda-fns/load/index.ts:7-19 | the handler resolves exactly when there is a record, the put has a table name and an `id`, and DynamoDB accepts it; otherwise a failed put rejects with no event; without a record nothing is called |
| Load.MissingTableOrKeyRejects | 05_eventbridge_etl/lambda-fns/load/index.ts:8-19 | with `DDB_TABLE_NAME` unset or no `ID` in the record, the put fails and the handler rejects without an event |
| Load.HandlerPutsFirst | 05_eventbridge_etl/lambda-fns/load/index.ts:7-19 | the first call is the put of the renamed item into the table named by `DDB_TABLE_NAME` (`undefined` when it is unset), and no other call writes |
| Load.SuccessFollowsPut | 05_eventbridge_etl/lambda-fns/load/index.ts:19-37 | every event is a "success" entry on the ETL bus (Source "myETLapp", EventBusName "ETLEventBus", DetailType "EtlProcess"), immediately after a successful put of the very parameters it carries |
| Load.OneEvent | 05_eventbridge_etl/lambda-fns/load/index.ts:19-39 | exactly one event after a successful put, none otherwise |
| Load.EventFailureSwallowed | 05_eventbridge_etl/lambda-fns/load/index.ts:37-45 | whether EventBridge accepts the event changes neither the calls nor the outcome |

## Left out

- S3 reads, UTF-8 decoding of the body, `JSON.parse` of the SQS body and the optional chaining on the notification: these are inputs to the model. A malformed body, which would make `JSON.parse` throw, is not modelled.
- A `getObject` failure is modelled as the reference being absent from the store. This includes a reference missing its bucket name or key, which the SDK refuses before sending. Throttling, permissions and other transient failures look the same as a missing object.
- putEvents failures inside EventBridge's answer, such as partial `FailedEntryCount`: only "accepted or rejected" is modelled, and both extract and load ignore the answer.
- The `Time: new Date()` stamp of every entry, because it reads a clock.
- The JSON serialisation of `Detail` and of the transform handler's result. `RowEntry` and `SuccessEntry` keep the detail as a value. Properties whose value is `undefined`, which serialisation would drop, stay in the record as `None`.
- All `console.log` output, and the dead locals `bucketARN`, `local_file` and `csvData`.
- Concurrency and retries of the Lambda runtime; each invocation is modelled as one sequential run.
- JavaScript property-name oddities in the transform handler, such as a `__proto__` header, and the insertion order of an object's keys: `Record` is a map.
- JSON values other than strings in the records, for example numbers in `detail.data`.
- Load.Handler: besides a missing table name or `id`, DynamoDB's answer is not tied to the parameters (wrong key type, oversized item, a table of another name); all of that is in `putOk`.
- Load.Handler: a `detail.data` of a non-object type is not modelled. Only a missing `detail.data` is, as `None`, where reading `ID` throws before any call.
- Transform.Handler: a missing `detail.headers` is not modelled. The source throws on `headers.join` at line 5, before the loop. A missing `detail.data` is modelled.
- The circuit-breaker example is not part of this model. Neither are the CDK stacks (`lib/*-stack.ts`), the `bin/*.ts` entry points, the snapshot tests or the ATM example; they are configuration and static data.
- No lemma connects transform's output to load's input, because the shown code does not connect them. Transform's result goes to the bus only through the Lambda's onSuccess destination (implement_the_eventBridge_ETL_architecture/lib/implement_the_event_bridge_etl_architecture-stack.ts:102). The rule that targets load (lines 157-170 there) matches only events with status "transformed", which nothing shown emits. Transform returns `{Object}` without a status, while load reads `detail.data`.
