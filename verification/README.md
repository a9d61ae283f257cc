# Frames: models and proofs

Frames moves tables between clients and several stores. This project models the logic of its Go
code in Dafny, file by file, and proves what that logic is for:

- **Sharded cursor** (`AsyncCursor.dfy`): a class over a store that answers page requests in any
  order. Every answer that is awaited is owed; a run without a limit delivers an interleaving of all
  shards, or fails exactly when a shard does; a run with a limit delivers `limit + 1` items at most.
- **Writes** (`WritePipeline.dfy`, `WaitLoops.dfy`, `KvWriter.dfy`, `DeleteWait.dfy`): the stream,
  channel and appender pipeline and the wait loops as state machines over all interleavings, the
  puts and the schema of the key-value appender, and table deletion on top of the cursor.
- **Rows and columns** (`Columns.dfy`, `Frames.dfy`, `RowBuilder.dfy`, `RowIter.dfy`,
  `KvBuilder.dfy`, `KvReader.dfy`): two independent row-to-column builders, the iterator that
  inverts one of them, label columns and the time cache, and a whole read of a key-value table.
- **Time series and schemas** (`TsdbWriter.dfy`, `Schema.dfy`): the writer that appends by cached
  reference against the writer that looks everything up; the schema merge as a join of types.
- **Streams and CSV** (`Marshal.dfy`, `Csv.dfy`): length-prefixed messages and what becomes of a
  stream that is cut; chunked reading under two limits and the write and read round trip.

Objects that the Go code updates are classes, loops are loops, and each method is proved against a
specification function or predicate about which the lemmas then speak. Goroutines and channels are
state machines (`Enabled`, `Step`, `Run`), whose lemmas hold for every schedule. The remote stores
are small classes whose answers are left open, so that every theorem holds whatever they answer.
Errors are values; a Go panic that the code can reach is a value too (`IndexPanic`, `NilPanic`,
`Panic`).

Where the code does something other than its comments, names or documentation suggest, the model
follows the code:

- The cursor compares its count with the limit before it counts, so it delivers `limit + 1` items
  (v3ioutils/asynciter.go:144).
- `Frame.Slice` refuses `end == Len()`, which `Column.Slice` accepts (frame.go:236-254).
- `merge` appends a second field when a name is already known with the same type
  (v3ioutils/schema.go:145-148); a boolean column has no type there (v3ioutils/schema.go:76-92).
- The row iterator reports duplicate names as an error, against its own comment (rowiter.go:60-75),
  and reads unnamed data columns by their empty name, so that all of them show the last.
- `Bools` does not expand a label column (column.go:231-237), and `Append` leaves the cache of
  `Times` as it is (column.go:314-320), so that reading the new time panics.
- The key-value reader counts the schema object as a row (backends/kv/reader.go:86-93): later
  columns are padded for it. Padding before the first value of a time column is `time.Time{}`
  (backends/utils/utils.go:85-86), padding after it the epoch.
- The key-value appender updates the schema before it finds out that it cannot use several indices
  (backends/kv/writer.go:121-129), and its wait loop does not set its timer again after a tick
  (backends/kv/writer.go:347-354), so that it can wait for ever.
- The gRPC handler can block for ever on its channel once the backend has failed
  (grpc/server.go:173-191).
- The deletion loop counts failed answers like any others (v3ioutils/container.go:128-135).
- The time series writer replaces the value of a `__name__` label by the label's own name
  (backends/tsdb/writer.go:226-233), compares only the first and the last time of a single index
  (backends/tsdb/writer.go:140-142), and dereferences nil when all extra index values of the first
  row are empty (backends/tsdb/writer.go:182-215).

## Model

| member | source | states |
|---|---|---|
| Values.WrapIsIdentityInRange | pb/methods.go:113-115 | 64-bit wrap-around changes nothing exactly for the numbers that 64 bits can hold |
| Values.NSToTimeExact | pb/methods.go:113-115 | every int64 of nanoseconds, negative ones included, makes a normal time at that very instant and comes back from it |
| Values.TimeThroughNanos | column.go:424-430 | a time survives being stored as nanoseconds if and only if its instant fits 64 bits |
| Values.CellFor | column.go:401-441 | the cell a column of a type appends for a value has that type |
| Values.CellForStores | column.go:401-441 | a column takes exactly the values of its class, and what it stores is that value; of a time, its nanoseconds modulo 64 bits |
| Values.ClassOf | pb/methods.go:244-259 | each value is accepted by the columns of exactly one type, or of none |
| Values.ZeroCell | frame.go:292-308 | the padding of a type is a cell of that type |
| Values.ZeroCellIsPadding | frame.go:292-308 | padding is 0, NaN, the empty string, the epoch or false, by class |
| Decimal.DigitsParse | backends/csv/backend.go:366-369 | parsing the digits of a number gives the number |
| Decimal.FormatThenAtoi | backends/csv/backend.go:366-369 | every int64 survives printing and `strconv.Atoi` |
| Decimal.FormatIsCanonical | column.go:152-158 | printed integers are digits without a leading zero, behind a minus for negative ones |
| Decimal.AtoiTakes | backends/csv/backend.go:366-369 | digits parse with either sign or none exactly as far as 64 bits go |
| Decimal.AtoiRejects | backends/csv/backend.go:366-369 | nothing else parses as an integer |
| Decimal.TextIsText | column.go:145-190 | what the text of a cell is, class by class; a time has that of its own instant |
| Columns.SameLabelIsSameCell | column.go:452-487 | a label column accepts exactly the values that would store an equal cell, NaN never |
| Columns.Column.Slice | column.go:323-363 | a slice column holds the data it is given |
| Columns.Column.Label | column.go:365-399 | a label column holds one value and a size |
| Columns.Column.IntAt | column.go:92-101 | succeeds if and only if type and bounds fit, and then gives the cell, label or slice |
| Columns.Column.FloatAt | column.go:121-130 | the same for floats |
| Columns.Column.BoolAt | column.go:239-248 | the same for booleans |
| Columns.Column.StringAt | column.go:145-190 | the text of the cell, for every type; fails only out of bounds, and panics exactly as reading its time does |
| Columns.Column.Strings | column.go:132-143 | the texts of all cells, a label expanded, unless a time is beyond the cache |
| Columns.Column.TimeAt | column.go:214-229 | gives the time of the cell; panics exactly when there is a cache that does not reach it |
| Columns.Column.Ints | column.go:74-90 | all cells, a label expanded, if and only if the type fits |
| Columns.Column.Floats | column.go:103-119 | the same for floats |
| Columns.Column.Bools | column.go:231-237 | as many booleans as the column has rows if and only if it is not a label, or one of size 1 |
| Columns.Column.Times | column.go:192-212 | the first call fills the cache, later ones give it back unchanged |
| Columns.Column.SliceOf | column.go:250-312 | succeeds if and only if 0 <= start < Len and start <= end <= Len, and keeps name, type and those cells |
| Columns.Column.Append | column.go:314-320 | one more cell, exactly for the values the kind and type accept, else no change |
| Columns.LabelAgreesWithSlice | column.go:43-130 | a label column and the slice column of its copies agree under every accessor at every index |
| Columns.SliceOfSlice | column.go:250-312 | slices of slices add their offsets, and the inner bounds are the outer length's |
| Columns.AppendAfterTimes | column.go:192-229 | appending after `Times` and reading the new row panics |
| Frames.Frame.Slice | frame.go:186-202 | succeeds if and only if 0 <= start <= end < Len, and slices every column and index |
| Frames.Frame.Lookup | frame.go:67-70 | finds the last column of a name, if there is one |
| Frames.FindLast | frame.go:67-70 | the last of several columns with a name |
| Frames.SliceCols | frame.go:278-290 | succeeds if and only if every column accepts the range |
| Frames.CheckEqualLen | frame.go:256-276 | accepts exactly equal lengths, and index columns only beside data columns |
| Frames.FromGoMap | pb/methods.go:67-90 | labels can be encoded if and only if they are booleans, float64s, integers, strings or times |
| Frames.NewFrame | frame.go:44-81 | succeeds if and only if lengths agree and labels can be encoded, and keeps what it is given |
| RowBuilder.BuildsIsOneClass | frame.go:99-138 | a column can be built only if all values of its name are of one class, and then has that type |
| RowBuilder.FromRowsKeepsRows | frame.go:99-138 | every column of a frame made from rows holds each row's value, and 0, NaN, empty, the epoch or false where a row has none |
| RowBuilder.BuildsIsUnique | frame.go:99-138 | rows and a name determine the column |
| RowBuilder.BuildsLength | frame.go:310-328 | a built column has one cell for each row |
| RowBuilder.OrderOnly | frame.go:103-135 | two frames built from the same rows have the same columns, up to order: map iteration matters for nothing else |
| RowBuilder.ExtendCol | frame.go:310-328 | pads a column up to a length with its type's zero |
| RowBuilder.AddToColumn | frame.go:114-117 | appends to a known column exactly when the value's class fits |
| RowBuilder.StartColumn | frame.go:330-348 | starts a column, padded for the rows before, exactly when the value has a class |
| RowBuilder.AddRow | frame.go:102-125 | after each row all columns stand for all rows so far; fails only if a name's values differ in class |
| RowBuilder.PadMissing | frame.go:120-125 | pads the columns that a row does not mention |
| RowBuilder.Partition | frame.go:128-135 | every column ends up on its own side, none twice, none lost |
| RowBuilder.LensAgree | frame.go:256-276 | lengths agree unless only index columns are left |
| RowBuilder.NotOkStays | frame.go:115-117 | a name with two classes cannot be mended by later rows |
| RowBuilder.NewFrameFromRows | frame.go:99-138 | succeeds if and only if each name has values of one class, labels can be encoded and some name is no index; each cell is the row's value, or 0, NaN, empty, the epoch or false where it is missing |
| RowIter.ResolvedIsIdentity | rowiter.go:59-79 | looking columns up by name finds each column itself if and only if at most one is unnamed |
| RowIter.ReadValue | rowiter.go:144-161 | the accessor for a column's type gives the value of the cell |
| RowIter.RowEntries | rowiter.go:163-168 | with distinct names a row holds each column's value under its name and nothing else |
| RowIter.NamesInRow | rowiter.go:67-70 | unnamed columns appear under `col-` or `index-` and their number, all others under their own name |
| RowIter.RowIterator.Init | rowiter.go:48-101 | an error exactly when two columns would share a name in a row |
| RowIter.RowIterator.GetRow | rowiter.go:139-171 | the row is assembled from all columns under their names |
| RowIter.RowIterator.Next | rowiter.go:103-117 | gives the rows one by one, stops after the last, reports the error of `init` for good |
| RowIter.StoredComesBack | rowiter.go:139-171 | a stored value comes back as it was: an integer as int64, a time as far as 64 bits of nanoseconds carry |
| RowIter.PaddingComesBack | rowiter.go:139-171 | padding comes back as int64 0, NaN, the empty string, the epoch or false |
| RowIter.CellComesBack | rowiter.go:139-171 | a built column gives back the row's value, or what stands for a missing one beside the values of its name |
| RowIter.RoundTripRow | frame.go:99-138 | row r of a frame made from rows is input row r, each missing value replaced by 0, NaN, the empty string, the epoch or false |
| RowIter.NamesStayDistinct | rowiter.go:72-75 | a frame made from rows with non-empty names never fails to iterate |
| RowIter.FrameLength | frame.go:166-172 | it has as many rows as the input, none if the input has no names |
| RowIter.CollectRows | rowiter.go:103-117 | a whole iteration gives exactly the frame's rows in order |
| RowIter.RowsThroughFrame | frame.go:99-138 | rows to frame to rows: succeeds if and only if the rows are in order, and gives back each row, with 0, NaN, the empty string, the epoch or false for missing values |
| KvBuilder.PrefillCell | backends/utils/utils.go:72-93 | padding before the first value differs from other padding exactly for times |
| KvBuilder.PrefillCellIsPrefill | backends/utils/utils.go:72-93 | before the first value a time cell holds the wrapped nanoseconds of the start of year 1, all others the usual padding |
| KvBuilder.SchemaObject | backends/kv/reader.go:89-93 | the rows that are skipped are those named `.#schema` |
| KvBuilder.KvFrameKeepsBatch | backends/kv/reader.go:81-159 | every column of the reader's frame holds the batch: prefill before its first row, then values and padding; `__name` alone is an index |
| KvBuilder.ColumnAgrees | backends/kv/reader.go:95-131 | the reader's column equals the other builder's exactly if no schema object came before and it is no late time column; otherwise it is longer by the schema objects |
| KvBuilder.BuildersAgree | backends/kv/reader.go:81-159 | the two builders' frames hold the same columns if and only if the batch is aligned |
| KvBuilder.AlignedIsEnough | backends/kv/reader.go:151-156 | on an aligned batch one builder succeeds if and only if the other does |
| KvBuilder.WithoutSchemaObject | backends/kv/reader.go:86-93 | without the schema object success is the same, and only late time columns differ |
| KvBuilder.PhantomRow | backends/kv/reader.go:86-93 | a schema object read first gives the frame a row that stands for no item |
| KvReader.KvSnoc | backends/kv/reader.go:113-131 | a cell for one more row keeps a column right |
| KvReader.KvFirst | backends/kv/reader.go:97-116 | a column that starts late is prefilled for the rows before |
| KvReader.KvWrong | backends/utils/utils.go:164-171 | a value of another class cannot be appended, and no frame of such rows exists |
| KvReader.AddFields | backends/kv/reader.go:95-117 | adds one item's fields in any order, and fails only if a name's values differ in class |
| KvReader.FillMissing | backends/kv/reader.go:119-131 | pads the columns that the item does not have |
| KvReader.SkipSchemaObject | backends/kv/reader.go:89-93 | the schema object adds no cell |
| KvReader.KvLens | backends/kv/reader.go:151-156 | lengths agree if and only if all names start behind equally many schema objects |
| KvReader.RemoveColumn | backends/utils/utils.go:146-156 | drops the first column of that name and nothing else |
| KvReader.MakeFrame | backends/kv/reader.go:143-158 | a frame if and only if the batch is well formed |
| KvReader.Iterator.Advance | backends/kv/reader.go:86-87 | the limit is looked at before an item is taken: none is lost between frames |
| KvReader.Iterator.ReadBatch | backends/kv/reader.go:85-132 | takes at most the limit, in delivery order, fewer only at the end |
| KvReader.Iterator.Next | backends/kv/reader.go:81-159 | one frame for one non-empty batch, each column cell by cell what the batch says; an error exactly from the cursor or from a batch that makes no frame |
| KvReader.ReadAll | backends/kv/reader.go:81-159 | a whole read ends; without an error its batches are an interleaving of all shards, all but the last exactly of the limit, and there is an error if a shard fails |
| AsyncCursor.ReplyEndsShard | v3ioutils/asynciter.go:168-201 | a shard goes on exactly after a page that is not its last |
| AsyncCursor.FailsIff | v3ioutils/asynciter.go:168-177 | a shard makes the cursor fail if and only if, after pages with more to come, a request is refused or answered with an error other than 404 |
| AsyncCursor.QuietEnd | v3ioutils/asynciter.go:168-173 | a 404 ends its shard without a failure, with the items of the pages before |
| AsyncCursor.PagesOnly | v3ioutils/asynciter.go:181-201 | a shard of pages never fails and has the items of all of them |
| AsyncCursor.OutstandingCount | v3ioutils/asynciter.go:164-201 | requests in flight or queued number the shards that are not finished |
| AsyncCursor.ReceiveIsOwed | v3ioutils/asynciter.go:164-166 | outstanding requests are `workers - lastShards`, so a receive is always owed an answer |
| AsyncCursor.WhenFinished | v3ioutils/asynciter.go:158-162 | `lastShards` never exceeds `workers`, and equals it exactly when every shard is finished |
| AsyncCursor.AnswerKeepsProtocol | v3ioutils/asynciter.go:168-201 | after any answer there is one request for each unfinished shard, for its next page, and less is left to come |
| AsyncCursor.AnswerKeepsDelivery | v3ioutils/asynciter.go:181-183 | what was delivered and what is held back is what the shards have answered |
| AsyncCursor.LogInterleaves | v3ioutils/asynciter.go:208-220 | a log of deliveries is an interleaving of its shards' parts |
| AsyncCursor.InterleavingConserves | v3ioutils/asynciter.go:208-220 | an interleaving holds exactly the items of its parts, with multiplicity |
| AsyncCursor.Complete | v3ioutils/asynciter.go:142-156 | what a cursor delivers before it stops is the beginning of an interleaving of everything |
| AsyncCursor.DrainedIsComplete | v3ioutils/asynciter.go:158-162 | a finished and emptied cursor has delivered everything, and no shard failed |
| AsyncCursor.Container.Receive | v3ioutils/asynciter.go:164-166 | any outstanding request may be the next answered |
| AsyncCursor.AsyncItemsCursor.AwaitResponse | v3ioutils/asynciter.go:164-166 | the answer is to the next page of its shard |
| AsyncCursor.AsyncItemsCursor.ReceiveResponse | v3ioutils/asynciter.go:164-201 | keeps the invariant and uses up a page, or fails with the error of a shard that fails |
| AsyncCursor.AsyncItemsCursor.NextItem | v3ioutils/asynciter.go:139-205 | delivers the next item of one shard, or stops with everything delivered or the limit passed; its recursion ends |
| AsyncCursor.AsyncItemsCursor.DeliveredSoFar | v3ioutils/asynciter.go:139-205 | never more than the shards hold; once drained, an interleaving of all of it |
| AsyncCursor.AsyncItemsCursor.LastDelivered | v3ioutils/asynciter.go:142-156 | the item delivered last is one that its shard holds |
| AsyncCursor.AsyncItemsCursor.Next | v3ioutils/asynciter.go:127-136 | false without an error only when drained or at the limit |
| AsyncCursor.AsyncItemsCursor.All | v3ioutils/asynciter.go:208-220 | without a limit fails if and only if some shard fails (a refusal, or an error other than 404, after pages), with that error, else an interleaving of all shards; with one, min(total, limit + 1) items that begin an interleaving |
| AsyncCursor.NewAsyncItemsCursor | v3ioutils/asynciter.go:58-114 | one request for each lane, as many lanes as sharding keys or workers, and failure exactly if one is refused |
| Schema.AbsorbIsJoin | v3ioutils/schema.go:128-144 | one step of the merge takes the least upper bound, or fails on a time and another type |
| Schema.AbsorbSnoc | v3ioutils/schema.go:128-144 | step by step it takes the least upper bound of all types so far |
| Schema.MergeFieldView | v3ioutils/schema.go:120-149 | one incoming field, seen through the lookup, changes its own name only |
| Schema.MergeIsJoin | v3ioutils/schema.go:118-157 | a merge succeeds if and only if each type may follow the one before, and then each name has the join of its old and all incoming types |
| Schema.MergeKeepsFields | v3ioutils/schema.go:118-157 | no field is removed or moved, no type goes down, and `changed` says whether any field differs, on errors too |
| Schema.MergeInTwo | v3ioutils/schema.go:118-157 | merging a list at once or in two parts is the same |
| Schema.NeverFails | v3ioutils/schema.go:128-144 | over long, double and string no merge fails |
| Schema.MergeAllIsMerge | v3ioutils/schema.go:160-179 | merging schemas one after the other is merging their concatenation |
| Schema.OrderDoesNotMatter | v3ioutils/schema.go:118-157 | over long, double and string every order of the schemas gives every name the same type |
| Schema.OrderMattersWithTimes | v3ioutils/schema.go:138-142 | a string may follow a time, a time may not follow a string |
| Schema.FindField | v3ioutils/schema.go:121-126 | the lookup takes the last match |
| Schema.OldV3ioSchema.AddColumn | v3ioutils/schema.go:76-92 | appends a field: long, double, string or time for such a column, no type for a boolean one |
| Schema.OldV3ioSchema.AddField | v3ioutils/schema.go:95-111 | appends a field of the value's type: long for int, int32 and int64, none for int8, int16 and booleans |
| Schema.OldV3ioSchema.Merge | v3ioutils/schema.go:118-157 | the loop computes the merge; `changed` if and only if fields or key differ, also on an error |
| Schema.OldV3ioSchema.UpdateSchema | v3ioutils/schema.go:160-179 | writes the schema back exactly when the merge changed it; fails if and only if the merge does or the store refuses |
| Schema.MergeCovers | v3ioutils/schema.go:118-157 | after a merge every incoming field and every earlier one is covered by a type at least as wide |
| Schema.NewName | v3ioutils/schema.go:145-148 | a name that is new and comes in once has the type it came in with |
| Schema.RunKeepsStored | backends/kv/writer.go:100-124 | along any error-free run the stored schema is the one in memory and covers all fields so far |
| KvWriter.ValidColName | backends/kv/writer.go:236-243 | replaces each blank and colon by an underscore, and nothing else |
| KvWriter.AttributesOfFrame | backends/kv/writer.go:95-113 | an attribute holds the last column of that name; no column is lost if and only if the replaced names stay distinct |
| KvWriter.NamesCollide | backends/kv/writer.go:236-243 | two different names become one attribute |
| KvWriter.PutOfRow | backends/kv/writer.go:131-150 | the put for row r: the path with the text of the index cell r, exactly the columns' names, and under each the cell r of its last column, an integer as `int`, a time as its text |
| KvWriter.NewNamesAreTyped | backends/kv/writer.go:100-124 | a column whose attribute is new has its own type in the schema afterwards |
| KvWriter.SchemaOf | backends/kv/writer.go:95-119 | the columns by attribute, and the schema of columns and labels in any label order |
| KvWriter.Appender.Add | backends/kv/writer.go:85-161 | the puts are those of the first rows in order, path and attributes cell by cell; `sent` counts the accepted ones also on errors; each failure if and only if its reason; the schema is updated first |
| KvWriter.Appender.PutRows | backends/kv/writer.go:131-158 | the puts of the first rows, cell by cell; stops if and only if the store refuses one |
| KvWriter.AddAll | backends/kv/writer.go:85-161 | a run of frames puts every row once, each with its own cells; without booleans the stored schema is the one in memory and is wide enough for every column and label |
| KvWriter.CoversItsFrame | backends/kv/writer.go:100-124 | wide enough: an integer as long, double or string, a float as double or string, a time as time or string |
| WaitLoops.RespWaitLoop.Response | backends/kv/writer.go:325-339 | counts the answer, keeps its error, and is done exactly at the announced number |
| WaitLoops.RespWaitLoop.Count | backends/kv/writer.go:341-345 | done if the announced number is met already |
| WaitLoops.RespWaitLoop.Timer | backends/kv/writer.go:347-354 | the first idle period clears the flag, the second gives up with an error |
| WaitLoops.StepKeepsInvariant | backends/kv/writer.go:314-357 | sends, answers, the count, the timer and the hand-over keep: sent = in flight + queued + received, and a running loop is short of the announced number |
| WaitLoops.ReachableInvariant | backends/kv/writer.go:314-357 | it holds after every schedule; the equality test is never jumped over and done is signalled once |
| WaitLoops.CompleteMeansComplete | backends/kv/writer.go:246-251 | `WaitForComplete` without an error means that all sent requests were answered and none failed |
| WaitLoops.ErrorIff | backends/kv/writer.go:246-251 | `WaitForComplete` reports an error if and only if a received answer was a failure or the loop gave up idle |
| WaitLoops.FailuresAreAnswers | backends/kv/writer.go:331-334 | the failures seen and still queued are the failed answers of the store |
| WaitLoops.RunningLoopIsOwed | backends/kv/writer.go:322-346 | a loop that still runs after the announcement has an answer or the count to come |
| WaitLoops.GivesUpIff | backends/kv/writer.go:347-354 | left alone, the loop can give up if and only if it has as many ticks left as it needs |
| WaitLoops.ResponseRearms | backends/kv/writer.go:325-329 | after a response the loop can give up idle exactly if a tick was waiting already |
| WaitLoops.HangIsReachable | backends/kv/writer.go:347-354 | a schedule after which it has none left and waits for an answer that may never come |
| DeleteWait.RespWaitLoop | v3ioutils/container.go:118-160 | stops at the first event that is the last answer, a count already met, or a second idle period |
| DeleteWait.StillShort | v3ioutils/container.go:137-146 | while the loop goes on the announced number is not reached |
| DeleteWait.TimeoutsBounded | v3ioutils/container.go:148-154 | timeouts that do not end the loop are at most as many as the answers |
| DeleteWait.SecondTimeoutStops | v3ioutils/container.go:148-154 | two timeouts without an answer between them end the loop |
| DeleteWait.TimeoutStopsIff | v3ioutils/container.go:148-154 | a timeout ends the loop if and only if no answer has come since the one before: the first after an answer does not |
| DeleteWait.LoopEnds | v3ioutils/container.go:118-160 | with r answers and one announcement the loop ends by event 2r + 2 |
| DeleteWait.AllAnsweredStops | v3ioutils/container.go:137-146 | all answers and the announcement, in any order, end the loop |
| DeleteWait.DoneMeansAnswered | v3ioutils/container.go:118-160 | an end that is no timeout means that all announced requests were answered |
| DeleteWait.DeleteItems | v3ioutils/container.go:89-104 | one delete request for each item delivered, in order; all shards' items if nothing fails |
| DeleteWait.DeleteTable | v3ioutils/container.go:74-116 | the table object is deleted last, after a request for every item of every shard exactly once, by its name; every other outcome has its reason |
| WritePipeline.ApiWrite | api/api.go:117-169 | frames and rows are counted as added, in order, up to the first refusal; success if and only if nothing was refused, then all are added and, exactly with rows, completed |
| WritePipeline.RowsAdd | api/api.go:150-151 | rows are summed up, each frame's once |
| WritePipeline.FramesAdd | grpc/server.go:183-190 | the frames of a stream are those of its messages in order |
| WritePipeline.StepAccounts | grpc/server.go:173-191 | a step of either side loses, repeats or reorders no frame |
| WritePipeline.StepKeepsInvariant | grpc/server.go:161-194 | every step of producer and consumer keeps the invariant |
| WritePipeline.ReachableInvariant | grpc/server.go:161-194 | it holds after every schedule, whatever the backend answers |
| WritePipeline.NothingLost | api/api.go:142-153 | initial frame and frames received = frames added, then the consumer's, the channel's and the producer's |
| WritePipeline.ResponseMeansAllAdded | grpc/server.go:193-207 | a response reports the number of frames and rows added, which are all of the request and stream in order, completed if there are rows |
| WritePipeline.FailingIsRefused | api/api.go:131-166 | the write counts as failed if and only if the backend refused something |
| WritePipeline.RefusedRunsNeverRespond | grpc/server.go:196-200 | a refusal is never answered with a response |
| WritePipeline.FailureStopsReading | grpc/server.go:173-191 | once the write has failed, the handler receives at most the message it has set out to receive |
| WritePipeline.EveryStepCounts | grpc/server.go:161-194 | each step uses up some of a finite measure |
| WritePipeline.RunsEnd | grpc/server.go:161-194 | with n messages no run has more than 6n + 11 steps |
| WritePipeline.StuckIff | grpc/server.go:161-194 | a run stops if and only if both sides are through, the handler blocks on a channel nobody reads, or it has left a consumer behind |
| WritePipeline.UnrefusedRunsReturn | grpc/server.go:135-208 | without a refusal the handler returns, with a response if and only if the stream is well formed |
| WritePipeline.BlocksIff | grpc/server.go:190 | the handler of a client can block for ever if and only if the first two messages carry frames |
| TsdbWriter.NewLset | backends/tsdb/writer.go:222-246 | exactly those labels, whatever the order of the map; refused if and only if `__name__` is set beside several columns |
| TsdbWriter.LsetHasLabels | backends/tsdb/writer.go:222-246 | label by label: each frame label with its value, `__name__` with itself, the column under `__name__` if none hides it, each extra index under its name, and no other |
| TsdbWriter.NameLabelHidesColumn | backends/tsdb/writer.go:226-237 | two columns get the same label set if and only if they have one name or a `__name__` label hides it |
| TsdbWriter.Compare | backends/tsdb/writer.go:187-193 | tells whether the extra index values changed, and remembers the new ones |
| TsdbWriter.RowMajor | backends/tsdb/writer.go:153-168 | the samples of a frame are those of row 0, then row 1, column by column |
| TsdbWriter.StillCached | backends/tsdb/writer.go:208-215 | a cached reference is good for every row with the same extra index values |
| TsdbWriter.FastRow | backends/tsdb/writer.go:208-215 | appending by reference stores the samples that looking up would; stops if and only if the store refuses |
| TsdbWriter.LookUpRow | backends/tsdb/writer.go:195-207 | looks up one series for each column, stores the row and caches the references |
| TsdbWriter.WriteSingle | backends/tsdb/writer.go:137-168 | one lookup for each column; out of order if and only if the first time is after the last |
| TsdbWriter.WriteMulti | backends/tsdb/writer.go:171-216 | lookups = columns times runs of equal index values; panics if and only if the first row's extra values are all empty |
| TsdbWriter.MillisTruncate | backends/tsdb/writer.go:108-111 | two truncating divisions are one; times before the epoch are rounded up |
| TsdbWriter.SampleOfCell | backends/tsdb/writer.go:102-135 | the sample of a cell: its row's time cut to milliseconds toward the epoch, the number of the last column of its name, and exactly the labels of frame, column and row |
| TsdbWriter.StoredSamples | backends/tsdb/writer.go:153-216 | sample number q stored is that of cell (q / columns, q mod columns) |
| TsdbWriter.TupleOfRow | backends/tsdb/writer.go:173-180 | which index values become its labels |
| TsdbWriter.OneRun | backends/tsdb/writer.go:153-168 | without extra indices a frame is one run |
| TsdbWriter.FindTimeIndex | backends/tsdb/writer.go:92-100 | the time index is the last of its type |
| TsdbWriter.ReadValues | backends/tsdb/writer.go:114-135 | numbers of all columns if and only if all are ints or floats |
| TsdbWriter.ReadIndices | backends/tsdb/writer.go:173-180 | names and texts of all indices but the time |
| TsdbWriter.TsdbAppender.Add | backends/tsdb/writer.go:74-217 | every stored sample is that of its cell, row by row, all of them on success: what a writer that looks up every sample stores; refusals, panic and failure exactly when they occur, before anything is stored |
| Marshal.NumberThroughBytes | marshal.go:56-58 | a number that fits survives its little-endian bytes |
| Marshal.BytesThroughNumber | marshal.go:86-93 | bytes survive the number they stand for |
| Marshal.SizeThroughHeader | marshal.go:56-93 | every int64 size survives its header |
| Marshal.HeaderThroughSize | marshal.go:56-93 | every 8 bytes are the header of the size they read as |
| Marshal.EncodedBytes | marshal.go:49-70 | an encoding is eight bytes of size, least significant first, and the message |
| Marshal.DecodeStream | marshal.go:85-110 | whole messages decode to themselves, whatever follows |
| Marshal.RoundTrip | marshal.go:49-110 | decoding the encodings of any list gives the list and then io.EOF |
| Marshal.CleanEndMeansWhole | marshal.go:86-93 | io.EOF is reported only at the end of an encoded list, which is the one decoded |
| Marshal.Truncation | marshal.go:85-110 | a stream cut anywhere gives its complete messages, and io.EOF if and only if it was cut between messages and closed properly |
| Marshal.Encoder.Encode | marshal.go:49-70 | on success those bytes are written, on failure a part of them; succeeds if and only if nothing is refused |
| Marshal.EncodeAll | marshal.go:49-70 | what is written before a failure is whole messages and a part of one |
| Marshal.Reader.ReadUpTo | marshal.go:95-103 | chunks of any size add up to n bytes, fewer only at the end |
| Marshal.Decoder.Decode | marshal.go:85-110 | one decode does what the specification says of the bytes ahead, and consumes that message |
| Marshal.StreamFrameIterator.Next | http/client.go:243-266 | only io.EOF ends the iteration without an error |
| Marshal.ReadFrames | http/client.go:243-266 | a client's loop gives all messages, and is clean if and only if the last decode said io.EOF |
| Marshal.ReadTruncated | http/client.go:243-266 | a client takes a cut stream for whole only if just whole messages are missing |
| Csv.CellRoundTrip | backends/csv/backend.go:347-379 | in a column of its type a printed cell reads back as itself and nothing else; integers and booleans have that type by themselves |
| Csv.TypeOfMeans | backends/csv/backend.go:347-379 | which type a text has: time, a word of any case, integer, float, and else string, in this order |
| Csv.CellOfTextMeans | backends/csv/backend.go:257-345 | what cell a text becomes in a column of a type, floats and times included, and when none |
| Csv.DigitsBecomeIntegers | backends/csv/backend.go:366-369 | the string 12 reads back as an integer |
| Csv.BuildColumn | backends/csv/backend.go:259-342 | a column of the type that the first text has, each text read as that, if and only if all texts have it or it is string |
| Csv.BuildFrame | backends/csv/backend.go:257-345 | a frame if and only if every column fits |
| Csv.FrameIterator.ReadNextRows | backends/csv/backend.go:220-243 | takes exactly the records that both limits allow, and fails exactly if one of them is bad |
| Csv.FrameIterator.Next | backends/csv/backend.go:188-208 | one frame for one non-empty chunk, an error for a chunk that makes none |
| Csv.ChunksCover | backends/csv/backend.go:245-255 | chunks hold every row once, none is empty, all but the last have the frame limit |
| Csv.OneChunk | backends/csv/backend.go:220-255 | one call takes one chunk of what the limit leaves |
| Csv.LimitTakes | backends/csv/backend.go:245-248 | a limit lets the first so many records through, or all |
| Csv.ReadAll | backends/csv/backend.go:188-255 | a whole reading ends and gives one frame for each chunk up to the first bad one, all of them if and only if there is no error |
| Csv.CsvAppender.RecordOf | backends/csv/backend.go:399-415 | a record if and only if every column reaches the row, with the text of each cell |
| Csv.CsvAppender.Add | backends/csv/backend.go:388-424 | one header for all frames, then a record for each row with the texts of its cells; fails if and only if a column is short or the writer refuses |
| Csv.WriteAll | backends/csv/backend.go:388-424 | the records of frames with the same columns are the names and then all rows |
| Csv.ColumnRoundTrip | backends/csv/backend.go:257-345 | a column of printed cells reads back if and only if its first cell is plain |
| Csv.ChunkRoundTrip | backends/csv/backend.go:257-345 | a chunk of printed rows reads back if and only if its first row is plain |
| Csv.ReadingRoundTrip | backends/csv/backend.go:188-379 | written rows read back in chunks, with names and types, if and only if every chunk starts plain |
| Csv.WriteAndRead | backends/csv/backend.go:188-424 | the same for frames written and read, under any two limits |

## Left out

- Remote stores, HTTP and gRPC transport, the file system, sessions, configuration, logging, routing and
  the Python clients: a store is a class whose answers are open.
- Protobuf and JSON bodies: a message is a byte string that unmarshalling accepts or not.
- Floats are real numbers or NaN: rounding (also of `float64(int)`), infinities and signed zeros are not modelled.
- Times carry an instant and no zone; time and float formatting and parsing are parameters. `Csv.Plain`
  assumes that the time parsers take no decimal integer, "true" or "false" for a time.
- Quoting in encoding/csv: the CSV theorems are about records. A record of one empty string, which that
  library writes as an empty line and skips when reading, is not modelled.
- Aliasing of Go arrays after `Slice` and then `Append`: columns hold values.
- Frames decoded from protobuf with columns of different lengths: `TsdbWriter` and `KvWriter` take the
  frames that `NewFrame` makes. Frame arguments there and in `Csv` are values, since they are only read.
- AsyncCursor.AsyncItemsCursor.NextItem: split into three methods; a request is a value with a marker
  and not an object that is changed and sent again. The 1000 places of the response channel are not
  bounded, since there are never more requests than lanes in the runs that are modelled.
- WaitLoops.ReachableInvariant: `doneChan` exists before it is used; the code makes it in the goroutine.
- WaitLoops.CompleteMeansComplete: the loop is assumed to start with the appender, and `WaitForComplete`
  to be called once.
- WritePipeline.StepKeepsInvariant: the assignment of the three results of `API.Write` is one step, and
  a read of the error never sees half of it.
- WritePipeline.ApiWrite: the backend's `Write` is taken to add the initial frame, as the backends do.
- TsdbWriter.NewLset: a label set has no order; the library's sort leaves that of equal names open.
- TsdbWriter.WriteMulti: the store is assumed to keep a reference for the label set it was given for.
- Marshal.Writer.Write: keeps the contract of io.Writer, so that a short write is an error.
- DeleteWait.DeleteTable: requests carry item names; paths and their escaping are not modelled. The wait between the loop and the table object is `RespWaitLoop`, which is
  modelled beside it and not inside.
- KvWriter.Appender.Add: expression mode (`update`, `genExpr`) rests on strings.NewReplacer.
- KvReader.ReadAll: is about a positive message limit; `Iterator.Next` covers the others, which read nothing.
- `NewFrameFromMap`, `NewFrameFromProto`, the stream backend and the TSDB reader: easy members, or library code.
