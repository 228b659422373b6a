# GrugTSDB fixed-width record store, in Dafny

A model of the storage core of GrugTSDB, a small time-series database.
A bucket is a schema and a data file. The schema is an ordered list of typed
fields: INT, LONG, DOUBLE, BOOLEAN or fixed-size STRING. The data file is a
sequence of fixed-width records, one per write. Writes append a record
field by field in big-endian form. Strings are zero-padded or truncated to
their field size, and read back up to the first zero byte. Reads address
record `i` at byte `i * recordSize`: the most recent record, all records,
or the records whose `timestamp` field lies in a window. Aggregate reads
sum, average, or take the minimum or maximum of one numeric field over
such a window.

The model covers the three generations of the engine: `engine/Engine.java`,
the earlier `Engine.java`, and `DB.java`. They share their write and read
code, and differ in bucket creation and aggregation. It also covers the
string codecs of `Utils.java`, the action-name parsers of the three server
generations, and `CreateBucketAction.hasTimestamp`.

Modules, in dependency order:

- `Wrappers`, `Errors`: `Option`, `Result` with `:-`, and the exceptions the
  engine throws, one constructor each.
- `Bytes`: big-endian two's-complement codecs for `int` and `long`, and the
  64-bit pattern of a `double`.
- `StringCodec`: `stringToByteArray`, `byteArrayToString` and their
  256-byte variants.
- `Schema`: fields, widths, `calculateRecordSize`, and records as maps from
  field name to value.
- `FieldCodec`: one field written and read.
- `RecordIO`: one record written and read, field by field.
- `Store`: the bucket, `writeToBucket`, `readMostRecent` and `readAll`.
  `StoreProperties` holds the round-trip and append lemmas.
- `TimeRange`: `readInTimeRange` as written, and a realigned reference scan.
- `Aggregation`: `aggregateRead`, `calculateAggregateInTimeRange` and its
  four wrappers, all over `readInTimeRange` as written, and the intended
  aggregate over the realigned scan.
- `Registry`: `createBucket` in both forms, and start-up recovery.
- `ServerActions`, `ClientActions`, `GrugActions`, `ActionHistory`: the
  action enums and how they relate.

A bucket is the value `Bucket(name, fields, recordAmount, data)`: `data` is
the file's contents and the append cursor is its end. Every operation is a
function from that value to a result. An operation that throws returns an
`Err` carrying the exception, or an outcome recording the state the failure
left behind.

## Model

| member | source | states |
|---|---|---|
| Bytes.IntRoundTrip | src/main/java/org/tatuaua/grugtsdb/engine/Engine.java:107 | `writeInt` then `readInt` gives back every 32-bit value (4 bytes, big-endian two's complement). |
| Bytes.LongRoundTrip | src/main/java/org/tatuaua/grugtsdb/engine/Engine.java:111 | `writeLong` then `readLong` gives back every 64-bit value. |
| Bytes.LongBytesRoundTrip | src/main/java/org/tatuaua/grugtsdb/engine/Engine.java:200 | Any 8 bytes read as a `long` re-encode to the same bytes, so the decoded timestamp is unique to its bytes. |
| Bytes.BitsRoundTrip | src/main/java/org/tatuaua/grugtsdb/engine/Engine.java:109 | `writeDouble`/`readDouble` keep the 64-bit pattern of a double. |
| StringCodec.StringToByteArray | src/main/java/org/tatuaua/grugtsdb/Utils.java:31-37 | The buffer has exactly `bufferSize` bytes: byte `i` is the string's byte `i` while there is one, else 0. A negative size throws NegativeArraySize. `null` is treated as the empty string. |
| StringCodec.StringTo256ByteArray | src/main/java/org/tatuaua/grugtsdb/Utils.java:23-29 | The same for a fixed 256-byte buffer. |
| StringCodec.ByteArrayToString | src/main/java/org/tatuaua/grugtsdb/Utils.java:55-69 | The result is the longest zero-free prefix of the buffer. It stops at the first zero byte. `null` gives "". |
| StringCodec.ByteArray256ToString | src/main/java/org/tatuaua/grugtsdb/Utils.java:39-53 | A buffer that is `null` or not 256 bytes long gives ""; otherwise the same as the general decoder. |
| StringCodec.StringRoundTrip | src/main/java/org/tatuaua/grugtsdb/Utils.java:31-69 | Encoding into `size` bytes then decoding gives the stored prefix of the string. |
| StringCodec.StringRoundTripExact | src/main/java/org/tatuaua/grugtsdb/Utils.java:31-69 | A zero-free string that fits its buffer reads back exactly. |
| StringCodec.StringRoundTripTruncates | src/main/java/org/tatuaua/grugtsdb/Utils.java:31-69 | A zero-free string longer than its buffer reads back cut to the buffer size. |
| StringCodec.NullEncodesToZeros | src/main/java/org/tatuaua/grugtsdb/Utils.java:32 | A `null` string is stored as zeros and reads back as "". |
| StringCodec.String256RoundTrip | src/main/java/org/tatuaua/grugtsdb/Utils.java:23-53 | A zero-free string of at most 256 bytes survives the 256-byte codec. |
| FieldCodec.EncodeField | src/main/java/org/tatuaua/grugtsdb/engine/Engine.java:105-113 | A field's encoding succeeds iff the value has the field's boxed type (and a STRING size is non-negative). The bytes are then exactly the field's width. A wrong type throws ClassCast before any buffer is allocated. |
| FieldCodec.ReadLong | src/main/java/org/tatuaua/grugtsdb/engine/Engine.java:200-201 | Reading a timestamp succeeds iff 8 bytes remain; the value is the one those bytes encode. Running off the end throws EndOfFile. |
| FieldCodec.ReadField | src/main/java/org/tatuaua/grugtsdb/engine/Engine.java:305-318 | Reading one field succeeds iff its width is non-negative and fits the file. The cursor advances by the width; the value has the field's type. The errors are NegativeArraySize or EndOfFile. |
| FieldCodec.FieldRoundTrip | src/main/java/org/tatuaua/grugtsdb/engine/Engine.java:305-318 | A field written anywhere in a file is read back at that offset as the stored value, and the cursor ends just after it. |
| FieldCodec.StoredExact | src/main/java/org/tatuaua/grugtsdb/engine/Engine.java:110 | Only strings are altered by storage, and a zero-free string that fits its size is not. |
| Schema.CalculateRecordSize | src/main/java/org/tatuaua/grugtsdb/engine/Engine.java:320-333 | The record size is 4 per INT, 1 per BOOLEAN, 8 per DOUBLE or LONG, plus the declared sizes of the STRING fields. |
| Schema.RecordSizeByType | src/main/java/org/tatuaua/grugtsdb/DB.java:235-260 | The same count by type, as `DB.calculateRecordSize` adds it up with separate DOUBLE and LONG cases. |
| Schema.RecordSizeIgnoresNonStringSize | src/main/java/org/tatuaua/grugtsdb/Engine.java:297-310 | The declared size of a non-STRING field never changes the record size. |
| Schema.OffsetBounds | src/main/java/org/tatuaua/grugtsdb/engine/Engine.java:168-170 | With non-negative sizes each field lies inside the record, directly after the one before it. |
| Schema.ToRecordLookup | src/main/java/org/tatuaua/grugtsdb/engine/Engine.java:305-318 | In the response map a field name the schema does not repeat maps to the value read for that field. |
| RecordIO.ReadSlices | src/main/java/org/tatuaua/grugtsdb/engine/Engine.java:168-170 | The per-field read loop succeeds iff every remaining width is non-negative and the record fits the file. It yields one byte string per field, of that field's width, and ends past the record. |
| RecordIO.ReadValues | src/main/java/org/tatuaua/grugtsdb/engine/Engine.java:168-170 | A record reads successfully iff the sizes are valid and it fits, and the cursor ends `recordSize` further on. |
| RecordIO.ReadValuesPrefix | src/main/java/org/tatuaua/grugtsdb/engine/Engine.java:89-117 | Appending to the file never changes what an earlier, complete record reads as. |
| RecordIO.RecordRoundTrip | src/main/java/org/tatuaua/grugtsdb/engine/Engine.java:105-113 | A record's values written at any offset read back there as the stored values. |
| RecordIO.AppendValues | src/main/java/org/tatuaua/grugtsdb/engine/Engine.java:105-114 | The write loop appends nothing but a prefix of the record's bytes, and succeeds iff every value fits its field. |
| RecordIO.AppendValuesPartial | src/main/java/org/tatuaua/grugtsdb/engine/Engine.java:105-113 | When a value does not fit, the bytes of every field before the first misfit are already in the file when the write throws. |
| Store.CollectValues | src/main/java/org/tatuaua/grugtsdb/engine/Engine.java:96-103 | Validation succeeds iff every schema field has a value. On failure it names the first field without a value, in schema order. |
| Store.WriteToBucket | src/main/java/org/tatuaua/grugtsdb/engine/Engine.java:89-117 | A write fails without touching the file when a field is missing, naming the first missing field in schema order. It succeeds iff every value fits, appending exactly one record and counting it. Otherwise the count is unchanged but the file may have grown. The same code is `Engine.java:63-91` and `DB.java:58-97`. |
| Store.WriteToBucketAtomic | src/main/java/org/tatuaua/grugtsdb/engine/Engine.java:95 | The all-or-nothing write the validation comment asks for fails exactly when the write as written fails, with the same error. It never changes the bucket on failure and matches it on success. |
| Store.ReadMostRecent | src/main/java/org/tatuaua/grugtsdb/engine/Engine.java:119-148 | An empty bucket is refused. Otherwise the result is the record at index `recordAmount-1`. The same code is `Engine.java:93-122` and `DB.java:99-137`. |
| Store.ReadAll | src/main/java/org/tatuaua/grugtsdb/engine/Engine.java:151-177 | An empty bucket is refused. Otherwise the loop returns the records at indices `0..recordAmount-1` in order, stopping at the first failing read. The same code is `Engine.java:125-151` and `DB.java:140-166`. |
| Store.ScanAllOk | src/main/java/org/tatuaua/grugtsdb/engine/Engine.java:164-173 | When every index reads, the scan returns all of them in index order. |
| StoreProperties.ReadAllAddressesRecords | src/main/java/org/tatuaua/grugtsdb/engine/Engine.java:164-173 | For a bucket whose file holds exactly `recordAmount` records, `readAll` returns `recordAmount` records, record `i` decoded from bytes `[i*recordSize, (i+1)*recordSize)`. |
| StoreProperties.MostRecentIsLastOfAll | src/main/java/org/tatuaua/grugtsdb/engine/Engine.java:119-177 | `readMostRecent` is the last record of `readAll`. |
| StoreProperties.WrittenRecordReadsBack | src/main/java/org/tatuaua/grugtsdb/engine/Engine.java:89-148 | After a successful write, the new last record reads back as the written values. |
| StoreProperties.WriteAppendsOneRecord | src/main/java/org/tatuaua/grugtsdb/engine/Engine.java:89-177 | A successful write keeps the file aligned. `readAll` afterwards is the old `readAll` followed by the written record. |
| StoreProperties.WriteThenReadMostRecent | src/main/java/org/tatuaua/grugtsdb/engine/Engine.java:89-148 | Reading the most recent record right after a write yields the written record. |
| StoreProperties.WrittenFieldValue | src/main/java/org/tatuaua/grugtsdb/engine/Engine.java:105-113 | With unique field names, each field of the written record holds the stored form of its value: exact for a zero-free string that fits. |
| StoreProperties.AtomicWriteKeepsAligned | src/main/java/org/tatuaua/grugtsdb/engine/Engine.java:95 | The corrected write keeps every aligned bucket aligned. |
| StoreProperties.PartialWriteOnTypeMismatch | src/main/java/org/tatuaua/grugtsdb/engine/Engine.java:105-113 | Counterexample: writing a `long` into the INT field of a (timestamp LONG, value INT) bucket throws ClassCast after 8 bytes are appended. The file is left misaligned. |
| StoreProperties.AtomicWriteOnTypeMismatch | src/main/java/org/tatuaua/grugtsdb/engine/Engine.java:95 | The corrected write fails on that input with the same error and leaves the bucket untouched. |
| TimeRange.OutsideWindow | src/main/java/org/tatuaua/grugtsdb/engine/Engine.java:199-205 | Only a field named `timestamp` is checked. It reads 8 bytes (EndOfFile when they are missing) and reports "outside" iff the decoded value is not in `[start, end]`. |
| TimeRange.VisitFields | src/main/java/org/tatuaua/grugtsdb/engine/Engine.java:197-209 | When the field loop runs through, it has read one byte string per field, each of the field's width. |
| TimeRange.ScanTimeRange | src/main/java/org/tatuaua/grugtsdb/engine/Engine.java:179-220 | The method refuses an empty bucket and otherwise computes the as-written time-range result. The same code is `Engine.java:153-194` and `DB.java:168-209`. |
| TimeRange.ScanLoop | src/main/java/org/tatuaua/grugtsdb/engine/Engine.java:192-216 | The `while (position < recordSize*recordAmount)` loop performs exactly `recordAmount` field loops, with the cursor left where the previous one stopped. |
| TimeRange.Iterations | src/main/java/org/tatuaua/grugtsdb/engine/Engine.java:192 | The loop runs `recordAmount` times when the record size is positive and not at all otherwise. |
| TimeRange.VisitMatchesRead | src/main/java/org/tatuaua/grugtsdb/engine/Engine.java:197-209 | On bytes where a whole record reads, the field loop runs through iff every timestamp in it lies in the window. It then cuts the same slices and ends at the same place as `readAll`. |
| TimeRange.KeptIffInWindow | src/main/java/org/tatuaua/grugtsdb/engine/Engine.java:199-205 | For a schema with at most one `timestamp` field, of type LONG, a decoded record is in the window iff its raw timestamp bytes are. |
| TimeRange.VisitAligned | src/main/java/org/tatuaua/grugtsdb/engine/Engine.java:192-216 | Visited at its own offset, record `i` of an aligned bucket is emitted iff it is in the window. When it is, the cursor ends at record `i+1`. |
| TimeRange.NoTimestampReadsAll | src/main/java/org/tatuaua/grugtsdb/engine/Engine.java:179-220 | Without a `timestamp` field the time-range read returns exactly `readAll`, errors included. |
| TimeRange.TimestampFirstStops | src/main/java/org/tatuaua/grugtsdb/engine/Engine.java:199-204 | With the timestamp as first field, a record outside the window leaves the cursor where the record starts. |
| TimeRange.TimestampFirstTakesWhile | src/main/java/org/tatuaua/grugtsdb/engine/Engine.java:199-215 | With the timestamp first, the as-written scan returns the records of `readAll` up to, not including, the first one outside the window. |
| TimeRange.TimeRangeMissesLaterRecord | src/main/java/org/tatuaua/grugtsdb/engine/Engine.java:199-215 | Counterexample: with timestamps 200 then 100 and window [0,150], the as-written scan returns nothing. The realigned scan returns the record stamped 100. |
| TimeRange.RealignedFilters | src/main/java/org/tatuaua/grugtsdb/engine/Engine.java:179-220 | The corrected scan, which seeks to `i*recordSize` for every record, returns exactly the records of `readAll` in the window, in file order. |
| TimeRange.RealignedAgreesWithoutTimestamp | src/main/java/org/tatuaua/grugtsdb/engine/Engine.java:179-220 | Without a `timestamp` field the corrected and as-written scans agree. |
| TimeRange.TakeWhileIsFilterOnPrefix | src/main/java/org/tatuaua/grugtsdb/engine/Engine.java:211-214 | When dropped records only come after kept ones, taking while kept equals filtering. |
| TimeRange.FilterKeeps | src/main/java/org/tatuaua/grugtsdb/engine/Engine.java:211-214 | The filtered window is no longer than the input, and each member is kept and comes from the input. |
| TimeRange.AllKept | src/main/java/org/tatuaua/grugtsdb/engine/Engine.java:211-214 | A window containing every record filters to all of them. |
| Aggregation.ParseOp | src/main/java/org/tatuaua/grugtsdb/engine/Engine.java:224-231 | Exactly `sum`, `avg`, `min` and `max` are accepted, each as the operation of that name. |
| Aggregation.Lower | src/main/java/org/tatuaua/grugtsdb/Engine.java:255 | Lower-casing keeps the length and lowers each ASCII letter. |
| Aggregation.FindField | src/main/java/org/tatuaua/grugtsdb/engine/Engine.java:242-253 | The lookup finds the first field of that name, or reports that no field has it. |
| Aggregation.ToNumber | src/main/java/org/tatuaua/grugtsdb/engine/Engine.java:272-277 | The cast succeeds iff the value has the target field's boxed type; otherwise ClassCast. |
| Aggregation.RunLoop | src/main/java/org/tatuaua/grugtsdb/engine/Engine.java:265-296 | The aggregation loop as a method: it computes the loop's result over the window's records. |
| Aggregation.LoopIsFold | src/main/java/org/tatuaua/grugtsdb/engine/Engine.java:268-296 | With a known operation, the loop folds exactly the numbers of the records that carry the field, in order, and stops at the first failing cast. |
| Aggregation.FoldAdds | src/main/java/org/tatuaua/grugtsdb/engine/Engine.java:280-281 | `sum` and `avg` add up every number. |
| Aggregation.FoldExtremes | src/main/java/org/tatuaua/grugtsdb/engine/Engine.java:282-293 | From the initial state, `min` and `max` of non-empty numbers are their least and greatest element, and 0 when there are none. |
| Aggregation.AggregateRead | src/main/java/org/tatuaua/grugtsdb/engine/Engine.java:222-303 | An unknown operation is refused before anything else. A start after the end comes next. A success is keyed `<field>_<op>`. The window is read with `readInTimeRange` as written (line 259). |
| Aggregation.AggregateReadRealigned | src/main/java/org/tatuaua/grugtsdb/engine/Engine.java:222-303 | The intended aggregate makes the same checks in the same order and keys a success the same way, but reads the window with the realigned scan. |
| Aggregation.OverMeaning | src/main/java/org/tatuaua/grugtsdb/engine/Engine.java:259-302 | Whatever the window read returns, a success means that read succeeded with records, and the value is the operation applied to the field's numbers over them. |
| Aggregation.AggregateErrors | src/main/java/org/tatuaua/grugtsdb/engine/Engine.java:224-263 | Errors come in the source's order: empty bucket, unknown field, non-numeric type, then a failing or empty `readInTimeRange`. |
| Aggregation.AggregateMeaning | src/main/java/org/tatuaua/grugtsdb/engine/Engine.java:259-302 | A success means the operation and window were valid, the field exists and is numeric, and `readInTimeRange` returned records. The value is computed over those records: the total (`sum`), the total over the record count (`avg`), or the least or greatest number (0 if no record carries the field). |
| Aggregation.AggregateTimestampFirst | src/main/java/org/tatuaua/grugtsdb/engine/Engine.java:259-263 | With the timestamp as the first field, a successful `aggregateRead` folds only the leading run of in-window records of `readAll`. |
| Aggregation.RealignedMeaning | src/main/java/org/tatuaua/grugtsdb/engine/Engine.java:259-263 | The intended aggregate over an aligned bucket folds exactly the records of `readAll` in the window. |
| Aggregation.AggregatesAgreeWhenOrdered | src/main/java/org/tatuaua/grugtsdb/engine/Engine.java:259-263 | With the timestamp first, the as-written and intended aggregates agree when no out-of-window record comes before an in-window one. |
| Aggregation.AggregatesAgreeWithoutTimestamp | src/main/java/org/tatuaua/grugtsdb/engine/Engine.java:259-263 | Without a `timestamp` field the as-written and intended aggregates agree. |
| Aggregation.AggregateMissesLaterRecord | src/main/java/org/tatuaua/grugtsdb/engine/Engine.java:259-263 | Counterexample: with timestamps 200 then 100 and window [0,150], `aggregateRead` of `sum` throws "no records". The intended aggregate returns 2, the value of the record stamped 100. |
| Aggregation.CalculateAggregateInTimeRange | src/main/java/org/tatuaua/grugtsdb/Engine.java:212-280 | The earlier aggregate refuses an empty bucket and keys a success with the lower-cased operation. |
| Aggregation.PredecessorAgrees | src/main/java/org/tatuaua/grugtsdb/Engine.java:212-280 | For a lower-case operation name and `start <= end`, the earlier aggregate and `aggregateRead` agree. |
| Aggregation.PredecessorIgnoresCase | src/main/java/org/tatuaua/grugtsdb/Engine.java:255-280 | A known operation in any case (`SUM`, `Avg`) aggregates as its lower-case name: it succeeds exactly when the lower-case name does, with the same result, and that is `aggregateRead` of the lower-case name when `start <= end`. |
| Aggregation.PredecessorEmptyWindow | src/main/java/org/tatuaua/grugtsdb/Engine.java:234-238 | An empty window is reported as "no records" before the operation is looked at, whatever the operation name. |
| Aggregation.PredecessorUnknownOp | src/main/java/org/tatuaua/grugtsdb/Engine.java:255-271 | An unknown operation yields a value only when no record of the window carries the field, and that value is 0. |
| Aggregation.ReadAggregateInTimeRange | src/main/java/org/tatuaua/grugtsdb/Engine.java:196-210 | The four wrappers agree with `aggregateRead` of the same operation whenever `start <= end`. |
| Registry.JavaDiv | src/main/java/org/tatuaua/grugtsdb/engine/Engine.java:73 | The record count is the file length divided by the record size, truncated toward zero (the remainder lies in `[0, |size|)`). |
| Registry.CreateBucket | src/main/java/org/tatuaua/grugtsdb/engine/Engine.java:53-79 | Creation keeps an existing file and creates a missing one empty. It registers the bucket over the file, counting exactly its complete records: for a positive record size `n`, `count * n <= length < (count + 1) * n`. A record size of 0 throws after the file exists. Other buckets are untouched. The same code is `Engine.java:32-53`. |
| Registry.CreateKeepsConsistent | src/main/java/org/tatuaua/grugtsdb/engine/Engine.java:53-79 | Every registered bucket keeps reading the file of its own name. |
| Registry.ReopenAligned | src/main/java/org/tatuaua/grugtsdb/engine/Engine.java:72-73 | Re-creating a bucket over the file an aligned bucket wrote restores that bucket exactly. |
| Registry.ReopenAfterPartialRecord | src/main/java/org/tatuaua/grugtsdb/engine/Engine.java:72-73 | A file with a trailing partial record reopens as a bucket that is not aligned. |
| Registry.Recover | src/main/java/org/tatuaua/grugtsdb/engine/Engine.java:23-31 | Start-up re-creation succeeds iff every listed schema has a non-zero record size. It never changes an existing file. The same code is `Engine.java:22-30`. |
| Registry.RecoverKeepsConsistent | src/main/java/org/tatuaua/grugtsdb/Engine.java:22-30 | Recovery keeps every bucket reading its own file. |
| Registry.RecoverRegisters | src/main/java/org/tatuaua/grugtsdb/Engine.java:22-30 | A successful recovery registers every listed bucket. |
| Registry.RecoverCounts | src/main/java/org/tatuaua/grugtsdb/engine/Engine.java:23-31 | After a successful recovery every listed bucket with a positive record size counts exactly the complete records of its file. |
| Registry.CreateFreshBucket | src/main/java/org/tatuaua/grugtsdb/DB.java:30-48 | `DB.createBucket` refuses an existing file with BucketExists. Otherwise it creates the file empty and registers an empty bucket. |
| Registry.FreshAgreesWithEngine | src/main/java/org/tatuaua/grugtsdb/DB.java:30-48 | For a new name and a non-zero record size, the two `createBucket` versions do the same. |
| Registry.CreateFreshTwice | src/main/java/org/tatuaua/grugtsdb/DB.java:32-34 | Creating the same name twice fails the second time, and a fresh bucket is aligned. |
| ServerActions.FromString | src/main/java/org/tatuaua/grugtsdb/server/model/ActionType.java:10-22 | `null` is refused with its own error. A name parses iff it is one of the five action names, to the action of that name. |
| ServerActions.FromStringName | src/main/java/org/tatuaua/grugtsdb/server/model/ActionType.java:14-19 | Every action's name parses back to that action. |
| ServerActions.ResponseMessage | src/main/java/org/tatuaua/grugtsdb/server/model/ActionType.java:24-31 | Only bucket creation, writes and streams have a message, and it ends with the bucket name. |
| ServerActions.ResponseMessageInjective | src/main/java/org/tatuaua/grugtsdb/server/model/ActionType.java:24-31 | A message determines both its action and its bucket. |
| ServerActions.HasTimestamp | src/main/java/org/tatuaua/grugtsdb/server/model/CreateBucketAction.java:17-22 | True iff some field is named `timestamp`. |
| ServerActions.HasTimestampIgnoresOrder | src/main/java/org/tatuaua/grugtsdb/server/model/CreateBucketAction.java:17-22 | The answer depends only on the multiset of fields, not on their order. |
| ServerActions.NoTimestampWindowIsEverything | src/main/java/org/tatuaua/grugtsdb/server/model/CreateBucketAction.java:17-22 | A bucket created without a timestamp field returns every record from a time-range read, whatever the window. |
| ClientActions.FromString | src/main/java/org/tatuaua/grugtsdb/model/ActionType.java:9-20 | The earlier server accepts exactly its four names; `null` and others are refused. |
| ClientActions.FromStringName | src/main/java/org/tatuaua/grugtsdb/model/ActionType.java:13-17 | Every action's name parses back to that action. |
| ClientActions.ResponseMessage | src/main/java/org/tatuaua/grugtsdb/model/ActionType.java:22-29 | Everything but `read` has a message, ending with the bucket name. |
| GrugActions.FromString | src/main/java/org/tatuaua/grugtsdb/model/GrugActionType.java:8-18 | The first server accepts exactly `createBucket`, `write` and `read`. |
| GrugActions.FromStringName | src/main/java/org/tatuaua/grugtsdb/model/GrugActionType.java:12-15 | Every action's name parses back to that action. |
| ActionHistory.GrugNamesAccepted | src/main/java/org/tatuaua/grugtsdb/model/GrugActionType.java:12-15 | Every name the first server accepts, the earlier one accepts as the same action. The only name it adds is `createStream`. |
| ActionHistory.ClientNamesAccepted | src/main/java/org/tatuaua/grugtsdb/model/ActionType.java:13-17 | Every name the earlier server accepts, the current one accepts as the same action. The only name it adds is `aggregateRead`. |
| ActionHistory.SameResponseMessages | src/main/java/org/tatuaua/grugtsdb/server/model/ActionType.java:24-31 | Both servers acknowledge an action of the same name with the same message. |

## Left out

- Java `long` overflow of `position`, `recordSize * recordAmount` and the record count is not modelled: integers are unbounded. Files large enough to overflow cannot occur in practice.
- The bucket registry lookup (`BUCKET_METADATA_MAP.get`): an unknown bucket name makes every operation fail on a null dereference. Operations take the bucket itself instead.
- Concurrency: the static maps and file handles are shared without locking; the model is sequential.
- Floating point: a DOUBLE field is kept as its 64-bit pattern, and aggregates are computed over `real`. A DOUBLE field's numeric value comes from the parameter `toReal`. NaN, rounding and `int`/`long` to `double` rounding are not modelled.
- `String.toLowerCase` and `equalsIgnoreCase` are modelled on ASCII letters only. The locale-dependent and non-ASCII cases are not.
- Strings are their UTF-8 bytes. Decoding malformed UTF-8 (replacement characters) is not modelled.
- The `.grug_meta` JSON metadata (`writeBucketMetadata`, `Utils.readBucketMetadata`) is left out: JSON serialisation is a library call. Recovery takes the list of metadata entries as input.
- Opening file handles, creating the `grug_tsdb` directory, and the log line for an existing file are left out. `DB.java`'s static initialiser, which empties the directory, is modelled by starting from an empty state. `clearMetadata` and `clearDatabase` are left out.
- The `default ->` branches for an unsupported field type cannot be reached: `FieldType` has exactly five constructors.
- `IO.java`, the servers and their request parsing are not part of this model. Only the action-name enums and `hasTimestamp` are modelled.
- Aggregation.AggregateRead, Aggregation.CalculateAggregateInTimeRange: the operation name is a non-null string. A `null` name throws a null dereference in the source: at once in `aggregateRead`, and in the earlier version at the first `toLowerCase`.
- `RandomAccessFile.seek(0)` after each read only resets shared state, which the model does not have.

## Findings

| source | as written | input that shows it | evidently intended | confidence | as-written member | corrected member |
|---|---|---|---|---|---|---|
| src/main/java/org/tatuaua/grugtsdb/engine/Engine.java:199-215 | After a record whose timestamp is outside the window, the field loop breaks with the file cursor inside that record. `position` advances by one record size, but the cursor is never moved to `position`. The next record is read from the wrong offset: with the timestamp first, the same timestamp is read again and again. | A bucket (timestamp LONG, value INT) holding timestamps 200 then 100, window [0, 150]: the result is empty although the record stamped 100 is in the window. | Every record is visited at its own offset `i * recordSize`, so the result is the records of `readAll` in the window. | high, not executed | TimeRange.TimeRangeMissesLaterRecord | TimeRange.RealignedFilters |
| src/main/java/org/tatuaua/grugtsdb/engine/Engine.java:259-263 | `aggregateRead` folds the records of the as-written `readInTimeRange`, so the cursor defect of the first row reaches the aggregate. With the timestamp first, it aggregates only the leading run of in-window records, and throws "no records" when the first record is out of the window. | The same bucket, field `value`, operation `sum`, window [0, 150]: "No records to calculate sum on" is thrown, although the record stamped 100 is in the window. | The aggregate is taken over every record of `readAll` in the window. | high, not executed | Aggregation.AggregateMissesLaterRecord | Aggregation.RealignedMeaning |
| src/main/java/org/tatuaua/grugtsdb/engine/Engine.java:105-113 | The validation pass only checks that every field has a value. A value of the wrong type (or a negative STRING size) throws in the second loop after the earlier fields are already appended. The record count is not incremented, and every later record is misaligned. | The same schema, writing `timestamp = 100L, value = 42L`: 8 bytes are appended, then ClassCast is thrown. | As the comment at line 95 says, no partial record is written before throwing. | high, not executed | StoreProperties.PartialWriteOnTypeMismatch | Store.WriteToBucketAtomic |
