/** A bucket and the engine's write and read paths over its data file
    (`engine/Engine.java`; the earlier `Engine.java` and `DB.java` carry the
    same write and read code). The file is the byte sequence `data`; the
    append cursor always writes at its end. */
module Store {
  import opened Wrappers
  import opened Bytes
  import opened Errors
  import opened Schema
  import opened FieldCodec
  import opened RecordIO

  /** `BucketMetadata` without its file handles: the schema, the record
      count and the contents of the bucket's data file. The record size is
      always derived from the schema. */
  datatype Bucket = Bucket(name: string, fields: seq<Field>, recordAmount: int, data: seq<Byte>)

  function Size(b: Bucket): int {
    RecordSize(b.fields)
  }

  /** The layout a bucket keeps while it is only written through complete
      records: the file holds exactly `recordAmount` records. */
  predicate Aligned(b: Bucket) {
    && NonNegativeSizes(b.fields)
    && Size(b) > 0
    && b.recordAmount >= 0
    && |b.data| == b.recordAmount * Size(b)
  }

  // ---------------------------------------------------------------- write

  /** The validation pass of `writeToBucket`: every schema field must have
      a (non-null) value; the first one missing is reported. */
  function CollectValues(fields: seq<Field>, values: map<string, Value>): (r: Result<seq<Value>, Error>)
    ensures r.Ok? <==> AllPresent(fields, values)
    ensures r.Ok? ==> |r.value| == |fields|
    ensures r.Ok? ==> forall j :: 0 <= j < |fields| ==> r.value[j] == values[fields[j].name]
    ensures r.Err? ==> exists j :: FirstMissing(fields, values, j) && r.error == MissingField(fields[j].name)
    decreases |fields|
  {
    if |fields| == 0 then Ok([])
    else if fields[0].name !in values then Err(MissingField(fields[0].name))
    else
      assert forall j :: 1 <= j < |fields| ==> fields[j] == fields[1..][j - 1];
      var rest :- CollectValues(fields[1..], values);
      Ok([values[fields[0].name]] + rest)
  }

  /** Field `j` is the first in schema order without a value. */
  predicate FirstMissing(fields: seq<Field>, values: map<string, Value>, j: int) {
    0 <= j < |fields| && fields[j].name !in values && forall i :: 0 <= i < j ==> fields[i].name in values
  }

  predicate AllPresent(fields: seq<Field>, values: map<string, Value>) {
    forall j :: 0 <= j < |fields| ==> fields[j].name in values
  }

  /** A write's outcome: the bucket afterwards and, if the write threw, why.
      The bucket is returned even on failure because the file may already
      have been appended to. */
  datatype WriteResult = WriteResult(bucket: Bucket, failure: Option<Error>)

  /** `writeToBucket` as written: validate presence, then append field by
      field, then count the record. */
  function WriteToBucket(b: Bucket, values: map<string, Value>): (r: WriteResult)
    ensures r.bucket.name == b.name && r.bucket.fields == b.fields
    ensures !AllPresent(b.fields, values) ==>
      && r.bucket == b && r.failure.Some?
      && exists j :: FirstMissing(b.fields, values, j) && r.failure.value == MissingField(b.fields[j].name)
    ensures r.failure.None? <==> AllPresent(b.fields, values) && AllFit(b.fields, Collected(b, values))
    ensures r.failure.None? ==>
      && r.bucket.recordAmount == b.recordAmount + 1
      && r.bucket.data == b.data + EncodeValues(b.fields, Collected(b, values)).value
      && |r.bucket.data| == |b.data| + Size(b)
    ensures r.failure.Some? ==> r.bucket.recordAmount == b.recordAmount && b.data <= r.bucket.data
  {
    match CollectValues(b.fields, values)
    case Err(e) => WriteResult(b, Some(e))
    case Ok(vals) =>
      var a := AppendValues(b.data, b.fields, vals);
      if a.failure.Some? then
        WriteResult(b.(data := a.data), a.failure)
      else
        AppendValuesComplete(b.data, b.fields, vals);
        WriteResult(b.(data := a.data, recordAmount := b.recordAmount + 1), None)
  }

  /** The values a write collects, in schema order (only meaningful when all are present). */
  function Collected(b: Bucket, values: map<string, Value>): (vals: seq<Value>)
    ensures |vals| == |b.fields|
  {
    match CollectValues(b.fields, values)
    case Ok(vals) => vals
    case Err(_) => seq(|b.fields|, _ => BoolV(false))
  }

  /** The write the all-or-nothing comment in `writeToBucket` intends:
      values are checked for type (and STRING sizes for validity) in the
      validation pass too, so a failed write never touches the file. */
  function WriteToBucketAtomic(b: Bucket, values: map<string, Value>): (r: WriteResult)
    ensures r.failure.Some? ==> r.bucket == b
    ensures r.failure.None? <==> WriteToBucket(b, values).failure.None?
    ensures r.failure.None? ==> r == WriteToBucket(b, values)
    ensures r.failure == WriteToBucket(b, values).failure
  {
    match CollectValues(b.fields, values)
    case Err(e) => WriteResult(b, Some(e))
    case Ok(vals) =>
      if !AllFit(b.fields, vals) then
        AppendValuesPartial(b.data, b.fields, vals);
        var k := FirstMisfit(b.fields, vals, 0);
        WriteResult(b, Some(EncodeField(b.fields[k], vals[k]).error))
      else
        WriteToBucket(b, values)
  }

  // ----------------------------------------------------------------- read

  /** The record at logical index `i`: seek to `i*recordSize` and decode
      `recordSize` bytes. A negative offset makes the seek throw. */
  function RecordAt(b: Bucket, i: nat): (r: Result<Record, Error>)
  {
    var position := i * Size(b);
    if position < 0 then Err(NegativeSeek)
    else
      var d :- ReadRecord(b.data, position, b.fields);
      Ok(d.value)
  }

  /** Records `i..n-1` in index order, stopping at the first failing read. */
  function RecordsFrom(b: Bucket, i: nat, n: nat): (r: Result<seq<Record>, Error>)
    ensures r.Ok? ==> |r.value| == if i <= n then n - i else 0
  {
    Scan(Reader(b), i, n)
  }

  /** The bucket's records as a function of their index. */
  function Reader(b: Bucket): (read: nat -> Result<Record, Error>)
    ensures forall j: nat :: read(j) == RecordAt(b, j)
  {
    (j: nat) => RecordAt(b, j)
  }

  /** Results `read(i)..read(n-1)` collected in order, stopping at the first error. */
  function Scan(read: nat -> Result<Record, Error>, i: nat, n: nat): (r: Result<seq<Record>, Error>)
    ensures r.Ok? ==> |r.value| == if i <= n then n - i else 0
    decreases n - i
  {
    if i >= n then Ok([])
    else
      var x :- read(i);
      var rest :- Scan(read, i + 1, n);
      Ok([x] + rest)
  }

  /** When every read in `i..n` succeeds, the scan returns them all, in index order. */
  lemma {:induction false} ScanAllOk(read: nat -> Result<Record, Error>, i: nat, n: nat)
    requires i <= n
    requires forall j :: i <= j < n ==> read(j).Ok?
    ensures Scan(read, i, n).Ok?
    ensures forall k :: 0 <= k < n - i ==> Scan(read, i, n).value[k] == read(i + k).value
    decreases n - i
  {
    if i < n {
      ScanAllOk(read, i + 1, n);
      var x := read(i).value;
      var rest := Scan(read, i + 1, n).value;
      assert Scan(read, i, n) == Ok([x] + rest);
      forall k | 0 <= k < n - i ensures ([x] + rest)[k] == read(i + k).value {
        if k > 0 {
          assert ([x] + rest)[k] == rest[k - 1];
          assert i + k == (i + 1) + (k - 1);
        }
      }
    }
  }

  /** Every record of the bucket, addressed by index. A non-positive record
      size makes the engine's scan loop stop at once. */
  function AllRecords(b: Bucket): Result<seq<Record>, Error> {
    if Size(b) <= 0 || b.recordAmount < 0 then Ok([]) else RecordsFrom(b, 0, b.recordAmount)
  }

  /** `readMostRecent`: seek to `(recordAmount-1)*recordSize` and decode. */
  function ReadMostRecent(b: Bucket): (r: Result<Record, Error>)
    ensures b.recordAmount < 1 ==> r == Err(EmptyBucket)
    ensures b.recordAmount >= 1 ==> r == RecordAt(b, b.recordAmount - 1)
  {
    if b.recordAmount < 1 then Err(EmptyBucket)
    else
      var position := (b.recordAmount - 1) * Size(b);
      if position < 0 then Err(NegativeSeek)
      else
        var d :- ReadRecord(b.data, position, b.fields);
        Ok(d.value)
  }

  /** Prefixes `xs` to a successful result. */
  function Then(xs: seq<Record>, r: Result<seq<Record>, Error>): Result<seq<Record>, Error> {
    if r.Ok? then Ok(xs + r.value) else r
  }

  /** `readAll`: one forward scan from offset 0 with a single cursor; the
      loop stops when `position` reaches `recordSize * recordAmount`. */
  method ReadAll(b: Bucket) returns (r: Result<seq<Record>, Error>)
    ensures b.recordAmount < 1 ==> r == Err(EmptyBucket)
    ensures b.recordAmount >= 1 ==> r == AllRecords(b)
  {
    if b.recordAmount < 1 {
      return Err(EmptyBucket);
    }
    var size := Size(b);
    if size <= 0 {
      assert !(0 < size * b.recordAmount);
      return Ok([]);
    }
    var position: nat := 0;
    var k: nat := 0;
    var responses: seq<Record> := [];
    var all := RecordsFrom(b, 0, b.recordAmount);
    if all.Ok? {
      assert [] + all.value == all.value;
    }
    while position < size * b.recordAmount
      invariant k <= b.recordAmount
      invariant position == k * size
      invariant |responses| == k
      invariant all == Then(responses, RecordsFrom(b, k, b.recordAmount))
      decreases b.recordAmount - k
    {
      ScaleCompare(k, b.recordAmount, size);
      var d := ReadRecord(b.data, position, b.fields);
      RecordsFromStep(b, k, b.recordAmount);
      assert RecordAt(b, k) == if d.Ok? then Ok(d.value.value) else Err(d.error);
      if d.Err? {
        return Err(d.error);
      }
      ThenThen(responses, [d.value.value], RecordsFrom(b, k + 1, b.recordAmount));
      responses := responses + [d.value.value];
      k := k + 1;
      position := position + size;
    }
    ScaleCompare(k, b.recordAmount, size);
    assert responses + [] == responses;
    r := Ok(responses);
  }

  /** One step of the scan: record `k` is read first and the rest only if it decodes. */
  lemma RecordsFromStep(b: Bucket, k: nat, n: nat)
    requires k < n
    ensures RecordsFrom(b, k, n) == match RecordAt(b, k)
      case Err(e) => Err(e)
      case Ok(x) => Then([x], RecordsFrom(b, k + 1, n))
  {
  }

  /** Scaling by a positive record size keeps the order of record indices. */
  lemma ScaleCompare(k: int, n: int, size: int)
    requires size > 0
    ensures k * size < size * n <==> k < n
    ensures (k + 1) * size == k * size + size
  {
    if k < n {
      assert (n - k) * size > 0;
    } else {
      assert (k - n) * size >= 0;
    }
  }

  lemma ThenThen(xs: seq<Record>, ys: seq<Record>, r: Result<seq<Record>, Error>)
    ensures Then(xs, Then(ys, r)) == Then(xs + ys, r)
  {
    if r.Ok? {
      assert xs + (ys + r.value) == xs + ys + r.value;
    }
  }
}
