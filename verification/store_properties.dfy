/** What the engine promises about a bucket's records: addressing, write
    order, the most recent record, and what the two write paths do to the
    file layout. */
module StoreProperties {
  import opened Wrappers
  import opened Bytes
  import opened Errors
  import opened Schema
  import opened FieldCodec
  import opened RecordIO
  import opened Store

  /** Record `i < recordAmount` of an aligned bucket lies inside the file. */
  lemma RecordInsideFile(b: Bucket, i: nat)
    requires Aligned(b)
    requires i < b.recordAmount
    ensures i * Size(b) + Size(b) <= |b.data|
    ensures RecordAt(b, i).Ok?
  {
    assert (b.recordAmount - i) * Size(b) >= Size(b) by {
      assert b.recordAmount - i >= 1;
    }
    assert (b.recordAmount - i) * Size(b) == b.recordAmount * Size(b) - i * Size(b);
  }

  /** When every record in `i..n` decodes, the scan returns them all, in index order. */
  lemma RecordsFromAllOk(b: Bucket, i: nat, n: nat)
    requires i <= n
    requires forall j :: i <= j < n ==> RecordAt(b, j).Ok?
    ensures RecordsFrom(b, i, n).Ok?
    ensures forall k :: 0 <= k < n - i ==> RecordsFrom(b, i, n).value[k] == RecordAt(b, i + k).value
  {
    ScanAllOk(Reader(b), i, n);
  }

  /** Every record of an aligned bucket decodes. */
  lemma AllRecordsReadable(b: Bucket)
    requires Aligned(b)
    ensures forall i :: 0 <= i < b.recordAmount ==> RecordAt(b, i).Ok?
  {
    forall j | 0 <= j < b.recordAmount ensures RecordAt(b, j).Ok? {
      RecordInsideFile(b, j);
    }
  }

  /** `readAll` on an aligned, non-empty bucket returns exactly
      `recordAmount` records, record `i` decoded from bytes
      `[i*recordSize, (i+1)*recordSize)`. */
  lemma ReadAllAddressesRecords(b: Bucket)
    requires Aligned(b)
    ensures forall i :: 0 <= i < b.recordAmount ==> RecordAt(b, i).Ok?
    ensures AllRecords(b).Ok?
    ensures |AllRecords(b).value| == b.recordAmount
    ensures forall i :: 0 <= i < b.recordAmount ==> AllRecords(b).value[i] == RecordAt(b, i).value
  {
    AllRecordsReadable(b);
    RecordsFromAllOk(b, 0, b.recordAmount);
    forall i | 0 <= i < b.recordAmount ensures AllRecords(b).value[i] == RecordAt(b, i).value {
      assert RecordsFrom(b, 0, b.recordAmount).value[i] == RecordAt(b, 0 + i).value;
    }
  }

  /** `readMostRecent` is the last record `readAll` returns. */
  lemma MostRecentIsLastOfAll(b: Bucket)
    requires Aligned(b)
    requires b.recordAmount >= 1
    ensures AllRecords(b).Ok?
    ensures ReadMostRecent(b) == Ok(AllRecords(b).value[b.recordAmount - 1])
  {
    ReadAllAddressesRecords(b);
    RecordInsideFile(b, b.recordAmount - 1);
  }

  /** The record a successful write stores. */
  function WrittenRecord(b: Bucket, values: map<string, Value>): Record
    requires WriteToBucket(b, values).failure.None?
  {
    ToRecord(b.fields, StoredValues(b.fields, Collected(b, values)))
  }

  /** After a successful write to an aligned bucket, the new last record
      reads back as the written values. */
  lemma WrittenRecordReadsBack(b: Bucket, values: map<string, Value>)
    requires Aligned(b)
    requires WriteToBucket(b, values).failure.None?
    ensures Aligned(WriteToBucket(b, values).bucket)
    ensures RecordAt(WriteToBucket(b, values).bucket, b.recordAmount) == Ok(WrittenRecord(b, values))
  {
    var b' := WriteToBucket(b, values).bucket;
    var vals := Collected(b, values);
    ScaleCompare(b.recordAmount, 0, Size(b));
    RecordRoundTrip(b.fields, vals, b.data, []);
    assert b.data + EncodeValues(b.fields, vals).value + [] == b'.data;
  }

  /** Writes land in order: a successful write to an aligned bucket keeps it
      aligned, adds exactly one record, and `readAll` afterwards is the old
      `readAll` followed by the written record. */
  lemma WriteAppendsOneRecord(b: Bucket, values: map<string, Value>)
    requires Aligned(b)
    requires WriteToBucket(b, values).failure.None?
    ensures Aligned(WriteToBucket(b, values).bucket)
    ensures AllRecords(b).Ok?
    ensures AllRecords(WriteToBucket(b, values).bucket) == Ok(AllRecords(b).value + [WrittenRecord(b, values)])
  {
    var b' := WriteToBucket(b, values).bucket;
    WrittenRecordReadsBack(b, values);
    ReadAllAddressesRecords(b);
    ReadAllAddressesRecords(b');
    var old_ := AllRecords(b).value;
    var new_ := AllRecords(b').value;
    forall i | 0 <= i < b.recordAmount ensures new_[i] == old_[i] {
      WriteKeepsRecord(b, values, i);
    }
    Snoc(old_, WrittenRecord(b, values), new_);
  }

  /** A write leaves every earlier record as it was. */
  lemma WriteKeepsRecord(b: Bucket, values: map<string, Value>, i: nat)
    requires Aligned(b)
    requires WriteToBucket(b, values).failure.None?
    requires i < b.recordAmount
    ensures RecordAt(WriteToBucket(b, values).bucket, i) == RecordAt(b, i)
  {
    RecordInsideFile(b, i);
    ReadValuesPrefix(b.data, EncodeValues(b.fields, Collected(b, values)).value, i * Size(b), b.fields);
  }

  lemma Snoc(xs: seq<Record>, x: Record, ys: seq<Record>)
    requires |ys| == |xs| + 1
    requires forall i :: 0 <= i < |xs| ==> ys[i] == xs[i]
    requires ys[|xs|] == x
    ensures ys == xs + [x]
  {
  }

  /** Reading the most recent record right after a successful write yields
      the written record. */
  lemma WriteThenReadMostRecent(b: Bucket, values: map<string, Value>)
    requires Aligned(b)
    requires WriteToBucket(b, values).failure.None?
    ensures ReadMostRecent(WriteToBucket(b, values).bucket) == Ok(WrittenRecord(b, values))
  {
    var b' := WriteToBucket(b, values).bucket;
    WrittenRecordReadsBack(b, values);
    assert b'.recordAmount - 1 == b.recordAmount;
  }

  /** With unique field names, each field of the written record holds the
      value supplied for it — exactly, when a string fits its field and
      contains no zero byte. */
  lemma WrittenFieldValue(b: Bucket, values: map<string, Value>, j: nat)
    requires WriteToBucket(b, values).failure.None?
    requires UniqueNames(b.fields)
    requires j < |b.fields|
    ensures b.fields[j].name in values
    ensures b.fields[j].name in WrittenRecord(b, values)
    ensures WrittenRecord(b, values)[b.fields[j].name] == Stored(b.fields[j], values[b.fields[j].name])
    ensures var v := values[b.fields[j].name];
      v.StrV? ==> |v.s| <= b.fields[j].size && (forall i :: 0 <= i < |v.s| ==> v.s[i] != 0) ==>
      WrittenRecord(b, values)[b.fields[j].name] == v
  {
    var vals := Collected(b, values);
    ToRecordLookup(b.fields, StoredValues(b.fields, vals), j);
    StoredValuesAt(b.fields, vals, j);
    var v := values[b.fields[j].name];
    if v.StrV? ==> |v.s| <= b.fields[j].size && (forall i :: 0 <= i < |v.s| ==> v.s[i] != 0) {
      StoredExact(b.fields[j], v);
    }
  }

  /** The corrected write never breaks the layout: it either appends one
      whole record or leaves the bucket as it was. */
  lemma AtomicWriteKeepsAligned(b: Bucket, values: map<string, Value>)
    requires Aligned(b)
    ensures Aligned(WriteToBucketAtomic(b, values).bucket)
  {
    if WriteToBucketAtomic(b, values).failure.None? {
      WrittenRecordReadsBack(b, values);
    }
  }

  /** The write as written can leave a partial record: on the two-field
      schema of the tests, a `long` supplied for the INT field throws after
      the eight timestamp bytes are already in the file, and the bucket is
      no longer aligned. */
  lemma PartialWriteOnTypeMismatch()
    ensures var b := Bucket("sensor", [Field(Timestamp, LONG, 8), Field("value", INT, 4)], 0, []);
      var values := map[Timestamp := LongV(100), "value" := LongV(42)];
      var r := WriteToBucket(b, values);
      && Aligned(b)
      && r.failure == Some(ClassCast)
      && r.bucket.recordAmount == 0
      && r.bucket.data == EncodeLong(100)
      && !Aligned(r.bucket)
  {
    var b := Bucket("sensor", [Field(Timestamp, LONG, 8), Field("value", INT, 4)], 0, []);
    var values := map[Timestamp := LongV(100), "value" := LongV(42)];
    assert "value" != Timestamp;
    var vals := [LongV(100), LongV(42)];
    var tail := [Field("value", INT, 4)];
    assert b.fields[1..] == tail && tail[1..] == [];
    assert "value" in values && values["value"] == LongV(42);
    assert CollectValues(tail[1..], values) == Ok([]);
    assert [values["value"]] + [] == [LongV(42)];
    assert CollectValues(tail, values) == Ok([LongV(42)]);
    assert [values[Timestamp]] + [LongV(42)] == vals;
    assert CollectValues(b.fields, values) == Ok(vals);
    assert FirstMisfit(b.fields, vals, 0) == 1;
    AppendValuesPartial(b.data, b.fields, vals);
    assert EncodeRange(b.fields, vals, 0, 1).value == EncodeLong(100);
  }

  /** The corrected write on the same input fails with the same error and
      leaves the bucket untouched. */
  lemma AtomicWriteOnTypeMismatch()
    ensures var b := Bucket("sensor", [Field(Timestamp, LONG, 8), Field("value", INT, 4)], 0, []);
      var r := WriteToBucketAtomic(b, map[Timestamp := LongV(100), "value" := LongV(42)]);
      r.failure == Some(ClassCast) && r.bucket == b
  {
    PartialWriteOnTypeMismatch();
  }
}
