/** A whole record: the fields' encodings concatenated in schema order,
    read back by a cursor that visits the fields in the same order. Fields
    are addressed by index, `k..` being the fields still to visit. Each
    field read consumes exactly the field's width, so the read loop is
    modelled as cutting the record into per-field byte strings and then
    decoding each by its field's type. */
module RecordIO {
  import opened Wrappers
  import opened Bytes
  import opened Errors
  import opened Schema
  import opened FieldCodec

  // ----------------------------------------------------------------- read

  /** The bytes the read loop `for (Field field : fields) readField(...)`
      consumes for fields `k..`, starting at cursor `c`, one string per
      field. The loop fails at the first field that has a negative size or
      runs past the end of the file, so it succeeds exactly when all
      remaining widths are valid and fit. */
  function ReadSlices(data: seq<Byte>, c: nat, fields: seq<Field>, k: nat): (r: Result<Decoded<seq<seq<Byte>>>, Error>)
    requires k <= |fields|
    ensures r.Ok? <==> NonNegativeFrom(fields, k) && (k == |fields| || c + Span(fields, k, |fields|) <= |data|)
    ensures r.Ok? ==> |r.value.value| == |fields| - k && r.value.next == c + Span(fields, k, |fields|)
    ensures r.Ok? ==> forall i :: 0 <= i < |r.value.value| ==> |r.value.value[i]| == Width(fields[k + i])
    ensures r.Err? ==> r.error == NegativeArraySize || r.error == EndOfFile
    decreases |fields| - k
  {
    if k == |fields| then Ok(Decoded([], c))
    else
      assert NonNegativeFrom(fields, k + 1) ==> Span(fields, k + 1, |fields|) >= 0 by {
        if NonNegativeFrom(fields, k + 1) {
          SpanNonNegative(fields, k + 1, |fields|);
        }
      }
      var s :- ReadBytes(data, c, fields[k]);
      var rest :- ReadSlices(data, s.next, fields, k + 1);
      Ok(Decoded([s.value] + rest.value, rest.next))
  }

  /** The bytes of fields `k..` decoded, each by its field's type. */
  function DecodeFrom(fields: seq<Field>, slices: seq<seq<Byte>>, k: nat): (vals: seq<Value>)
    requires k <= |fields| == |slices|
    requires forall j :: k <= j < |fields| ==> |slices[j]| == Width(fields[j])
    ensures |vals| == |fields| - k
    decreases |fields| - k
  {
    if k == |fields| then [] else [DecodeField(fields[k], slices[k])] + DecodeFrom(fields, slices, k + 1)
  }

  /** The values of one record starting at cursor `c`. */
  function ReadValues(data: seq<Byte>, c: nat, fields: seq<Field>): (r: Result<Decoded<seq<Value>>, Error>)
    ensures r.Ok? <==> NonNegativeSizes(fields) && (|fields| == 0 || c + RecordSize(fields) <= |data|)
    ensures r.Ok? ==> |r.value.value| == |fields| && r.value.next == c + RecordSize(fields)
  {
    var d :- ReadSlices(data, c, fields, 0);
    Ok(Decoded(DecodeFrom(fields, d.value, 0), d.next))
  }

  /** Decodes the record starting at cursor `c`. */
  function ReadRecord(data: seq<Byte>, c: nat, fields: seq<Field>): (r: Result<Decoded<Record>, Error>)
    ensures r.Ok? <==> ReadValues(data, c, fields).Ok?
    ensures r.Ok? ==> r.value.next == c + RecordSize(fields)
  {
    var d :- ReadValues(data, c, fields);
    Ok(Decoded(ToRecord(fields, d.value), d.next))
  }

  /** Value `i` of the decoded slices is slice `i` decoded. */
  lemma {:induction false} DecodeFromAt(fields: seq<Field>, slices: seq<seq<Byte>>, k: nat, i: nat)
    requires k <= i < |fields| == |slices|
    requires forall j :: k <= j < |fields| ==> |slices[j]| == Width(fields[j])
    ensures DecodeFrom(fields, slices, k)[i - k] == DecodeField(fields[i], slices[i])
    decreases i - k
  {
    var rest := DecodeFrom(fields, slices, k + 1);
    assert DecodeFrom(fields, slices, k) == [DecodeField(fields[k], slices[k])] + rest;
    if k < i {
      DecodeFromAt(fields, slices, k + 1, i);
      assert rest[i - (k + 1)] == DecodeField(fields[i], slices[i]);
    }
  }

  /** Appending to the file does not change what an earlier record reads as. */
  lemma ReadValuesPrefix(data: seq<Byte>, ext: seq<Byte>, c: nat, fields: seq<Field>)
    requires ReadValues(data, c, fields).Ok?
    ensures ReadValues(data + ext, c, fields) == ReadValues(data, c, fields)
  {
    ReadSlicesPrefix(data, ext, c, fields, 0);
  }

  lemma {:induction false} ReadSlicesPrefix(data: seq<Byte>, ext: seq<Byte>, c: nat, fields: seq<Field>, k: nat)
    requires k <= |fields|
    requires ReadSlices(data, c, fields, k).Ok?
    ensures ReadSlices(data + ext, c, fields, k) == ReadSlices(data, c, fields, k)
    decreases |fields| - k
  {
    if k < |fields| {
      var w := Width(fields[k]);
      assert (data + ext)[c..c + w] == data[c..c + w];
      ReadSlicesPrefix(data, ext, c + w, fields, k + 1);
    }
  }

  /** The concatenation of `chunks[k..]`. */
  function Flatten(chunks: seq<seq<Byte>>, k: nat): (r: seq<Byte>)
    requires k <= |chunks|
    decreases |chunks| - k
  {
    if k == |chunks| then [] else chunks[k] + Flatten(chunks, k + 1)
  }

  /** Reading back at the level of bytes: wherever byte strings of the
      fields' widths sit one after another in the file, the read loop cuts
      out exactly those strings and ends just past them. */
  lemma {:induction false} SlicesReadBack(data: seq<Byte>, c: nat, fields: seq<Field>, chunks: seq<seq<Byte>>, k: nat)
    requires k <= |fields| == |chunks|
    requires forall j :: k <= j < |fields| ==> Width(fields[j]) >= 0 && |chunks[j]| == Width(fields[j])
    requires HoldsAt(data, c, Flatten(chunks, k))
    ensures ReadSlices(data, c, fields, k).Ok?
    ensures forall i :: 0 <= i < |fields| - k ==> ReadSlices(data, c, fields, k).value.value[i] == chunks[k + i]
    decreases |fields| - k
  {
    if k == |fields| {
      HoldsFromAll(data, c, [], 0);
    } else {
      var w := Width(fields[k]);
      HoldsAtAppend(data, c, chunks[k], Flatten(chunks, k + 1));
      HoldsAtSlice(data, c, chunks[k]);
      SlicesReadBack(data, c + w, fields, chunks, k + 1);
      var rest := ReadSlices(data, c + w, fields, k + 1).value.value;
      var all := ReadSlices(data, c, fields, k).value.value;
      assert all == [chunks[k]] + rest;
      forall i | 0 < i < |fields| - k ensures all[i] == chunks[k + i] {
        assert all[i] == rest[i - 1];
      }
    }
  }

  // ----------------------------------------------------------- encoding

  /** Fields `k..m-1` all accept their values. */
  predicate FitRange(fields: seq<Field>, vals: seq<Value>, k: nat, m: nat)
    requires k <= m <= |fields| == |vals|
  {
    forall j :: k <= j < m ==> Fits(fields[j], vals[j])
  }

  predicate AllFit(fields: seq<Field>, vals: seq<Value>)
    requires |fields| == |vals|
  {
    FitRange(fields, vals, 0, |fields|)
  }

  /** All-or-nothing encoding of fields `k..m-1`: the concatenation of their
      encodings, or the first field's error. */
  function EncodeRange(fields: seq<Field>, vals: seq<Value>, k: nat, m: nat): (r: Result<seq<Byte>, Error>)
    requires k <= m <= |fields| == |vals|
    ensures r.Ok? <==> FitRange(fields, vals, k, m)
    ensures r.Ok? ==> |r.value| == Span(fields, k, m)
    decreases m - k
  {
    if k == m then Ok([])
    else
      var b :- EncodeField(fields[k], vals[k]);
      var rest :- EncodeRange(fields, vals, k + 1, m);
      Ok(b + rest)
  }

  /** The encoding of one whole record. */
  function EncodeValues(fields: seq<Field>, vals: seq<Value>): (r: Result<seq<Byte>, Error>)
    requires |fields| == |vals|
    ensures r.Ok? <==> AllFit(fields, vals)
    ensures r.Ok? ==> |r.value| == RecordSize(fields)
  {
    EncodeRange(fields, vals, 0, |fields|)
  }

  /** The values of fields `k..` as a read returns them after they were written. */
  function StoredFrom(fields: seq<Field>, vals: seq<Value>, k: nat): (r: seq<Value>)
    requires k <= |fields| == |vals|
    requires FitRange(fields, vals, k, |fields|)
    ensures |r| == |fields| - k
    decreases |fields| - k
  {
    if k == |fields| then [] else [Stored(fields[k], vals[k])] + StoredFrom(fields, vals, k + 1)
  }

  /** The values a read returns after the record `vals` was written. */
  function StoredValues(fields: seq<Field>, vals: seq<Value>): (r: seq<Value>)
    requires |fields| == |vals|
    requires AllFit(fields, vals)
    ensures |r| == |fields|
  {
    StoredFrom(fields, vals, 0)
  }

  /** Field `j` of the stored values is field `j`'s stored value. */
  lemma StoredValuesAt(fields: seq<Field>, vals: seq<Value>, j: nat)
    requires |fields| == |vals|
    requires AllFit(fields, vals)
    requires j < |fields|
    ensures StoredValues(fields, vals)[j] == Stored(fields[j], vals[j])
  {
    StoredFromAt(fields, vals, 0, j);
  }

  lemma {:induction false} StoredFromAt(fields: seq<Field>, vals: seq<Value>, k: nat, j: nat)
    requires k <= j < |fields| == |vals|
    requires FitRange(fields, vals, k, |fields|)
    ensures StoredFrom(fields, vals, k)[j - k] == Stored(fields[j], vals[j])
    decreases j - k
  {
    if k < j {
      StoredFromAt(fields, vals, k + 1, j);
    }
  }

  /** Decoding bytes that decode field by field to the stored values yields the stored values. */
  lemma {:induction false} DecodeFromStored(fields: seq<Field>, vals: seq<Value>, slices: seq<seq<Byte>>, k: nat)
    requires k <= |fields| == |vals| == |slices|
    requires FitRange(fields, vals, k, |fields|)
    requires forall j :: k <= j < |fields| ==> |slices[j]| == Width(fields[j])
    requires forall j :: k <= j < |fields| ==> DecodeField(fields[j], slices[j]) == Stored(fields[j], vals[j])
    ensures DecodeFrom(fields, slices, k) == StoredFrom(fields, vals, k)
    decreases |fields| - k
  {
    if k < |fields| {
      DecodeFromStored(fields, vals, slices, k + 1);
    }
  }

  /** Each field's encoding on its own. */
  function Encodings(fields: seq<Field>, vals: seq<Value>): (chunks: seq<seq<Byte>>)
    requires |fields| == |vals|
    requires AllFit(fields, vals)
    ensures |chunks| == |fields|
    ensures forall j :: 0 <= j < |fields| ==> |chunks[j]| == Width(fields[j])
  {
    seq(|fields|, j requires 0 <= j < |fields| => EncodeField(fields[j], vals[j]).value)
  }

  /** A range's encoding is its fields' encodings concatenated. */
  lemma {:induction false} EncodeRangeFlatten(fields: seq<Field>, vals: seq<Value>, k: nat)
    requires k <= |fields| == |vals|
    requires AllFit(fields, vals)
    ensures EncodeRange(fields, vals, k, |fields|).value == Flatten(Encodings(fields, vals), k)
    decreases |fields| - k
  {
    if k < |fields| {
      EncodeRangeFlatten(fields, vals, k + 1);
    }
  }

  // ---------------------------------------------------------- round trip

  /** Reading back a whole record from wherever its encoding sits: the
      stored values, with the cursor just past the record. */
  lemma RecordReadsBack(data: seq<Byte>, c: nat, fields: seq<Field>, vals: seq<Value>)
    requires |fields| == |vals|
    requires AllFit(fields, vals)
    requires HoldsAt(data, c, EncodeValues(fields, vals).value)
    ensures ReadValues(data, c, fields) == Ok(Decoded(StoredValues(fields, vals), c + RecordSize(fields)))
  {
    var chunks := Encodings(fields, vals);
    EncodeRangeFlatten(fields, vals, 0);
    forall j | 0 <= j < |fields| ensures Width(fields[j]) >= 0 {
      assert Fits(fields[j], vals[j]);
    }
    SlicesReadBack(data, c, fields, chunks, 0);
    var slices := ReadSlices(data, c, fields, 0).value.value;
    forall j | 0 <= j < |fields| ensures DecodeField(fields[j], slices[j]) == Stored(fields[j], vals[j]) {
      assert slices[j] == chunks[0 + j];
      DecodeEncodeField(fields[j], vals[j]);
    }
    DecodeFromStored(fields, vals, slices, 0);
  }

  /** Record round trip: a record written between any `pre` and `post`
      reads back as its stored values. */
  lemma RecordRoundTrip(fields: seq<Field>, vals: seq<Value>, pre: seq<Byte>, post: seq<Byte>)
    requires |fields| == |vals|
    requires AllFit(fields, vals)
    ensures ReadValues(pre + EncodeValues(fields, vals).value + post, |pre|, fields)
            == Ok(Decoded(StoredValues(fields, vals), |pre| + RecordSize(fields)))
  {
    var enc := EncodeValues(fields, vals).value;
    var data := pre + enc + post;
    assert data[|pre|..|pre| + |enc|] == enc;
    HoldsAtSlice(data, |pre|, enc);
    RecordReadsBack(data, |pre|, fields, vals);
  }

  // -------------------------------------------------------- the append loop

  /** The progress of `writeToBucket`'s append loop: the file contents so
      far and, if a field failed, why. */
  datatype Append = Append(data: seq<Byte>, failure: Option<Error>)

  /** The append loop as written, from field `k` on: each field is encoded
      and appended in turn, so a field that fails leaves the earlier fields'
      bytes behind. */
  function AppendFrom(data: seq<Byte>, fields: seq<Field>, vals: seq<Value>, k: nat): (r: Append)
    requires k <= |fields| == |vals|
    ensures r.failure.None? <==> FitRange(fields, vals, k, |fields|)
    ensures data <= r.data
    decreases |fields| - k
  {
    if k == |fields| then Append(data, None)
    else
      match EncodeField(fields[k], vals[k])
      case Err(e) => Append(data, Some(e))
      case Ok(b) => AppendFrom(data + b, fields, vals, k + 1)
  }

  /** The whole append loop of one write. */
  function AppendValues(data: seq<Byte>, fields: seq<Field>, vals: seq<Value>): (r: Append)
    requires |fields| == |vals|
    ensures r.failure.None? <==> AllFit(fields, vals)
    ensures data <= r.data
  {
    AppendFrom(data, fields, vals, 0)
  }

  /** When every field fits, the append loop writes exactly the record's
      encoding. */
  lemma AppendValuesComplete(data: seq<Byte>, fields: seq<Field>, vals: seq<Value>)
    requires |fields| == |vals|
    requires AllFit(fields, vals)
    ensures AppendValues(data, fields, vals).data == data + EncodeValues(fields, vals).value
  {
    AppendFromComplete(data, fields, vals, 0);
  }

  lemma {:induction false} AppendFromComplete(data: seq<Byte>, fields: seq<Field>, vals: seq<Value>, k: nat)
    requires k <= |fields| == |vals|
    requires FitRange(fields, vals, k, |fields|)
    ensures AppendFrom(data, fields, vals, k).data == data + EncodeRange(fields, vals, k, |fields|).value
    decreases |fields| - k
  {
    if k < |fields| {
      var b := EncodeField(fields[k], vals[k]).value;
      var rest := EncodeRange(fields, vals, k + 1, |fields|).value;
      AppendFromComplete(data + b, fields, vals, k + 1);
      assert data + b + rest == data + (b + rest);
    } else {
      assert data + [] == data;
    }
  }

  /** Index of the first field from `k` on whose value does not fit. */
  function FirstMisfit(fields: seq<Field>, vals: seq<Value>, k: nat): (m: nat)
    requires k <= |fields| == |vals|
    requires !FitRange(fields, vals, k, |fields|)
    ensures k <= m < |fields| && !Fits(fields[m], vals[m])
    ensures FitRange(fields, vals, k, m)
    decreases |fields| - k
  {
    if k < |fields| && !Fits(fields[k], vals[k]) then k
    else if k == |fields| then assert false; k
    else FirstMisfit(fields, vals, k + 1)
  }

  /** When some field does not fit, the append loop has already written the
      encodings of the fields before it and reports that field's error. */
  lemma AppendValuesPartial(data: seq<Byte>, fields: seq<Field>, vals: seq<Value>)
    requires |fields| == |vals|
    requires !AllFit(fields, vals)
    ensures var m := FirstMisfit(fields, vals, 0);
      && AppendValues(data, fields, vals).data == data + EncodeRange(fields, vals, 0, m).value
      && AppendValues(data, fields, vals).failure == Some(EncodeField(fields[m], vals[m]).error)
  {
    AppendFromPartial(data, fields, vals, 0);
  }

  lemma {:induction false} AppendFromPartial(data: seq<Byte>, fields: seq<Field>, vals: seq<Value>, k: nat)
    requires k <= |fields| == |vals|
    requires !FitRange(fields, vals, k, |fields|)
    ensures var m := FirstMisfit(fields, vals, k);
      && AppendFrom(data, fields, vals, k).data == data + EncodeRange(fields, vals, k, m).value
      && AppendFrom(data, fields, vals, k).failure == Some(EncodeField(fields[m], vals[m]).error)
    decreases |fields| - k
  {
    var m := FirstMisfit(fields, vals, k);
    if k == m {
      assert data + [] == data;
    } else {
      var b := EncodeField(fields[k], vals[k]).value;
      var rest := EncodeRange(fields, vals, k + 1, m).value;
      AppendFromPartial(data + b, fields, vals, k + 1);
      assert data + b + rest == data + (b + rest);
    }
  }
}
