/** One field's fixed-width encoding: the write switch of `writeToBucket`
    and the read switch of `readField` / `readMostRecent`. */
module FieldCodec {
  import opened Wrappers
  import opened Bytes
  import opened Errors
  import opened Schema
  import StringCodec

  /** A cursor read: the value and the position just after it. */
  datatype Decoded<+T> = Decoded(value: T, next: nat)

  /** The write succeeds on this field: the Java cast to the field's type
      succeeds and, for a STRING, the buffer size is a valid array size. */
  predicate Fits(f: Field, v: Value) {
    match f.fieldType
    case INT => v.IntV?
    case BOOLEAN => v.BoolV?
    case DOUBLE => v.DoubleV?
    case LONG => v.LongV?
    case STRING => v.StrV? && f.size >= 0
  }

  /** The bytes `writeToBucket` appends for one field. The cast happens
      before the buffer is allocated, so a wrong type is reported first. */
  function EncodeField(f: Field, v: Value): (r: Result<seq<Byte>, Error>)
    ensures r.Ok? <==> Fits(f, v)
    ensures r.Ok? ==> |r.value| == Width(f)
    ensures r.Err? ==> r.error == (if MatchesType(f, v) then NegativeArraySize else ClassCast)
  {
    match f.fieldType
    case INT => if v.IntV? then Ok(EncodeInt(v.i)) else Err(ClassCast)
    case BOOLEAN => if v.BoolV? then Ok([if v.b then 1 else 0]) else Err(ClassCast)
    case DOUBLE => if v.DoubleV? then Ok(EncodeBits(v.bits)) else Err(ClassCast)
    case STRING => if v.StrV? then StringCodec.StringToByteArray(Some(v.s), f.size) else Err(ClassCast)
    case LONG => if v.LongV? then Ok(EncodeLong(v.l)) else Err(ClassCast)
  }

  /** The value's constructor is the field's type. */
  predicate MatchesType(f: Field, v: Value) {
    match f.fieldType
    case INT => v.IntV?
    case BOOLEAN => v.BoolV?
    case DOUBLE => v.DoubleV?
    case LONG => v.LongV?
    case STRING => v.StrV?
  }

  /** `RandomAccessFile.readLong` at cursor `c`. */
  function ReadLong(data: seq<Byte>, c: nat): (r: Result<Decoded<Int64>, Error>)
    ensures r.Ok? <==> c + 8 <= |data|
    ensures r.Err? ==> r.error == EndOfFile
    ensures r.Ok? ==> r.value.next == c + 8 && EncodeLong(r.value.value) == data[c..c + 8]
  {
    if c + 8 <= |data| then
      LongBytesRoundTrip(data[c..c + 8]);
      Ok(Decoded(DecodeLong(data[c..c + 8]), c + 8))
    else Err(EndOfFile)
  }

  /** The value a field's bytes denote: `readInt`, `readBoolean` (any
      non-zero byte is true), `readDouble`, `readLong`, or the bytes of a
      STRING buffer up to its first zero byte. */
  function DecodeField(f: Field, s: seq<Byte>): (v: Value)
    requires |s| == Width(f)
    ensures MatchesType(f, v)
  {
    match f.fieldType
    case INT => IntV(DecodeInt(s))
    case BOOLEAN => BoolV(s[0] != 0)
    case DOUBLE => DoubleV(DecodeBits(s))
    case STRING => StrV(StringCodec.ByteArrayToString(Some(s)))
    case LONG => LongV(DecodeLong(s))
  }

  /** The bytes one field read consumes at cursor `c`: `Width(f)` of them.
      A negative STRING size fails the buffer allocation before anything is
      read; a read past the end of the file raises EOFException. */
  function ReadBytes(data: seq<Byte>, c: nat, f: Field): (r: Result<Decoded<seq<Byte>>, Error>)
    ensures r.Ok? <==> Width(f) >= 0 && c + Width(f) <= |data|
    ensures r.Ok? ==> r.value.next == c + Width(f) && r.value.value == data[c..r.value.next]
    ensures r.Err? ==> r.error == (if Width(f) < 0 then NegativeArraySize else EndOfFile)
  {
    var w := Width(f);
    if w < 0 then Err(NegativeArraySize)
    else if c + w <= |data| then Ok(Decoded(data[c..c + w], c + w))
    else Err(EndOfFile)
  }

  /** One field read at cursor `c` (`readField`): the field's bytes,
      decoded by its type. */
  function ReadField(data: seq<Byte>, c: nat, f: Field): (r: Result<Decoded<Value>, Error>)
    ensures r.Ok? <==> Width(f) >= 0 && c + Width(f) <= |data|
    ensures r.Ok? ==> r.value.next == c + Width(f) && MatchesType(f, r.value.value)
    ensures r.Err? ==> r.error == (if Width(f) < 0 then NegativeArraySize else EndOfFile)
  {
    var d :- ReadBytes(data, c, f);
    Ok(Decoded(DecodeField(f, d.value), d.next))
  }

  /** What reading a field back yields after writing `v` into it: the value
      itself, except that a string is truncated to the field size and cut
      at its first zero byte. */
  function Stored(f: Field, v: Value): Value
    requires Fits(f, v)
  {
    if f.fieldType == STRING then StrV(StringCodec.Stored(v.s, f.size)) else v
  }

  /** Field codec round trip: decoding a field's encoding yields the
      stored value. */
  lemma DecodeEncodeField(f: Field, v: Value)
    requires Fits(f, v)
    ensures DecodeField(f, EncodeField(f, v).value) == Stored(f, v)
  {
    match f.fieldType
    case INT => IntRoundTrip(v.i);
    case BOOLEAN =>
    case DOUBLE => BitsRoundTrip(v.bits);
    case LONG => LongRoundTrip(v.l);
    case STRING => StringCodec.StringRoundTrip(v.s, f.size);
  }

  /** Reading back: wherever a field's encoding sits in the file, reading
      the field there yields the stored value and moves the cursor past
      exactly its width. */
  lemma FieldReadsBack(data: seq<Byte>, c: nat, f: Field, v: Value)
    requires Fits(f, v)
    requires HoldsAt(data, c, EncodeField(f, v).value)
    ensures ReadField(data, c, f) == Ok(Decoded(Stored(f, v), c + Width(f)))
  {
    HoldsAtSlice(data, c, EncodeField(f, v).value);
    DecodeEncodeField(f, v);
  }

  /** Round trip: a field written between any `pre` and `post` reads back
      as its stored value. */
  lemma FieldRoundTrip(f: Field, v: Value, pre: seq<Byte>, post: seq<Byte>)
    requires Fits(f, v)
    ensures ReadField(pre + EncodeField(f, v).value + post, |pre|, f)
            == Ok(Decoded(Stored(f, v), |pre| + Width(f)))
  {
    var enc := EncodeField(f, v).value;
    var data := pre + enc + post;
    assert data[|pre|..|pre| + |enc|] == enc;
    HoldsAtSlice(data, |pre|, enc);
    FieldReadsBack(data, |pre|, f, v);
  }

  /** A string that fits its field and has no zero byte survives unchanged;
      every other fitting value always does. */
  lemma StoredExact(f: Field, v: Value)
    requires Fits(f, v)
    requires v.StrV? ==> |v.s| <= f.size && forall i :: 0 <= i < |v.s| ==> v.s[i] != 0
    ensures Stored(f, v) == v
  {
    if f.fieldType == STRING {
      assert v.s[..StringCodec.Min(|v.s|, f.size as nat)] == v.s;
      StringCodec.UntilZeroOfZeroFree(v.s);
    }
  }
}
