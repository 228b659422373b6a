/** The fixed-width string codec of `Utils`: a string travels as its UTF-8
    bytes, left-justified in a zero-padded buffer, and is read back up to
    the first zero byte. A Java `null` string is `None`. */
module StringCodec {
  import opened Wrappers
  import opened Bytes
  import opened Errors

  function Min(a: int, b: int): int {
    if a <= b then a else b
  }

  function Zeros(n: nat): (z: seq<Byte>)
    ensures |z| == n
    ensures forall i :: 0 <= i < n ==> z[i] == 0
  {
    seq(n, _ => 0)
  }

  /** `stringToByteArray(input, bufferSize)`: `new byte[bufferSize]` filled
      with the first `min(len, bufferSize)` bytes of the input. */
  function StringToByteArray(input: Option<seq<Byte>>, bufferSize: int): (r: Result<seq<Byte>, Error>)
    ensures r.Err? <==> bufferSize < 0
    ensures r.Err? ==> r.error == NegativeArraySize
    ensures r.Ok? ==> |r.value| == bufferSize
    ensures r.Ok? ==> forall i :: 0 <= i < bufferSize ==>
              r.value[i] == (if i < |input.GetOr([])| then input.GetOr([])[i] else 0)
  {
    if bufferSize < 0 then Err(NegativeArraySize)
    else
      var bytes := input.GetOr([]);
      var n := Min(|bytes|, bufferSize);
      Ok(bytes[..n] + Zeros(bufferSize - n))
  }

  /** `stringTo256ByteArray(input)`: the same layout in a 256-byte buffer. */
  function StringTo256ByteArray(input: Option<seq<Byte>>): (r: seq<Byte>)
    ensures |r| == 256
    ensures StringToByteArray(input, 256) == Ok(r)
  {
    var bytes := input.GetOr([]);
    var n := Min(|bytes|, 256);
    bytes[..n] + Zeros(256 - n)
  }

  /** The bytes before the first zero byte (all of them when there is none). */
  function UntilZero(s: seq<Byte>): (r: seq<Byte>)
    ensures r <= s
    ensures forall i :: 0 <= i < |r| ==> r[i] != 0
    ensures |r| < |s| ==> s[|r|] == 0
  {
    if |s| == 0 || s[0] == 0 then [] else [s[0]] + UntilZero(s[1..])
  }

  /** `byteArrayToString(input)`. */
  function ByteArrayToString(input: Option<seq<Byte>>): (r: seq<Byte>)
    ensures input.None? ==> r == []
    ensures input.Some? ==> r <= input.value && (|r| < |input.value| ==> input.value[|r|] == 0)
    ensures forall i :: 0 <= i < |r| ==> r[i] != 0
  {
    match input
    case None => []
    case Some(s) => UntilZero(s)
  }

  /** `byteArray256ToString(input)`: only a buffer of exactly 256 bytes decodes. */
  function ByteArray256ToString(input: Option<seq<Byte>>): (r: seq<Byte>)
    ensures input.None? || |input.value| != 256 ==> r == []
    ensures input.Some? && |input.value| == 256 ==> r == ByteArrayToString(input)
  {
    if input.None? || |input.value| != 256 then [] else UntilZero(input.value)
  }

  /** A byte sequence without zeros is its own decoding. */
  lemma {:induction false} UntilZeroOfZeroFree(s: seq<Byte>)
    requires forall i :: 0 <= i < |s| ==> s[i] != 0
    ensures UntilZero(s) == s
  {
    if |s| > 0 {
      UntilZeroOfZeroFree(s[1..]);
      assert s == [s[0]] + s[1..];
    }
  }

  /** Decoding stops at the first zero whatever follows it. */
  lemma {:induction false} UntilZeroOfPadded(s: seq<Byte>, tail: seq<Byte>)
    requires forall i :: 0 <= i < |s| ==> s[i] != 0
    requires |tail| > 0 && tail[0] == 0
    ensures UntilZero(s + tail) == s
  {
    if |s| == 0 {
      assert s + tail == tail;
    } else {
      assert (s + tail)[1..] == s[1..] + tail;
      UntilZeroOfPadded(s[1..], tail);
      assert s == [s[0]] + s[1..];
    }
  }

  /** What a string field holds after a write and a read: the first
      `size` bytes of the input, cut at the first zero. */
  function Stored(bytes: seq<Byte>, size: nat): (r: seq<Byte>)
  {
    UntilZero(bytes[..Min(|bytes|, size)])
  }

  /** Writing then reading a string: the decoding of the encoding is the
      (truncated) input up to its first zero byte. */
  lemma StringRoundTrip(bytes: seq<Byte>, size: nat)
    ensures ByteArrayToString(Some(StringToByteArray(Some(bytes), size).value)) == Stored(bytes, size)
  {
    var n := Min(|bytes|, size);
    var buf := StringToByteArray(Some(bytes), size).value;
    assert buf == bytes[..n] + Zeros(size - n);
    StoredPrefix(bytes[..n], Zeros(size - n));
  }

  /** Decoding a prefix followed by zero padding ignores the padding. */
  lemma {:induction false} StoredPrefix(s: seq<Byte>, pad: seq<Byte>)
    requires forall i :: 0 <= i < |pad| ==> pad[i] == 0
    ensures UntilZero(s + pad) == UntilZero(s)
  {
    if |s| == 0 {
      assert s + pad == pad;
    } else if s[0] == 0 {
    } else {
      assert (s + pad)[1..] == s[1..] + pad;
      StoredPrefix(s[1..], pad);
    }
  }

  /** The round trip is exact for a zero-free input that fits the buffer. */
  lemma StringRoundTripExact(bytes: seq<Byte>, size: nat)
    requires |bytes| <= size
    requires forall i :: 0 <= i < |bytes| ==> bytes[i] != 0
    ensures ByteArrayToString(Some(StringToByteArray(Some(bytes), size).value)) == bytes
  {
    StringRoundTrip(bytes, size);
    assert bytes[..Min(|bytes|, size)] == bytes;
    UntilZeroOfZeroFree(bytes);
  }

  /** A longer zero-free input comes back cut to exactly `size` bytes. */
  lemma StringRoundTripTruncates(bytes: seq<Byte>, size: nat)
    requires size <= |bytes|
    requires forall i :: 0 <= i < |bytes| ==> bytes[i] != 0
    ensures ByteArrayToString(Some(StringToByteArray(Some(bytes), size).value)) == bytes[..size]
  {
    StringRoundTrip(bytes, size);
    UntilZeroOfZeroFree(bytes[..size]);
  }

  /** A null string encodes to an all-zero buffer, which decodes to "". */
  lemma NullEncodesToZeros(size: nat)
    ensures StringToByteArray(None, size) == Ok(Zeros(size))
    ensures ByteArrayToString(Some(Zeros(size))) == []
  {
    assert StringToByteArray(None, size).value == Zeros(size);
    if size > 0 {
      assert Zeros(size)[0] == 0;
    }
  }

  /** The 256-byte variants round-trip the same way. */
  lemma String256RoundTrip(bytes: seq<Byte>)
    requires |bytes| <= 256
    requires forall i :: 0 <= i < |bytes| ==> bytes[i] != 0
    ensures ByteArray256ToString(Some(StringTo256ByteArray(Some(bytes)))) == bytes
  {
    StringRoundTripExact(bytes, 256);
  }
}
