/** Fixed-width big-endian integers over bytes, as written by Java's
    `DataOutputStream.writeInt/writeLong` and read back by
    `RandomAccessFile.readInt/readLong`. */
module Bytes {

  type Byte = b: int | 0 <= b < 256

  /** Java `int`, `long` and the raw 64-bit pattern of a `double`. */
  type Int32 = x: int | -0x8000_0000 <= x < 0x8000_0000
  type Int64 = x: int | -0x8000_0000_0000_0000 <= x < 0x8000_0000_0000_0000
  type Bits64 = x: int | 0 <= x < 0x1_0000_0000_0000_0000

  function Pow256(n: nat): (p: nat)
    ensures p > 0
  {
    if n == 0 then 1 else 256 * Pow256(n - 1)
  }

  lemma Pow256Widths()
    ensures Pow256(4) == 0x1_0000_0000
    ensures Pow256(8) == 0x1_0000_0000_0000_0000
  {
    assert Pow256(1) == 256;
    assert Pow256(2) == 0x1_0000;
    assert Pow256(3) == 0x100_0000;
    assert Pow256(4) == 0x1_0000_0000;
    assert Pow256(5) == 0x100_0000_0000;
    assert Pow256(6) == 0x1_0000_0000_0000;
    assert Pow256(7) == 0x100_0000_0000_0000;
  }

  /** The unsigned big-endian number a byte sequence denotes. */
  function FromBytes(s: seq<Byte>): (n: nat)
    ensures n < Pow256(|s|)
  {
    if |s| == 0 then 0
    else
      var m := FromBytes(s[..|s| - 1]);
      assert m + 1 <= Pow256(|s| - 1);
      assert (m + 1) * 256 <= Pow256(|s| - 1) * 256;
      m * 256 + s[|s| - 1]
  }

  /** The `width`-byte big-endian spelling of `n`. */
  function ToBytes(n: nat, width: nat): (s: seq<Byte>)
    requires n < Pow256(width)
    ensures |s| == width
  {
    if width == 0 then []
    else
      assert n / 256 < Pow256(width - 1) by {
        DivBound(n, Pow256(width - 1));
      }
      ToBytes(n / 256, width - 1) + [n % 256]
  }

  lemma DivBound(n: nat, p: nat)
    requires n < 256 * p
    ensures n / 256 < p
  {
  }

  lemma {:induction false} FromToBytes(n: nat, width: nat)
    requires n < Pow256(width)
    ensures FromBytes(ToBytes(n, width)) == n
  {
    if width > 0 {
      var s := ToBytes(n, width);
      DivBound(n, Pow256(width - 1));
      assert s[..|s| - 1] == ToBytes(n / 256, width - 1);
      FromToBytes(n / 256, width - 1);
    }
  }

  lemma {:induction false} ToFromBytes(s: seq<Byte>)
    ensures ToBytes(FromBytes(s), |s|) == s
  {
    if |s| > 0 {
      var t := s[..|s| - 1];
      var n := FromBytes(s);
      assert n == FromBytes(t) * 256 + s[|s| - 1];
      assert n / 256 == FromBytes(t);
      assert n % 256 == s[|s| - 1];
      ToFromBytes(t);
      assert s == t + [s[|s| - 1]];
    }
  }

  /** `DataOutputStream.writeInt`: four bytes, big-endian two's complement. */
  function EncodeInt(x: Int32): (s: seq<Byte>)
    ensures |s| == 4
  {
    Pow256Widths();
    ToBytes(if x < 0 then x + 0x1_0000_0000 else x, 4)
  }

  /** `RandomAccessFile.readInt`. */
  function DecodeInt(s: seq<Byte>): Int32
    requires |s| == 4
  {
    Pow256Widths();
    var u := FromBytes(s);
    if u >= 0x8000_0000 then u - 0x1_0000_0000 else u
  }

  /** `DataOutputStream.writeLong`: eight bytes, big-endian two's complement. */
  function EncodeLong(x: Int64): (s: seq<Byte>)
    ensures |s| == 8
  {
    Pow256Widths();
    ToBytes(if x < 0 then x + 0x1_0000_0000_0000_0000 else x, 8)
  }

  /** `RandomAccessFile.readLong`. */
  function DecodeLong(s: seq<Byte>): Int64
    requires |s| == 8
  {
    Pow256Widths();
    var u := FromBytes(s);
    if u >= 0x8000_0000_0000_0000 then u - 0x1_0000_0000_0000_0000 else u
  }

  /** A `double` travels as its 64-bit pattern (`writeDouble` is
      `writeLong(doubleToLongBits(d))`); the pattern itself is opaque here. */
  function EncodeBits(x: Bits64): (s: seq<Byte>)
    ensures |s| == 8
  {
    Pow256Widths();
    ToBytes(x, 8)
  }

  function DecodeBits(s: seq<Byte>): Bits64
    requires |s| == 8
  {
    Pow256Widths();
    FromBytes(s)
  }

  lemma IntRoundTrip(x: Int32)
    ensures DecodeInt(EncodeInt(x)) == x
  {
    Pow256Widths();
    FromToBytes(if x < 0 then x + 0x1_0000_0000 else x, 4);
  }

  lemma IntBytesRoundTrip(s: seq<Byte>)
    requires |s| == 4
    ensures EncodeInt(DecodeInt(s)) == s
  {
    Pow256Widths();
    ToFromBytes(s);
  }

  lemma LongRoundTrip(x: Int64)
    ensures DecodeLong(EncodeLong(x)) == x
  {
    Pow256Widths();
    FromToBytes(if x < 0 then x + 0x1_0000_0000_0000_0000 else x, 8);
  }

  lemma LongBytesRoundTrip(s: seq<Byte>)
    requires |s| == 8
    ensures EncodeLong(DecodeLong(s)) == s
  {
    Pow256Widths();
    ToFromBytes(s);
  }

  lemma BitsRoundTrip(x: Bits64)
    ensures DecodeBits(EncodeBits(x)) == x
  {
    Pow256Widths();
    FromToBytes(x, 8);
  }

  /** The file `data` holds `bytes` from offset `c` on. */
  predicate HoldsAt(data: seq<Byte>, c: nat, bytes: seq<Byte>) {
    HoldsFrom(data, c, bytes, 0)
  }

  /** Bytes `i..` of `bytes` sit at offsets `c+i..` of `data`, checked one index at a time. */
  predicate HoldsFrom(data: seq<Byte>, c: nat, bytes: seq<Byte>, i: nat)
    decreases |bytes| - i
  {
    if i >= |bytes| then c + |bytes| <= |data|
    else c + i < |data| && data[c + i] == bytes[i] && HoldsFrom(data, c, bytes, i + 1)
  }

  lemma {:induction false} HoldsFromAll(data: seq<Byte>, c: nat, bytes: seq<Byte>, i: nat)
    requires i <= |bytes|
    ensures HoldsFrom(data, c, bytes, i) <==>
      c + |bytes| <= |data| && forall j :: i <= j < |bytes| ==> data[c + j] == bytes[j]
    decreases |bytes| - i
  {
    if i < |bytes| {
      HoldsFromAll(data, c, bytes, i + 1);
    }
  }

  lemma HoldsAtSlice(data: seq<Byte>, c: nat, bytes: seq<Byte>)
    ensures HoldsAt(data, c, bytes) <==> c + |bytes| <= |data| && data[c..c + |bytes|] == bytes
  {
    HoldsFromAll(data, c, bytes, 0);
    if c + |bytes| <= |data| && data[c..c + |bytes|] == bytes {
      forall j | 0 <= j < |bytes| ensures data[c + j] == bytes[j] {
        assert data[c..c + |bytes|][j] == data[c + j];
      }
    }
  }

  lemma HoldsAtAppend(data: seq<Byte>, c: nat, a: seq<Byte>, b: seq<Byte>)
    ensures HoldsAt(data, c, a + b) <==> HoldsAt(data, c, a) && HoldsAt(data, c + |a|, b)
  {
    HoldsFromAll(data, c, a + b, 0);
    HoldsFromAll(data, c, a, 0);
    HoldsFromAll(data, c + |a|, b, 0);
    if HoldsAt(data, c, a) && HoldsAt(data, c + |a|, b) {
      forall j | 0 <= j < |a + b| ensures data[c + j] == (a + b)[j] {
        if j >= |a| {
          assert data[(c + |a|) + (j - |a|)] == b[j - |a|];
        }
      }
    }
    if HoldsAt(data, c, a + b) {
      forall j | 0 <= j < |a| ensures data[c + j] == a[j] {
        assert data[c + j] == (a + b)[j];
      }
      forall j | 0 <= j < |b| ensures data[c + |a| + j] == b[j] {
        assert data[c + (|a| + j)] == (a + b)[|a| + j];
      }
    }
  }
}
