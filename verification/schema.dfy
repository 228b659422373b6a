/** A bucket's schema: typed fixed-width columns, the width table, the
    record size and the decoded record shape (`engine/model/Field.java`,
    `engine/model/ReadResponse.java`). */
module Schema {
  import opened Bytes

  datatype FieldType = INT | LONG | DOUBLE | BOOLEAN | STRING

  /** `size` is meaningful only for STRING fields. */
  datatype Field = Field(name: string, fieldType: FieldType, size: Int32)

  /** The Java objects a write may carry, one constructor per boxed type
      the engine casts to. A DOUBLE is its opaque 64-bit pattern; a string
      is its UTF-8 bytes. */
  datatype Value =
    | IntV(i: Int32)
    | LongV(l: Int64)
    | DoubleV(bits: Bits64)
    | BoolV(b: bool)
    | StrV(s: seq<Byte>)

  /** A decoded record: field name to value, as the engine's HashMap. */
  type Record = map<string, Value>

  const Timestamp: string := "timestamp"

  /** Bytes one field occupies: INT 4, BOOLEAN 1, DOUBLE and LONG 8, STRING its declared size. */
  function Width(f: Field): int {
    match f.fieldType
    case INT => 4
    case BOOLEAN => 1
    case DOUBLE => 8
    case LONG => 8
    case STRING => f.size
  }

  /** Bytes taken by fields `k..m-1`, in schema order. */
  function Span(fields: seq<Field>, k: nat, m: nat): int
    requires k <= m <= |fields|
    decreases m - k
  {
    if k == m then 0 else Width(fields[k]) + Span(fields, k + 1, m)
  }

  /** The record size: the widths of all fields. */
  function RecordSize(fields: seq<Field>): int {
    Span(fields, 0, |fields|)
  }

  /** Byte offset of field `j` inside a record: the widths of the fields before it. */
  function Offset(fields: seq<Field>, j: nat): int
    requires j <= |fields|
  {
    Span(fields, 0, j)
  }

  /** `calculateRecordSize`: one pass over the fields adding each width. */
  method CalculateRecordSize(fields: seq<Field>) returns (size: int)
    ensures size == RecordSize(fields)
    ensures size == 4 * Count(fields, INT) + Count(fields, BOOLEAN)
                    + 8 * (Count(fields, DOUBLE) + Count(fields, LONG)) + StringBytes(fields)
  {
    size := 0;
    var i := 0;
    while i < |fields|
      invariant i <= |fields|
      invariant size == Span(fields, 0, i)
    {
      SpanSplit(fields, 0, i, i + 1);
      size := size + match fields[i].fieldType {
        case INT => 4
        case BOOLEAN => 1
        case DOUBLE => 8
        case LONG => 8
        case STRING => fields[i].size as int
      };
      i := i + 1;
    }
    RecordSizeByType(fields);
  }

  /** A span splits at any index in between. */
  lemma {:induction false} SpanSplit(fields: seq<Field>, k: nat, j: nat, m: nat)
    requires k <= j <= m <= |fields|
    ensures Span(fields, k, m) == Span(fields, k, j) + Span(fields, j, m)
    decreases j - k
  {
    if k < j {
      SpanSplit(fields, k + 1, j, m);
    }
  }

  /** Every STRING field declares a size a byte array can have, so every
      width is non-negative. */
  predicate NonNegativeSizes(fields: seq<Field>) {
    NonNegativeFrom(fields, 0)
  }

  /** Fields `k..` all have a non-negative width. */
  predicate NonNegativeFrom(fields: seq<Field>, k: nat) {
    forall i :: k <= i < |fields| ==> Width(fields[i]) >= 0
  }

  lemma {:induction false} SpanNonNegative(fields: seq<Field>, k: nat, m: nat)
    requires k <= m <= |fields|
    requires NonNegativeFrom(fields, k)
    ensures 0 <= Span(fields, k, m)
    decreases m - k
  {
    if k < m {
      SpanNonNegative(fields, k + 1, m);
    }
  }

  /** Non-negative widths make the span grow with its end index. */
  lemma SpanWithin(fields: seq<Field>, k: nat, j: nat, m: nat)
    requires k <= j <= m <= |fields|
    requires NonNegativeFrom(fields, k)
    ensures 0 <= Span(fields, k, j) <= Span(fields, k, m)
  {
    SpanSplit(fields, k, j, m);
    SpanNonNegative(fields, k, j);
    SpanNonNegative(fields, j, m);
  }

  lemma RecordSizeNonNegative(fields: seq<Field>)
    requires NonNegativeSizes(fields)
    ensures RecordSize(fields) >= 0
  {
    SpanNonNegative(fields, 0, |fields|);
  }

  /** Field `j` starts `Offset(j)` bytes in and ends inside the record. */
  lemma OffsetBounds(fields: seq<Field>, j: nat)
    requires NonNegativeSizes(fields)
    requires j < |fields|
    ensures 0 <= Offset(fields, j)
    ensures Offset(fields, j + 1) == Offset(fields, j) + Width(fields[j])
    ensures Offset(fields, j) + Width(fields[j]) <= RecordSize(fields)
  {
    SpanNonNegative(fields, 0, j);
    SpanSplit(fields, 0, j, j + 1);
    SpanSplit(fields, 0, j + 1, |fields|);
    SpanNonNegative(fields, j + 1, |fields|);
  }

  /** The declared size of a non-STRING field plays no part in the record
      size: two schemas with the same types and the same STRING sizes have
      the same record size. */
  lemma RecordSizeIgnoresNonStringSize(a: seq<Field>, b: seq<Field>)
    requires |a| == |b|
    requires forall i :: 0 <= i < |a| ==> a[i].fieldType == b[i].fieldType
    requires forall i :: 0 <= i < |a| && a[i].fieldType == STRING ==> a[i].size == b[i].size
    ensures RecordSize(a) == RecordSize(b)
  {
    SpanIgnoresNonStringSize(a, b, 0);
  }

  lemma {:induction false} SpanIgnoresNonStringSize(a: seq<Field>, b: seq<Field>, k: nat)
    requires k <= |a| == |b|
    requires forall i :: 0 <= i < |a| ==> a[i].fieldType == b[i].fieldType
    requires forall i :: 0 <= i < |a| && a[i].fieldType == STRING ==> a[i].size == b[i].size
    ensures Span(a, k, |a|) == Span(b, k, |b|)
    decreases |a| - k
  {
    if k < |a| {
      SpanIgnoresNonStringSize(a, b, k + 1);
    }
  }

  /** Number of fields of type `t`. */
  function Count(fields: seq<Field>, t: FieldType): nat {
    |set i | 0 <= i < |fields| && fields[i].fieldType == t|
  }

  /** The declared sizes of the STRING fields, added up. */
  function StringBytes(fields: seq<Field>): int {
    StringBytesFrom(fields, 0)
  }

  function StringBytesFrom(fields: seq<Field>, k: nat): int
    requires k <= |fields|
    decreases |fields| - k
  {
    if k == |fields| then 0
    else (if fields[k].fieldType == STRING then fields[k].size as int else 0) + StringBytesFrom(fields, k + 1)
  }

  /** The record size counts each type by its width: the number of INT
      fields times 4, plus BOOLEANs, plus 8 per DOUBLE or LONG, plus the
      declared STRING sizes. */
  lemma RecordSizeByType(fields: seq<Field>)
    ensures RecordSize(fields) ==
      4 * Count(fields, INT) + Count(fields, BOOLEAN)
      + 8 * (Count(fields, DOUBLE) + Count(fields, LONG)) + StringBytes(fields)
  {
    SpanByType(fields, 0);
    CountIsOfType(fields, INT);
    CountIsOfType(fields, BOOLEAN);
    CountIsOfType(fields, DOUBLE);
    CountIsOfType(fields, LONG);
  }

  lemma CountIsOfType(fields: seq<Field>, t: FieldType)
    ensures Count(fields, t) == |OfType(fields, t, 0)|
  {
    OfTypeMembers(fields, t, 0);
    assert (set i | 0 <= i < |fields| && fields[i].fieldType == t) == OfType(fields, t, 0);
  }

  /** The indices `k..` of fields of type `t`. */
  function OfType(fields: seq<Field>, t: FieldType, k: nat): set<nat>
    requires k <= |fields|
    decreases |fields| - k
  {
    if k == |fields| then {} else (if fields[k].fieldType == t then {k} else {}) + OfType(fields, t, k + 1)
  }

  lemma {:induction false} OfTypeMembers(fields: seq<Field>, t: FieldType, k: nat)
    requires k <= |fields|
    ensures forall i :: i in OfType(fields, t, k) <==> k <= i < |fields| && fields[i].fieldType == t
    decreases |fields| - k
  {
    if k < |fields| {
      OfTypeMembers(fields, t, k + 1);
    }
  }

  lemma {:induction false} SpanByType(fields: seq<Field>, k: nat)
    requires k <= |fields|
    ensures Span(fields, k, |fields|) ==
      4 * |OfType(fields, INT, k)| + |OfType(fields, BOOLEAN, k)|
      + 8 * (|OfType(fields, DOUBLE, k)| + |OfType(fields, LONG, k)|) + StringBytesFrom(fields, k)
    decreases |fields| - k
  {
    if k < |fields| {
      SpanByType(fields, k + 1);
      OfTypeStep(fields, INT, k);
      OfTypeStep(fields, BOOLEAN, k);
      OfTypeStep(fields, DOUBLE, k);
      OfTypeStep(fields, LONG, k);
    }
  }

  /** Field `k` adds one to the count of its own type and nothing to the others. */
  lemma OfTypeStep(fields: seq<Field>, t: FieldType, k: nat)
    requires k < |fields|
    ensures |OfType(fields, t, k)| == (if fields[k].fieldType == t then 1 else 0) + |OfType(fields, t, k + 1)|
  {
    OfTypeMembers(fields, t, k + 1);
    assert k !in OfType(fields, t, k + 1);
  }

  predicate UniqueNames(fields: seq<Field>) {
    forall i, j :: 0 <= i < j < |fields| ==> fields[i].name != fields[j].name
  }

  /** The names of fields `0..n-1`. */
  function NamesUpTo(fields: seq<Field>, n: nat): set<string>
    requires n <= |fields|
  {
    set i | 0 <= i < n :: fields[i].name
  }

  /** The decoded record: each field's value put under its name, in schema
      order, so a later field with the same name overwrites an earlier one. */
  function ToRecord(fields: seq<Field>, vals: seq<Value>): Record
    requires |fields| == |vals|
  {
    RecordUpTo(fields, vals, |fields|)
  }

  /** The map after the puts of fields `0..n-1`. */
  function RecordUpTo(fields: seq<Field>, vals: seq<Value>, n: nat): Record
    requires n <= |fields| == |vals|
  {
    if n == 0 then map[] else RecordUpTo(fields, vals, n - 1)[fields[n - 1].name := vals[n - 1]]
  }

  /** The record has exactly the schema's field names as keys. */
  lemma ToRecordKeys(fields: seq<Field>, vals: seq<Value>)
    requires |fields| == |vals|
    ensures ToRecord(fields, vals).Keys == NamesUpTo(fields, |fields|)
  {
    RecordUpToKeys(fields, vals, |fields|);
  }

  lemma {:induction false} RecordUpToKeys(fields: seq<Field>, vals: seq<Value>, n: nat)
    requires n <= |fields| == |vals|
    ensures RecordUpTo(fields, vals, n).Keys == NamesUpTo(fields, n)
  {
    if n > 0 {
      RecordUpToKeys(fields, vals, n - 1);
      assert NamesUpTo(fields, n) == NamesUpTo(fields, n - 1) + {fields[n - 1].name} by {
        forall x | x in NamesUpTo(fields, n) ensures x in NamesUpTo(fields, n - 1) + {fields[n - 1].name} {
          var i :| 0 <= i < n && fields[i].name == x;
        }
      }
    }
  }

  /** A field whose name no other field shares is found under that name. */
  lemma ToRecordLookup(fields: seq<Field>, vals: seq<Value>, i: nat)
    requires |fields| == |vals|
    requires i < |fields|
    requires forall j :: 0 <= j < |fields| && j != i ==> fields[j].name != fields[i].name
    ensures fields[i].name in ToRecord(fields, vals) && ToRecord(fields, vals)[fields[i].name] == vals[i]
  {
    RecordUpToLookup(fields, vals, i, |fields|);
  }

  lemma {:induction false} RecordUpToLookup(fields: seq<Field>, vals: seq<Value>, i: nat, n: nat)
    requires n <= |fields| == |vals|
    requires i < n
    requires forall j :: i < j < n ==> fields[j].name != fields[i].name
    ensures fields[i].name in RecordUpTo(fields, vals, n) && RecordUpTo(fields, vals, n)[fields[i].name] == vals[i]
    decreases n
  {
    if i < n - 1 {
      RecordUpToLookup(fields, vals, i, n - 1);
    }
  }
}
