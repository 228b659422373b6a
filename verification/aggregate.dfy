/** `aggregateRead` (`engine/Engine.java`) and its predecessor
    `calculateAggregateInTimeRange` with the four `read…InTimeRange`
    wrappers (`Engine.java`): the sum, average, minimum or maximum of one
    numeric field over the records of a time window. Java's `double`
    arithmetic is modelled on `real`; a DOUBLE field's 64-bit pattern is
    turned into its value by the parameter `toReal`. Both aggregates read
    their records with `readInTimeRange` as written; `AggregateReadRealigned`
    is the same aggregate over the corrected scan. */
module Aggregation {
  import opened Wrappers
  import opened Bytes
  import opened Errors
  import opened Schema
  import opened Store
  import opened TimeRange

  datatype Op = Sum | Avg | Min | Max

  function OpName(o: Op): string {
    match o
    case Sum => "sum"
    case Avg => "avg"
    case Min => "min"
    case Max => "max"
  }

  /** The operation a name denotes under exact comparison (`operation.equals`). */
  function ParseOp(name: string): (o: Option<Op>)
    ensures o.Some? ==> OpName(o.value) == name
    ensures o.None? ==> forall p: Op :: OpName(p) != name
  {
    if name == "sum" then Some(Sum)
    else if name == "avg" then Some(Avg)
    else if name == "min" then Some(Min)
    else if name == "max" then Some(Max)
    else None
  }

  lemma ParseOpName(o: Op)
    ensures ParseOp(OpName(o)) == Some(o)
  {
  }

  // ------------------------------------------------------------ lower case

  /** `Character.toLowerCase` on the ASCII letters; every other character is kept. */
  function LowerChar(c: char): char {
    if 'A' <= c <= 'Z' then (c as int + 32) as char else c
  }

  /** `String.toLowerCase` for ASCII text. */
  function Lower(s: string): (r: string)
    ensures |r| == |s|
    ensures forall i :: 0 <= i < |s| ==> r[i] == LowerChar(s[i])
  {
    seq(|s|, i requires 0 <= i < |s| => LowerChar(s[i]))
  }

  /** Lower-casing twice is lower-casing once. */
  lemma LowerIdempotent(s: string)
    ensures Lower(Lower(s)) == Lower(s)
  {
  }

  /** The operation names are already lower case. */
  lemma LowerOpName(o: Op)
    ensures Lower(OpName(o)) == OpName(o)
  {
  }

  // --------------------------------------------------------- field lookup

  /** The first field named `name` among `fields[k..]`: the lookup loop
      breaks at the first match. */
  function FindField(fields: seq<Field>, name: string, k: nat): (r: Option<nat>)
    requires k <= |fields|
    ensures r.Some? ==> k <= r.value < |fields| && fields[r.value].name == name
    ensures r.Some? ==> forall j :: k <= j < r.value ==> fields[j].name != name
    ensures r.None? <==> forall j :: k <= j < |fields| ==> fields[j].name != name
    decreases |fields| - k
  {
    if k == |fields| then None
    else if fields[k].name == name then Some(k)
    else FindField(fields, name, k + 1)
  }

  /** The types an aggregate accepts. */
  predicate Numeric(t: FieldType) {
    t == INT || t == DOUBLE || t == LONG
  }

  /** The cast `(Integer)`, `(Double)` or `(Long)` chosen by the target
      field's type, widened to `double`. */
  function ToNumber(t: FieldType, v: Value, toReal: Bits64 -> real): (r: Result<real, Error>)
    requires Numeric(t)
    ensures r.Ok? <==> (t == INT && v.IntV?) || (t == LONG && v.LongV?) || (t == DOUBLE && v.DoubleV?)
    ensures r.Err? ==> r.error == ClassCast
  {
    match t
    case INT => if v.IntV? then Ok(v.i as real) else Err(ClassCast)
    case LONG => if v.LongV? then Ok(v.l as real) else Err(ClassCast)
    case DOUBLE => if v.DoubleV? then Ok(toReal(v.bits)) else Err(ClassCast)
  }

  // ----------------------------------------------------------------- loop

  /** The loop's `result` and `firstValue`. */
  datatype Acc = Acc(result: real, first: bool)

  const Initial: Acc := Acc(0.0, true)

  /** One value folded in: `sum` and `avg` add it; `min` and `max` take it
      when it is the first value or beats the result so far. */
  function Step(o: Op, a: Acc, x: real): Acc {
    match o
    case Sum => Acc(a.result + x, a.first)
    case Avg => Acc(a.result + x, a.first)
    case Min => if a.first || x < a.result then Acc(x, false) else a
    case Max => if a.first || x > a.result then Acc(x, false) else a
  }

  /** The aggregation loop over `records[k..]` from state `a`. A record
      without the field is skipped; otherwise its value is cast and then
      the operation picks the step, an operation it does not know
      (`None`) throwing. */
  function Loop(records: seq<Record>, fieldName: string, t: FieldType, toReal: Bits64 -> real,
                op: Option<Op>, opText: string, k: nat, a: Acc): Result<Acc, Error>
    requires Numeric(t)
    requires k <= |records|
    decreases |records| - k
  {
    if k == |records| then Ok(a)
    else if fieldName !in records[k] then Loop(records, fieldName, t, toReal, op, opText, k + 1, a)
    else
      var x :- ToNumber(t, records[k][fieldName], toReal);
      match op
      case None => Err(UnsupportedOperation(opText))
      case Some(o) => Loop(records, fieldName, t, toReal, op, opText, k + 1, Step(o, a, x))
  }

  /** The loop as the engine runs it. */
  method RunLoop(records: seq<Record>, fieldName: string, t: FieldType, toReal: Bits64 -> real,
                 op: Option<Op>, opText: string) returns (r: Result<Acc, Error>)
    requires Numeric(t)
    ensures r == Loop(records, fieldName, t, toReal, op, opText, 0, Initial)
  {
    var acc := Initial;
    var k := 0;
    while k < |records|
      invariant k <= |records|
      invariant Loop(records, fieldName, t, toReal, op, opText, 0, Initial)
                == Loop(records, fieldName, t, toReal, op, opText, k, acc)
    {
      if fieldName in records[k] {
        var x := ToNumber(t, records[k][fieldName], toReal);
        if x.Err? {
          return Err(x.error);
        }
        if op.None? {
          return Err(UnsupportedOperation(opText));
        }
        acc := Step(op.value, acc, x.value);
      }
      k := k + 1;
    }
    r := Ok(acc);
  }

  // ------------------------------------------------------------ reference

  /** The numbers the loop sees: the cast field value of each record that
      has the field, in order; the first failing cast is the outcome. */
  function Numbers(records: seq<Record>, fieldName: string, t: FieldType, toReal: Bits64 -> real, k: nat): (r: Result<seq<real>, Error>)
    requires Numeric(t)
    requires k <= |records|
    decreases |records| - k
  {
    if k == |records| then Ok([])
    else if fieldName !in records[k] then Numbers(records, fieldName, t, toReal, k + 1)
    else
      var x :- ToNumber(t, records[k][fieldName], toReal);
      var rest :- Numbers(records, fieldName, t, toReal, k + 1);
      Ok([x] + rest)
  }

  /** The steps of one operation folded over a list of numbers. */
  function Fold(o: Op, xs: seq<real>, a: Acc): Acc
    decreases |xs|
  {
    if |xs| == 0 then a else Fold(o, xs[1..], Step(o, a, xs[0]))
  }

  function Total(xs: seq<real>): real
    decreases |xs|
  {
    if |xs| == 0 then 0.0 else xs[0] + Total(xs[1..])
  }

  /** `m` is an element of `xs` no greater than any other. */
  predicate IsLeast(m: real, xs: seq<real>) {
    m in xs && forall i :: 0 <= i < |xs| ==> m <= xs[i]
  }

  predicate IsGreatest(m: real, xs: seq<real>) {
    m in xs && forall i :: 0 <= i < |xs| ==> m >= xs[i]
  }

  /** With a known operation the loop folds exactly the numbers of the
      records, stopping at the first failing cast. */
  lemma {:induction false} LoopIsFold(records: seq<Record>, fieldName: string, t: FieldType, toReal: Bits64 -> real,
                                      o: Op, opText: string, k: nat, a: Acc)
    requires Numeric(t)
    requires k <= |records|
    ensures Loop(records, fieldName, t, toReal, Some(o), opText, k, a) ==
      match Numbers(records, fieldName, t, toReal, k)
      case Err(e) => Err(e)
      case Ok(xs) => Ok(Fold(o, xs, a))
    decreases |records| - k
  {
    if k < |records| {
      if fieldName !in records[k] {
        LoopIsFold(records, fieldName, t, toReal, o, opText, k + 1, a);
      } else {
        var x := ToNumber(t, records[k][fieldName], toReal);
        if x.Ok? {
          LoopIsFold(records, fieldName, t, toReal, o, opText, k + 1, Step(o, a, x.value));
          var rest := Numbers(records, fieldName, t, toReal, k + 1);
          if rest.Ok? {
            assert ([x.value] + rest.value)[1..] == rest.value;
          }
        }
      }
    }
  }

  /** `sum` and `avg` add every number to the starting result. */
  lemma {:induction false} FoldAdds(o: Op, xs: seq<real>, a: Acc)
    requires o == Sum || o == Avg
    ensures Fold(o, xs, a).result == a.result + Total(xs)
    decreases |xs|
  {
    if |xs| > 0 {
      FoldAdds(o, xs[1..], Step(o, a, xs[0]));
    }
  }

  /** After a first value, `min` keeps the least of the result so far and the numbers still to come. */
  lemma {:induction false} FoldMinAfter(xs: seq<real>, m: real)
    ensures Fold(Min, xs, Acc(m, false)).result <= m
    ensures Fold(Min, xs, Acc(m, false)).result == m || Fold(Min, xs, Acc(m, false)).result in xs
    ensures forall i :: 0 <= i < |xs| ==> Fold(Min, xs, Acc(m, false)).result <= xs[i]
    decreases |xs|
  {
    if |xs| > 0 {
      var next := Step(Min, Acc(m, false), xs[0]);
      FoldMinAfter(xs[1..], next.result);
      forall i | 0 < i < |xs| ensures xs[i] == xs[1..][i - 1] {
      }
    }
  }

  lemma {:induction false} FoldMaxAfter(xs: seq<real>, m: real)
    ensures Fold(Max, xs, Acc(m, false)).result >= m
    ensures Fold(Max, xs, Acc(m, false)).result == m || Fold(Max, xs, Acc(m, false)).result in xs
    ensures forall i :: 0 <= i < |xs| ==> Fold(Max, xs, Acc(m, false)).result >= xs[i]
    decreases |xs|
  {
    if |xs| > 0 {
      var next := Step(Max, Acc(m, false), xs[0]);
      FoldMaxAfter(xs[1..], next.result);
      forall i | 0 < i < |xs| ensures xs[i] == xs[1..][i - 1] {
      }
    }
  }

  /** From the loop's initial state, `min` and `max` of a non-empty list
      are its least and greatest elements, and 0 for an empty one. */
  lemma FoldExtremes(xs: seq<real>)
    ensures |xs| == 0 ==> Fold(Min, xs, Initial).result == 0.0 && Fold(Max, xs, Initial).result == 0.0
    ensures |xs| > 0 ==> IsLeast(Fold(Min, xs, Initial).result, xs)
    ensures |xs| > 0 ==> IsGreatest(Fold(Max, xs, Initial).result, xs)
  {
    if |xs| > 0 {
      FoldMinAfter(xs[1..], xs[0]);
      FoldMaxAfter(xs[1..], xs[0]);
      assert xs == [xs[0]] + xs[1..];
      forall i | 0 < i < |xs| ensures xs[i] == xs[1..][i - 1] {
      }
    }
  }

  // ------------------------------------------------------------ aggregate

  /** The response `{ "<field>_<op>": value }`. */
  datatype Aggregate = Aggregate(key: string, value: real)

  /** The result after the loop: `avg` divides the total by the number of
      records in the window. */
  function Finish(avg: bool, total: real, count: nat): real
    requires count > 0
  {
    if avg then total / (count as real) else total
  }

  /** `aggregateRead` once the window's records are the outcome `scan`:
      the operation is checked, then the window, then the bucket, then the
      field and its type; the window's records must then have been read
      and must not be empty; the loop folds the field's values. */
  function AggregateOver(b: Bucket, start: int, end: int, fieldName: string, op: string, toReal: Bits64 -> real,
                         scan: Result<seq<Record>, Error>): (r: Result<Aggregate, Error>)
    ensures ParseOp(op).None? ==> r == Err(UnsupportedOperation(op))
    ensures ParseOp(op).Some? && start > end ==> r == Err(StartAfterEnd)
    ensures r.Ok? ==> r.value.key == fieldName + "_" + op
  {
    match ParseOp(op)
    case None => Err(UnsupportedOperation(op))
    case Some(o) =>
      if start > end then Err(StartAfterEnd)
      else if b.recordAmount < 1 then Err(EmptyBucket)
      else match FindField(b.fields, fieldName, 0)
        case None => Err(UnknownField(fieldName))
        case Some(i) =>
          var t := b.fields[i].fieldType;
          if !Numeric(t) then Err(NotNumeric(fieldName))
          else
            var records :- scan;
            if |records| == 0 then Err(NoRecords(op))
            else
              var acc :- Loop(records, fieldName, t, toReal, Some(o), op, 0, Initial);
              Ok(Aggregate(fieldName + "_" + op, Finish(o == Avg, acc.result, |records|)))
  }

  /** `aggregateRead`, whose window is `readInTimeRange` as written. */
  function AggregateRead(b: Bucket, start: int, end: int, fieldName: string, op: string, toReal: Bits64 -> real): (r: Result<Aggregate, Error>)
    ensures ParseOp(op).None? ==> r == Err(UnsupportedOperation(op))
    ensures ParseOp(op).Some? && start > end ==> r == Err(StartAfterEnd)
    ensures r.Ok? ==> r.value.key == fieldName + "_" + op
  {
    AggregateOver(b, start, end, fieldName, op, toReal, ReadInTimeRange(b, start, end))
  }

  /** The aggregate as intended: the same checks and loop over the scan
      that visits every record at its own offset. */
  function AggregateReadRealigned(b: Bucket, start: int, end: int, fieldName: string, op: string, toReal: Bits64 -> real): (r: Result<Aggregate, Error>)
    ensures ParseOp(op).None? ==> r == Err(UnsupportedOperation(op))
    ensures ParseOp(op).Some? && start > end ==> r == Err(StartAfterEnd)
    ensures r.Ok? ==> r.value.key == fieldName + "_" + op
  {
    AggregateOver(b, start, end, fieldName, op, toReal, ReadInTimeRangeRealigned(b, start, end))
  }

  /** `r` is a successful aggregate only if the operation and window were
      valid, the field exists and is numeric and `window` holds records; its
      value is then the operation applied to the field's numbers over
      `window`: `sum` their total, `avg` that total over the number of
      records, `min` and `max` their least and greatest (0 when no record
      carries the field). */
  predicate Describes(r: Result<Aggregate, Error>, b: Bucket, start: int, end: int, fieldName: string, op: string,
                      toReal: Bits64 -> real, window: Result<seq<Record>, Error>) {
    r.Ok? ==>
      && ParseOp(op).Some? && start <= end && b.recordAmount >= 1
      && FindField(b.fields, fieldName, 0).Some?
      && Numeric(b.fields[FindField(b.fields, fieldName, 0).value].fieldType)
      && window.Ok? && |window.value| > 0
      && var records := window.value;
         var t := b.fields[FindField(b.fields, fieldName, 0).value].fieldType;
         && Numbers(records, fieldName, t, toReal, 0).Ok?
         && var xs := Numbers(records, fieldName, t, toReal, 0).value;
         && (op == "sum" ==> r.value.value == Total(xs))
         && (op == "avg" ==> r.value.value == Total(xs) / (|records| as real))
         && (op == "min" ==> if |xs| == 0 then r.value.value == 0.0 else IsLeast(r.value.value, xs))
         && (op == "max" ==> if |xs| == 0 then r.value.value == 0.0 else IsGreatest(r.value.value, xs))
  }

  /** Whatever the scan, a successful aggregate is the operation over the scanned records. */
  lemma OverMeaning(b: Bucket, start: int, end: int, fieldName: string, op: string, toReal: Bits64 -> real,
                    scan: Result<seq<Record>, Error>)
    ensures Describes(AggregateOver(b, start, end, fieldName, op, toReal, scan), b, start, end, fieldName, op, toReal, scan)
  {
    if AggregateOver(b, start, end, fieldName, op, toReal, scan).Err? {
      return;
    }
    var o := ParseOp(op).value;
    var i := FindField(b.fields, fieldName, 0).value;
    var t := b.fields[i].fieldType;
    var records := scan.value;
    LoopIsFold(records, fieldName, t, toReal, o, op, 0, Initial);
    var xs := Numbers(records, fieldName, t, toReal, 0).value;
    if o == Sum || o == Avg {
      FoldAdds(o, xs, Initial);
    } else {
      FoldExtremes(xs);
    }
  }

  /** A successful `aggregateRead` is the operation over the records the
      as-written `readInTimeRange` returns. */
  lemma AggregateMeaning(b: Bucket, start: int, end: int, fieldName: string, op: string, toReal: Bits64 -> real)
    ensures Describes(AggregateRead(b, start, end, fieldName, op, toReal), b, start, end, fieldName, op, toReal,
                      ReadInTimeRange(b, start, end))
  {
    OverMeaning(b, start, end, fieldName, op, toReal, ReadInTimeRange(b, start, end));
  }

  /** With the timestamp as the first field of an aligned bucket, a
      successful `aggregateRead` folds only the leading run of in-window
      records of `readAll`. */
  lemma AggregateTimestampFirst(b: Bucket, start: int, end: int, fieldName: string, op: string, toReal: Bits64 -> real)
    requires Aligned(b)
    requires |b.fields| >= 1 && b.fields[0].name == Timestamp
    requires SingleLongTimestamp(b.fields)
    ensures var r := AggregateRead(b, start, end, fieldName, op, toReal);
      r.Ok? ==> (AllRecords(b).Ok? &&
                 Describes(r, b, start, end, fieldName, op, toReal, Ok(TakeWhileKept(AllRecords(b).value, start, end, 0))))
  {
    AggregateMeaning(b, start, end, fieldName, op, toReal);
    if b.recordAmount >= 1 {
      TimestampFirstTakesWhile(b, start, end);
    }
  }

  /** A successful corrected aggregate over an aligned bucket is the
      operation over exactly the records of `readAll` in the window. */
  lemma RealignedMeaning(b: Bucket, start: int, end: int, fieldName: string, op: string, toReal: Bits64 -> real)
    requires Aligned(b)
    requires SingleLongTimestamp(b.fields)
    ensures var r := AggregateReadRealigned(b, start, end, fieldName, op, toReal);
      r.Ok? ==> (AllRecords(b).Ok? &&
                 Describes(r, b, start, end, fieldName, op, toReal, Ok(Filter(AllRecords(b).value, start, end, 0))))
  {
    OverMeaning(b, start, end, fieldName, op, toReal, ReadInTimeRangeRealigned(b, start, end));
    if b.recordAmount >= 1 {
      RealignedFilters(b, start, end);
    }
  }

  /** No record outside the window comes before one inside it (timestamps
      written in increasing order, say). */
  predicate DroppedOnlyAfterKept(recs: seq<Record>, start: int, end: int) {
    forall i, j :: 0 <= i < j < |recs| && !Kept(recs[i], start, end) ==> !Kept(recs[j], start, end)
  }

  /** With the timestamp first, the as-written aggregate is the intended one
      whenever the out-of-window records all follow the in-window ones. */
  lemma AggregatesAgreeWhenOrdered(b: Bucket, start: int, end: int, fieldName: string, op: string, toReal: Bits64 -> real)
    requires Aligned(b)
    requires |b.fields| >= 1 && b.fields[0].name == Timestamp
    requires SingleLongTimestamp(b.fields)
    requires AllRecords(b).Ok? ==> DroppedOnlyAfterKept(AllRecords(b).value, start, end)
    ensures AggregateRead(b, start, end, fieldName, op, toReal) == AggregateReadRealigned(b, start, end, fieldName, op, toReal)
  {
    if b.recordAmount >= 1 {
      TimestampFirstTakesWhile(b, start, end);
      RealignedFilters(b, start, end);
      TakeWhileIsFilterOnPrefix(AllRecords(b).value, start, end, 0);
    }
  }

  /** Without a timestamp field the two aggregates agree. */
  lemma AggregatesAgreeWithoutTimestamp(b: Bucket, start: int, end: int, fieldName: string, op: string, toReal: Bits64 -> real)
    requires Aligned(b)
    requires forall j :: 0 <= j < |b.fields| ==> b.fields[j].name != Timestamp
    ensures AggregateRead(b, start, end, fieldName, op, toReal) == AggregateReadRealigned(b, start, end, fieldName, op, toReal)
  {
    if b.recordAmount >= 1 {
      RealignedAgreesWithoutTimestamp(b, start, end);
    }
  }

  /** On the sample bucket (timestamps 200 then 100) and the window
      [0, 150], the as-written aggregate finds no records to sum, while the
      intended one sums the value 2 of the record stamped 100. */
  lemma AggregateMissesLaterRecord(toReal: Bits64 -> real)
    ensures AggregateRead(SampleBucket(), 0, 150, "value", "sum", toReal) == Err(NoRecords("sum"))
    ensures AggregateReadRealigned(SampleBucket(), 0, 150, "value", "sum", toReal) == Ok(Aggregate("value_sum", 2.0))
  {
    TimeRangeMissesLaterRecord();
    SampleSums(SampleBucket(), toReal);
  }

  /** Summing `value` over the sample schema: an empty window has no
      records, and the record stamped 100 sums to 2. */
  lemma SampleSums(b: Bucket, toReal: Bits64 -> real)
    requires b.fields == SampleFields() && b.recordAmount >= 1
    ensures AggregateOver(b, 0, 150, "value", "sum", toReal, Ok([])) == Err(NoRecords("sum"))
    ensures AggregateOver(b, 0, 150, "value", "sum", toReal, Ok([map[Timestamp := LongV(100), "value" := IntV(2)]]))
            == Ok(Aggregate("value_sum", 2.0))
  {
    assert FindField(b.fields, "value", 0) == Some(1);
    var recs := [map[Timestamp := LongV(100), "value" := IntV(2)]];
    assert ToNumber(INT, recs[0]["value"], toReal) == Ok(2.0);
    assert Loop(recs, "value", INT, toReal, Some(Sum), "sum", 1, Acc(2.0, true)) == Ok(Acc(2.0, true));
    assert Loop(recs, "value", INT, toReal, Some(Sum), "sum", 0, Initial) == Ok(Acc(2.0, true));
    assert "value" + "_" + "sum" == "value_sum";
  }

  /** Field `j` is the first one called `name`. */
  predicate FirstNamed(fields: seq<Field>, name: string, j: int) {
    0 <= j < |fields| && fields[j].name == name && forall i :: 0 <= i < j ==> fields[i].name != name
  }

  /** The aggregate fails as the first failing check says, in the order the
      engine makes them: operation, window, bucket, field, type, reading the
      window with `readInTimeRange`, an empty window. */
  lemma AggregateErrors(b: Bucket, start: int, end: int, fieldName: string, op: string, toReal: Bits64 -> real, j: int)
    ensures var r := AggregateRead(b, start, end, fieldName, op, toReal);
      var w := ReadInTimeRange(b, start, end);
      var checked := ParseOp(op).Some? && start <= end && b.recordAmount >= 1;
      && (ParseOp(op).Some? && start <= end && b.recordAmount < 1 ==> r == Err(EmptyBucket))
      && (checked && (forall i :: 0 <= i < |b.fields| ==> b.fields[i].name != fieldName) ==> r == Err(UnknownField(fieldName)))
      && (checked && FirstNamed(b.fields, fieldName, j) && !Numeric(b.fields[j].fieldType) ==> r == Err(NotNumeric(fieldName)))
      && (checked && FirstNamed(b.fields, fieldName, j) && Numeric(b.fields[j].fieldType) ==>
            && (w.Err? ==> r == Err(w.error))
            && (w == Ok([]) ==> r == Err(NoRecords(op))))
  {
    if FirstNamed(b.fields, fieldName, j) {
      assert FindField(b.fields, fieldName, 0) == Some(j);
    }
  }

  // ------------------------------------------------------ the predecessor

  /** `calculateAggregateInTimeRange`: no window check; the operation is
      lower-cased and only looked at inside the loop, for the first record
      that has the field, after its cast; `avg` is recognised ignoring
      case. */
  function CalculateAggregateInTimeRange(b: Bucket, start: int, end: int, fieldName: string, op: string, toReal: Bits64 -> real): (r: Result<Aggregate, Error>)
    ensures r.Ok? ==> r.value.key == fieldName + "_" + Lower(op)
    ensures b.recordAmount < 1 ==> r == Err(EmptyBucket)
  {
    if b.recordAmount < 1 then Err(EmptyBucket)
    else match FindField(b.fields, fieldName, 0)
      case None => Err(UnknownField(fieldName))
      case Some(i) =>
        var t := b.fields[i].fieldType;
        if !Numeric(t) then Err(NotNumeric(fieldName))
        else
          var records :- ReadInTimeRange(b, start, end);
          if |records| == 0 then Err(NoRecords(op))
          else
            var acc :- Loop(records, fieldName, t, toReal, ParseOp(Lower(op)), op, 0, Initial);
            Ok(Aggregate(fieldName + "_" + Lower(op), Finish(Lower(op) == "avg", acc.result, |records|)))
  }

  /** On a lower-case operation name and a well-ordered window the two
      versions agree. */
  lemma PredecessorAgrees(b: Bucket, start: int, end: int, fieldName: string, op: string, toReal: Bits64 -> real)
    requires ParseOp(op).Some?
    requires start <= end
    ensures CalculateAggregateInTimeRange(b, start, end, fieldName, op, toReal) == AggregateRead(b, start, end, fieldName, op, toReal)
  {
    LowerOpName(ParseOp(op).value);
  }

  /** The predecessor matches the operation ignoring case: a known
      operation in any case ("SUM", "Avg") aggregates as its lower-case
      name, which is what `aggregateRead` computes. */
  lemma PredecessorIgnoresCase(b: Bucket, start: int, end: int, fieldName: string, op: string, toReal: Bits64 -> real)
    requires ParseOp(Lower(op)).Some?
    ensures var r := CalculateAggregateInTimeRange(b, start, end, fieldName, op, toReal);
      && (r.Ok? <==> CalculateAggregateInTimeRange(b, start, end, fieldName, Lower(op), toReal).Ok?)
      && (r.Ok? ==> r == CalculateAggregateInTimeRange(b, start, end, fieldName, Lower(op), toReal))
      && (start <= end ==> (r.Ok? <==> AggregateRead(b, start, end, fieldName, Lower(op), toReal).Ok?))
      && (start <= end && r.Ok? ==> r == AggregateRead(b, start, end, fieldName, Lower(op), toReal))
  {
    LowerIdempotent(op);
    var o := ParseOp(Lower(op)).value;
    if b.recordAmount >= 1 && FindField(b.fields, fieldName, 0).Some? {
      var t := b.fields[FindField(b.fields, fieldName, 0).value].fieldType;
      var w := ReadInTimeRange(b, start, end);
      if Numeric(t) && w.Ok? {
        LoopIsFold(w.value, fieldName, t, toReal, o, op, 0, Initial);
        LoopIsFold(w.value, fieldName, t, toReal, o, Lower(op), 0, Initial);
      }
    }
    if start <= end {
      PredecessorAgrees(b, start, end, fieldName, Lower(op), toReal);
    }
  }

  /** An empty window is reported before the operation is looked at, so
      even an unknown operation gives "no records". */
  lemma PredecessorEmptyWindow(b: Bucket, start: int, end: int, fieldName: string, op: string, toReal: Bits64 -> real)
    requires b.recordAmount >= 1
    requires FindField(b.fields, fieldName, 0).Some?
    requires Numeric(b.fields[FindField(b.fields, fieldName, 0).value].fieldType)
    requires ReadInTimeRange(b, start, end) == Ok([])
    ensures CalculateAggregateInTimeRange(b, start, end, fieldName, op, toReal) == Err(NoRecords(op))
  {
  }

  /** An operation name the predecessor does not know, even lower-cased,
      never yields a value unless no record of the window has the field;
      then the "aggregate" is 0. */
  lemma PredecessorUnknownOp(b: Bucket, start: int, end: int, fieldName: string, op: string, toReal: Bits64 -> real)
    requires ParseOp(Lower(op)).None?
    ensures var r := CalculateAggregateInTimeRange(b, start, end, fieldName, op, toReal);
      var w := ReadInTimeRange(b, start, end);
      r.Ok? ==> r.value.value == 0.0 && w.Ok? && forall k :: 0 <= k < |w.value| ==> fieldName !in w.value[k]
  {
    var r := CalculateAggregateInTimeRange(b, start, end, fieldName, op, toReal);
    if r.Ok? {
      var i := FindField(b.fields, fieldName, 0).value;
      var records := ReadInTimeRange(b, start, end).value;
      UnknownOpLoop(records, fieldName, b.fields[i].fieldType, toReal, op, 0);
    }
  }

  /** With no known operation the loop succeeds only by skipping every record, keeping its state. */
  lemma {:induction false} UnknownOpLoop(records: seq<Record>, fieldName: string, t: FieldType, toReal: Bits64 -> real, opText: string, k: nat)
    requires Numeric(t)
    requires k <= |records|
    ensures Loop(records, fieldName, t, toReal, None, opText, k, Initial).Ok? ==>
      && Loop(records, fieldName, t, toReal, None, opText, k, Initial) == Ok(Initial)
      && forall j :: k <= j < |records| ==> fieldName !in records[j]
    decreases |records| - k
  {
    if k < |records| {
      UnknownOpLoop(records, fieldName, t, toReal, opText, k + 1);
    }
  }

  /** `readAvgInTimeRange`, `readSumInTimeRange`, `readMinInTimeRange` and
      `readMaxInTimeRange`. */
  function ReadAggregateInTimeRange(b: Bucket, start: int, end: int, fieldName: string, o: Op, toReal: Bits64 -> real): (r: Result<Aggregate, Error>)
    ensures start <= end ==> r == AggregateRead(b, start, end, fieldName, OpName(o), toReal)
    ensures r.Ok? ==> r.value.key == fieldName + "_" + OpName(o)
  {
    ParseOpName(o);
    LowerOpName(o);
    CalculateAggregateInTimeRange(b, start, end, fieldName, OpName(o), toReal)
  }
}
