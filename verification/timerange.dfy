/** `readInTimeRange`: one forward scan over the records with a single file
    cursor, keeping the records whose field named `"timestamp"` lies in
    `[start, end]`. The timestamp is peeked with `readLong` and the cursor
    moved back; an out-of-window timestamp ends the record's field loop
    with `break`, and the cursor is not moved to the next record's offset
    afterwards. */
module TimeRange {
  import opened Wrappers
  import opened Bytes
  import opened Errors
  import opened Schema
  import opened FieldCodec
  import opened RecordIO
  import opened Store
  import opened StoreProperties

  /** One pass of the field loop over a record: whether it ran through all
      fields, the bytes each field read consumed, and where the cursor
      stopped. */
  datatype Visit = Visit(inRange: bool, slices: seq<seq<Byte>>, next: nat)

  /** The timestamp check before field `f` is read at cursor `c`: only a
      field named `"timestamp"` is checked; its first eight bytes are read
      as a `long` and the cursor goes back to `c`. */
  function OutsideWindow(data: seq<Byte>, c: nat, f: Field, start: int, end: int): (r: Result<bool, Error>)
    ensures f.name != Timestamp ==> r == Ok(false)
    ensures f.name == Timestamp ==> (r.Ok? <==> c + 8 <= |data|)
    ensures r.Err? ==> r.error == EndOfFile
    ensures f.name == Timestamp && r.Ok? ==> (r.value <==> !(start <= DecodeLong(data[c..c + 8]) <= end))
  {
    if f.name != Timestamp then Ok(false)
    else
      var ts :- ReadLong(data, c);
      LongRoundTrip(ts.value);
      Ok(ts.value < start || ts.value > end)
  }

  /** The field loop from field `k` on at cursor `c`. */
  function VisitFields(data: seq<Byte>, c: nat, fields: seq<Field>, k: nat, start: int, end: int): (r: Result<Visit, Error>)
    requires k <= |fields|
    ensures r.Ok? && r.value.inRange ==>
      && |r.value.slices| == |fields| - k
      && forall i :: 0 <= i < |r.value.slices| ==> |r.value.slices[i]| == Width(fields[k + i])
    decreases |fields| - k
  {
    if k == |fields| then Ok(Visit(true, [], c))
    else
      var outside :- OutsideWindow(data, c, fields[k], start, end);
      if outside then Ok(Visit(false, [], c))
      else
        var s :- ReadBytes(data, c, fields[k]);
        var rest :- VisitFields(data, s.next, fields, k + 1, start, end);
        Ok(Visit(rest.inRange, [s.value] + rest.slices, rest.next))
  }

  /** The slices of a visit that ran through all fields of the schema. */
  predicate Shaped(fields: seq<Field>, slices: seq<seq<Byte>>) {
    |slices| == |fields| && forall j :: 0 <= j < |fields| ==> |slices[j]| == Width(fields[j])
  }

  /** What one visit adds to the response list: the decoded record when
      the field loop ran through, nothing when it stopped early. */
  function Emitted(fields: seq<Field>, v: Visit): (out: seq<Record>)
    ensures |out| <= 1
    ensures v.inRange && Shaped(fields, v.slices) <==> |out| == 1
  {
    if v.inRange && Shaped(fields, v.slices) then [ToRecord(fields, DecodeFrom(fields, v.slices, 0))] else []
  }

  /** The field loop of bucket `b` as a function of the cursor. */
  function Visitor(b: Bucket, start: int, end: int): (visit: nat -> Result<Visit, Error>)
    ensures forall c: nat :: visit(c) == VisitFields(b.data, c, b.fields, 0, start, end)
  {
    (c: nat) => VisitFields(b.data, c, b.fields, 0, start, end)
  }

  function Emitter(fields: seq<Field>): (emit: Visit -> seq<Record>)
    ensures forall v :: emit(v) == Emitted(fields, v)
  {
    (v: Visit) => Emitted(fields, v)
  }

  /** `remaining` iterations of a scan loop with one cursor: each iteration
      visits from wherever the previous one left the cursor. */
  function Walk(visit: nat -> Result<Visit, Error>, emit: Visit -> seq<Record>, cursor: nat, remaining: nat): (r: Result<seq<Record>, Error>)
    decreases remaining
  {
    if remaining == 0 then Ok([])
    else
      var v :- visit(cursor);
      Then(emit(v), Walk(visit, emit, v.next, remaining - 1))
  }

  /** The scan of `readInTimeRange` from `cursor`. */
  function ScanFrom(b: Bucket, start: int, end: int, cursor: nat, remaining: nat): Result<seq<Record>, Error> {
    Walk(Visitor(b, start, end), Emitter(b.fields), cursor, remaining)
  }

  /** Iterations of `while (position < recordSize * recordAmount)` with
      `position` stepping by the record size from 0. */
  function Iterations(b: Bucket): (n: nat)
    ensures Size(b) > 0 && b.recordAmount > 0 ==> n == b.recordAmount
    ensures Size(b) <= 0 || b.recordAmount <= 0 ==> n == 0
  {
    if Size(b) > 0 && b.recordAmount > 0 then b.recordAmount else 0
  }

  /** `readInTimeRange` as written. */
  function ReadInTimeRange(b: Bucket, start: int, end: int): Result<seq<Record>, Error> {
    if b.recordAmount < 1 then Err(EmptyBucket) else ScanFrom(b, start, end, 0, Iterations(b))
  }

  /** `readInTimeRange`: an empty bucket is refused, then the scan loop
      runs over the bucket's records. */
  method ScanTimeRange(b: Bucket, start: int, end: int) returns (r: Result<seq<Record>, Error>)
    ensures b.recordAmount < 1 ==> r == Err(EmptyBucket)
    ensures r == ReadInTimeRange(b, start, end)
  {
    if b.recordAmount < 1 {
      return Err(EmptyBucket);
    }
    var size := Size(b);
    if size <= 0 {
      assert !(0 < size * b.recordAmount);
      return Ok([]);
    }
    r := ScanLoop(Visitor(b, start, end), Emitter(b.fields), size, b.recordAmount);
  }

  /** The loop of `readInTimeRange`, with the byte offset `position` and
      the file cursor kept apart: `position` counts records while the
      cursor goes wherever each visit leaves it. */
  method ScanLoop(visit: nat -> Result<Visit, Error>, emit: Visit -> seq<Record>, size: int, n: nat)
    returns (r: Result<seq<Record>, Error>)
    requires size > 0
    ensures r == Walk(visit, emit, 0, n)
  {
    var position := 0;
    var cursor: nat := 0;
    var k: nat := 0;
    var responses: seq<Record> := [];
    ghost var all := Walk(visit, emit, 0, n);
    if all.Ok? {
      assert [] + all.value == all.value;
    }
    while position < size * n
      invariant k <= n
      invariant position == k * size
      invariant all == Then(responses, Walk(visit, emit, cursor, n - k))
      decreases n - k
    {
      ScaleCompare(k, n, size);
      var v := visit(cursor);
      if v.Err? {
        return Err(v.error);
      }
      var kept := emit(v.value);
      ThenThen(responses, kept, Walk(visit, emit, v.value.next, n - k - 1));
      responses := responses + kept;
      cursor := v.value.next;
      position := position + size;
      k := k + 1;
    }
    ScaleCompare(k, n, size);
    assert responses + [] == responses;
    r := Ok(responses);
  }

  // ----------------------------------------------------------- reference

  /** A decoded record belongs to the window `[start, end]`: its timestamp
      is a `long` inside it, or it has no timestamp at all. */
  predicate Kept(rec: Record, start: int, end: int) {
    Timestamp in rec ==> rec[Timestamp].LongV? && start <= rec[Timestamp].l <= end
  }

  /** The records of `recs[k..]` that belong to the window, in order. */
  function Filter(recs: seq<Record>, start: int, end: int, k: nat): (r: seq<Record>)
    requires k <= |recs|
    decreases |recs| - k
  {
    if k == |recs| then []
    else if Kept(recs[k], start, end) then [recs[k]] + Filter(recs, start, end, k + 1)
    else Filter(recs, start, end, k + 1)
  }

  /** The records of `recs[k..]` up to the first one outside the window. */
  function TakeWhileKept(recs: seq<Record>, start: int, end: int, k: nat): (r: seq<Record>)
    requires k <= |recs|
    decreases |recs| - k
  {
    if k == |recs| || !Kept(recs[k], start, end) then []
    else [recs[k]] + TakeWhileKept(recs, start, end, k + 1)
  }

  /** On the shape the engine's tests use, kept records first and then only
      dropped ones, stopping at the first dropped record is filtering. */
  lemma {:induction false} TakeWhileIsFilterOnPrefix(recs: seq<Record>, start: int, end: int, k: nat)
    requires k <= |recs|
    requires forall i, j :: k <= i < j < |recs| && !Kept(recs[i], start, end) ==> !Kept(recs[j], start, end)
    ensures TakeWhileKept(recs, start, end, k) == Filter(recs, start, end, k)
    decreases |recs| - k
  {
    if k < |recs| {
      TakeWhileIsFilterOnPrefix(recs, start, end, k + 1);
      if !Kept(recs[k], start, end) {
        NoneKept(recs, start, end, k + 1);
      }
    }
  }

  lemma {:induction false} NoneKept(recs: seq<Record>, start: int, end: int, k: nat)
    requires k <= |recs|
    requires forall j :: k <= j < |recs| ==> !Kept(recs[j], start, end)
    ensures Filter(recs, start, end, k) == []
    decreases |recs| - k
  {
    if k < |recs| {
      NoneKept(recs, start, end, k + 1);
    }
  }

  /** Every filtered record is kept and comes from the input. */
  lemma {:induction false} FilterKeeps(recs: seq<Record>, start: int, end: int, k: nat)
    requires k <= |recs|
    ensures |Filter(recs, start, end, k)| <= |recs| - k
    ensures forall x :: x in Filter(recs, start, end, k) ==> Kept(x, start, end) && x in recs[k..]
    decreases |recs| - k
  {
    if k < |recs| {
      FilterKeeps(recs, start, end, k + 1);
      assert recs[k..] == [recs[k]] + recs[k + 1..];
    }
  }

  // ------------------------------------------------- one record's visit

  /** The schema's timestamp, if any, is a single LONG field. */
  predicate SingleLongTimestamp(fields: seq<Field>) {
    && (forall i :: 0 <= i < |fields| && fields[i].name == Timestamp ==> fields[i].fieldType == LONG)
    && (forall i, j :: 0 <= i < j < |fields| && fields[i].name == Timestamp ==> fields[j].name != Timestamp)
  }

  /** Every timestamp among fields `k..`, decoded from its slice, lies in the window. */
  predicate SlicesInWindow(fields: seq<Field>, k: nat, slices: seq<seq<Byte>>, start: int, end: int)
    requires k + |slices| <= |fields|
  {
    forall i :: 0 <= i < |slices| && fields[k + i].name == Timestamp && |slices[i]| == 8 ==>
      start <= DecodeLong(slices[i]) <= end
  }

  /** On a record that lies inside the file, the field loop runs through
      every field exactly when each timestamp is in the window, and then it
      consumes the same bytes as reading the record outright. */
  lemma {:induction false} VisitMatchesRead(data: seq<Byte>, c: nat, fields: seq<Field>, k: nat, start: int, end: int)
    requires k <= |fields|
    requires ReadSlices(data, c, fields, k).Ok?
    requires forall i :: k <= i < |fields| && fields[i].name == Timestamp ==> fields[i].fieldType == LONG
    ensures VisitFields(data, c, fields, k, start, end).Ok?
    ensures VisitFields(data, c, fields, k, start, end).value.inRange
            <==> SlicesInWindow(fields, k, ReadSlices(data, c, fields, k).value.value, start, end)
    ensures VisitFields(data, c, fields, k, start, end).value.inRange ==>
            && VisitFields(data, c, fields, k, start, end).value.slices == ReadSlices(data, c, fields, k).value.value
            && VisitFields(data, c, fields, k, start, end).value.next == ReadSlices(data, c, fields, k).value.next
    decreases |fields| - k
  {
    if k < |fields| {
      VisitStep(data, c, fields, k, start, end);
      var w := Width(fields[k]);
      VisitMatchesRead(data, c + w, fields, k + 1, start, end);
      SlicesInWindowCons(fields, k, data[c..c + w], ReadSlices(data, c + w, fields, k + 1).value.value, start, end);
    }
  }

  /** Field `k` of a record inside the file: the timestamp check reads the
      field's own bytes. */
  lemma VisitStep(data: seq<Byte>, c: nat, fields: seq<Field>, k: nat, start: int, end: int)
    requires k < |fields|
    requires ReadSlices(data, c, fields, k).Ok?
    requires fields[k].name == Timestamp ==> fields[k].fieldType == LONG
    ensures Width(fields[k]) >= 0 && c + Width(fields[k]) <= |data|
    ensures ReadSlices(data, c + Width(fields[k]), fields, k + 1).Ok?
    ensures ReadSlices(data, c, fields, k).value
            == Decoded([data[c..c + Width(fields[k])]] + ReadSlices(data, c + Width(fields[k]), fields, k + 1).value.value,
                       ReadSlices(data, c + Width(fields[k]), fields, k + 1).value.next)
    ensures var out := fields[k].name == Timestamp && !(start <= DecodeLong(data[c..c + 8]) <= end);
      VisitFields(data, c, fields, k, start, end) ==
        if out then Ok(Visit(false, [], c))
        else match VisitFields(data, c + Width(fields[k]), fields, k + 1, start, end)
          case Err(e) => Err(e)
          case Ok(v) => Ok(Visit(v.inRange, [data[c..c + Width(fields[k])]] + v.slices, v.next))
  {
    SpanNonNegative(fields, k + 1, |fields|);
  }

  lemma SlicesInWindowCons(fields: seq<Field>, k: nat, s: seq<Byte>, rest: seq<seq<Byte>>, start: int, end: int)
    requires k + 1 + |rest| <= |fields|
    ensures SlicesInWindow(fields, k, [s] + rest, start, end) <==>
      (fields[k].name == Timestamp && |s| == 8 ==> start <= DecodeLong(s) <= end)
      && SlicesInWindow(fields, k + 1, rest, start, end)
  {
    var ss := [s] + rest;
    if SlicesInWindow(fields, k, ss, start, end) {
      assert ss[0] == s;
      forall i | 0 <= i < |rest| && fields[k + 1 + i].name == Timestamp && |rest[i]| == 8
        ensures start <= DecodeLong(rest[i]) <= end
      {
        assert ss[i + 1] == rest[i];
      }
    }
    if (fields[k].name == Timestamp && |s| == 8 ==> start <= DecodeLong(s) <= end)
       && SlicesInWindow(fields, k + 1, rest, start, end) {
      forall i | 0 <= i < |ss| && fields[k + i].name == Timestamp && |ss[i]| == 8
        ensures start <= DecodeLong(ss[i]) <= end
      {
        if i > 0 {
          assert ss[i] == rest[i - 1];
          assert k + i == k + 1 + (i - 1);
        } else {
          assert ss[i] == s;
        }
      }
    }
  }

  /** Two fields named `"timestamp"` in a schema with a single timestamp are the same field. */
  lemma TimestampUnique(fields: seq<Field>, i: nat, t: nat)
    requires SingleLongTimestamp(fields)
    requires i < |fields| && t < |fields|
    requires fields[i].name == Timestamp && fields[t].name == Timestamp
    ensures i == t
  {
  }

  /** With a single LONG timestamp, a read record belongs to the window
      exactly when the field loop's timestamp checks all pass on its bytes. */
  lemma KeptIffInWindow(fields: seq<Field>, slices: seq<seq<Byte>>, start: int, end: int)
    requires |slices| == |fields|
    requires forall j :: 0 <= j < |fields| ==> |slices[j]| == Width(fields[j])
    requires SingleLongTimestamp(fields)
    ensures Kept(ToRecord(fields, DecodeFrom(fields, slices, 0)), start, end)
            <==> SlicesInWindow(fields, 0, slices, start, end)
  {
    var vals := DecodeFrom(fields, slices, 0);
    if t :| 0 <= t < |fields| && fields[t].name == Timestamp {
      ToRecordLookup(fields, vals, t);
      DecodeFromAt(fields, slices, 0, t);
      if Kept(ToRecord(fields, vals), start, end) {
        forall i | 0 <= i < |slices| && fields[0 + i].name == Timestamp && |slices[i]| == 8
          ensures start <= DecodeLong(slices[i]) <= end
        {
          TimestampUnique(fields, i, t);
        }
      }
    } else {
      ToRecordKeys(fields, vals);
    }
  }

  // ---------------------------------------------------- whole scans

  /** A record at index `i` in terms of the bytes its fields consume. */
  lemma RecordAtSlices(b: Bucket, i: nat)
    requires Size(b) > 0
    ensures RecordAt(b, i).Ok? <==> ReadSlices(b.data, i * Size(b), b.fields, 0).Ok?
    ensures RecordAt(b, i).Ok? ==>
      RecordAt(b, i).value == ToRecord(b.fields, DecodeFrom(b.fields, ReadSlices(b.data, i * Size(b), b.fields, 0).value.value, 0))
    ensures RecordAt(b, i).Err? ==> RecordAt(b, i).error == ReadSlices(b.data, i * Size(b), b.fields, 0).error
  {
  }

  /** Record `i` of an aligned bucket visited from its own offset: the
      visit runs through exactly when the record belongs to the window, and
      then emits that record and leaves the cursor on the next one. */
  lemma VisitAligned(b: Bucket, i: nat, start: int, end: int)
    requires Aligned(b)
    requires i < b.recordAmount
    requires SingleLongTimestamp(b.fields)
    ensures RecordAt(b, i).Ok?
    ensures VisitFields(b.data, i * Size(b), b.fields, 0, start, end).Ok?
    ensures var v := VisitFields(b.data, i * Size(b), b.fields, 0, start, end).value;
      && (v.inRange <==> Kept(RecordAt(b, i).value, start, end))
      && Emitted(b.fields, v) == (if v.inRange then [RecordAt(b, i).value] else [])
      && (v.inRange ==> v.next == (i + 1) * Size(b))
  {
    var c := i * Size(b);
    RecordInsideFile(b, i);
    RecordAtSlices(b, i);
    VisitMatchesRead(b.data, c, b.fields, 0, start, end);
    KeptIffInWindow(b.fields, ReadSlices(b.data, c, b.fields, 0).value.value, start, end);
    ScaleCompare(i, b.recordAmount, Size(b));
  }

  /** Without timestamps the field loop is the plain record read. */
  lemma {:induction false} NoTimestampVisit(data: seq<Byte>, c: nat, fields: seq<Field>, k: nat, start: int, end: int)
    requires k <= |fields|
    requires forall j :: k <= j < |fields| ==> fields[j].name != Timestamp
    ensures VisitFields(data, c, fields, k, start, end) == match ReadSlices(data, c, fields, k)
      case Err(e) => Err(e)
      case Ok(d) => Ok(Visit(true, d.value, d.next))
    decreases |fields| - k
  {
    if k < |fields| {
      var w := Width(fields[k]);
      if w >= 0 && c + w <= |data| {
        NoTimestampVisit(data, c + w, fields, k + 1, start, end);
      }
    }
  }

  /** Without timestamps, visiting record `i` from its own offset reads it
      (or fails as reading it fails) and moves on to record `i + 1`. */
  lemma NoTimestampVisitAt(b: Bucket, i: nat, start: int, end: int)
    requires forall j :: 0 <= j < |b.fields| ==> b.fields[j].name != Timestamp
    requires Size(b) > 0
    ensures RecordAt(b, i).Err? ==> VisitFields(b.data, i * Size(b), b.fields, 0, start, end) == Err(RecordAt(b, i).error)
    ensures RecordAt(b, i).Ok? ==>
      && VisitFields(b.data, i * Size(b), b.fields, 0, start, end).Ok?
      && Emitted(b.fields, VisitFields(b.data, i * Size(b), b.fields, 0, start, end).value) == [RecordAt(b, i).value]
      && VisitFields(b.data, i * Size(b), b.fields, 0, start, end).value.next == (i + 1) * Size(b)
  {
    NoTimestampVisit(b.data, i * Size(b), b.fields, 0, start, end);
    RecordAtSlices(b, i);
    ScaleCompare(i, i + 1, Size(b));
  }

  /** With the timestamp first, a visit that does not run through stopped
      at the timestamp check, before reading anything. */
  lemma TimestampFirstStops(data: seq<Byte>, c: nat, fields: seq<Field>, start: int, end: int)
    requires |fields| >= 1 && fields[0].name == Timestamp
    requires SingleLongTimestamp(fields)
    requires VisitFields(data, c, fields, 0, start, end).Ok?
    requires !VisitFields(data, c, fields, 0, start, end).value.inRange
    ensures VisitFields(data, c, fields, 0, start, end).value == Visit(false, [], c)
  {
    var w := Width(fields[0]);
    if w >= 0 && c + w <= |data| {
      NoTimestampVisit(data, c + w, fields, 1, start, end);
    }
  }

  // ------------------------------------------------ scans, generically

  /** A visit that stops before reading anything leaves the cursor where it
      was, so every further iteration repeats it. */
  lemma {:induction false} WalkStuck(visit: nat -> Result<Visit, Error>, emit: Visit -> seq<Record>, c: nat, m: nat)
    requires visit(c) == Ok(Visit(false, [], c))
    requires emit(Visit(false, [], c)) == []
    ensures Walk(visit, emit, c, m) == Ok([])
    decreases m
  {
    if m > 0 {
      WalkStuck(visit, emit, c, m - 1);
      var none: seq<Record> := [];
      assert none + none == none;
    }
  }

  /** Visiting record `j` from offset `j * size` emits it, moving on, when
      it is in the window, and stops where it started emitting nothing when
      it is not. */
  predicate StopsAtFirstDropped(visit: nat -> Result<Visit, Error>, emit: Visit -> seq<Record>, size: nat,
                                all: seq<Record>, start: int, end: int, j: nat)
    requires j < |all|
  {
    && visit(j * size).Ok?
    && (Kept(all[j], start, end) ==>
          emit(visit(j * size).value) == [all[j]] && visit(j * size).value.next == (j + 1) * size)
    && (!Kept(all[j], start, end) ==>
          visit(j * size).value == Visit(false, [], j * size) && emit(Visit(false, [], j * size)) == [])
  }

  lemma {:induction false} WalkTakesWhile(visit: nat -> Result<Visit, Error>, emit: Visit -> seq<Record>, size: nat,
                                          all: seq<Record>, start: int, end: int, i: nat)
    requires i <= |all|
    requires forall j :: i <= j < |all| ==> StopsAtFirstDropped(visit, emit, size, all, start, end, j)
    ensures Walk(visit, emit, i * size, |all| - i) == Ok(TakeWhileKept(all, start, end, i))
    decreases |all| - i
  {
    if i < |all| {
      assert StopsAtFirstDropped(visit, emit, size, all, start, end, i);
      if Kept(all[i], start, end) {
        WalkTakesWhile(visit, emit, size, all, start, end, i + 1);
      } else {
        WalkStuck(visit, emit, i * size, |all| - i);
      }
    }
  }

  /** Visiting record `j` from offset `j * size` reads record `j` (failing
      as that read fails), emits it and moves on to record `j + 1`. */
  predicate VisitsAsRead(visit: nat -> Result<Visit, Error>, emit: Visit -> seq<Record>, size: nat,
                         read: nat -> Result<Record, Error>, j: nat)
  {
    && (read(j).Err? ==> visit(j * size) == Err(read(j).error))
    && (read(j).Ok? ==>
          visit(j * size).Ok? && emit(visit(j * size).value) == [read(j).value] && visit(j * size).value.next == (j + 1) * size)
  }

  lemma {:induction false} WalkReadsAll(visit: nat -> Result<Visit, Error>, emit: Visit -> seq<Record>, size: nat,
                                        read: nat -> Result<Record, Error>, i: nat, n: nat)
    requires i <= n
    requires forall j :: i <= j < n ==> VisitsAsRead(visit, emit, size, read, j)
    ensures Walk(visit, emit, i * size, n - i) == Scan(read, i, n)
    decreases n - i
  {
    if i < n {
      assert VisitsAsRead(visit, emit, size, read, i);
      WalkReadsAll(visit, emit, size, read, i + 1, n);
    }
  }

  /** The scan the loop intends: each iteration seeks to the record's own
      offset `i * size` before visiting it. */
  function Realigned(visit: nat -> Result<Visit, Error>, emit: Visit -> seq<Record>, size: nat, i: nat, n: nat): Result<seq<Record>, Error>
    decreases n - i
  {
    if i >= n then Ok([])
    else
      var v :- visit(i * size);
      Then(emit(v), Realigned(visit, emit, size, i + 1, n))
  }

  /** Visiting record `j` from offset `j * size` emits it exactly when it is in the window. */
  predicate EmitsIfKept(visit: nat -> Result<Visit, Error>, emit: Visit -> seq<Record>, size: nat,
                        all: seq<Record>, start: int, end: int, j: nat)
    requires j < |all|
  {
    visit(j * size).Ok? && emit(visit(j * size).value) == (if Kept(all[j], start, end) then [all[j]] else [])
  }

  lemma {:induction false} RealignedWalkFilters(visit: nat -> Result<Visit, Error>, emit: Visit -> seq<Record>, size: nat,
                                                all: seq<Record>, start: int, end: int, i: nat)
    requires i <= |all|
    requires forall j :: i <= j < |all| ==> EmitsIfKept(visit, emit, size, all, start, end, j)
    ensures Realigned(visit, emit, size, i, |all|) == Ok(Filter(all, start, end, i))
    decreases |all| - i
  {
    if i < |all| {
      assert EmitsIfKept(visit, emit, size, all, start, end, i);
      RealignedWalkFilters(visit, emit, size, all, start, end, i + 1);
      var rest := Filter(all, start, end, i + 1);
      assert [] + rest == rest;
    }
  }

  // ---------------------------------------------------- whole scans

  /** Without a field named `"timestamp"` every record is in range and the
      cursor stays on record boundaries: the scan is `readAll`. */
  lemma NoTimestampReadsAll(b: Bucket, start: int, end: int)
    requires forall j :: 0 <= j < |b.fields| ==> b.fields[j].name != Timestamp
    requires b.recordAmount >= 1
    ensures ReadInTimeRange(b, start, end) == AllRecords(b)
  {
    if Size(b) > 0 {
      var visit, emit := Visitor(b, start, end), Emitter(b.fields);
      forall j | 0 <= j < b.recordAmount ensures VisitsAsRead(visit, emit, Size(b), Reader(b), j) {
        NoTimestampVisitAt(b, j, start, end);
      }
      WalkReadsAll(visit, emit, Size(b), Reader(b), 0, b.recordAmount);
    }
  }

  /** With the timestamp as the first field, an out-of-window record stops
      the cursor at its own start, so every later iteration visits the same
      record again and drops it: the scan keeps only the leading run of
      in-window records. */
  lemma TimestampFirstTakesWhile(b: Bucket, start: int, end: int)
    requires Aligned(b)
    requires b.recordAmount >= 1
    requires |b.fields| >= 1 && b.fields[0].name == Timestamp
    requires SingleLongTimestamp(b.fields)
    ensures AllRecords(b).Ok?
    ensures ReadInTimeRange(b, start, end) == Ok(TakeWhileKept(AllRecords(b).value, start, end, 0))
  {
    ReadAllAddressesRecords(b);
    var all := AllRecords(b).value;
    var visit, emit := Visitor(b, start, end), Emitter(b.fields);
    forall j | 0 <= j < |all| ensures StopsAtFirstDropped(visit, emit, Size(b), all, start, end, j) {
      VisitAligned(b, j, start, end);
      if !Kept(all[j], start, end) {
        TimestampFirstStops(b.data, j * Size(b), b.fields, start, end);
      }
    }
    WalkTakesWhile(visit, emit, Size(b), all, start, end, 0);
  }

  // -------------------------------------------------- the corrected scan

  /** `readInTimeRange` with the cursor moved to each record's offset. */
  function ReadInTimeRangeRealigned(b: Bucket, start: int, end: int): Result<seq<Record>, Error> {
    if b.recordAmount < 1 then Err(EmptyBucket)
    else if Size(b) <= 0 then Ok([])
    else Realigned(Visitor(b, start, end), Emitter(b.fields), Size(b), 0, b.recordAmount)
  }

  /** The corrected scan keeps exactly the records of `readAll` that belong
      to the window, in file order. */
  lemma RealignedFilters(b: Bucket, start: int, end: int)
    requires Aligned(b)
    requires b.recordAmount >= 1
    requires SingleLongTimestamp(b.fields)
    ensures AllRecords(b).Ok?
    ensures ReadInTimeRangeRealigned(b, start, end) == Ok(Filter(AllRecords(b).value, start, end, 0))
  {
    ReadAllAddressesRecords(b);
    var all := AllRecords(b).value;
    var visit, emit := Visitor(b, start, end), Emitter(b.fields);
    forall j | 0 <= j < |all| ensures EmitsIfKept(visit, emit, Size(b), all, start, end, j) {
      VisitAligned(b, j, start, end);
    }
    RealignedWalkFilters(visit, emit, Size(b), all, start, end, 0);
  }

  /** The two scans agree whenever the bucket has no timestamp. */
  lemma RealignedAgreesWithoutTimestamp(b: Bucket, start: int, end: int)
    requires Aligned(b)
    requires b.recordAmount >= 1
    requires forall j :: 0 <= j < |b.fields| ==> b.fields[j].name != Timestamp
    ensures ReadInTimeRangeRealigned(b, start, end) == ReadInTimeRange(b, start, end)
  {
    NoTimestampReadsAll(b, start, end);
    RealignedFilters(b, start, end);
    ReadAllAddressesRecords(b);
    var all := AllRecords(b).value;
    forall j | 0 <= j < |all| ensures Kept(all[j], start, end) {
      VisitAligned(b, j, start, end);
      NoTimestampVisitAt(b, j, start, end);
    }
    AllKept(all, start, end, 0);
  }

  lemma {:induction false} AllKept(recs: seq<Record>, start: int, end: int, k: nat)
    requires k <= |recs|
    requires forall j :: k <= j < |recs| ==> Kept(recs[j], start, end)
    ensures Filter(recs, start, end, k) == recs[k..]
    decreases |recs| - k
  {
    if k < |recs| {
      AllKept(recs, start, end, k + 1);
      assert recs[k..] == [recs[k]] + recs[k + 1..];
    }
  }

  // ------------------------------------------------------- counterexample

  /** A schema with the timestamp first, and two records written in
      timestamp order 200 then 100. */
  function SampleFields(): seq<Field> {
    [Field(Timestamp, LONG, 8), Field("value", INT, 4)]
  }

  function SampleRecord(ts: Int64, v: Int32): (bytes: seq<Byte>)
    ensures |bytes| == 12
  {
    SampleSize();
    SampleStored(ts, v);
    EncodeValues(SampleFields(), [LongV(ts), IntV(v)]).value
  }

  function SampleBucket(): Bucket {
    Bucket("sensor", SampleFields(), 2, SampleRecord(200, 1) + SampleRecord(100, 2))
  }

  function SampleRecords(): seq<Record> {
    [map[Timestamp := LongV(200), "value" := IntV(1)], map[Timestamp := LongV(100), "value" := IntV(2)]]
  }

  lemma SampleAligned()
    ensures Aligned(SampleBucket())
    ensures SingleLongTimestamp(SampleBucket().fields)
  {
    SampleSize();
    assert NonNegativeSizes(SampleFields());
  }

  /** The sample bucket's records as `readAll` returns them. */
  lemma SampleReadAll()
    ensures AllRecords(SampleBucket()) == Ok(SampleRecords())
  {
    var b := SampleBucket();
    SampleAligned();
    ReadAllAddressesRecords(b);
    SampleRecordsAt();
    var all := AllRecords(b).value;
    assert |all| == 2;
    assert all[0] == SampleRecords()[0];
    assert all[1] == SampleRecords()[1];
    assert all == SampleRecords();
  }

  lemma SampleRecordsAt()
    ensures RecordAt(SampleBucket(), 0) == Ok(SampleRecords()[0])
    ensures RecordAt(SampleBucket(), 1) == Ok(SampleRecords()[1])
  {
    var b := SampleBucket();
    var r1, r2 := SampleRecord(200, 1), SampleRecord(100, 2);
    assert b.data == [] + r1 + r2 == r1 + r2 + [];
    SampleRecordAt(b, 0, 200, 1, [], r2);
    SampleRecordAt(b, 1, 100, 2, r1, []);
  }

  lemma SampleWindow()
    ensures TakeWhileKept(SampleRecords(), 0, 150, 0) == []
    ensures Filter(SampleRecords(), 0, 150, 0) == [SampleRecords()[1]]
  {
    var all := SampleRecords();
    assert !Kept(all[0], 0, 150) && Kept(all[1], 0, 150);
    assert Filter(all, 0, 150, 2) == [];
    assert Filter(all, 0, 150, 1) == [all[1]];
  }

  lemma SampleRecordAt(b: Bucket, i: nat, ts: Int64, v: Int32, pre: seq<Byte>, post: seq<Byte>)
    requires b.fields == SampleFields()
    requires |pre| == 12 * i
    requires b.data == pre + SampleRecord(ts, v) + post
    ensures RecordAt(b, i) == Ok(map[Timestamp := LongV(ts), "value" := IntV(v)])
  {
    var f, vals := SampleFields(), [LongV(ts), IntV(v)];
    SampleSize();
    SampleStored(ts, v);
    SampleMap(ts, v);
    RecordRoundTrip(f, vals, pre, post);
    assert b.data == pre + EncodeValues(f, vals).value + post;
    assert i * Size(b) == |pre|;
    assert ReadValues(b.data, |pre|, f) == Ok(Decoded(vals, |pre| + 12));
    assert ReadRecord(b.data, |pre|, f) == Ok(Decoded(ToRecord(f, vals), |pre| + 12));
  }

  lemma SampleSize()
    ensures RecordSize(SampleFields()) == 12
  {
    var f := SampleFields();
    assert Span(f, 2, 2) == 0;
    assert Span(f, 1, 2) == 4;
  }

  lemma SampleStored(ts: Int64, v: Int32)
    ensures AllFit(SampleFields(), [LongV(ts), IntV(v)])
    ensures StoredValues(SampleFields(), [LongV(ts), IntV(v)]) == [LongV(ts), IntV(v)]
  {
    var f := SampleFields();
    var vals := [LongV(ts), IntV(v)];
    assert AllFit(f, vals);
    StoredValuesAt(f, vals, 0);
    StoredValuesAt(f, vals, 1);
    var stored := StoredValues(f, vals);
    assert stored[0] == vals[0] && stored[1] == vals[1];
  }

  lemma SampleMap(ts: Int64, v: Int32)
    ensures ToRecord(SampleFields(), [LongV(ts), IntV(v)]) == map[Timestamp := LongV(ts), "value" := IntV(v)]
  {
    var f := SampleFields();
    var vals := [LongV(ts), IntV(v)];
    assert RecordUpTo(f, vals, 0) == map[];
    assert RecordUpTo(f, vals, 1) == map[Timestamp := LongV(ts)];
  }

  /** With records at timestamps 200 then 100 and the window [0, 150], the
      scan as written returns nothing, though the second record is in the
      window: the first record's check leaves the cursor at its start, so
      the second iteration visits the first record again. Realigning the
      cursor returns the second record. */
  lemma TimeRangeMissesLaterRecord()
    ensures ReadInTimeRange(SampleBucket(), 0, 150) == Ok([])
    ensures ReadInTimeRangeRealigned(SampleBucket(), 0, 150) == Ok([map[Timestamp := LongV(100), "value" := IntV(2)]])
  {
    var b := SampleBucket();
    SampleAligned();
    SampleReadAll();
    SampleWindow();
    TimestampFirstTakesWhile(b, 0, 150);
    RealignedFilters(b, 0, 150);
  }
}
