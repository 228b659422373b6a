/** Bucket creation and start-up recovery: `createBucket` and
    `generateMetadata` (`engine/Engine.java`), the earlier `Engine.java`
    whose static initialiser re-creates every bucket, and `DB.java`, whose
    `createBucket` refuses an existing file. The data directory is a map
    from bucket name to the contents of its `.grug` file; the metadata map
    is a map from bucket name to bucket. */
module Registry {
  import opened Wrappers
  import opened Bytes
  import opened Errors
  import opened Schema
  import opened Store

  /** The `.grug` files of the data directory and `BUCKET_METADATA_MAP`. */
  datatype Db = Db(files: map<string, seq<Byte>>, buckets: map<string, Bucket>)

  /** An operation's outcome: the state afterwards and, if it threw, why.
      The state is returned on failure too because the file may already
      have been created. */
  datatype Outcome = Outcome(db: Db, failure: Option<Error>)

  /** Every registered bucket reads the file of its own name. */
  predicate Consistent(db: Db) {
    forall n :: n in db.buckets ==> n in db.files && db.buckets[n].name == n && db.buckets[n].data == db.files[n]
  }

  /** `b` counts exactly the complete records of `data`: for a positive
      record size, `recordAmount` records fit and less than one more is left. */
  predicate CountsRecords(b: Bucket, data: seq<Byte>) {
    Size(b) > 0 ==> 0 <= b.recordAmount && b.recordAmount * Size(b) <= |data| < b.recordAmount * Size(b) + Size(b)
  }

  /** Bucket `n` is registered and counts the complete records of its file. */
  predicate CountsAt(db: Db, n: string) {
    n in db.buckets && n in db.files && CountsRecords(db.buckets[n], db.files[n])
  }

  /** Java's `long` division of a file length, truncating toward zero: the
      quotient leaves a remainder in `[0, |d|)` of the sign of the dividend. */
  function JavaDiv(a: nat, d: int): (q: int)
    requires d != 0
    ensures 0 <= a - q * d < if d > 0 then d else -d
    ensures d > 0 ==> q >= 0
  {
    if d > 0 then a / d else -(a / -d)
  }

  /** `createBucket` of the engine: the file is created empty unless it
      exists, and the record count is the file length divided by the
      record size, so a trailing partial record is not counted. A record
      size of 0 makes the division throw after the file was created. */
  function CreateBucket(db: Db, name: string, fields: seq<Field>): (o: Outcome)
    ensures o.db.files.Keys == db.files.Keys + {name}
    ensures forall n :: n in db.files ==> o.db.files[n] == db.files[n]
    ensures o.failure.Some? <==> RecordSize(fields) == 0
    ensures o.failure.Some? ==> o.failure.value == DivisionByZero && o.db.buckets == db.buckets
    ensures o.failure.None? ==> o.db.buckets.Keys == db.buckets.Keys + {name}
    ensures o.failure.None? ==>
      && o.db.buckets[name].fields == fields
      && o.db.buckets[name].data == o.db.files[name]
      && (name in db.files ==> o.db.buckets[name].data == db.files[name])
      && (name !in db.files ==> o.db.buckets[name].data == [])
    ensures o.failure.None? ==> CountsRecords(o.db.buckets[name], o.db.files[name])
    ensures forall n :: n in db.buckets && n != name ==> n in o.db.buckets && o.db.buckets[n] == db.buckets[n]
  {
    var content := if name in db.files then db.files[name] else [];
    var files := db.files[name := content];
    var size := RecordSize(fields);
    if size == 0 then Outcome(Db(files, db.buckets), Some(DivisionByZero))
    else
      var b := Bucket(name, fields, JavaDiv(|content|, size), content);
      Outcome(Db(files, db.buckets[name := b]), None)
  }

  /** Creation keeps every registered bucket reading its own file. */
  lemma CreateKeepsConsistent(db: Db, name: string, fields: seq<Field>)
    requires Consistent(db)
    ensures Consistent(CreateBucket(db, name, fields).db)
  {
  }

  /** Re-creating a bucket over the file an aligned bucket wrote restores
      that bucket exactly: the count recovered from the file length is the
      number of records written. */
  lemma ReopenAligned(db: Db, b: Bucket)
    requires Aligned(b)
    requires b.name in db.files && db.files[b.name] == b.data
    ensures CreateBucket(db, b.name, b.fields) == Outcome(db.(buckets := db.buckets[b.name := b]), None)
  {
    DivModUnique(|b.data|, Size(b), b.recordAmount, 0);
    assert db.files[b.name := b.data] == db.files;
  }

  /** A file whose length is not a whole number of records (a write that
      failed half-way, say) reopens as a bucket that is not aligned: the
      count drops the trailing bytes but appends go after them. */
  lemma ReopenAfterPartialRecord(db: Db, name: string, fields: seq<Field>)
    requires name in db.files
    requires RecordSize(fields) > 0
    requires |db.files[name]| % RecordSize(fields) != 0
    ensures CreateBucket(db, name, fields).failure.None?
    ensures !Aligned(CreateBucket(db, name, fields).db.buckets[name])
  {
    var size := RecordSize(fields);
    var b := CreateBucket(db, name, fields).db.buckets[name];
    ModOfMultiple(b.recordAmount, size);
  }

  lemma ModOfMultiple(k: nat, d: int)
    requires d > 0
    ensures (k * d) % d == 0
  {
    DivModUnique(k * d, d, k, 0);
  }

  /** Euclidean quotient and remainder are unique. */
  lemma DivModUnique(m: int, d: int, q: int, r: int)
    requires d > 0
    requires m == q * d + r
    requires 0 <= r < d
    ensures m / d == q && m % d == r
  {
    var q0 := m / d;
    var r0 := m % d;
    assert m == q0 * d + r0;
    MulDistributes(q, q0, d);
    if q > q0 {
      MulAtLeast(q - q0, d);
    } else if q < q0 {
      MulAtLeast(q0 - q, d);
    }
  }

  lemma MulDistributes(a: int, b: int, d: int)
    ensures a * d - b * d == (a - b) * d
  {
  }

  lemma MulAtLeast(x: int, d: int)
    requires x >= 1 && d > 0
    ensures x * d >= d
  {
    assert x * d == (x - 1) * d + d;
  }

  // ------------------------------------------------------------- recovery

  /** A `.grug_meta` entry: the name and schema of a bucket. */
  datatype Metadata = Metadata(name: string, fields: seq<Field>)

  /** `generateMetadata` and the earlier engine's static initialiser:
      re-create every bucket the metadata lists, in order; the first
      failure aborts the start-up. */
  function Recover(db: Db, metas: seq<Metadata>, k: nat): (o: Outcome)
    requires k <= |metas|
    ensures o.failure.None? <==> forall i :: k <= i < |metas| ==> RecordSize(metas[i].fields) != 0
    ensures forall n :: n in db.files ==> n in o.db.files && o.db.files[n] == db.files[n]
    decreases |metas| - k
  {
    if k == |metas| then Outcome(db, None)
    else
      var o := CreateBucket(db, metas[k].name, metas[k].fields);
      if o.failure.Some? then o else Recover(o.db, metas, k + 1)
  }

  /** Recovery keeps every registered bucket reading its own file. */
  lemma {:induction false} RecoverKeepsConsistent(db: Db, metas: seq<Metadata>, k: nat)
    requires k <= |metas|
    requires Consistent(db)
    ensures Consistent(Recover(db, metas, k).db)
    decreases |metas| - k
  {
    if k < |metas| {
      var o := CreateBucket(db, metas[k].name, metas[k].fields);
      CreateKeepsConsistent(db, metas[k].name, metas[k].fields);
      if o.failure.None? {
        RecoverKeepsConsistent(o.db, metas, k + 1);
      }
    }
  }

  /** A successful recovery registers every listed bucket. */
  lemma {:induction false} RecoverRegisters(db: Db, metas: seq<Metadata>, k: nat)
    requires k <= |metas|
    ensures Recover(db, metas, k).failure.None? ==>
      forall i :: k <= i < |metas| ==> metas[i].name in Recover(db, metas, k).db.buckets
    decreases |metas| - k
  {
    if k < |metas| {
      var o := CreateBucket(db, metas[k].name, metas[k].fields);
      if o.failure.None? {
        assert Recover(db, metas, k) == Recover(o.db, metas, k + 1);
        assert metas[k].name in o.db.buckets;
        RecoverRegisters(o.db, metas, k + 1);
        RecoverKeepsBuckets(o.db, metas, k + 1, metas[k].name);
      }
    }
  }

  /** Recovery never unregisters a bucket. */
  lemma {:induction false} RecoverKeepsBuckets(db: Db, metas: seq<Metadata>, k: nat, n: string)
    requires k <= |metas|
    requires n in db.buckets
    ensures n in Recover(db, metas, k).db.buckets
    decreases |metas| - k
  {
    if k < |metas| {
      var o := CreateBucket(db, metas[k].name, metas[k].fields);
      if o.failure.None? {
        RecoverKeepsBuckets(o.db, metas, k + 1, n);
      }
    }
  }

  /** Creating any bucket keeps bucket `n` counting the records of its file. */
  lemma CreateKeepsCount(db: Db, name: string, fields: seq<Field>, n: string)
    requires CountsAt(db, n)
    ensures CountsAt(CreateBucket(db, name, fields).db, n)
  {
  }

  /** Recovery keeps bucket `n` counting the records of its file, whether
      or not it re-creates it. */
  lemma {:induction false} RecoverKeepsCount(db: Db, metas: seq<Metadata>, k: nat, n: string)
    requires k <= |metas|
    requires CountsAt(db, n)
    ensures CountsAt(Recover(db, metas, k).db, n)
    decreases |metas| - k
  {
    if k < |metas| {
      var o := CreateBucket(db, metas[k].name, metas[k].fields);
      CreateKeepsCount(db, metas[k].name, metas[k].fields, n);
      if o.failure.None? {
        RecoverKeepsCount(o.db, metas, k + 1, n);
      }
    }
  }

  /** After a successful recovery every listed bucket counts exactly the
      complete records of its file: `recordAmount` is the file length
      divided by the record size. */
  lemma {:induction false} RecoverCounts(db: Db, metas: seq<Metadata>, k: nat)
    requires k <= |metas|
    ensures Recover(db, metas, k).failure.None? ==>
      forall i :: k <= i < |metas| ==> CountsAt(Recover(db, metas, k).db, metas[i].name)
    decreases |metas| - k
  {
    if k < |metas| {
      var o := CreateBucket(db, metas[k].name, metas[k].fields);
      if o.failure.None? {
        assert Recover(db, metas, k) == Recover(o.db, metas, k + 1);
        assert CountsAt(o.db, metas[k].name);
        RecoverKeepsCount(o.db, metas, k + 1, metas[k].name);
        RecoverCounts(o.db, metas, k + 1);
      }
    }
  }

  // ------------------------------------------------------------------- DB

  /** `createBucket` of `DB.java`: an existing file is refused; otherwise
      the file is created empty and the bucket starts with no records. */
  function CreateFreshBucket(db: Db, name: string, fields: seq<Field>): (o: Outcome)
    ensures o.failure.Some? <==> name in db.files
    ensures o.failure.Some? ==> o == Outcome(db, Some(BucketExists(name)))
    ensures o.failure.None? ==>
      && o.db.files == db.files[name := []]
      && name in o.db.buckets
      && o.db.buckets[name].recordAmount == 0
      && o.db.buckets[name].data == []
  {
    if name in db.files then Outcome(db, Some(BucketExists(name)))
    else Outcome(Db(db.files[name := []], db.buckets[name := Bucket(name, fields, 0, [])]), None)
  }

  /** For a name with no file yet and a non-zero record size, the two
      versions of `createBucket` do the same. */
  lemma FreshAgreesWithEngine(db: Db, name: string, fields: seq<Field>)
    requires name !in db.files
    requires RecordSize(fields) != 0
    ensures CreateFreshBucket(db, name, fields) == CreateBucket(db, name, fields)
  {
  }

  /** A second creation of the same name fails, and a fresh bucket over a
      schema of non-negative sizes is aligned. */
  lemma CreateFreshTwice(db: Db, name: string, fields: seq<Field>, other: seq<Field>)
    requires name !in db.files
    ensures var o := CreateFreshBucket(db, name, fields);
      && CreateFreshBucket(o.db, name, other) == Outcome(o.db, Some(BucketExists(name)))
      && (NonNegativeSizes(fields) && RecordSize(fields) > 0 ==> Aligned(o.db.buckets[name]))
  {
  }
}
