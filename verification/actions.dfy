/** Why parsing an action name or building a response message throws. */
module ActionErrors {
  datatype ActionError =
    | NullActionType      // the action name is `null`
    | InvalidActionType   // no action has that name
    | NoResponseMessage   // the action has no response message
}

/** The actions of the current server (`server/model/ActionType.java`)
    and its `CreateBucketAction`. */
module ServerActions {
  import opened Wrappers
  import opened Schema
  import opened Store
  import opened TimeRange
  import opened ActionErrors

  datatype ActionType = CreateBucket | Write | Read | AggregateRead | CreateStream

  /** The name each action has in a request. */
  function ActionName(a: ActionType): string {
    match a
    case CreateBucket => "createBucket"
    case Write => "write"
    case Read => "read"
    case AggregateRead => "aggregateRead"
    case CreateStream => "createStream"
  }

  /** `fromString`: `null` (`None`) and unknown names are rejected; names
      are compared exactly. */
  function FromString(value: Option<string>): (r: Result<ActionType, ActionError>)
    ensures value.None? <==> r == Err(NullActionType)
    ensures r.Ok? ==> value == Some(ActionName(r.value))
    ensures value.Some? && r.Err? ==> r.error == InvalidActionType && forall a: ActionType :: ActionName(a) != value.value
  {
    match value
    case None => Err(NullActionType)
    case Some(s) =>
      if s == "createBucket" then Ok(CreateBucket)
      else if s == "write" then Ok(Write)
      else if s == "read" then Ok(Read)
      else if s == "aggregateRead" then Ok(AggregateRead)
      else if s == "createStream" then Ok(CreateStream)
      else Err(InvalidActionType)
  }

  /** Every action's name parses back to it. */
  lemma FromStringName(a: ActionType)
    ensures FromString(Some(ActionName(a))) == Ok(a)
  {
  }

  /** The text a response message starts with, for the actions that have one. */
  function ResponsePrefix(a: ActionType): string {
    match a
    case CreateBucket => "Bucket created successfully: "
    case Write => "Data written to bucket: "
    case CreateStream => "Stream started for buckets: "
    case _ => ""
  }

  /** `getResponseMessage`: creating a bucket, writing and starting a
      stream are acknowledged with a message naming the bucket; reads have
      no message. */
  function ResponseMessage(a: ActionType, bucketName: string): (r: Result<string, ActionError>)
    ensures r.Ok? <==> a == CreateBucket || a == Write || a == CreateStream
    ensures r.Err? ==> r.error == NoResponseMessage
    ensures r.Ok? ==> |r.value| > |bucketName| && r.value[|r.value| - |bucketName|..] == bucketName
  {
    match a
    case CreateBucket => Ok("Bucket created successfully: " + bucketName)
    case Write => Ok("Data written to bucket: " + bucketName)
    case CreateStream => Ok("Stream started for buckets: " + bucketName)
    case _ => Err(NoResponseMessage)
  }

  /** A response message names its action and its bucket unambiguously. */
  lemma ResponseMessageInjective(a1: ActionType, n1: string, a2: ActionType, n2: string)
    requires ResponseMessage(a1, n1).Ok? && ResponseMessage(a2, n2).Ok?
    requires ResponseMessage(a1, n1) == ResponseMessage(a2, n2)
    ensures a1 == a2 && n1 == n2
  {
    var m := ResponseMessage(a1, n1).value;
    assert m == ResponsePrefix(a1) + n1;
    assert m == ResponsePrefix(a2) + n2;
    assert m[0] == ResponsePrefix(a1)[0] && m[0] == ResponsePrefix(a2)[0];
    assert a1 == a2;
    var p := |ResponsePrefix(a1)|;
    assert n1 == m[p..] == n2;
  }

  /** The `createBucket` request. */
  datatype CreateBucketAction = CreateBucketAction(bucketName: string, fields: seq<Field>)

  /** `hasTimestamp`: whether some field of the request is named `timestamp`. */
  function HasTimestamp(a: CreateBucketAction): (r: bool)
    ensures r <==> exists i :: 0 <= i < |a.fields| && a.fields[i].name == Timestamp
  {
    AnyTimestamp(a.fields, 0)
  }

  /** Whether some field of `fields[k..]` is named `timestamp`, looked for left to right. */
  function AnyTimestamp(fields: seq<Field>, k: nat): (r: bool)
    requires k <= |fields|
    ensures r <==> exists i :: k <= i < |fields| && fields[i].name == Timestamp
    decreases |fields| - k
  {
    if k == |fields| then false
    else fields[k].name == Timestamp || AnyTimestamp(fields, k + 1)
  }

  /** Only the names matter, not their order, types or sizes. */
  lemma HasTimestampIgnoresOrder(a: CreateBucketAction, b: CreateBucketAction)
    requires multiset(a.fields) == multiset(b.fields)
    ensures HasTimestamp(a) == HasTimestamp(b)
  {
    if HasTimestamp(a) {
      var i :| 0 <= i < |a.fields| && a.fields[i].name == Timestamp;
      assert a.fields[i] in multiset(b.fields);
      var j :| 0 <= j < |b.fields| && b.fields[j] == a.fields[i];
    }
    if HasTimestamp(b) {
      var j :| 0 <= j < |b.fields| && b.fields[j].name == Timestamp;
      assert b.fields[j] in multiset(a.fields);
      var i :| 0 <= i < |a.fields| && a.fields[i] == b.fields[j];
    }
  }

  /** Over a bucket created without a timestamp field, a time-range read
      returns every record whatever the window. */
  lemma NoTimestampWindowIsEverything(a: CreateBucketAction, b: Bucket, start: int, end: int)
    requires !HasTimestamp(a)
    requires b.fields == a.fields
    requires b.recordAmount >= 1
    ensures ReadInTimeRange(b, start, end) == AllRecords(b)
  {
    NoTimestampReadsAll(b, start, end);
  }
}

/** The actions of the earlier server (`model/ActionType.java`), which has
    no aggregate read. */
module ClientActions {
  import opened Wrappers
  import opened ActionErrors

  datatype ActionType = CreateBucket | Write | Read | CreateStream

  function ActionName(a: ActionType): string {
    match a
    case CreateBucket => "createBucket"
    case Write => "write"
    case Read => "read"
    case CreateStream => "createStream"
  }

  function FromString(value: Option<string>): (r: Result<ActionType, ActionError>)
    ensures value.None? <==> r == Err(NullActionType)
    ensures r.Ok? ==> value == Some(ActionName(r.value))
    ensures value.Some? && r.Err? ==> r.error == InvalidActionType && forall a: ActionType :: ActionName(a) != value.value
  {
    match value
    case None => Err(NullActionType)
    case Some(s) =>
      if s == "createBucket" then Ok(CreateBucket)
      else if s == "write" then Ok(Write)
      else if s == "read" then Ok(Read)
      else if s == "createStream" then Ok(CreateStream)
      else Err(InvalidActionType)
  }

  lemma FromStringName(a: ActionType)
    ensures FromString(Some(ActionName(a))) == Ok(a)
  {
  }

  function ResponseMessage(a: ActionType, bucketName: string): (r: Result<string, ActionError>)
    ensures r.Ok? <==> a != Read
    ensures r.Err? ==> r.error == NoResponseMessage
    ensures r.Ok? ==> |r.value| > |bucketName| && r.value[|r.value| - |bucketName|..] == bucketName
  {
    match a
    case CreateBucket => Ok("Bucket created successfully: " + bucketName)
    case Write => Ok("Data written to bucket: " + bucketName)
    case CreateStream => Ok("Stream started for buckets: " + bucketName)
    case Read => Err(NoResponseMessage)
  }
}

/** The actions of the first server (`model/GrugActionType.java`). */
module GrugActions {
  import opened Wrappers
  import opened ActionErrors

  datatype GrugActionType = CreateBucket | Write | Read

  function ActionName(a: GrugActionType): string {
    match a
    case CreateBucket => "createBucket"
    case Write => "write"
    case Read => "read"
  }

  function FromString(value: Option<string>): (r: Result<GrugActionType, ActionError>)
    ensures value.None? <==> r == Err(NullActionType)
    ensures r.Ok? ==> value == Some(ActionName(r.value))
    ensures value.Some? && r.Err? ==> r.error == InvalidActionType && forall a: GrugActionType :: ActionName(a) != value.value
  {
    match value
    case None => Err(NullActionType)
    case Some(s) =>
      if s == "createBucket" then Ok(CreateBucket)
      else if s == "write" then Ok(Write)
      else if s == "read" then Ok(Read)
      else Err(InvalidActionType)
  }

  lemma FromStringName(a: GrugActionType)
    ensures FromString(Some(ActionName(a))) == Ok(a)
  {
  }
}

/** How the three generations of action names relate: each accepts the
    names of the one before and adds to them. */
module ActionHistory {
  import opened Wrappers
  import ServerActions
  import ClientActions
  import GrugActions

  /** A name the first server accepts is accepted by the earlier one, as
      the action of the same name, and vice versa except `createStream`. */
  lemma GrugNamesAccepted(s: Option<string>)
    ensures GrugActions.FromString(s).Ok? ==>
      ClientActions.FromString(s).Ok? && ClientActions.ActionName(ClientActions.FromString(s).value) == s.value
    ensures ClientActions.FromString(s).Ok? ==>
      (GrugActions.FromString(s).Ok? <==> s.value != "createStream")
  {
  }

  /** The earlier server's names are exactly the current ones except `aggregateRead`. */
  lemma ClientNamesAccepted(s: Option<string>)
    ensures ClientActions.FromString(s).Ok? ==>
      ServerActions.FromString(s).Ok? && ServerActions.ActionName(ServerActions.FromString(s).value) == s.value
    ensures ServerActions.FromString(s).Ok? ==>
      (ClientActions.FromString(s).Ok? <==> s.value != "aggregateRead")
  {
  }

  /** Both servers acknowledge an action of the same name with the same message. */
  lemma SameResponseMessages(a: ClientActions.ActionType, bucketName: string)
    ensures var s := ServerActions.FromString(Some(ClientActions.ActionName(a)));
      s.Ok? && ServerActions.ResponseMessage(s.value, bucketName) == ClientActions.ResponseMessage(a, bucketName)
  {
  }
}
