/**
 * What the ETL handlers exchange with the outside world. S3, EventBridge and
 * DynamoDB are not modelled; every call a handler makes is appended to an effect
 * log together with whether it succeeded.
 */
module Effects {
  import opened Wrappers

  /** A JavaScript object with string values; `None` is a property read as `undefined`. */
  type Record = map<string, Option<string>>

  /** Bucket name and object key of one S3 notification (either may be missing). */
  datatype ObjectRef = ObjectRef(bucket: Option<string>, key: Option<string>)

  /** A reference S3 can keep an object under: both a bucket name and a key, neither of them empty. */
  predicate Addressable(obj: ObjectRef)
  {
    obj.bucket.Some? && obj.key.Some? && obj.bucket.value != "" && obj.key.value != ""
  }

  /**
   * What S3 holds: the contents of each stored object. Every stored object has a
   * bucket and a key, so a `getObject` for a reference missing either one fails,
   * as does one for an object that is not stored.
   */
  type Store = objects: map<ObjectRef, string> | forall obj | obj in objects :: Addressable(obj)
    witness map[]

  /** One SQS message: the S3 notification records its body carries, in order. */
  datatype SqsRecord = SqsRecord(s3Records: seq<ObjectRef>)

  /** The S3 records of all SQS records, SQS record by SQS record. */
  function Objects(records: seq<SqsRecord>): seq<ObjectRef>
    decreases |records|
  {
    if records == [] then []
    else Objects(records[..|records| - 1]) + records[|records| - 1].s3Records
  }

  /** Processing order is nested: every S3 record of SQS record `i` comes after those of earlier SQS records and before those of later ones. */
  lemma {:induction false} ObjectsNested(records: seq<SqsRecord>, i: nat)
    requires i < |records|
    ensures Objects(records) == Objects(records[..i]) + records[i].s3Records + Objects(records[i + 1..])
    decreases |records|
  {
    var n := |records| - 1;
    if i == n {
      assert records[..n + 1] == records;
      assert records[i + 1..] == [];
    } else {
      ObjectsNested(records[..n], i);
      assert records[..n][..i] == records[..i];
      assert records[..n][i + 1..] == records[i + 1..n];
      assert records[i + 1..][..|records[i + 1..]| - 1] == records[i + 1..n];
    }
  }

  /** One more SQS record appends its S3 records. */
  lemma ObjectsSnoc(records: seq<SqsRecord>, i: nat)
    requires i < |records|
    ensures Objects(records[..i + 1]) == Objects(records[..i]) + records[i].s3Records
  {
    assert records[..i + 1][..i] == records[..i];
  }

  /** The position of the first object the store does not hold, or the number of objects. */
  function FirstMissing<V>(refs: seq<ObjectRef>, objects: map<ObjectRef, V>): (m: nat)
    ensures m <= |refs|
    ensures forall k | 0 <= k < m :: refs[k] in objects
    ensures m < |refs| ==> refs[m] !in objects
    decreases |refs|
  {
    if refs == [] then 0
    else if refs[0] !in objects then 0
    else 1 + FirstMissing(refs[1..], objects)
  }

  /** The DynamoDB item written by the load step. */
  datatype Item = Item(
    id: Option<string>,
    houseNumber: Option<string>,
    streetAddress: Option<string>,
    town: Option<string>,
    zip: Option<string>)

  /** The parameters of a DynamoDB `put`. */
  datatype PutParams = PutParams(tableName: Option<string>, item: Item)

  /** The `Detail` of an EventBridge entry, before serialisation: `{status, headers, data}` or `{status, data}`. */
  datatype Detail =
    | Extracted(headers: seq<string>, row: seq<string>)
    | Succeeded(params: PutParams)

  function Status(d: Detail): string
  {
    match d
    case Extracted(_, _) => "extracted"
    case Succeeded(_) => "success"
  }

  /** An EventBridge entry; the `Time` stamp is not modelled. */
  datatype Entry = Entry(source: string, eventBusName: string, detailType: string, detail: Detail)

  const AppSource: string := "myETLapp"
  const EtlBus: string := "ETLEventBus"
  const EtlDetailType: string := "EtlProcess"

  /** The envelope every entry of the ETL application carries. */
  predicate OnEtlBus(e: Entry)
  {
    e.source == AppSource && e.eventBusName == EtlBus && e.detailType == EtlDetailType
  }

  function EtlEntry(d: Detail): Entry
  {
    Entry(AppSource, EtlBus, EtlDetailType, d)
  }

  datatype Call =
    | GetObject(obj: ObjectRef)
    | PutItem(params: PutParams)
    | PutEvents(entry: Entry)

  /** One external call, and whether it succeeded. */
  datatype Effect = Effect(call: Call, ok: bool)

  /** Why a handler's promise rejects: a missing S3 object, a failed DynamoDB put, or reading a property of `undefined`. */
  datatype Failure = NoSuchObject(obj: ObjectRef) | PutItemFailed | NoData

  /** How the handler's promise settles. */
  datatype Outcome = Resolved | Rejected(failure: Failure)

  datatype Run = Run(effects: seq<Effect>, outcome: Outcome)

  /** The calls of a log, without their results. */
  function Calls(effects: seq<Effect>): seq<Call>
  {
    seq(|effects|, k requires 0 <= k < |effects| => effects[k].call)
  }

  /** The objects read, in the order of the log. */
  function Reads(effects: seq<Effect>): seq<ObjectRef>
    decreases |effects|
  {
    if effects == [] then []
    else
      var last := effects[|effects| - 1];
      Reads(effects[..|effects| - 1]) + (if last.call.GetObject? then [last.call.obj] else [])
  }

  lemma {:induction false} ReadsAppend(a: seq<Effect>, b: seq<Effect>)
    ensures Reads(a + b) == Reads(a) + Reads(b)
    decreases |b|
  {
    if b == [] {
      assert a + b == a;
    } else {
      var n := |b| - 1;
      assert (a + b)[..|a + b| - 1] == a + b[..n];
      ReadsAppend(a, b[..n]);
    }
  }

  /** `FirstMissing` is the only position with its three properties. */
  lemma FirstMissingUnique<V>(refs: seq<ObjectRef>, objects: map<ObjectRef, V>, m: nat)
    requires m <= |refs|
    requires forall k | 0 <= k < m :: refs[k] in objects
    requires m < |refs| ==> refs[m] !in objects
    ensures m == FirstMissing(refs, objects)
  {
  }

  /** On a prefix, the first missing object is the same, unless the prefix ends before it. */
  lemma FirstMissingPrefix<V>(refs: seq<ObjectRef>, objects: map<ObjectRef, V>, j: nat)
    requires j <= |refs|
    ensures FirstMissing(refs[..j], objects) == if FirstMissing(refs, objects) < j then FirstMissing(refs, objects) else j
  {
    var f := FirstMissing(refs, objects);
    FirstMissingUnique(refs[..j], objects, if f < j then f else j);
  }

  /** A log without reads reads nothing. */
  lemma {:induction false} NoReads(e: seq<Effect>)
    requires forall k | 0 <= k < |e| :: !e[k].call.GetObject?
    ensures Reads(e) == []
    decreases |e|
  {
    if e != [] {
      NoReads(e[..|e| - 1]);
    }
  }

  /** A log made only of reads reads exactly those objects. */
  lemma {:induction false} ReadsOfGets(e: seq<Effect>, refs: seq<ObjectRef>)
    requires |e| == |refs|
    requires forall k | 0 <= k < |e| :: e[k].call == GetObject(refs[k])
    ensures Reads(e) == refs
    decreases |e|
  {
    if e != [] {
      var n := |e| - 1;
      ReadsOfGets(e[..n], refs[..n]);
      assert refs == refs[..n] + [refs[n]];
    }
  }
}
