/**
 * The extract handler of the implement_the_eventBridge_ETL_architecture example:
 * for every S3 record of every SQS record it reads the object, parses it into a
 * header row and data rows, and only logs them.
 */
module ExtractLog {
  import opened Csv
  import opened Effects
  import opened Sequences

  /** The calls the handler makes for the objects `refs`, in order. A missing object rejects the handler. */
  function ReadRun(refs: seq<ObjectRef>, objects: Store): Run
    decreases |refs|
  {
    if refs == [] then Run([], Resolved)
    else
      var prev := ReadRun(refs[..|refs| - 1], objects);
      var obj := refs[|refs| - 1];
      if prev.outcome.Rejected? then prev
      else if obj !in objects then Run(prev.effects + [Effect(GetObject(obj), false)], Rejected(NoSuchObject(obj)))
      else Run(prev.effects + [Effect(GetObject(obj), true)], Resolved)
  }

  /** The objects read successfully, then the failed read if there is one. */
  function ReadsUpTo(refs: seq<ObjectRef>, objects: Store): (r: Run)
  {
    var m := FirstMissing(refs, objects);
    var n := if m < |refs| then m + 1 else |refs|;
    Run(seq(n, k requires 0 <= k < n => Effect(GetObject(refs[k]), k < m)),
        if m < |refs| then Rejected(NoSuchObject(refs[m])) else Resolved)
  }

  /** The handler reads the objects in order up to and including the first missing one, where it rejects. */
  lemma {:induction false} ReadRunReadsUpTo(refs: seq<ObjectRef>, objects: Store)
    ensures ReadRun(refs, objects) == ReadsUpTo(refs, objects)
    decreases |refs|
  {
    if refs != [] {
      var j := |refs| - 1;
      ReadRunReadsUpTo(refs[..j], objects);
      FirstMissingPrefix(refs, objects, j);
      var m := FirstMissing(refs, objects);
      if m < j {
        assert refs[..j][m] == refs[m];
      } else {
        assert FirstMissing(refs[..j], objects) == j;
        var want := ReadsUpTo(refs, objects);
        var got := ReadRun(refs, objects);
        assert got.effects == ReadsUpTo(refs[..j], objects).effects + [Effect(GetObject(refs[j]), m > j)];
        assert got.effects == want.effects;
      }
    }
  }

  /** Once the handler has rejected, later objects are not read. */
  lemma {:induction false} ReadRunStops(a: seq<ObjectRef>, b: seq<ObjectRef>, objects: Store)
    requires ReadRun(a, objects).outcome.Rejected?
    ensures ReadRun(a + b, objects) == ReadRun(a, objects)
    decreases |b|
  {
    if b == [] {
      assert a + b == a;
    } else {
      var n := |b| - 1;
      assert (a + b)[..|a + b| - 1] == a + b[..n];
      ReadRunStops(a, b[..n], objects);
    }
  }

  /**
   * Nothing is written and no event is emitted: every call reads one S3 object.
   * The handler resolves exactly when every object exists, and then it has read
   * every S3 record of every SQS record, in order.
   */
  lemma ReadRunOnlyReads(refs: seq<ObjectRef>, objects: Store)
    ensures forall k | 0 <= k < |ReadRun(refs, objects).effects| :: ReadRun(refs, objects).effects[k].call.GetObject?
    ensures ReadRun(refs, objects).outcome == Resolved <==> forall k | 0 <= k < |refs| :: refs[k] in objects
    ensures ReadRun(refs, objects).outcome == Resolved ==> Calls(ReadRun(refs, objects).effects) == seq(|refs|, k requires 0 <= k < |refs| => GetObject(refs[k]))
  {
    ReadRunReadsUpTo(refs, objects);
  }

  /**
   * A notification without a bucket name or an object key names nothing S3 can
   * hold: the handler rejects there or at an earlier missing object, and reads
   * nothing after it.
   */
  lemma UnaddressableRejects(refs: seq<ObjectRef>, objects: Store, m: nat)
    requires m < |refs| && !Addressable(refs[m])
    ensures ReadRun(refs, objects).outcome.Rejected?
    ensures |ReadRun(refs, objects).effects| <= m + 1
  {
    ReadRunReadsUpTo(refs, objects);
    assert refs[m] !in objects;
  }

  /** `tables` are the parsed files of the objects `refs`, all of which exist. */
  predicate ParsedAll(tables: seq<Table>, refs: seq<ObjectRef>, files: map<ObjectRef, Table>)
  {
    |tables| == |refs| && forall k | 0 <= k < |refs| :: refs[k] in files && tables[k] == files[refs[k]]
  }

  lemma ReadRunSnoc(refs: seq<ObjectRef>, obj: ObjectRef, objects: Store)
    requires ReadRun(refs, objects).outcome == Resolved
    ensures ReadRun(refs + [obj], objects) ==
      if obj in objects then Run(ReadRun(refs, objects).effects + [Effect(GetObject(obj), true)], Resolved)
      else Run(ReadRun(refs, objects).effects + [Effect(GetObject(obj), false)], Rejected(NoSuchObject(obj)))
  {
    assert (refs + [obj])[..|refs|] == refs;
  }

  /**
   * Tables for every object before the first missing one, and the one after
   * them missing or none left: then they are the tables of all objects up to
   * the first missing one.
   */
  lemma TablesUpToMissing(all: seq<ObjectRef>, tables: seq<Table>, files: map<ObjectRef, Table>, objects: Store)
    requires ParsedFrom(files, objects)
    requires |tables| <= |all| && ParsedAll(tables, all[..|tables|], files)
    requires |tables| < |all| ==> all[|tables|] !in objects
    ensures |tables| == FirstMissing(all, objects)
    ensures forall k | 0 <= k < |tables| :: tables[k] == Parse(objects[all[k]])
  {
    FirstMissingUnique(all, objects, |tables|);
    forall k | 0 <= k < |tables| ensures tables[k] == Parse(objects[all[k]]) {
      assert all[..|tables|][k] == all[k];
    }
  }

  /** One turn of the loop over S3 records: the run reads one more object, or rejects for good. */
  lemma ReadStep(seen: seq<ObjectRef>, s3Records: seq<ObjectRef>, j: nat, objects: Store,
                 files: map<ObjectRef, Table>, effects: seq<Effect>, tables: seq<Table>)
    requires j < |s3Records| && files.Keys == objects.Keys
    requires ReadRun(seen + s3Records[..j], objects) == Run(effects, Resolved)
    requires ParsedAll(tables, seen + s3Records[..j], files)
    ensures var obj := s3Records[j];
      if obj in objects then
        && ReadRun(seen + s3Records[..j + 1], objects) == Run(effects + [Effect(GetObject(obj), true)], Resolved)
        && ParsedAll(tables + [files[obj]], seen + s3Records[..j + 1], files)
      else
        && ReadRun(seen + s3Records, objects) == Run(effects + [Effect(GetObject(obj), false)], Rejected(NoSuchObject(obj)))
        && |tables| < |seen + s3Records|
        && ParsedAll(tables, (seen + s3Records)[..|tables|], files)
        && (seen + s3Records)[|tables|] !in objects
  {
    var before := seen + s3Records[..j];
    var obj := s3Records[j];
    PrefixStep(seen, s3Records, j);
    ReadRunSnoc(before, obj, objects);
    if obj !in objects {
      ReadRunStops(before + [obj], s3Records[j + 1..], objects);
      PrefixOfAppend(before + [obj], s3Records[j + 1..], |tables|);
      assert (before + [obj])[..|tables|] == before;
    }
  }

  /** The loop over the S3 records of one SQS record, continuing a run over the objects `seen` before them. */
  method ReadS3Records(s3Records: seq<ObjectRef>, objects: Store, effects: seq<Effect>, tables: seq<Table>,
                       ghost files: map<ObjectRef, Table>, ghost seen: seq<ObjectRef>)
    returns (after: seq<Effect>, parsed: seq<Table>, outcome: Outcome)
    requires ParsedFrom(files, objects)
    requires ReadRun(seen, objects) == Run(effects, Resolved)
    requires ParsedAll(tables, seen, files)
    ensures ReadRun(seen + s3Records, objects) == Run(after, outcome)
    ensures |parsed| <= |seen + s3Records| && ParsedAll(parsed, (seen + s3Records)[..|parsed|], files)
    ensures outcome.Resolved? <==> |parsed| == |seen + s3Records|
    ensures outcome.Rejected? ==> (seen + s3Records)[|parsed|] !in objects
  {
    after, parsed := effects, tables;
    var j := 0;
    PrefixEnds(seen, s3Records);
    while j < |s3Records|
      invariant j <= |s3Records|
      invariant ReadRun(seen + s3Records[..j], objects) == Run(after, Resolved)
      invariant ParsedAll(parsed, seen + s3Records[..j], files)
    {
      var obj := s3Records[j];
      ReadStep(seen, s3Records, j, objects, files, after, parsed);
      if obj !in objects {
        after := after + [Effect(GetObject(obj), false)];
        outcome := Rejected(NoSuchObject(obj));
        return;
      }
      after := after + [Effect(GetObject(obj), true)];
      var table := Parse(objects[obj]);
      parsed := parsed + [table];
      j := j + 1;
    }
    outcome := Resolved;
    assert (seen + s3Records)[..|parsed|] == seen + s3Records;
  }

  /**
   * The handler. `records` are the SQS records with their parsed S3 notification
   * records, `objects` what S3 holds. Besides the calls it returns, as `tables`,
   * the header row and data rows it prints for each object it could read.
   */
  method Handler(records: seq<SqsRecord>, objects: Store)
    returns (effects: seq<Effect>, tables: seq<Table>, outcome: Outcome)
    ensures Run(effects, outcome) == ReadRun(Objects(records), objects)
    ensures |tables| == FirstMissing(Objects(records), objects)
    ensures forall k | 0 <= k < |tables| :: tables[k] == Parse(objects[Objects(records)[k]])
  {
    ghost var files := Parsed(objects);
    effects, tables := [], [];
    var i := 0;
    while i < |records|
      invariant i <= |records|
      invariant ReadRun(Objects(records[..i]), objects) == Run(effects, Resolved)
      invariant ParsedAll(tables, Objects(records[..i]), files)
    {
      ObjectsSnoc(records, i);
      ghost var done := Objects(records[..i + 1]);
      effects, tables, outcome := ReadS3Records(records[i].s3Records, objects, effects, tables, files, Objects(records[..i]));
      if outcome.Rejected? {
        ObjectsNested(records, i);
        ReadRunStops(done, Objects(records[i + 1..]), objects);
        PrefixOfAppend(done, Objects(records[i + 1..]), |tables|);
        TablesUpToMissing(Objects(records), tables, files, objects);
        return;
      }
      assert done[..|tables|] == done;
      i := i + 1;
    }
    assert records[..i] == records;
    outcome := Resolved;
    assert Objects(records)[..|tables|] == Objects(records);
    TablesUpToMissing(Objects(records), tables, files, objects);
  }
}
