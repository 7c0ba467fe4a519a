/**
 * The extract handler of the 05_eventbridge_etl example: for every S3 record of
 * every SQS record it reads the object, parses it, and sends one "extracted"
 * event per data row. A rejected `putEvents` is caught and only logged.
 *
 * `bus(p)` is whether EventBridge accepts the call recorded at position `p` of the log.
 * The run is stated over `files`, the parsed contents of the stored objects.
 */
module ExtractEmit {
  import opened Csv
  import opened Effects
  import opened Sequences
  import ExtractLog

  /** The entry sent for one data row. */
  function RowEntry(headers: seq<string>, row: seq<string>): Entry
  {
    EtlEntry(Extracted(headers, row))
  }

  /** One `putEvents` per data row of `rows`, in row order; the first is recorded at position `start`. */
  function RowEffects(headers: seq<string>, rows: seq<seq<string>>, start: nat, bus: nat -> bool): seq<Effect>
    decreases |rows|
  {
    if rows == [] then []
    else
      var n := |rows| - 1;
      RowEffects(headers, rows[..n], start, bus) + [Effect(PutEvents(RowEntry(headers, rows[n])), bus(start + n))]
  }

  /** Exactly one event per data row, in row order, each carrying the header row and that row. */
  lemma {:induction false} RowEffectsAt(headers: seq<string>, rows: seq<seq<string>>, start: nat, bus: nat -> bool)
    ensures |RowEffects(headers, rows, start, bus)| == |rows|
    ensures forall k | 0 <= k < |rows| ::
      RowEffects(headers, rows, start, bus)[k] == Effect(PutEvents(RowEntry(headers, rows[k])), bus(start + k))
    ensures forall k | 0 <= k < |rows| :: var c := RowEffects(headers, rows, start, bus)[k].call;
      c.PutEvents? && OnEtlBus(c.entry) && c.entry.detail == Extracted(headers, rows[k])
    decreases |rows|
  {
    if rows != [] {
      RowEffectsAt(headers, rows[..|rows| - 1], start, bus);
    }
  }

  /**
   * The calls made for one object whose `getObject` is recorded at position `start`:
   * the read, then (when it is stored) one event per data row.
   */
  function ObjectEffects(obj: ObjectRef, files: map<ObjectRef, Table>, start: nat, bus: nat -> bool): seq<Effect>
  {
    if obj in files then [Effect(GetObject(obj), true)] + RowEffects(files[obj].headers, files[obj].rows, start + 1, bus)
    else [Effect(GetObject(obj), false)]
  }

  /** The calls the handler makes for the objects `refs`, in order. A missing object rejects the handler. */
  function EmitRun(refs: seq<ObjectRef>, files: map<ObjectRef, Table>, bus: nat -> bool): Run
    decreases |refs|
  {
    if refs == [] then Run([], Resolved)
    else
      var prev := EmitRun(refs[..|refs| - 1], files, bus);
      var obj := refs[|refs| - 1];
      if prev.outcome.Rejected? then prev
      else Run(prev.effects + ObjectEffects(obj, files, |prev.effects|, bus),
               if obj in files then Resolved else Rejected(NoSuchObject(obj)))
  }

  /** One more object after a resolved run. */
  lemma EmitRunSnoc(refs: seq<ObjectRef>, obj: ObjectRef, files: map<ObjectRef, Table>, bus: nat -> bool)
    requires EmitRun(refs, files, bus).outcome == Resolved
    ensures var prev := EmitRun(refs, files, bus).effects;
      EmitRun(refs + [obj], files, bus) ==
      Run(prev + ObjectEffects(obj, files, |prev|, bus), if obj in files then Resolved else Rejected(NoSuchObject(obj)))
  {
    assert (refs + [obj])[..|refs|] == refs;
  }

  /** Once the handler has rejected, later objects are not touched. */
  lemma {:induction false} EmitRunStops(a: seq<ObjectRef>, b: seq<ObjectRef>, files: map<ObjectRef, Table>, bus: nat -> bool)
    requires EmitRun(a, files, bus).outcome.Rejected?
    ensures EmitRun(a + b, files, bus) == EmitRun(a, files, bus)
    decreases |b|
  {
    if b == [] {
      assert a + b == a;
    } else {
      var n := |b| - 1;
      assert (a + b)[..|a + b| - 1] == a + b[..n];
      EmitRunStops(a, b[..n], files, bus);
    }
  }

  /** One object: a single read, first, recording whether it is stored; then only events. */
  lemma ObjectEffectsAt(obj: ObjectRef, files: map<ObjectRef, Table>, start: nat, bus: nat -> bool)
    ensures var e := ObjectEffects(obj, files, start, bus);
      && |e| == (if obj in files then 1 + |files[obj].rows| else 1)
      && e[0] == Effect(GetObject(obj), obj in files)
      && forall k | 0 < k < |e| ::
           e[k] == Effect(PutEvents(RowEntry(files[obj].headers, files[obj].rows[k - 1])), bus(start + k))
    ensures var e := ObjectEffects(obj, files, start, bus);
      forall k | 0 < k < |e| ::
        && e[k].call.PutEvents? && OnEtlBus(e[k].call.entry)
        && e[k].call.entry.detail == Extracted(files[obj].headers, files[obj].rows[k - 1])
  {
    if obj in files {
      var t := files[obj];
      var rows := RowEffects(t.headers, t.rows, start + 1, bus);
      RowEffectsAt(t.headers, t.rows, start + 1, bus);
      var e := [Effect(GetObject(obj), true)] + rows;
      forall k | 0 < k < |e| ensures e[k] == Effect(PutEvents(RowEntry(t.headers, t.rows[k - 1])), bus(start + k)) {
        assert e[k] == rows[k - 1];
      }
    }
  }

  /** An object's calls are read once, at the front. */
  lemma ReadsOfObjectEffects(obj: ObjectRef, files: map<ObjectRef, Table>, start: nat, bus: nat -> bool)
    ensures Reads(ObjectEffects(obj, files, start, bus)) == [obj]
  {
    var e := ObjectEffects(obj, files, start, bus);
    ObjectEffectsAt(obj, files, start, bus);
    NoReads(e[1..]);
    assert e == [e[0]] + e[1..];
    ReadsAppend([e[0]], e[1..]);
  }

  /**
   * Both extract handlers read the same objects in the same order, stop at the
   * same missing object and settle the same way; the events are all this copy adds.
   */
  lemma {:induction false} SameReadsAsLogOnly(refs: seq<ObjectRef>, objects: Store, bus: nat -> bool)
    ensures Reads(EmitRun(refs, Parsed(objects), bus).effects) == Reads(ExtractLog.ReadRun(refs, objects).effects)
    ensures EmitRun(refs, Parsed(objects), bus).outcome == ExtractLog.ReadRun(refs, objects).outcome
    decreases |refs|
  {
    var files := Parsed(objects);
    if refs != [] {
      var n := |refs| - 1;
      SameReadsAsLogOnly(refs[..n], objects, bus);
      var prev := EmitRun(refs[..n], files, bus);
      var lprev := ExtractLog.ReadRun(refs[..n], objects);
      var obj := refs[n];
      if prev.outcome == Resolved {
        var get := [Effect(GetObject(obj), obj in files)];
        ReadsOfObjectEffects(obj, files, |prev.effects|, bus);
        ReadsAppend(prev.effects, ObjectEffects(obj, files, |prev.effects|, bus));
        ReadsAppend(lprev.effects, get);
        assert Reads(get) == [obj];
      }
    }
  }

  /** The handler reads the objects in order up to and including the first missing one, where it rejects. */
  lemma EmitRunReads(refs: seq<ObjectRef>, objects: Store, bus: nat -> bool)
    ensures var m := FirstMissing(refs, objects);
      && Reads(EmitRun(refs, Parsed(objects), bus).effects) == (if m < |refs| then refs[..m + 1] else refs)
      && EmitRun(refs, Parsed(objects), bus).outcome == (if m < |refs| then Rejected(NoSuchObject(refs[m])) else Resolved)
  {
    SameReadsAsLogOnly(refs, objects, bus);
    ExtractLog.ReadRunReadsUpTo(refs, objects);
    ReadsUpToReads(refs, objects);
  }

  /** A notification without a bucket name or an object key rejects the handler there at the latest. */
  lemma UnaddressableRejects(refs: seq<ObjectRef>, objects: Store, bus: nat -> bool, m: nat)
    requires m < |refs| && !Addressable(refs[m])
    ensures EmitRun(refs, Parsed(objects), bus).outcome.Rejected?
    ensures |Reads(EmitRun(refs, Parsed(objects), bus).effects)| <= m + 1
  {
    EmitRunReads(refs, objects, bus);
    assert refs[m] !in objects;
  }

  /** The reads of the closed form of the log-only run. */
  lemma ReadsUpToReads(refs: seq<ObjectRef>, objects: Store)
    ensures var m := FirstMissing(refs, objects);
      && Reads(ExtractLog.ReadsUpTo(refs, objects).effects) == (if m < |refs| then refs[..m + 1] else refs)
      && ExtractLog.ReadsUpTo(refs, objects).outcome == (if m < |refs| then Rejected(NoSuchObject(refs[m])) else Resolved)
  {
    var e := ExtractLog.ReadsUpTo(refs, objects).effects;
    ReadsOfGets(e, refs[..|e|]);
    assert refs[..|e|] == if FirstMissing(refs, objects) < |refs| then refs[..FirstMissing(refs, objects) + 1] else refs;
  }

  /** What the log records about one call. */
  predicate Answered(e: Effect, files: map<ObjectRef, Table>, answer: bool)
  {
    && (e.call.GetObject? ==> e.ok == (e.call.obj in files))
    && (e.call.PutEvents? ==> e.ok == answer && OnEtlBus(e.call.entry) && Status(e.call.entry.detail) == "extracted")
    && !e.call.PutItem?
  }

  /** The log records each answer: S3 finds exactly the stored objects, EventBridge answers as `bus` says. */
  lemma {:induction false} EffectsRecordAnswers(refs: seq<ObjectRef>, files: map<ObjectRef, Table>, bus: nat -> bool)
    ensures var e := EmitRun(refs, files, bus).effects;
      forall p | 0 <= p < |e| :: Answered(e[p], files, bus(p))
    decreases |refs|
  {
    if refs != [] {
      var n := |refs| - 1;
      EffectsRecordAnswers(refs[..n], files, bus);
      var prev := EmitRun(refs[..n], files, bus);
      if prev.outcome == Resolved {
        ObjectAnswered(refs[n], files, |prev.effects|, bus);
        AnsweredAppend(prev.effects, ObjectEffects(refs[n], files, |prev.effects|, bus), files, bus);
      }
    }
  }

  /** Every call made for one object records its answer. */
  lemma ObjectAnswered(obj: ObjectRef, files: map<ObjectRef, Table>, start: nat, bus: nat -> bool)
    ensures var oe := ObjectEffects(obj, files, start, bus);
      forall k | 0 <= k < |oe| :: Answered(oe[k], files, bus(start + k))
  {
    ObjectEffectsAt(obj, files, start, bus);
  }

  lemma AnsweredAppend(prev: seq<Effect>, next: seq<Effect>, files: map<ObjectRef, Table>, bus: nat -> bool)
    requires forall p | 0 <= p < |prev| :: Answered(prev[p], files, bus(p))
    requires forall k | 0 <= k < |next| :: Answered(next[k], files, bus(|prev| + k))
    ensures forall p | 0 <= p < |prev + next| :: Answered((prev + next)[p], files, bus(p))
  {
    forall p | 0 <= p < |prev + next| ensures Answered((prev + next)[p], files, bus(p)) {
      if p >= |prev| {
        assert (prev + next)[p] == next[p - |prev|];
      }
    }
  }

  /** A delivery oracle that starts `n` positions later. */
  function Shifted(bus: nat -> bool, n: nat): nat -> bool
  {
    (p: nat) => bus(p + n)
  }

  lemma {:induction false} RowEffectsShift(headers: seq<string>, rows: seq<seq<string>>, start: nat, bus: nat -> bool, n: nat)
    ensures RowEffects(headers, rows, start, Shifted(bus, n)) == RowEffects(headers, rows, start + n, bus)
    decreases |rows|
  {
    if rows != [] {
      RowEffectsShift(headers, rows[..|rows| - 1], start, bus, n);
    }
  }

  lemma ObjectEffectsShift(obj: ObjectRef, files: map<ObjectRef, Table>, start: nat, bus: nat -> bool, n: nat)
    ensures ObjectEffects(obj, files, start, Shifted(bus, n)) == ObjectEffects(obj, files, start + n, bus)
  {
    if obj in files {
      RowEffectsShift(files[obj].headers, files[obj].rows, start + 1, bus, n);
    }
  }

  /**
   * Files are handled one after another: after a resolved run over `a`, the run
   * over `b` continues the log, with EventBridge's answers taken from where `a` stopped.
   */
  lemma {:induction false} EmitRunAppend(a: seq<ObjectRef>, b: seq<ObjectRef>, files: map<ObjectRef, Table>, bus: nat -> bool)
    requires EmitRun(a, files, bus).outcome == Resolved
    ensures var n := |EmitRun(a, files, bus).effects|;
      var rb := EmitRun(b, files, Shifted(bus, n));
      EmitRun(a + b, files, bus) == Run(EmitRun(a, files, bus).effects + rb.effects, rb.outcome)
    decreases |b|
  {
    if b == [] {
      PrefixEnds(a, b);
    } else {
      var m := |b| - 1;
      LastStep(a, b);
      EmitRunAppend(a, b[..m], files, bus);
      AppendStep(a, b[..m], b[m], files, bus);
    }
  }

  /** The step of `EmitRunAppend`: one more object at the end of `c`. */
  lemma AppendStep(a: seq<ObjectRef>, c: seq<ObjectRef>, obj: ObjectRef, files: map<ObjectRef, Table>, bus: nat -> bool)
    requires EmitRun(a, files, bus).outcome == Resolved
    requires var sh := Shifted(bus, |EmitRun(a, files, bus).effects|);
      EmitRun(a + c, files, bus) == Run(EmitRun(a, files, bus).effects + EmitRun(c, files, sh).effects, EmitRun(c, files, sh).outcome)
    ensures var sh := Shifted(bus, |EmitRun(a, files, bus).effects|);
      EmitRun(a + c + [obj], files, bus) ==
      Run(EmitRun(a, files, bus).effects + EmitRun(c + [obj], files, sh).effects, EmitRun(c + [obj], files, sh).outcome)
  {
    var ea := EmitRun(a, files, bus).effects;
    var sh := Shifted(bus, |ea|);
    if EmitRun(c, files, sh).outcome == Resolved {
      AppendStepResolved(ea, a + c, c, obj, files, bus);
    } else {
      EmitRunStops(a + c, [obj], files, bus);
      EmitRunStops(c, [obj], files, sh);
    }
  }

  /** `AppendStep` when the run over `c` has resolved, stated for `ac == a + c` and `ea` the log of `a`. */
  lemma AppendStepResolved(ea: seq<Effect>, ac: seq<ObjectRef>, c: seq<ObjectRef>, obj: ObjectRef,
                           files: map<ObjectRef, Table>, bus: nat -> bool)
    requires EmitRun(c, files, Shifted(bus, |ea|)).outcome == Resolved
    requires EmitRun(ac, files, bus) == Run(ea + EmitRun(c, files, Shifted(bus, |ea|)).effects, Resolved)
    ensures EmitRun(ac + [obj], files, bus) ==
      Run(ea + EmitRun(c + [obj], files, Shifted(bus, |ea|)).effects, EmitRun(c + [obj], files, Shifted(bus, |ea|)).outcome)
  {
    var sh := Shifted(bus, |ea|);
    var ec := EmitRun(c, files, sh).effects;
    EmitRunSnoc(c, obj, files, sh);
    EmitRunSnoc(ac, obj, files, bus);
    ObjectEffectsShift(obj, files, |ec|, bus, |ea|);
    Associate(ea, ec, ObjectEffects(obj, files, |ec|, sh));
  }

  /** For one stored file: one read, then one event per data row carrying that row and the header row, in order. */
  lemma OneFile(obj: ObjectRef, objects: Store, bus: nat -> bool)
    requires obj in objects
    ensures var e := EmitRun([obj], Parsed(objects), bus).effects;
      var t := Parse(objects[obj]);
      && EmitRun([obj], Parsed(objects), bus).outcome == Resolved
      && |e| == |Split(objects[obj], LineBreak)|
      && e[0] == Effect(GetObject(obj), true)
      && forall k | 0 <= k < |t.rows| :: e[k + 1] == Effect(PutEvents(RowEntry(t.headers, t.rows[k])), bus(k + 1))
  {
    assert [obj][..0] == [];
    ParsePartition(objects[obj]);
    ObjectEffectsAt(obj, Parsed(objects), 0, bus);
  }

  /**
   * A trailing "\r\n" adds one data row `[""]`, so the file's log is the same
   * with one more event at the end, for that empty row.
   */
  lemma TrailingLineBreakEvent(obj: ObjectRef, contents: string, bus: nat -> bool)
    requires Addressable(obj)
    ensures var e1 := EmitRun([obj], Parsed(map[obj := contents]), bus).effects;
      var e2 := EmitRun([obj], Parsed(map[obj := contents + LineBreak]), bus).effects;
      && |e2| == |e1| + 1
      && e2[..|e1|] == e1
      && e2[|e1|].call == PutEvents(RowEntry(Parse(contents).headers, [""]))
  {
    var t1 := Parse(contents);
    TrailingLineBreak(contents);
    SingleObjectRun(obj, contents, bus);
    SingleObjectRun(obj, contents + LineBreak, bus);
    RowEffectsSnoc(t1.headers, t1.rows, [""], 1, bus);
    RowEffectsAt(t1.headers, t1.rows, 1, bus);
  }

  /** The run when S3 holds just one object and the notification names it. */
  lemma SingleObjectRun(obj: ObjectRef, contents: string, bus: nat -> bool)
    requires Addressable(obj)
    ensures EmitRun([obj], Parsed(map[obj := contents]), bus).effects ==
      [Effect(GetObject(obj), true)] + RowEffects(Parse(contents).headers, Parse(contents).rows, 1, bus)
  {
    var objects: Store := map[obj := contents];
    EmitRunOne(obj, objects, bus);
  }

  /** The run over a single stored object. */
  lemma EmitRunOne(obj: ObjectRef, objects: Store, bus: nat -> bool)
    requires obj in objects
    ensures EmitRun([obj], Parsed(objects), bus).effects ==
      [Effect(GetObject(obj), true)] + RowEffects(Parse(objects[obj]).headers, Parse(objects[obj]).rows, 1, bus)
  {
    assert [obj][..0] == [];
  }

  /** One more row, one more event at the end. */
  lemma RowEffectsSnoc(headers: seq<string>, rows: seq<seq<string>>, row: seq<string>, start: nat, bus: nat -> bool)
    ensures RowEffects(headers, rows + [row], start, bus) ==
      RowEffects(headers, rows, start, bus) + [Effect(PutEvents(RowEntry(headers, row)), bus(start + |rows|))]
  {
    assert (rows + [row])[..|rows|] == rows;
  }

  /** Two logs that make the same calls in the same order. */
  predicate SameCalls(e1: seq<Effect>, e2: seq<Effect>)
  {
    |e1| == |e2| && forall k | 0 <= k < |e1| :: e1[k].call == e2[k].call
  }

  /** What EventBridge answers changes only the recorded answers: the calls and the outcome stay the same. */
  lemma {:induction false} BusIndependent(refs: seq<ObjectRef>, files: map<ObjectRef, Table>, bus1: nat -> bool, bus2: nat -> bool)
    ensures SameCalls(EmitRun(refs, files, bus1).effects, EmitRun(refs, files, bus2).effects)
    ensures EmitRun(refs, files, bus1).outcome == EmitRun(refs, files, bus2).outcome
    decreases |refs|
  {
    if refs != [] {
      var n := |refs| - 1;
      BusIndependent(refs[..n], files, bus1, bus2);
      var p1 := EmitRun(refs[..n], files, bus1).effects;
      var p2 := EmitRun(refs[..n], files, bus2).effects;
      if EmitRun(refs[..n], files, bus1).outcome == Resolved {
        ObjectEffectsAt(refs[n], files, |p1|, bus1);
        ObjectEffectsAt(refs[n], files, |p2|, bus2);
        var o1 := ObjectEffects(refs[n], files, |p1|, bus1);
        var o2 := ObjectEffects(refs[n], files, |p2|, bus2);
        SameCallsAppend(p1, o1, p2, o2);
      }
    }
  }

  lemma SameCallsAppend(a1: seq<Effect>, b1: seq<Effect>, a2: seq<Effect>, b2: seq<Effect>)
    requires SameCalls(a1, a2) && SameCalls(b1, b2)
    ensures SameCalls(a1 + b1, a2 + b2)
  {
  }

  /** The inner loop: one `putEvents` per data row of `table`, appended to `effects`. */
  method SendRows(table: Table, effects: seq<Effect>, bus: nat -> bool) returns (sent: seq<Effect>)
    ensures sent == effects + RowEffects(table.headers, table.rows, |effects|, bus)
  {
    sent := effects;
    var k := 0;
    while k < |table.rows|
      invariant k <= |table.rows|
      invariant sent == effects + RowEffects(table.headers, table.rows[..k], |effects|, bus)
    {
      RowEffectsAt(table.headers, table.rows[..k], |effects|, bus);
      var entry := RowEntry(table.headers, table.rows[k]);
      var delivered := bus(|sent|);
      sent := sent + [Effect(PutEvents(entry), delivered)];
      assert table.rows[..k + 1][..k] == table.rows[..k];
      k := k + 1;
    }
    assert table.rows[..k] == table.rows;
  }

  /** The body of the loop over S3 records: read one object and, if S3 has it, send its data rows. */
  method HandleObject(obj: ObjectRef, objects: Store, effects: seq<Effect>, bus: nat -> bool,
                      ghost files: map<ObjectRef, Table>)
    returns (after: seq<Effect>, found: bool)
    requires ParsedFrom(files, objects)
    ensures found == (obj in files)
    ensures after == effects + ObjectEffects(obj, files, |effects|, bus)
  {
    found := obj in objects;
    if !found {
      after := effects + [Effect(GetObject(obj), false)];
      return;
    }
    after := effects + [Effect(GetObject(obj), true)];
    var table := Parse(objects[obj]);
    after := SendRows(table, after, bus);
  }

  /** One turn of the loop over S3 records: the run grows by one object, or rejects for good. */
  lemma HandleStep(seen: seq<ObjectRef>, s3Records: seq<ObjectRef>, j: nat, files: map<ObjectRef, Table>,
                   bus: nat -> bool, effects: seq<Effect>)
    requires j < |s3Records|
    requires EmitRun(seen + s3Records[..j], files, bus) == Run(effects, Resolved)
    ensures var after := effects + ObjectEffects(s3Records[j], files, |effects|, bus);
      if s3Records[j] in files then EmitRun(seen + s3Records[..j + 1], files, bus) == Run(after, Resolved)
      else EmitRun(seen + s3Records, files, bus) == Run(after, Rejected(NoSuchObject(s3Records[j])))
  {
    var before := seen + s3Records[..j];
    PrefixStep(seen, s3Records, j);
    EmitRunSnoc(before, s3Records[j], files, bus);
    if s3Records[j] !in files {
      EmitRunStops(before + [s3Records[j]], s3Records[j + 1..], files, bus);
    }
  }

  /** The loop over the S3 records of one SQS record, continuing a run over the objects `seen` before them. */
  method HandleS3Records(s3Records: seq<ObjectRef>, objects: Store, effects: seq<Effect>,
                         bus: nat -> bool, ghost files: map<ObjectRef, Table>, ghost seen: seq<ObjectRef>)
    returns (after: seq<Effect>, outcome: Outcome)
    requires ParsedFrom(files, objects)
    requires EmitRun(seen, files, bus) == Run(effects, Resolved)
    ensures EmitRun(seen + s3Records, files, bus) == Run(after, outcome)
  {
    after := effects;
    var j := 0;
    PrefixEnds(seen, s3Records);
    while j < |s3Records|
      invariant j <= |s3Records|
      invariant EmitRun(seen + s3Records[..j], files, bus) == Run(after, Resolved)
    {
      var obj := s3Records[j];
      ghost var before := after;
      var found;
      after, found := HandleObject(obj, objects, after, bus, files);
      HandleStep(seen, s3Records, j, files, bus, before);
      if !found {
        outcome := Rejected(NoSuchObject(obj));
        return;
      }
      j := j + 1;
    }
    assert s3Records[..j] == s3Records;
    outcome := Resolved;
  }

  /**
   * The handler. `records` are the SQS records with their parsed S3 notification
   * records, `objects` what S3 holds, `bus` EventBridge's answers.
   */
  method Handler(records: seq<SqsRecord>, objects: Store, bus: nat -> bool)
    returns (effects: seq<Effect>, outcome: Outcome)
    ensures Run(effects, outcome) == EmitRun(Objects(records), Parsed(objects), bus)
  {
    effects := [];
    var i := 0;
    while i < |records|
      invariant i <= |records|
      invariant EmitRun(Objects(records[..i]), Parsed(objects), bus) == Run(effects, Resolved)
    {
      ObjectsSnoc(records, i);
      effects, outcome := HandleS3Records(records[i].s3Records, objects, effects, bus, Parsed(objects), Objects(records[..i]));
      if outcome.Rejected? {
        ObjectsNested(records, i);
        EmitRunStops(Objects(records[..i + 1]), Objects(records[i + 1..]), Parsed(objects), bus);
        return;
      }
      i := i + 1;
    }
    assert records[..i] == records;
    outcome := Resolved;
  }
}
