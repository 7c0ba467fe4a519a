/**
 * The load handler of the 05_eventbridge_etl example: it renames the fields of
 * one transformed record into a DynamoDB item, writes it with `put`, and then
 * sends one "success" event carrying the put parameters. A failed `put` rejects
 * the handler (nothing catches it); a failed `putEvents` is caught and logged.
 */
module Load {
  import opened Wrappers
  import opened Effects

  /**
   * The property `name` of `data`. It reads `undefined` both when the record
   * lacks it and when it holds `undefined`; otherwise it reads the stored value.
   */
  function Lookup(data: Record, name: string): Option<string>
  {
    if name in data then data[name] else None
  }

  /** The Lambda's environment variables. */
  type Env = map<string, string>

  const TableNameVariable: string := "DDB_TABLE_NAME"

  /** The five properties of the record that the item is built from. */
  const SourceKeys: set<string> := {"ID", "HouseNum", "Street", "Town", "Zip"}

  /** The item for one record: `id` from `ID`, `house_number` from `HouseNum`, and so on. */
  function ToItem(data: Record): Item
  {
    Item(Lookup(data, "ID"), Lookup(data, "HouseNum"), Lookup(data, "Street"), Lookup(data, "Town"), Lookup(data, "Zip"))
  }

  /** The record an item is read back as. */
  function FromItem(item: Item): (data: Record)
    ensures data.Keys == SourceKeys
  {
    map["ID" := item.id, "HouseNum" := item.houseNumber, "Street" := item.streetAddress,
        "Town" := item.town, "Zip" := item.zip]
  }

  /** The record restricted to the five source properties, `undefined` where one is absent. */
  function Restrict(data: Record): (r: Record)
    ensures r.Keys == SourceKeys
  {
    map k | k in SourceKeys :: Lookup(data, k)
  }

  /** Reading an item back gives the item. */
  lemma ToItemFromItem(item: Item)
    ensures ToItem(FromItem(item)) == item
  {
  }

  /** Renaming loses exactly the properties other than the five source ones. */
  lemma FromItemToItem(data: Record)
    ensures FromItem(ToItem(data)) == Restrict(data)
  {
    var a := FromItem(ToItem(data));
    var b := Restrict(data);
    forall k | k in SourceKeys ensures a[k] == b[k] {
    }
  }

  /** Two records give the same item exactly when they agree on the five source properties. */
  lemma ToItemDependsOnSourceKeys(d1: Record, d2: Record)
    ensures ToItem(d1) == ToItem(d2) <==> forall k | k in SourceKeys :: Lookup(d1, k) == Lookup(d2, k)
  {
    if ToItem(d1) == ToItem(d2) {
      FromItemToItem(d1);
      FromItemToItem(d2);
      forall k | k in SourceKeys ensures Lookup(d1, k) == Lookup(d2, k) {
        assert Restrict(d1)[k] == Restrict(d2)[k];
      }
    }
  }

  /** The `put` parameters: the table named by `DDB_TABLE_NAME` (`undefined` when unset) and the item. */
  function Params(env: Env, data: Record): PutParams
  {
    PutParams(if TableNameVariable in env then Some(env[TableNameVariable]) else None, ToItem(data))
  }

  /**
   * Parameters DynamoDB can accept at all: a non-empty table name, which the SDK
   * requires before sending, and a non-empty value for the table's partition key
   * `id`, without which DynamoDB refuses the item.
   */
  predicate Writable(p: PutParams)
  {
    p.tableName.Some? && p.tableName.value != "" && p.item.id.Some? && p.item.id.value != ""
  }

  /** The success event: the application's envelope, status "success", and the put parameters unchanged. */
  function SuccessEntry(p: PutParams): Entry
  {
    EtlEntry(Succeeded(p))
  }

  /**
   * One invocation. `data` is `event.detail.data` (`None` when absent, where the
   * first property read throws), `putOk` whether DynamoDB accepts a writable item
   * (an unwritable one always fails) and `accepted` whether EventBridge accepts
   * the event.
   */
  function Handler(env: Env, data: Option<Record>, putOk: bool, accepted: bool): Run
  {
    if data.None? then Run([], Rejected(NoData))
    else
      var params := Params(env, data.value);
      var written := putOk && Writable(params);
      var put := Effect(PutItem(params), written);
      if !written then Run([put], Rejected(PutItemFailed))
      else Run([put, Effect(PutEvents(SuccessEntry(params)), accepted)], Resolved)
  }

  /** The handler resolves exactly when there is a record, its parameters are writable and the put succeeds. */
  lemma HandlerOutcome(env: Env, data: Option<Record>, putOk: bool, accepted: bool)
    ensures Handler(env, data, putOk, accepted).outcome.Resolved? <==>
      data.Some? && Writable(Params(env, data.value)) && putOk
    ensures data.Some? && !(putOk && Writable(Params(env, data.value))) ==>
      Handler(env, data, putOk, accepted) == Run([Effect(PutItem(Params(env, data.value)), false)], Rejected(PutItemFailed))
    ensures data.None? ==> Handler(env, data, putOk, accepted) == Run([], Rejected(NoData))
  {
  }

  /**
   * Without `DDB_TABLE_NAME`, or without an `ID` in the record, the put fails and
   * the handler rejects with no event, whatever DynamoDB would have answered.
   */
  lemma MissingTableOrKeyRejects(env: Env, data: Record, putOk: bool, accepted: bool)
    requires TableNameVariable !in env || "ID" !in data || data["ID"].None?
    ensures Handler(env, Some(data), putOk, accepted) == Run([Effect(PutItem(Params(env, data)), false)], Rejected(PutItemFailed))
  {
  }

  /** The put comes first and writes the item renamed from the record into the configured table. */
  lemma HandlerPutsFirst(env: Env, data: Record, putOk: bool, accepted: bool)
    ensures var e := Handler(env, Some(data), putOk, accepted).effects;
      && |e| >= 1
      && e[0].call == PutItem(Params(env, data))
      && e[0].ok == (putOk && Writable(Params(env, data)))
      && e[0].call.params.item == ToItem(data)
      && e[0].call.params.tableName == (if TableNameVariable in env then Some(env[TableNameVariable]) else None)
      && forall p | 1 <= p < |e| :: !e[p].call.PutItem?
  {
  }

  /**
   * Every event is a success event that follows, immediately, a successful put
   * of the very parameters it carries.
   */
  lemma SuccessFollowsPut(env: Env, data: Option<Record>, putOk: bool, accepted: bool)
    ensures var e := Handler(env, data, putOk, accepted).effects;
      forall p | 0 <= p < |e| && e[p].call.PutEvents? ::
        && p >= 1
        && e[p].call.entry.detail.Succeeded?
        && OnEtlBus(e[p].call.entry)
        && e[p - 1] == Effect(PutItem(e[p].call.entry.detail.params), true)
  {
  }

  /** The number of events in a log. */
  function EventCount(e: seq<Effect>): (n: nat)
    ensures n <= |e|
    decreases |e|
  {
    if e == [] then 0
    else EventCount(e[..|e| - 1]) + (if e[|e| - 1].call.PutEvents? then 1 else 0)
  }

  /** Exactly one event after a successful put, none otherwise. */
  lemma OneEvent(env: Env, data: Option<Record>, putOk: bool, accepted: bool)
    ensures EventCount(Handler(env, data, putOk, accepted).effects) ==
      if data.Some? && putOk && Writable(Params(env, data.value)) then 1 else 0
  {
    var e := Handler(env, data, putOk, accepted).effects;
    if data.Some? {
      assert e[..1][..0] == [];
      if putOk && Writable(Params(env, data.value)) {
        assert e[..|e| - 1] == [e[0]];
      } else {
        assert e[..|e| - 1] == [];
      }
    }
  }

  /** A rejected event changes nothing but its recorded answer: the calls and the outcome are the same. */
  lemma EventFailureSwallowed(env: Env, data: Option<Record>, putOk: bool)
    ensures Calls(Handler(env, data, putOk, true).effects) == Calls(Handler(env, data, putOk, false).effects)
    ensures Handler(env, data, putOk, true).outcome == Handler(env, data, putOk, false).outcome
  {
  }
}
