/** The persisted form of a watch store, as JSON values, and reading it back. */
module WatchPersistences {
  import opened Ordering
  import opened Text
  import opened WatchModels
  import opened WatchRuns
  import opened WatchRegistries

  // ---- writing ----

  function SerializeDatetime(t: Option<int>): Json {
    match t
    case None => Null
    case Some(v) => Str(IsoText(v))
  }

  function SerializeProtocol(p: WatchedProtocol): Json {
    Obj(map["watch_id" := Str(p.watchId), "chain_id" := Num(p.chainId), "root_address" := Str(p.rootAddress),
            "protocol_name" := Str(p.protocolName), "registered_at" := SerializeDatetime(Some(p.registeredAt)),
            "metadata" := Obj(p.metadata)])
  }

  function SerializeConfiguration(c: WatchConfiguration): Json {
    Obj(map["schedule_type" := Str(ScheduleText(c.scheduleType)),
            "cron_expression" := match c.cronExpression case None => Null case Some(e) => Str(e),
            "timezone" := Str(c.timezone), "metadata" := Obj(c.metadata)])
  }

  function SerializeSubscription(s: WatchSubscription): Json {
    Obj(map["subscription_id" := Str(s.subscriptionId), "protocol" := SerializeProtocol(s.protocol),
            "configuration" := SerializeConfiguration(s.configuration), "status" := Str(StatusText(s.status)),
            "baseline_scan" := match s.baselineScan case None => Null case Some(b) => Obj(b),
            "last_execution_at" := SerializeDatetime(s.lastExecutionAt),
            "next_execution_at" := SerializeDatetime(s.nextExecutionAt),
            "created_at" := SerializeDatetime(Some(s.createdAt)), "updated_at" := SerializeDatetime(Some(s.updatedAt))])
  }

  function SerializeEvent(e: WatchEvent): Json {
    Obj(map["event_id" := Str(e.eventId), "event_type" := Str(EventText(e.eventType)), "watch_id" := Str(e.watchId),
            "timestamp" := SerializeDatetime(Some(e.timestamp)), "metadata" := Obj(e.metadata)])
  }

  // ---- reading; None stands for the KeyError or ValueError raised ----

  /** `payload[key]`. */
  function Required(d: Dict, key: string): Option<Json> {
    if key in d then Some(d[key]) else None
  }

  /** `payload.get(key)`. */
  function Get(d: Dict, key: string): Json {
    if key in d then d[key] else Null
  }

  /** `str(...)`, except of arrays and objects. */
  function AsText(j: Json): Option<string> {
    match j
    case Str(s) => Some(s)
    case Num(n) => Some(IntText(n))
    case Bool(b) => Some(if b then "True" else "False")
    case Null => Some("None")
    case _ => None
  }

  /** `int(...)` of a number, a truth value or a numeral. */
  function AsInt(j: Json): Option<int> {
    match j
    case Num(n) => Some(n)
    case Bool(b) => Some(if b then 1 else 0)
    case Str(s) => IntValue(s)
    case _ => None
  }

  /** What `or` passes over. */
  predicate Falsy(j: Json) {
    match j
    case Null => true
    case Bool(b) => !b
    case Num(n) => n == 0
    case Str(s) => s == ""
    case Arr(items) => items == []
    case Obj(fields) => fields == map[]
  }

  /** `dict(payload.get(key) or {})`. */
  function AsDict(j: Json): Option<Dict> {
    if Falsy(j) then Some(map[]) else if j.Obj? then Some(j.fields) else None
  }

  function DeserializeDatetime(j: Json): Option<Option<int>> {
    match j
    case Null => Some(None)
    case Str(s) =>
      var t :- IsoValue(s);
      Some(Some(t))
    case _ => None
  }

  /** `_deserialize_datetime(...) or` the epoch. */
  function DatetimeOrEpoch(j: Json): Option<int> {
    var t :- DeserializeDatetime(j);
    Some(match t case None => 0 case Some(v) => v)
  }

  function DeserializeProtocol(j: Json): Option<WatchedProtocol> {
    if !j.Obj? then None
    else
      var d := j.fields;
      var watchIdField :- Required(d, "watch_id");
      var watchId :- AsText(watchIdField);
      var chainField :- Required(d, "chain_id");
      var chainId :- AsInt(chainField);
      var rootField :- Required(d, "root_address");
      var root :- AsText(rootField);
      var nameField :- Required(d, "protocol_name");
      var name :- AsText(nameField);
      var registeredField :- Required(d, "registered_at");
      var registeredAt :- DatetimeOrEpoch(registeredField);
      var metadata :- AsDict(Get(d, "metadata"));
      Some(WatchedProtocol(watchId, chainId, Lower(root), name, registeredAt, metadata))
  }

  function DeserializeConfiguration(j: Json): Option<WatchConfiguration> {
    if !j.Obj? then None
    else
      var d := j.fields;
      var scheduleName :- AsText(if "schedule_type" in d then d["schedule_type"] else Str("manual"));
      var schedule :- ScheduleOf(scheduleName);
      var cron :- (match Get(d, "cron_expression")
                   case Null => Some(None)
                   case Str(e) => Some(Some(e))
                   case _ => None);
      var timezone :- AsText(if "timezone" in d then d["timezone"] else Str("UTC"));
      var metadata :- AsDict(Get(d, "metadata"));
      Some(WatchConfiguration(schedule, cron, timezone, metadata))
  }

  function DeserializeSubscription(j: Json): Option<WatchSubscription> {
    if !j.Obj? then None
    else
      var d := j.fields;
      var idField :- Required(d, "subscription_id");
      var id :- AsText(idField);
      var protocolField :- Required(d, "protocol");
      var protocol :- DeserializeProtocol(protocolField);
      var configurationField :- Required(d, "configuration");
      var configuration :- DeserializeConfiguration(configurationField);
      var statusField :- Required(d, "status");
      var statusName :- AsText(statusField);
      var status :- StatusOf(statusName);
      var baseline :- (match Get(d, "baseline_scan")
                       case Null => Some(None)
                       case Obj(fields) => Some(Some(fields))
                       case _ => None);
      var last :- DeserializeDatetime(Get(d, "last_execution_at"));
      var next :- DeserializeDatetime(Get(d, "next_execution_at"));
      var createdField :- Required(d, "created_at");
      var createdAt :- DatetimeOrEpoch(createdField);
      var updatedField :- Required(d, "updated_at");
      var updatedAt :- DatetimeOrEpoch(updatedField);
      Some(WatchSubscription(id, protocol, configuration, status, baseline, last, next, createdAt, updatedAt))
  }

  function DeserializeEvent(j: Json): Option<WatchEvent> {
    if !j.Obj? then None
    else
      var d := j.fields;
      var idField :- Required(d, "event_id");
      var id :- AsText(idField);
      var typeField :- Required(d, "event_type");
      var typeName :- AsText(typeField);
      var t :- EventOf(typeName);
      var watchIdField :- Required(d, "watch_id");
      var watchId :- AsText(watchIdField);
      var timestampField :- Required(d, "timestamp");
      var timestamp :- DatetimeOrEpoch(timestampField);
      var metadata :- AsDict(Get(d, "metadata"));
      Some(WatchEvent(id, t, watchId, timestamp, metadata))
  }

  // ---- record round trips ----

  lemma DatetimeRoundTrip(t: Option<int>)
    ensures DeserializeDatetime(SerializeDatetime(t)) == Some(t)
    ensures t.Some? ==> DatetimeOrEpoch(SerializeDatetime(t)) == Some(t.value)
  {
    if t.Some? { IntTextInverse(t.value); }
  }

  /** The root address comes back lowered, everything else as it was. */
  lemma ProtocolRoundTrip(p: WatchedProtocol)
    ensures DeserializeProtocol(SerializeProtocol(p)) == Some(p.(rootAddress := Lower(p.rootAddress)))
  {
    DatetimeRoundTrip(Some(p.registeredAt));
    hide Lower, SerializeDatetime, DeserializeDatetime, DatetimeOrEpoch;
  }

  lemma ConfigurationRoundTrip(c: WatchConfiguration)
    ensures DeserializeConfiguration(SerializeConfiguration(c)) == Some(c)
  {
    ScheduleInverse(c.scheduleType);
    hide ScheduleText, ScheduleOf;
  }

  function Lowered(s: WatchSubscription): WatchSubscription {
    s.(protocol := s.protocol.(rootAddress := Lower(s.protocol.rootAddress)))
  }

  lemma SubscriptionRoundTrip(s: WatchSubscription)
    ensures DeserializeSubscription(SerializeSubscription(s)) == Some(Lowered(s))
  {
    ProtocolRoundTrip(s.protocol);
    ConfigurationRoundTrip(s.configuration);
    StatusInverse(s.status);
    DatetimeRoundTrip(s.lastExecutionAt);
    DatetimeRoundTrip(s.nextExecutionAt);
    DatetimeRoundTrip(Some(s.createdAt));
    DatetimeRoundTrip(Some(s.updatedAt));
    hide Lower, SerializeDatetime, DeserializeDatetime, DatetimeOrEpoch, SerializeProtocol, DeserializeProtocol,
      SerializeConfiguration, DeserializeConfiguration, StatusText, StatusOf;
  }

  lemma EventRoundTrip(e: WatchEvent)
    ensures DeserializeEvent(SerializeEvent(e)) == Some(e)
  {
    EventInverse(e.eventType);
    DatetimeRoundTrip(Some(e.timestamp));
    hide SerializeDatetime, DeserializeDatetime, DatetimeOrEpoch, EventText, EventOf;
  }

  // ---- whole stores ----

  /** What a dump holds. */
  datatype Dump = Dump(subscriptions: seq<Json>, events: seq<Json>)

  function SerializedSubscriptions(m: map<string, WatchSubscription>, keys: seq<string>): seq<Json>
    requires forall i | 0 <= i < |keys| :: keys[i] in m
  {
    seq(|keys|, i requires 0 <= i < |keys| => SerializeSubscription(m[keys[i]]))
  }

  function SerializedEvents(events: seq<WatchEvent>): seq<Json> {
    seq(|events|, i requires 0 <= i < |events| => SerializeEvent(events[i]))
  }

  /** The content of `dump_store`, subscriptions by sorted identifier. */
  function DumpOf(st: Store): Dump {
    Dump(SerializedSubscriptions(st.subscriptions, SortedIds(st.subscriptions)), SerializedEvents(st.events))
  }

  function LoadSubscriptions(items: seq<Json>): Option<map<string, WatchSubscription>> {
    if items == [] then Some(map[])
    else
      var earlier :- LoadSubscriptions(items[..|items| - 1]);
      var s :- DeserializeSubscription(items[|items| - 1]);
      Some(earlier[s.subscriptionId := s])
  }

  function LoadEvents(items: seq<Json>): Option<seq<WatchEvent>> {
    if items == [] then Some([])
    else
      var earlier :- LoadEvents(items[..|items| - 1]);
      var e :- DeserializeEvent(items[|items| - 1]);
      Some(earlier + [e])
  }

  /** The store `load_store` builds, None when some record cannot be read. */
  function LoadOf(d: Dump): Option<Store> {
    var subscriptions :- LoadSubscriptions(d.subscriptions);
    var events :- LoadEvents(d.events);
    Some(Store(subscriptions, events))
  }

  /** The keys of the records written. */
  lemma KeysWritten(s: WatchSubscription, e: WatchEvent)
    ensures SerializeSubscription(s).Obj? && SerializeSubscription(s).fields.Keys ==
              {"subscription_id", "protocol", "configuration", "status", "baseline_scan", "last_execution_at",
               "next_execution_at", "created_at", "updated_at"}
    ensures SerializeProtocol(s.protocol).Obj? && SerializeProtocol(s.protocol).fields.Keys ==
              {"watch_id", "chain_id", "root_address", "protocol_name", "registered_at", "metadata"}
    ensures SerializeConfiguration(s.configuration).Obj? && SerializeConfiguration(s.configuration).fields.Keys ==
              {"schedule_type", "cron_expression", "timezone", "metadata"}
    ensures SerializeEvent(e).Obj? && SerializeEvent(e).fields.Keys ==
              {"event_id", "event_type", "watch_id", "timestamp", "metadata"}
  {
    hide ScheduleText, StatusText, EventText;
  }

  // ---- what loading makes of any payload ----

  ghost predicate Reads(item: Json, id: string) {
    DeserializeSubscription(item).Some? && DeserializeSubscription(item).value.subscriptionId == id
  }

  /** Every subscription has to be readable; of those with the same identifier the last counts. */
  lemma {:induction false} LoadedSubscriptions(items: seq<Json>)
    ensures LoadSubscriptions(items).Some? <==>
            forall i | 0 <= i < |items| :: DeserializeSubscription(items[i]).Some?
    ensures LoadSubscriptions(items).Some? ==>
              var m := LoadSubscriptions(items).value;
              && (forall id :: id in m <==> exists i :: 0 <= i < |items| && Reads(items[i], id))
              && forall i, id | 0 <= i < |items| && Reads(items[i], id)
                    && (forall j | i < j < |items| :: !Reads(items[j], id)) ::
                   id in m && Some(m[id]) == DeserializeSubscription(items[i])
    decreases |items|
  {
    hide DeserializeSubscription;
    if items != [] {
      var n := |items| - 1;
      var rest := items[..n];
      LoadedSubscriptions(rest);
      assert forall i | 0 <= i < n :: rest[i] == items[i];
    }
  }

  /** Every event has to be readable, and they keep their order. */
  lemma {:induction false} LoadedEvents(items: seq<Json>)
    ensures LoadEvents(items).Some? <==> forall i | 0 <= i < |items| :: DeserializeEvent(items[i]).Some?
    ensures LoadEvents(items).Some? ==>
              && |LoadEvents(items).value| == |items|
              && forall i | 0 <= i < |items| :: Some(LoadEvents(items).value[i]) == DeserializeEvent(items[i])
    decreases |items|
  {
    hide DeserializeEvent;
    if items != [] {
      LoadedEvents(items[..|items| - 1]);
      assert forall i | 0 <= i < |items| - 1 :: items[..|items| - 1][i] == items[i];
    }
  }

  /** A record without one of these keys is not readable. */
  lemma KeysRequired(d: Dict)
    ensures DeserializeSubscription(Obj(d)).Some? ==>
              {"subscription_id", "protocol", "configuration", "status", "created_at", "updated_at"} <= d.Keys
    ensures DeserializeProtocol(Obj(d)).Some? ==>
              {"watch_id", "chain_id", "root_address", "protocol_name", "registered_at"} <= d.Keys
    ensures DeserializeEvent(Obj(d)).Some? ==> {"event_id", "event_type", "watch_id", "timestamp"} <= d.Keys
  {
    hide AsText, AsInt, AsDict, DatetimeOrEpoch, DeserializeDatetime, StatusOf, EventOf, Lower,
      DeserializeConfiguration, ScheduleOf;
  }

  /** What stands in for what a record leaves out. */
  lemma Defaults()
    ensures DeserializeConfiguration(Obj(map[])) == Some(WatchConfiguration(Manual, None, "UTC", map[]))
    ensures DatetimeOrEpoch(Null) == Some(0) && DeserializeDatetime(Null) == Some(None)
    ensures AsDict(Null) == Some(map[]) && AsDict(Str("")) == Some(map[]) && AsDict(Arr([])) == Some(map[])
  {
  }

  /** How values of other types are taken. */
  lemma Coercions(n: int, s: string, d: Dict)
    ensures AsText(Str(s)) == Some(s) && AsText(Num(n)) == Some(IntText(n)) && AsText(Null) == Some("None")
    ensures AsText(Bool(true)) == Some("True") && AsText(Bool(false)) == Some("False")
    ensures AsInt(Num(n)) == Some(n) && AsInt(Bool(true)) == Some(1) && AsInt(Bool(false)) == Some(0)
    ensures AsInt(Str(s)) == IntValue(s) && AsInt(Null) == None
    ensures AsDict(Obj(d)) == Some(d) && (s != "" ==> AsDict(Str(s)) == None) && (n != 0 ==> AsDict(Num(n)) == None)
    ensures AsDict(Num(0)) == Some(map[]) && AsDict(Bool(false)) == Some(map[]) && AsDict(Bool(true)) == None
  {
    hide IntText, IntValue;
  }

  lemma {:induction false} EventsRoundTrip(events: seq<WatchEvent>)
    ensures LoadEvents(SerializedEvents(events)) == Some(events)
  {
    hide SerializeEvent, DeserializeEvent;
    if events != [] {
      var rest, last := events[..|events| - 1], events[|events| - 1];
      EventsRoundTrip(rest);
      EventRoundTrip(last);
      assert SerializedEvents(events)[..|events| - 1] == SerializedEvents(rest);
      assert events == rest + [last];
    }
  }

  ghost predicate KeyedById(m: map<string, WatchSubscription>) {
    forall id | id in m :: m[id].subscriptionId == id
  }

  /** The subscriptions with the given identifiers, root addresses lowered. */
  function LoweredAmong(m: map<string, WatchSubscription>, ids: set<string>): map<string, WatchSubscription> {
    map id | id in ids && id in m :: Lowered(m[id])
  }

  lemma LoweredAmongAdd(m: map<string, WatchSubscription>, ids: set<string>, id: string)
    requires id in m
    ensures LoweredAmong(m, ids + {id}) == LoweredAmong(m, ids)[id := Lowered(m[id])]
  {
    hide Lowered;
  }

  lemma {:induction false} SubscriptionsRoundTrip(m: map<string, WatchSubscription>, keys: seq<string>)
    requires KeyedById(m) && forall i | 0 <= i < |keys| :: keys[i] in m
    ensures LoadSubscriptions(SerializedSubscriptions(m, keys)) == Some(LoweredAmong(m, SetOf(keys)))
    decreases |keys|
  {
    hide Lowered, SerializeSubscription, DeserializeSubscription;
    if keys == [] {
      assert SerializedSubscriptions(m, keys) == [];
    } else {
      var rest, last := keys[..|keys| - 1], keys[|keys| - 1];
      SubscriptionsRoundTrip(m, rest);
      SubscriptionRoundTrip(m[last]);
      assert SerializedSubscriptions(m, keys)[..|keys| - 1] == SerializedSubscriptions(m, rest);
      assert keys == rest + [last];
      assert SetOf(keys) == SetOf(rest) + {last};
      LoweredKeepsId(m[last]);
      LoweredAmongAdd(m, SetOf(rest), last);
      hide LoweredAmong;
    }
  }

  lemma LoweredKeepsId(s: WatchSubscription)
    ensures Lowered(s).subscriptionId == s.subscriptionId
    ensures Lowered(s) == s <==> IsLower(s.protocol.rootAddress)
  {
    hide Lower;
  }

  /** Reading back what was written gives the same events in order and the same
      subscriptions with their root addresses lowered. */
  lemma LoadAfterDump(st: Store)
    requires KeyedById(st.subscriptions)
    ensures LoadOf(DumpOf(st)) == Some(Store(LoweredAmong(st.subscriptions, st.subscriptions.Keys), st.events))
  {
    hide LoweredAmong, SerializeSubscription, DeserializeSubscription, SerializedSubscriptions, LoadSubscriptions,
      LoadEvents, SerializedEvents, SortedIds;
    SubscriptionsRoundTrip(st.subscriptions, SortedIds(st.subscriptions));
    EventsRoundTrip(st.events);
  }

  lemma LoweredIsSame(m: map<string, WatchSubscription>)
    ensures LoweredAmong(m, m.Keys) == m <==> forall id | id in m :: IsLower(m[id].protocol.rootAddress)
  {
    hide Lowered, IsLower;
    var lowered := LoweredAmong(m, m.Keys);
    assert lowered.Keys == m.Keys;
    forall id | id in m ensures lowered[id] == m[id] <==> IsLower(m[id].protocol.rootAddress) { LoweredKeepsId(m[id]); }
    if lowered == m {
      forall id | id in m ensures IsLower(m[id].protocol.rootAddress) { assert lowered[id] == m[id]; }
    }
  }

  /** So a dump and load restores a store exactly when its root addresses are lower case. */
  lemma RoundTripExactlyWhenLower(st: Store)
    requires KeyedById(st.subscriptions)
    ensures LoadOf(DumpOf(st)) == Some(st) <==>
            forall id | id in st.subscriptions :: IsLower(st.subscriptions[id].protocol.rootAddress)
  {
    hide LoadOf, DumpOf, LoweredAmong, IsLower;
    LoadAfterDump(st);
    LoweredIsSame(st.subscriptions);
  }

  /** There are stores that do not come back: the root address here is not lower case. */
  lemma MixedCaseStoreIsNotRestored() returns (st: Store)
    ensures KeyedById(st.subscriptions) && LoadOf(DumpOf(st)) != Some(st)
  {
    var protocol := WatchedProtocol("1:a", 1, "A", "", 0, map[]);
    var s := WatchSubscription("1:a", protocol, DEFAULT_CONFIGURATION, Enabled, None, None, None, 0, 0);
    st := Store(map["1:a" := s], []);
    assert Lower("A")[0] == 'a';
    assert "1:a" in st.subscriptions && !IsLower(st.subscriptions["1:a"].protocol.rootAddress);
    hide LoadOf, DumpOf, IsLower;
    RoundTripExactlyWhenLower(st);
  }

  /** Every store the registry can reach comes back as it was. */
  lemma ReachableStoresRoundTrip(digest: string -> string, ops: seq<Operation>)
    ensures LoadOf(DumpOf(Run(digest, ops))) == Some(Run(digest, ops))
  {
    EveryRunIsSound(digest, ops);
    hide LoadOf, DumpOf, Run, IsLower;
    RoundTripExactlyWhenLower(Run(digest, ops));
  }

  // ---- the persistence object ----

  /** The records written are those stored, each once, by strictly increasing identifier. */
  ghost predicate WritesAll(m: map<string, WatchSubscription>, written: seq<Json>) {
    exists r :: ListsAll(m, r) && |written| == |r|
      && forall i | 0 <= i < |r| :: written[i] == SerializeSubscription(r[i])
  }

  /** `dump_store`, before it becomes text. */
  method DumpStore(store: InMemoryWatchPersistence) returns (d: Dump)
    ensures d == DumpOf(store.View())
    ensures store.Valid() ==> WritesAll(store.subscriptions, d.subscriptions)
    ensures |d.events| == |store.events|
    ensures forall i | 0 <= i < |d.events| :: d.events[i] == SerializeEvent(store.events[i])
  {
    hide ListsAll, SerializeSubscription, SerializeEvent, SortedIds, SetOf;
    var items := store.ListSubscriptions();
    var events := store.ListEvents(None);
    d := Dump(
      seq(|items|, i requires 0 <= i < |items| => SerializeSubscription(items[i])),
      seq(|events|, i requires 0 <= i < |events| => SerializeEvent(events[i])));
    assert d.subscriptions == SerializedSubscriptions(store.subscriptions, SortedIds(store.subscriptions));
    assert d.events == SerializedEvents(store.events);
    if store.Valid() { Written(store.subscriptions, items, d.subscriptions); }
  }

  lemma Written(m: map<string, WatchSubscription>, r: seq<WatchSubscription>, written: seq<Json>)
    requires ListsAll(m, r) && |written| == |r|
    requires forall i | 0 <= i < |r| :: written[i] == SerializeSubscription(r[i])
    ensures WritesAll(m, written)
  {
    hide ListsAll, SerializeSubscription;
  }

  /** `load_store`, after the text is parsed: a new store with every record saved and every
      event appended, or no store at all when some record cannot be read. */
  method LoadStore(d: Dump) returns (r: Result<InMemoryWatchPersistence, ()>)
    ensures r.Success? <==> LoadOf(d).Some?
    ensures r.Success? ==> fresh(r.value) && r.value.Valid() && LoadOf(d) == Some(r.value.View())
  {
    hide DeserializeSubscription, DeserializeEvent;
    var store := new InMemoryWatchPersistence();
    for i := 0 to |d.subscriptions|
      invariant fresh(store) && store.Valid() && store.events == []
      invariant LoadSubscriptions(d.subscriptions[..i]) == Some(store.subscriptions)
    {
      assert d.subscriptions[..i + 1][..i] == d.subscriptions[..i];
      var s := DeserializeSubscription(d.subscriptions[i]);
      if s.None? {
        UnreadableSubscription(d.subscriptions, i);
        return Failure(());
      }
      store.SaveSubscription(s.value);
    }
    assert d.subscriptions[..|d.subscriptions|] == d.subscriptions;
    for i := 0 to |d.events|
      invariant fresh(store) && store.Valid()
      invariant LoadSubscriptions(d.subscriptions) == Some(store.subscriptions)
      invariant LoadEvents(d.events[..i]) == Some(store.events)
    {
      assert d.events[..i + 1][..i] == d.events[..i];
      var e := DeserializeEvent(d.events[i]);
      if e.None? {
        UnreadableEvent(d.events, i);
        return Failure(());
      }
      store.AppendEvent(e.value);
    }
    assert d.events[..|d.events|] == d.events;
    return Success(store);
  }

  lemma {:induction false} UnreadableSubscription(items: seq<Json>, i: nat)
    requires i < |items| && DeserializeSubscription(items[i]).None?
    ensures LoadSubscriptions(items).None?
    decreases |items|
  {
    hide DeserializeSubscription;
    if i < |items| - 1 { UnreadableSubscription(items[..|items| - 1], i); }
  }

  lemma {:induction false} UnreadableEvent(items: seq<Json>, i: nat)
    requires i < |items| && DeserializeEvent(items[i]).None?
    ensures LoadEvents(items).None?
    decreases |items|
  {
    hide DeserializeEvent;
    if i < |items| - 1 { UnreadableEvent(items[..|items| - 1], i); }
  }
}
