/** The persistence object, the registry over it and the lifecycle manager over the registry.
    Every method is tied to the operation of `WatchRuns.Apply` it performs, so what is proved
    there of runs holds of any sequence of calls. */
module WatchRegistries {
  import opened Ordering
  import opened Text
  import opened WatchModels
  import opened WatchRuns

  /** `sorted(subscriptions.keys())`. */
  function SortedIds(m: map<string, WatchSubscription>): (r: seq<string>)
    ensures SetOf(r) == m.Keys && |r| == |m| && forall i | 0 <= i < |r| :: r[i] in m
    ensures forall i, j | 0 <= i < j < |r| :: Precedes(r[i], r[j])
  {
    IdsListed(m);
    SortedSet(m.Keys)
  }

  lemma IdsListed(m: map<string, WatchSubscription>)
    ensures forall i | 0 <= i < |SortedSet(m.Keys)| :: SortedSet(m.Keys)[i] in m
    ensures forall i, j | 0 <= i < j < |SortedSet(m.Keys)| :: Precedes(SortedSet(m.Keys)[i], SortedSet(m.Keys)[j])
    ensures |m.Keys| == |m|
  {
    var keys := SortedSet(m.Keys);
    StrictlyIncreasing(keys);
    hide Increasing, Distinct, Precedes;
    forall i | 0 <= i < |keys| ensures keys[i] in m { IndexedIn(keys, i); }
  }

  /** Every stored record once, by strictly increasing identifier. */
  ghost predicate ListsAll(m: map<string, WatchSubscription>, r: seq<WatchSubscription>) {
    && |r| == |m|
    && (forall i | 0 <= i < |r| :: r[i].subscriptionId in m && m[r[i].subscriptionId] == r[i])
    && (forall id | id in m :: m[id] in r)
    && forall i, j | 0 <= i < j < |r| :: Precedes(r[i].subscriptionId, r[j].subscriptionId)
  }

  lemma SortedListsAll(m: map<string, WatchSubscription>, r: seq<WatchSubscription>)
    requires forall id | id in m :: m[id].subscriptionId == id
    requires |r| == |SortedIds(m)| && forall i | 0 <= i < |r| :: r[i] == m[SortedIds(m)[i]]
    ensures ListsAll(m, r)
  {
    hide SortedIds, Precedes;
    var keys := SortedIds(m);
    forall id | id in m ensures m[id] in r {
      assert id in SetOf(keys);
      var i :| 0 <= i < |keys| && keys[i] == id;
      assert r[i] == m[id];
    }
  }

  class InMemoryWatchPersistence {
    var subscriptions: map<string, WatchSubscription>
    var events: seq<WatchEvent>

    /** Records are only ever stored under their own identifier. */
    ghost predicate Valid()
      reads this
    {
      forall id | id in subscriptions :: subscriptions[id].subscriptionId == id
    }

    constructor ()
      ensures View() == EMPTY_STORE && Valid()
    {
      subscriptions, events := map[], [];
    }

    function View(): Store
      reads this
    {
      Store(subscriptions, events)
    }

    method SaveSubscription(s: WatchSubscription)
      modifies this
      ensures View() == Store(old(subscriptions)[s.subscriptionId := s], old(events))
      ensures old(Valid()) ==> Valid()
    {
      subscriptions := subscriptions[s.subscriptionId := s];
    }

    method GetSubscription(id: string) returns (r: Option<WatchSubscription>)
      ensures r == if id in subscriptions then Some(subscriptions[id]) else None
    {
      r := if id in subscriptions then Some(subscriptions[id]) else None;
    }

    method DeleteSubscription(id: string) returns (deleted: bool)
      modifies this
      ensures deleted <==> id in old(subscriptions)
      ensures View() == Store(old(subscriptions) - {id}, old(events))
      ensures old(Valid()) ==> Valid()
    {
      deleted := id in subscriptions;
      subscriptions := subscriptions - {id};
    }

    /** In the order of the sorted identifiers. */
    method ListSubscriptions() returns (r: seq<WatchSubscription>)
      ensures |r| == |SortedIds(subscriptions)|
      ensures forall i | 0 <= i < |r| :: r[i] == subscriptions[SortedIds(subscriptions)[i]]
      ensures Valid() ==> ListsAll(subscriptions, r)
    {
      hide SortedIds, ListsAll;
      var keys, all := SortedIds(subscriptions), subscriptions;
      r := seq(|keys|, i requires 0 <= i < |keys| => all[keys[i]]);
      if Valid() { SortedListsAll(subscriptions, r); }
    }

    method AppendEvent(e: WatchEvent)
      modifies this`events
      ensures View() == Store(old(subscriptions), old(events) + [e])
    {
      events := events + [e];
    }

    /** All events, or those of one watch, in the order they were appended. */
    method ListEvents(id: Option<string>) returns (r: seq<WatchEvent>)
      ensures r == if id.Some? then EventsOf(events, id.value) else events
      ensures id.Some? ==>
                forall e :: multiset(r)[e] == if e.watchId == id.value then multiset(events)[e] else 0
    {
      if id.None? {
        return events;
      }
      r := [];
      for i := 0 to |events|
        invariant r == EventsOf(events[..i], id.value)
      {
        assert events[..i + 1][..i] == events[..i];
        if events[i].watchId == id.value {
          r := r + [events[i]];
        }
      }
      assert events[..|events|] == events;
      EventsOfCounts(events, id.value);
    }
  }

  function EventsOf(events: seq<WatchEvent>, id: string): seq<WatchEvent> {
    if events == [] then []
    else
      var last := events[|events| - 1];
      EventsOf(events[..|events| - 1], id) + (if last.watchId == id then [last] else [])
  }

  lemma EventsOfLast(events: seq<WatchEvent>, e: WatchEvent, id: string)
    ensures EventsOf(events + [e], id) == EventsOf(events, id) + (if e.watchId == id then [e] else [])
    ensures EventsOf([], id) == []
  {
    assert (events + [e])[..|events|] == events;
  }

  /** The events of one watch keep the order of the log. */
  lemma {:induction false} EventsOfJoin(before: seq<WatchEvent>, after: seq<WatchEvent>, id: string)
    ensures EventsOf(before + after, id) == EventsOf(before, id) + EventsOf(after, id)
  {
    hide EventsOf;
    if after == [] {
      EventsOfLast([], WatchEvent("", Registered, "", 0, map[]), id);
      assert before + after == before;
    } else {
      var rest, last := after[..|after| - 1], after[|after| - 1];
      assert after == rest + [last];
      EventsOfJoin(before, rest, id);
      EventsOfLast(rest, last, id);
      EventsOfLast(before + rest, last, id);
      assert before + after == before + rest + [last];
      assert EventsOf(before, id) + EventsOf(after, id)
          == EventsOf(before, id) + EventsOf(rest, id) + (if last.watchId == id then [last] else []);
    }
  }

  lemma {:induction false} EventsOfCounts(events: seq<WatchEvent>, id: string)
    ensures forall e :: multiset(EventsOf(events, id))[e] == if e.watchId == id then multiset(events)[e] else 0
  {
    if events != [] {
      EventsOfCounts(events[..|events| - 1], id);
      assert events == events[..|events| - 1] + [events[|events| - 1]];
    }
  }

  class WatchRegistry {
    const persistence: InMemoryWatchPersistence
    const digest: string -> string

    constructor (persistence: InMemoryWatchPersistence, digest: string -> string)
      ensures this.persistence == persistence && this.digest == digest
    {
      this.persistence, this.digest := persistence, digest;
    }

    function View(): Store
      reads persistence
    {
      persistence.View()
    }

    /** `_record_event`. */
    method RecordEvent(id: string, t: EventType, timestamp: int, metadata: Dict)
      modifies persistence
      ensures old(persistence.Valid()) ==> persistence.Valid()
      ensures View() == Store(old(View()).subscriptions, old(View()).events
          + [Event(digest, id, t, timestamp, metadata)])
    {
      persistence.AppendEvent(WatchEvent(EventId(digest, id, t, timestamp), t, id, timestamp, metadata));
    }

    method Register(
      chainId: int, rootAddress: string, protocolName: string, configuration: Option<WatchConfiguration>,
      baseline: Option<Dict>,
      metadata: Dict, now: int)
      returns (r: Answer)
      requires persistence.Valid()
      modifies persistence
      ensures persistence.Valid()
      ensures (View(), r) ==
              Apply(digest, old(View()),
                  Operation.Register(chainId, rootAddress, protocolName, configuration, baseline, metadata, now))
    {
      hide EventId, WatchId, Lower, IsoText, Interval;
      var identifier := WatchId(chainId, rootAddress);
      var existing := persistence.GetSubscription(identifier);
      if existing.Some? {
        return Failure(DuplicateWatch);
      }
      var protocol := BuildWatchedProtocol(chainId, rootAddress, protocolName, now, metadata);
      var config := if configuration.Some? then configuration.value else DEFAULT_CONFIGURATION;
      var s := BuildSubscription(protocol, config, Enabled, baseline, now, now);
      s := s.(nextExecutionAt := ScheduleInitial(s, now));
      persistence.SaveSubscription(s);
      RecordEvent(identifier, Registered, now, map["protocol_name" := Str(protocolName)]);
      if s.nextExecutionAt.Some? {
        RecordEvent(identifier, Scheduled, now, map["next_execution_at" := Str(IsoText(s.nextExecutionAt.value))]);
      } else {
        assert persistence.events + [] == persistence.events;
      }
      return Success(s);
    }

    method GetWatch(id: string) returns (r: Option<WatchSubscription>)
      ensures r == if id in View().subscriptions then Some(View().subscriptions[id]) else None
    {
      r := persistence.GetSubscription(id);
    }

    /** `unregister`, and `delete_watch` with the other event type. */
    method Remove(id: string, t: EventType, now: int) returns (r: Answer)
      requires persistence.Valid()
      requires t == Unregistered || t == Deleted
      modifies persistence
      ensures persistence.Valid()
      ensures (View(), r) ==
              Apply(digest, old(View()), if t == Unregistered then Operation.Unregister(id, now)
                  else Operation.Delete(id, now))
    {
      hide EventId;
      var found := persistence.GetSubscription(id);
      if found.None? {
        return Failure(WatchNotFound);
      }
      var deleted := persistence.DeleteSubscription(id);
      if deleted {
        RecordEvent(id, t, now, map["protocol_name" := Str(found.value.protocol.protocolName)]);
      }
      return Success(found.value);
    }

    method UpdateConfiguration(id: string, configuration: WatchConfiguration, now: int) returns (r: Answer)
      requires persistence.Valid()
      modifies persistence
      ensures persistence.Valid()
      ensures (View(), r) == Apply(digest, old(View()), Operation.UpdateConfiguration(id, configuration, now))
      ensures id in old(View()).subscriptions ==>
                r.Success? && MergedFrom(old(View()).subscriptions[id].configuration, configuration,
                                  r.value.configuration)
    {
      hide EventId, Interval, MergedFrom;
      var found := persistence.GetSubscription(id);
      if found.None? {
        return Failure(WatchNotFound);
      }
      var s := found.value;
      var merged := MergeConfiguration(s.configuration, configuration);
      MergeMeans(s.configuration, configuration);
      var updated := s.(configuration := merged, updatedAt := now,
                        nextExecutionAt := if s.status == Enabled
                            then ScheduleInitial(s.(configuration := merged), now) else None);
      persistence.SaveSubscription(updated);
      RecordEvent(id, ConfigUpdated, now, map["schedule_type" := Str(ScheduleText(merged.scheduleType))]);
      return Success(updated);
    }

    method RecordExecution(id: string, snapshot: Option<Dict>, executedAt: int) returns (r: Answer)
      requires persistence.Valid()
      modifies persistence
      ensures persistence.Valid()
      ensures (View(), r) == Apply(digest, old(View()), Operation.RecordExecution(id, snapshot, executedAt))
    {
      hide EventId, Interval;
      var found := persistence.GetSubscription(id);
      if found.None? {
        return Failure(WatchNotFound);
      }
      var s := found.value;
      var baseline := if s.baselineScan.Some? && s.baselineScan.value != map[] then s.baselineScan else snapshot;
      var updated := s.(baselineScan := baseline, lastExecutionAt := Some(executedAt),
                        nextExecutionAt := if s.status == Enabled then AfterExecution(s, executedAt)
                            else s.nextExecutionAt,
                        updatedAt := executedAt);
      persistence.SaveSubscription(updated);
      RecordEvent(id, Executed, executedAt,
          map["scan_snapshot" := Obj(if snapshot.Some? then snapshot.value else map[])]);
      return Success(updated);
    }
  }

  class WatchManager {
    const registry: WatchRegistry

    constructor (registry: WatchRegistry)
      ensures this.registry == registry
    {
      this.registry := registry;
    }

    function View(): Store
      reads registry.persistence
    {
      registry.View()
    }

    /** `_transition`. */
    method Transition(id: string, target: WatchStatus, t: EventType, now: int, reschedule: bool, clearSchedule: bool)
      returns (r: Answer)
      requires registry.persistence.Valid()
      modifies registry.persistence
      ensures registry.persistence.Valid()
      ensures id !in old(View()).subscriptions ==> View() == old(View()) && r == Failure(WatchNotFound)
      ensures id in old(View()).subscriptions ==>
                var s := old(View()).subscriptions[id];
                var u := s.(status := target, updatedAt := now,
                            nextExecutionAt := if clearSchedule then None
                            else if reschedule then ScheduleInitial(s.(status := Enabled), now) else s.nextExecutionAt);
                && r == Success(u)
                && View() == Store(old(View()).subscriptions[id := u], old(View()).events
                    + [Event(registry.digest, id, t, now, map[])])
    {
      hide EventId, Interval;
      var found := registry.GetWatch(id);
      if found.None? {
        return Failure(WatchNotFound);
      }
      var s := found.value;
      var next := s.nextExecutionAt;
      if clearSchedule {
        next := None;
      } else if reschedule {
        next := ScheduleInitial(s.(status := Enabled), now);
      }
      var updated := s.(status := target, nextExecutionAt := next, updatedAt := now);
      registry.persistence.SaveSubscription(updated);
      registry.RecordEvent(id, t, now, map[]);
      return Success(updated);
    }

    method Enable(id: string, now: int) returns (r: Answer)
      requires registry.persistence.Valid()
      modifies registry.persistence
      ensures registry.persistence.Valid()
      ensures (View(), r) == Apply(registry.digest, old(View()), Operation.Enable(id, now))
    {
      hide EventId, ScheduleInitial;
      r := Transition(id, Enabled, EnabledEvent, now, true, false);
    }

    method Disable(id: string, now: int) returns (r: Answer)
      requires registry.persistence.Valid()
      modifies registry.persistence
      ensures registry.persistence.Valid()
      ensures (View(), r) == Apply(registry.digest, old(View()), Operation.Disable(id, now))
    {
      hide EventId, ScheduleInitial;
      r := Transition(id, Disabled, DisabledEvent, now, false, true);
    }

    method Pause(id: string, now: int) returns (r: Answer)
      requires registry.persistence.Valid()
      modifies registry.persistence
      ensures registry.persistence.Valid()
      ensures (View(), r) == Apply(registry.digest, old(View()), Operation.Pause(id, now))
    {
      hide EventId, ScheduleInitial;
      r := Transition(id, Paused, PausedEvent, now, false, true);
    }

    /** Only from PAUSED. */
    method Resume(id: string, now: int) returns (r: Answer)
      requires registry.persistence.Valid()
      modifies registry.persistence
      ensures registry.persistence.Valid()
      ensures (View(), r) == Apply(registry.digest, old(View()), Operation.Resume(id, now))
    {
      hide EventId, ScheduleInitial;
      var found := registry.GetWatch(id);
      if found.None? {
        return Failure(WatchNotFound);
      }
      if found.value.status != Paused {
        return Failure(NotPaused);
      }
      r := Transition(id, Enabled, Resumed, now, true, false);
    }

    method Delete(id: string, now: int) returns (r: Answer)
      requires registry.persistence.Valid()
      modifies registry.persistence
      ensures registry.persistence.Valid()
      ensures (View(), r) == Apply(registry.digest, old(View()), Operation.Delete(id, now))
    {
      var found := registry.GetWatch(id);
      if found.None? {
        return Failure(WatchNotFound);
      }
      r := registry.Remove(id, Deleted, now);
    }
  }
}
