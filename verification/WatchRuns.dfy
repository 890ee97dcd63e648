/** The watch store as a value, the operations on it, and what holds over whole runs. */
module WatchRuns {
  import opened Text
  import opened WatchModels

  datatype Store = Store(subscriptions: map<string, WatchSubscription>, events: seq<WatchEvent>)

  datatype WatchError = DuplicateWatch | WatchNotFound | NotPaused

  datatype Operation =
    | Register(chainId: int, rootAddress: string, protocolName: string, configuration: Option<WatchConfiguration>,
               baseline: Option<Dict>, metadata: Dict, now: int)
    | Unregister(id: string, now: int)
    | Delete(id: string, now: int)
    | UpdateConfiguration(id: string, update: WatchConfiguration, now: int)
    | RecordExecution(id: string, snapshot: Option<Dict>, now: int)
    | Enable(id: string, now: int)
    | Disable(id: string, now: int)
    | Pause(id: string, now: int)
    | Resume(id: string, now: int)

  type Answer = Result<WatchSubscription, WatchError>

  // ---- the subscription each operation leaves ----

  function Registration(op: Operation): WatchSubscription
    requires op.Register?
  {
    var p := BuildWatchedProtocol(op.chainId, op.rootAddress, op.protocolName, op.now, op.metadata);
    var c := if op.configuration.Some? then op.configuration.value else DEFAULT_CONFIGURATION;
    var s := BuildSubscription(p, c, Enabled, op.baseline, op.now, op.now);
    s.(nextExecutionAt := ScheduleInitial(s, op.now))
  }

  function Reconfigured(s: WatchSubscription, update: WatchConfiguration, now: int): WatchSubscription {
    var merged := MergeConfiguration(s.configuration, update);
    s.(configuration := merged, updatedAt := now,
       nextExecutionAt := if s.status == Enabled then ScheduleInitial(s.(configuration := merged), now) else None)
  }

  /** `baseline_scan or scan_snapshot`: a missing and an empty baseline both give way. */
  function BaselineAfter(s: WatchSubscription, snapshot: Option<Dict>): Option<Dict> {
    if s.baselineScan.Some? && s.baselineScan.value != map[] then s.baselineScan else snapshot
  }

  function AfterRun(s: WatchSubscription, snapshot: Option<Dict>, at: int): WatchSubscription {
    s.(baselineScan := BaselineAfter(s, snapshot), lastExecutionAt := Some(at),
       nextExecutionAt := if s.status == Enabled then AfterExecution(s, at) else s.nextExecutionAt, updatedAt := at)
  }

  /** `_transition`: rescheduling when enabling or resuming, clearing when disabling or pausing. */
  function Transitioned(s: WatchSubscription, target: WatchStatus, now: int): WatchSubscription {
    s.(status := target,
       nextExecutionAt := if target == Enabled then ScheduleInitial(s.(status := Enabled), now) else None,
       updatedAt := now)
  }

  /** The subscription an operation on a live watch leaves. */
  function Updated(s: WatchSubscription, op: Operation): WatchSubscription
    requires !op.Register? && !op.Unregister? && !op.Delete?
  {
    match op
    case UpdateConfiguration(_, update, now) => Reconfigured(s, update, now)
    case RecordExecution(_, snapshot, now) => AfterRun(s, snapshot, now)
    case Enable(_, now) => Transitioned(s, Enabled, now)
    case Disable(_, now) => Transitioned(s, Disabled, now)
    case Pause(_, now) => Transitioned(s, Paused, now)
    case Resume(_, now) => Transitioned(s, Enabled, now)
  }

  /** The audit record of an operation that leaves (or removes) subscription `s`. */
  function EventFor(digest: string -> string, s: WatchSubscription, op: Operation): WatchEvent
    requires !op.Register?
  {
    match op
    case UpdateConfiguration(id, _, now) =>
      Event(digest, id, ConfigUpdated, now, map["schedule_type" := Str(ScheduleText(s.configuration.scheduleType))])
    case RecordExecution(id, snapshot, now) =>
      Event(digest, id, Executed, now, map["scan_snapshot" := Obj(if snapshot.Some? then snapshot.value else map[])])
    case Enable(id, now) => Event(digest, id, EnabledEvent, now, map[])
    case Disable(id, now) => Event(digest, id, DisabledEvent, now, map[])
    case Pause(id, now) => Event(digest, id, PausedEvent, now, map[])
    case Resume(id, now) => Event(digest, id, Resumed, now, map[])
    case Unregister(id, now) => Event(digest, id, Unregistered, now,
        map["protocol_name" := Str(s.protocol.protocolName)])
    case Delete(id, now) => Event(digest, id, Deleted, now, map["protocol_name" := Str(s.protocol.protocolName)])
  }

  function RegisteredEvent(digest: string -> string, id: string, protocolName: string, now: int): WatchEvent {
    Event(digest, id, Registered, now, map["protocol_name" := Str(protocolName)])
  }

  function ScheduledEvent(digest: string -> string, id: string, next: int, now: int): WatchEvent {
    Event(digest, id, Scheduled, now, map["next_execution_at" := Str(IsoText(next))])
  }

  /** The effect of one call: the new store and the subscription or error it answers with. An
      error leaves the store as it was. */
  function Apply(digest: string -> string, st: Store, op: Operation): (Store, Answer) {
    if op.Register? then
      var s := Registration(op);
      var id := s.subscriptionId;
      if id in st.subscriptions then (st, Failure(DuplicateWatch))
      else
        var scheduled := if s.nextExecutionAt.Some? then [ScheduledEvent(digest, id, s.nextExecutionAt.value, op.now)]
            else [];
        var events := st.events + [RegisteredEvent(digest, id, op.protocolName, op.now)] + scheduled;
        (Store(st.subscriptions[id := s], events), Success(s))
    else if op.id !in st.subscriptions then (st, Failure(WatchNotFound))
    else
      var s := st.subscriptions[op.id];
      if op.Unregister? || op.Delete? then
        (Store(st.subscriptions - {op.id}, st.events + [EventFor(digest, s, op)]), Success(s))
      else if op.Resume? && s.status != Paused then (st, Failure(NotPaused))
      else
        var u := Updated(s, op);
        (Store(st.subscriptions[op.id := u], st.events + [EventFor(digest, u, op)]), Success(u))
  }

  const EMPTY_STORE := Store(map[], [])

  /** The store after a run of operations from the empty one. */
  function Run(digest: string -> string, ops: seq<Operation>): Store {
    if ops == [] then EMPTY_STORE else Apply(digest, Run(digest, ops[..|ops| - 1]), ops[|ops| - 1]).0
  }

  // ---- the schedule is a function of the rest ----

  function ScheduledFor(status: WatchStatus, interval: Option<int>, updatedAt: int): Option<int> {
    if status == Enabled && interval.Some? then Some(updatedAt + interval.value) else None
  }

  ghost predicate SoundSubscription(id: string, s: WatchSubscription) {
    && s.subscriptionId == id && s.protocol.watchId == id
    && id == WatchId(s.protocol.chainId, s.protocol.rootAddress)
    && IsLower(s.protocol.rootAddress)
    && s.nextExecutionAt == ScheduledFor(s.status, Interval(s.configuration.scheduleType), s.updatedAt)
  }

  ghost predicate SoundStore(st: Store) {
    forall id | id in st.subscriptions :: SoundSubscription(id, st.subscriptions[id])
  }

  lemma RegistrationIsSound(op: Operation)
    requires op.Register?
    ensures SoundSubscription(Registration(op).subscriptionId, Registration(op))
  {
    LowerIsIdempotent(op.rootAddress);
    hide Lower, IntText;
  }

  lemma UpdatedIsSound(s: WatchSubscription, op: Operation)
    requires !op.Register? && !op.Unregister? && !op.Delete? && SoundSubscription(op.id, s)
    ensures SoundSubscription(op.id, Updated(s, op))
  {
    hide WatchId, IsLower, BaselineAfter;
  }

  /** `next_execution_at` is `updated_at` plus the interval of an enabled watch that has one,
      and None otherwise; keys, identifiers and lowered addresses agree. */
  lemma {:induction false} ApplyKeepsSound(digest: string -> string, st: Store, op: Operation)
    requires SoundStore(st)
    ensures SoundStore(Apply(digest, st, op).0)
  {
    hide SoundSubscription, Updated, Registration, EventFor, ScheduledEvent, RegisteredEvent;
    if op.Register? {
      RegistrationIsSound(op);
    } else if op.id in st.subscriptions && !op.Unregister? && !op.Delete? {
      UpdatedIsSound(st.subscriptions[op.id], op);
    }
  }

  /** So it holds of every store a run can reach. */
  lemma {:induction false} EveryRunIsSound(digest: string -> string, ops: seq<Operation>)
    ensures SoundStore(Run(digest, ops))
  {
    if ops != [] {
      EveryRunIsSound(digest, ops[..|ops| - 1]);
      ApplyKeepsSound(digest, Run(digest, ops[..|ops| - 1]), ops[|ops| - 1]);
    }
  }

  // ---- replaying the audit log ----

  /** What the log says about a live watch. */
  datatype Seen = Seen(status: WatchStatus, lastExecutionAt: Option<int>, updatedAt: int, interval: Option<int>)

  function TextField(m: Dict, key: string): string {
    if key in m && m[key].Str? then m[key].s else ""
  }

  /** The interval a SCHEDULED event implies. */
  function ImpliedInterval(e: WatchEvent): Option<int> {
    match IsoValue(TextField(e.metadata, "next_execution_at"))
    case Some(next) => Some(next - e.timestamp)
    case None => None
  }

  /** The interval a CONFIG_UPDATED event names. */
  function NamedInterval(e: WatchEvent): Option<int> {
    match ScheduleOf(TextField(e.metadata, "schedule_type"))
    case Some(t) => Interval(t)
    case None => None
  }

  function ReplayEvent(m: map<string, Seen>, e: WatchEvent): map<string, Seen> {
    match e.eventType
    case Registered => m[e.watchId := Seen(Enabled, None, e.timestamp, None)]
    case Unregistered => m - {e.watchId}
    case Deleted => m - {e.watchId}
    case _ =>
      if e.watchId !in m then m
      else
        var w := m[e.watchId].(updatedAt := e.timestamp);
        m[e.watchId :=
          match e.eventType
          case Scheduled => w.(interval := ImpliedInterval(e))
          case ConfigUpdated => w.(interval := NamedInterval(e))
          case EnabledEvent => w.(status := Enabled)
          case Resumed => w.(status := Enabled)
          case DisabledEvent => w.(status := Disabled)
          case PausedEvent => w.(status := Paused)
          case _ => w.(lastExecutionAt := Some(e.timestamp))]
  }

  function Replay(events: seq<WatchEvent>): map<string, Seen> {
    if events == [] then map[] else ReplayEvent(Replay(events[..|events| - 1]), events[|events| - 1])
  }

  /** The same facts read off the store. */
  function Facts(s: WatchSubscription): Seen {
    Seen(s.status, s.lastExecutionAt, s.updatedAt, Interval(s.configuration.scheduleType))
  }

  function StoreFacts(st: Store): map<string, Seen> {
    map id | id in st.subscriptions :: Facts(st.subscriptions[id])
  }

  lemma ReplayOne(events: seq<WatchEvent>, e: WatchEvent)
    ensures Replay(events + [e]) == ReplayEvent(Replay(events), e)
  {
    assert (events + [e])[..|events|] == events;
  }

  lemma FactsPut(st: Store, id: string, u: WatchSubscription, events: seq<WatchEvent>)
    ensures StoreFacts(Store(st.subscriptions[id := u], events)) == StoreFacts(st)[id := Facts(u)]
  {
    hide Facts;
  }

  lemma FactsDrop(st: Store, id: string, events: seq<WatchEvent>)
    ensures StoreFacts(Store(st.subscriptions - {id}, events)) == StoreFacts(st) - {id}
  {
    hide Facts;
  }

  lemma ReplayRegistration(digest: string -> string, st: Store, op: Operation)
    requires op.Register? && Replay(st.events) == StoreFacts(st)
    ensures Replay(Apply(digest, st, op).0.events) == StoreFacts(Apply(digest, st, op).0)
  {
    hide Registration, IsoText, StoreFacts, Facts, ImpliedInterval, NamedInterval, ScheduledEvent, RegisteredEvent,
      Replay, ReplayEvent;
    var s := Registration(op);
    var id := s.subscriptionId;
    if id !in st.subscriptions {
      var events := st.events + [RegisteredEvent(digest, id, op.protocolName, op.now)];
      ReplayRegistered(digest, st.events, op);
      if s.nextExecutionAt.Some? {
        ReplayScheduled(digest, events, op);
      } else {
        assert events + [] == events;
        RegistrationFacts(op);
      }
      FactsPut(st, id, s, Apply(digest, st, op).0.events);
    }
  }

  lemma ReplayRegistered(digest: string -> string, events: seq<WatchEvent>, op: Operation)
    requires op.Register?
    ensures var id := Registration(op).subscriptionId;
            Replay(events + [RegisteredEvent(digest, id, op.protocolName, op.now)]) ==
            Replay(events)[id := Seen(Enabled, None, op.now, None)]
  {
    hide Registration, EventId;
    ReplayOne(events, RegisteredEvent(digest, Registration(op).subscriptionId, op.protocolName, op.now));
  }

  lemma ReplayScheduled(digest: string -> string, events: seq<WatchEvent>, op: Operation)
    requires op.Register? && Registration(op).nextExecutionAt.Some?
    requires var id := Registration(op).subscriptionId;
             id in Replay(events) && Replay(events)[id] == Seen(Enabled, None, op.now, None)
    ensures var s := Registration(op);
            Replay(events + [ScheduledEvent(digest, s.subscriptionId, s.nextExecutionAt.value, op.now)]) ==
            Replay(events)[s.subscriptionId := Facts(s)]
  {
    hide Registration, EventId, Facts, ImpliedInterval, NamedInterval, IsoText;
    var s := Registration(op);
    ReplayOne(events, ScheduledEvent(digest, s.subscriptionId, s.nextExecutionAt.value, op.now));
    ScheduledImplies(digest, s.subscriptionId, s.nextExecutionAt.value, op.now);
    RegistrationFacts(op);
  }

  lemma RegistrationFacts(op: Operation)
    requires op.Register?
    ensures var s := Registration(op);
            Facts(s) == Seen(Enabled, None, op.now,
                match s.nextExecutionAt case Some(next) => Some(next - op.now) case None => None)
  {
    hide WatchId, Lower;
  }

  lemma ScheduledImplies(digest: string -> string, id: string, next: int, now: int)
    ensures ImpliedInterval(ScheduledEvent(digest, id, next, now)) == Some(next - now)
  {
    IntTextInverse(next);
    hide EventId, IntText, IntValue;
  }

  /** An update's event tells the log exactly what the update did to the facts. */
  lemma EventTellsFacts(digest: string -> string, s: WatchSubscription, op: Operation, m: map<string, Seen>)
    requires !op.Register? && !op.Unregister? && !op.Delete? && op.id in m && m[op.id] == Facts(s)
    ensures ReplayEvent(m, EventFor(digest, Updated(s, op), op)) == m[op.id := Facts(Updated(s, op))]
  {
    hide EventId, ScheduleText, ScheduleOf, BaselineAfter, Interval, ScheduleInitial, AfterExecution;
    if op.UpdateConfiguration? { ScheduleInverse(op.update.scheduleType); }
  }

  lemma ReplayOther(digest: string -> string, st: Store, op: Operation)
    requires !op.Register? && Replay(st.events) == StoreFacts(st)
    ensures Replay(Apply(digest, st, op).0.events) == StoreFacts(Apply(digest, st, op).0)
  {
    hide Facts, Updated, StoreFacts, Replay, EventFor, ReplayEvent;
    if op.id in st.subscriptions {
      var s := st.subscriptions[op.id];
      var events := Apply(digest, st, op).0.events;
      FactsOf(st, op.id);
      if op.Unregister? || op.Delete? {
        ReplayOne(st.events, EventFor(digest, s, op));
        EventTellsRemoval(digest, s, op, StoreFacts(st));
        FactsDrop(st, op.id, events);
      } else {
        ReplayOne(st.events, EventFor(digest, Updated(s, op), op));
        EventTellsFacts(digest, s, op, StoreFacts(st));
        FactsPut(st, op.id, Updated(s, op), events);
      }
    }
  }

  lemma FactsOf(st: Store, id: string)
    requires id in st.subscriptions
    ensures id in StoreFacts(st) && StoreFacts(st)[id] == Facts(st.subscriptions[id])
  {
    hide Facts;
  }

  lemma EventTellsRemoval(digest: string -> string, s: WatchSubscription, op: Operation, m: map<string, Seen>)
    requires op.Unregister? || op.Delete?
    ensures ReplayEvent(m, EventFor(digest, s, op)) == m - {op.id}
  {
    hide EventId;
  }

  /** Over any run, replaying the audit log reconstructs which watches are live and, for
      each, its status, when it last ran, when it was last updated and its interval. */
  lemma {:induction false} ReplayReconstructs(digest: string -> string, ops: seq<Operation>)
    ensures Replay(Run(digest, ops).events) == StoreFacts(Run(digest, ops))
  {
    if ops != [] {
      var last := ops[|ops| - 1];
      ReplayReconstructs(digest, ops[..|ops| - 1]);
      if last.Register? {
        ReplayRegistration(digest, Run(digest, ops[..|ops| - 1]), last);
      } else {
        ReplayOther(digest, Run(digest, ops[..|ops| - 1]), last);
      }
    }
  }

  /** The log therefore also determines when each watch runs next. */
  lemma ReplayGivesNextExecution(digest: string -> string, ops: seq<Operation>, id: string)
    requires id in Run(digest, ops).subscriptions
    ensures id in Replay(Run(digest, ops).events)
    ensures var w := Replay(Run(digest, ops).events)[id];
            Run(digest, ops).subscriptions[id].nextExecutionAt == ScheduledFor(w.status, w.interval, w.updatedAt)
  {
    ReplayReconstructs(digest, ops);
    EveryRunIsSound(digest, ops);
  }

  // ---- when a watch is due ----

  /** On every reachable store, due means enabled, with an interval, which has passed since
      the last update. */
  lemma {:induction false} DueExactly(digest: string -> string, ops: seq<Operation>, id: string, now: int)
    requires id in Run(digest, ops).subscriptions
    ensures var s := Run(digest, ops).subscriptions[id];
            var interval := Interval(s.configuration.scheduleType);
            IsDue(s, now) <==> s.status == Enabled && interval.Some? && now - s.updatedAt >= interval.value
  {
    EveryRunIsSound(digest, ops);
  }

  ghost predicate NonDecreasing(ops: seq<Operation>) {
    forall i, j | 0 <= i < j < |ops| :: ops[i].now <= ops[j].now
  }

  /** Nothing in the store is later than the last operation. */
  lemma {:induction false} ExecutionsPrecedeUpdates(digest: string -> string, ops: seq<Operation>)
    requires NonDecreasing(ops)
    ensures forall id | id in Run(digest, ops).subscriptions ::
              var s := Run(digest, ops).subscriptions[id];
              && ops != [] && s.updatedAt <= ops[|ops| - 1].now
              && (s.lastExecutionAt.Some? ==> s.lastExecutionAt.value <= s.updatedAt)
  {
    if ops != [] {
      ExecutionsPrecedeUpdates(digest, ops[..|ops| - 1]);
      hide WatchId, EventId, ScheduleInitial, AfterExecution, IsoText;
    }
  }

  /** With timestamps that never go back, a due watch that has run before has had its current
      interval pass since it last ran, whatever happened in between. */
  lemma DueMeansIntervalPassed(digest: string -> string, ops: seq<Operation>, id: string, now: int)
    requires NonDecreasing(ops) && id in Run(digest, ops).subscriptions
    requires IsDue(Run(digest, ops).subscriptions[id], now)
    requires Run(digest, ops).subscriptions[id].lastExecutionAt.Some?
    ensures var s := Run(digest, ops).subscriptions[id];
            var interval := Interval(s.configuration.scheduleType);
            interval.Some? && now - s.lastExecutionAt.value >= interval.value
  {
    DueExactly(digest, ops, id, now);
    ExecutionsPrecedeUpdates(digest, ops);
  }

  // ---- one subscription per chain and address ----

  /** A live watch for the chain and the address, up to letter case. */
  ghost predicate Live(st: Store, chainId: int, rootAddress: string) {
    exists id :: id in st.subscriptions && st.subscriptions[id].protocol.chainId == chainId
                 && st.subscriptions[id].protocol.rootAddress == Lower(rootAddress)
  }

  /** A registration is rejected exactly when a watch for its chain and address is live. */
  lemma RejectedExactlyWhenLive(digest: string -> string, ops: seq<Operation>, op: Operation)
    requires op.Register?
    ensures Apply(digest, Run(digest, ops), op).1 == Failure(DuplicateWatch) <==>
        Live(Run(digest, ops), op.chainId, op.rootAddress)
  {
    var st := Run(digest, ops);
    EveryRunIsSound(digest, ops);
    var id := WatchId(op.chainId, op.rootAddress);
    if id in st.subscriptions {
      var p := st.subscriptions[id].protocol;
      WatchIdInjective(p.chainId, p.rootAddress, op.chainId, op.rootAddress);
    }
    if other :| other in st.subscriptions && st.subscriptions[other].protocol.chainId == op.chainId
                && st.subscriptions[other].protocol.rootAddress == Lower(op.rootAddress) {
      var p := st.subscriptions[other].protocol;
      WatchIdInjective(p.chainId, p.rootAddress, op.chainId, op.rootAddress);
    }
  }

  /** There is never more than one live watch for a chain and an address. */
  lemma AtMostOneLive(digest: string -> string, ops: seq<Operation>, a: string, b: string)
    requires a in Run(digest, ops).subscriptions && b in Run(digest, ops).subscriptions
    requires Run(digest, ops).subscriptions[a].protocol.chainId == Run(digest, ops).subscriptions[b].protocol.chainId
    requires Run(digest, ops).subscriptions[a].protocol.rootAddress ==
        Run(digest, ops).subscriptions[b].protocol.rootAddress
    ensures a == b
  {
    EveryRunIsSound(digest, ops);
  }

  // ---- what a call answers, field by field ----

  /** One event, with these fields, is new at the end of the log. */
  ghost predicate Logs(
    digest: string -> string, was: seq<WatchEvent>, now: seq<WatchEvent>, id: string, kind: EventType, at: int,
    metadata: Dict)
  {
    && |now| == |was| + 1 && now[..|was|] == was
    && now[|was|] == WatchEvent(EventId(digest, id, kind, at), kind, id, at, metadata)
  }

  /** The new watch: enabled, never run, and scheduled from now by its configuration. */
  ghost predicate NewWatch(op: Operation, s: WatchSubscription)
    requires op.Register?
  {
    && s.subscriptionId == s.protocol.watchId == WatchId(op.chainId, op.rootAddress)
    && s.protocol.chainId == op.chainId && s.protocol.rootAddress == Lower(op.rootAddress)
    && s.protocol.protocolName == op.protocolName && s.protocol.registeredAt == op.now
    && s.protocol.metadata == op.metadata
    && (op.configuration.Some? ==> s.configuration == op.configuration.value)
    && (op.configuration.None? ==> s.configuration == WatchConfiguration(Manual, None, "UTC", map[]))
    && s.status == Enabled && s.baselineScan == op.baseline && s.lastExecutionAt == None
    && RunsNext(s.configuration.scheduleType, op.now, s.nextExecutionAt)
    && s.createdAt == op.now && s.updatedAt == op.now
  }

  /** A registration stores the new watch next to those there were and logs one event, and a
      second one that names its schedule when it has one. */
  lemma RegistrationAnswers(digest: string -> string, st: Store, op: Operation)
    requires op.Register?
    ensures var (after, r) := Apply(digest, st, op);
            var id := WatchId(op.chainId, op.rootAddress);
            if id in st.subscriptions then after == st && r == Failure(DuplicateWatch)
            else
              && r.Success? && NewWatch(op, r.value) && after.subscriptions == st.subscriptions[id := r.value]
              && |after.events| == |st.events| + (if r.value.nextExecutionAt.Some? then 2 else 1)
              && Logs(digest, st.events, after.events[..|st.events| + 1], id, Registered, op.now,
                      map["protocol_name" := Str(op.protocolName)])
              && match r.value.nextExecutionAt
                 case None => true
                 case Some(next) =>
                   Logs(digest, after.events[..|st.events| + 1], after.events, id, Scheduled, op.now,
                        map["next_execution_at" := Str(IsoText(next))])
  {
    var p := BuildWatchedProtocol(op.chainId, op.rootAddress, op.protocolName, op.now, op.metadata);
    var c := if op.configuration.Some? then op.configuration.value else DEFAULT_CONFIGURATION;
    SchedulesRunNext(BuildSubscription(p, c, Enabled, op.baseline, op.now, op.now), op.now);
    hide EventId, WatchId, Lower, IsoText, ScheduleInitial, RunsNext;
    if WatchId(op.chainId, op.rootAddress) !in st.subscriptions { AppendedTwice(digest, st, op); }
  }

  lemma AppendedTwice(digest: string -> string, st: Store, op: Operation)
    requires op.Register? && Registration(op).subscriptionId !in st.subscriptions
    ensures var s, n := Registration(op), |st.events|;
            var log := Apply(digest, st, op).0.events;
            && |log| == n + (if s.nextExecutionAt.Some? then 2 else 1) && log[..n] == st.events
            && log[n] == RegisteredEvent(digest, s.subscriptionId, op.protocolName, op.now)
            && (s.nextExecutionAt.Some? ==>
                  log[n + 1] == ScheduledEvent(digest, s.subscriptionId, s.nextExecutionAt.value, op.now))
  {
    hide Registration, RegisteredEvent, ScheduledEvent;
  }

  /** The record is as before but for the fields given. */
  ghost predicate OnlyChanges(s: WatchSubscription, u: WatchSubscription) {
    && u.subscriptionId == s.subscriptionId && u.protocol == s.protocol && u.createdAt == s.createdAt
  }

  /** One record changes, and one event is logged. */
  ghost predicate ChangesOne(
    digest: string -> string, st: Store, after: Store, id: string, u: WatchSubscription, kind: EventType, at: int,
    metadata: Dict)
  {
    && id in st.subscriptions && OnlyChanges(st.subscriptions[id], u)
    && after.subscriptions == st.subscriptions[id := u]
    && Logs(digest, st.events, after.events, id, kind, at, metadata)
  }

  /** An update merges the configuration and reschedules an enabled watch from now. */
  lemma UpdateAnswers(digest: string -> string, st: Store, op: Operation)
    requires op.UpdateConfiguration? && op.id in st.subscriptions
    ensures var (after, r) := Apply(digest, st, op);
            var s := st.subscriptions[op.id];
            && r.Success?
            && ChangesOne(digest, st, after, op.id, r.value, ConfigUpdated, op.now,
                 map["schedule_type" := Str(ScheduleText(op.update.scheduleType))])
            && MergedFrom(s.configuration, op.update, r.value.configuration)
            && r.value.status == s.status && r.value.baselineScan == s.baselineScan
            && r.value.lastExecutionAt == s.lastExecutionAt && r.value.updatedAt == op.now
            && (s.status == Enabled ==> RunsNext(op.update.scheduleType, op.now, r.value.nextExecutionAt))
            && (s.status != Enabled ==> r.value.nextExecutionAt == None)
  {
    var s := st.subscriptions[op.id];
    MergeMeans(s.configuration, op.update);
    SchedulesRunNext(s.(configuration := MergeConfiguration(s.configuration, op.update)), op.now);
    hide EventId, ScheduleInitial, RunsNext, ScheduleText;
  }

  /** An execution is stamped, keeps a non-empty baseline and otherwise takes the snapshot for
      one, and reschedules an enabled watch from then. */
  lemma ExecutionAnswers(digest: string -> string, st: Store, op: Operation)
    requires op.RecordExecution? && op.id in st.subscriptions
    ensures var (after, r) := Apply(digest, st, op);
            var s := st.subscriptions[op.id];
            && r.Success?
            && ChangesOne(digest, st, after, op.id, r.value, Executed, op.now,
                 map["scan_snapshot" := Obj(match op.snapshot case Some(d) => d case None => map[])])
            && (HasBaseline(s) ==> r.value.baselineScan == s.baselineScan)
            && (!HasBaseline(s) ==> r.value.baselineScan == op.snapshot)
            && r.value.configuration == s.configuration && r.value.status == s.status
            && r.value.lastExecutionAt == Some(op.now) && r.value.updatedAt == op.now
            && (s.status == Enabled ==> RunsNext(s.configuration.scheduleType, op.now, r.value.nextExecutionAt))
            && (s.status != Enabled ==> r.value.nextExecutionAt == s.nextExecutionAt)
  {
    SchedulesRunNext(st.subscriptions[op.id], op.now);
    hide EventId, AfterExecution, RunsNext;
  }

  /** A change of status reschedules on enabling and resuming and clears the schedule on
      disabling and pausing; only a paused watch can be resumed. */
  lemma TransitionAnswers(digest: string -> string, st: Store, op: Operation)
    requires op.Enable? || op.Disable? || op.Pause? || op.Resume?
    requires op.id in st.subscriptions
    ensures var (after, r) := Apply(digest, st, op);
            var s := st.subscriptions[op.id];
            var kind := if op.Enable? then EnabledEvent else if op.Disable? then DisabledEvent
                        else if op.Pause? then PausedEvent else Resumed;
            if op.Resume? && s.status != Paused then after == st && r == Failure(NotPaused)
            else
              && r.Success? && ChangesOne(digest, st, after, op.id, r.value, kind, op.now, map[])
              && r.value.status == (if op.Disable? then Disabled else if op.Pause? then Paused else Enabled)
              && r.value.configuration == s.configuration && r.value.baselineScan == s.baselineScan
              && r.value.lastExecutionAt == s.lastExecutionAt && r.value.updatedAt == op.now
              && (r.value.status == Enabled ==>
                    RunsNext(s.configuration.scheduleType, op.now, r.value.nextExecutionAt))
              && (r.value.status != Enabled ==> r.value.nextExecutionAt == None)
  {
    SchedulesRunNext(st.subscriptions[op.id].(status := Enabled), op.now);
    hide EventId, ScheduleInitial, RunsNext;
  }

  /** A removal drops the watch, answers with it and logs one event; what needs a watch that
      is not there fails and changes nothing. */
  lemma RemovalAnswers(digest: string -> string, st: Store, op: Operation)
    requires !op.Register?
    ensures var (after, r) := Apply(digest, st, op);
            && (op.id !in st.subscriptions ==> after == st && r == Failure(WatchNotFound))
            && (op.id in st.subscriptions && (op.Unregister? || op.Delete?) ==>
                  && r == Success(st.subscriptions[op.id])
                  && (forall id :: id in after.subscriptions <==> id in st.subscriptions && id != op.id)
                  && (forall id | id in after.subscriptions :: after.subscriptions[id] == st.subscriptions[id])
                  && Logs(digest, st.events, after.events, op.id, if op.Delete? then Deleted else Unregistered, op.now,
                       map["protocol_name" := Str(st.subscriptions[op.id].protocol.protocolName)]))
  {
    hide EventId, Updated;
  }

  // ---- the baseline ----

  ghost predicate HasBaseline(s: WatchSubscription) { s.baselineScan.Some? && s.baselineScan.value != map[] }

  ghost predicate Removes(op: Operation, id: string) { (op.Unregister? || op.Delete?) && op.id == id }

  lemma BaselineKept(digest: string -> string, st: Store, op: Operation, id: string)
    requires id in st.subscriptions && HasBaseline(st.subscriptions[id]) && !Removes(op, id)
    ensures var after := Apply(digest, st, op).0;
            id in after.subscriptions && after.subscriptions[id].baselineScan == st.subscriptions[id].baselineScan
  {
    hide EventId, ScheduleInitial, AfterExecution, MergeConfiguration, WatchId, IsoText, RegisteredEvent,
      ScheduledEvent, EventFor;
  }

  /** A non-empty baseline is what it is until the watch is removed, whatever else happens. */
  lemma {:induction false} BaselineStays(
    digest: string -> string, ops: seq<Operation>, more: seq<Operation>, id: string)
    requires id in Run(digest, ops).subscriptions && HasBaseline(Run(digest, ops).subscriptions[id])
    requires forall op | op in more :: !Removes(op, id)
    ensures id in Run(digest, ops + more).subscriptions
    ensures Run(digest, ops + more).subscriptions[id].baselineScan == Run(digest, ops).subscriptions[id].baselineScan
    decreases |more|
  {
    hide Apply;
    if more == [] {
      assert ops + more == ops;
    } else {
      var n := |more| - 1;
      BaselineStays(digest, ops, more[..n], id);
      assert (ops + more)[..|ops + more| - 1] == ops + more[..n];
      BaselineKept(digest, Run(digest, ops + more[..n]), more[n], id);
    }
  }
}
