/** Watch subscriptions, their schedule arithmetic and their audit events. Timestamps count
    microseconds. */
module WatchModels {
  import opened Text

  /** JSON values, the payloads of metadata dictionaries and of the persisted form. */
  datatype Json =
    | Null | Bool(b: bool) | Num(n: int) | Str(s: string) | Arr(items: seq<Json>) | Obj(fields: map<string, Json>)

  type Dict = map<string, Json>

  datatype ScheduleType = Manual | Hourly | Daily | Weekly | Cron

  datatype WatchStatus = Enabled | Disabled | Paused

  datatype EventType =
    | Registered | Unregistered | ConfigUpdated | EnabledEvent | DisabledEvent | PausedEvent | Resumed | Deleted
    | Scheduled | Executed

  datatype WatchConfiguration = WatchConfiguration(
    scheduleType: ScheduleType, cronExpression: Option<string>, timezone: string, metadata: Dict)

  datatype WatchedProtocol = WatchedProtocol(
    watchId: string, chainId: int, rootAddress: string, protocolName: string, registeredAt: int, metadata: Dict)

  datatype WatchSubscription = WatchSubscription(
    subscriptionId: string, protocol: WatchedProtocol, configuration: WatchConfiguration, status: WatchStatus,
    baselineScan: Option<Dict>, lastExecutionAt: Option<int>, nextExecutionAt: Option<int>, createdAt: int,
    updatedAt: int)

  datatype WatchEvent = WatchEvent(
    eventId: string, eventType: EventType, watchId: string, timestamp: int, metadata: Dict)

  const DEFAULT_CONFIGURATION := WatchConfiguration(Manual, None, "UTC", map[])

  const HOUR := 3_600_000_000
  const DAY := 24 * HOUR
  const WEEK := 7 * DAY

  function ScheduleText(t: ScheduleType): string {
    match t
    case Manual => "manual"
    case Hourly => "hourly"
    case Daily => "daily"
    case Weekly => "weekly"
    case Cron => "cron"
  }

  function ScheduleOf(s: string): Option<ScheduleType> {
    if s == "manual" then Some(Manual) else if s == "hourly" then Some(Hourly) else if s == "daily" then Some(Daily)
    else if s == "weekly" then Some(Weekly) else if s == "cron" then Some(Cron) else None
  }

  lemma ScheduleInverse(t: ScheduleType)
    ensures ScheduleOf(ScheduleText(t)) == Some(t)
  {
  }

  function StatusText(s: WatchStatus): string {
    match s
    case Enabled => "enabled"
    case Disabled => "disabled"
    case Paused => "paused"
  }

  function StatusOf(s: string): Option<WatchStatus> {
    if s == "enabled" then Some(Enabled) else if s == "disabled" then Some(Disabled)
    else if s == "paused" then Some(Paused) else None
  }

  lemma StatusInverse(s: WatchStatus)
    ensures StatusOf(StatusText(s)) == Some(s)
  {
  }

  function EventText(t: EventType): string {
    match t
    case Registered => "registered"
    case Unregistered => "unregistered"
    case ConfigUpdated => "config_updated"
    case EnabledEvent => "enabled"
    case DisabledEvent => "disabled"
    case PausedEvent => "paused"
    case Resumed => "resumed"
    case Deleted => "deleted"
    case Scheduled => "scheduled"
    case Executed => "executed"
  }

  function EventOf(s: string): Option<EventType> {
    if s == "registered" then Some(Registered) else if s == "unregistered" then Some(Unregistered)
    else if s == "config_updated" then Some(ConfigUpdated) else if s == "enabled" then Some(EnabledEvent)
    else if s == "disabled" then Some(DisabledEvent) else if s == "paused" then Some(PausedEvent)
    else if s == "resumed" then Some(Resumed) else if s == "deleted" then Some(Deleted)
    else if s == "scheduled" then Some(Scheduled) else if s == "executed" then Some(Executed) else None
  }

  lemma EventInverse(t: EventType)
    ensures EventOf(EventText(t)) == Some(t)
  {
  }

  /** `isoformat` and `fromisoformat`: any exact text encoding of timestamps serves. */
  function IsoText(t: int): string { IntText(t) }

  function IsoValue(s: string): Option<int> { IntValue(s) }

  // ---- schedule arithmetic ----

  /** `INTERVALS`. */
  function Interval(t: ScheduleType): Option<int> {
    match t
    case Manual => None
    case Hourly => Some(HOUR)
    case Daily => Some(DAY)
    case Weekly => Some(WEEK)
    case Cron => None
  }

  /** When a watch with this schedule runs next after `from`, in microseconds. */
  ghost predicate RunsNext(t: ScheduleType, from: int, next: Option<int>) {
    match t
    case Hourly => next == Some(from + 60 * 60 * 1_000_000)
    case Daily => next == Some(from + 24 * 60 * 60 * 1_000_000)
    case Weekly => next == Some(from + 7 * 24 * 60 * 60 * 1_000_000)
    case _ => next == None
  }

  /** `_compute_cron_next`, a placeholder in the original too. */
  function ComputeCronNext(c: WatchConfiguration): Option<int> { None }

  function ComputeNextExecution(c: WatchConfiguration, reference: int): Option<int> {
    match Interval(c.scheduleType)
    case None => if c.scheduleType == Cron then ComputeCronNext(c) else None
    case Some(interval) => Some(reference + interval)
  }

  predicate IsDue(s: WatchSubscription, now: int) {
    s.status == Enabled && s.configuration.scheduleType != Manual && s.nextExecutionAt.Some?
        && now >= s.nextExecutionAt.value
  }

  function ScheduleInitial(s: WatchSubscription, now: int): Option<int> {
    if s.configuration.scheduleType == Manual then None else ComputeNextExecution(s.configuration, now)
  }

  function AfterExecution(s: WatchSubscription, executedAt: int): Option<int> {
    ComputeNextExecution(s.configuration, executedAt)
  }

  /** Both schedule computations give the time the interval names. */
  lemma SchedulesRunNext(s: WatchSubscription, from: int)
    ensures RunsNext(s.configuration.scheduleType, from, ScheduleInitial(s, from))
    ensures RunsNext(s.configuration.scheduleType, from, AfterExecution(s, from))
  {
  }

  // ---- building and merging ----

  function BuildWatchedProtocol(
    chainId: int, rootAddress: string, protocolName: string, registeredAt: int, metadata: Dict): WatchedProtocol {
    WatchedProtocol(WatchId(chainId, rootAddress), chainId, Lower(rootAddress), protocolName, registeredAt, metadata)
  }

  function BuildSubscription(
    p: WatchedProtocol, c: WatchConfiguration, status: WatchStatus, baseline: Option<Dict>, createdAt: int,
    updatedAt: int): WatchSubscription {
    WatchSubscription(p.watchId, p, c, status, baseline, None, None, createdAt, updatedAt)
  }

  /** The update wins, except that a missing cron expression or an empty timezone keeps the
      current one and metadata keys are merged. */
  function MergeConfiguration(current: WatchConfiguration, updated: WatchConfiguration): WatchConfiguration {
    WatchConfiguration(
      updated.scheduleType,
      if updated.cronExpression.Some? then updated.cronExpression else current.cronExpression,
      if updated.timezone != "" then updated.timezone else current.timezone,
      current.metadata + updated.metadata)
  }

  /** The update's schedule; its cron expression and its timezone where it gives one; and under
      every key the update's value where it has one. */
  ghost predicate MergedFrom(current: WatchConfiguration, update: WatchConfiguration, r: WatchConfiguration) {
    && r.scheduleType == update.scheduleType
    && (update.cronExpression.Some? ==> r.cronExpression == update.cronExpression)
    && (update.cronExpression.None? ==> r.cronExpression == current.cronExpression)
    && (update.timezone != "" ==> r.timezone == update.timezone)
    && (update.timezone == "" ==> r.timezone == current.timezone)
    && (forall k | k in update.metadata :: k in r.metadata && r.metadata[k] == update.metadata[k])
    && (forall k | k in current.metadata && k !in update.metadata ::
          k in r.metadata && r.metadata[k] == current.metadata[k])
    && (forall k | k in r.metadata :: k in current.metadata || k in update.metadata)
  }

  lemma MergeMeans(current: WatchConfiguration, update: WatchConfiguration)
    ensures MergedFrom(current, update, MergeConfiguration(current, update))
  {
  }

  /** `event_id`, over the hash function in use. */
  function EventId(digest: string -> string, watchId: string, t: EventType, timestamp: int): string {
    watchId + ":" + EventText(t) + ":" + digest(watchId + "|" + EventText(t) + "|" + IsoText(timestamp))
  }

  function Event(digest: string -> string, watchId: string, t: EventType, timestamp: int, metadata: Dict): WatchEvent {
    WatchEvent(EventId(digest, watchId, t, timestamp), t, watchId, timestamp, metadata)
  }

  lemma LastColonSplits(a: string, b: string, x: string, y: string)
    requires ':' !in x && ':' !in y && a + ":" + x == b + ":" + y
    ensures a == b && x == y
  {
    var s, t := a + ":" + x, b + ":" + y;
    assert s[|a|] == ':' && t[|b|] == ':';
    assert forall i | |a| < i < |s| :: s[i] == x[i - |a| - 1];
    assert forall i | |b| < i < |t| :: t[i] == y[i - |b| - 1];
    assert s[..|a|] == a && t[..|b|] == b && s[|a| + 1..] == x && t[|b| + 1..] == y;
  }

  lemma EventTextHasNoColon(t: EventType)
    ensures ':' !in EventText(t)
  {
  }

  /** Where digests have no colon, an event identifier tells watch and kind of the event, and
      two are equal exactly when these agree and the digests of all three parts do. */
  lemma EventIdTells(digest: string -> string, v: string, t: EventType, m: int, w: string, u: EventType, n: int)
    requires forall s :: ':' !in digest(s)
    ensures EventId(digest, v, t, m) == EventId(digest, w, u, n) <==>
            && v == w && t == u
            && digest(v + "|" + EventText(t) + "|" + IntText(m)) == digest(w + "|" + EventText(u) + "|" + IntText(n))
  {
    EventTextHasNoColon(t);
    EventTextHasNoColon(u);
    EventInverse(t);
    EventInverse(u);
    hide EventText, EventOf, IntText;
    if EventId(digest, v, t, m) == EventId(digest, w, u, n) {
      var x, y := digest(v + "|" + EventText(t) + "|" + IntText(m)), digest(w + "|" + EventText(u) + "|" + IntText(n));
      LastColonSplits(v + ":" + EventText(t), w + ":" + EventText(u), x, y);
      LastColonSplits(v, w, EventText(t), EventText(u));
    }
  }
}
