/** Scanning one node: bounded retry around an analyser whose every attempt may fail. */
module NodeScans {
  import opened Text

  /** What aggregation reads of an analysis. */
  datatype Analysis = Analysis(
    riskScore: real, riskLevel: string, riskReasons: seq<string>, isContract: bool, isUpgradeable: bool)

  datatype Outcome = Analysed(analysis: Analysis) | Raised(message: string)

  /** What the analyser does: the outcome of each attempt on each address. */
  type Analyzer = (string, nat) -> Outcome

  datatype NodeScanStatus = Pending | Completed | Failed | Skipped

  datatype NodeScanResult = NodeScanResult(
    address: string, status: NodeScanStatus, analysis: Option<Analysis>, error: Option<string>, retryCount: nat)

  datatype Retried = Returned(analysis: Analysis, retryCount: nat) | Exhausted(message: string)

  /** The first of the attempts `k`, `k + 1`, ... below `limit` that returns, or `limit`. */
  function FirstReturn(analyze: Analyzer, a: string, k: nat, limit: nat): (r: nat)
    requires k <= limit
    ensures k <= r <= limit
    ensures forall j | k <= j < r :: analyze(a, j).Raised?
    ensures r < limit ==> analyze(a, r).Analysed?
    decreases limit - k
  {
    if k == limit || analyze(a, k).Analysed? then k else FirstReturn(analyze, a, k + 1, limit)
  }

  /** Some permitted attempt returns. */
  ghost predicate Succeeds(analyze: Analyzer, limit: nat, a: string) {
    exists k :: 0 <= k < limit && analyze(a, k).Analysed?
  }

  /** `execute_with_retry`: the first successful attempt and how many failed before it, or
      the last error once every permitted attempt has failed. */
  method ExecuteWithRetry(analyze: Analyzer, a: string, maxAttempts: nat) returns (r: Retried)
    requires maxAttempts >= 1
    ensures r.Returned? <==> Succeeds(analyze, maxAttempts, a)
    ensures r.Returned? ==>
              && r.retryCount < maxAttempts
              && analyze(a, r.retryCount) == Analysed(r.analysis)
              && forall j | 0 <= j < r.retryCount :: analyze(a, j).Raised?
    ensures r.Exhausted? ==> analyze(a, maxAttempts - 1) == Raised(r.message)
  {
    var lastError := "";
    for attempt := 0 to maxAttempts
      invariant forall j | 0 <= j < attempt :: analyze(a, j).Raised?
      invariant attempt > 0 ==> analyze(a, attempt - 1) == Raised(lastError)
    {
      match analyze(a, attempt)
      case Analysed(analysis) =>
        return Returned(analysis, attempt);
      case Raised(message) =>
        lastError := message;
    }
    return Exhausted(lastError);
  }

  /** The result of scanning `a`, whatever else is being scanned meanwhile. */
  function ScanOf(analyze: Analyzer, maxAttempts: nat, a: string): NodeScanResult
    requires maxAttempts >= 1
  {
    var k := FirstReturn(analyze, a, 0, maxAttempts);
    if k < maxAttempts
    then NodeScanResult(a, Completed, Some(analyze(a, k).analysis), None, k)
    else NodeScanResult(a, Failed, None, Some(analyze(a, maxAttempts - 1).message), maxAttempts - 1)
  }

  /** The analysis is that of the attempt after `retryCount` failed ones, and there is no error. */
  ghost predicate FirstSuccess(analyze: Analyzer, r: NodeScanResult) {
    && r.analysis.Some? && r.error.None?
    && analyze(r.address, r.retryCount) == Analysed(r.analysis.value)
    && forall j | 0 <= j < r.retryCount :: analyze(r.address, j).Raised?
  }

  /** The error is that of the last permitted attempt; all but one count as retries. */
  ghost predicate LastFailure(analyze: Analyzer, maxAttempts: nat, r: NodeScanResult) {
    && r.analysis.None? && r.error.Some? && r.retryCount == maxAttempts - 1
    && analyze(r.address, r.retryCount) == Raised(r.error.value)
  }

  lemma ScanOutcome(analyze: Analyzer, maxAttempts: nat, a: string)
    requires maxAttempts >= 1
    ensures var r := ScanOf(analyze, maxAttempts, a);
            && r.address == a && r.retryCount + 1 <= maxAttempts
            && (r.status == Completed <==> Succeeds(analyze, maxAttempts, a))
            && (r.status == Failed <==> !Succeeds(analyze, maxAttempts, a))
            && (r.status == Completed <==> r.analysis.Some?)
            && (r.status == Completed ==> FirstSuccess(analyze, r))
            && (r.status == Failed ==> LastFailure(analyze, maxAttempts, r))
  {
  }

  /** `NodeScanWorker.scan`. */
  method Scan(analyze: Analyzer, maxAttempts: nat, a: string) returns (r: NodeScanResult)
    requires maxAttempts >= 1
    ensures r == ScanOf(analyze, maxAttempts, a)
  {
    var retried := ExecuteWithRetry(analyze, a, maxAttempts);
    match retried
    case Returned(analysis, retryCount) =>
      r := NodeScanResult(a, Completed, Some(analysis), None, retryCount);
    case Exhausted(message) =>
      r := NodeScanResult(a, Failed, None, Some(message), if maxAttempts - 1 > 0 then maxAttempts - 1 else 0);
  }

  /** `NodeScanWorker.skipped`. */
  function SkippedResult(a: string, reason: string): NodeScanResult {
    NodeScanResult(a, Skipped, None, Some(reason), 0)
  }

  function PendingResult(a: string): NodeScanResult {
    NodeScanResult(a, Pending, None, None, 0)
  }

  /** `NodeScanWorker.merge_result`: everything from the update but the address. */
  function MergeResult(current: NodeScanResult, updated: NodeScanResult): NodeScanResult {
    current.(status := updated.status, analysis := updated.analysis, error := updated.error,
             retryCount := updated.retryCount)
  }
}
