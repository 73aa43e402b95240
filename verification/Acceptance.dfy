/** From raw trace to published verdict: scripts/smoke/benchmark_policy.py (`classify_status`),
    scripts/smoke/benchmark_schema.py (result and campaign validators) and
    scripts/smoke/admission_capacity_support.py (`v4_result_from_evidence`, `write_v4_evidence`). */
module Acceptance {
  import opened Search
  import opened OrderStatistics
  import opened Metrics

  datatype Status = Pass | Fail | Incomplete

  datatype Target = Sqlite | Uds | Tcp | TcpTls

  datatype Os = MacOs | Windows | Linux

  // ---------------------------------------------------------------- the two decisions

  /** `classify_status` for one target. */
  function ClassifyTarget(complete: bool, requested: int, admitted: int, durable: int,
                          p50: Option<real>, floor: real): Status {
    if !complete || p50.None? then Incomplete
    else if requested == admitted == durable && p50.value >= floor then Pass
    else Fail
  }

  /** `classify_status` for a campaign. */
  function ClassifyCampaign(required: set<Target>, observed: set<Target>, statuses: seq<Status>): Status {
    if observed != required then Incomplete
    else if Incomplete in statuses then Incomplete
    else if Fail in statuses then Fail
    else Pass
  }

  function RequiredTargets(os: Os): set<Target> {
    if os == Windows then {Sqlite, Tcp, TcpTls} else {Sqlite, Tcp, TcpTls, Uds}
  }

  // ---------------------------------------------------------------- results

  /** What a runner's trace says about one lane. An empty `failure` means none was recorded;
      `mailbox` is the count observed after the restart, if that stage was reached. */
  datatype Evidence = Evidence(
    intervals: seq<Interval>, mailbox: Option<nat>, failure: string, frames: int, passed: bool)

  datatype Context = Context(target: Target, floor: real)

  datatype RunResult = RunResult(
    target: Target, status: Status, reason: Option<string>, frames: int,
    requested: int, admitted: int, durable: int,
    metrics: Option<Metrics>, floor: real, mailbox: Option<nat>)

  predicate NetworkAbsent(m: Metrics) {
    m.wire.None? && m.requestFrames.None? && m.connectionRate.None? && m.wireRate.None?
  }

  predicate NetworkPresent(m: Metrics) {
    m.wire.Some? && m.requestFrames.Some? && m.connectionRate.Some? && m.wireRate.Some?
  }

  function P50(metrics: Option<Metrics>): Option<real> {
    if metrics.Some? then Some(metrics.value.admissions.p50) else None
  }

  function Derived(r: RunResult): Status {
    ClassifyTarget(r.metrics.Some? && r.mailbox.Some?, r.requested, r.admitted, r.durable, P50(r.metrics), r.floor)
  }

  /** `BenchmarkRunResult.consistent_status_and_target_shape` */
  predicate Validates(r: RunResult) {
    && (r.status == Incomplete <==> r.reason.Some?)
    && (r.status == Pass ==> r.admitted <= r.requested && r.durable <= r.admitted)
    && (if r.target == Sqlite then r.frames == 0 else r.frames > 0)
    && (r.metrics.Some? ==>
          if r.target == Sqlite then NetworkAbsent(r.metrics.value) else NetworkPresent(r.metrics.value))
    && r.status == Derived(r)
  }

  /** Direct storage has no network to measure. */
  function StripNetwork(m: Metrics): Metrics {
    m.(connections := None, wire := None, requestFrames := None, connectionRate := None, wireRate := None)
  }

  /** A SmokeError, a ValueError, or a value. */
  datatype Build = SmokeError | ValueError | Built(result: RunResult)

  function Complete(ev: Evidence): bool { ev.intervals != [] && ev.mailbox.Some? }

  /** The value handed to the model before it validates: lines 275-336. */
  function Draft(ev: Evidence, ctx: Context): RunResult {
    var aggregated := FromIntervals(ev.intervals);
    var metrics := match aggregated
                   case Valid(m) => Some(if ctx.target == Sqlite then StripNetwork(m) else m)
                   case _ => None;
    var requested := if metrics.Some? then metrics.value.requested else 0;
    var admitted := if metrics.Some? then metrics.value.accepted else 0;
    var durable := if ev.mailbox.Some? then ev.mailbox.value else 0;
    var complete := metrics.Some? && ev.mailbox.Some?;
    var classified := ClassifyTarget(complete, requested, admitted, durable, P50(metrics), ctx.floor);
    RunResult(
      ctx.target, if ev.failure != "" && classified == Fail then Incomplete else classified,
      if ev.failure != "" then Some(ev.failure)
      else if complete then None else Some("benchmark did not complete every lifecycle stage"),
      if ctx.target == Sqlite then 0 else ev.frames,
      requested, admitted, durable, metrics, ctx.floor, ev.mailbox)
  }

  /** `v4_result_from_evidence` */
  function BuildResult(ev: Evidence, ctx: Context): Build {
    if FromIntervals(ev.intervals).Invalid? then SmokeError
    else var draft := Draft(ev, ctx); if Validates(draft) then Built(draft) else ValueError
  }

  const VIOLATION := "count invariant violation (real counts are recorded)"
  const RELABELLED := "count invariant violation"

  /** Lines 352-359: a FAIL with more durable than admitted messages is relabelled by copying,
      which does not validate the copy. */
  predicate NeedsRelabel(r: RunResult) { r.status == Fail && r.durable > r.admitted }

  function Relabel(r: RunResult): RunResult {
    if NeedsRelabel(r) then r.(status := Incomplete, reason := Some(RELABELLED)) else r
  }

  /** One lane of a campaign: its mutable trace and the artifact it publishes. */
  class Lane {
    var evidence: Evidence
    var published: Option<RunResult>

    constructor (evidence: Evidence)
      ensures this.evidence == evidence && published == None
    {
      this.evidence, published := evidence, None;
    }

    /** `write_v4_evidence`: publishes nothing when it raises. */
    method WriteEvidence(ctx: Context) returns (outcome: Build)
      modifies this
      ensures outcome.Built? <==> Publishes(old(evidence), ctx)
      ensures outcome.Built? ==> outcome.result == Relabel(Draft(old(evidence), ctx))
      ensures outcome.Built? ==> published == Some(outcome.result) && evidence == old(evidence)
      ensures !outcome.Built? ==> published == old(published)
      ensures outcome.ValueError? ==> evidence == old(evidence).(passed := false, failure := VIOLATION)
      ensures outcome.SmokeError? ==> evidence == old(evidence)
    {
      hide FromIntervals, Draft, Validates;
      PublishesExactly(evidence, ctx);
      var first := BuildResult(evidence, ctx);
      if first.SmokeError? { return SmokeError; }
      if first.ValueError? {
        RetryNeverHelps(evidence, ctx);
        evidence := evidence.(passed := false, failure := VIOLATION);
        first := BuildResult(evidence, ctx);
        if !first.Built? { return first; }
      }
      var result := first.result;
      if result.status == Fail && result.durable > result.admitted {
        result := result.(status := Incomplete, reason := Some(RELABELLED));
      }
      published := Some(result);
      outcome := Built(result);
    }
  }

  // ---------------------------------------------------------------- when something is published

  predicate FramesOk(ev: Evidence, ctx: Context) { ctx.target == Sqlite || ev.frames > 0 }

  /** The exact condition for an artifact: sane metrics and frames, and not both a recorded
      failure and a finished lifecycle. */
  predicate Publishes(ev: Evidence, ctx: Context) {
    !FromIntervals(ev.intervals).Invalid? && FramesOk(ev, ctx) && !(Complete(ev) && ev.failure != "")
  }

  lemma AggregateShape(intervals: seq<Interval>)
    requires intervals != []
    ensures NetworkPresent(Aggregate(intervals)) && NetworkAbsent(StripNetwork(Aggregate(intervals)))
    ensures Aggregate(intervals).requested == Total(intervals, Requested)
    ensures Aggregate(intervals).accepted == Total(intervals, Accepted)
    ensures Aggregate(intervals).admissions.p50 == Median(Rates(intervals))
  {
    hide Total, Column, Median, Percentile, LatencyAggregate;
  }

  /** The draft's fields in terms of the trace. */
  lemma DraftFacts(ev: Evidence, ctx: Context)
    requires !FromIntervals(ev.intervals).Invalid?
    ensures var d := Draft(ev, ctx);
            && (d.metrics.Some? <==> ev.intervals != [])
            && (d.metrics.Some? ==> d.requested == Total(ev.intervals, Requested) &&
                                    d.admitted == Total(ev.intervals, Accepted) &&
                                    P50(d.metrics) == Some(Median(Rates(ev.intervals))))
            && (d.metrics.Some? ==> if ctx.target == Sqlite then NetworkAbsent(d.metrics.value)
                                    else NetworkPresent(d.metrics.value))
  {
    hide Aggregate, MetricsOk, Total, Rates, Median, NetworkAbsent, NetworkPresent;
    if ev.intervals != [] { AggregateShape(ev.intervals); }
  }

  lemma PublishesExactly(ev: Evidence, ctx: Context)
    ensures BuildResult(ev, ctx).Built? <==> Publishes(ev, ctx)
    ensures BuildResult(ev, ctx).Built? ==> BuildResult(ev, ctx).result == Draft(ev, ctx)
  {
    hide FromIntervals, Total, Rates, Median, NetworkAbsent, NetworkPresent;
    if !FromIntervals(ev.intervals).Invalid? {
      DraftFacts(ev, ctx);
    }
  }

  lemma ReasonGiven()
    ensures VIOLATION != ""
  {
    assert |VIOLATION| > 0;
  }

  /** The retry after a failed validation can never publish: the reason it adds makes a complete
      lifecycle inconsistent again, and it does not touch the frames. */
  lemma RetryNeverHelps(ev: Evidence, ctx: Context)
    requires BuildResult(ev, ctx).ValueError?
    ensures BuildResult(ev.(passed := false, failure := VIOLATION), ctx).ValueError?
  {
    hide FromIntervals, Draft, Validates;
    PublishesExactly(ev, ctx);
    var retry := ev.(passed := false, failure := VIOLATION);
    PublishesExactly(retry, ctx);
    ReasonGiven();
  }

  // ---------------------------------------------------------------- what a published verdict means

  /** Everything requested was admitted and found in the mailbox after the restart, at or above
      the reviewed floor, and no failure was recorded. */
  predicate Genuine(ev: Evidence, ctx: Context) {
    && ev.intervals != [] && ev.failure == ""
    && ev.mailbox == Some(Total(ev.intervals, Requested)) == Some(Total(ev.intervals, Accepted))
    && Median(Rates(ev.intervals)) >= ctx.floor
  }

  /** The verdict of a published lane, from the raw trace alone. */
  lemma PublishedVerdict(ev: Evidence, ctx: Context)
    requires Publishes(ev, ctx)
    ensures var r := Relabel(Draft(ev, ctx));
            && r.target == ctx.target
            && (r.status == Pass <==> Genuine(ev, ctx))
            && (ev.failure != "" ==> r.status == Incomplete)
            && (r.status == Fail <==>
                Complete(ev) && !Genuine(ev, ctx) && ev.mailbox.value <= Total(ev.intervals, Accepted))
  {
    hide FromIntervals, Total, Rates, Median;
    DraftFacts(ev, ctx);
  }

  /** Everything else a published lane says, from the raw trace: counts, frames, and metrics, which
      for direct storage leave out what only a network has. */
  lemma PublishedFields(ev: Evidence, ctx: Context)
    requires Publishes(ev, ctx)
    ensures var r := Relabel(Draft(ev, ctx));
            && r.floor == ctx.floor && r.mailbox == ev.mailbox
            && r.frames == (if ctx.target == Sqlite then 0 else ev.frames)
            && r.durable == (if ev.mailbox.Some? then ev.mailbox.value else 0)
            && (r.reason.Some? <==> r.status == Incomplete)
            && (ev.failure != "" ==> r.reason == Some(ev.failure))
    ensures var r := Relabel(Draft(ev, ctx));
            if ev.intervals == [] then r.metrics == None && r.requested == r.admitted == 0
            else
              var m := Aggregate(ev.intervals);
              && r.metrics.Some? && r.requested == m.requested && r.admitted == m.accepted
              && (ctx.target != Sqlite ==> r.metrics.value == m)
              && (ctx.target == Sqlite ==>
                    r.metrics.value == Metrics(m.intervals, m.passed, m.accepted, m.requested, m.responses, None, None,
                                               m.admissions, None, None, None, m.timeToSend, m.latency))
  {
    hide Aggregate, MetricsOk, Total, Rates, Median, NetworkAbsent, NetworkPresent;
    DraftFacts(ev, ctx);
  }

  /** A published result satisfies its own validator exactly when it was not relabelled. */
  lemma RelabelledResultsDoNotValidate(ev: Evidence, ctx: Context)
    requires Publishes(ev, ctx)
    ensures Validates(Relabel(Draft(ev, ctx))) <==> !NeedsRelabel(Draft(ev, ctx))
  {
    hide FromIntervals, Draft;
    PublishesExactly(ev, ctx);
  }

  /** One request, admitted; nothing else measured. */
  const ONE_ADMISSION := Interval(None, None, None, None, None, None, None, map[], 1, 1, 1, 1, 0, 0, true)

  lemma OneAdmissionIsSane()
    ensures Sane(ONE_ADMISSION) && FromIntervals([ONE_ADMISSION]) == Valid(Aggregate([ONE_ADMISSION]))
    ensures Total([ONE_ADMISSION], Accepted) == 1
  {
    hide Aggregate, MetricsOk;
    SaneIntervalsValidate([ONE_ADMISSION]);
    assert [ONE_ADMISSION][..0] == [];
  }

  /** Such results are published: one admission, a mailbox that holds more. */
  lemma OvercountedLaneIsRelabelled(mailbox: nat, target: Target, floor: real)
    requires mailbox > 1
    ensures var ev := Evidence([ONE_ADMISSION], Some(mailbox), "", 1, true);
            var ctx := Context(target, floor);
            && Publishes(ev, ctx) && NeedsRelabel(Draft(ev, ctx)) && !Validates(Relabel(Draft(ev, ctx)))
  {
    hide FromIntervals, Total, Rates, Median, Validates;
    var ev := Evidence([ONE_ADMISSION], Some(mailbox), "", 1, true);
    var ctx := Context(target, floor);
    OneAdmissionIsSane();
    DraftFacts(ev, ctx);
    RelabelledResultsDoNotValidate(ev, ctx);
  }

  /** And some first attempts do fail: a finished lane with a recorded failure. */
  lemma FinishedLaneWithFailureRaises(mailbox: nat, failure: string, target: Target, floor: real)
    requires failure != ""
    ensures BuildResult(Evidence([ONE_ADMISSION], Some(mailbox), failure, 1, true), Context(target, floor)).ValueError?
  {
    hide FromIntervals, Draft, Validates;
    OneAdmissionIsSane();
    PublishesExactly(Evidence([ONE_ADMISSION], Some(mailbox), failure, 1, true), Context(target, floor));
  }

  // ---------------------------------------------------------------- campaigns

  datatype Campaign = Campaign(os: Os, results: seq<RunResult>, status: Status)

  function TargetList(results: seq<RunResult>): (ts: seq<Target>)
    ensures |ts| == |results| && forall i :: 0 <= i < |ts| ==> ts[i] == results[i].target
  { seq(|results|, i requires 0 <= i < |results| => results[i].target) }

  function Elements(ts: seq<Target>): set<Target> { set t | t in ts }

  function TargetsOf(results: seq<RunResult>): set<Target> { Elements(TargetList(results)) }

  function StatusesOf(results: seq<RunResult>): (s: seq<Status>)
    ensures |s| == |results| && forall i :: 0 <= i < |s| ==> s[i] == results[i].status
  { seq(|results|, i requires 0 <= i < |results| => results[i].status) }

  /** `BenchmarkCampaign.complete_matrix_has_derived_status`; results of one run share its
      identity and host by construction. */
  predicate CampaignValidates(c: Campaign) {
    && |TargetsOf(c.results)| == |c.results|
    && c.status == ClassifyCampaign(RequiredTargets(c.os), TargetsOf(c.results), StatusesOf(c.results))
  }

  datatype Trace = Trace(evidence: Evidence, context: Context)

  function PublishedAll(lanes: seq<Trace>): (r: seq<RunResult>)
    ensures |r| == |lanes|
    ensures forall i :: 0 <= i < |r| ==> r[i] == Relabel(Draft(lanes[i].evidence, lanes[i].context))
  { seq(|lanes|, i requires 0 <= i < |lanes| => Relabel(Draft(lanes[i].evidence, lanes[i].context))) }

  /** Every required target is present, and no target twice. */
  ghost predicate CoversMatrix(os: Os, lanes: seq<Trace>) {
    (forall t :: HasLane(lanes, t) <==> (t == Uds ==> os != Windows)) && DistinctTargets(lanes)
  }

  predicate HasLane(lanes: seq<Trace>, t: Target) {
    exists i :: 0 <= i < |lanes| && lanes[i].context.target == t
  }

  predicate DistinctTargets(lanes: seq<Trace>) {
    forall i, j :: 0 <= i < j < |lanes| ==> lanes[i].context.target != lanes[j].context.target
  }

  lemma RequiredMeans(os: Os, t: Target)
    ensures t in RequiredTargets(os) <==> (t == Uds ==> os != Windows)
  {
  }

  predicate AllDistinct(ts: seq<Target>) { forall i, j :: 0 <= i < j < |ts| ==> ts[i] != ts[j] }

  lemma {:induction false} DistinctCardinality(ts: seq<Target>)
    ensures |Elements(ts)| <= |ts|
    ensures |Elements(ts)| == |ts| <==> AllDistinct(ts)
  {
    if ts == [] {
    } else {
      var n := |ts| - 1;
      var init, last := ts[..n], ts[n];
      DistinctCardinality(init);
      assert ts == init + [last];
      assert Elements(ts) == Elements(init) + {last};
      if last in init {
        assert Elements(ts) == Elements(init);
        var i :| 0 <= i < n && init[i] == last;
        assert ts[i] == ts[n];
      } else {
        DistinctSnoc(init, last);
      }
    }
  }

  lemma DistinctSnoc(init: seq<Target>, last: Target)
    requires last !in init
    ensures AllDistinct(init + [last]) <==> AllDistinct(init)
  {
    if AllDistinct(init + [last]) {
      forall i, j | 0 <= i < j < |init| ensures init[i] != init[j] {
        assert (init + [last])[i] != (init + [last])[j];
      }
    }
  }

  /** A campaign of published lanes validates as PASS if and only if it covers the required
      matrix exactly once and every lane is genuine. */
  lemma CampaignPassesIff(os: Os, lanes: seq<Trace>)
    requires forall i :: 0 <= i < |lanes| ==> Publishes(lanes[i].evidence, lanes[i].context)
    ensures CampaignValidates(Campaign(os, PublishedAll(lanes), Pass)) <==>
            CoversMatrix(os, lanes) && forall i :: 0 <= i < |lanes| ==> Genuine(lanes[i].evidence, lanes[i].context)
  {
    hide FromIntervals, Total, Rates, Median, Draft, Publishes, Genuine, Relabel, RequiredTargets;
    var results := PublishedAll(lanes);
    forall i | 0 <= i < |lanes|
      ensures results[i].target == lanes[i].context.target
      ensures results[i].status == Pass <==> Genuine(lanes[i].evidence, lanes[i].context)
    {
      PublishedVerdict(lanes[i].evidence, lanes[i].context);
    }
    DistinctCardinality(TargetList(results));
    MatrixBySet(os, lanes, results);
    StatusesAllPass(results);
  }

  lemma MatrixBySet(os: Os, lanes: seq<Trace>, results: seq<RunResult>)
    requires |results| == |lanes|
    requires forall i :: 0 <= i < |lanes| ==> results[i].target == lanes[i].context.target
    ensures CoversMatrix(os, lanes) <==>
            TargetsOf(results) == RequiredTargets(os) && AllDistinct(TargetList(results))
    ensures DistinctTargets(lanes) <==> AllDistinct(TargetList(results))
  {
    forall t ensures t in RequiredTargets(os) <==> (t == Uds ==> os != Windows) { RequiredMeans(os, t); }
    hide RequiredTargets;
    var ts := TargetList(results);
    forall t ensures t in ts <==> HasLane(lanes, t) {
      if i :| 0 <= i < |lanes| && lanes[i].context.target == t { assert ts[i] == t; }
    }
    forall t ensures t in TargetsOf(results) <==> HasLane(lanes, t) { assert t in ts <==> HasLane(lanes, t); }
    hide HasLane;
    if CoversMatrix(os, lanes) {
      forall t ensures t in TargetsOf(results) <==> t in RequiredTargets(os) { assert t in ts <==> HasLane(lanes, t); }
    }
    if TargetsOf(results) == RequiredTargets(os) {
      forall t ensures HasLane(lanes, t) <==> (t == Uds ==> os != Windows) {
        assert t in TargetsOf(results) <==> t in RequiredTargets(os);
      }
    }
  }

  lemma StatusesAllPass(results: seq<RunResult>)
    ensures Incomplete !in StatusesOf(results) && Fail !in StatusesOf(results) <==>
            forall i :: 0 <= i < |results| ==> results[i].status == Pass
  {
    var s := StatusesOf(results);
    if Incomplete !in s && Fail !in s {
      forall i | 0 <= i < |results| ensures results[i].status == Pass { assert s[i] in s; }
    }
  }

  /** A lane that did not reach its end, or found more messages than were admitted. */
  predicate Unsettled(ev: Evidence) {
    ev.intervals == [] || ev.mailbox.None? || ev.mailbox.value > Total(ev.intervals, Accepted)
  }

  /** INCOMPLETE outranks FAIL, and FAIL outranks PASS. */
  ghost function Verdict(os: Os, lanes: seq<Trace>): Status {
    if !CoversMatrix(os, lanes) || exists i :: 0 <= i < |lanes| && Unsettled(lanes[i].evidence) then Incomplete
    else if exists i :: 0 <= i < |lanes| && !Genuine(lanes[i].evidence, lanes[i].context) then Fail
    else Pass
  }

  lemma StatusMembers(results: seq<RunResult>, status: Status)
    ensures status in StatusesOf(results) <==> exists i :: 0 <= i < |results| && results[i].status == status
  {
    var s := StatusesOf(results);
    if i :| 0 <= i < |results| && results[i].status == status { assert s[i] in s; }
  }

  /** The one status under which a campaign of published lanes validates, from the raw traces. */
  lemma CampaignVerdict(os: Os, lanes: seq<Trace>, status: Status)
    requires forall i :: 0 <= i < |lanes| ==> Publishes(lanes[i].evidence, lanes[i].context)
    ensures CampaignValidates(Campaign(os, PublishedAll(lanes), status)) <==>
            DistinctTargets(lanes) && status == Verdict(os, lanes)
  {
    hide FromIntervals, Total, Rates, Median, Draft, Relabel, RequiredTargets;
    var results := PublishedAll(lanes);
    forall i | 0 <= i < |lanes|
      ensures results[i].target == lanes[i].context.target
      ensures results[i].status == Pass <==> Genuine(lanes[i].evidence, lanes[i].context)
      ensures results[i].status == Incomplete <==> Unsettled(lanes[i].evidence)
    {
      PublishedVerdict(lanes[i].evidence, lanes[i].context);
    }
    hide Genuine, Unsettled, Publishes, StatusesOf, CoversMatrix, AllDistinct, DistinctTargets;
    DistinctCardinality(TargetList(results));
    MatrixBySet(os, lanes, results);
    StatusMembers(results, Incomplete);
    StatusMembers(results, Fail);
  }
}
