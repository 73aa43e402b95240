/** Aggregating an interval trace into public metrics: scripts/smoke/benchmark_schema.py,
    `metrics_from_evidence` and the validators of the metric models. */
module Metrics {
  import opened Search
  import opened OrderStatistics

  /** One measured interval as the runner records it; `None` and missing keys take defaults. */
  datatype Interval = Interval(
    admissionsPerSecond: Option<real>, requestFramesPerSecond: Option<real>, connectionsPerSecond: Option<real>,
    wireBytesPerSecond: Option<real>, bytesPerSecond: Option<real>, timeToSend1k: Option<real>,
    elapsedSeconds: Option<real>, latency: map<string, real>,
    accepted: int, requested: int, responses: int, connections: int, requestBytes: int, responseBytes: int,
    passed: bool)

  datatype Wire = Wire(request: int, response: int, total: int)

  datatype Metrics = Metrics(
    intervals: nat, passed: nat, accepted: int, requested: int, responses: int,
    connections: Option<int>, wire: Option<Wire>,
    admissions: Summary, requestFrames: Option<Summary>, connectionRate: Option<Summary>, wireRate: Option<Summary>,
    timeToSend: Summary, latency: Summary)

  function Or(v: Option<real>, default: real): real { if v.Some? then v.value else default }

  /** `latency_ms.get(name, latency_ms.get(fallback, 0.0))` */
  function Latency(i: Interval, name: string, fallback: Option<string>): real {
    if name in i.latency then i.latency[name]
    else if fallback.Some? && fallback.value in i.latency then i.latency[fallback.value] else 0.0
  }

  function Column(intervals: seq<Interval>, f: Interval -> real): (r: seq<real>)
    ensures |r| == |intervals| && forall k :: 0 <= k < |r| ==> r[k] == f(intervals[k])
  { seq(|intervals|, k requires 0 <= k < |intervals| => f(intervals[k])) }

  function Total(intervals: seq<Interval>, f: Interval -> int): int {
    if intervals == [] then 0 else Total(intervals[..|intervals| - 1], f) + f(intervals[|intervals| - 1])
  }

  function Accepted(i: Interval): int { i.accepted }

  function Requested(i: Interval): int { i.requested }

  function Responses(i: Interval): int { i.responses }

  function Connections(i: Interval): int { i.connections }

  function RequestBytes(i: Interval): int { i.requestBytes }

  function ResponseBytes(i: Interval): int { i.responseBytes }

  function AdmissionRate(i: Interval): real { Or(i.admissionsPerSecond, 0.0) }

  function Rates(intervals: seq<Interval>): seq<real> { Column(intervals, AdmissionRate) }

  /** The five latency columns, in the order of the summary. */
  function MinOf(i: Interval): real { Latency(i, "min", None) }
  function P50Of(i: Interval): real { Latency(i, "p50", None) }
  function P95Of(i: Interval): real { Latency(i, "p95", None) }
  function P99Of(i: Interval): real { Latency(i, "p99", Some("p95")) }
  function MaxOf(i: Interval): real { Latency(i, "max", None) }

  /** Least minimum, median of medians, 95th of 95ths, 99th of 99ths, greatest maximum. */
  function LatencyAggregate(intervals: seq<Interval>): Summary
    requires intervals != []
  {
    Summary(Minimum(Column(intervals, MinOf)), Median(Column(intervals, P50Of)),
            Percentile(Column(intervals, P95Of), 0.95), Percentile(Column(intervals, P99Of), 0.99),
            Maximum(Column(intervals, MaxOf)))
  }

  predicate OrderedLatency(i: Interval) { MinOf(i) <= P50Of(i) <= P95Of(i) <= P99Of(i) <= MaxOf(i) }

  /** If every interval's own latencies are ordered, the mixed aggregate is ordered too. */
  lemma LatencyAggregateOrdered(intervals: seq<Interval>)
    requires intervals != []
    requires forall k :: 0 <= k < |intervals| ==> OrderedLatency(intervals[k])
    ensures Ordered(LatencyAggregate(intervals))
  {
    hide Sort, Latency;
    var mins, p50s, p95s := Column(intervals, MinOf), Column(intervals, P50Of), Column(intervals, P95Of);
    var p99s, maxs, n := Column(intervals, P99Of), Column(intervals, MaxOf), |intervals|;
    assert forall k :: 0 <= k < n ==> OrderedLatency(intervals[k]);
    SortDominated(mins, p50s);
    SortDominated(p50s, p95s);
    SortDominated(p95s, p99s);
    SortDominated(p99s, maxs);
    SortIsSorted(p50s);
    SortIsSorted(p95s);
    SortIsSorted(p99s);
    SortIsSorted(maxs);
    MedianBetween(p50s);
    RanksIncrease(n);
  }

  // ---------------------------------------------------------------- the whole aggregation

  /** What the metric models accept: nothing negative, summaries ordered, totals consistent. */
  predicate SummaryOk(d: Summary) { 0.0 <= d.min && Ordered(d) }

  predicate OptionalOk(d: Option<Summary>) { d.Some? ==> SummaryOk(d.value) }

  predicate MetricsOk(m: Metrics) {
    && m.intervals > 0 && m.passed <= m.intervals
    && m.accepted >= 0 && m.requested >= 0 && m.responses >= 0
    && (m.connections.Some? ==> m.connections.value >= 0)
    && (m.wire.Some? ==> m.wire.value.request >= 0 && m.wire.value.response >= 0 &&
                         m.wire.value.total == m.wire.value.request + m.wire.value.response)
    && SummaryOk(m.admissions) && OptionalOk(m.requestFrames) && OptionalOk(m.connectionRate)
    && OptionalOk(m.wireRate) && SummaryOk(m.timeToSend) && SummaryOk(m.latency)
  }

  function PassedCount(intervals: seq<Interval>): (n: nat)
    ensures n <= |intervals|
  {
    if intervals == [] then 0
    else PassedCount(intervals[..|intervals| - 1]) + (if intervals[|intervals| - 1].passed then 1 else 0)
  }

  /** A missing rate falls back to the first interval's value of another column. */
  function Aggregate(intervals: seq<Interval>): Metrics
    requires intervals != []
  {
    var first := intervals[0];
    var request := Total(intervals, RequestBytes);
    var response := Total(intervals, ResponseBytes);
    Metrics(
      |intervals|, PassedCount(intervals), Total(intervals, Accepted), Total(intervals, Requested),
      Total(intervals, Responses), Some(Total(intervals, Connections)),
      Some(Wire(request, response, request + response)),
      Distribution(Rates(intervals)),
      Some(Distribution(Column(intervals, (i: Interval) => Or(i.requestFramesPerSecond, AdmissionRate(first))))),
      Some(Distribution(Column(intervals, (i: Interval) => Or(i.connectionsPerSecond, 0.0)))),
      Some(Distribution(Column(intervals, (i: Interval) => Or(i.wireBytesPerSecond, Or(first.bytesPerSecond, 0.0))))),
      Distribution(Column(intervals, (i: Interval) => Or(i.timeToSend1k, Or(first.elapsedSeconds, 0.0)))),
      LatencyAggregate(intervals))
  }

  datatype Aggregation = NoIntervals | Invalid | Valid(metrics: Metrics)

  /** `metrics_from_evidence` */
  function FromIntervals(intervals: seq<Interval>): Aggregation {
    if intervals == [] then NoIntervals
    else var m := Aggregate(intervals); if MetricsOk(m) then Valid(m) else Invalid
  }

  predicate RateOk(v: Option<real>) { v.Some? ==> v.value >= 0.0 }

  /** A sane interval: nothing negative, latencies ordered. */
  predicate Sane(i: Interval) {
    && RateOk(i.admissionsPerSecond) && RateOk(i.requestFramesPerSecond) && RateOk(i.connectionsPerSecond)
    && RateOk(i.wireBytesPerSecond) && RateOk(i.bytesPerSecond) && RateOk(i.timeToSend1k) && RateOk(i.elapsedSeconds)
    && i.accepted >= 0 && i.requested >= 0 && i.responses >= 0 && i.connections >= 0
    && i.requestBytes >= 0 && i.responseBytes >= 0
    && 0.0 <= MinOf(i) && OrderedLatency(i)
  }

  lemma {:induction false} TotalNonNegative(intervals: seq<Interval>, f: Interval -> int)
    requires forall k :: 0 <= k < |intervals| ==> f(intervals[k]) >= 0
    ensures Total(intervals, f) >= 0
  {
    if intervals == [] {
    } else {
      TotalNonNegative(intervals[..|intervals| - 1], f);
    }
  }

  lemma NonNegativeSummary(values: seq<real>)
    requires values != [] && forall k :: 0 <= k < |values| ==> values[k] >= 0.0
    ensures SummaryOk(Distribution(values))
  {
    DistributionOrdered(values);
    SortIsSorted(values);
    assert Sort(values)[0] in multiset(Sort(values));
    assert Sort(values)[0] in values;
  }

  lemma LatencyOk(intervals: seq<Interval>)
    requires intervals != [] && forall k :: 0 <= k < |intervals| ==> Sane(intervals[k])
    ensures SummaryOk(LatencyAggregate(intervals))
  {
    hide Latency, Sort;
    assert forall k :: 0 <= k < |intervals| ==> Sane(intervals[k]);
    LatencyAggregateOrdered(intervals);
    var mins := Column(intervals, MinOf);
    NonNegativeSummary(mins);
  }

  lemma CountersOk(intervals: seq<Interval>)
    requires intervals != [] && forall k :: 0 <= k < |intervals| ==> Sane(intervals[k])
    ensures var m := Aggregate(intervals);
            && m.accepted >= 0 && m.requested >= 0 && m.responses >= 0 && m.connections.value >= 0
            && m.wire.value.request >= 0 && m.wire.value.response >= 0
  {
    hide Total, Distribution, Column, LatencyAggregate, OrderedLatency, MinOf;
    TotalNonNegative(intervals, Accepted);
    TotalNonNegative(intervals, Requested);
    TotalNonNegative(intervals, Responses);
    TotalNonNegative(intervals, Connections);
    TotalNonNegative(intervals, RequestBytes);
    TotalNonNegative(intervals, ResponseBytes);
  }

  lemma RatesOk(intervals: seq<Interval>)
    requires intervals != [] && forall k :: 0 <= k < |intervals| ==> Sane(intervals[k])
    ensures var m := Aggregate(intervals);
            && SummaryOk(m.admissions) && SummaryOk(m.requestFrames.value) && SummaryOk(m.connectionRate.value)
            && SummaryOk(m.wireRate.value) && SummaryOk(m.timeToSend)
  {
    hide Total, Distribution, LatencyAggregate, SummaryOk, OrderedLatency, MinOf;
    var first := intervals[0];
    assert Sane(first);
    NonNegativeSummary(Rates(intervals));
    NonNegativeSummary(Column(intervals, (i: Interval) => Or(i.requestFramesPerSecond, AdmissionRate(first))));
    NonNegativeSummary(Column(intervals, (i: Interval) => Or(i.connectionsPerSecond, 0.0)));
    NonNegativeSummary(Column(intervals, (i: Interval) => Or(i.wireBytesPerSecond, Or(first.bytesPerSecond, 0.0))));
    NonNegativeSummary(Column(intervals, (i: Interval) => Or(i.timeToSend1k, Or(first.elapsedSeconds, 0.0))));
  }

  /** Sane intervals always pass the public schema. */
  lemma SaneIntervalsValidate(intervals: seq<Interval>)
    requires intervals != [] && forall k :: 0 <= k < |intervals| ==> Sane(intervals[k])
    ensures FromIntervals(intervals) == Valid(Aggregate(intervals))
  {
    hide Distribution, Column, LatencyAggregate, SummaryOk, Total, Sane;
    CountersOk(intervals);
    RatesOk(intervals);
    LatencyOk(intervals);
  }

  // ---------------------------------------------------------------- what the aggregate says

  /** One column of latencies: what is recorded under `name`, else under `fallback`, else zero. */
  predicate LatencyColumn(intervals: seq<Interval>, name: string, fallback: string, column: seq<real>) {
    && |column| == |intervals|
    && forall k :: 0 <= k < |intervals| ==>
         var recorded := intervals[k].latency;
         column[k] == if name in recorded then recorded[name]
                      else if fallback in recorded then recorded[fallback] else 0.0
  }

  lemma SameColumn(intervals: seq<Interval>, f: Interval -> real, column: seq<real>)
    requires |column| == |intervals| && forall k :: 0 <= k < |column| ==> column[k] == f(intervals[k])
    ensures Column(intervals, f) == column
  {
  }

  /** The mixed aggregate, component by component: least minimum, median of the medians, 95th of the
      95ths, 99th of the 99ths with the 95th where it is missing, greatest maximum. */
  lemma LatencyAggregateMeans(
    intervals: seq<Interval>, mins: seq<real>, p50s: seq<real>, p95s: seq<real>, p99s: seq<real>, maxs: seq<real>)
    requires intervals != []
    requires LatencyColumn(intervals, "min", "min", mins) && LatencyColumn(intervals, "p50", "p50", p50s)
    requires LatencyColumn(intervals, "p95", "p95", p95s) && LatencyColumn(intervals, "p99", "p95", p99s)
    requires LatencyColumn(intervals, "max", "max", maxs)
    ensures var d, n := LatencyAggregate(intervals), |intervals|;
            && Least(mins, d.min) && Middle(p50s, d.p50) && HasRank(p95s, n * 95 / 100, d.p95)
            && HasRank(p99s, n * 99 / 100, d.p99) && Greatest(maxs, d.max)
  {
    SameColumn(intervals, MinOf, mins);
    SameColumn(intervals, P50Of, p50s);
    SameColumn(intervals, P95Of, p95s);
    SameColumn(intervals, P99Of, p99s);
    SameColumn(intervals, MaxOf, maxs);
    hide Minimum, Median, Percentile, Maximum, Least, Middle, HasRank, Greatest, Column, LatencyColumn;
    var d := LatencyAggregate(intervals);
    LeastMeans(mins, d.min);
    MiddleMeans(p50s, d.p50);
    PercentMeans(p95s, 95, 0.95, d.p95);
    PercentMeans(p99s, 99, 0.99, d.p99);
    LeastMeans(maxs, d.max);
  }

  lemma {:induction false} TotalSplit(a: seq<Interval>, b: seq<Interval>, f: Interval -> int)
    ensures Total(a + b, f) == Total(a, f) + Total(b, f)
  {
    if b == [] {
      assert a + b == a;
    } else {
      var n := |b| - 1;
      assert (a + b)[..|a + b| - 1] == a + b[..n] && (a + b)[|a + b| - 1] == b[n];
      TotalSplit(a, b[..n], f);
    }
  }

  function PassedAt(intervals: seq<Interval>): set<nat> {
    set k: nat | k < |intervals| && intervals[k].passed
  }

  lemma {:induction false} PassedMeans(intervals: seq<Interval>)
    ensures PassedCount(intervals) == |PassedAt(intervals)|
  {
    if intervals == [] {
    } else {
      var n := |intervals| - 1;
      PassedMeans(intervals[..n]);
      assert PassedAt(intervals) == PassedAt(intervals[..n]) + (if intervals[n].passed then {n} else {});
    }
  }

  function Sum(counts: seq<int>): int { if counts == [] then 0 else counts[0] + Sum(counts[1..]) }

  lemma {:induction false} TotalIsSum(intervals: seq<Interval>, f: Interval -> int, counts: seq<int>)
    requires |counts| == |intervals| && forall k :: 0 <= k < |counts| ==> counts[k] == f(intervals[k])
    ensures Total(intervals, f) == Sum(counts)
    decreases |intervals|
  {
    if intervals == [] {
    } else {
      var head, tail := intervals[..1], intervals[1..];
      assert intervals == head + tail && head[..0] == [] && head[0] == intervals[0];
      TotalIsSum(tail, f, counts[1..]);
      TotalSplit(head, tail, f);
      assert Total(head, f) == f(intervals[0]);
    }
  }

  lemma CounterFields(intervals: seq<Interval>)
    requires intervals != []
    ensures var m := Aggregate(intervals);
            && m.intervals == |intervals| && m.passed == PassedCount(intervals)
            && m.accepted == Total(intervals, Accepted) && m.requested == Total(intervals, Requested)
            && m.responses == Total(intervals, Responses) && m.connections == Some(Total(intervals, Connections))
            && m.wire.Some? && m.wire.value.request == Total(intervals, RequestBytes)
            && m.wire.value.response == Total(intervals, ResponseBytes)
            && m.wire.value.total == m.wire.value.request + m.wire.value.response
  {
    hide Total, Distribution, Column, LatencyAggregate, PassedCount;
  }

  /** The counters of the aggregate are the sums of the intervals' counters. */
  lemma AggregateCounts(
    intervals: seq<Interval>, accepted: seq<int>, requested: seq<int>, responses: seq<int>, connections: seq<int>)
    requires intervals != [] && |intervals| == |accepted| == |requested| == |responses| == |connections|
    requires forall k :: 0 <= k < |intervals| ==> accepted[k] == intervals[k].accepted
    requires forall k :: 0 <= k < |intervals| ==> requested[k] == intervals[k].requested
    requires forall k :: 0 <= k < |intervals| ==> responses[k] == intervals[k].responses
    requires forall k :: 0 <= k < |intervals| ==> connections[k] == intervals[k].connections
    ensures var m := Aggregate(intervals);
            && m.intervals == |intervals| && m.passed == |PassedAt(intervals)|
            && m.accepted == Sum(accepted) && m.requested == Sum(requested) && m.responses == Sum(responses)
            && m.connections == Some(Sum(connections))
  {
    CounterFields(intervals);
    PassedMeans(intervals);
    hide Aggregate, Total, Sum, PassedCount, PassedAt;
    TotalIsSum(intervals, Accepted, accepted);
    TotalIsSum(intervals, Requested, requested);
    TotalIsSum(intervals, Responses, responses);
    TotalIsSum(intervals, Connections, connections);
  }

  lemma AggregateBytes(intervals: seq<Interval>, request: seq<int>, response: seq<int>)
    requires intervals != [] && |intervals| == |request| == |response|
    requires forall k :: 0 <= k < |intervals| ==> request[k] == intervals[k].requestBytes
    requires forall k :: 0 <= k < |intervals| ==> response[k] == intervals[k].responseBytes
    ensures Aggregate(intervals).wire ==
            Some(Wire(Sum(request), Sum(response), Sum(request) + Sum(response)))
  {
    CounterFields(intervals);
    hide Aggregate, Total, Sum;
    TotalIsSum(intervals, RequestBytes, request);
    TotalIsSum(intervals, ResponseBytes, response);
  }

  /** A recorded rate, or else the given default. */
  predicate Reads(value: real, recorded: Option<real>, default: Option<real>) {
    value == if recorded.Some? then recorded.value else if default.Some? then default.value else 0.0
  }

  /** The five rate columns; a missing rate of three of them is taken from the first interval. */
  predicate RateColumns(
    intervals: seq<Interval>, admissions: seq<real>, frames: seq<real>, connections: seq<real>, wire: seq<real>,
    send: seq<real>)
    requires intervals != []
  {
    && |intervals| == |admissions| == |frames| == |connections| == |wire| == |send|
    && forall k :: 0 <= k < |intervals| ==>
         && Reads(admissions[k], intervals[k].admissionsPerSecond, None)
         && Reads(frames[k], intervals[k].requestFramesPerSecond, intervals[0].admissionsPerSecond)
         && Reads(connections[k], intervals[k].connectionsPerSecond, None)
         && Reads(wire[k], intervals[k].wireBytesPerSecond, intervals[0].bytesPerSecond)
         && Reads(send[k], intervals[k].timeToSend1k, intervals[0].elapsedSeconds)
  }

  lemma RateColumnsAre(
    intervals: seq<Interval>, admissions: seq<real>, frames: seq<real>, connections: seq<real>, wire: seq<real>,
    send: seq<real>)
    requires intervals != [] && RateColumns(intervals, admissions, frames, connections, wire, send)
    ensures var m := Aggregate(intervals);
            && m.admissions == Distribution(admissions) && m.requestFrames == Some(Distribution(frames))
            && m.connectionRate == Some(Distribution(connections)) && m.wireRate == Some(Distribution(wire))
            && m.timeToSend == Distribution(send)
  {
    hide Distribution, Total, LatencyAggregate, PassedCount;
    var first := intervals[0];
    SameColumn(intervals, AdmissionRate, admissions);
    SameColumn(intervals, (i: Interval) => Or(i.requestFramesPerSecond, AdmissionRate(first)), frames);
    SameColumn(intervals, (i: Interval) => Or(i.connectionsPerSecond, 0.0), connections);
    SameColumn(intervals, (i: Interval) => Or(i.wireBytesPerSecond, Or(first.bytesPerSecond, 0.0)), wire);
    SameColumn(intervals, (i: Interval) => Or(i.timeToSend1k, Or(first.elapsedSeconds, 0.0)), send);
  }

  /** Each rate of the aggregate is the summary of its column. */
  lemma AggregateRates(
    intervals: seq<Interval>, admissions: seq<real>, frames: seq<real>, connections: seq<real>, wire: seq<real>,
    send: seq<real>)
    requires intervals != [] && RateColumns(intervals, admissions, frames, connections, wire, send)
    ensures var m := Aggregate(intervals);
            && SummaryOf(admissions, m.admissions)
            && m.requestFrames.Some? && SummaryOf(frames, m.requestFrames.value)
            && m.connectionRate.Some? && SummaryOf(connections, m.connectionRate.value)
            && m.wireRate.Some? && SummaryOf(wire, m.wireRate.value) && SummaryOf(send, m.timeToSend)
  {
    var m := Aggregate(intervals);
    RateColumnsAre(intervals, admissions, frames, connections, wire, send);
    assert admissions != [] && frames != [] && connections != [] && wire != [] && send != [];
    hide *;
    DistributionMeans(admissions, m.admissions);
    DistributionMeans(frames, m.requestFrames.value);
    DistributionMeans(connections, m.connectionRate.value);
    DistributionMeans(wire, m.wireRate.value);
    DistributionMeans(send, m.timeToSend);
  }

  lemma SummaryOkIff(values: seq<real>)
    requires values != []
    ensures SummaryOk(Distribution(values)) <==> AtLeast(0.0, values)
  {
    DistributionOrdered(values);
    hide Minimum, Ordered;
    ExtremesBound(values);
  }

  /** When the public schema takes the aggregate: no counter total and no rate is negative, and the
      aggregated latencies are ordered from zero up. */
  lemma ValidIff(
    intervals: seq<Interval>, admissions: seq<real>, frames: seq<real>, connections: seq<real>, wire: seq<real>,
    send: seq<real>)
    requires intervals != [] && RateColumns(intervals, admissions, frames, connections, wire, send)
    ensures FromIntervals(intervals).Valid? <==>
            var m := Aggregate(intervals);
            && m.accepted >= 0 && m.requested >= 0 && m.responses >= 0
            && m.connections.value >= 0 && m.wire.value.request >= 0 && m.wire.value.response >= 0
            && AtLeast(0.0, admissions) && AtLeast(0.0, frames) && AtLeast(0.0, connections)
            && AtLeast(0.0, wire) && AtLeast(0.0, send)
            && 0.0 <= m.latency.min <= m.latency.p50 <= m.latency.p95 <= m.latency.p99 <= m.latency.max
  {
    var m := Aggregate(intervals);
    CounterFields(intervals);
    RateColumnsAre(intervals, admissions, frames, connections, wire, send);
    assert admissions != [] && frames != [] && connections != [] && wire != [] && send != [];
    assert SummaryOk(m.latency) <==>
           0.0 <= m.latency.min <= m.latency.p50 <= m.latency.p95 <= m.latency.p99 <= m.latency.max;
    hide Aggregate, Distribution, SummaryOk, AtLeast, RateColumns, Total, PassedCount, Ordered;
    SummaryOkIff(admissions);
    SummaryOkIff(frames);
    SummaryOkIff(connections);
    SummaryOkIff(wire);
    SummaryOkIff(send);
  }
}
