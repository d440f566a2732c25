// Merging the workers' end-of-test summaries: request totals and weighted latencies.
module SummaryMerge {
  import opened K6Metrics
  import opened WeightedMeans

  // ------------------------------------------------ latencies

  datatype Latency = Latency(stats: Stats, min: real, max: real)

  /** What one worker reports for a metric. */
  function Reported(x: Metrics, metric: Metric): Stats {
    Stats(Val(x, metric, AvgOf), Val(x, metric, MedOf), Val(x, metric, P90Of), Val(x, metric, P95Of),
          Val(x, metric, P99Of))
  }

  /** A worker's weight: its count of the weight metric, else of all requests, else one. */
  function WeightOf(m: Metrics, weightMetric: Metric): (w: real)
    ensures w > 0.0
  {
    if Val(m, weightMetric, Count) > 0.0 then Val(m, weightMetric, Count)
    else if Val(m, HttpReqs, Count) > 0.0 then Val(m, HttpReqs, Count)
    else 1.0
  }

  /** The workers that have the metric. */
  function Contributing(xs: seq<Metrics>, metric: Metric): seq<Metrics> {
    if xs == [] then []
    else
      var rest := Contributing(xs[..|xs| - 1], metric);
      if metric in xs[|xs| - 1] then rest + [xs[|xs| - 1]] else rest
  }

  function Rows(xs: seq<Metrics>, metric: Metric, weightMetric: Metric): (rows: seq<Row>)
    ensures |rows| == |xs| && PositiveRows(rows)
    ensures forall i :: 0 <= i < |xs| ==> rows[i].stats == Reported(xs[i], metric)
  {
    seq(|xs|, i requires 0 <= i < |xs| => Row(Reported(xs[i], metric), WeightOf(xs[i], weightMetric)))
  }

  predicate UsesMin(metric: Metric, min: real) {
    min >= 0.0 && (metric == HttpReqDuration || metric == BusinessDuration ==> min > 0.0)
  }

  ghost predicate Extremes(xs: seq<Metrics>, metric: Metric, min: real, max: real, minSet: bool) {
    && (minSet <==> exists x :: x in xs && UsesMin(metric, Val(x, metric, MinOf)))
    && (minSet ==> exists x :: x in xs && UsesMin(metric, Val(x, metric, MinOf)) && Val(x, metric, MinOf) == min)
    && (forall x :: x in xs && UsesMin(metric, Val(x, metric, MinOf)) ==> min <= Val(x, metric, MinOf))
    && (!minSet ==> min == 0.0)
    && max >= 0.0 && (forall x :: x in xs ==> Val(x, metric, MaxOf) <= max)
    && (max == 0.0 || exists x :: x in xs && Val(x, metric, MaxOf) == max)
  }

  method AddExtremes(x: Metrics, metric: Metric, min: real, max: real, minSet: bool, ghost xs: seq<Metrics>)
    returns (min': real, max': real, minSet': bool)
    requires Extremes(xs, metric, min, max, minSet)
    ensures Extremes(xs + [x], metric, min', max', minSet')
  {
    min', max', minSet' := min, max, minSet;
    if UsesMin(metric, Val(x, metric, MinOf)) && (!minSet || Val(x, metric, MinOf) < min) {
      min', minSet' := Val(x, metric, MinOf), true;
    }
    if Val(x, metric, MaxOf) > max {
      max' := Val(x, metric, MaxOf);
    }
    assert forall y :: y in xs + [x] <==> y in xs || y == x;
  }

  method RowOf(x: Metrics, metric: Metric, weightMetric: Metric) returns (row: Row)
    ensures row == Row(Reported(x, metric), WeightOf(x, weightMetric))
  {
    var weight := Val(x, weightMetric, Count);
    if weight <= 0.0 {
      weight := Val(x, HttpReqs, Count);
    }
    if weight <= 0.0 {
      weight := 1.0;
    }
    row := Row(Reported(x, metric), weight);
  }

  /** The loop's variables after the summaries `xs`. */
  datatype Progress = Progress(found: bool, weighted: Stats, totalW: real, minV: real, maxV: real, minSet: bool)

  ghost predicate Reached(xs: seq<Metrics>, metric: Metric, weightMetric: Metric, p: Progress) {
    && (p.found <==> Contributing(xs, metric) != [])
    && Summed(Rows(Contributing(xs, metric), metric, weightMetric), p.weighted, p.totalW)
    && Extremes(Contributing(xs, metric), metric, p.minV, p.maxV, p.minSet)
  }

  lemma ContributingAppend(xs: seq<Metrics>, x: Metrics, metric: Metric)
    ensures Contributing(xs + [x], metric) == if metric in x then Contributing(xs, metric) + [x]
                                              else Contributing(xs, metric)
  {
    assert (xs + [x])[..|xs|] == xs;
  }

  /** weightedLatency: one worker's statistics added to the sums. */
  method AddStatistics(sums: Stats, total: real, x: Metrics, metric: Metric, weightMetric: Metric,
                       ghost before: seq<Metrics>) returns (newSums: Stats, newTotal: real)
    requires Summed(Rows(before, metric, weightMetric), sums, total)
    ensures Summed(Rows(before + [x], metric, weightMetric), newSums, newTotal)
  {
    var row := RowOf(x, metric, weightMetric);
    SummedAppend(Rows(before, metric, weightMetric), row, sums, total);
    assert Rows(before + [x], metric, weightMetric) == Rows(before, metric, weightMetric) + [row];
    newSums, newTotal := AddRow(sums, row), total + row.weight;
  }

  /** One round of the loop. */
  method AddSummary(p: Progress, x: Metrics, metric: Metric, weightMetric: Metric, ghost xs: seq<Metrics>)
    returns (q: Progress)
    requires Reached(xs, metric, weightMetric, p)
    ensures Reached(xs + [x], metric, weightMetric, q)
  {
    ContributingAppend(xs, x, metric);
    if metric !in x {
      return p;
    }
    ghost var before := Contributing(xs, metric);
    var weighted, totalW := AddStatistics(p.weighted, p.totalW, x, metric, weightMetric, before);
    var minV, maxV, minSet := AddExtremes(x, metric, p.minV, p.maxV, p.minSet, before);
    q := Progress(true, weighted, totalW, minV, maxV, minSet);
  }

  method Start(ghost xs: seq<Metrics>, metric: Metric, weightMetric: Metric) returns (p: Progress)
    ensures Reached(xs[..0], metric, weightMetric, p)
  {
    p := Progress(false, NO_STATS, 0.0, 0.0, 0.0, false);
    assert Contributing(xs[..0], metric) == [];
    assert Rows([], metric, weightMetric) == [];
  }

  method AddNext(p: Progress, x: Metrics, metric: Metric, weightMetric: Metric, ghost xs: seq<Metrics>, ghost i: nat)
    returns (q: Progress)
    requires i < |xs| && x == xs[i] && Reached(xs[..i], metric, weightMetric, p)
    ensures Reached(xs[..i + 1], metric, weightMetric, q)
  {
    assert xs[..i + 1] == xs[..i] + [x];
    q := AddSummary(p, x, metric, weightMetric, xs[..i]);
  }

  method AddSummaries(xs: seq<Metrics>, metric: Metric, weightMetric: Metric) returns (p: Progress)
    ensures Reached(xs, metric, weightMetric, p)
  {
    p := Start(xs, metric, weightMetric);
    for i := 0 to |xs|
      invariant Reached(xs[..i], metric, weightMetric, p)
    {
      p := AddNext(p, xs[i], metric, weightMetric, xs, i);
    }
    assert xs[..|xs|] == xs;
  }

  /** aggregateLatencyMetric: every statistic is the weighted mean over the workers that have the metric. */
  method AggregateLatencyMetric(xs: seq<Metrics>, metric: Metric, weightMetric: Metric)
    returns (latency: Latency, found: bool)
    ensures found <==> Contributing(xs, metric) != []
    ensures found ==> && Averaged(Rows(Contributing(xs, metric), metric, weightMetric), latency.stats)
                      && exists minSet :: Extremes(Contributing(xs, metric), metric, latency.min, latency.max, minSet)
    ensures !found ==> latency == Latency(NO_STATS, 0.0, 0.0)
  {
    var p := AddSummaries(xs, metric, weightMetric);
    found := p.found;
    if !found {
      return Latency(NO_STATS, 0.0, 0.0), false;
    }
    SummedAverages(Rows(Contributing(xs, metric), metric, weightMetric), p.weighted, p.totalW);
    latency := Latency(Divided(p.weighted, p.totalW), p.minV, p.maxV);
  }

  /** The merged percentiles of a metric are in order when they are on every worker that has the metric, and every
      statistic lies between the least and the greatest value the workers report. */
  lemma MergedLatencySane(xs: seq<Metrics>, metric: Metric, weightMetric: Metric, l: Stats, s: Stat, low: real,
                          high: real)
    requires Contributing(xs, metric) != []
    requires Averaged(Rows(Contributing(xs, metric), metric, weightMetric), l)
    ensures (forall x :: x in Contributing(xs, metric) ==> InOrder(Reported(x, metric))) ==> InOrder(l)
    ensures (forall x :: x in Contributing(xs, metric) ==> low <= Of(Reported(x, metric), s) <= high)
            ==> low <= Of(l, s) <= high
  {
    var all := Contributing(xs, metric);
    var rows := Rows(all, metric, weightMetric);
    assert forall i :: 0 <= i < |all| ==> all[i] in all && rows[i].stats == Reported(all[i], metric);
    if forall x :: x in all ==> InOrder(Reported(x, metric)) {
      PercentilesStayOrdered(rows, l);
    }
    if forall x :: x in all ==> low <= Of(Reported(x, metric), s) <= high {
      StatisticWithinRange(rows, l, s, low, high);
    }
  }

  // ------------------------------------------------ request totals

  /** normalizeRoundedCount: half away from zero, nothing below zero. */
  function RoundedCount(x: real): real {
    if x <= 0.0 then 0.0 else (x + 0.5).Floor as real
  }

  /** max0. */
  function Max0(x: real): real {
    if x < 0.0 then 0.0 else x
  }

  datatype Business = Business(requests: real, successes: real, failures: real, status2xx: real, status4xx: real,
                               status5xx: real, transportFailures: real)

  datatype Totals = Totals(requests: real, failures: real, successes: real, status4xx: real, status5xx: real,
                           iterations: real, checksPasses: real, checksFails: real, business: Business)

  const NO_BUSINESS := Business(0.0, 0.0, 0.0, 0.0, 0.0, 0.0, 0.0)

  const NO_TOTALS := Totals(0.0, 0.0, 0.0, 0.0, 0.0, 0.0, 0.0, 0.0, NO_BUSINESS)

  function PlusBusiness(b: Business, c: Business): Business {
    Business(b.requests + c.requests, b.successes + c.successes, b.failures + c.failures, b.status2xx + c.status2xx,
             b.status4xx + c.status4xx, b.status5xx + c.status5xx, b.transportFailures + c.transportFailures)
  }

  function Plus(t: Totals, u: Totals): Totals {
    Totals(t.requests + u.requests, t.failures + u.failures, t.successes + u.successes, t.status4xx + u.status4xx,
           t.status5xx + u.status5xx, t.iterations + u.iterations, t.checksPasses + u.checksPasses,
           t.checksFails + u.checksFails, PlusBusiness(t.business, u.business))
  }

  function SumOf(us: seq<Totals>): Totals {
    if us == [] then NO_TOTALS else Plus(SumOf(us[..|us| - 1]), us[|us| - 1])
  }

  function FailuresIn(requests: real, rate: real): real {
    RoundedCount(Times(requests, rate))
  }

  function BusinessTally(m: Metrics): Business {
    Business(Val(m, BusinessRequests, Count), Val(m, BusinessSuccess, Count), Val(m, BusinessFailure, Count),
             Val(m, Business2xx, Count), Val(m, Business4xx, Count), Val(m, Business5xx, Count),
             Val(m, BusinessTransport, Count))
  }

  /** summaryHasBusinessMetrics. */
  predicate HasBusiness(m: Metrics) {
    || BusinessRequests in m || BusinessSuccess in m || BusinessFailure in m || Business2xx in m
    || Business4xx in m || Business5xx in m || BusinessTransport in m || BusinessDuration in m
  }

  /** What one worker adds to the totals. */
  function Tally(m: Metrics): Totals {
    var n := Val(m, HttpReqs, Count);
    var failures := FailuresIn(n, Val(m, HttpReqFailed, Rate));
    Totals(n, failures, Max0(n - failures), Val(m, Metric.Status4xx, Count), Val(m, Metric.Status5xx, Count),
           Val(m, Metric.Iterations, Count), Val(m, Checks, Passes), Val(m, Checks, Fails),
           BusinessTally(m))
  }

  function Tallies(xs: seq<Metrics>): (us: seq<Totals>)
    ensures |us| == |xs| && forall i :: 0 <= i < |us| ==> us[i] == Tally(xs[i])
  {
    seq(|xs|, i requires 0 <= i < |xs| => Tally(xs[i]))
  }

  /** The workers' tallies, added up one after the other. */
  method AddTallies(us: seq<Totals>) returns (t: Totals)
    ensures t == SumOf(us)
  {
    t := NO_TOTALS;
    for i := 0 to |us|
      invariant t == SumOf(us[..i])
    {
      assert us[..i + 1][..i] == us[..i];
      t := Plus(t, us[i]);
    }
    assert us[..|us|] == us;
  }

  method AnyBusiness(xs: seq<Metrics>) returns (found: bool)
    ensures found <==> exists i :: 0 <= i < |xs| && HasBusiness(xs[i])
  {
    found := false;
    for i := 0 to |xs|
      invariant found <==> exists j :: 0 <= j < i && HasBusiness(xs[j])
    {
      if HasBusiness(xs[i]) {
        found := true;
      }
    }
  }

  /** The totals of mergeSummaryMetrics, and whether there are business metrics. */
  method MergeTotals(xs: seq<Metrics>) returns (t: Totals, hasBusiness: bool)
    ensures t == SumOf(Tallies(xs))
    ensures hasBusiness <==> exists i :: 0 <= i < |xs| && HasBusiness(xs[i])
  {
    t := AddTallies(Tallies(xs));
    hasBusiness := AnyBusiness(xs);
  }

  /** What a worker's tally always looks like: the successes are the requests without the failures, never below 0. */
  predicate Tallied(u: Totals) {
    u.successes == Max0(u.requests - u.failures)
  }

  /** Successes and failures add up to the requests exactly when no worker has more rounded failures than requests;
      otherwise they add up to more. */
  lemma {:induction false} RequestsConservedIff(us: seq<Totals>)
    requires forall i :: 0 <= i < |us| ==> Tallied(us[i])
    ensures var t := SumOf(us);
            && t.successes + t.failures >= t.requests
            && (t.successes + t.failures == t.requests
                <==> forall i :: 0 <= i < |us| ==> us[i].failures <= us[i].requests)
  {
    if us != [] {
      var n := |us| - 1;
      RequestsConservedIff(us[..n]);
      assert Tallied(us[n]);
      assert (forall i :: 0 <= i < |us| ==> us[i].failures <= us[i].requests)
        <==> (forall i :: 0 <= i < n ==> us[..n][i].failures <= us[..n][i].requests)
             && us[n].failures <= us[n].requests;
    }
  }

  predicate WholeCounts(m: Metrics) {
    var n := Val(m, HttpReqs, Count);
    n >= 0.0 && n == n.Floor as real && 0.0 <= Val(m, HttpReqFailed, Rate) <= 1.0
  }

  lemma RoundedBelow(x: real, k: int)
    requires x <= k as real && k >= 0
    ensures RoundedCount(x) <= k as real
  {
    assert (x + 0.5).Floor < k + 1;
  }

  lemma FailuresWithin(n: real, r: real)
    requires n >= 0.0 && n == n.Floor as real && 0.0 <= r <= 1.0
    ensures FailuresIn(n, r) <= n
  {
    ScaleOrder(r, 1.0, n);
    assert Times(n, r) == r * n;
    RoundedBelow(Times(n, r), n.Floor);
  }

  /** With whole request counts and failure rates within [0, 1] that never happens. */
  lemma WholeCountsConserved(xs: seq<Metrics>)
    requires forall i :: 0 <= i < |xs| ==> WholeCounts(xs[i])
    ensures var t := SumOf(Tallies(xs)); t.successes + t.failures == t.requests
  {
    var us := Tallies(xs);
    forall i | 0 <= i < |us| ensures us[i].failures <= us[i].requests && Tallied(us[i]) {
      FailuresWithin(Val(xs[i], HttpReqs, Count), Val(xs[i], HttpReqFailed, Rate));
    }
    RequestsConservedIff(us);
  }

  // ------------------------------------------------ totals in the workers' own values

  /** One metric's value, added up over the workers; a missing one counts 0. */
  function ValueSum(xs: seq<Metrics>, metric: Metric, key: Key): real {
    if xs == [] then 0.0 else ValueSum(xs[..|xs| - 1], metric, key) + Val(xs[|xs| - 1], metric, key)
  }

  lemma OneMoreWorker(xs: seq<Metrics>)
    requires xs != []
    ensures var n := |xs| - 1; SumOf(Tallies(xs)) == Plus(SumOf(Tallies(xs[..n])), Tally(xs[n]))
  {
    var n := |xs| - 1;
    assert Tallies(xs)[..n] == Tallies(xs[..n]);
  }

  lemma PlusFields(t: Totals, m: Metrics)
    ensures var u := Plus(t, Tally(m));
            && u.requests == t.requests + Val(m, HttpReqs, Count)
            && u.status4xx == t.status4xx + Val(m, Metric.Status4xx, Count)
            && u.status5xx == t.status5xx + Val(m, Metric.Status5xx, Count)
            && u.iterations == t.iterations + Val(m, Metric.Iterations, Count)
            && u.checksPasses == t.checksPasses + Val(m, Checks, Passes)
            && u.checksFails == t.checksFails + Val(m, Checks, Fails)
            && u.failures == t.failures + Tally(m).failures && u.successes == t.successes + Tally(m).successes
            && u.business == PlusBusiness(t.business, BusinessTally(m))
  {
  }

  /** Every plain total is the sum of its own metric. */
  lemma {:induction false} TotalsAreSums(xs: seq<Metrics>)
    ensures var t := SumOf(Tallies(xs));
            && t.requests == ValueSum(xs, HttpReqs, Count)
            && t.status4xx == ValueSum(xs, Metric.Status4xx, Count)
            && t.status5xx == ValueSum(xs, Metric.Status5xx, Count)
            && t.iterations == ValueSum(xs, Metric.Iterations, Count)
            && t.checksPasses == ValueSum(xs, Checks, Passes) && t.checksFails == ValueSum(xs, Checks, Fails)
  {
    if xs != [] {
      var n := |xs| - 1;
      TotalsAreSums(xs[..n]);
      OneMoreWorker(xs);
      PlusFields(SumOf(Tallies(xs[..n])), xs[n]);
    }
  }

  /** So is every business counter. */
  lemma {:induction false} BusinessAreSums(xs: seq<Metrics>)
    ensures var b := SumOf(Tallies(xs)).business;
            && b.requests == ValueSum(xs, BusinessRequests, Count)
            && b.successes == ValueSum(xs, BusinessSuccess, Count)
            && b.failures == ValueSum(xs, BusinessFailure, Count)
            && b.status2xx == ValueSum(xs, Business2xx, Count)
            && b.status4xx == ValueSum(xs, Business4xx, Count)
            && b.status5xx == ValueSum(xs, Business5xx, Count)
            && b.transportFailures == ValueSum(xs, BusinessTransport, Count)
  {
    if xs != [] {
      var n := |xs| - 1;
      BusinessAreSums(xs[..n]);
      OneMoreWorker(xs);
      PlusFields(SumOf(Tallies(xs[..n])), xs[n]);
    }
  }

  /** A worker's failures are its requests times its failure rate, to the nearest whole number, halves up, and never
      below 0; its successes are the rest. */
  lemma FailuresNearest(m: Metrics)
    ensures var requests, failures := Val(m, HttpReqs, Count), Tally(m).failures;
            var exact := Times(requests, Val(m, HttpReqFailed, Rate));
            && failures == failures.Floor as real && failures >= 0.0
            && (exact <= 0.0 ==> failures == 0.0)
            && (exact > 0.0 ==> failures - 0.5 <= exact < failures + 0.5)
            && Tally(m).successes == if failures <= requests then requests - failures else 0.0
  {
    NearestWhole(Times(Val(m, HttpReqs, Count), Val(m, HttpReqFailed, Rate)));
  }

  lemma NearestWhole(x: real)
    ensures var k := RoundedCount(x);
            && k == k.Floor as real && k >= 0.0
            && (x <= 0.0 ==> k == 0.0) && (x > 0.0 ==> k - 0.5 <= x < k + 0.5)
  {
  }

  /** With one worker the merged latencies are that worker's. */
  lemma OneWorkerLatency(x: Metrics, metric: Metric, weightMetric: Metric, l: Stats)
    requires metric in x && Averaged(Rows(Contributing([x], metric), metric, weightMetric), l)
    ensures l.avg == Val(x, metric, AvgOf) && l.med == Val(x, metric, MedOf) && l.p90 == Val(x, metric, P90Of)
    ensures l.p95 == Val(x, metric, P95Of) && l.p99 == Val(x, metric, P99Of)
  {
    assert [x][..0] == [];
    assert Contributing([x][..0], metric) == [];
    assert Contributing([x], metric) == [x];
    var rows := Rows([x], metric, weightMetric);
    OneRow(rows, l, Avg);
    OneRow(rows, l, Med);
    OneRow(rows, l, P90);
    OneRow(rows, l, P95);
    OneRow(rows, l, P99);
  }

  /** Two workers are balanced by the count of the weight metric, else by their requests, else as one each. */
  lemma TwoWorkersLatency(x: Metrics, y: Metrics, metric: Metric, weightMetric: Metric, l: Stats, s: Stat)
    requires metric in x && metric in y
    requires Averaged(Rows(Contributing([x, y], metric), metric, weightMetric), l)
    ensures var m, n := Val(x, weightMetric, Count), Val(y, weightMetric, Count);
            var p, q := Val(x, HttpReqs, Count), Val(y, HttpReqs, Count);
            Of(l, s) == Mean([Part(Of(Reported(x, metric), s), if m > 0.0 then m else if p > 0.0 then p else 1.0),
                              Part(Of(Reported(y, metric), s), if n > 0.0 then n else if q > 0.0 then q else 1.0)])
  {
    BothContribute(x, y, metric);
    TwoRows(x, y, metric, weightMetric, s);
    assert Of(l, s) == Mean(Column(Rows([x, y], metric, weightMetric), s));
  }

  lemma BothContribute(x: Metrics, y: Metrics, metric: Metric)
    requires metric in x && metric in y
    ensures Contributing([x, y], metric) == [x, y]
  {
    assert [x, y][..1] == [x] && [x][..0] == [];
    assert Contributing([x], metric) == Contributing([], metric) + [x];
  }

  lemma TwoRows(x: Metrics, y: Metrics, metric: Metric, weightMetric: Metric, s: Stat)
    ensures Column(Rows([x, y], metric, weightMetric), s)
         == [Part(Of(Reported(x, metric), s), WeightOf(x, weightMetric)),
             Part(Of(Reported(y, metric), s), WeightOf(y, weightMetric))]
  {
  }

  /** The merged minimum is the least one reported. For durations a zero counts as not reported, for other metrics it
      counts. */
  lemma MinimumExact(xs: seq<Metrics>, metric: Metric, min: real, max: real, minSet: bool)
    requires Extremes(xs, metric, min, max, minSet)
    ensures var durations := metric == HttpReqDuration || metric == BusinessDuration;
            && (durations ==> forall x :: x in xs && Val(x, metric, MinOf) > 0.0 ==> 0.0 < min <= Val(x, metric, MinOf))
            && (!durations ==> forall x :: x in xs && Val(x, metric, MinOf) >= 0.0 ==> min <= Val(x, metric, MinOf))
            && (min == 0.0 && durations ==> forall x :: x in xs ==> Val(x, metric, MinOf) <= 0.0)
            && (min != 0.0 ==> min > 0.0 && exists x :: x in xs && Val(x, metric, MinOf) == min)
            && min >= 0.0
  {
    forall x | x in xs && Val(x, metric, MinOf) > 0.0 ensures UsesMin(metric, Val(x, metric, MinOf)) {
    }
  }

  lemma OneRow(rows: seq<Row>, l: Stats, s: Stat)
    requires |rows| == 1 && PositiveRows(rows) && Averaged(rows, l)
    ensures Of(l, s) == Of(rows[0].stats, s)
  {
    StatisticWithinRange(rows, l, s, Of(rows[0].stats, s), Of(rows[0].stats, s));
  }
}
