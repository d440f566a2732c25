// Aggregating the workers' live metrics into one poll.
module Aggregation {
  import opened K6Metrics
  import opened WeightedMeans
  import Polling
  import Ramping

  /** A worker's metrics, or that they could not be fetched. Infinite and undefined values count as missing. */
  datatype WorkerResult = Failed(address: string) | Fetched(address: string, metrics: Metrics)

  datatype Aggregate = Aggregate(workers: seq<Polling.Sample>, totalVus: int, requests: real, failures: real,
                                 successes: real, latency: Stats, errorRate: real, successRate: real)

  function VusOf(r: WorkerResult): int {
    if r.Fetched? then Ramping.Truncate(Val(r.metrics, Vus, Value)) else 0
  }

  // ------------------------------------------------ latencies

  predicate ValidStat(m: Metrics, key: Key) {
    Has(m, HttpReqDuration, key) && m[HttpReqDuration][key] >= 0.0
  }

  function StatOf(m: Metrics, key: Key): real {
    if ValidStat(m, key) then m[HttpReqDuration][key] else 0.0
  }

  /** The statistics of a worker; a missing or negative one adds nothing. */
  function Latencies(m: Metrics): Stats {
    Stats(StatOf(m, AvgOf), StatOf(m, MedOf), StatOf(m, P90Of), StatOf(m, P95Of), StatOf(m, P99Of))
  }

  predicate Weighs(m: Metrics) {
    ValidStat(m, AvgOf) || ValidStat(m, MedOf) || ValidStat(m, P90Of) || ValidStat(m, P95Of) || ValidStat(m, P99Of)
  }

  function LatencyWeight(m: Metrics): (w: real)
    ensures w > 0.0
  {
    if Val(m, HttpReqs, Count) <= 0.0 then 1.0 else Val(m, HttpReqs, Count)
  }

  /** The fetched workers with at least one valid statistic. */
  function Weighing(rs: seq<WorkerResult>): (ms: seq<Metrics>)
    ensures forall i :: 0 <= i < |ms| ==> Weighs(ms[i])
  {
    if rs == [] then []
    else
      var rest, last := Weighing(rs[..|rs| - 1]), rs[|rs| - 1];
      if last.Fetched? && Weighs(last.metrics) then rest + [last.metrics] else rest
  }

  function LatencyRows(ms: seq<Metrics>): (rows: seq<Row>)
    ensures |rows| == |ms| && PositiveRows(rows)
    ensures forall i :: 0 <= i < |ms| ==> rows[i].stats == Latencies(ms[i])
  {
    seq(|ms|, i requires 0 <= i < |ms| => Row(Latencies(ms[i]), LatencyWeight(ms[i])))
  }

  // ------------------------------------------------ counts

  function Samples(rs: seq<WorkerResult>): (s: seq<Polling.Sample>)
    ensures |s| == |rs| && forall i :: 0 <= i < |rs| ==> s[i] == Polling.Sample(rs[i].address, VusOf(rs[i]))
  {
    seq(|rs|, i requires 0 <= i < |rs| => Polling.Sample(rs[i].address, VusOf(rs[i])))
  }

  function Requests(rs: seq<WorkerResult>): real {
    if rs == [] then 0.0
    else Requests(rs[..|rs| - 1]) + (if rs[|rs| - 1].Fetched? then Val(rs[|rs| - 1].metrics, HttpReqs, Count) else 0.0)
  }

  /** math.Round: half away from zero. */
  function Round(x: real): real {
    if x >= 0.0 then (x + 0.5).Floor as real else -((-x + 0.5).Floor as real)
  }

  datatype HttpCounts = HttpCounts(failures: real, successes: real)

  /** The failure counters: the worker's own, or, while both totals are still zero, derived from its rate. */
  function AddHttp(c: HttpCounts, m: Metrics): HttpCounts {
    var n := Val(m, HttpReqs, Count);
    if HttpReqFailed !in m then c
    else
      var d := HttpCounts(c.failures + Val(m, HttpReqFailed, Passes), c.successes + Val(m, HttpReqFailed, Fails));
      if d.failures == 0.0 && d.successes == 0.0 && n > 0.0 && Has(m, HttpReqFailed, Rate) then
        HttpCounts(Round(Times(n, Val(m, HttpReqFailed, Rate))), Round(Times(n, 1.0 - Val(m, HttpReqFailed, Rate))))
      else d
  }

  function Http(rs: seq<WorkerResult>): HttpCounts {
    if rs == [] then HttpCounts(0.0, 0.0)
    else
      var before := Http(rs[..|rs| - 1]);
      if rs[|rs| - 1].Fetched? then AddHttp(before, rs[|rs| - 1].metrics) else before
  }

  datatype CheckCounts = CheckCounts(passes: real, fails: real, rateSum: real, rates: nat)

  function AddChecks(c: CheckCounts, m: Metrics): CheckCounts {
    CheckCounts(c.passes + Val(m, Checks, Passes), c.fails + Val(m, Checks, Fails),
                c.rateSum + Val(m, Checks, Rate), c.rates + (if Has(m, Checks, Rate) then 1 else 0))
  }

  function CheckTotals(rs: seq<WorkerResult>): CheckCounts {
    if rs == [] then CheckCounts(0.0, 0.0, 0.0, 0)
    else
      var before := CheckTotals(rs[..|rs| - 1]);
      if rs[|rs| - 1].Fetched? then AddChecks(before, rs[|rs| - 1].metrics) else before
  }

  // ------------------------------------------------ rates

  datatype Rates = Rates(error: real, success: real)

  /** From the HTTP counters, else from the checks, else everything failed. */
  function RatesOf(h: HttpCounts, c: CheckCounts, requests: real): Rates {
    if h.successes + h.failures > 0.0 then
      Rates(h.failures / (h.successes + h.failures), h.successes / (h.successes + h.failures))
    else if c.passes + c.fails > 0.0 then Rates(c.fails / (c.passes + c.fails), c.passes / (c.passes + c.fails))
    else if c.rates > 0 then Rates(1.0 - c.rateSum / c.rates as real, c.rateSum / c.rates as real)
    else if requests > 0.0 then Rates(1.0, 0.0)
    else Rates(0.0, 0.0)
  }

  lemma PartsOfWhole(a: real, b: real)
    requires a >= 0.0 && b >= 0.0 && a + b > 0.0
    ensures a / (a + b) + b / (a + b) == 1.0
    ensures 0.0 <= a / (a + b) <= 1.0 && 0.0 <= b / (a + b) <= 1.0
  {
    DivideBounds(a, a + b, 0.0, 1.0);
    DivideBounds(b, a + b, 0.0, 1.0);
    assert a / (a + b) * (a + b) == a && b / (a + b) * (a + b) == b;
    assert (a / (a + b) + b / (a + b)) * (a + b) == a + b;
  }

  /** With counters that are not negative and check rates within [0, 1], both rates lie within [0, 1], and they are
      complementary exactly when there is anything to judge by. */
  lemma RatesComplement(h: HttpCounts, c: CheckCounts, requests: real)
    requires h.failures >= 0.0 && h.successes >= 0.0 && c.passes >= 0.0 && c.fails >= 0.0
    requires 0.0 <= c.rateSum <= c.rates as real
    ensures var r := RatesOf(h, c, requests);
            && 0.0 <= r.error <= 1.0 && 0.0 <= r.success <= 1.0
            && (r.error + r.success == 1.0 <==>
                h.failures + h.successes > 0.0 || c.passes + c.fails > 0.0 || c.rates > 0 || requests > 0.0)
            && (r.error + r.success != 1.0 ==> r == Rates(0.0, 0.0))
  {
    if h.successes + h.failures > 0.0 {
      PartsOfWhole(h.successes, h.failures);
    } else if c.passes + c.fails > 0.0 {
      PartsOfWhole(c.passes, c.fails);
    } else if c.rates > 0 {
      DivideBounds(c.rateSum, c.rates as real, 0.0, 1.0);
    }
  }

  /** The check rates the workers report are averaged, so the side condition on them is a matter of each worker. */
  lemma {:induction false} CheckTotalsBounded(rs: seq<WorkerResult>)
    requires forall r :: r in rs && r.Fetched? ==>
               && Val(r.metrics, Checks, Passes) >= 0.0 && Val(r.metrics, Checks, Fails) >= 0.0
               && 0.0 <= Val(r.metrics, Checks, Rate) <= 1.0
    ensures var c := CheckTotals(rs);
            c.passes >= 0.0 && c.fails >= 0.0 && 0.0 <= c.rateSum <= c.rates as real
  {
    if rs != [] {
      CheckTotalsBounded(rs[..|rs| - 1]);
      assert rs[|rs| - 1] in rs;
    }
  }

  /** The counters reported: derived from the error rate when no worker had any. */
  function Reported(h: HttpCounts, requests: real, errorRate: real): HttpCounts {
    if h.successes == 0.0 && h.failures == 0.0 && requests > 0.0 then
      HttpCounts(Round(Times(requests, errorRate)), requests - Round(Times(requests, errorRate)))
    else h
  }

  // ------------------------------------------------ the loop

  /** The loop's variables. */
  datatype Progress = Progress(workers: seq<Polling.Sample>, totalVus: int, requests: real, http: HttpCounts,
                               weighted: Stats, weight: real)

  ghost predicate Reached(rs: seq<WorkerResult>, p: Progress) {
    && p.workers == Samples(rs) && p.totalVus == Polling.TotalVus(Samples(rs))
    && p.requests == Requests(rs) && p.http == Http(rs)
    && Summed(LatencyRows(Weighing(rs)), p.weighted, p.weight)
  }

  method AddLatency(sums: Stats, weight: real, m: Metrics, ghost before: seq<Metrics>) returns (s: Stats, w: real)
    requires Summed(LatencyRows(before), sums, weight)
    ensures Summed(LatencyRows(if Weighs(m) then before + [m] else before), s, w)
  {
    if !Weighs(m) {
      return sums, weight;
    }
    var row := Row(Latencies(m), LatencyWeight(m));
    SummedAppend(LatencyRows(before), row, sums, weight);
    assert LatencyRows(before + [m]) == LatencyRows(before) + [row];
    s, w := AddRow(sums, row), weight + row.weight;
  }

  lemma CountsAppend(rs: seq<WorkerResult>, r: WorkerResult)
    ensures Samples(rs + [r]) == Samples(rs) + [Polling.Sample(r.address, VusOf(r))]
    ensures Polling.TotalVus(Samples(rs + [r])) == Polling.TotalVus(Samples(rs)) + VusOf(r)
    ensures Requests(rs + [r]) == Requests(rs) + (if r.Fetched? then Val(r.metrics, HttpReqs, Count) else 0.0)
    ensures Http(rs + [r]) == if r.Fetched? then AddHttp(Http(rs), r.metrics) else Http(rs)
    ensures Weighing(rs + [r]) == if r.Fetched? && Weighs(r.metrics) then Weighing(rs) + [r.metrics] else Weighing(rs)
  {
    assert (rs + [r])[..|rs|] == rs;
    assert Samples(rs + [r])[..|rs|] == Samples(rs);
  }

  method AddWorker(p: Progress, r: WorkerResult, ghost rs: seq<WorkerResult>) returns (q: Progress)
    requires Reached(rs, p)
    ensures Reached(rs + [r], q)
  {
    CountsAppend(rs, r);
    match r
    case Failed(address) =>
      q := p.(workers := p.workers + [Polling.Sample(address, 0)]);
    case Fetched(address, m) =>
      var vus := Ramping.Truncate(Val(m, Vus, Value));
      var s, w := AddLatency(p.weighted, p.weight, m, Weighing(rs));
      q := Progress(p.workers + [Polling.Sample(address, vus)], p.totalVus + vus,
                    p.requests + Val(m, HttpReqs, Count), AddHttp(p.http, m), s, w);
  }

  /** The rates and the reported counters, once all workers are in. */
  method Summarize(p: Progress, rs: seq<WorkerResult>) returns (a: Aggregate)
    requires Reached(rs, p)
    ensures a.workers == Samples(rs) && a.totalVus == Polling.TotalVus(a.workers) && a.requests == Requests(rs)
    ensures Averaged(LatencyRows(Weighing(rs)), a.latency)
    ensures Rates(a.errorRate, a.successRate) == RatesOf(Http(rs), CheckTotals(rs), Requests(rs))
    ensures HttpCounts(a.failures, a.successes) == Reported(Http(rs), Requests(rs), a.errorRate)
  {
    var rates := RatesOf(p.http, CheckTotals(rs), p.requests);
    var http := Reported(p.http, p.requests, rates.error);
    SummedAverages(LatencyRows(Weighing(rs)), p.weighted, p.weight);
    a := Aggregate(p.workers, p.totalVus, p.requests, http.failures, http.successes, Divided(p.weighted, p.weight),
                   rates.error, rates.success);
  }

  /** Aggregate. */
  method AggregateAll(rs: seq<WorkerResult>) returns (a: Aggregate)
    ensures a.workers == Samples(rs) && a.totalVus == Polling.TotalVus(a.workers) && a.requests == Requests(rs)
    ensures Averaged(LatencyRows(Weighing(rs)), a.latency)
    ensures Rates(a.errorRate, a.successRate) == RatesOf(Http(rs), CheckTotals(rs), Requests(rs))
    ensures HttpCounts(a.failures, a.successes) == Reported(Http(rs), Requests(rs), a.errorRate)
  {
    var p := Progress([], 0, 0.0, HttpCounts(0.0, 0.0), NO_STATS, 0.0);
    for i := 0 to |rs|
      invariant Reached(rs[..i], p)
    {
      p := AddWorker(p, rs[i], rs[..i]);
      assert rs[..i + 1] == rs[..i] + [rs[i]];
    }
    assert rs[..|rs|] == rs;
    a := Summarize(p, rs);
  }

  // ------------------------------------------------ what the aggregated statistics mean

  function StatKey(s: Stat): Key {
    match s
    case Avg => AvgOf
    case Med => MedOf
    case P90 => P90Of
    case P95 => P95Of
    case P99 => P99Of
  }

  predicate Reports(m: Metrics, s: Stat) {
    ValidStat(m, StatKey(s))
  }

  lemma LatencyOf(m: Metrics, s: Stat)
    ensures Of(Latencies(m), s) == StatOf(m, StatKey(s))
  {
  }

  /** The values and weights of those that report the statistic. */
  function Reporting(ms: seq<Metrics>, s: Stat): seq<Part> {
    if ms == [] then []
    else
      var rest, last := Reporting(ms[..|ms| - 1], s), ms[|ms| - 1];
      if Reports(last, s) then rest + [Part(StatOf(last, StatKey(s)), LatencyWeight(last))] else rest
  }

  /** Who does not report a statistic adds nothing to its sum, but does add weight. */
  lemma {:induction false} ReportingSums(ms: seq<Metrics>, s: Stat)
    ensures Products(Column(LatencyRows(ms), s)) == Products(Reporting(ms, s))
    ensures Weights(Reporting(ms, s)) <= Weights(Column(LatencyRows(ms), s))
    ensures Weights(Reporting(ms, s)) == Weights(Column(LatencyRows(ms), s))
       <==> AllReport(ms, s)
    ensures Reporting(ms, s) == [] ==> Products(Reporting(ms, s)) == 0.0
    ensures Reporting(ms, s) != [] ==> Weights(Reporting(ms, s)) > 0.0
    ensures Weights(Reporting(ms, s)) >= 0.0
  {
    if ms != [] {
      var n := |ms| - 1;
      ReportingSums(ms[..n], s);
      ColumnLast(ms, s);
      ReportingLast(ms, s);
      AllReportLast(ms, s);
      assert LatencyWeight(ms[n]) > 0.0;
    }
  }

  ghost predicate AllReport(ms: seq<Metrics>, s: Stat) {
    forall i :: 0 <= i < |ms| ==> Reports(ms[i], s)
  }

  lemma AllReportLast(ms: seq<Metrics>, s: Stat)
    requires ms != []
    ensures AllReport(ms, s) <==> Reports(ms[|ms| - 1], s) && AllReport(ms[..|ms| - 1], s)
  {
  }

  lemma ColumnLast(ms: seq<Metrics>, s: Stat)
    requires ms != []
    ensures var n := |ms| - 1;
            var all, before := Column(LatencyRows(ms), s), Column(LatencyRows(ms[..n]), s);
            && Weights(all) == Weights(before) + LatencyWeight(ms[n])
            && Products(all) == Products(before) + Times(StatOf(ms[n], StatKey(s)), LatencyWeight(ms[n]))
  {
    var n := |ms| - 1;
    LatencyOf(ms[n], s);
    assert Column(LatencyRows(ms), s)[..n] == Column(LatencyRows(ms[..n]), s);
  }

  lemma ReportingLast(ms: seq<Metrics>, s: Stat)
    requires ms != []
    ensures var n := |ms| - 1;
            var all, before := Reporting(ms, s), Reporting(ms[..n], s);
            && Weights(all) == Weights(before) + (if Reports(ms[n], s) then LatencyWeight(ms[n]) else 0.0)
            && Products(all) == Products(before) + Times(StatOf(ms[n], StatKey(s)), LatencyWeight(ms[n]))
  {
    var n := |ms| - 1;
    if Reports(ms[n], s) {
      assert Reporting(ms, s)[..|Reporting(ms, s)| - 1] == Reporting(ms[..n], s);
    } else {
      assert Times(0.0, LatencyWeight(ms[n])) == 0.0;
    }
  }

  /** The aggregated statistic is the weighted mean over the workers that report it if and
      only if every weighing worker reports it, or their weighted values add up to 0. */
  lemma AggregateIsMeanIff(rs: seq<WorkerResult>, l: Stats, s: Stat)
    requires Averaged(LatencyRows(Weighing(rs)), l)
    ensures var ms := Weighing(rs);
            Of(l, s) == Mean(Reporting(ms, s))
            <==> AllReport(ms, s) || Products(Reporting(ms, s)) == 0.0
  {
    var ms := Weighing(rs);
    ReportingSums(ms, s);
    RatioEqualIff(Products(Reporting(ms, s)), Weights(Column(LatencyRows(ms), s)), Weights(Reporting(ms, s)));
    assert Of(l, s) == Mean(Column(LatencyRows(ms), s));
  }

  /** A statistic every weighing worker reports stays between the least and the greatest
      reported value, whatever the other statistics are. */
  lemma AggregateWithinRange(rs: seq<WorkerResult>, l: Stats, s: Stat, low: real, high: real)
    requires Averaged(LatencyRows(Weighing(rs)), l) && Weighing(rs) != []
    requires forall i :: 0 <= i < |Weighing(rs)| ==>
               Reports(Weighing(rs)[i], s) && low <= Val(Weighing(rs)[i], HttpReqDuration, StatKey(s)) <= high
    ensures low <= Of(l, s) <= high
  {
    var ms := Weighing(rs);
    forall i | 0 <= i < |ms| ensures low <= Of(LatencyRows(ms)[i].stats, s) <= high {
      LatencyOf(ms[i], s);
    }
    StatisticWithinRange(LatencyRows(ms), l, s, low, high);
  }

  /** Two statistics every weighing worker reports, in the same order everywhere, are in
      that order in the aggregate: med, p90 and p95 do not depend on p99. */
  lemma AggregateKeepsOrder(rs: seq<WorkerResult>, l: Stats, s: Stat, t: Stat)
    requires Averaged(LatencyRows(Weighing(rs)), l)
    requires forall i :: 0 <= i < |Weighing(rs)| ==>
               && Reports(Weighing(rs)[i], s) && Reports(Weighing(rs)[i], t)
               && Val(Weighing(rs)[i], HttpReqDuration, StatKey(s)) <= Val(Weighing(rs)[i], HttpReqDuration, StatKey(t))
    ensures Of(l, s) <= Of(l, t)
  {
    var ms := Weighing(rs);
    var rows := LatencyRows(ms);
    forall i | 0 <= i < |ms| ensures Of(rows[i].stats, s) <= Of(rows[i].stats, t) {
      LatencyOf(ms[i], s);
      LatencyOf(ms[i], t);
    }
    MeanOrder(Column(rows, s), Column(rows, t));
  }

  /** A worker that reports its mean only, and one that also reports a median of 10. */
  function TwoWorkers(): seq<WorkerResult> {
    [Fetched("a", map[HttpReqDuration := map[AvgOf := 10.0]]),
     Fetched("b", map[HttpReqDuration := map[AvgOf := 10.0, MedOf := 10.0]])]
  }

  lemma BothWeigh()
    ensures Weighing(TwoWorkers()) == [TwoWorkers()[0].metrics, TwoWorkers()[1].metrics]
  {
    var rs := TwoWorkers();
    assert rs[..1] == [rs[0]] && rs[..1][..0] == [];
    assert Weighing(rs[..1]) == [rs[0].metrics];
    assert rs[..|rs| - 1] == rs[..1];
  }

  /** A statistic some worker leaves out is pulled towards zero: the only reported median
      is 10, the aggregated one 5. */
  lemma MissingStatisticDilutes(l: Stats)
    requires Averaged(LatencyRows(Weighing(TwoWorkers())), l)
    ensures l.med == 5.0 && Mean(Reporting(Weighing(TwoWorkers()), Med)) != l.med
  {
    var ms := Weighing(TwoWorkers());
    BothWeigh();
    var c := Column(LatencyRows(ms), Med);
    assert c == [Part(0.0, 1.0), Part(10.0, 1.0)];
    assert c[..|c| - 1] == [Part(0.0, 1.0)] && [Part(0.0, 1.0)][..0] == [];
    assert Weights(c) == 2.0 && Products(c) == 10.0;
    assert Of(l, Med) == Mean(c);
    ReportingSums(ms, Med);
    assert !Reports(ms[0], Med);
    AggregateIsMeanIff(TwoWorkers(), l, Med);
  }

  // ------------------------------------------------ rates from the workers' metrics

  predicate SaneWorker(r: WorkerResult) {
    r.Fetched? ==>
      && Val(r.metrics, HttpReqs, Count) >= 0.0
      && Val(r.metrics, HttpReqFailed, Passes) >= 0.0 && Val(r.metrics, HttpReqFailed, Fails) >= 0.0
      && 0.0 <= Val(r.metrics, HttpReqFailed, Rate) <= 1.0
      && Val(r.metrics, Checks, Passes) >= 0.0 && Val(r.metrics, Checks, Fails) >= 0.0
      && 0.0 <= Val(r.metrics, Checks, Rate) <= 1.0
  }

  lemma RoundNonNegative(n: real, rate: real)
    requires n >= 0.0 && rate >= 0.0
    ensures Round(Times(n, rate)) >= 0.0
  {
    ScaleOrder(0.0, n, rate);
    assert Times(n, rate) >= 0.0;
  }

  lemma AddHttpNonNegative(c: HttpCounts, m: Metrics)
    requires c.failures >= 0.0 && c.successes >= 0.0 && SaneWorker(Fetched("", m))
    ensures AddHttp(c, m).failures >= 0.0 && AddHttp(c, m).successes >= 0.0
  {
    var n, rate := Val(m, HttpReqs, Count), Val(m, HttpReqFailed, Rate);
    RoundNonNegative(n, rate);
    RoundNonNegative(n, 1.0 - rate);
  }

  lemma {:induction false} HttpNonNegative(rs: seq<WorkerResult>)
    requires forall r :: r in rs ==> SaneWorker(r)
    ensures Http(rs).failures >= 0.0 && Http(rs).successes >= 0.0
  {
    if rs != [] {
      var before, last := rs[..|rs| - 1], rs[|rs| - 1];
      assert last in rs && forall r :: r in before ==> r in rs;
      HttpNonNegative(before);
      if last.Fetched? {
        AddHttpNonNegative(Http(before), last.metrics);
      }
    }
  }

  /** For workers whose counters are not negative and whose rates lie within [0, 1], so do
      the aggregated rates, and they are complementary exactly when some worker reported
      anything to judge by. */
  lemma AggregateRatesSane(rs: seq<WorkerResult>, a: Aggregate)
    requires forall r :: r in rs ==> SaneWorker(r)
    requires Rates(a.errorRate, a.successRate) == RatesOf(Http(rs), CheckTotals(rs), Requests(rs))
    ensures 0.0 <= a.errorRate <= 1.0 && 0.0 <= a.successRate <= 1.0
    ensures var h, c := Http(rs), CheckTotals(rs);
            a.errorRate + a.successRate == 1.0 <==>
              h.failures + h.successes > 0.0 || c.passes + c.fails > 0.0 || c.rates > 0 || Requests(rs) > 0.0
  {
    HttpNonNegative(rs);
    CheckTotalsBounded(rs);
    RatesComplement(Http(rs), CheckTotals(rs), Requests(rs));
  }

  // ------------------------------------------------ rates and counters in the workers' own values

  /** One metric's value, added up over the workers that could be fetched. */
  function ValueSum(rs: seq<WorkerResult>, metric: Metric, key: Key): real {
    if rs == [] then 0.0
    else
      var last := rs[|rs| - 1];
      ValueSum(rs[..|rs| - 1], metric, key) + (if last.Fetched? then Val(last.metrics, metric, key) else 0.0)
  }

  /** The request count and the check counters are plain sums. */
  lemma {:induction false} CountersAreSums(rs: seq<WorkerResult>)
    ensures Requests(rs) == ValueSum(rs, HttpReqs, Count)
    ensures CheckTotals(rs).passes == ValueSum(rs, Checks, Passes)
    ensures CheckTotals(rs).fails == ValueSum(rs, Checks, Fails)
    ensures CheckTotals(rs).rateSum == ValueSum(rs, Checks, Rate)
  {
    if rs != [] {
      CountersAreSums(rs[..|rs| - 1]);
    }
  }

  /** So are the failure counters, when every worker that has them has counted anything: what passes the check
      "request failed" is a failure. */
  lemma {:induction false} FailuresAreSums(rs: seq<WorkerResult>)
    requires forall i :: 0 <= i < |rs| ==> SaneWorker(rs[i]) && (rs[i].Fetched? && HttpReqFailed in rs[i].metrics ==>
               Val(rs[i].metrics, HttpReqFailed, Passes) + Val(rs[i].metrics, HttpReqFailed, Fails) > 0.0)
    ensures Http(rs) == HttpCounts(ValueSum(rs, HttpReqFailed, Passes), ValueSum(rs, HttpReqFailed, Fails))
    ensures Http(rs).failures >= 0.0 && Http(rs).successes >= 0.0
  {
    if rs != [] {
      var n := |rs| - 1;
      FailuresAreSums(rs[..n]);
      assert SaneWorker(rs[n]);
    }
  }

  /** The rates are the shares of failures and successes; without them, of failed and passed checks; without those,
      the mean of the workers' check rates; and with nothing but requests, everything failed. */
  lemma RatesMeaning(h: HttpCounts, c: CheckCounts, requests: real)
    ensures var r := RatesOf(h, c, requests);
            if h.failures + h.successes > 0.0 then
              && r.error * (h.failures + h.successes) == h.failures
              && r.success * (h.failures + h.successes) == h.successes
            else if c.passes + c.fails > 0.0 then
              r.error * (c.passes + c.fails) == c.fails && r.success * (c.passes + c.fails) == c.passes
            else if c.rates > 0 then r.success * c.rates as real == c.rateSum && r.error == 1.0 - r.success
            else r.success == 0.0 && r.error == if requests > 0.0 then 1.0 else 0.0
  {
    if h.successes + h.failures > 0.0 {
      DivideBack(h.failures, h.successes + h.failures);
      DivideBack(h.successes, h.successes + h.failures);
    } else if c.passes + c.fails > 0.0 {
      DivideBack(c.fails, c.passes + c.fails);
      DivideBack(c.passes, c.passes + c.fails);
    } else if c.rates > 0 {
      DivideBack(c.rateSum, c.rates as real);
    }
  }

  /** Halves are rounded away from zero, as Go's math.Round does. */
  lemma RoundNearest(x: real)
    ensures x >= 0.0 ==> Round(x) - 0.5 <= x < Round(x) + 0.5
    ensures x <= 0.0 ==> Round(x) - 0.5 < x <= Round(x) + 0.5
  {
  }

  lemma RoundWhole(x: real) returns (n: int)
    ensures Round(x) == n as real
  {
    n := if x >= 0.0 then (x + 0.5).Floor else -(-x + 0.5).Floor;
  }

  /** Counters that nobody has are made up from the error rate, and then account for all requests. */
  lemma ReportedMeaning(h: HttpCounts, requests: real, errorRate: real)
    requires errorRate >= 0.0
    ensures var r := Reported(h, requests, errorRate);
            if h.failures != 0.0 || h.successes != 0.0 || requests <= 0.0 then r == h
            else && r.failures + r.successes == requests
                 && r.failures - 0.5 <= Times(requests, errorRate) < r.failures + 0.5
  {
    if requests > 0.0 {
      ScaleOrder(0.0, requests, errorRate);
    }
  }

  /** VUs are whole: the fraction is dropped, towards zero; a worker that could not be fetched has none. */
  lemma VusMeaning(r: WorkerResult)
    ensures r.Failed? ==> VusOf(r) == 0
    ensures r.Fetched? ==>
              var v := Val(r.metrics, Vus, Value);
              if v >= 0.0 then VusOf(r) as real <= v < VusOf(r) as real + 1.0
              else VusOf(r) as real - 1.0 < v <= VusOf(r) as real
  {
  }

  lemma BothAveraged(a: WorkerResult, b: WorkerResult, s: Stat)
    requires a.Fetched? && b.Fetched? && Reports(a.metrics, s) && Reports(b.metrics, s)
    ensures Weighing([a, b]) == [a.metrics, b.metrics]
  {
    assert [a, b][..1] == [a] && [a][..0] == [];
    assert Weighs(a.metrics) && Weighs(b.metrics);
    assert Weighing([a]) == Weighing([]) + [a.metrics];
  }

  lemma TwoColumn(m: Metrics, n: Metrics, s: Stat)
    ensures Column(LatencyRows([m, n]), s)
         == [Part(StatOf(m, StatKey(s)), LatencyWeight(m)), Part(StatOf(n, StatKey(s)), LatencyWeight(n))]
  {
    LatencyOf(m, s);
    LatencyOf(n, s);
  }

  lemma TwoMean(m: Metrics, n: Metrics, l: Stats, s: Stat)
    requires Averaged(LatencyRows([m, n]), l)
    ensures var x, y := Part(StatOf(m, StatKey(s)), LatencyWeight(m)), Part(StatOf(n, StatKey(s)), LatencyWeight(n));
            Of(l, s) == Mean([x, y])
  {
    TwoColumn(m, n, s);
    assert Of(l, s) == Mean(Column(LatencyRows([m, n]), s));
  }

  /** Two workers that report a statistic are balanced by their requests; one without any counts as one request. */
  lemma TwoBalanced(a: WorkerResult, b: WorkerResult, l: Stats, s: Stat)
    requires a.Fetched? && b.Fetched? && Reports(a.metrics, s) && Reports(b.metrics, s)
    requires Averaged(LatencyRows(Weighing([a, b])), l)
    ensures var m, n := Val(a.metrics, HttpReqs, Count), Val(b.metrics, HttpReqs, Count);
            var v, w := if m > 0.0 then m else 1.0, if n > 0.0 then n else 1.0;
            var x, y := a.metrics[HttpReqDuration][StatKey(s)], b.metrics[HttpReqDuration][StatKey(s)];
            Of(l, s) == Mean([Part(x, v), Part(y, w)])
  {
    BothAveraged(a, b, s);
    TwoMean(a.metrics, b.metrics, l, s);
  }
}
