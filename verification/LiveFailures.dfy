// Live polls, in which the workers report a failure rate without the counters behind it.
module LiveFailures {
  import opened K6Metrics
  import opened WeightedMeans
  import opened Aggregation

  /** A worker as live polling shows it: a whole number of requests and the rate of those that failed. */
  predicate Live(r: WorkerResult) {
    r.Fetched? ==>
      && Val(r.metrics, HttpReqs, Count) >= 0.0
      && Val(r.metrics, HttpReqs, Count) == Val(r.metrics, HttpReqs, Count).Floor as real
      && Has(r.metrics, HttpReqFailed, Rate) && 0.0 <= Val(r.metrics, HttpReqFailed, Rate) <= 1.0
      && !Has(r.metrics, HttpReqFailed, Passes) && !Has(r.metrics, HttpReqFailed, Fails)
  }

  predicate AllLive(rs: seq<WorkerResult>) {
    forall i :: 0 <= i < |rs| ==> Live(rs[i])
  }

  predicate HasRequests(r: WorkerResult) {
    r.Fetched? && Val(r.metrics, HttpReqs, Count) > 0.0
  }

  /** What the worker's rate says about its own requests. */
  function Derived(r: WorkerResult): HttpCounts {
    if HasRequests(r) then
      var n, rate := Val(r.metrics, HttpReqs, Count), Val(r.metrics, HttpReqFailed, Rate);
      HttpCounts(Round(Times(n, rate)), Round(Times(n, 1.0 - rate)))
    else HttpCounts(0.0, 0.0)
  }

  lemma RoundedUp(x: real)
    requires x >= 0.0
    ensures Round(x) >= 0.0
    ensures x >= 0.5 ==> Round(x) >= 1.0
  {
  }

  predicate NonNegative(d: HttpCounts) {
    d.failures >= 0.0 && d.successes >= 0.0
  }

  function TotalOf(d: HttpCounts): real {
    d.failures + d.successes
  }

  lemma DerivedCounts(r: WorkerResult)
    requires Live(r)
    ensures NonNegative(Derived(r))
    ensures HasRequests(r) <==> TotalOf(Derived(r)) > 0.0
  {
    if HasRequests(r) {
      var n, rate := Val(r.metrics, HttpReqs, Count), Val(r.metrics, HttpReqFailed, Rate);
      SharesOf(n, rate);
      RoundedUp(Times(n, rate));
      RoundedUp(Times(n, 1.0 - rate));
    }
  }

  lemma SharesOf(n: real, rate: real)
    requires n >= 0.0 && 0.0 <= rate <= 1.0
    ensures Times(n, rate) >= 0.0 && Times(n, 1.0 - rate) >= 0.0 && Times(n, rate) + Times(n, 1.0 - rate) == n
  {
  }

  const ZERO := HttpCounts(0.0, 0.0)

  function DerivedOf(rs: seq<WorkerResult>): (ds: seq<HttpCounts>)
    ensures |ds| == |rs| && forall i :: 0 <= i < |ds| ==> ds[i] == Derived(rs[i])
  {
    seq(|rs|, i requires 0 <= i < |rs| => Derived(rs[i]))
  }

  lemma DerivedOfLive(rs: seq<WorkerResult>)
    requires AllLive(rs)
    ensures forall i :: 0 <= i < |rs| ==>
              NonNegative(DerivedOf(rs)[i]) && (HasRequests(rs[i]) <==> DerivedOf(rs)[i] != ZERO)
  {
    forall i | 0 <= i < |rs|
      ensures NonNegative(DerivedOf(rs)[i]) && (HasRequests(rs[i]) <==> DerivedOf(rs)[i] != ZERO)
    {
      DerivedCounts(rs[i]);
    }
  }

  // ------------------------------------------------ the first worker

  /** The first counters that are not both 0. */
  function FirstOf(ds: seq<HttpCounts>): HttpCounts {
    if ds == [] then ZERO
    else
      var before := FirstOf(ds[..|ds| - 1]);
      if before == ZERO then ds[|ds| - 1] else before
  }

  lemma AddLive(c: HttpCounts, r: WorkerResult)
    requires r.Fetched? && Live(r)
    ensures AddHttp(c, r.metrics) == if c == ZERO then Derived(r) else c
  {
  }

  lemma HttpLast(rs: seq<WorkerResult>)
    requires rs != [] && Live(rs[|rs| - 1])
    ensures Http(rs) == if Http(rs[..|rs| - 1]) == ZERO then Derived(rs[|rs| - 1]) else Http(rs[..|rs| - 1])
  {
    var last := rs[|rs| - 1];
    if last.Fetched? {
      AddLive(Http(rs[..|rs| - 1]), last);
    }
  }

  /** Once a worker has set the counters, the rates of all later ones are ignored. */
  lemma {:induction false} HttpIsFirst(rs: seq<WorkerResult>)
    requires AllLive(rs)
    ensures Http(rs) == FirstOf(DerivedOf(rs))
  {
    if rs != [] {
      var n := |rs| - 1;
      HttpIsFirst(rs[..n]);
      HttpLast(rs);
      assert DerivedOf(rs)[..n] == DerivedOf(rs[..n]);
    }
  }

  lemma {:induction false} FirstIsAt(ds: seq<HttpCounts>)
    requires forall i :: 0 <= i < |ds| ==> NonNegative(ds[i])
    ensures FirstOf(ds) == ZERO <==> forall i :: 0 <= i < |ds| ==> ds[i] == ZERO
    ensures forall i :: 0 <= i < |ds| && ds[i] != ZERO && (forall j :: 0 <= j < i ==> ds[j] == ZERO) ==>
              FirstOf(ds) == ds[i]
  {
    if ds != [] {
      var n := |ds| - 1;
      assert forall i :: 0 <= i < n ==> ds[..n][i] == ds[i];
      FirstIsAt(ds[..n]);
    }
  }

  // ------------------------------------------------ all workers together

  function Sum(ds: seq<HttpCounts>): HttpCounts {
    if ds == [] then ZERO
    else
      var before, last := Sum(ds[..|ds| - 1]), ds[|ds| - 1];
      HttpCounts(before.failures + last.failures, before.successes + last.successes)
  }

  lemma {:induction false} SumZeroIff(ds: seq<HttpCounts>)
    requires forall i :: 0 <= i < |ds| ==> NonNegative(ds[i])
    ensures NonNegative(Sum(ds))
    ensures Sum(ds) == ZERO <==> forall i :: 0 <= i < |ds| ==> ds[i] == ZERO
  {
    if ds != [] {
      var n := |ds| - 1;
      assert forall i :: 0 <= i < n ==> ds[..n][i] == ds[i];
      SumZeroIff(ds[..n]);
      assert NonNegative(ds[n]);
    }
  }

  predicate AtMostOne(ds: seq<HttpCounts>) {
    forall i, j :: 0 <= i < j < |ds| ==> ds[i] == ZERO || ds[j] == ZERO
  }

  lemma AtMostOneLast(ds: seq<HttpCounts>)
    requires ds != []
    ensures var n := |ds| - 1;
            AtMostOne(ds) <==> AtMostOne(ds[..n]) && (ds[n] == ZERO || forall i :: 0 <= i < n ==> ds[..n][i] == ZERO)
  {
  }

  /** The first counters are all there is exactly when no second worker has any. */
  lemma {:induction false} FirstIsSumIff(ds: seq<HttpCounts>)
    requires forall i :: 0 <= i < |ds| ==> NonNegative(ds[i])
    ensures FirstOf(ds).failures <= Sum(ds).failures && FirstOf(ds).successes <= Sum(ds).successes
    ensures FirstOf(ds) == Sum(ds) <==> AtMostOne(ds)
  {
    if ds != [] {
      var n := |ds| - 1;
      var before := ds[..n];
      assert forall i :: 0 <= i < n ==> before[i] == ds[i];
      FirstIsSumIff(before);
      FirstIsAt(before);
      SumZeroIff(before);
      AtMostOneLast(ds);
      assert NonNegative(ds[n]);
    }
  }

  /** The failure counters of a live poll are those of all workers together if and only if at most one worker has
      made a request. */
  lemma LiveTotalsIff(rs: seq<WorkerResult>)
    requires AllLive(rs)
    ensures Http(rs) == Sum(DerivedOf(rs))
       <==> forall i, j :: 0 <= i < j < |rs| ==> !(HasRequests(rs[i]) && HasRequests(rs[j]))
  {
    DerivedOfLive(rs);
    HttpIsFirst(rs);
    FirstIsSumIff(DerivedOf(rs));
  }

  function RatesFrom(d: HttpCounts): Rates
    requires TotalOf(d) > 0.0
  {
    Rates(d.failures / TotalOf(d), d.successes / TotalOf(d))
  }

  lemma CountersDecide(d: HttpCounts, c: CheckCounts, requests: real)
    requires TotalOf(d) > 0.0
    ensures RatesOf(d, c, requests) == RatesFrom(d)
  {
  }

  lemma FirstDecides(rs: seq<WorkerResult>, i: nat)
    requires AllLive(rs) && i < |rs| && HasRequests(rs[i]) && forall j :: 0 <= j < i ==> !HasRequests(rs[j])
    ensures Http(rs) == DerivedOf(rs)[i] && DerivedOf(rs)[i] != ZERO
  {
    DerivedOfLive(rs);
    HttpIsFirst(rs);
    FirstIsAt(DerivedOf(rs));
  }

  /** The rates of a live poll are those of its first worker with requests, whatever the others report. */
  lemma LiveRates(rs: seq<WorkerResult>, i: nat, c: CheckCounts, requests: real)
    requires AllLive(rs) && i < |rs| && HasRequests(rs[i]) && forall j :: 0 <= j < i ==> !HasRequests(rs[j])
    ensures TotalOf(Derived(rs[i])) > 0.0 && RatesOf(Http(rs), c, requests) == RatesFrom(Derived(rs[i]))
  {
    FirstDecides(rs, i);
    DerivedCounts(rs[i]);
    CountersDecide(Http(rs), c, requests);
  }

  function Unfailing(): WorkerResult {
    Fetched("a", map[HttpReqs := map[Count := 100.0], HttpReqFailed := map[Rate := 0.0]])
  }

  function AlwaysFailing(): WorkerResult {
    Fetched("b", map[HttpReqs := map[Count := 100.0], HttpReqFailed := map[Rate := 1.0]])
  }

  lemma TwoDerived()
    ensures Derived(Unfailing()) == HttpCounts(0.0, 100.0) && Derived(AlwaysFailing()) == HttpCounts(100.0, 0.0)
  {
    assert Times(100.0, 0.0) == 0.0 && Times(100.0, 1.0) == 100.0;
  }

  lemma AllSucceed(c: CheckCounts, requests: real)
    ensures RatesOf(HttpCounts(0.0, 100.0), c, requests) == Rates(0.0, 1.0)
  {
  }

  lemma BothLive()
    ensures AllLive([Unfailing(), AlwaysFailing()])
    ensures DerivedOf([Unfailing(), AlwaysFailing()]) == [HttpCounts(0.0, 100.0), HttpCounts(100.0, 0.0)]
  {
    TwoDerived();
  }

  lemma SumOfTwo(d: HttpCounts, e: HttpCounts)
    ensures Sum([d, e]) == HttpCounts(d.failures + e.failures, d.successes + e.successes)
    ensures FirstOf([d, e]) == if d == ZERO then e else d
  {
    var ds := [d, e];
    assert ds[..1] == [d] && [d][..0] == [];
    assert Sum([d]) == d && FirstOf([d]) == d;
  }

  /** Of two workers with a hundred requests each the second fails every time: the poll shows no errors at all. */
  lemma SecondWorkerUnseen(c: CheckCounts, requests: real)
    ensures var rs := [Unfailing(), AlwaysFailing()];
            AllLive(rs) && RatesOf(Http(rs), c, requests) == Rates(0.0, 1.0)
              && Sum(DerivedOf(rs)) == HttpCounts(100.0, 100.0)
  {
    var rs := [Unfailing(), AlwaysFailing()];
    BothLive();
    HttpIsFirst(rs);
    SumOfTwo(HttpCounts(0.0, 100.0), HttpCounts(100.0, 0.0));
    AllSucceed(c, requests);
  }
}
