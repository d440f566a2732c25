// Merging the workers' authentication summaries into one.
module AuthMerge {
  import opened Instants
  import opened StatusCodes
  import WM = WeightedMeans

  datatype Texts = Texts(mode: string, tokenUrl: string, clientMethod: string, message: string,
                         abortCause: string, abortReason: string)

  datatype Counts5 = Counts5(requests: real, successes: real, failures: real, refreshes: real, reuseHits: real)

  datatype Timing = Timing(avgMs: real, p95Ms: real, p99Ms: real, maxMs: real)

  datatype AuthSummary = AuthSummary(
    aborted: bool, texts: Texts, skewSeconds: int, counts: Counts5, successRate: real, codes: seq<Entry>,
    abortTriggered: bool, abortRetryable: bool, abortCodes: seq<int>, timing: Timing)

  /** A quantity that is added up over the workers. */
  datatype Column =
    | Requests | Successes | Failures | Refreshes | ReuseHits
    | Weight | WeightedAvg | WeightedP95 | WeightedP99
    | Code(code: int)

  /** Only a positive request count weighs. */
  function WeightOf(s: AuthSummary): real {
    if s.counts.requests > 0.0 then s.counts.requests else 0.0
  }

  function Cell(s: AuthSummary, c: Column): real {
    match c
    case Requests => s.counts.requests
    case Successes => s.counts.successes
    case Failures => s.counts.failures
    case Refreshes => s.counts.refreshes
    case ReuseHits => s.counts.reuseHits
    case Weight => WeightOf(s)
    case WeightedAvg => s.timing.avgMs * WeightOf(s)
    case WeightedP95 => s.timing.p95Ms * WeightOf(s)
    case WeightedP99 => s.timing.p99Ms * WeightOf(s)
    case Code(code) => CountOf(s.codes, code)
  }

  function Sum(xs: seq<AuthSummary>, c: Column): real {
    if xs == [] then 0.0 else Sum(xs[..|xs| - 1], c) + Cell(xs[|xs| - 1], c)
  }

  function Mean(total: real, weight: real): real {
    if weight > 0.0 then total / weight else 0.0
  }

  // ------------------------------------------------ what merging means, without an order

  ghost predicate AddsUp(xs: seq<AuthSummary>, r: AuthSummary) {
    && r.counts == Counts5(Sum(xs, Requests), Sum(xs, Successes), Sum(xs, Failures), Sum(xs, Refreshes),
                           Sum(xs, ReuseHits))
    && Canonical(r.codes) && (forall c :: CountOf(r.codes, c) == Sum(xs, Code(c)))
  }

  ghost predicate Averages(xs: seq<AuthSummary>, r: AuthSummary) {
    && r.successRate == (if Sum(xs, Requests) > 0.0 then Sum(xs, Successes) / Sum(xs, Requests) else 0.0)
    && r.timing.avgMs == Mean(Sum(xs, WeightedAvg), Sum(xs, Weight))
    && r.timing.p95Ms == Mean(Sum(xs, WeightedP95), Sum(xs, Weight))
    && r.timing.p99Ms == Mean(Sum(xs, WeightedP99), Sum(xs, Weight))
  }

  /** Flags and code lists collect what any worker reports; the maximum is attained or zero. */
  ghost predicate Collects(xs: seq<AuthSummary>, r: AuthSummary) {
    && (r.aborted <==> exists s :: s in xs && s.aborted)
    && (r.abortTriggered <==> exists s :: s in xs && s.abortTriggered)
    && (r.abortRetryable <==> exists s :: s in xs && s.abortRetryable)
    && Ascending(r.abortCodes)
    && (forall c :: c in r.abortCodes <==> c > 0 && exists s :: s in xs && c in s.abortCodes)
    && r.timing.maxMs >= 0.0 && (forall s :: s in xs ==> s.timing.maxMs <= r.timing.maxMs)
    && (r.timing.maxMs == 0.0 || exists s :: s in xs && s.timing.maxMs == r.timing.maxMs)
  }

  /** The same workers in another order give the same counts, table, flags, rate, means and maximum. */
  lemma MergeOrderIndependent(xs: seq<AuthSummary>, ys: seq<AuthSummary>, r: AuthSummary, q: AuthSummary)
    requires multiset(xs) == multiset(ys)
    requires AddsUp(xs, r) && Averages(xs, r) && Collects(xs, r)
    requires AddsUp(ys, q) && Averages(ys, q) && Collects(ys, q)
    ensures r.counts == q.counts && r.codes == q.codes && r.successRate == q.successRate && r.timing == q.timing
    ensures r.aborted == q.aborted && r.abortTriggered == q.abortTriggered
    ensures r.abortRetryable == q.abortRetryable && r.abortCodes == q.abortCodes
  {
    forall c ensures Sum(xs, c) == Sum(ys, c) {
      SumPermuted(xs, ys, c);
    }
    CanonicalUnique(r.codes, q.codes) by {
      forall c ensures CountOf(r.codes, c) == CountOf(q.codes, c) {
        assert Sum(xs, Code(c)) == Sum(ys, Code(c));
      }
    }
    CollectsSame(xs, ys, r, q);
  }

  lemma CollectsSame(xs: seq<AuthSummary>, ys: seq<AuthSummary>, r: AuthSummary, q: AuthSummary)
    requires multiset(xs) == multiset(ys) && Collects(xs, r) && Collects(ys, q)
    ensures r.aborted == q.aborted && r.abortTriggered == q.abortTriggered
    ensures r.abortRetryable == q.abortRetryable && r.abortCodes == q.abortCodes
    ensures r.timing.maxMs == q.timing.maxMs
  {
    forall s ensures s in xs <==> s in ys {
      assert s in multiset(xs) <==> s in multiset(ys);
    }
    AscendingUnique(r.abortCodes, q.abortCodes);
  }

  lemma {:induction false} SumWithout(xs: seq<AuthSummary>, i: nat, c: Column)
    requires i < |xs|
    ensures Sum(xs, c) == Sum(xs[..i] + xs[i + 1..], c) + Cell(xs[i], c)
  {
    var n := |xs| - 1;
    if i < n {
      SumWithout(xs[..n], i, c);
      var rest := xs[..i] + xs[i + 1..];
      assert rest[..|rest| - 1] == xs[..n][..i] + xs[..n][i + 1..] && rest[|rest| - 1] == xs[n];
      assert xs[..n][i] == xs[i];
    } else {
      assert xs[..i] + xs[i + 1..] == xs[..n];
    }
  }

  lemma FindInPermuted(before: seq<AuthSummary>, last: AuthSummary, ys: seq<AuthSummary>) returns (i: nat)
    requires multiset(before + [last]) == multiset(ys)
    ensures i < |ys| && ys[i] == last && multiset(before) == multiset(ys[..i] + ys[i + 1..])
  {
    assert last in multiset(ys);
    i :| 0 <= i < |ys| && ys[i] == last;
    assert ys == ys[..i] + [ys[i]] + ys[i + 1..];
    assert multiset(before + [last]) - multiset{last} == multiset(before);
  }

  lemma {:induction false} SumPermuted(xs: seq<AuthSummary>, ys: seq<AuthSummary>, c: Column)
    requires multiset(xs) == multiset(ys)
    ensures Sum(xs, c) == Sum(ys, c)
    decreases |xs|
  {
    if xs == [] {
      assert |multiset(ys)| == |ys|;
    } else {
      var before, last := xs[..|xs| - 1], xs[|xs| - 1];
      assert xs == before + [last];
      var i := FindInPermuted(before, last, ys);
      SumPermuted(before, ys[..i] + ys[i + 1..], c);
      SumWithout(ys, i, c);
    }
  }

  // ------------------------------------------------ the merge

  /** The running state of the loop: the summary so far and the weighted sums. */
  datatype Running = Running(merged: AuthSummary, weight: real, avg: real, p95: real, p99: real)

  const EMPTY := AuthSummary(false, Texts("", "", "", "", "", ""), 0, Counts5(0.0, 0.0, 0.0, 0.0, 0.0), 0.0, [],
                             false, false, [], Timing(0.0, 0.0, 0.0, 0.0))

  function OrElse(a: string, b: string): string {
    if a == "" then b else a
  }

  function MergedTexts(a: Texts, b: Texts): Texts {
    Texts(OrElse(a.mode, b.mode), OrElse(a.tokenUrl, b.tokenUrl), OrElse(a.clientMethod, b.clientMethod),
          OrElse(a.message, b.message), OrElse(a.abortCause, b.abortCause), OrElse(a.abortReason, b.abortReason))
  }

  /** The first text that is not empty, field by field. */
  function FirstTexts(xs: seq<AuthSummary>): Texts {
    if xs == [] then Texts("", "", "", "", "", "")
    else
      MergedTexts(FirstTexts(xs[..|xs| - 1]), xs[|xs| - 1].texts)
  }

  /** The refresh skew of the first worker that has one, or 0. */
  ghost predicate FirstSkew(xs: seq<AuthSummary>, skew: int) {
    if skew == 0 then forall s :: s in xs ==> s.skewSeconds == 0
    else exists i :: 0 <= i < |xs| && xs[i].skewSeconds == skew && forall j :: 0 <= j < i ==> xs[j].skewSeconds == 0
  }

  ghost predicate Holds(xs: seq<AuthSummary>, a: Running) {
    && AddsUp(xs, a.merged) && Collects(xs, a.merged) && a.merged.texts == FirstTexts(xs)
    && FirstSkew(xs, a.merged.skewSeconds) && Weighs(xs, a)
  }

  ghost predicate Weighs(xs: seq<AuthSummary>, a: Running) {
    && a.weight == Sum(xs, Weight) && a.avg == Sum(xs, WeightedAvg)
    && a.p95 == Sum(xs, WeightedP95) && a.p99 == Sum(xs, WeightedP99)
  }

  lemma SumAppend(xs: seq<AuthSummary>, s: AuthSummary, c: Column)
    ensures Sum(xs + [s], c) == Sum(xs, c) + Cell(s, c)
  {
    assert (xs + [s])[..|xs|] == xs;
  }

  lemma CollectsAppend(xs: seq<AuthSummary>, s: AuthSummary, m: AuthSummary, r: AuthSummary)
    requires Collects(xs, m)
    requires r.aborted == (m.aborted || s.aborted) && r.abortTriggered == (m.abortTriggered || s.abortTriggered)
    requires r.abortRetryable == (m.abortRetryable || s.abortRetryable)
    requires Ascending(r.abortCodes)
    requires forall c :: c in r.abortCodes <==> c in m.abortCodes || (c > 0 && c in s.abortCodes)
    requires r.timing.maxMs == if s.timing.maxMs > m.timing.maxMs then s.timing.maxMs else m.timing.maxMs
    ensures Collects(xs + [s], r)
  {
    var all := xs + [s];
    assert forall t :: t in all <==> t in xs || t == s;
  }

  lemma AddsUpAppend(xs: seq<AuthSummary>, s: AuthSummary, m: AuthSummary, r: AuthSummary)
    requires AddsUp(xs, m) && Canonical(r.codes)
    requires r.counts == Counts5(m.counts.requests + s.counts.requests, m.counts.successes + s.counts.successes,
                                 m.counts.failures + s.counts.failures, m.counts.refreshes + s.counts.refreshes,
                                 m.counts.reuseHits + s.counts.reuseHits)
    requires forall c :: CountOf(r.codes, c) == CountOf(m.codes, c) + CountOf(s.codes, c)
    ensures AddsUp(xs + [s], r)
  {
    forall c ensures Sum(xs + [s], c) == Sum(xs, c) + Cell(s, c) {
      SumAppend(xs, s, c);
    }
    forall c ensures CountOf(r.codes, c) == Sum(xs + [s], Code(c)) {
      assert CountOf(m.codes, c) == Sum(xs, Code(c));
    }
  }

  lemma SkewAppend(xs: seq<AuthSummary>, s: AuthSummary, skew: int)
    requires FirstSkew(xs, skew)
    ensures FirstSkew(xs + [s], if skew == 0 then s.skewSeconds else skew)
  {
    var all := xs + [s];
    if skew != 0 {
      var i :| 0 <= i < |xs| && xs[i].skewSeconds == skew && forall j :: 0 <= j < i ==> xs[j].skewSeconds == 0;
      assert all[i] == xs[i] && forall j :: 0 <= j < i ==> all[j] == xs[j];
    } else if s.skewSeconds != 0 {
      assert all[|xs|] == s && forall j :: 0 <= j < |xs| ==> all[j] == xs[j] && all[j] in xs;
    }
  }

  lemma TextsAppend(xs: seq<AuthSummary>, s: AuthSummary)
    ensures FirstTexts(xs + [s]) == MergedTexts(FirstTexts(xs), s.texts)
  {
    assert (xs + [s])[..|xs|] == xs;
  }

  lemma WeighsAppend(xs: seq<AuthSummary>, s: AuthSummary, a: Running, b: Running)
    requires Weighs(xs, a)
    requires b.weight == a.weight + WeightOf(s) && b.avg == a.avg + Cell(s, WeightedAvg)
    requires b.p95 == a.p95 + Cell(s, WeightedP95) && b.p99 == a.p99 + Cell(s, WeightedP99)
    ensures Weighs(xs + [s], b)
  {
    SumAppend(xs, s, Weight);
    SumAppend(xs, s, WeightedAvg);
    SumAppend(xs, s, WeightedP95);
    SumAppend(xs, s, WeightedP99);
  }

  /** The summary's weighted figures, which an unweighted summary leaves alone. */
  method Weigh(a: Running, s: AuthSummary, ghost xs: seq<AuthSummary>) returns (b: Running)
    requires Weighs(xs, a)
    ensures Weighs(xs + [s], b) && b.merged == a.merged
  {
    var weight := s.counts.requests;
    b := a;
    if weight > 0.0 {
      b := Running(a.merged, a.weight + weight, a.avg + s.timing.avgMs * weight, a.p95 + s.timing.p95Ms * weight,
                   a.p99 + s.timing.p99Ms * weight);
    }
    WeighsAppend(xs, s, a, b);
  }

  /** One round of the loop. */
  method Absorb(a: Running, s: AuthSummary, ghost xs: seq<AuthSummary>) returns (b: Running)
    requires Holds(xs, a)
    ensures Holds(xs + [s], b)
  {
    var m := a.merged;
    var codes := MergeStatusCodeCounts(m.codes, s.codes);
    var abortCodes := AppendUniqueStatusCodes(m.abortCodes, s.abortCodes);
    var counts := Counts5(m.counts.requests + s.counts.requests, m.counts.successes + s.counts.successes,
                          m.counts.failures + s.counts.failures, m.counts.refreshes + s.counts.refreshes,
                          m.counts.reuseHits + s.counts.reuseHits);
    var maxMs := m.timing.maxMs;
    if s.timing.maxMs > maxMs {
      maxMs := s.timing.maxMs;
    }
    var merged := AuthSummary(m.aborted || s.aborted, MergedTexts(m.texts, s.texts),
                              if m.skewSeconds == 0 then s.skewSeconds else m.skewSeconds, counts, m.successRate, codes,
                              m.abortTriggered || s.abortTriggered, m.abortRetryable || s.abortRetryable, abortCodes,
                              m.timing.(maxMs := maxMs));
    AddsUpAppend(xs, s, m, merged);
    CollectsAppend(xs, s, m, merged);
    SkewAppend(xs, s, m.skewSeconds);
    TextsAppend(xs, s);
    b := Weigh(a.(merged := merged), s, xs);
  }

  /** The rate, the means and the message once all summaries are in. */
  method Conclude(a: Running, ghost xs: seq<AuthSummary>) returns (result: Option<AuthSummary>)
    requires Holds(xs, a)
    ensures result.None? <==> FirstTexts(xs).mode == "" && Sum(xs, Requests) == 0.0 && Sum(xs, Failures) == 0.0
    ensures result.Some? ==> AddsUp(xs, result.value) && Averages(xs, result.value) && Collects(xs, result.value)
    ensures result.Some? ==> FirstSkew(xs, result.value.skewSeconds)
    ensures result.Some? ==>
              result.value.texts == (var t := FirstTexts(xs);
                if result.value.aborted && t.message == "" then t.(message := t.abortReason) else t)
  {
    var m := a.merged;
    var rate := 0.0;
    if m.counts.requests > 0.0 {
      rate := m.counts.successes / m.counts.requests;
    }
    var texts := m.texts;
    if m.aborted && texts.message == "" && texts.abortReason != "" {
      texts := texts.(message := texts.abortReason);
    }
    var timing := Timing(Mean(a.avg, a.weight), Mean(a.p95, a.weight), Mean(a.p99, a.weight), m.timing.maxMs);
    if texts.mode == "" && m.counts.requests == 0.0 && m.counts.failures == 0.0 {
      return None;
    }
    return Some(m.(successRate := rate, texts := texts, timing := timing));
  }

  /** mergeAuthSummaries. It fails exactly when there is nothing to merge, or no summary names a mode and nothing
      was requested or failed. */
  method MergeAuthSummaries(xs: seq<AuthSummary>) returns (result: Option<AuthSummary>)
    ensures result.None? <==> xs == [] || (FirstTexts(xs).mode == "" && Sum(xs, Requests) == 0.0
                                            && Sum(xs, Failures) == 0.0)
    ensures result.Some? ==> AddsUp(xs, result.value) && Averages(xs, result.value) && Collects(xs, result.value)
    ensures result.Some? ==> FirstSkew(xs, result.value.skewSeconds)
    ensures result.Some? ==>
              result.value.texts == (var t := FirstTexts(xs);
                if result.value.aborted && t.message == "" then t.(message := t.abortReason) else t)
  {
    if |xs| == 0 {
      return None;
    }
    var a := Running(EMPTY, 0.0, 0.0, 0.0, 0.0);
    for i := 0 to |xs|
      invariant Holds(xs[..i], a)
    {
      assert xs[..i + 1] == xs[..i] + [xs[i]];
      a := Absorb(a, xs[i], xs[..i]);
    }
    assert xs[..|xs|] == xs;
    result := Conclude(a, xs);
  }

  // ------------------------------------------------ what single workers contribute

  /** The statistic a weighted column is about. */
  function StatisticOf(s: AuthSummary, c: Column): real
    requires Weighted(c)
  {
    if c.WeightedAvg? then s.timing.avgMs else if c.WeightedP95? then s.timing.p95Ms else s.timing.p99Ms
  }

  predicate Weighted(c: Column) {
    c.WeightedAvg? || c.WeightedP95? || c.WeightedP99?
  }

  /** The values of the workers that made requests, weighted by these. */
  function Parts(xs: seq<AuthSummary>, c: Column): seq<WM.Part>
    requires Weighted(c)
  {
    if xs == [] then []
    else
      var before, last := Parts(xs[..|xs| - 1], c), xs[|xs| - 1];
      if last.counts.requests > 0.0 then before + [WM.Part(StatisticOf(last, c), last.counts.requests)] else before
  }

  lemma WeightedCell(s: AuthSummary, c: Column)
    requires Weighted(c)
    ensures Cell(s, c) == if s.counts.requests > 0.0 then WM.Times(StatisticOf(s, c), s.counts.requests) else 0.0
  {
  }

  lemma PartsLast(xs: seq<AuthSummary>, c: Column)
    requires Weighted(c) && xs != []
    ensures var n := |xs| - 1;
            && WM.Products(Parts(xs, c)) == WM.Products(Parts(xs[..n], c)) + Cell(xs[n], c)
            && WM.Weights(Parts(xs, c)) == WM.Weights(Parts(xs[..n], c)) + WeightOf(xs[n])
  {
    var n := |xs| - 1;
    WeightedCell(xs[n], c);
    if xs[n].counts.requests > 0.0 {
      assert Parts(xs, c)[..|Parts(xs, c)| - 1] == Parts(xs[..n], c);
    }
  }

  lemma {:induction false} PartsSums(xs: seq<AuthSummary>, c: Column)
    requires Weighted(c)
    ensures Sum(xs, c) == WM.Products(Parts(xs, c)) && Sum(xs, Weight) == WM.Weights(Parts(xs, c))
  {
    if xs != [] {
      PartsSums(xs[..|xs| - 1], c);
      PartsLast(xs, c);
    }
  }

  lemma {:induction false} PartsWeigh(xs: seq<AuthSummary>, c: Column)
    requires Weighted(c)
    ensures WM.Positive(Parts(xs, c)) && Sum(xs, Weight) >= 0.0
    ensures Parts(xs, c) != [] ==> Sum(xs, Weight) > 0.0
  {
    if xs != [] {
      PartsWeigh(xs[..|xs| - 1], c);
    }
  }

  lemma {:induction false} PartsWithin(xs: seq<AuthSummary>, c: Column, low: real, high: real)
    requires Weighted(c)
    requires forall i :: 0 <= i < |xs| && xs[i].counts.requests > 0.0 ==> low <= StatisticOf(xs[i], c) <= high
    ensures forall k :: 0 <= k < |Parts(xs, c)| ==> low <= Parts(xs, c)[k].value <= high
  {
    if xs != [] {
      PartsWithin(xs[..|xs| - 1], c, low, high);
    }
  }

  /** Every merged statistic is the weighted mean over the workers that made requests. */
  lemma MergedIsMean(xs: seq<AuthSummary>, r: AuthSummary, c: Column)
    requires Averages(xs, r) && Weighted(c) && Parts(xs, c) != []
    ensures StatisticOf(r, c) == WM.Mean(Parts(xs, c))
  {
    PartsSums(xs, c);
    PartsWeigh(xs, c);
    if c.WeightedAvg? {
      assert r.timing.avgMs == Sum(xs, c) / Sum(xs, Weight);
    } else if c.WeightedP95? {
      assert r.timing.p95Ms == Sum(xs, c) / Sum(xs, Weight);
    } else {
      assert r.timing.p99Ms == Sum(xs, c) / Sum(xs, Weight);
    }
  }

  /** It lies within the range of their values. */
  lemma MergedMeansWithin(xs: seq<AuthSummary>, r: AuthSummary, c: Column, low: real, high: real)
    requires Averages(xs, r) && Weighted(c) && Parts(xs, c) != []
    requires forall i :: 0 <= i < |xs| && xs[i].counts.requests > 0.0 ==> low <= StatisticOf(xs[i], c) <= high
    ensures low <= StatisticOf(r, c) <= high
  {
    PartsWeigh(xs, c);
    PartsWithin(xs, c, low, high);
    MergedIsMean(xs, r, c);
    WM.MeanWithin(Parts(xs, c), low, high);
  }

  /** Merging one summary gives its own figures back. */
  lemma OneSummary(s: AuthSummary, r: AuthSummary)
    requires AddsUp([s], r) && Averages([s], r) && Collects([s], r)
    ensures r.counts == s.counts && forall c :: CountOf(r.codes, c) == CountOf(s.codes, c)
    ensures r.aborted == s.aborted && r.abortTriggered == s.abortTriggered && r.abortRetryable == s.abortRetryable
    ensures s.counts.requests > 0.0 ==>
              && r.successRate == s.counts.successes / s.counts.requests
              && r.timing.avgMs == s.timing.avgMs && r.timing.p95Ms == s.timing.p95Ms
              && r.timing.p99Ms == s.timing.p99Ms
  {
    forall c ensures Sum([s], c) == Cell(s, c) {
      SumAppend([], s, c);
      assert [] + [s] == [s];
    }
    forall c ensures CountOf(r.codes, c) == CountOf(s.codes, c) {
      assert Sum([s], Code(c)) == Cell(s, Code(c));
    }
    assert s in [s];
    if s.counts.requests > 0.0 {
      OneMean(s, r, WeightedAvg);
      OneMean(s, r, WeightedP95);
      OneMean(s, r, WeightedP99);
    }
  }

  lemma OneMean(s: AuthSummary, r: AuthSummary, c: Column)
    requires Averages([s], r) && Weighted(c) && s.counts.requests > 0.0
    ensures StatisticOf(r, c) == StatisticOf(s, c)
  {
    assert [s][..0] == [];
    assert Parts([s], c) == Parts([], c) + [WM.Part(StatisticOf(s, c), s.counts.requests)];
    MergedMeansWithin([s], r, c, StatisticOf(s, c), StatisticOf(s, c));
  }

  datatype TextKey = Mode | TokenUrl | ClientMethod | Message | AbortCause | AbortReason

  function TextOf(t: Texts, key: TextKey): string {
    match key
    case Mode => t.mode
    case TokenUrl => t.tokenUrl
    case ClientMethod => t.clientMethod
    case Message => t.message
    case AbortCause => t.abortCause
    case AbortReason => t.abortReason
  }

  /** Each merged text is the first one that is not empty. */
  lemma {:induction false} FirstTextExact(xs: seq<AuthSummary>, key: TextKey)
    ensures var text := TextOf(FirstTexts(xs), key);
            if text == "" then forall i :: 0 <= i < |xs| ==> TextOf(xs[i].texts, key) == ""
            else exists i :: 0 <= i < |xs| && TextOf(xs[i].texts, key) == text
                             && forall j :: 0 <= j < i ==> TextOf(xs[j].texts, key) == ""
  {
    if xs != [] {
      var n := |xs| - 1;
      FirstTextExact(xs[..n], key);
      assert forall i :: 0 <= i < n ==> xs[..n][i] == xs[i];
    }
  }
}
