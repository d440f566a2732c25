// Weighted means: where they lie, and that they keep an order between two columns.
module WeightedMeans {
  function Times(a: real, b: real): real {
    a * b
  }

  datatype Part = Part(value: real, weight: real)

  function Weights(ps: seq<Part>): real {
    if ps == [] then 0.0 else Weights(ps[..|ps| - 1]) + ps[|ps| - 1].weight
  }

  function Products(ps: seq<Part>): real {
    if ps == [] then 0.0 else Products(ps[..|ps| - 1]) + Times(ps[|ps| - 1].value, ps[|ps| - 1].weight)
  }

  /** The mean the aggregations report: nothing weighs, nothing is divided. */
  function Mean(ps: seq<Part>): real {
    Ratio(Products(ps), Weights(ps))
  }

  function Ratio(total: real, weight: real): real {
    if weight > 0.0 then total / weight else total
  }

  lemma QuotientsEqualIff(p: real, w: real, v: real)
    requires w > 0.0 && v > 0.0
    ensures p / w == p / v <==> p == 0.0 || w == v
  {
    var q := p / w;
    assert q * w == p && (p / v) * v == p;
    if p / v == q {
      assert q * (w - v) == 0.0;
    }
  }

  /** More weight for the same sum changes the mean unless the sum is 0. */
  lemma RatioEqualIff(total: real, weight: real, part: real)
    requires 0.0 <= part <= weight && (part == 0.0 ==> total == 0.0)
    ensures Ratio(total, weight) == Ratio(total, part) <==> total == 0.0 || weight == part
  {
    if part > 0.0 {
      QuotientsEqualIff(total, weight, part);
    } else if weight > 0.0 {
      assert 0.0 / weight == 0.0;
    }
  }

  predicate Positive(ps: seq<Part>) {
    forall i :: 0 <= i < |ps| ==> ps[i].weight > 0.0
  }

  /** The same workers with the same weights, and values that are nowhere larger on the left. */
  predicate Below(ps: seq<Part>, qs: seq<Part>) {
    && |ps| == |qs|
    && forall i :: 0 <= i < |ps| ==> ps[i].weight == qs[i].weight && ps[i].value <= qs[i].value
  }

  lemma ScaleOrder(a: real, b: real, w: real)
    requires a <= b && w >= 0.0
    ensures a * w <= b * w
  {
  }

  lemma {:induction false} ProductsOrder(ps: seq<Part>, qs: seq<Part>)
    requires Positive(ps) && Below(ps, qs)
    ensures Weights(ps) == Weights(qs) && Products(ps) <= Products(qs)
  {
    if ps != [] {
      var n := |ps| - 1;
      ProductsOrder(ps[..n], qs[..n]);
      ScaleOrder(ps[n].value, qs[n].value, ps[n].weight);
    }
  }

  lemma {:induction false} ProductsBounded(ps: seq<Part>, low: real, high: real)
    requires Positive(ps) && forall i :: 0 <= i < |ps| ==> low <= ps[i].value <= high
    ensures low * Weights(ps) <= Products(ps) <= high * Weights(ps)
    ensures ps != [] ==> Weights(ps) > 0.0
    ensures Weights(ps) >= 0.0
  {
    if ps != [] {
      var n := |ps| - 1;
      ProductsBounded(ps[..n], low, high);
      BoundsAdd(Weights(ps[..n]), Products(ps[..n]), ps[n], low, high);
    }
  }

  lemma BoundsAdd(w: real, p: real, last: Part, low: real, high: real)
    requires low * w <= p <= high * w && low <= last.value <= high && last.weight >= 0.0
    ensures low * (w + last.weight) <= p + Times(last.value, last.weight) <= high * (w + last.weight)
  {
    ScaleOrder(low, last.value, last.weight);
    ScaleOrder(last.value, high, last.weight);
    assert low * (w + last.weight) == low * w + low * last.weight;
    assert high * (w + last.weight) == high * w + high * last.weight;
  }

  lemma DivideBounds(p: real, w: real, low: real, high: real)
    requires w > 0.0 && low * w <= p <= high * w
    ensures low <= p / w <= high
  {
    assert (p / w) * w == p;
  }

  lemma DivideOrder(p: real, q: real, w: real)
    requires w > 0.0 && p <= q
    ensures p / w <= q / w
  {
    assert (p / w) * w == p && (q / w) * w == q;
  }

  /** The mean lies within the range of the values. */
  lemma MeanWithin(ps: seq<Part>, low: real, high: real)
    requires ps != [] && Positive(ps) && forall i :: 0 <= i < |ps| ==> low <= ps[i].value <= high
    ensures low <= Mean(ps) <= high
  {
    ProductsBounded(ps, low, high);
    DivideBounds(Products(ps), Weights(ps), low, high);
  }

  /** Columns that are ordered worker by worker have ordered means. */
  lemma MeanOrder(ps: seq<Part>, qs: seq<Part>)
    requires Positive(ps) && Below(ps, qs)
    ensures Mean(ps) <= Mean(qs)
  {
    ProductsOrder(ps, qs);
    if Weights(ps) > 0.0 {
      DivideOrder(Products(ps), Products(qs), Weights(ps));
    }
  }

  // ------------------------------------------------ latency statistics

  datatype Stat = Avg | Med | P90 | P95 | P99

  datatype Stats = Stats(avg: real, med: real, p90: real, p95: real, p99: real)

  function Of(l: Stats, s: Stat): real {
    match s
    case Avg => l.avg
    case Med => l.med
    case P90 => l.p90
    case P95 => l.p95
    case P99 => l.p99
  }

  const NO_STATS := Stats(0.0, 0.0, 0.0, 0.0, 0.0)

  /** What one worker contributes. */
  datatype Row = Row(stats: Stats, weight: real)

  function Column(rows: seq<Row>, s: Stat): (ps: seq<Part>)
    ensures |ps| == |rows| && forall i :: 0 <= i < |rows| ==> ps[i] == Part(Of(rows[i].stats, s), rows[i].weight)
  {
    seq(|rows|, i requires 0 <= i < |rows| => Part(Of(rows[i].stats, s), rows[i].weight))
  }

  function AddRow(sums: Stats, row: Row): Stats {
    var l, w := row.stats, row.weight;
    Stats(sums.avg + Times(l.avg, w), sums.med + Times(l.med, w), sums.p90 + Times(l.p90, w),
          sums.p95 + Times(l.p95, w), sums.p99 + Times(l.p99, w))
  }

  function Divided(sums: Stats, total: real): Stats {
    if total > 0.0 then
      Stats(sums.avg / total, sums.med / total, sums.p90 / total, sums.p95 / total, sums.p99 / total)
    else sums
  }

  /** `sums` and `total` are the weighted sums of all statistics and the sum of the weights. */
  ghost predicate Summed(rows: seq<Row>, sums: Stats, total: real) {
    forall s: Stat :: Of(sums, s) == Products(Column(rows, s)) && total == Weights(Column(rows, s))
  }

  /** Every statistic of `l` is the weighted mean of the rows' statistic. */
  ghost predicate Averaged(rows: seq<Row>, l: Stats) {
    forall s: Stat :: Of(l, s) == Mean(Column(rows, s))
  }

  lemma SummedAppend(rows: seq<Row>, row: Row, sums: Stats, total: real)
    requires Summed(rows, sums, total)
    ensures Summed(rows + [row], AddRow(sums, row), total + row.weight)
  {
    forall s: Stat
      ensures Of(AddRow(sums, row), s) == Products(Column(rows + [row], s))
      ensures total + row.weight == Weights(Column(rows + [row], s))
    {
      assert Column(rows + [row], s)[..|rows|] == Column(rows, s);
      assert Of(sums, s) == Products(Column(rows, s));
      assert Of(AddRow(sums, row), s) == Of(sums, s) + Times(Of(row.stats, s), row.weight) by {
        match s
        case Avg =>
        case Med =>
        case P90 =>
        case P95 =>
        case P99 =>
      }
    }
  }

  lemma SummedAverages(rows: seq<Row>, sums: Stats, total: real)
    requires Summed(rows, sums, total)
    ensures Averaged(rows, Divided(sums, total))
  {
    forall s: Stat ensures Of(Divided(sums, total), s) == Mean(Column(rows, s)) {
      assert Of(sums, s) == Products(Column(rows, s));
    }
  }

  predicate PositiveRows(rows: seq<Row>) {
    forall i :: 0 <= i < |rows| ==> rows[i].weight > 0.0
  }

  /** A worker whose percentiles are in order. */
  predicate InOrder(l: Stats) {
    l.med <= l.p90 <= l.p95 <= l.p99
  }

  /** Percentiles that are in order on every contributing worker are in order after the merge. */
  lemma PercentilesStayOrdered(rows: seq<Row>, l: Stats)
    requires Averaged(rows, l) && PositiveRows(rows) && forall i :: 0 <= i < |rows| ==> InOrder(rows[i].stats)
    ensures InOrder(l)
  {
    MeanOrder(Column(rows, Med), Column(rows, P90));
    MeanOrder(Column(rows, P90), Column(rows, P95));
    MeanOrder(Column(rows, P95), Column(rows, P99));
    assert Of(l, Med) <= Of(l, P90) <= Of(l, P95) <= Of(l, P99);
  }

  /** No merged statistic leaves the range of the contributing workers' values. */
  lemma StatisticWithinRange(rows: seq<Row>, l: Stats, s: Stat, low: real, high: real)
    requires Averaged(rows, l) && PositiveRows(rows) && rows != []
    requires forall i :: 0 <= i < |rows| ==> low <= Of(rows[i].stats, s) <= high
    ensures low <= Of(l, s) <= high
  {
    MeanWithin(Column(rows, s), low, high);
  }

  /** The mean of two values balances them by their weights. */
  lemma MeanOfTwo(a: real, v: real, b: real, w: real)
    requires v > 0.0 && w > 0.0
    ensures Mean([Part(a, v)]) == a
    ensures Mean([Part(a, v), Part(b, w)]) * (v + w) == a * v + b * w
  {
    var ps := [Part(a, v), Part(b, w)];
    assert ps[..1] == [Part(a, v)] && ps[..1][..0] == [];
    assert Weights(ps[..1]) == v && Products(ps[..1]) == Times(a, v);
    assert Weights(ps) == v + w && Products(ps) == Times(a, v) + Times(b, w);
    assert (a * v) / v == a;
    DivideBack(Times(a, v) + Times(b, w), v + w);
  }

  lemma DivideBack(p: real, w: real)
    requires w > 0.0
    ensures p / w * w == p
  {
  }
}
