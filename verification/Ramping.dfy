// The VU schedule of a ramp, and how a VU count is shared among the workers.
module Ramping {
  import opened Durations

  datatype Stage = Stage(duration: string, target: int)

  /** A stage whose duration text has been parsed, in nanoseconds. */
  datatype Leg = Leg(span: int, target: int)

  /** What the schedule says at one moment: the VU count, whether all stages are over, and the stage index. */
  datatype Plan = Plan(vus: int, done: bool, stage: int)

  function Parsed(stages: seq<Stage>): (legs: seq<Leg>)
    ensures |legs| == |stages|
  {
    seq(|stages|, i requires 0 <= i < |stages| => Leg(ParseStageDuration(stages[i].duration), stages[i].target))
  }

  /** When the first `k` stages are over. */
  function End(stages: seq<Leg>, k: nat): int
    requires k <= |stages|
  {
    if k == 0 then 0 else End(stages, k - 1) + stages[k - 1].span
  }

  function Total(stages: seq<Leg>): int {
    End(stages, |stages|)
  }

  /** The target in force when stage `k` begins. */
  function Before(stages: seq<Leg>, k: nat): int
    requires k <= |stages|
  {
    if k == 0 then 0 else stages[k - 1].target
  }

  /** The conversion `int(x)`: towards zero. */
  function Truncate(x: real): int {
    if x >= 0.0 then x.Floor else -(-x).Floor
  }

  /** The fraction of a stage that is over, kept within [0, 1]. An empty stage is only ever asked about moments
      before its end, where the quotient is minus infinity. */
  function Progress(into: int, span: int): (p: real)
    ensures 0.0 <= p <= 1.0
  {
    if span == 0 then 0.0
    else
      var p := into as real / span as real;
      if p < 0.0 then 0.0 else if p > 1.0 then 1.0 else p
  }

  function Lerp(from: real, distance: real, progress: real): real {
    from + progress * distance
  }

  function Interpolate(from: int, to: int, progress: real): int {
    Truncate(Lerp(from as real, (to - from) as real, progress))
  }

  /** The first stage, from `from` on, that ends after `elapsed`. */
  function StageAt(stages: seq<Leg>, elapsed: int, from: nat): (k: nat)
    requires from <= |stages|
    ensures from <= k <= |stages|
    ensures forall j :: from < j <= k ==> elapsed >= End(stages, j)
    ensures k < |stages| ==> elapsed < End(stages, k + 1)
    decreases |stages| - from
  {
    if from == |stages| || elapsed < End(stages, from + 1) then from else StageAt(stages, elapsed, from + 1)
  }

  function PlanAt(stages: seq<Leg>, elapsed: int): Plan {
    if stages == [] then Plan(0, true, -1)
    else
      var k := StageAt(stages, elapsed, 0);
      if k == |stages| then Plan(Before(stages, k), true, k - 1)
      else Plan(Interpolate(Before(stages, k), stages[k].target,
                            Progress(elapsed - End(stages, k), stages[k].span)), false, k)
  }

  predicate AllOver(stages: seq<Leg>, elapsed: int, n: nat)
    requires n <= |stages|
  {
    forall j :: 0 < j <= n ==> elapsed >= End(stages, j)
  }

  lemma PlanBehind(stages: seq<Leg>, elapsed: int)
    requires stages != [] && AllOver(stages, elapsed, |stages|)
    ensures PlanAt(stages, elapsed) == Plan(Before(stages, |stages|), true, |stages| - 1)
  {
  }

  lemma PlanWithin(stages: seq<Leg>, elapsed: int, k: nat)
    requires k < |stages| && AllOver(stages, elapsed, k) && elapsed < End(stages, k + 1)
    ensures PlanAt(stages, elapsed) == Plan(Interpolate(Before(stages, k), stages[k].target,
                                                        Progress(elapsed - End(stages, k), stages[k].span)), false, k)
  {
  }

  lemma StageOver(legs: seq<Leg>, elapsed: int, i: nat)
    requires i < |legs| && AllOver(legs, elapsed, i)
    ensures End(legs, i + 1) == End(legs, i) + legs[i].span && Before(legs, i + 1) == legs[i].target
    ensures elapsed >= End(legs, i + 1) ==> AllOver(legs, elapsed, i + 1)
  {
  }

  /** The stage that is under way, if any, when it began and from which target. */
  method FindStage(stages: seq<Stage>, elapsed: int) returns (i: nat, cumulative: int, prevTarget: int, stageDur: int)
    ensures i <= |stages| && AllOver(Parsed(stages), elapsed, i)
    ensures cumulative == End(Parsed(stages), i) && prevTarget == Before(Parsed(stages), i)
    ensures i < |stages| ==> stageDur == Parsed(stages)[i].span && elapsed < End(Parsed(stages), i + 1)
  {
    i, cumulative, prevTarget, stageDur := 0, 0, 0, 0;
    while i < |stages|
      invariant i <= |stages| && AllOver(Parsed(stages), elapsed, i)
      invariant cumulative == End(Parsed(stages), i) && prevTarget == Before(Parsed(stages), i)
    {
      StageOver(Parsed(stages), elapsed, i);
      stageDur := ParseStageDuration(stages[i].duration);
      var stageEnd := cumulative + stageDur;
      if elapsed < stageEnd {
        return;
      }
      cumulative := stageEnd;
      prevTarget := stages[i].target;
      i := i + 1;
    }
  }

  /** What the schedule says `into` a stage. */
  method PlanInStage(stage: nat, from: int, to: int, into: int, span: int, ghost legs: seq<Leg>, ghost elapsed: int)
    returns (plan: Plan)
    requires stage < |legs| && AllOver(legs, elapsed, stage) && elapsed < End(legs, stage + 1)
    requires from == Before(legs, stage) && to == legs[stage].target
    requires into == elapsed - End(legs, stage) && span == legs[stage].span
    ensures plan == PlanAt(legs, elapsed)
  {
    PlanWithin(legs, elapsed, stage);
    var progress := Progress(into, span);
    var vus := Interpolate(from, to, progress);
    return Plan(vus, false, stage);
  }

  /** calculateVUs. */
  method CalculateVUs(stages: seq<Stage>, elapsed: int) returns (plan: Plan)
    ensures plan == PlanAt(Parsed(stages), elapsed)
    ensures stages == [] ==> plan.vus == 0 && plan.done && plan.stage == -1
  {
    if |stages| == 0 {
      return Plan(0, true, -1);
    }
    var i, cumulative, prevTarget, stageDur := FindStage(stages, elapsed);
    if i < |stages| {
      plan := PlanInStage(i, prevTarget, stages[i].target, elapsed - cumulative, stageDur, Parsed(stages), elapsed);
      return;
    }
    PlanBehind(Parsed(stages), elapsed);
    return Plan(prevTarget, true, |stages| - 1);
  }

  // ------------------------------------------------ what the schedule says

  predicate NonNegative(stages: seq<Leg>) {
    forall i :: 0 <= i < |stages| ==> stages[i].span >= 0 && stages[i].target >= 0
  }

  lemma {:induction false} EndsAscend(stages: seq<Leg>, i: nat, j: nat)
    requires NonNegative(stages)
    requires i <= j <= |stages|
    ensures 0 <= End(stages, i) <= End(stages, j)
    decreases j
  {
    if i < j {
      EndsAscend(stages, i, j - 1);
    } else if j > 0 {
      EndsAscend(stages, j - 1, j - 1);
    }
  }

  lemma StageAtEarliest(stages: seq<Leg>, elapsed: int, k: nat)
    requires k < |stages| && elapsed < End(stages, k + 1)
    ensures StageAt(stages, elapsed, 0) <= k
  {
  }

  /** Later moments are never in an earlier stage, whatever the durations are. */
  lemma StageNeverGoesBack(stages: seq<Leg>, early: int, late: int)
    requires early <= late
    ensures StageAt(stages, early, 0) <= StageAt(stages, late, 0)
    ensures PlanAt(stages, early).stage <= PlanAt(stages, late).stage
    ensures PlanAt(stages, early).done ==> PlanAt(stages, late).done
  {
    var k := StageAt(stages, late, 0);
    if k < |stages| {
      StageAtEarliest(stages, early, k);
    }
  }

  /** The ramp is over exactly when the whole schedule has elapsed, and before that the stage is the one whose
      interval contains the moment. */
  lemma PlanCoversSchedule(stages: seq<Leg>, elapsed: int)
    requires NonNegative(stages) && elapsed >= 0
    ensures PlanAt(stages, elapsed).done <==> elapsed >= Total(stages)
    ensures var p := PlanAt(stages, elapsed);
            !p.done ==> 0 <= p.stage < |stages| && End(stages, p.stage) <= elapsed < End(stages, p.stage + 1)
  {
    var k := StageAt(stages, elapsed, 0);
    if k < |stages| {
      EndsAscend(stages, k + 1, |stages|);
    }
  }

  lemma TruncateWithin(low: int, x: real, high: int)
    requires low as real <= x <= high as real
    ensures low <= Truncate(x) <= high
  {
  }

  lemma ProductNonNegative(x: real, y: real)
    requires x >= 0.0 && y >= 0.0
    ensures x * y >= 0.0
  {
  }

  lemma ScaledWithin(p: real, d: real)
    requires 0.0 <= p <= 1.0 && d >= 0.0
    ensures 0.0 <= p * d <= d
  {
    ProductNonNegative(p, d);
    ProductNonNegative(1.0 - p, d);
    assert (1.0 - p) * d == d - p * d;
  }

  lemma NegatedLerp(from: real, d: real, e: real, p: real)
    requires d + e == 0.0
    ensures Lerp(from, d, p) == from - p * e
  {
    assert d == -e;
  }

  lemma MixUp(from: real, d: real, p: real)
    requires 0.0 <= p <= 1.0 && d >= 0.0
    ensures from <= Lerp(from, d, p) <= from + d
  {
    ScaledWithin(p, d);
  }

  lemma MixDown(from: real, d: real, p: real)
    requires 0.0 <= p <= 1.0 && d <= 0.0
    ensures from + d <= Lerp(from, d, p) <= from
  {
    var e := -d;
    ScaledWithin(p, e);
    NegatedLerp(from, d, e, p);
  }

  lemma InterpolateWithin(from: int, to: int, p: real)
    requires 0.0 <= p <= 1.0
    ensures from <= to ==> from <= Interpolate(from, to, p) <= to
    ensures from >= to ==> to <= Interpolate(from, to, p) <= from
  {
    var d := (to - from) as real;
    if from <= to {
      MixUp(from as real, d, p);
      TruncateWithin(from, Lerp(from as real, d, p), to);
    } else {
      MixDown(from as real, d, p);
      TruncateWithin(to, Lerp(from as real, d, p), from);
    }
  }

  /** The count lies between the targets of the previous and the current stage, for every schedule and moment. */
  lemma PlanBetweenTargets(stages: seq<Leg>, elapsed: int)
    ensures var p := PlanAt(stages, elapsed);
            p.stage >= 0 ==>
              var from := if p.done then Before(stages, |stages|) else Before(stages, p.stage);
              var to := stages[p.stage].target;
              (if from <= to then from else to) <= p.vus <= (if from <= to then to else from)
  {
    var k := StageAt(stages, elapsed, 0);
    if k < |stages| {
      InterpolateWithin(Before(stages, k), stages[k].target,
                        Progress(elapsed - End(stages, k), stages[k].span));
    }
  }

  lemma ProductOrder(d: int, a: int, b: int)
    requires d >= 0
    ensures a <= b ==> d * a <= d * b
  {
  }

  lemma DivAtLeast(y: int, q: int, d: int)
    requires d > 0 && y >= d * q
    ensures y / d >= q
  {
    var r := y / d;
    assert y == d * r + y % d;
    ProductOrder(d, r + 1, q);
  }

  lemma DivOrder(x: int, y: int, d: int)
    requires x <= y && d > 0
    ensures x / d <= y / d
  {
    assert x == d * (x / d) + x % d;
    DivAtLeast(y, x / d, d);
  }

  lemma FloorOfQuotient(n: int, d: int)
    requires d > 0
    ensures (n as real / d as real).Floor == n / d
  {
    var q := n / d;
    var x := n as real / d as real;
    assert n == d * q + n % d;
    assert (d * q) as real == d as real * q as real;
    assert (d * (q + 1)) as real == d as real * (q + 1) as real;
    assert x * d as real == n as real;
    ScaleCancels(q as real, x, d as real);
    ScaleCancels((q + 1) as real, x, d as real);
  }

  lemma ScaleCancels(a: real, b: real, d: real)
    requires d > 0.0
    ensures a * d <= b * d <==> a <= b
  {
    if a < b {
      assert (b - a) * d > 0.0;
    } else if b < a {
      assert (a - b) * d > 0.0;
    }
  }

  lemma SameQuotient(from: int, to: int, span: int, into: int, p: real)
    requires span > 0 && p * span as real == into as real
    ensures Lerp(from as real, (to - from) as real, p) == (from * span + into * (to - from)) as real / span as real
  {
    var s, f, d := span as real, from as real, (to - from) as real;
    assert (from * span) as real == f * s;
    assert (into * (to - from)) as real == into as real * d;
    assert (f + p * d) * s == f * s + (p * s) * d;
  }

  lemma MixNonNegative(from: int, to: int, p: real)
    requires from >= 0 && to >= 0 && 0.0 <= p <= 1.0
    ensures Lerp(from as real, (to - from) as real, p) >= 0.0
  {
    ProductNonNegative(1.0 - p, from as real);
    ProductNonNegative(p, to as real);
    assert from as real + p * (to - from) as real == (1.0 - p) * from as real + p * to as real;
  }

  lemma ProgressInside(into: int, span: int)
    requires 0 <= into < span
    ensures Progress(into, span) * span as real == into as real
  {
    var p := into as real / span as real;
    assert p * span as real == into as real;
    assert 0.0 <= p <= 1.0;
  }

  lemma InterpolateInIntegers(from: int, to: int, into: int, span: int)
    requires from >= 0 && to >= 0 && 0 <= into < span
    ensures Interpolate(from, to, Progress(into, span)) == (from * span + into * (to - from)) / span
  {
    var p := Progress(into, span);
    ProgressInside(into, span);
    SameQuotient(from, to, span, into, p);
    MixNonNegative(from, to, p);
    FloorOfQuotient(from * span + into * (to - from), span);
  }

  /** The floating-point expression is, in exact arithmetic, an integer division: no rounding but the last. */
  lemma PlanInIntegers(stages: seq<Leg>, elapsed: int)
    requires NonNegative(stages) && 0 <= elapsed < Total(stages)
    ensures var p := PlanAt(stages, elapsed);
            && !p.done && 0 <= p.stage < |stages|
            && var from, to, span := Before(stages, p.stage), stages[p.stage].target, stages[p.stage].span;
            span > 0 && p.vus == (from * span + (elapsed - End(stages, p.stage)) * (to - from)) / span
  {
    PlanCoversSchedule(stages, elapsed);
    var k := PlanAt(stages, elapsed).stage;
    InterpolateInIntegers(Before(stages, k), stages[k].target, elapsed - End(stages, k), stages[k].span);
  }

  lemma StageAtBoundary(stages: seq<Leg>, k: nat)
    requires NonNegative(stages) && k < |stages| && stages[k].span > 0
    ensures StageAt(stages, End(stages, k), 0) == k
  {
    var at := End(stages, k);
    var j := StageAt(stages, at, 0);
    if j < k {
      EndsAscend(stages, j + 1, k);
    }
    if k + 1 <= j {
      assert !(at >= End(stages, k + 1));
    }
  }

  /** A stage begins exactly where the previous one was to arrive, so the schedule has no jumps. */
  lemma StageStartsAtPreviousTarget(stages: seq<Leg>, k: nat)
    requires NonNegative(stages) && k < |stages| && stages[k].span > 0
    ensures PlanAt(stages, End(stages, k)) == Plan(Before(stages, k), false, k)
  {
    StageAtBoundary(stages, k);
    InterpolateAtStart(Before(stages, k), stages[k].target, stages[k].span);
    PlanAtStart(stages, k);
  }

  lemma PlanAtStart(stages: seq<Leg>, k: nat)
    requires k < |stages| && StageAt(stages, End(stages, k), 0) == k
    ensures PlanAt(stages, End(stages, k))
         == Plan(Interpolate(Before(stages, k), stages[k].target, Progress(0, stages[k].span)), false, k)
  {
  }

  lemma InterpolateAtStart(from: int, to: int, span: int)
    requires span > 0
    ensures Interpolate(from, to, Progress(0, span)) == from
  {
    assert Progress(0, span) == 0.0;
    assert 0.0 * (to - from) as real == 0.0;
    TruncateWithin(from, from as real, from);
  }

  lemma InterpolateOrder(from: int, to: int, a: int, b: int, span: int)
    requires a <= b && span > 0
    ensures from <= to ==> (from * span + a * (to - from)) / span <= (from * span + b * (to - from)) / span
    ensures from >= to ==> (from * span + a * (to - from)) / span >= (from * span + b * (to - from)) / span
  {
    var x, y := from * span + a * (to - from), from * span + b * (to - from);
    if from <= to {
      ProductOrder(to - from, a, b);
      DivOrder(x, y, span);
    }
    if from >= to {
      ProductOrder(from - to, a, b);
      assert a * (to - from) == -((from - to) * a) && b * (to - from) == -((from - to) * b);
      DivOrder(y, x, span);
    }
  }

  /** Within a stage the count moves towards the target and never back. */
  lemma PlanMovesTowardsTarget(stages: seq<Leg>, early: int, late: int)
    requires NonNegative(stages) && 0 <= early <= late < Total(stages)
    requires PlanAt(stages, early).stage == PlanAt(stages, late).stage
    ensures var k := PlanAt(stages, early).stage;
            && 0 <= k < |stages|
            && (Before(stages, k) <= stages[k].target ==> PlanAt(stages, early).vus <= PlanAt(stages, late).vus)
            && (Before(stages, k) >= stages[k].target ==> PlanAt(stages, early).vus >= PlanAt(stages, late).vus)
  {
    PlanInIntegers(stages, early);
    PlanInIntegers(stages, late);
    var k := PlanAt(stages, early).stage;
    InterpolateOrder(Before(stages, k), stages[k].target, early - End(stages, k), late - End(stages, k),
                     stages[k].span);
  }

  // ------------------------------------------------ shares

  /** Go's `/` on integers, for a positive divisor. */
  function Quotient(a: int, n: int): int
    requires n > 0
  {
    if a >= 0 then a / n else -((-a) / n)
  }

  /** Go's `%`, for a positive divisor. */
  function Remainder(a: int, n: int): int
    requires n > 0
  {
    a - Quotient(a, n) * n
  }

  /** The VU count ScaleVUs sends to worker `i` of `n`. */
  function Share(total: int, n: int, i: nat): int
    requires n > 0
  {
    Quotient(total, n) + (if i < Remainder(total, n) then 1 else 0)
  }

  function Sum(xs: seq<int>): int {
    if xs == [] then 0 else Sum(xs[..|xs| - 1]) + xs[|xs| - 1]
  }

  /** The sum of the first shares: full ones while the remainder lasts. */
  lemma {:induction false} SumOfShares(shares: seq<int>, total: int, n: int)
    requires n > 0 && forall i :: 0 <= i < |shares| ==> shares[i] == Share(total, n, i)
    ensures Sum(shares) == |shares| * Quotient(total, n)
            + (if |shares| < Remainder(total, n) then |shares|
               else if Remainder(total, n) > 0 then Remainder(total, n) else 0)
  {
    if shares != [] {
      var k := |shares| - 1;
      SumOfShares(shares[..k], total, n);
      assert (k + 1) * Quotient(total, n) == k * Quotient(total, n) + Quotient(total, n);
    }
  }

  /** The counts ScaleVUs sends, worker by worker. No worker at all is a division by zero in the original. */
  method ScaleVUs(total: int, n: nat) returns (shares: seq<int>)
    requires n > 0
    ensures |shares| == n && forall i :: 0 <= i < n ==> shares[i] == Share(total, n, i)
    ensures Sum(shares) == total <==> total >= 0 || Remainder(total, n) == 0
  {
    var perWorker := Quotient(total, n);
    var remainder := Remainder(total, n);
    shares := [];
    for i := 0 to n
      invariant |shares| == i && forall j :: 0 <= j < i ==> shares[j] == Share(total, n, j)
    {
      var vus := perWorker;
      if i < remainder {
        vus := vus + 1;
      }
      shares := shares + [vus];
    }
    SumOfShares(shares, total, n);
    QuotientExact(total, n);
  }

  lemma QuotientExact(total: int, n: int)
    requires n > 0
    ensures total >= 0 ==> 0 <= Remainder(total, n) < n
    ensures total <= 0 ==> -n < Remainder(total, n) <= 0
  {
    var m := if total >= 0 then total else -total;
    assert m == n * (m / n) + m % n;
  }

  lemma CeilingAtLeast(total: int, n: int, q: int, r: int)
    requires n > 0 && total == n * q + r && 0 <= r
    ensures q <= (total + n - 1) / n
    ensures r > 0 ==> q + 1 <= (total + n - 1) / n
  {
    DivAtLeast(total + n - 1, q, n);
    if r > 0 {
      assert n * (q + 1) == n * q + n;
      DivAtLeast(total + n - 1, q + 1, n);
    }
  }

  /** No two shares differ by more than one, and none exceeds the total divided and rounded up. */
  lemma SharesEven(total: int, n: int, i: nat, j: nat)
    requires n > 0 && total >= 0
    ensures -1 <= Share(total, n, i) - Share(total, n, j) <= 1
    ensures 0 <= Share(total, n, i) <= (total + n - 1) / n
  {
    QuotientExact(total, n);
    DivAtLeast(total, 0, n);
    CeilingAtLeast(total, n, Quotient(total, n), Remainder(total, n));
  }

  // ------------------------------------------------ the capacity the scripts ask for

  /** The largest target, at least one. */
  function Peak(stages: seq<Stage>): int {
    if stages == [] then 1
    else
      var rest := Peak(stages[..|stages| - 1]);
      if stages[|stages| - 1].target > rest then stages[|stages| - 1].target else rest
  }

  function TotalSeconds(stages: seq<Stage>): int {
    if stages == [] then 0
    else TotalSeconds(stages[..|stages| - 1]) + ParseDuration(stages[|stages| - 1].duration)
  }

  function PerWorker(peak: int, workers: int): int
    requires workers > 0
  {
    (peak + workers - 1) / workers
  }

  lemma PeakStep(stages: seq<Stage>, i: nat)
    requires i < |stages|
    ensures Peak(stages[..i + 1]) == (if stages[i].target > Peak(stages[..i]) then stages[i].target
                                      else Peak(stages[..i]))
    ensures TotalSeconds(stages[..i + 1]) == TotalSeconds(stages[..i]) + ParseDuration(stages[i].duration)
  {
    assert stages[..i + 1][..i] == stages[..i];
  }

  lemma {:induction false} PeakAtLeast(stages: seq<Stage>, i: nat)
    requires i <= |stages|
    ensures Peak(stages) >= 1
    ensures Before(Parsed(stages), i) <= Peak(stages)
  {
    if stages != [] {
      var init := stages[..|stages| - 1];
      if i < |stages| {
        PeakAtLeast(init, i);
        assert i > 0 ==> Parsed(init)[i - 1] == Parsed(stages)[i - 1];
      } else {
        PeakAtLeast(init, 0);
      }
    }
  }

  /** The loop of generateRampingVUs over the stages. */
  method PeakAndSeconds(stages: seq<Stage>) returns (maxVUs: int, totalDuration: int)
    ensures maxVUs == Peak(stages) && totalDuration == TotalSeconds(stages)
  {
    maxVUs, totalDuration := 0, 0;
    for i := 0 to |stages|
      invariant (if maxVUs < 1 then 1 else maxVUs) == Peak(stages[..i])
      invariant totalDuration == TotalSeconds(stages[..i])
    {
      PeakStep(stages, i);
      PeakAtLeast(stages[..i], 0);
      if stages[i].target > maxVUs {
        maxVUs := stages[i].target;
      }
      totalDuration := totalDuration + ParseDuration(stages[i].duration);
    }
    assert stages[..|stages|] == stages;
    if maxVUs < 1 {
      maxVUs := 1;
    }
  }

  /** generateRampingVUs: the per-worker capacity and the duration text written into the script. */
  method GenerateRampingVUs(stages: seq<Stage>, workers: nat, buffer: int) returns (perWorkerMax: int, duration: string)
    requires workers > 0
    ensures perWorkerMax == PerWorker(Peak(stages), workers)
    ensures duration == SecondsText(TotalSeconds(stages) + buffer)
  {
    var maxVUs, totalDuration := PeakAndSeconds(stages);
    perWorkerMax := PerWorker(maxVUs, workers);
    duration := SecondsText(totalDuration + buffer);
  }

  /** At every moment of every schedule no worker is asked for more VUs than its script allows. */
  lemma DemandFitsCapacity(stages: seq<Stage>, workers: int, elapsed: int, i: nat)
    requires workers > 0
    ensures Share(PlanAt(Parsed(stages), elapsed).vus, workers, i) <= PerWorker(Peak(stages), workers) <= Peak(stages)
  {
    var p := PlanAt(Parsed(stages), elapsed);
    PlanBetweenTargets(Parsed(stages), elapsed);
    PeakAtLeast(stages, 0);
    if p.stage >= 0 {
      PeakAtLeast(stages, p.stage + 1);
      PeakAtLeast(stages, if p.done then |stages| else p.stage);
    }
    assert p.vus <= Peak(stages);
    ShareBelow(p.vus, Peak(stages), workers, i);
  }

  lemma ShareBelow(vus: int, peak: int, n: int, i: nat)
    requires n > 0 && vus <= peak && peak >= 1
    ensures Share(vus, n, i) <= PerWorker(peak, n) <= peak
  {
    PerWorkerWithin(peak, n);
    if vus >= 0 {
      SharesEven(vus, n, i, i);
      DivOrder(vus + n - 1, peak + n - 1, n);
    } else {
      QuotientExact(vus, n);
      DivAtLeast(-vus, 0, n);
    }
  }

  lemma PerWorkerWithin(peak: int, n: int)
    requires n > 0 && peak >= 1
    ensures 1 <= PerWorker(peak, n) <= peak
  {
    DivAtLeast(peak + n - 1, 1, n);
    ProductOrder(peak - 1, 1, n);
    var q := (peak + n - 1) / n;
    assert peak + n - 1 == n * q + (peak + n - 1) % n;
    ProductOrder(n, peak + 1, q);
  }

  predicate FitsDurations(stages: seq<Stage>) {
    forall i :: 0 <= i < |stages| ==> FitsInt64(ParseDuration(stages[i].duration) * 1_000_000_000)
  }

  lemma {:induction false} EndInSeconds(stages: seq<Stage>, k: nat)
    requires FitsDurations(stages) && k <= |stages|
    ensures End(Parsed(stages), k) == TotalSeconds(stages[..k]) * 1_000_000_000
  {
    if k > 0 {
      EndInSeconds(stages, k - 1);
      PeakStep(stages, k - 1);
      SpanInSeconds(stages, k - 1);
    }
  }

  lemma SpanInSeconds(stages: seq<Stage>, i: nat)
    requires FitsDurations(stages) && i < |stages|
    ensures Parsed(stages)[i].span == ParseDuration(stages[i].duration) * 1_000_000_000
  {
    ParsersAgreeIff(stages[i].duration);
  }

  lemma TotalInSeconds(stages: seq<Stage>)
    requires FitsDurations(stages)
    ensures Total(Parsed(stages)) == TotalSeconds(stages) * 1_000_000_000
  {
    EndInSeconds(stages, |stages|);
    assert stages[..|stages|] == stages;
  }

  /** The script's own duration runs past the end of the ramp by exactly the completion buffer. */
  lemma ScriptOutlivesRamp(stages: seq<Stage>, buffer: int)
    requires FitsDurations(stages) && FitsInt64(TotalSeconds(stages) + buffer)
    ensures ParseDuration(SecondsText(TotalSeconds(stages) + buffer)) * 1_000_000_000
         == Total(Parsed(stages)) + buffer * 1_000_000_000
  {
    TotalInSeconds(stages);
    SecondsTextReadsBack(TotalSeconds(stages) + buffer);
  }

  // ------------------------------------------------ how tight capacity and shares are

  /** The peak is a target, or one if no target is larger, and no target exceeds it. */
  lemma {:induction false} PeakExact(stages: seq<Stage>)
    ensures Peak(stages) >= 1 && forall i :: 0 <= i < |stages| ==> stages[i].target <= Peak(stages)
    ensures Peak(stages) == 1 || exists i :: 0 <= i < |stages| && stages[i].target == Peak(stages)
  {
    if stages != [] {
      var n := |stages| - 1;
      PeakExact(stages[..n]);
      assert forall i :: 0 <= i < n ==> stages[..n][i] == stages[i];
    }
  }

  /** The capacity is the largest share of the peak: the first worker needs all of it. */
  lemma CapacityIsTight(peak: int, workers: int)
    requires peak >= 0 && workers > 0
    ensures PerWorker(peak, workers) == Share(peak, workers, 0)
  {
    var q, r := peak / workers, peak % workers;
    assert peak == workers * q + r;
    if r == 0 {
      SmallQuotient(q, workers - 1, workers);
    } else {
      assert workers * (q + 1) == workers * q + workers;
      SmallQuotient(q + 1, r - 1, workers);
    }
  }

  lemma SmallQuotient(q: int, r: int, n: int)
    requires 0 <= r < n
    ensures (n * q + r) / n == q
  {
    DivAtLeast(n * q + r, q, n);
    assert n * (q + 1) == n * q + n;
    DivBelow(n * q + r, q + 1, n);
  }

  lemma DivBelow(y: int, q: int, d: int)
    requires d > 0 && y < d * q
    ensures y / d < q
  {
    var r := y / d;
    assert y == d * r + y % d;
    ProductOrder(d, q, r);
  }

  /** The first workers get the larger shares. */
  lemma SharesDescend(total: int, n: int, i: nat, j: nat)
    requires n > 0 && i <= j
    ensures Share(total, n, j) <= Share(total, n, i)
  {
  }
}
