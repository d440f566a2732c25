// Startup recovery of one overdue schedule: skip ahead to the first occurrence
// that is not in the past.
module Recovery {
  import opened Instants
  import opened Recurrence
  import opened OccurrenceWalks
  import opened Schedules

  const MAX_ADVANCES: nat := 1000

  datatype Future = FutureAt(t: Instant) | Exhausted | Stuck

  function NextFutureFrom(current: Instant, s: Series, recoveryAt: Instant, fuel: nat): Future
    decreases fuel, s.skipped
  {
    if fuel == 0 then Stuck
    else
      match NextIncluded(current, s)
      case Fail => Stuck
      case NoMore => Exhausted
      case At(t) => if recoveryAt <= t then FutureAt(t) else NextFutureFrom(t, s, recoveryAt, fuel - 1)
  }

  function NextFuture(s: Series, recoveryAt: Instant): Future {
    NextFutureFrom(s.base, s, recoveryAt, MAX_ADVANCES)
  }

  method NextFutureOccurrence(s: Series, recoveryAt: Instant) returns (r: Future)
    ensures r == NextFuture(s, recoveryAt)
  {
    var current := s.base;
    for i := 0 to MAX_ADVANCES
      invariant NextFutureFrom(current, s, recoveryAt, MAX_ADVANCES - i) == NextFuture(s, recoveryAt)
    {
      var next := NextIncludedOccurrence(current, s);
      match next {
        case Fail => return Stuck;
        case NoMore => return Exhausted;
        case At(t) =>
          if recoveryAt <= t {
            return FutureAt(t);
          }
          current := t;
      }
    }
    return Stuck;
  }

  /** One hop of the search splits the later occurrences. */
  lemma LaterSplits(s: Series, from: Instant, u: Instant)
    requires Recurring(s.kind) && Forward(s.zone)
    requires NextIncluded(from, s).At?
    ensures Later(s, from, u) <==> u == NextIncluded(from, s).t || Later(s, NextIncluded(from, s).t, u)
  {
    var t := NextIncluded(from, s).t;
    var n := WalkStops(from, s, MAX_WALK);
    if Later(s, from, u) && u != t {
      var m: nat :| 1 <= m && u == Orbit(s, from, m);
      assert n < m;
      OrbitCompose(s, from, n, m - n);
    }
    if Later(s, t, u) {
      var m: nat :| 1 <= m && u == Orbit(s, t, m);
      OrbitCompose(s, from, n, m);
    }
  }

  /** Recovery lands on the least later occurrence that is not before the recovery
      time, and gives a series up for exhausted only when every later one is. */
  lemma {:induction false} NextFutureLeast(s: Series, from: Instant, recoveryAt: Instant, fuel: nat)
    requires Recurring(s.kind) && Forward(s.zone)
    ensures match NextFutureFrom(from, s, recoveryAt, fuel)
            case FutureAt(t) => recoveryAt <= t && Later(s, from, t)
                                && forall u :: Later(s, from, u) && recoveryAt <= u ==> t <= u
            case Exhausted => forall u :: Later(s, from, u) ==> u < recoveryAt
            case Stuck => true
    decreases fuel
  {
    if fuel > 0 {
      match NextIncluded(from, s) {
        case Fail =>
        case NoMore => NoMoreMeansNone(from, s);
        case At(t) =>
          NextIsLeast(from, s);
          if t < recoveryAt {
            NextFutureLeast(s, t, recoveryAt, fuel - 1);
            forall u ensures Later(s, from, u) <==> u == t || Later(s, t, u) {
              LaterSplits(s, from, u);
            }
          }
      }
    }
  }

  /** The `k`-th included occurrence after `from`, if there is one. */
  function Hop(s: Series, from: Instant, k: nat): Option<Instant>
    decreases k, s.skipped
  {
    if k == 0 then Some(from)
    else
      match NextIncluded(from, s)
      case At(t) => Hop(s, t, k - 1)
      case _ => None
  }

  /** With a short skip list the advance limit is the only way to get stuck: it
      happens exactly when the 1000th occurrence ahead is still in the past. */
  lemma {:induction false} StuckIff(s: Series, from: Instant, recoveryAt: Instant, fuel: nat)
    requires Recurring(s.kind) && Forward(s.zone)
    requires |SkippedSeconds(s.skipped)| < MAX_WALK
    requires fuel > 0
    ensures NextFutureFrom(from, s, recoveryAt, fuel).Stuck? <==>
            Hop(s, from, fuel).Some? && Hop(s, from, fuel).value < recoveryAt
    decreases fuel
  {
    SearchNeverFails(from, s);
    match NextIncluded(from, s) {
      case NoMore =>
      case At(t) =>
        if fuel > 1 {
          if t < recoveryAt {
            StuckIff(s, t, recoveryAt, fuel - 1);
          } else {
            HopsClimb(s, t, fuel - 1);
          }
        }
    }
  }

  lemma {:induction false} HopsClimb(s: Series, from: Instant, k: nat)
    requires Recurring(s.kind) && Forward(s.zone)
    ensures Hop(s, from, k).Some? ==> from + k * 3_600_000_000_000 <= Hop(s, from, k).value
    decreases k
  {
    if k > 0 && NextIncluded(from, s).At? {
      NextIsLeast(from, s);
      HopsClimb(s, NextIncluded(from, s).t, k - 1);
    }
  }

  /** An outage of at most 1000 hours never exceeds the advance limit. */
  lemma ShortOutageRecovers(s: Series, recoveryAt: Instant)
    requires Recurring(s.kind) && Forward(s.zone)
    requires |SkippedSeconds(s.skipped)| < MAX_WALK
    requires recoveryAt <= s.base + 1000 * HOUR
    ensures !NextFuture(s, recoveryAt).Stuck?
  {
    StuckIff(s, s.base, recoveryAt, MAX_ADVANCES);
    HopsClimb(s, s.base, MAX_ADVANCES);
  }

  lemma {:induction false} HourlyHop(s: Series, from: Instant, k: nat)
    requires s.kind.Hourly? && s.skipped == [] && s.end.None?
    ensures Hop(s, from, k) == Some(from + k * 3_600_000_000_000)
    decreases k
  {
    if k > 0 {
      assert !IsSkipped(from + HOUR, []);
      HourlyHop(s, from + HOUR, k - 1);
    }
  }

  /** For an hourly schedule without an end or a skip list the limit is met exactly after 1000 hours. */
  lemma HourlyStuckIff(s: Series, recoveryAt: Instant)
    requires s.kind.Hourly? && s.skipped == [] && s.end.None? && Forward(s.zone)
    ensures NextFuture(s, recoveryAt).Stuck? <==> s.base + 1000 * 3_600_000_000_000 < recoveryAt
  {
    assert SkippedSeconds(s.skipped) == {};
    StuckIff(s, s.base, recoveryAt, MAX_ADVANCES);
    HourlyHop(s, s.base, MAX_ADVANCES);
  }

  // ------------------------------------------------ one stored row

  predicate Overdue(row: Schedule, recoveryAt: Instant) {
    row.status.Scheduled? && !row.paused && row.scheduledAt < recoveryAt
  }

  function NormalizeRow(row: Schedule, recoveryAt: Instant): Schedule {
    if !Overdue(row, recoveryAt) then row
    else if row.kind.Once? then row.(status := Failed)
    else
      match NextFuture(SeriesOf(row), recoveryAt)
      case Stuck => row.(status := Failed)
      case Exhausted => row.(status := Completed)
      case FutureAt(t) => row.(scheduledAt := t, status := Scheduled)
  }

  lemma {:induction false} FutureIsIncluded(s: Series, from: Instant, recoveryAt: Instant, fuel: nat)
    requires NextFutureFrom(from, s, recoveryAt, fuel).FutureAt?
    ensures Recurring(s.kind)
    ensures recoveryAt <= NextFutureFrom(from, s, recoveryAt, fuel).t
    ensures Included(s, NextFutureFrom(from, s, recoveryAt, fuel).t)
    decreases fuel
  {
    NextAtIsIncluded(from, s, MAX_WALK);
    var t := NextIncluded(from, s).t;
    if t < recoveryAt {
      FutureIsIncluded(s, t, recoveryAt, fuel - 1);
    }
  }

  lemma {:induction false} NextAtIsIncluded(from: Instant, s: Series, fuel: nat)
    requires NextIncludedFrom(from, s, fuel).At?
    ensures Recurring(s.kind) && Included(s, NextIncludedFrom(from, s, fuel).t)
    decreases fuel
  {
    var next := NextOccurrence(from, s.kind, s.zone, s.end);
    if IsSkipped(next.t, s.skipped) {
      NextAtIsIncluded(next.t, s, fuel - 1);
    }
  }

  lemma {:induction false} FutureWhole(s: Series, from: Instant, recoveryAt: Instant, fuel: nat)
    requires WholeSecond(from) && NextFutureFrom(from, s, recoveryAt, fuel).FutureAt?
    ensures WholeSecond(NextFutureFrom(from, s, recoveryAt, fuel).t)
    decreases fuel
  {
    NextWhole(from, s, MAX_WALK);
    var t := NextIncluded(from, s).t;
    if t < recoveryAt {
      FutureWhole(s, t, recoveryAt, fuel - 1);
    }
  }

  lemma NormalizedWhole(row: Schedule, recoveryAt: Instant)
    requires WholeRow(row)
    ensures WholeRow(NormalizeRow(row, recoveryAt))
  {
    if Overdue(row, recoveryAt) && !row.kind.Once? && NextFuture(SeriesOf(row), recoveryAt).FutureAt? {
      FutureWhole(SeriesOf(row), row.scheduledAt, recoveryAt, MAX_ADVANCES);
    }
  }

  /** A recovered row that is still due to run runs in the future; if recovery had
      to move it, it stands on an included occurrence of its series. */
  lemma NormalizedRow(row: Schedule, recoveryAt: Instant)
    ensures var after := NormalizeRow(row, recoveryAt);
            && (after.status.Scheduled? && !after.paused ==> recoveryAt <= after.scheduledAt)
            && (after.status.Running? <==> row.status.Running?)
            && (after.scheduledAt != row.scheduledAt ==>
                  Included(SeriesOf(after), after.scheduledAt) && Recurring(after.kind))
            && after == row.(scheduledAt := after.scheduledAt, status := after.status)
            && (after.status.Scheduled? ==> row.status.Scheduled?)
  {
    if Overdue(row, recoveryAt) && !row.kind.Once? && NextFuture(SeriesOf(row), recoveryAt).FutureAt? {
      FutureIsIncluded(SeriesOf(row), row.scheduledAt, recoveryAt, MAX_ADVANCES);
    }
  }
}
