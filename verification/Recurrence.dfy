// The recurrence calendar: a recurring series is the orbit of one step
// function, and every walk over it (the "next run" search, the calendar
// expansion) is a bounded walk along that orbit.
module Recurrence {
  import opened Instants

  const MAX_WALK: nat := 100

  datatype Kind = Once | Hourly | Daily | Weekly | Monthly | Unknown(name: string)

  predicate Recurring(kind: Kind) {
    !kind.Once? && !kind.Unknown?
  }

  /** A loaded time zone, as far as recurrence uses it: its date arithmetic on whole
      seconds, as `addDate(seconds, months, days)`. */
  datatype Zone = Zone(addDate: (int, nat, nat) -> int)

  /** `t.In(loc).AddDate(0, months, days).UTC()`, which carries the fraction of a second
      along. */
  function AddDate(zone: Zone, t: Instant, months: nat, days: nat): Instant {
    Seconds(zone.addDate(t / 1_000_000_000, months, days)) + t % 1_000_000_000
  }

  /** Calendar arithmetic moves forward by at least an hour. */
  ghost predicate Forward(zone: Zone) {
    forall t: Instant
      {:trigger AddDate(zone, t, 0, 1)} {:trigger AddDate(zone, t, 0, 7)} {:trigger AddDate(zone, t, 1, 0)} ::
      && t + HOUR <= AddDate(zone, t, 0, 1)
      && t + HOUR <= AddDate(zone, t, 0, 7)
      && t + HOUR <= AddDate(zone, t, 1, 0)
  }

  /** What fixes the set of occurrences of a schedule. */
  datatype Series = Series(base: Instant, kind: Kind, zone: Zone, end: Option<Instant>, skipped: seq<Instant>)

  predicate IsSkipped(target: Instant, skipped: seq<Instant>) {
    exists v | v in skipped :: SameSecond(v, target)
  }

  function Step(kind: Kind, zone: Zone, t: Instant): Instant
    requires Recurring(kind)
  {
    match kind
    case Hourly => t + HOUR
    case Daily => AddDate(zone, t, 0, 1)
    case Weekly => AddDate(zone, t, 0, 7)
    case Monthly => AddDate(zone, t, 1, 0)
  }

  /** `NoMore` stands for the zero time the source returns without an error. */
  datatype Next = At(t: Instant) | NoMore | Fail

  function NextOccurrence(current: Instant, kind: Kind, zone: Zone, end: Option<Instant>): Next {
    if kind.Once? then NoMore
    else if kind.Unknown? then Fail
    else
      var next := Step(kind, zone, current);
      if Within(end, next) then At(next) else NoMore
  }

  function NextIncludedFrom(current: Instant, s: Series, fuel: nat): Next
    decreases fuel, s.skipped
  {
    if fuel == 0 then Fail
    else
      match NextOccurrence(current, s.kind, s.zone, s.end)
      case At(t) => if IsSkipped(t, s.skipped) then NextIncludedFrom(t, s, fuel - 1) else At(t)
      case NoMore => NoMore
      case Fail => Fail
  }

  lemma {:induction false} NextWhole(current: Instant, s: Series, fuel: nat)
    requires WholeSecond(current) && NextIncludedFrom(current, s, fuel).At?
    ensures WholeSecond(NextIncludedFrom(current, s, fuel).t)
    decreases fuel
  {
    var next := NextOccurrence(current, s.kind, s.zone, s.end);
    StepWhole(s.kind, s.zone, current);
    if IsSkipped(next.t, s.skipped) {
      NextWhole(next.t, s, fuel - 1);
    }
  }

  /** The first later occurrence that is not skipped, looking at most 100 steps ahead. */
  function NextIncluded(current: Instant, s: Series): Next {
    NextIncludedFrom(current, s, MAX_WALK)
  }

  method NextIncludedOccurrence(current: Instant, s: Series) returns (r: Next)
    ensures r == NextIncluded(current, s)
  {
    var nextBase := current;
    for i := 0 to MAX_WALK
      invariant NextIncludedFrom(nextBase, s, MAX_WALK - i) == NextIncluded(current, s)
    {
      var next := NextOccurrence(nextBase, s.kind, s.zone, s.end);
      if !next.At? {
        return next;
      }
      if !IsSkipped(next.t, s.skipped) {
        return next;
      }
      nextBase := next.t;
    }
    return Fail;
  }

  function ExpandFrom(s: Series, durationS: int, current: Instant, fuel: nat, rangeStart: Instant,
                      rangeEnd: Instant): seq<TimeSlot>
    requires Recurring(s.kind)
    decreases fuel, s.skipped
  {
    if fuel == 0 || rangeEnd < current || !Within(s.end, current) then []
    else
      var slot := SlotAt(current, durationS);
      (if !IsSkipped(current, s.skipped) && rangeStart < slot.end && current < rangeEnd then [slot] else [])
      + ExpandFrom(s, durationS, Step(s.kind, s.zone, current), fuel - 1, rangeStart, rangeEnd)
  }

  /** The slots of a series that meet the range. A one-time schedule ignores its
      end date, and an unknown kind shows at most its base. */
  function Expand(s: Series, durationS: int, rangeStart: Instant, rangeEnd: Instant): seq<TimeSlot> {
    if Recurring(s.kind) then ExpandFrom(s, durationS, s.base, MAX_WALK, rangeStart, rangeEnd)
    else
      var slot := SlotAt(s.base, durationS);
      if (s.kind.Once? || Within(s.end, s.base)) && !IsSkipped(s.base, s.skipped)
         && s.base < rangeEnd && rangeStart < slot.end
      then [slot] else []
  }

  method ExpandOccurrences(s: Series, durationS: int, rangeStart: Instant, rangeEnd: Instant)
    returns (slots: seq<TimeSlot>)
    ensures slots == Expand(s, durationS, rangeStart, rangeEnd)
  {
    if s.kind.Once? {
      var slot := SlotAt(s.base, durationS);
      if !IsSkipped(s.base, s.skipped) && s.base < rangeEnd && rangeStart < slot.end {
        return [slot];
      }
      return [];
    }
    slots := [];
    var current := s.base;
    ghost var whole := Expand(s, durationS, rangeStart, rangeEnd);
    for i := 0 to MAX_WALK
      invariant s.kind.Unknown? ==> i == 0 && current == s.base && slots == []
      invariant Recurring(s.kind) ==>
          slots + ExpandFrom(s, durationS, current, MAX_WALK - i, rangeStart, rangeEnd) == whole
    {
      if rangeEnd < current {
        break;
      }
      if s.end.Some? && s.end.value < current {
        break;
      }
      var slot := SlotAt(current, durationS);
      var shown := if !IsSkipped(current, s.skipped) && rangeStart < slot.end && current < rangeEnd then [slot] else [];
      if s.kind.Unknown? {
        return slots + shown;
      }
      ghost var rest := ExpandFrom(s, durationS, Step(s.kind, s.zone, current), MAX_WALK - i - 1, rangeStart, rangeEnd);
      assert slots + (shown + rest) == (slots + shown) + rest;
      slots := slots + shown;
      current := Step(s.kind, s.zone, current);
    }
  }

  /** A one-time schedule is shown on its own day whatever its end date says; one of an unknown type once, and only
      up to its end date. */
  lemma SingleShown(s: Series, durationS: int, lo: Instant, hi: Instant)
    requires s.kind.Once? || s.kind.Unknown?
    ensures Expand(s, durationS, lo, hi)
         == if && !IsSkipped(s.base, s.skipped) && s.base < hi && lo < s.base + durationS * 1_000_000_000
               && (s.kind.Unknown? && s.end.Some? ==> s.base <= s.end.value)
            then [TimeSlot(s.base, s.base + durationS * 1_000_000_000)] else []
  {
  }

  // ---------------------------------------------------------------- orbit

  function Orbit(s: Series, from: Instant, n: nat): Instant
    requires Recurring(s.kind)
  {
    if n == 0 then from else Step(s.kind, s.zone, Orbit(s, from, n - 1))
  }

  lemma {:induction false} OrbitCompose(s: Series, from: Instant, m: nat, n: nat)
    requires Recurring(s.kind)
    ensures Orbit(s, Orbit(s, from, m), n) == Orbit(s, from, m + n)
  {
    if n > 0 {
      OrbitCompose(s, from, m, n - 1);
    }
  }

  lemma StepGrows(kind: Kind, zone: Zone, t: Instant)
    requires Recurring(kind) && Forward(zone)
    ensures t + HOUR <= Step(kind, zone, t)
  {
    match kind
    case Hourly =>
    case Daily => assert t + HOUR <= AddDate(zone, t, 0, 1);
    case Weekly => assert t + HOUR <= AddDate(zone, t, 0, 7);
    case Monthly => assert t + HOUR <= AddDate(zone, t, 1, 0);
  }

  /** A step keeps the fraction of a second, in every zone. */
  lemma StepWhole(kind: Kind, zone: Zone, t: Instant)
    requires Recurring(kind) && WholeSecond(t)
    ensures WholeSecond(Step(kind, zone, t))
  {
  }

  lemma {:induction false} OrbitWhole(s: Series, from: Instant, n: nat)
    requires Recurring(s.kind) && WholeSecond(from)
    ensures WholeSecond(Orbit(s, from, n))
  {
    if n > 0 {
      OrbitWhole(s, from, n - 1);
      StepWhole(s.kind, s.zone, Orbit(s, from, n - 1));
    }
  }

  /** Later orbit points are at least an hour later. */
  lemma {:induction false} OrbitGrows(s: Series, from: Instant, m: nat, n: nat)
    requires Recurring(s.kind) && Forward(s.zone)
    requires m < n
    ensures Orbit(s, from, m) + HOUR <= Orbit(s, from, n)
  {
    StepGrows(s.kind, s.zone, Orbit(s, from, n - 1));
    if m < n - 1 {
      OrbitGrows(s, from, m, n - 1);
    }
  }

  /** The orbit never meets a point twice, and its order is the order of its indices. */
  lemma OrbitOrder(s: Series, from: Instant, m: nat, n: nat)
    requires Recurring(s.kind) && Forward(s.zone)
    ensures Orbit(s, from, m) < Orbit(s, from, n) <==> m < n
    ensures Orbit(s, from, m) == Orbit(s, from, n) <==> m == n
  {
    if m < n {
      OrbitGrows(s, from, m, n);
    } else if n < m {
      OrbitGrows(s, from, n, m);
    }
  }

  /** An orbit point in the series: not skipped, not past the end date. */
  predicate Included(s: Series, t: Instant) {
    Within(s.end, t) && !IsSkipped(t, s.skipped)
  }

  /** `t` is an occurrence of the series after `from`. */
  ghost predicate Later(s: Series, from: Instant, t: Instant)
    requires Recurring(s.kind)
  {
    Included(s, t) && exists n: nat :: 1 <= n && t == Orbit(s, from, n)
  }

  /** `t` is an occurrence of the series, the base included. */
  ghost predicate Occurs(s: Series, t: Instant)
    requires Recurring(s.kind)
  {
    Included(s, t) && exists n: nat :: t == Orbit(s, s.base, n)
  }
}
