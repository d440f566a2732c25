// What the bounded walks compute, in terms of the unbounded orbit: the search
// for the next run, its failure bound, and its agreement with the calendar.
module OccurrenceWalks {
  import opened Instants
  import opened Recurrence

  /** The first `n - 1` points after `from` are all skipped and before the end date. */
  ghost predicate SkippedUntil(s: Series, from: Instant, n: nat)
    requires Recurring(s.kind)
  {
    forall m: nat :: 1 <= m < n ==> Within(s.end, Orbit(s, from, m)) && IsSkipped(Orbit(s, from, m), s.skipped)
  }

  /** The walk stops at orbit point `n`: the first included one, the first one past
      the end, or (out of fuel) just after the last one it may look at. */
  lemma {:induction false} WalkStops(from: Instant, s: Series, fuel: nat) returns (n: nat)
    requires Recurring(s.kind)
    ensures 1 <= n && SkippedUntil(s, from, n)
    ensures match NextIncludedFrom(from, s, fuel)
            case At(t) => n <= fuel && t == Orbit(s, from, n) && Included(s, t)
            case NoMore => n <= fuel && !Within(s.end, Orbit(s, from, n))
            case Fail => n == fuel + 1
    decreases fuel
  {
    n := 1;
    if fuel > 0 {
      var next := Step(s.kind, s.zone, from);
      assert Orbit(s, from, 1) == next by { assert Orbit(s, from, 0) == from; }
      if Within(s.end, next) && IsSkipped(next, s.skipped) {
        var k := WalkStops(next, s, fuel - 1);
        n := k + 1;
        OrbitCompose(s, from, 1, k);
        forall m: nat | 1 <= m < n
          ensures Within(s.end, Orbit(s, from, m)) && IsSkipped(Orbit(s, from, m), s.skipped)
        {
          if m > 1 { OrbitCompose(s, from, 1, m - 1); }
        }
      }
    }
  }

  // -------------------------------------------------- the 100-step bound

  function SkippedSeconds(skipped: seq<Instant>): set<Instant> {
    set v | v in skipped :: Normalize(v)
  }

  ghost function OrbitSeconds(s: Series, from: Instant, n: nat): set<Instant>
    requires Recurring(s.kind)
  {
    if n == 0 then {} else OrbitSeconds(s, from, n - 1) + {Normalize(Orbit(s, from, n))}
  }

  lemma {:induction false} InOrbitSeconds(s: Series, from: Instant, n: nat, x: Instant)
    requires Recurring(s.kind)
    requires x in OrbitSeconds(s, from, n)
    ensures exists m: nat :: 1 <= m <= n && x == Normalize(Orbit(s, from, m))
  {
    if x != Normalize(Orbit(s, from, n)) {
      InOrbitSeconds(s, from, n - 1, x);
    }
  }

  lemma {:induction false} OrbitSecondsCount(s: Series, from: Instant, n: nat)
    requires Recurring(s.kind) && Forward(s.zone)
    ensures |OrbitSeconds(s, from, n)| == n
  {
    if n > 0 {
      OrbitSecondsCount(s, from, n - 1);
      var newest := Normalize(Orbit(s, from, n));
      if newest in OrbitSeconds(s, from, n - 1) {
        InOrbitSeconds(s, from, n - 1, newest);
        var m: nat :| 1 <= m <= n - 1 && newest == Normalize(Orbit(s, from, m));
        OrbitGrows(s, from, m, n);
        NormalizeSeparates(Orbit(s, from, m), Orbit(s, from, n));
        assert false;
      }
    }
  }

  lemma SubsetSize<T>(a: set<T>, b: set<T>)
    requires a <= b
    ensures |a| <= |b|
  {
    assert b == a + (b - a);
  }

  /** A skip list of fewer than 100 distinct seconds never exhausts the search. */
  lemma SearchNeverFails(from: Instant, s: Series)
    requires Recurring(s.kind) && Forward(s.zone)
    requires |SkippedSeconds(s.skipped)| < MAX_WALK
    ensures !NextIncluded(from, s).Fail?
  {
    var n := WalkStops(from, s, MAX_WALK);
    if NextIncluded(from, s).Fail? {
      forall x | x in OrbitSeconds(s, from, MAX_WALK) ensures x in SkippedSeconds(s.skipped) {
        InOrbitSeconds(s, from, MAX_WALK, x);
        var m: nat :| 1 <= m <= MAX_WALK && x == Normalize(Orbit(s, from, m));
        assert IsSkipped(Orbit(s, from, m), s.skipped);
      }
      OrbitSecondsCount(s, from, MAX_WALK);
      SubsetSize(OrbitSeconds(s, from, MAX_WALK), SkippedSeconds(s.skipped));
    }
  }

  /** The search gives up exactly for an unknown recurrence type, and behind a hundred points that are all skipped
      and not past the end; a one-time schedule has no next run. */
  lemma SearchFailsIff(from: Instant, s: Series)
    ensures NextIncluded(from, s).Fail? <==>
            || s.kind.Unknown?
            || (Recurring(s.kind)
                && forall m: nat :: 1 <= m <= 100 ==>
                     Within(s.end, Orbit(s, from, m)) && exists v :: v in s.skipped && SameSecond(v, Orbit(s, from, m)))
    ensures s.kind.Once? ==> NextIncluded(from, s).NoMore?
  {
    if Recurring(s.kind) {
      var n := WalkStops(from, s, MAX_WALK);
    }
  }

  // -------------------------------------------------- the next run

  /** An answer of the search is the least later occurrence. */
  lemma NextIsLeast(from: Instant, s: Series)
    requires Recurring(s.kind) && Forward(s.zone)
    requires NextIncluded(from, s).At?
    ensures Later(s, from, NextIncluded(from, s).t)
    ensures from + HOUR <= NextIncluded(from, s).t
    ensures forall u :: Later(s, from, u) ==> NextIncluded(from, s).t <= u
  {
    var n := WalkStops(from, s, MAX_WALK);
    var t := NextIncluded(from, s).t;
    OrbitGrows(s, from, 0, n);
    forall u | Later(s, from, u) ensures t <= u {
      var m: nat :| 1 <= m && u == Orbit(s, from, m);
      assert n <= m;
      OrbitOrder(s, from, m, n);
    }
  }

  /** "No more" is said only when no later occurrence exists. */
  lemma NoMoreMeansNone(from: Instant, s: Series)
    requires Recurring(s.kind) && Forward(s.zone)
    requires NextIncluded(from, s).NoMore?
    ensures forall u :: !Later(s, from, u)
  {
    var n := WalkStops(from, s, MAX_WALK);
    forall u ensures !Later(s, from, u) {
      if Later(s, from, u) {
        var m: nat :| 1 <= m && u == Orbit(s, from, m);
        assert n <= m;
        OrbitOrder(s, from, m, n);
        assert false;
      }
    }
  }

  /** With a short skip list the search decides, for every instant, whether it is
      the least later occurrence. */
  lemma NextIncludedExact(from: Instant, s: Series, t: Instant)
    requires Recurring(s.kind) && Forward(s.zone)
    requires |SkippedSeconds(s.skipped)| < MAX_WALK
    ensures NextIncluded(from, s) == At(t) <==> Later(s, from, t) && forall u :: Later(s, from, u) ==> t <= u
    ensures NextIncluded(from, s) == NoMore <==> forall u :: !Later(s, from, u)
  {
    SearchNeverFails(from, s);
    if NextIncluded(from, s).At? {
      NextIsLeast(from, s);
    } else {
      NoMoreMeansNone(from, s);
    }
  }

  // -------------------------------------------------- the calendar

  /** The orbit point `t` is included and its slot meets the range. */
  predicate Visible(s: Series, durationS: int, lo: Instant, hi: Instant, t: Instant) {
    Included(s, t) && t < hi && lo < SlotAt(t, durationS).end
  }

  /** `t` is a visible point among the first `bound` ones. */
  ghost predicate Shown(s: Series, durationS: int, lo: Instant, hi: Instant, from: Instant, bound: nat, t: Instant)
    requires Recurring(s.kind)
  {
    Visible(s, durationS, lo, hi, t) && exists n: nat :: n < bound && t == Orbit(s, from, n)
  }

  lemma ShownUnfolds(s: Series, durationS: int, lo: Instant, hi: Instant, from: Instant, bound: nat, t: Instant)
    requires Recurring(s.kind) && bound > 0
    ensures Shown(s, durationS, lo, hi, from, bound, t) <==>
              (t == from && Visible(s, durationS, lo, hi, t))
              || Shown(s, durationS, lo, hi, Step(s.kind, s.zone, from), bound - 1, t)
  {
    var next := Step(s.kind, s.zone, from);
    assert Orbit(s, from, 0) == from;
    assert Orbit(s, from, 1) == next;
    if Shown(s, durationS, lo, hi, from, bound, t) && t != from {
      var n: nat :| n < bound && t == Orbit(s, from, n);
      OrbitCompose(s, from, 1, n - 1);
    }
    if Shown(s, durationS, lo, hi, next, bound - 1, t) {
      var n: nat :| n < bound - 1 && t == Orbit(s, next, n);
      OrbitCompose(s, from, 1, n);
    }
  }

  ghost predicate StartsIncrease(slots: seq<TimeSlot>) {
    forall i, j :: 0 <= i < j < |slots| ==> slots[i].start < slots[j].start
  }

  lemma ShownNotBefore(s: Series, durationS: int, lo: Instant, hi: Instant, from: Instant, bound: nat, t: Instant)
    requires Recurring(s.kind) && Forward(s.zone)
    requires Shown(s, durationS, lo, hi, from, bound, t)
    ensures from <= t
  {
    var n: nat :| n < bound && t == Orbit(s, from, n);
    OrbitOrder(s, from, n, 0);
  }

  lemma {:induction false} ExpandFromExact(s: Series, durationS: int, from: Instant, fuel: nat, lo: Instant,
                                           hi: Instant)
    requires Recurring(s.kind) && Forward(s.zone)
    ensures var slots := ExpandFrom(s, durationS, from, fuel, lo, hi);
            && StartsIncrease(slots)
            && forall slot :: slot in slots <==>
                 slot == SlotAt(slot.start, durationS) && Shown(s, durationS, lo, hi, from, fuel, slot.start)
    decreases fuel
  {
    var slots := ExpandFrom(s, durationS, from, fuel, lo, hi);
    if fuel == 0 || hi < from || !Within(s.end, from) {
      forall t | Shown(s, durationS, lo, hi, from, fuel, t) ensures false {
        ShownNotBefore(s, durationS, lo, hi, from, fuel, t);
      }
    } else {
      var next := Step(s.kind, s.zone, from);
      StepGrows(s.kind, s.zone, from);
      var rest := ExpandFrom(s, durationS, next, fuel - 1, lo, hi);
      ExpandFromExact(s, durationS, next, fuel - 1, lo, hi);
      var head := if Visible(s, durationS, lo, hi, from) then [SlotAt(from, durationS)] else [];
      assert slots == head + rest;
      forall slot | slot in rest ensures from < slot.start {
        ShownNotBefore(s, durationS, lo, hi, next, fuel - 1, slot.start);
      }
      forall slot ensures slot in slots <==>
          slot == SlotAt(slot.start, durationS) && Shown(s, durationS, lo, hi, from, fuel, slot.start)
      {
        ShownUnfolds(s, durationS, lo, hi, from, fuel, slot.start);
      }
    }
  }

  /** The calendar shows exactly the included orbit points among the first 100
      whose slot meets the range, in time order, each with its own duration. */
  lemma ExpandExact(s: Series, durationS: int, lo: Instant, hi: Instant)
    requires Recurring(s.kind) && Forward(s.zone)
    ensures var slots := Expand(s, durationS, lo, hi);
            && StartsIncrease(slots)
            && forall slot :: slot in slots <==>
                 slot == SlotAt(slot.start, durationS) && Shown(s, durationS, lo, hi, s.base, MAX_WALK, slot.start)
  {
    ExpandFromExact(s, durationS, s.base, MAX_WALK, lo, hi);
  }

  /** A walk from orbit point `a` over skipped points only arrives at `b`. */
  lemma WalkReaches(s: Series, a: nat, b: nat)
    requires Recurring(s.kind) && Forward(s.zone)
    requires a < b < MAX_WALK
    requires Included(s, Orbit(s, s.base, b))
    requires forall m: nat :: a < m < b ==> !Included(s, Orbit(s, s.base, m))
    ensures NextIncluded(Orbit(s, s.base, a), s) == At(Orbit(s, s.base, b))
  {
    var from := Orbit(s, s.base, a);
    OrbitCompose(s, s.base, a, b - a);
    forall m: nat | 1 <= m < b - a ensures !Included(s, Orbit(s, from, m)) {
      OrbitCompose(s, s.base, a, m);
      assert a < a + m < b;
    }
    WalkReachesFrom(s, from, b - a);
  }

  /** The same, told from the point the walk starts at. */
  lemma WalkReachesFrom(s: Series, from: Instant, k: nat)
    requires Recurring(s.kind) && Forward(s.zone)
    requires 1 <= k < MAX_WALK && Included(s, Orbit(s, from, k))
    requires forall m: nat :: 1 <= m < k ==> !Included(s, Orbit(s, from, m))
    ensures NextIncluded(from, s) == At(Orbit(s, from, k))
  {
    var n := WalkStops(from, s, MAX_WALK);
    if n < k {
      OrbitOrder(s, from, n, k);
    }
  }

  /** Two orbit points between which the calendar shows nothing, the later one shown,
      follow each other in the scheduler's search. */
  lemma NothingBetween(s: Series, durationS: int, lo: Instant, hi: Instant, a: nat, b: nat)
    requires Recurring(s.kind) && Forward(s.zone)
    requires a < b < MAX_WALK
    requires lo < SlotAt(Orbit(s, s.base, a), durationS).end
    requires Visible(s, durationS, lo, hi, Orbit(s, s.base, b))
    requires forall t :: Orbit(s, s.base, a) < t < Orbit(s, s.base, b) ==>
               !Shown(s, durationS, lo, hi, s.base, MAX_WALK, t)
    ensures NextIncluded(Orbit(s, s.base, a), s) == At(Orbit(s, s.base, b))
  {
    forall m: nat | a < m < b ensures !Included(s, Orbit(s, s.base, m)) {
      OrbitOrder(s, s.base, a, m);
      OrbitOrder(s, s.base, m, b);
      assert !Shown(s, durationS, lo, hi, s.base, MAX_WALK, Orbit(s, s.base, m));
    }
    WalkReaches(s, a, b);
  }

  /** The calendar and the scheduler walk the series alike: from each shown slot the
      scheduler moves to the next shown one, and to the first shown one from a base
      that is itself left out. */
  lemma CalendarAgreesWithScheduler(s: Series, durationS: int, lo: Instant, hi: Instant, i: nat)
    requires Recurring(s.kind) && Forward(s.zone)
    requires i < |Expand(s, durationS, lo, hi)|
    ensures var slots := Expand(s, durationS, lo, hi);
            && (i + 1 < |slots| ==> NextIncluded(slots[i].start, s) == At(slots[i + 1].start))
            && (lo < SlotAt(s.base, durationS).end && slots[0].start != s.base
                ==> NextIncluded(s.base, s) == At(slots[0].start))
  {
    var slots := Expand(s, durationS, lo, hi);
    ExpandExact(s, durationS, lo, hi);
    if i + 1 < |slots| {
      assert slots[i] in slots && slots[i + 1] in slots;
      var a: nat :| a < MAX_WALK && slots[i].start == Orbit(s, s.base, a);
      var b: nat :| b < MAX_WALK && slots[i + 1].start == Orbit(s, s.base, b);
      OrbitOrder(s, s.base, a, b);
      forall t | slots[i].start < t < slots[i + 1].start ensures !Shown(s, durationS, lo, hi, s.base, MAX_WALK, t) {
        BetweenNeighbours(slots, i, SlotAt(t, durationS));
      }
      NothingBetween(s, durationS, lo, hi, a, b);
    }
    if lo < SlotAt(s.base, durationS).end && slots[0].start != s.base {
      assert slots[0] in slots;
      var b: nat :| b < MAX_WALK && slots[0].start == Orbit(s, s.base, b);
      assert Orbit(s, s.base, 0) == s.base;
      forall t | t < slots[0].start ensures !Shown(s, durationS, lo, hi, s.base, MAX_WALK, t) {
        var slot := SlotAt(t, durationS);
        if slot in slots {
          assert false;
        }
      }
      NothingBetween(s, durationS, lo, hi, 0, b);
    }
  }

  lemma BetweenNeighbours(slots: seq<TimeSlot>, i: nat, slot: TimeSlot)
    requires StartsIncrease(slots) && i + 1 < |slots|
    requires slots[i].start < slot.start < slots[i + 1].start
    ensures slot !in slots
  {
    forall j | 0 <= j < |slots| ensures slots[j] != slot {
      if j < i {
        assert slots[j].start < slots[i].start;
      } else if i + 1 < j {
        assert slots[i + 1].start < slots[j].start;
      }
    }
  }

  /** What the search finds behind the last shown slot is out of the range or out of
      the first 100 orbit points: otherwise the calendar would show it. */
  lemma AfterLastShown(s: Series, durationS: int, lo: Instant, hi: Instant, a: nat, t: Instant)
    requires Recurring(s.kind) && Forward(s.zone) && a < MAX_WALK
    requires var slots := Expand(s, durationS, lo, hi);
             slots != [] && slots[|slots| - 1].start == Orbit(s, s.base, a)
    requires NextIncluded(Orbit(s, s.base, a), s) == At(t)
    ensures hi <= t || Orbit(s, s.base, MAX_WALK) <= t
  {
    var slots, last := Expand(s, durationS, lo, hi), Orbit(s, s.base, a);
    ExpandExact(s, durationS, lo, hi);
    assert slots[|slots| - 1] in slots;
    var n := WalkStops(last, s, MAX_WALK);
    OrbitCompose(s, s.base, a, n);
    OrbitOrder(s, s.base, a + n, MAX_WALK);
    OrbitOrder(s, s.base, a, a + n);
    BehindLast(slots, SlotAt(t, durationS));
  }

  lemma BehindLast(slots: seq<TimeSlot>, slot: TimeSlot)
    requires StartsIncrease(slots) && slots != []
    ensures slots[|slots| - 1].start < slot.start ==> slot !in slots
  {
  }

  /** Where the search finds nothing more, no occurrence of the series is later. */
  lemma NothingLater(s: Series, a: nat, u: Instant)
    requires Recurring(s.kind) && Forward(s.zone)
    requires NextIncluded(Orbit(s, s.base, a), s) == NoMore
    requires Occurs(s, u)
    ensures u <= Orbit(s, s.base, a)
  {
    var k: nat :| u == Orbit(s, s.base, k);
    OrbitOrder(s, s.base, a, k);
    if a < k {
      LaterPoint(s, a, k);
      NoMoreMeansNone(Orbit(s, s.base, a), s);
    }
  }

  lemma LaterPoint(s: Series, a: nat, k: nat)
    requires Recurring(s.kind) && Forward(s.zone) && a < k && Included(s, Orbit(s, s.base, k))
    ensures Later(s, Orbit(s, s.base, a), Orbit(s, s.base, k))
  {
    OrbitCompose(s, s.base, a, k - a);
  }

  /** After the last shown slot the scheduler leaves the range, leaves the first 100
      orbit points, or finds the series over. */
  lemma LastShown(s: Series, durationS: int, lo: Instant, hi: Instant)
    requires Recurring(s.kind) && Forward(s.zone)
    requires Expand(s, durationS, lo, hi) != []
    ensures var slots := Expand(s, durationS, lo, hi);
            match NextIncluded(slots[|slots| - 1].start, s)
            case At(t) => hi <= t || Orbit(s, s.base, MAX_WALK) <= t
            case NoMore => forall u :: Occurs(s, u) ==> u <= slots[|slots| - 1].start
            case Fail => MAX_WALK <= |SkippedSeconds(s.skipped)|
  {
    var slots := Expand(s, durationS, lo, hi);
    var last := slots[|slots| - 1].start;
    ExpandExact(s, durationS, lo, hi);
    assert slots[|slots| - 1] in slots;
    var a: nat :| a < MAX_WALK && last == Orbit(s, s.base, a);
    match NextIncluded(last, s) {
      case At(t) => AfterLastShown(s, durationS, lo, hi, a, t);
      case NoMore =>
        forall u | Occurs(s, u) ensures u <= last {
          NothingLater(s, a, u);
        }
      case Fail =>
        if |SkippedSeconds(s.skipped)| < MAX_WALK {
          SearchNeverFails(last, s);
        }
    }
  }

  // ------------------------------------------------ a walk that decides

  /** Whether the series, walked from `t`, meets an unskipped point after `lo` and not
      after `hi`. */
  function MeetsBetween(s: Series, t: Instant, lo: Instant, hi: Instant): bool
    requires Recurring(s.kind) && Forward(s.zone)
    decreases hi - t
  {
    StepGrows(s.kind, s.zone, t);
    t <= hi && ((lo < t && !IsSkipped(t, s.skipped)) || MeetsBetween(s, Step(s.kind, s.zone, t), lo, hi))
  }

  /** The walk is right. */
  lemma {:induction false} MeetsBetweenExact(s: Series, t: Instant, lo: Instant, hi: Instant)
    requires Recurring(s.kind) && Forward(s.zone)
    ensures MeetsBetween(s, t, lo, hi) <==>
            exists n: nat :: lo < Orbit(s, t, n) <= hi && !IsSkipped(Orbit(s, t, n), s.skipped)
    decreases hi - t
  {
    var next := Step(s.kind, s.zone, t);
    StepGrows(s.kind, s.zone, t);
    assert Orbit(s, t, 0) == t;
    if t <= hi {
      MeetsBetweenExact(s, next, lo, hi);
      if n: nat :| lo < Orbit(s, next, n) <= hi && !IsSkipped(Orbit(s, next, n), s.skipped) {
        OrbitShift(s, t, n);
      }
    }
    if n: nat :| lo < Orbit(s, t, n) <= hi && !IsSkipped(Orbit(s, t, n), s.skipped) {
      OrbitOrder(s, t, 0, n);
      if n > 0 {
        OrbitShift(s, t, n - 1);
      }
    }
  }

  lemma OrbitShift(s: Series, t: Instant, n: nat)
    requires Recurring(s.kind)
    ensures Orbit(s, t, n + 1) == Orbit(s, Step(s.kind, s.zone, t), n)
  {
    OrbitCompose(s, t, 1, n);
    assert Orbit(s, t, 0) == t && Orbit(s, t, 1) == Step(s.kind, s.zone, t);
  }
}
