// Time as the controller uses it: instants are nanoseconds since Go's zero
// time, so `Truncate` is flooring, and the occurrence lists compare instants
// by the whole second they fall in.
module Instants {
  datatype Option<+T> = None | Some(value: T)

  type Instant = int

  const SECOND: int := 1_000_000_000
  const MINUTE: int := 60_000_000_000
  const HOUR: int := 3_600_000_000_000
  const DAY: int := 86_400_000_000_000

  function Seconds(n: int): int {
    n * 1_000_000_000
  }

  /** The start of the second that contains `t`. */
  function Normalize(t: Instant): Instant {
    t - t % 1_000_000_000
  }

  predicate SameSecond(a: Instant, b: Instant) {
    Normalize(a) == Normalize(b)
  }

  predicate WholeSecond(t: Instant) {
    Normalize(t) == t
  }

  /** A DATETIME column holds whole seconds; the database rounds halves up. */
  function ToSecond(t: Instant): Instant {
    Normalize(t + 500_000_000)
  }

  lemma NormalizeBounds(t: Instant)
    ensures WholeSecond(Normalize(t))
    ensures Normalize(t) <= t < Normalize(t) + SECOND
  {
  }

  /** Different whole seconds are a second apart. */
  lemma WholeApart(a: Instant, b: Instant)
    requires WholeSecond(a) && WholeSecond(b)
    ensures a < b <==> a + SECOND <= b
    ensures WholeSecond(a - SECOND)
  {
    var m, n := a / 1_000_000_000, b / 1_000_000_000;
    assert a == m * 1_000_000_000 && b == n * 1_000_000_000;
  }

  lemma RoundedWhole(t: Instant)
    ensures WholeSecond(ToSecond(t))
    ensures WholeSecond(t) ==> ToSecond(t) == t
  {
    NormalizeBounds(t + 500_000_000);
    if WholeSecond(t) {
      WholeApart(t, ToSecond(t));
      WholeApart(ToSecond(t), t);
    }
  }

  /** Rounding keeps what lies on one side of a whole second on that side. */
  lemma RoundedAround(t: Instant, whole: Instant)
    requires WholeSecond(whole)
    ensures t <= whole ==> ToSecond(t) <= whole
    ensures whole <= t ==> whole <= ToSecond(t)
  {
    NormalizeBounds(t + 500_000_000);
    WholeApart(whole, ToSecond(t));
    WholeApart(ToSecond(t), whole);
  }

  /** Two instants fall in the same second when their nanosecond counts do. */
  lemma SameSecondExact(a: Instant, b: Instant)
    ensures SameSecond(a, b) <==> a / 1_000_000_000 == b / 1_000_000_000
  {
    var m, n := a / 1_000_000_000, b / 1_000_000_000;
    assert Normalize(a) == m * 1_000_000_000 && Normalize(b) == n * 1_000_000_000;
  }

  /** Instants a second or more apart fall in different seconds, in the same order. */
  lemma NormalizeSeparates(a: Instant, b: Instant)
    requires a + SECOND <= b
    ensures Normalize(a) < Normalize(b)
  {
  }

  /** The half-open interval a test occupies. */
  datatype TimeSlot = TimeSlot(start: Instant, end: Instant)

  predicate Overlaps(a: TimeSlot, b: TimeSlot) {
    a.start < b.end && b.start < a.end
  }

  function SlotAt(start: Instant, durationS: int): TimeSlot {
    TimeSlot(start, start + Seconds(durationS))
  }

  predicate Within(end: Option<Instant>, t: Instant) {
    end.Some? ==> t <= end.value
  }
}
