// Conflict detection: a proposed slot against the running test, the stored slots
// and the expanded recurring series.
module Overlap {
  import opened Instants
  import opened Recurrence
  import opened OccurrenceWalks
  import opened Schedules

  datatype Row = Row(id: Id, schedule: Schedule)

  datatype Conflict = Conflict(id: Id, slot: TimeSlot)

  datatype RunningTest = RunningTest(start: Instant, estimatedS: int)

  /** A running test of unknown length is taken to last two hours. */
  function RunningSlot(running: RunningTest): TimeSlot {
    if running.estimatedS > 0 then SlotAt(running.start, running.estimatedS)
    else TimeSlot(running.start, running.start + 2 * HOUR)
  }

  /** The slots of a series within a day of the proposal. */
  function NearbySlots(s: Schedule, proposed: TimeSlot): seq<TimeSlot> {
    Expand(SeriesOf(s), s.durationS, proposed.start - DAY, proposed.end + DAY)
  }

  function FirstOverlap(proposed: TimeSlot, slots: seq<TimeSlot>): Option<TimeSlot> {
    if slots == [] then None
    else if Overlaps(proposed, slots[0]) then Some(slots[0])
    else FirstOverlap(proposed, slots[1..])
  }

  /** The first overlapping slot of the first series, in query order, that has one. */
  function RecurringConflict(proposed: TimeSlot, rows: seq<Row>, exclude: Id): Option<Conflict> {
    if rows == [] then None
    else
      var hit := FirstOverlap(proposed, NearbySlots(rows[0].schedule, proposed));
      if rows[0].id != exclude && hit.Some? then Some(Conflict(rows[0].id, hit.value))
      else RecurringConflict(proposed, rows[1..], exclude)
  }

  /** `t` is an included occurrence among the first 100 of the series whose slot
      overlaps the proposal. A series of an unknown type has its base only. */
  ghost predicate Clash(s: Schedule, proposed: TimeSlot, t: Instant) {
    var series := SeriesOf(s);
    && Included(series, t)
    && Overlaps(proposed, SlotAt(t, s.durationS))
    && if Recurring(s.kind) then exists n: nat :: n < MAX_WALK && t == Orbit(series, series.base, n)
       else t == series.base
  }

  /** A repeating row, whose zone goes forward if that matters. */
  ghost predicate ValidRecurring(s: Schedule) {
    !s.kind.Once? && (Recurring(s.kind) ==> Forward(s.zone))
  }

  lemma {:induction false} FirstOverlapExact(proposed: TimeSlot, slots: seq<TimeSlot>)
    ensures match FirstOverlap(proposed, slots)
            case None => forall slot :: slot in slots ==> !Overlaps(proposed, slot)
            case Some(hit) => exists i :: 0 <= i < |slots| && slots[i] == hit && Overlaps(proposed, hit)
                                          && forall j :: 0 <= j < i ==> !Overlaps(proposed, slots[j])
  {
    if slots != [] && !Overlaps(proposed, slots[0]) {
      FirstOverlapExact(proposed, slots[1..]);
      if FirstOverlap(proposed, slots[1..]).Some? {
        var hit := FirstOverlap(proposed, slots[1..]).value;
        var i :| && 0 <= i < |slots[1..]| && slots[1..][i] == hit
                 && forall j :: 0 <= j < i ==> !Overlaps(proposed, slots[1..][j]);
        assert slots[i + 1] == hit;
        forall j | 0 <= j < i + 1 ensures !Overlaps(proposed, slots[j]) {
          assert j > 0 ==> slots[j] == slots[1..][j - 1];
        }
      }
    }
  }

  /** The day of slack and the early stop of the expansion lose no overlapping
      slot: an overlapping one always meets the widened range. */
  lemma ClashesAreNearby(s: Schedule, proposed: TimeSlot, slot: TimeSlot)
    requires ValidRecurring(s) && Overlaps(proposed, slot)
    ensures slot in NearbySlots(s, proposed)
       <==> slot == SlotAt(slot.start, s.durationS) && Clash(s, proposed, slot.start)
  {
    if Recurring(s.kind) {
      ExpandExact(SeriesOf(s), s.durationS, proposed.start - DAY, proposed.end + DAY);
    }
  }

  lemma NearbyIncrease(s: Schedule, proposed: TimeSlot)
    requires ValidRecurring(s)
    ensures StartsIncrease(NearbySlots(s, proposed))
  {
    if Recurring(s.kind) {
      ExpandExact(SeriesOf(s), s.durationS, proposed.start - DAY, proposed.end + DAY);
    }
  }

  lemma NearbyExact(s: Schedule, proposed: TimeSlot)
    requires ValidRecurring(s)
    ensures match FirstOverlap(proposed, NearbySlots(s, proposed))
            case None => forall t :: !Clash(s, proposed, t)
            case Some(hit) => hit == SlotAt(hit.start, s.durationS) && Clash(s, proposed, hit.start)
                              && forall t :: Clash(s, proposed, t) ==> hit.start <= t
  {
    var slots := NearbySlots(s, proposed);
    NearbyIncrease(s, proposed);
    FirstOverlapExact(proposed, slots);
    var first := FirstOverlap(proposed, slots);
    if first.Some? {
      ClashesAreNearby(s, proposed, first.value);
    }
    forall t | Clash(s, proposed, t)
      ensures first.Some? && first.value.start <= t
    {
      ClashesAreNearby(s, proposed, SlotAt(t, s.durationS));
      EarliestHit(proposed, slots, SlotAt(t, s.durationS));
    }
  }

  lemma EarliestHit(proposed: TimeSlot, slots: seq<TimeSlot>, slot: TimeSlot)
    requires StartsIncrease(slots) && slot in slots && Overlaps(proposed, slot)
    ensures FirstOverlap(proposed, slots).Some? && FirstOverlap(proposed, slots).value.start <= slot.start
  {
    FirstOverlapExact(proposed, slots);
    var hit := FirstOverlap(proposed, slots).value;
    var i :| 0 <= i < |slots| && slots[i] == hit && forall j :: 0 <= j < i ==> !Overlaps(proposed, slots[j]);
    var k :| 0 <= k < |slots| && slots[k] == slot;
    if i < k {
      assert slots[i].start < slots[k].start;
    }
  }

  /** `c` is the earliest clash of row `i`, and no other row before it clashes. */
  ghost predicate FirstClash(proposed: TimeSlot, rows: seq<Row>, exclude: Id, i: nat, c: Conflict)
    requires i < |rows|
  {
    && rows[i].id == c.id != exclude
    && c.slot == SlotAt(c.slot.start, rows[i].schedule.durationS)
    && Clash(rows[i].schedule, proposed, c.slot.start)
    && (forall t :: Clash(rows[i].schedule, proposed, t) ==> c.slot.start <= t)
    && forall j, t :: 0 <= j < i && rows[j].id != exclude ==> !Clash(rows[j].schedule, proposed, t)
  }

  /** `c` is the earliest clash of the first series that clashes. */
  ghost predicate EarliestConflict(proposed: TimeSlot, rows: seq<Row>, exclude: Id, c: Conflict) {
    exists i: nat :: i < |rows| && FirstClash(proposed, rows, exclude, i, c)
  }

  lemma EarliestConflictAt(proposed: TimeSlot, rows: seq<Row>, exclude: Id, i: nat, c: Conflict)
    requires i < |rows| && FirstClash(proposed, rows, exclude, i, c)
    ensures EarliestConflict(proposed, rows, exclude, c)
  {
  }

  /** In front of the first clashing series, one that does not clash makes no difference. */
  lemma EarliestConflictBehind(proposed: TimeSlot, rows: seq<Row>, exclude: Id, c: Conflict)
    requires rows != [] && EarliestConflict(proposed, rows[1..], exclude, c)
    requires rows[0].id == exclude || forall t :: !Clash(rows[0].schedule, proposed, t)
    ensures EarliestConflict(proposed, rows, exclude, c)
  {
    var rest := rows[1..];
    var i: nat :| i < |rest| && FirstClash(proposed, rest, exclude, i, c);
    assert rows[i + 1] == rest[i];
    forall j, t | 0 <= j < i + 1 && rows[j].id != exclude ensures !Clash(rows[j].schedule, proposed, t) {
      assert j > 0 ==> rows[j] == rest[j - 1];
    }
    EarliestConflictAt(proposed, rows, exclude, i + 1, c);
  }

  /** Conflict detection over the recurring series is exact up to the first 100
      orbit points of each: it reports nothing exactly when no other series clashes,
      and otherwise the earliest clash of the first clashing series. */
  lemma {:induction false} RecurringConflictExact(proposed: TimeSlot, rows: seq<Row>, exclude: Id)
    requires forall row :: row in rows ==> ValidRecurring(row.schedule)
    ensures match RecurringConflict(proposed, rows, exclude)
            case None => forall row, t :: row in rows && row.id != exclude ==> !Clash(row.schedule, proposed, t)
            case Some(c) => EarliestConflict(proposed, rows, exclude, c)
  {
    if rows != [] {
      NearbyExact(rows[0].schedule, proposed);
      var hit := FirstOverlap(proposed, NearbySlots(rows[0].schedule, proposed));
      if rows[0].id != exclude && hit.Some? {
        EarliestConflictAt(proposed, rows, exclude, 0, Conflict(rows[0].id, hit.value));
      } else {
        RecurringConflictExact(proposed, rows[1..], exclude);
        var found := RecurringConflict(proposed, rows[1..], exclude);
        if found.Some? {
          EarliestConflictBehind(proposed, rows, exclude, found.value);
        } else {
          forall row, t | row in rows && row.id != exclude ensures !Clash(row.schedule, proposed, t) {
            assert row == rows[0] || row in rows[1..];
          }
        }
      }
    }
  }

  // ------------------------------------------------ the horizon of the series stage

  /** An occurrence of the series overlaps the proposal. */
  ghost predicate MeetsSeries(s: Schedule, proposed: TimeSlot)
    requires Recurring(s.kind)
  {
    exists n: nat :: OverlapsAt(s, proposed, n)
  }

  /** The occurrence with index `n` overlaps the proposal. */
  predicate OverlapsAt(s: Schedule, proposed: TimeSlot, n: nat)
    requires Recurring(s.kind)
  {
    var t := Orbit(SeriesOf(s), s.scheduledAt, n);
    Included(SeriesOf(s), t) && Overlaps(proposed, SlotAt(t, s.durationS))
  }

  /** The latest instant an occurrence that overlaps the proposal can be at. */
  function LastOverlap(s: Schedule, proposed: TimeSlot): Instant {
    if s.end.Some? && s.end.value < proposed.end then s.end.value else proposed.end - 1
  }

  /** A walk along the series from the point with index `k` on finds an overlap. */
  predicate MeetsFrom(s: Schedule, proposed: TimeSlot, k: nat)
    requires Recurring(s.kind) && Forward(s.zone)
  {
    var series := SeriesOf(s);
    MeetsBetween(series, Orbit(series, series.base, k), proposed.start - Seconds(s.durationS),
                 LastOverlap(s, proposed))
  }

  lemma OverlapsInRange(s: Schedule, proposed: TimeSlot, n: nat)
    requires Recurring(s.kind)
    ensures var series := SeriesOf(s);
            var t := Orbit(series, series.base, n);
            OverlapsAt(s, proposed, n)
            <==> proposed.start - Seconds(s.durationS) < t <= LastOverlap(s, proposed) && !IsSkipped(t, s.skipped)
  {
  }

  lemma MeetsFromExact(s: Schedule, proposed: TimeSlot, k: nat)
    requires Recurring(s.kind) && Forward(s.zone)
    ensures MeetsFrom(s, proposed, k) <==> exists n: nat :: k <= n && OverlapsAt(s, proposed, n)
  {
    var series := SeriesOf(s);
    var from := Orbit(series, series.base, k);
    var lo, hi := proposed.start - Seconds(s.durationS), LastOverlap(s, proposed);
    MeetsBetweenExact(series, from, lo, hi);
    forall m: nat
      ensures lo < Orbit(series, from, m) <= hi && !IsSkipped(Orbit(series, from, m), series.skipped)
         <==> OverlapsAt(s, proposed, k + m)
    {
      OverlapsBehind(s, proposed, k, m);
    }
    if n: nat :| k <= n && OverlapsAt(s, proposed, n) {
      OverlapsBehind(s, proposed, k, n - k);
    }
  }

  lemma OverlapsBehind(s: Schedule, proposed: TimeSlot, k: nat, m: nat)
    requires Recurring(s.kind)
    ensures var series := SeriesOf(s);
            var t := Orbit(series, Orbit(series, series.base, k), m);
            OverlapsAt(s, proposed, k + m)
            <==> proposed.start - Seconds(s.durationS) < t <= LastOverlap(s, proposed) && !IsSkipped(t, s.skipped)
  {
    OrbitCompose(SeriesOf(s), s.scheduledAt, k, m);
    OverlapsInRange(s, proposed, k + m);
  }

  lemma ClashIsOverlap(s: Schedule, proposed: TimeSlot)
    requires Recurring(s.kind)
    ensures (exists t :: Clash(s, proposed, t)) <==> exists n: nat :: n < MAX_WALK && OverlapsAt(s, proposed, n)
  {
    var series := SeriesOf(s);
    if t :| Clash(s, proposed, t) {
      var n: nat :| n < MAX_WALK && t == Orbit(series, series.base, n);
      assert OverlapsAt(s, proposed, n);
    }
    if n: nat :| n < MAX_WALK && OverlapsAt(s, proposed, n) {
      assert Clash(s, proposed, Orbit(series, series.base, n));
    }
  }

  /** A series meets the proposal if and only if the series stage reports it or the walk that goes on behind the first
      100 points finds an overlap: that walk decides what the check misses. */
  lemma HorizonMissesIff(s: Schedule, proposed: TimeSlot)
    requires Recurring(s.kind) && Forward(s.zone)
    ensures MeetsSeries(s, proposed)
       <==> FirstOverlap(proposed, NearbySlots(s, proposed)).Some? || MeetsFrom(s, proposed, MAX_WALK)
  {
    NearbyExact(s, proposed);
    ClashIsOverlap(s, proposed);
    MeetsFromExact(s, proposed, MAX_WALK);
  }

  /** Up to the 101st orbit point nothing at all is missed: a proposal that ends by
      then and is reported free meets no occurrence of the series. */
  lemma HorizonComplete(s: Schedule, proposed: TimeSlot)
    requires Recurring(s.kind) && Forward(s.zone)
    requires FirstOverlap(proposed, NearbySlots(s, proposed)).None?
    requires proposed.end <= Orbit(SeriesOf(s), s.scheduledAt, MAX_WALK)
    ensures !MeetsSeries(s, proposed)
  {
    HorizonMissesIff(s, proposed);
    assert !MeetsFrom(s, proposed, MAX_WALK);
  }

  lemma {:induction false} HourlyOrbit(s: Series, from: Instant, n: nat)
    requires s.kind.Hourly?
    ensures Orbit(s, from, n) == from + n * 3_600_000_000_000
  {
    if n > 0 {
      HourlyOrbit(s, from, n - 1);
    }
  }

  lemma HourlyShownBefore(row: Schedule, proposed: TimeSlot)
    requires row.kind.Hourly? && Forward(row.zone) && row.scheduledAt == 0 && row.durationS == 60
    requires 100 * HOUR <= proposed.start
    ensures FirstOverlap(proposed, NearbySlots(row, proposed)).None?
  {
    NearbyExact(row, proposed);
    forall t ensures !Clash(row, proposed, t) {
      if Clash(row, proposed, t) {
        var n: nat :| n < MAX_WALK && t == Orbit(SeriesOf(row), 0, n);
        HourlyOrbit(SeriesOf(row), 0, n);
      }
    }
  }

  /** An hourly schedule has a run 100 hours after its next one; a one-minute test proposed for that very slot is
      accepted. */
  lemma HundredthHourAccepted(zone: Zone)
    requires Forward(zone)
    ensures var row := Schedule(0, 60, Hourly, zone, None, [], Scheduled, false);
            var proposed := SlotAt(100 * HOUR, 60);
            Free(map["a" := row], None, proposed, "b") && MeetsSeries(row, proposed)
  {
    var row := Schedule(0, 60, Hourly, zone, None, [], Scheduled, false);
    var proposed := SlotAt(100 * HOUR, 60);
    HourlyOrbit(SeriesOf(row), 0, 100);
    assert OverlapsAt(row, proposed, 100);
    HourlyShownBefore(row, proposed);
  }

  /** A recurring proposal meets a stored slot if and only if its first slot does, which is all the stored-slot stage
      looks at, or the walk along its later runs finds an overlap. */
  lemma LaterRunsMissedIff(proposed: Schedule, stored: TimeSlot)
    requires Recurring(proposed.kind) && Forward(proposed.zone)
    requires Included(SeriesOf(proposed), proposed.scheduledAt)
    ensures MeetsSeries(proposed, stored)
       <==> Overlaps(stored, SlotOf(proposed)) || MeetsFrom(proposed, stored, 1)
  {
    var series := SeriesOf(proposed);
    assert Orbit(series, series.base, 0) == series.base;
    assert OverlapsAt(proposed, stored, 0) <==> Overlaps(stored, SlotOf(proposed));
    MeetsFromExact(proposed, stored, 1);
    if n: nat :| OverlapsAt(proposed, stored, n) {
      assert n == 0 || 1 <= n;
    }
  }

  /** Of a recurring proposal only the first slot is checked: an hourly one is accepted although its second run meets a
      stored one-time test. */
  lemma SecondRunUnchecked(zone: Zone)
    ensures var stored := Schedule(HOUR, 60, Once, zone, None, [], Scheduled, false);
            var proposed := Schedule(0, 60, Hourly, zone, None, [], Scheduled, false);
            Free(map["a" := stored], None, SlotOf(proposed), "b") && MeetsSeries(proposed, SlotOf(stored))
  {
    var stored := Schedule(HOUR, 60, Once, zone, None, [], Scheduled, false);
    var proposed := Schedule(0, 60, Hourly, zone, None, [], Scheduled, false);
    HourlyOrbit(SeriesOf(proposed), 0, 1);
    assert OverlapsAt(proposed, SlotOf(stored), 1);
  }

  // ------------------------------------------------ the whole check

  /** No conflict for the proposal: neither with the running test, nor with a live
      stored slot, nor with an active recurring series. */
  predicate Free(schedules: map<Id, Schedule>, running: Option<RunningTest>, proposed: TimeSlot, exclude: Id) {
    && (running.Some? ==> !Overlaps(proposed, RunningSlot(running.value)))
    && (forall id | id in schedules ::
          id != exclude && Live(schedules[id]) ==> !Overlaps(SlotOf(schedules[id]), proposed))
    && (forall id | id in schedules ::
          id != exclude && ActiveRecurring(schedules[id])
          ==> FirstOverlap(proposed, NearbySlots(schedules[id], proposed)).None?)
  }

  /** When a running test is taken to end: after its estimate, or two hours if there is none. */
  function RunsUntil(running: RunningTest): Instant {
    running.start + (if running.estimatedS > 0 then running.estimatedS * 1_000_000_000 else 7_200_000_000_000)
  }

  /** Two intervals share a moment. */
  predicate ShareTime(start: Instant, end: Instant, other: TimeSlot) {
    start < other.end && other.start < end
  }

  /** What "no conflict" means: the proposal meets neither the running test, nor the slot of
      any other row that is scheduled or running and not paused, nor any of the first 100
      included occurrences of any other repeating row that is scheduled and not paused. */
  ghost predicate Clear(schedules: map<Id, Schedule>, running: Option<RunningTest>, proposed: TimeSlot, exclude: Id) {
    && (running.Some? ==> !ShareTime(running.value.start, RunsUntil(running.value), proposed))
    && (forall id :: id in schedules && id != exclude ==>
          var row := schedules[id];
          (row.status == Scheduled || row.status == Running) && !row.paused ==>
            !ShareTime(row.scheduledAt, row.scheduledAt + row.durationS * 1_000_000_000, proposed))
    && (forall id, t :: id in schedules && id != exclude ==>
          var row := schedules[id];
          row.status == Scheduled && !row.paused && row.kind != Once ==> !Clash(row, proposed, t))
  }

  ghost predicate AllValid(schedules: map<Id, Schedule>) {
    forall id :: id in schedules && ActiveRecurring(schedules[id]) ==> ValidRecurring(schedules[id])
  }

  /** The decision is right: free means clear. */
  lemma FreeIsClear(schedules: map<Id, Schedule>, running: Option<RunningTest>, proposed: TimeSlot, exclude: Id)
    requires AllValid(schedules)
    ensures Free(schedules, running, proposed, exclude) <==> Clear(schedules, running, proposed, exclude)
  {
    forall id | id in schedules && ActiveRecurring(schedules[id])
      ensures FirstOverlap(proposed, NearbySlots(schedules[id], proposed)).None?
              <==> forall t :: !Clash(schedules[id], proposed, t)
    {
      NearbyExact(schedules[id], proposed);
    }
  }

  // ------------------------------------------------ the check over query answers

  datatype Found = WithRunning(slot: TimeSlot) | WithStored(id: Id) | WithSeries(conflict: Conflict)

  /** The three stages over the answers of the two queries. */
  function CheckOverlap(running: Option<RunningTest>, overlapping: seq<Row>, recurring: seq<Row>, proposed: TimeSlot,
                        exclude: Id): Option<Found> {
    if running.Some? && Overlaps(proposed, RunningSlot(running.value)) then
      Some(WithRunning(RunningSlot(running.value)))
    else if overlapping != [] then Some(WithStored(overlapping[0].id))
    else match RecurringConflict(proposed, recurring, exclude)
      case None => None
      case Some(c) => Some(WithSeries(c))
  }

  ghost predicate Listed(rows: seq<Row>, schedules: map<Id, Schedule>) {
    forall row :: row in rows ==> row.id in schedules && schedules[row.id] == row.schedule
  }

  /** The overlap query: every other live row whose slot overlaps, in some order. */
  ghost predicate ListsOverlapping(rows: seq<Row>, schedules: map<Id, Schedule>, proposed: TimeSlot, exclude: Id) {
    && Listed(rows, schedules)
    && forall id :: id in schedules ==>
         (Row(id, schedules[id]) in rows
          <==> id != exclude && Live(schedules[id]) && Overlaps(SlotOf(schedules[id]), proposed))
  }

  /** The recurring query: every active recurring row, in some order. */
  ghost predicate ListsRecurring(rows: seq<Row>, schedules: map<Id, Schedule>) {
    && Listed(rows, schedules)
    && forall id :: id in schedules ==> (Row(id, schedules[id]) in rows <==> ActiveRecurring(schedules[id]))
  }

  /** The check reports nothing exactly when the proposal is clear, and a series it
      reports is the first listed one that clashes, at its earliest clash. */
  lemma CheckOverlapExact(schedules: map<Id, Schedule>, running: Option<RunningTest>, proposed: TimeSlot, exclude: Id,
                          overlapping: seq<Row>, recurring: seq<Row>)
    requires ListsOverlapping(overlapping, schedules, proposed, exclude) && ListsRecurring(recurring, schedules)
    requires AllValid(schedules)
    ensures var found := CheckOverlap(running, overlapping, recurring, proposed, exclude);
            && (found.None? <==> Clear(schedules, running, proposed, exclude))
            && (found.Some? && found.value.WithSeries? ==>
                  EarliestConflict(proposed, recurring, exclude, found.value.conflict))
            && (running.Some? && ShareTime(running.value.start, RunsUntil(running.value), proposed) <==>
                  running.Some? && found == Some(WithRunning(TimeSlot(running.value.start, RunsUntil(running.value)))))
            && (found.Some? && found.value.WithStored? ==>
                  && overlapping != [] && found.value.id == overlapping[0].id && found.value.id != exclude
                  && found.value.id in schedules
                  && var row := schedules[found.value.id];
                     ShareTime(row.scheduledAt, row.scheduledAt + row.durationS * 1_000_000_000, proposed))
  {
    if overlapping != [] {
      assert overlapping[0] in overlapping;
      assert Row(overlapping[0].id, schedules[overlapping[0].id]) == overlapping[0];
    }
    forall row | row in recurring ensures ValidRecurring(row.schedule) && ActiveRecurring(row.schedule) {
      assert Row(row.id, schedules[row.id]) == row;
    }
    RecurringConflictExact(proposed, recurring, exclude);
    SeriesClear(schedules, proposed, exclude, recurring);
    StoredClear(schedules, proposed, exclude, overlapping);
  }

  lemma StoredClear(schedules: map<Id, Schedule>, proposed: TimeSlot, exclude: Id, overlapping: seq<Row>)
    requires ListsOverlapping(overlapping, schedules, proposed, exclude)
    ensures overlapping == [] <==>
            forall id :: id in schedules && id != exclude && Live(schedules[id])
              ==> !Overlaps(SlotOf(schedules[id]), proposed)
  {
    if overlapping != [] {
      var row := overlapping[0];
      assert row in overlapping && Row(row.id, schedules[row.id]) == row;
    }
    forall id | id in schedules && id != exclude && Live(schedules[id]) && Overlaps(SlotOf(schedules[id]), proposed)
      ensures overlapping != []
    {
      assert Row(id, schedules[id]) in overlapping;
    }
  }

  lemma SeriesClear(schedules: map<Id, Schedule>, proposed: TimeSlot, exclude: Id, recurring: seq<Row>)
    requires ListsRecurring(recurring, schedules) && forall row :: row in recurring ==> ActiveRecurring(row.schedule)
    ensures (forall row, t :: row in recurring && row.id != exclude ==> !Clash(row.schedule, proposed, t))
       <==> (forall id, t :: id in schedules && id != exclude && ActiveRecurring(schedules[id]) ==>
               !Clash(schedules[id], proposed, t))
  {
    if forall row, t :: row in recurring && row.id != exclude ==> !Clash(row.schedule, proposed, t) {
      forall id, t | id in schedules && id != exclude && ActiveRecurring(schedules[id])
        ensures !Clash(schedules[id], proposed, t)
      {
        assert Row(id, schedules[id]) in recurring;
      }
    }
  }
}
