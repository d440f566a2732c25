// Deleting one occurrence, or an occurrence and everything after it, by editing
// the stored series: its base, its end date and its skip list.
module ScheduleDelete {
  import opened Instants
  import opened Recurrence
  import opened OccurrenceWalks
  import opened Recovery
  import opened Schedules

  datatype Scope = Single | Future

  datatype Outcome =
    | PastOccurrence
    | ScheduleRunning
    | SearchFailed
    | Removed
    | Updated(schedule: Schedule)

  function AppendSkipped(values: seq<Instant>, candidate: Instant): seq<Instant> {
    if IsSkipped(candidate, values) then values else values + [Normalize(candidate)]
  }

  /** What the filter keeps of one value. */
  function Kept(value: Instant, cutoff: Instant): seq<Instant> {
    if Normalize(value) < Normalize(cutoff) then [Normalize(value)] else []
  }

  function SkippedBefore(values: seq<Instant>, cutoff: Instant): seq<Instant> {
    if values == [] then []
    else SkippedBefore(values[..|values| - 1], cutoff) + Kept(values[|values| - 1], cutoff)
  }

  method FilterSkippedOccurrencesBefore(values: seq<Instant>, cutoff: Instant) returns (filtered: seq<Instant>)
    ensures filtered == SkippedBefore(values, cutoff)
  {
    filtered := [];
    for i := 0 to |values|
      invariant filtered == SkippedBefore(values[..i], cutoff)
    {
      assert values[..i + 1][..i] == values[..i];
      if Normalize(values[i]) < Normalize(cutoff) {
        filtered := filtered + [Normalize(values[i])];
      }
    }
    assert values[..|values|] == values;
  }

  function DeleteSingle(existing: Schedule, occurrence: Instant, executions: nat): Outcome {
    var marked := existing.(skipped := AppendSkipped(existing.skipped, occurrence));
    if !SameSecond(existing.scheduledAt, occurrence) then Updated(marked)
    else
      match NextIncluded(existing.scheduledAt, SeriesOf(marked))
      case Fail => SearchFailed
      case NoMore =>
        if executions == 0 then Removed
        else Updated(marked.(end := Some(occurrence - SECOND), status := Completed))
      case At(next) => Updated(marked.(scheduledAt := next, status := Scheduled))
  }

  function DeleteFuture(existing: Schedule, occurrence: Instant, executions: nat): Outcome {
    var cut := existing.(end := Some(occurrence - SECOND), skipped := SkippedBefore(existing.skipped, occurrence));
    if existing.scheduledAt < occurrence then Updated(cut)
    else if executions == 0 then Removed
    else Updated(cut.(status := Completed))
  }

  /** The handler's decision for a requested instant, which it first floors to a second. */
  function Delete(existing: Schedule, scope: Scope, requested: Instant, now: Instant, executions: nat): Outcome {
    var occurrence := Normalize(requested);
    if Normalize(occurrence) < Normalize(now - MINUTE) then PastOccurrence
    else if existing.status.Running? then ScheduleRunning
    else if existing.kind.Once? then Removed
    else
      match scope
      case Single => DeleteSingle(existing, occurrence, executions)
      case Future => DeleteFuture(existing, occurrence, executions)
  }

  /** The row the store holds afterwards. */
  function RowAfter(existing: Schedule, outcome: Outcome): Option<Schedule> {
    match outcome
    case Removed => None
    case Updated(s) => Some(s)
    case _ => Some(existing)
  }

  /** `t` is a time the scheduler will run the row for, if nothing else happens: the
      row's current time, which the due query takes whatever the end date and the skip
      list say, and every later occurrence of the series. */
  ghost predicate Upcoming(row: Option<Schedule>, t: Instant) {
    && row.Some? && row.value.status.Scheduled?
    && (t == row.value.scheduledAt
        || (Recurring(row.value.kind) && Later(SeriesOf(row.value), row.value.scheduledAt, t)))
  }

  lemma AppendSkippedMarks(values: seq<Instant>, candidate: Instant, t: Instant)
    ensures IsSkipped(t, AppendSkipped(values, candidate)) <==> IsSkipped(t, values) || SameSecond(t, candidate)
  {
    if !IsSkipped(candidate, values) {
      var marked := values + [Normalize(candidate)];
      assert forall v :: v in marked <==> v in values || v == Normalize(candidate);
      assert SameSecond(Normalize(candidate), t) <==> SameSecond(t, candidate);
      if SameSecond(t, candidate) {
        assert Normalize(candidate) in marked;
      }
    } else {
      var v :| v in values && SameSecond(v, candidate);
      assert SameSecond(t, candidate) ==> SameSecond(v, t);
    }
  }

  lemma SkippedConcat(a: seq<Instant>, b: seq<Instant>, t: Instant)
    ensures IsSkipped(t, a + b) <==> IsSkipped(t, a) || IsSkipped(t, b)
  {
    assert forall v :: v in a + b <==> v in a || v in b;
  }

  lemma KeptIsSkipped(value: Instant, cutoff: Instant, t: Instant)
    ensures IsSkipped(t, [value]) <==> SameSecond(value, t)
    ensures IsSkipped(t, Kept(value, cutoff)) <==> SameSecond(value, t) && Normalize(t) < Normalize(cutoff)
  {
    var head := Normalize(value);
    assert value in [value];
    assert SameSecond(head, t) <==> SameSecond(value, t);
    assert Kept(value, cutoff) != [] ==> head in Kept(value, cutoff);
  }

  lemma {:induction false} SkippedBeforeKeeps(values: seq<Instant>, cutoff: Instant, t: Instant)
    ensures IsSkipped(t, SkippedBefore(values, cutoff)) <==> IsSkipped(t, values) && Normalize(t) < Normalize(cutoff)
  {
    if values != [] {
      var init, last := values[..|values| - 1], values[|values| - 1];
      SkippedBeforeKeeps(init, cutoff, t);
      SkippedConcat(SkippedBefore(init, cutoff), Kept(last, cutoff), t);
      SkippedConcat(init, [last], t);
      assert init + [last] == values;
      KeptIsSkipped(last, cutoff, t);
    }
  }

  /** What the moved series has, the old one had after its base. */
  lemma MovedOccurs(s: Series, next: Instant, t: Instant)
    requires Recurring(s.kind) && Forward(s.zone)
    requires NextIncluded(s.base, s) == At(next) && Occurs(s.(base := next), t)
    ensures Occurs(s, t) && s.base < t
  {
    var n := WalkStops(s.base, s, MAX_WALK);
    var moved := s.(base := next);
    OrbitSame(s, moved, next);
    var m: nat :| t == Orbit(moved, next, m);
    OrbitCompose(s, s.base, n, m);
    OrbitOrder(s, s.base, 0, n + m);
  }

  /** Moving the base to a later orbit point over left-out points loses nothing. */
  lemma BaseMoved(s: Series, next: Instant, t: Instant)
    requires Recurring(s.kind) && Forward(s.zone)
    requires NextIncluded(s.base, s) == At(next)
    ensures Occurs(s.(base := next), t) <==> Occurs(s, t) && s.base < t
  {
    var moved := s.(base := next);
    if Occurs(moved, t) {
      MovedOccurs(s, next, t);
    }
    if Occurs(s, t) && s.base < t {
      var n := WalkStops(s.base, s, MAX_WALK);
      var m: nat :| t == Orbit(s, s.base, m);
      OrbitOrder(s, s.base, 0, m);
      assert n <= m;
      OrbitCompose(s, s.base, n, m - n);
      OrbitSame(s, moved, next);
    }
  }

  /** The orbit depends on the kind and the zone only. */
  lemma {:induction false} OrbitSameAt(s: Series, r: Series, from: Instant, n: nat)
    requires Recurring(s.kind) && s.kind == r.kind && s.zone == r.zone
    ensures Orbit(s, from, n) == Orbit(r, from, n)
  {
    if n > 0 {
      OrbitSameAt(s, r, from, n - 1);
    }
  }

  lemma OrbitSame(s: Series, r: Series, from: Instant)
    requires Recurring(s.kind) && s.kind == r.kind && s.zone == r.zone
    ensures forall n: nat :: Orbit(s, from, n) == Orbit(r, from, n)
  {
    forall n: nat ensures Orbit(s, from, n) == Orbit(r, from, n) {
      OrbitSameAt(s, r, from, n);
    }
  }

  /** `t` is a later point of the orbit, end date and skip list aside. */
  ghost predicate Ahead(s: Series, from: Instant, t: Instant)
    requires Recurring(s.kind)
  {
    exists n: nat :: 1 <= n && t == Orbit(s, from, n)
  }

  lemma AheadSame(s: Series, r: Series, from: Instant, t: Instant)
    requires Recurring(s.kind) && s.kind == r.kind && s.zone == r.zone
    ensures Ahead(s, from, t) <==> Ahead(r, from, t)
    ensures Later(r, from, t) <==> Included(r, t) && Ahead(s, from, t)
  {
    OrbitSame(s, r, from);
  }

  lemma AheadIsLater(s: Series, from: Instant, t: Instant)
    requires Recurring(s.kind) && Forward(s.zone) && Ahead(s, from, t)
    ensures from + HOUR <= t
  {
    var n: nat :| 1 <= n && t == Orbit(s, from, n);
    OrbitGrows(s, from, 0, n);
  }

  /** Marking a second takes it, and nothing else, out of what lies ahead. */
  lemma MarkedLater(existing: Schedule, requested: Instant, t: Instant)
    requires Recurring(existing.kind)
    ensures var marked := existing.(skipped := AppendSkipped(existing.skipped, Normalize(requested)));
            Later(SeriesOf(marked), existing.scheduledAt, t)
            <==> Later(SeriesOf(existing), existing.scheduledAt, t) && !SameSecond(t, requested)
  {
    var marked := existing.(skipped := AppendSkipped(existing.skipped, Normalize(requested)));
    AppendSkippedMarks(existing.skipped, Normalize(requested), t);
    AheadSame(SeriesOf(existing), SeriesOf(marked), existing.scheduledAt, t);
  }

  /** Moving the base to the next occurrence takes away the base alone. */
  lemma MovedUpcoming(marked: Schedule, next: Instant, t: Instant)
    requires Recurring(marked.kind) && Forward(marked.zone)
    requires NextIncluded(marked.scheduledAt, SeriesOf(marked)) == At(next)
    ensures Upcoming(Some(marked.(scheduledAt := next, status := Scheduled)), t)
       <==> Later(SeriesOf(marked), marked.scheduledAt, t)
  {
    var s, moved := SeriesOf(marked), SeriesOf(marked.(scheduledAt := next));
    LaterSplits(s, s.base, t);
    AheadSame(s, moved, next, t);
  }

  /** The row with the chosen second on its skip list. */
  function Marked(existing: Schedule, requested: Instant): Schedule {
    existing.(skipped := AppendSkipped(existing.skipped, Normalize(requested)))
  }

  /** The handler takes the row's own time out and finds a later one, whatever status the row has. */
  predicate MovesOn(existing: Schedule, requested: Instant) {
    && SameSecond(existing.scheduledAt, requested)
    && NextIncluded(existing.scheduledAt, SeriesOf(Marked(existing, requested))).At?
  }

  predicate Carried(out: Outcome) {
    out.Removed? || out.Updated?
  }

  /** Single-scope deletion of a scheduled row takes exactly the chosen second out of what is to come, also when it
      moves the base, ends the series or drops the row. */
  lemma SingleOfScheduled(existing: Schedule, requested: Instant, now: Instant, executions: nat, t: Instant)
    requires existing.status.Scheduled? && Recurring(existing.kind) && Forward(existing.zone)
    requires Carried(Delete(existing, Single, requested, now, executions))
    ensures Upcoming(RowAfter(existing, Delete(existing, Single, requested, now, executions)), t)
       <==> Upcoming(Some(existing), t) && !SameSecond(t, requested)
  {
    var marked := Marked(existing, requested);
    var base := existing.scheduledAt;
    MarkedLater(existing, requested, t);
    if SameSecond(base, Normalize(requested)) {
      match NextIncluded(base, SeriesOf(marked)) {
        case At(next) => MovedUpcoming(marked, next, t);
        case NoMore => NoMoreMeansNone(base, SeriesOf(marked));
        case Fail =>
      }
    }
  }

  /** A row of an unknown recurrence type runs for its own time alone; the handler finds no next one. */
  lemma SingleOfUnknown(existing: Schedule, requested: Instant, now: Instant, executions: nat, t: Instant)
    requires existing.kind.Unknown?
    requires Carried(Delete(existing, Single, requested, now, executions))
    ensures Upcoming(RowAfter(existing, Delete(existing, Single, requested, now, executions)), t)
       <==> Upcoming(Some(existing), t) && !SameSecond(t, requested)
  {
    assert NextIncluded(existing.scheduledAt, SeriesOf(Marked(existing, requested))).Fail?;
  }

  /** A row that is over stays so, unless the handler moves it on. */
  lemma SingleOfEnded(existing: Schedule, requested: Instant, now: Instant, executions: nat)
    requires !existing.status.Scheduled? && Recurring(existing.kind)
    requires Carried(Delete(existing, Single, requested, now, executions))
    ensures var row := RowAfter(existing, Delete(existing, Single, requested, now, executions));
            if MovesOn(existing, requested)
            then Upcoming(row, NextIncluded(existing.scheduledAt, SeriesOf(Marked(existing, requested))).t)
            else forall t :: !Upcoming(row, t)
  {
  }

  /** Single-scope deletion takes exactly the chosen second out of what is to come if and only if the row is
      scheduled or the handler does not move it on: a row that is over comes back to life. */
  lemma DeleteSingleExactIff(existing: Schedule, requested: Instant, now: Instant, executions: nat)
    requires !existing.kind.Once? && (Recurring(existing.kind) ==> Forward(existing.zone))
    requires Carried(Delete(existing, Single, requested, now, executions))
    ensures var row := RowAfter(existing, Delete(existing, Single, requested, now, executions));
            (forall t :: Upcoming(row, t) <==> Upcoming(Some(existing), t) && !SameSecond(t, requested))
            <==> existing.status.Scheduled? || !MovesOn(existing, requested)
  {
    var row := RowAfter(existing, Delete(existing, Single, requested, now, executions));
    if existing.kind.Unknown? {
      forall t ensures Upcoming(row, t) <==> Upcoming(Some(existing), t) && !SameSecond(t, requested) {
        SingleOfUnknown(existing, requested, now, executions, t);
      }
      assert NextIncluded(existing.scheduledAt, SeriesOf(Marked(existing, requested))).Fail?;
    } else if existing.status.Scheduled? {
      forall t ensures Upcoming(row, t) <==> Upcoming(Some(existing), t) && !SameSecond(t, requested) {
        SingleOfScheduled(existing, requested, now, executions, t);
      }
    } else {
      SingleOfEnded(existing, requested, now, executions);
    }
  }

  /** When it answers with an error the row is untouched. */
  lemma RefusedUntouched(existing: Schedule, scope: Scope, requested: Instant, now: Instant, executions: nat)
    requires !Carried(Delete(existing, scope, requested, now, executions))
    ensures RowAfter(existing, Delete(existing, scope, requested, now, executions)) == Some(existing)
  {
  }

  /** An hourly series that was ended at its first time, whose end was then moved up by another deletion, runs again
      after a third one has taken that first time out. */
  lemma EndedSeriesRunsAgain(zone: Zone)
    ensures var row := Schedule(HOUR, 60, Hourly, zone, None, [], Scheduled, false);
            var ended := row.(end := Some(HOUR - SECOND), status := Completed);
            var longer := ended.(end := Some(4 * HOUR - SECOND));
            var revived := longer.(scheduledAt := 2 * HOUR, skipped := [HOUR], status := Scheduled);
            && Delete(row, Future, HOUR, 0, 1) == Updated(ended)
            && Delete(ended, Future, 4 * HOUR, 0, 1) == Updated(longer)
            && (forall t :: !Upcoming(Some(longer), t))
            && Delete(longer, Single, HOUR, 0, 1) == Updated(revived)
            && Upcoming(Some(revived), 2 * HOUR)
  {
    var longer := Schedule(HOUR, 60, Hourly, zone, Some(4 * HOUR - SECOND), [], Completed, false);
    assert SkippedBefore([], HOUR) == [] && SkippedBefore([], 4 * HOUR) == [];
    HourlyMovesOn(longer);
  }

  /** The first step of an hourly series that has only its base skipped. */
  lemma HourlyMovesOn(row: Schedule)
    requires row.kind.Hourly? && row.skipped == [] && row.scheduledAt == HOUR && row.end == Some(4 * HOUR - SECOND)
    ensures AppendSkipped(row.skipped, HOUR) == [HOUR]
    ensures NextIncluded(HOUR, SeriesOf(row.(skipped := [HOUR]))) == At(2 * HOUR)
  {
    var s := SeriesOf(row.(skipped := [HOUR]));
    assert NextOccurrence(HOUR, s.kind, s.zone, s.end) == At(2 * HOUR);
    assert !IsSkipped(2 * HOUR, [HOUR]);
  }

  /** Single-scope deletion fails to find the next run only behind 100 skipped seconds. */
  lemma DeleteSingleFails(existing: Schedule, requested: Instant, now: Instant, executions: nat)
    requires Recurring(existing.kind) && Forward(existing.zone)
    requires Delete(existing, Single, requested, now, executions).SearchFailed?
    ensures MAX_WALK <= |SkippedSeconds(AppendSkipped(existing.skipped, Normalize(requested)))|
  {
    var marked := existing.(skipped := AppendSkipped(existing.skipped, Normalize(requested)));
    if |SkippedSeconds(marked.skipped)| < MAX_WALK {
      SearchNeverFails(existing.scheduledAt, SeriesOf(marked));
    }
  }

  /** After a future-scope deletion of a scheduled row: the base, if it is earlier than the chosen occurrence, and the
      unskipped points ahead up to a second before it, whatever the end date was. A row that is over stays so. */
  lemma DeleteFutureLeaves(existing: Schedule, requested: Instant, now: Instant, executions: nat, t: Instant)
    requires Recurring(existing.kind) && Forward(existing.zone)
    requires Carried(Delete(existing, Future, requested, now, executions))
    ensures var base, occurrence := existing.scheduledAt, Normalize(requested);
            Upcoming(RowAfter(existing, Delete(existing, Future, requested, now, executions)), t)
            <==> existing.status.Scheduled? && base < occurrence
                 && (t == base || (Ahead(SeriesOf(existing), base, t) && !IsSkipped(t, existing.skipped)
                                   && t <= occurrence - SECOND))
  {
    var occurrence := Normalize(requested);
    var before := SeriesOf(existing);
    var after := before.(end := Some(occurrence - SECOND), skipped := SkippedBefore(existing.skipped, occurrence));
    AheadSame(before, after, before.base, t);
    SkippedBeforeKeeps(existing.skipped, occurrence, t);
    if t <= occurrence - SECOND {
      NormalizeSeparates(t, occurrence);
    }
  }

  /** A series that ends more than a second before the chosen occurrence gets a later end. */
  predicate MovesEndUp(end: Option<Instant>, occurrence: Instant) {
    end.Some? && end.value < occurrence - SECOND
  }

  /** The new end date moves up and revives a point: the walk along the series from its next point meets an
      unskipped one behind the old end and up to the new one. */
  predicate Revives(existing: Schedule, occurrence: Instant)
    requires Recurring(existing.kind) && Forward(existing.zone)
  {
    var s := SeriesOf(existing);
    && MovesEndUp(existing.end, occurrence)
    && MeetsBetween(s, Step(s.kind, s.zone, s.base), existing.end.value, occurrence - SECOND)
  }

  lemma FutureOfRecurring(existing: Schedule, requested: Instant, now: Instant, executions: nat)
    requires WholeRow(existing) && Recurring(existing.kind) && Forward(existing.zone)
    requires Carried(Delete(existing, Future, requested, now, executions))
    ensures var row := RowAfter(existing, Delete(existing, Future, requested, now, executions));
            (forall t :: Upcoming(row, t) <==> Upcoming(Some(existing), t) && t < Normalize(requested))
            <==> !existing.status.Scheduled? || !Revives(existing, Normalize(requested))
  {
    var occurrence := Normalize(requested);
    var row := RowAfter(existing, Delete(existing, Future, requested, now, executions));
    forall t
      ensures (Upcoming(row, t) <==> Upcoming(Some(existing), t) && t < occurrence)
         <==> !(existing.status.Scheduled? && Revived(existing, occurrence, t))
    {
      FutureDiffers(existing, requested, now, executions, t);
    }
    RevivesExact(existing, occurrence);
    if existing.status.Scheduled? && Revives(existing, occurrence) {
      var t :| Revived(existing, occurrence, t);
      assert !(Upcoming(row, t) <==> Upcoming(Some(existing), t) && t < occurrence);
    }
  }

  /** Future-scope deletion leaves exactly what was to come before the chosen occurrence if and only if the row is
      over, or of an unknown recurrence type, or the new end date revives nothing. */
  lemma DeleteFutureExactIff(existing: Schedule, requested: Instant, now: Instant, executions: nat)
    requires WholeRow(existing) && !existing.kind.Once? && (Recurring(existing.kind) ==> Forward(existing.zone))
    requires Carried(Delete(existing, Future, requested, now, executions))
    ensures var row := RowAfter(existing, Delete(existing, Future, requested, now, executions));
            (forall t :: Upcoming(row, t) <==> Upcoming(Some(existing), t) && t < Normalize(requested))
            <==> !existing.status.Scheduled? || existing.kind.Unknown? || !Revives(existing, Normalize(requested))
  {
    if Recurring(existing.kind) {
      FutureOfRecurring(existing, requested, now, executions);
    }
  }

  /** In particular it does for an occurrence no later than a second after the current end date. */
  lemma DeleteFutureExact(existing: Schedule, requested: Instant, now: Instant, executions: nat)
    requires WholeRow(existing) && !existing.kind.Once? && (Recurring(existing.kind) ==> Forward(existing.zone))
    requires Carried(Delete(existing, Future, requested, now, executions))
    requires Within(existing.end, Normalize(requested) - SECOND)
    ensures var row := RowAfter(existing, Delete(existing, Future, requested, now, executions));
            forall t :: Upcoming(row, t) <==> Upcoming(Some(existing), t) && t < Normalize(requested)
  {
    DeleteFutureExactIff(existing, requested, now, executions);
  }

  ghost predicate Revived(existing: Schedule, occurrence: Instant, t: Instant)
    requires Recurring(existing.kind)
  {
    && MovesEndUp(existing.end, occurrence)
    && Ahead(SeriesOf(existing), existing.scheduledAt, t) && !IsSkipped(t, existing.skipped)
    && existing.end.value < t <= occurrence - SECOND
  }

  lemma AheadWhole(s: Series, t: Instant)
    requires Recurring(s.kind) && WholeSecond(s.base) && Ahead(s, s.base, t)
    ensures WholeSecond(t)
  {
    var n: nat :| 1 <= n && t == Orbit(s, s.base, n);
    OrbitWhole(s, s.base, n);
  }

  lemma FutureDiffers(existing: Schedule, requested: Instant, now: Instant, executions: nat, t: Instant)
    requires WholeRow(existing) && Recurring(existing.kind) && Forward(existing.zone)
    requires Carried(Delete(existing, Future, requested, now, executions))
    ensures var row := RowAfter(existing, Delete(existing, Future, requested, now, executions));
            (Upcoming(row, t) <==> Upcoming(Some(existing), t) && t < Normalize(requested))
            <==> !(existing.status.Scheduled? && Revived(existing, Normalize(requested), t))
  {
    var s := SeriesOf(existing);
    DeleteFutureLeaves(existing, requested, now, executions, t);
    AheadSame(s, s, s.base, t);
    if Ahead(s, s.base, t) {
      AheadIsLater(s, s.base, t);
      AheadWhole(s, t);
      NormalizeBounds(requested);
      WholeApart(t, Normalize(requested));
    }
  }

  lemma RevivesExact(existing: Schedule, occurrence: Instant)
    requires Recurring(existing.kind) && Forward(existing.zone)
    ensures Revives(existing, occurrence) <==> exists t :: Revived(existing, occurrence, t)
  {
    if MovesEndUp(existing.end, occurrence) {
      GapExact(SeriesOf(existing), existing.end.value, occurrence - SECOND);
      if Revives(existing, occurrence) {
        var t :| Ahead(SeriesOf(existing), existing.scheduledAt, t) && !IsSkipped(t, existing.skipped)
                 && existing.end.value < t <= occurrence - SECOND;
        assert Revived(existing, occurrence, t);
      }
    }
  }

  /** The points of a walk that starts one step ahead are those ahead. */
  lemma AheadAt(s: Series, n: nat)
    requires Recurring(s.kind)
    ensures Orbit(s, Step(s.kind, s.zone, s.base), n) == Orbit(s, s.base, n + 1)
    ensures Ahead(s, s.base, Orbit(s, s.base, n + 1))
  {
    assert Orbit(s, s.base, 0) == s.base && Orbit(s, s.base, 1) == Step(s.kind, s.zone, s.base);
    OrbitCompose(s, s.base, 1, n);
  }

  lemma GapExact(s: Series, lo: Instant, hi: Instant)
    requires Recurring(s.kind) && Forward(s.zone)
    ensures MeetsBetween(s, Step(s.kind, s.zone, s.base), lo, hi)
       <==> exists t :: Ahead(s, s.base, t) && !IsSkipped(t, s.skipped) && lo < t <= hi
  {
    var next := Step(s.kind, s.zone, s.base);
    MeetsBetweenExact(s, next, lo, hi);
    if n: nat :| lo < Orbit(s, next, n) <= hi && !IsSkipped(Orbit(s, next, n), s.skipped) {
      AheadAt(s, n);
    }
    if t :| Ahead(s, s.base, t) && !IsSkipped(t, s.skipped) && lo < t <= hi {
      var n: nat :| 1 <= n && t == Orbit(s, s.base, n);
      AheadAt(s, n - 1);
    }
  }

  /** Past the end date the operation adds occurrences: an hourly series that ended at its base gets a second run from
      a deletion two hours later. */
  lemma DeleteFutureRevives(zone: Zone)
    requires Forward(zone)
    ensures var existing := Schedule(0, 60, Hourly, zone, Some(0), [], Scheduled, false);
            var out := Delete(existing, Future, 2 * HOUR, 0, 0);
            Upcoming(RowAfter(existing, out), HOUR) && !Upcoming(Some(existing), HOUR)
  {
    var existing := Schedule(0, 60, Hourly, zone, Some(0), [], Scheduled, false);
    var s := SeriesOf(existing);
    assert Orbit(s, 0, 0) == 0;
    assert HOUR == Orbit(s, s.base, 1);
    assert Ahead(s, s.base, HOUR);
    DeleteFutureLeaves(existing, 2 * HOUR, 0, 0, HOUR);
  }

  // ------------------------------------------------ which answer a deletion gets

  /** Refusals come first: an occurrence more than a minute ago, by whole seconds, and then a running row. */
  lemma DeleteRefusedIff(existing: Schedule, scope: Scope, requested: Instant, now: Instant, executions: nat)
    ensures var out := Delete(existing, scope, requested, now, executions);
            var past := requested / 1_000_000_000 < (now - 60_000_000_000) / 1_000_000_000;
            && (out == PastOccurrence <==> past)
            && (out == ScheduleRunning <==> !past && existing.status == Running)
            && (out == SearchFailed <==>
                  && !past && existing.status != Running && existing.kind != Once && scope == Single
                  && requested / 1_000_000_000 == existing.scheduledAt / 1_000_000_000
                  && NextIncluded(existing.scheduledAt, SeriesOf(Marked(existing, requested))).Fail?)
  {
    SecondsCompare(requested, now - 60_000_000_000);
    SameSecondExact(existing.scheduledAt, requested);
    SecondsCompare(existing.scheduledAt, requested);
  }

  lemma SecondsCompare(a: Instant, b: Instant)
    ensures Normalize(Normalize(a)) < Normalize(b) <==> a / 1_000_000_000 < b / 1_000_000_000
    ensures SameSecond(b, Normalize(a)) <==> SameSecond(b, a)
  {
    var m, n := a / 1_000_000_000, b / 1_000_000_000;
    assert Normalize(a) == m * 1_000_000_000 && Normalize(b) == n * 1_000_000_000;
    NormalizeBounds(a);
  }

  /** A row is dropped exactly when it is a one-time one, or has never been executed and nothing of it is left: no
      later occurrence, or, for a future-scope deletion, no earlier time of its own. */
  lemma DeleteRemovesIff(existing: Schedule, scope: Scope, requested: Instant, now: Instant, executions: nat)
    requires !Delete(existing, scope, requested, now, executions).PastOccurrence?
    requires existing.status != Running
    ensures Delete(existing, scope, requested, now, executions) == Removed <==>
            || existing.kind == Once
            || (executions == 0
                && if scope == Future then Normalize(requested) <= existing.scheduledAt
                   else SameSecond(existing.scheduledAt, requested)
                        && NextIncluded(existing.scheduledAt, SeriesOf(Marked(existing, requested))).NoMore?)
  {
    SecondsCompare(requested, existing.scheduledAt);
  }

  /** A row that has been executed and is over afterwards stays as a completed one, which ends a second before the
      deleted occurrence. */
  lemma DeleteCompletesIff(existing: Schedule, scope: Scope, requested: Instant, now: Instant, executions: nat)
    requires executions > 0 && Delete(existing, scope, requested, now, executions).Updated?
    ensures var row := Delete(existing, scope, requested, now, executions).schedule;
            var ends := if scope == Future then Normalize(requested) <= existing.scheduledAt
                        else SameSecond(existing.scheduledAt, requested)
                             && NextIncluded(existing.scheduledAt, SeriesOf(Marked(existing, requested))).NoMore?;
            && (ends ==> row.status == Completed && row.end == Some(Normalize(requested) - 1_000_000_000))
            && (!ends && !MovesOn(existing, requested) ==> row.status == existing.status)
            && row.durationS == existing.durationS && row.kind == existing.kind && row.zone == existing.zone
            && row.paused == existing.paused
  {
    SecondsCompare(requested, existing.scheduledAt);
  }

  // ------------------------------------------------ what the store can hold

  /** Deletion leaves a row of whole seconds. */
  lemma DeletedWhole(existing: Schedule, scope: Scope, requested: Instant, now: Instant, executions: nat)
    requires WholeRow(existing) && Delete(existing, scope, requested, now, executions).Updated?
    ensures WholeRow(Delete(existing, scope, requested, now, executions).schedule)
  {
    var marked := Marked(existing, requested);
    NormalizeBounds(requested);
    WholeApart(Normalize(requested), Normalize(requested));
    if scope.Single? && NextIncluded(existing.scheduledAt, SeriesOf(marked)).At? {
      NextWhole(existing.scheduledAt, SeriesOf(marked), MAX_WALK);
    }
  }

  /** Future-scope deletion never leaves a row due past its end: one that stays scheduled stands within its new end,
      even if it was past the old one. */
  lemma FutureNeverStrands(existing: Schedule, requested: Instant, now: Instant, executions: nat)
    requires WholeRow(existing) && Delete(existing, Future, requested, now, executions).Updated?
    ensures var row := Delete(existing, Future, requested, now, executions).schedule;
            row.status.Scheduled? ==> Within(row.end, row.scheduledAt)
  {
    if existing.scheduledAt < Normalize(requested) {
      NormalizeBounds(requested);
      WholeApart(existing.scheduledAt, Normalize(requested));
    }
  }
}
