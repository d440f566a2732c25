// The recurrence end: what a run takes away from what is to come, and how many runs a
// schedule with an end date can have.
module ScheduleEnds {
  import opened Instants
  import opened Recurrence
  import opened OccurrenceWalks
  import opened Schedules
  import opened ScheduleDelete
  import opened Recovery
  import opened SchedulerModel
  import opened SchedulerEffects
  import opened SchedulerSafety
  import opened CrashRecovery
  import opened SchedulerRuns

  /** A successful execution takes exactly the time it was for out of what is to come, and
      completes the series exactly when nothing else was. */
  lemma SuccessConsumesTime(st: Store, id: Id, t: Instant)
    requires id in st.schedules && Recurring(st.schedules[id].kind) && Forward(st.schedules[id].zone)
    requires !NextIncluded(st.schedules[id].scheduledAt, SeriesOf(st.schedules[id])).Fail?
    ensures var row := st.schedules[id];
            Upcoming(Some(AdvancedRow(st, id, false)), t)
            <==> Upcoming(Some(row.(status := Scheduled)), t) && t != row.scheduledAt
    ensures var row := st.schedules[id];
            AdvancedRow(st, id, false).status.Completed?
            <==> forall u :: !Later(SeriesOf(row), row.scheduledAt, u)
  {
    var row := st.schedules[id];
    var base := row.scheduledAt;
    AheadSame(SeriesOf(row), SeriesOf(row.(status := Scheduled)), base, t);
    if Ahead(SeriesOf(row), base, t) {
      AheadIsLater(SeriesOf(row), base, t);
    }
    match NextIncluded(base, SeriesOf(row)) {
      case At(next) =>
        MovedUpcoming(row, next, t);
        NextIsLeast(base, SeriesOf(row));
      case NoMore => NoMoreMeansNone(base, SeriesOf(row));
    }
  }

  /** A row stands on an occurrence of its own series exactly when it obeys both rules;
      only then is what is to come the occurrences of the series. */
  lemma UpcomingIsSeriesIff(row: Schedule)
    requires row.status.Scheduled? && Recurring(row.kind) && Forward(row.zone)
    ensures (forall t :: Upcoming(Some(row), t) <==> Occurs(SeriesOf(row), t))
       <==> Obeys(row, SkipList) && Obeys(row, EndDate)
  {
    var s := SeriesOf(row);
    assert Orbit(s, s.base, 0) == s.base;
    assert Upcoming(Some(row), s.base);
    if Obeys(row, SkipList) && Obeys(row, EndDate) {
      forall t ensures Upcoming(Some(row), t) <==> Occurs(s, t) {
        if Occurs(s, t) {
          var n: nat :| t == Orbit(s, s.base, n);
          assert n == 0 || Later(s, s.base, t);
        }
      }
    }
  }

  // ------------------------------------------------ executions within the end

  /** The schedule, while it exists, is a recurring one with an end date up to `e`, and
      it and its executions are for times from `b` to `e`. */
  ghost predicate Between(st: Store, id: Id, b: Instant, e: Instant) {
    && (forall x :: x in st.execs && x.schedule == id ==> b <= x.scheduledAt <= e)
    && (id in st.schedules ==>
          var row := st.schedules[id];
          !row.kind.Once? && row.end.Some? && row.end.value <= e && b <= row.scheduledAt <= e)
  }

  /** The steps that could stretch it: creating the schedule again under its old name,
      and a future-scope deletion past the end date, which moves the end date up. */
  predicate Stretches(step: Step, id: Id, e: Instant) {
    match step
    case CreateStep(other, _, _) => other == id
    case DeleteStep(other, scope, requested, _) => other == id && scope.Future? && e < Normalize(requested) - SECOND
    case _ => false
  }

  ghost predicate BoundedRun(sys: Sys, steps: seq<Step>, final: Sys, id: Id, e: Instant)
    decreases |steps|
  {
    if steps == [] then sys == final
    else
      && Enabled(sys, steps[0]) && Ordinary(sys, steps[0]) && !Stretches(steps[0], id, e)
      && BoundedRun(Do(sys, steps[0]), steps[1..], final, id, e)
  }

  lemma AdvancedRowBetween(st: Store, id: Id, failed: bool, b: Instant, e: Instant)
    requires id in st.schedules && Forward(st.schedules[id].zone) && Between(st, id, b, e)
    ensures Between(st.(schedules := st.schedules[id := AdvancedRow(st, id, failed)]), id, b, e)
  {
    var row := st.schedules[id];
    if NextIncluded(row.scheduledAt, SeriesOf(row)).At? {
      NextAtIsIncluded(row.scheduledAt, SeriesOf(row), MAX_WALK);
      NextIsLeast(row.scheduledAt, SeriesOf(row));
    }
  }

  lemma StartedBetween(st: Store, started: Id, exec: Execution, id: Id, b: Instant, e: Instant)
    requires Between(st, id, b, e) && started in st.schedules
    requires exec.schedule == started && exec.scheduledAt == st.schedules[started].scheduledAt
    ensures Between(Store(MarkedRunning(st, started), st.execs + [exec]), id, b, e)
  {
    AppendMembers(st.execs, exec);
  }

  lemma TickBetween(sys: Sys, step: Step, id: Id, b: Instant, e: Instant)
    requires step.TickStep? && Strict(sys) && Enabled(sys, step) && Between(sys.store, id, b, e)
    ensures Between(Do(sys, step).store, id, b, e)
  {
    var st := sys.store;
    var status := if step.started then InProgress else Errored;
    var exec := StartedExec(st, step.id, step.execId, status);
    var mid := Store(MarkedRunning(st, step.id), st.execs + [exec]);
    StartedBetween(st, step.id, exec, id, b, e);
    assert RowStrict(st, step.id);
    if step.started {
      TickStartedEffect(sys, step.now, step.id, step.execId);
    } else {
      TickFailedEffect(sys, step.now, step.id, step.execId);
      if step.id == id {
        AdvancedRowBetween(mid, id, true, b, e);
      } else {
        ReplacedBetween(mid, step.id, AdvancedRow(mid, step.id, true), id, b, e);
      }
    }
  }

  lemma ReplacedBetween(st: Store, other: Id, row: Schedule, id: Id, b: Instant, e: Instant)
    requires Between(st, id, b, e) && other != id
    ensures Between(st.(schedules := st.schedules[other := row]), id, b, e)
  {
  }

  lemma FinishedBetween(st: Store, execId: Id, status: ExecStatus, id: Id, b: Instant, e: Instant)
    requires Between(st, id, b, e) && !status.InProgress?
    ensures Between(Apply(st, SetExec(execId, status)), id, b, e)
  {
    var done := Apply(st, SetExec(execId, status));
    forall x | x in done.execs && x.schedule == id ensures b <= x.scheduledAt <= e {
      FinishedTimes(st.execs, execId, status, x);
    }
  }

  lemma CompleteBetween(sys: Sys, step: Step, id: Id, b: Instant, e: Instant)
    requires step.CompleteStep? && Strict(sys) && Enabled(sys, step) && Between(sys.store, id, b, e)
    ensures Between(Do(sys, step).store, id, b, e)
  {
    var done, taken := Apply(sys.store, Finish(step.execId, step.ok)), sys.callbacks[step.execId];
    CompleteEffect(sys, step.execId, step.ok);
    FinishedBetween(sys.store, step.execId, Finish(step.execId, step.ok).execStatus, id, b, e);
    if taken == id {
      assert RowStrict(sys.store, id);
      AdvancedRowBetween(done, id, !step.ok, b, e);
    } else {
      ReplacedBetween(done, taken, AdvancedRow(done, taken, !step.ok), id, b, e);
    }
  }

  /** A deletion that does not stretch the schedule keeps it within its bounds. */
  lemma DeletedBetween(existing: Schedule, scope: Scope, requested: Instant, now: Instant, executions: nat, b: Instant,
                       e: Instant)
    requires Forward(existing.zone) && !existing.kind.Once? && existing.end.Some? && existing.end.value <= e
    requires b <= existing.scheduledAt <= e
    requires scope.Future? ==> Normalize(requested) - SECOND <= e
    requires Delete(existing, scope, requested, now, executions).Updated?
    ensures var row := Delete(existing, scope, requested, now, executions).schedule;
            !row.kind.Once? && row.end.Some? && row.end.value <= e && b <= row.scheduledAt <= e
  {
    if scope.Single? {
      var marked := existing.(skipped := AppendSkipped(existing.skipped, Normalize(requested)));
      if NextIncluded(existing.scheduledAt, SeriesOf(marked)).At? {
        NextAtIsIncluded(existing.scheduledAt, SeriesOf(marked), MAX_WALK);
        NextIsLeast(existing.scheduledAt, SeriesOf(marked));
      }
    }
  }

  lemma DroppedBetween(st: Store, gone: Id, id: Id, b: Instant, e: Instant)
    requires Between(st, id, b, e)
    ensures Between(Apply(st, DropSchedule(gone)), id, b, e)
  {
    forall x ensures x in DropExecs(st.execs, gone) <==> x in st.execs && x.schedule != gone {
      DropExecsMembers(st.execs, gone, x);
    }
  }

  lemma PutBetween(sys: Sys, step: Step, row: Schedule, b: Instant, e: Instant)
    requires step.DeleteStep? && Strict(sys) && Enabled(sys, step)
    requires Between(sys.store, step.id, b, e) && !Stretches(step, step.id, e)
    requires Delete(sys.store.schedules[step.id], step.scope, step.requested, step.now,
                    CountExecs(sys.store.execs, step.id))
             == Updated(row)
    ensures Between(Apply(sys.store, PutSchedule(step.id, row)), step.id, b, e)
  {
    var existing := sys.store.schedules[step.id];
    assert RowStrict(sys.store, step.id);
    DeletedBetween(existing, step.scope, step.requested, step.now, CountExecs(sys.store.execs, step.id), b, e);
  }

  /** An ordinary edit that writes a row and does not stretch it is a deletion. */
  lemma PutIsDeletion(sys: Sys, step: Step, id: Id, row: Schedule, e: Instant)
    requires EditStep(step) && Enabled(sys, step) && Ordinary(sys, step) && !Stretches(step, id, e)
    requires Writes(sys, step) == [PutSchedule(id, row)]
    ensures step.DeleteStep? && step.id == id
    ensures Delete(sys.store.schedules[id], step.scope, step.requested, step.now, CountExecs(sys.store.execs, id))
            == Updated(row)
  {
  }

  lemma PausedBetween(st: Store, other: Id, paused: bool, id: Id, b: Instant, e: Instant)
    requires Between(st, id, b, e)
    ensures Between(Apply(st, SetPaused(other, paused)), id, b, e)
  {
  }

  lemma EditedBetween(sys: Sys, step: Step, write: Write, id: Id, b: Instant, e: Instant)
    requires EditStep(step) && Strict(sys) && Enabled(sys, step) && Ordinary(sys, step)
    requires Between(sys.store, id, b, e) && !Stretches(step, id, e)
    requires Writes(sys, step) == [write]
    ensures Between(Apply(sys.store, write), id, b, e)
  {
    match write {
      case DropSchedule(gone) => DroppedBetween(sys.store, gone, id, b, e);
      case PutSchedule(other, row) =>
        if other == id {
          PutIsDeletion(sys, step, id, row, e);
          PutBetween(sys, step, row, b, e);
        } else {
          ReplacedBetween(sys.store, other, row, id, b, e);
        }
      case SetPaused(other, paused) => PausedBetween(sys.store, other, paused, id, b, e);
    }
  }

  lemma EditBetween(sys: Sys, step: Step, id: Id, b: Instant, e: Instant)
    requires EditStep(step) && Strict(sys) && Enabled(sys, step) && Ordinary(sys, step)
    requires Between(sys.store, id, b, e) && !Stretches(step, id, e)
    ensures Between(Do(sys, step).store, id, b, e)
  {
    var writes := Writes(sys, step);
    EditEffect(sys, step);
    if writes != [] {
      assert writes == [writes[0]];
      EditedBetween(sys, step, writes[0], id, b, e);
    }
  }

  lemma {:induction false} RunBetween(sys: Sys, steps: seq<Step>, final: Sys, id: Id, b: Instant, e: Instant)
    requires Strict(sys) && Between(sys.store, id, b, e) && BoundedRun(sys, steps, final, id, e)
    ensures Strict(final) && Between(final.store, id, b, e)
    decreases |steps|
  {
    if steps != [] {
      var step := steps[0];
      StepKeepsStrict(sys, step);
      if step.TickStep? {
        TickBetween(sys, step, id, b, e);
      } else if step.CompleteStep? {
        CompleteBetween(sys, step, id, b, e);
      } else {
        EditBetween(sys, step, id, b, e);
      }
      RunBetween(Do(sys, steps[0]), steps[1..], final, id, b, e);
    }
  }

  lemma CreatedBetween(sys: Sys, create: Step, e: Instant)
    requires Strict(sys) && create.CreateStep? && Enabled(sys, create) && !create.row.kind.Once?
    requires var row := Stored(create.row); row.end.Some? && row.end.value <= e && row.scheduledAt <= e
    ensures Between(Do(sys, create).store, create.id, Stored(create.row).scheduledAt, e)
  {
    EditEffect(sys, create);
    assert Writes(sys, create)[0] == PutSchedule(create.id, Stored(create.row));
  }

  /** A schedule created for time b with a recurrence end, both as stored, has at most one
      execution more than there are hours from b to e, however the run goes on, as long as
      nothing moves the end date behind e; e is the end date, or b if that is later. */
  lemma ExecutionsBounded(sys: Sys, create: Step, steps: seq<Step>, final: Sys, e: Instant)
    requires Strict(sys) && create.CreateStep? && Enabled(sys, create) && Ordinary(sys, create)
    requires !create.row.kind.Once?
    requires var row := Stored(create.row); row.end.Some? && row.end.value <= e && row.scheduledAt <= e
    requires BoundedRun(Do(sys, create), steps, final, create.id, e)
    ensures forall x :: x in final.store.execs && x.schedule == create.id ==> x.scheduledAt <= e
    ensures (CountExecs(final.store.execs, create.id) - 1) * 3_600_000_000_000 <= e - Stored(create.row).scheduledAt
  {
    var id, execs := create.id, final.store.execs;
    StepKeepsStrict(sys, create);
    CreatedBetween(sys, create, e);
    RunBetween(Do(sys, create), steps, final, id, Stored(create.row).scheduledAt, e);
    if CountExecs(execs, id) > 0 {
      var first, last := ExecutionsSpread(execs, id);
      assert execs[first] in execs && execs[last] in execs;
    }
  }

  /** The state has the same bound: a recurring row that is up for execution and obeys
      the end date has no more executions than hours up to it. */
  lemma ExecutionsWithinEnd(sys: Sys, id: Id) returns (first: nat)
    requires Strict(sys) && id in sys.store.schedules && CountExecs(sys.store.execs, id) > 0
    requires var row := sys.store.schedules[id];
             !row.kind.Once? && (row.status.Scheduled? || row.status.Running?) && row.end.Some? && Obeys(row, EndDate)
    ensures first < |sys.store.execs| && sys.store.execs[first].schedule == id
    ensures (CountExecs(sys.store.execs, id) - 1) * 3_600_000_000_000
            <= sys.store.schedules[id].end.value - sys.store.execs[first].scheduledAt
  {
    var last;
    first, last := ExecutionsSpread(sys.store.execs, id);
    assert RowStrict(sys.store, id);
    assert sys.store.execs[last] in sys.store.execs;
  }
}
