// Safety over whole runs: executions of a schedule advance strictly, three
// failures in a row end its execution.
module SchedulerRuns {
  import opened Instants
  import opened Recurrence
  import opened OccurrenceWalks
  import opened Schedules
  import opened Overlap
  import opened ScheduleDelete
  import opened Recovery
  import opened SchedulerModel
  import opened SchedulerEffects
  import opened SchedulerSafety
  import opened CrashRecovery

  // ------------------------------------------------ strict progress

  /** Every execution of the schedule was for a time at least an hour before its next run. */
  predicate Advanced(st: Store, id: Id)
    requires id in st.schedules
  {
    forall x | x in st.execs :: x.schedule == id ==> x.scheduledAt + HOUR <= st.schedules[id].scheduledAt
  }

  predicate NotBehind(st: Store, id: Id)
    requires id in st.schedules
  {
    forall x | x in st.execs :: x.schedule == id ==> x.scheduledAt <= st.schedules[id].scheduledAt
  }

  /** An execution in progress is for the schedule's current time. */
  predicate RunsCurrent(st: Store, id: Id)
    requires id in st.schedules
  {
    forall x | x in st.execs :: x.schedule == id && x.status.InProgress?
      ==> x.scheduledAt == st.schedules[id].scheduledAt
  }

  /** Executions of one schedule, in creation order, are for times an hour or more apart. */
  ghost predicate Chained(execs: seq<Execution>) {
    forall i, j :: 0 <= i < j < |execs| && execs[i].schedule == execs[j].schedule
      ==> execs[i].scheduledAt + HOUR <= execs[j].scheduledAt
  }

  predicate MayRun(row: Schedule) {
    row.status.Scheduled? && !row.paused
  }

  ghost predicate RowStrict(st: Store, id: Id)
    requires id in st.schedules
  {
    var row := st.schedules[id];
    && Forward(row.zone)
    && NotBehind(st, id)
    && RunsCurrent(st, id)
    && (MayRun(row) ==> Advanced(st, id))
    && (!row.kind.Once? && !row.paused && !row.status.Running? ==> Streak(st.execs, id) < FAIL_LIMIT)
  }

  ghost predicate Strict(sys: Sys) {
    && Inv(sys)
    && Chained(sys.store.execs)
    && forall id :: id in sys.store.schedules ==> RowStrict(sys.store, id)
  }

  /** The steps this section is about: no restart, no update, and no resume of a
      schedule whose last occurrence is still its current one or whose last three
      executions failed. A run-now is not a step at all. */
  ghost predicate Ordinary(sys: Sys, step: Step) {
    match step
    case UpdateStep(_, _, _) => false
    case CreateStep(_, row, _) => Forward(row.zone)
    case PauseStep(id, paused) =>
      !paused && id in sys.store.schedules && !sys.store.schedules[id].status.Running? ==>
        Advanced(sys.store, id) && Streak(sys.store.execs, id) < FAIL_LIMIT
    case _ => true
  }

  lemma AppendMembers(execs: seq<Execution>, exec: Execution)
    ensures forall x :: x in execs + [exec] <==> x in execs || x == exec
  {
  }

  lemma StreakAppend(execs: seq<Execution>, exec: Execution, id: Id)
    ensures Streak(execs + [exec], id)
            == if exec.schedule != id then Streak(execs, id)
               else if exec.status.Errored? then 1 + Streak(execs, id)
               else 0
  {
    assert (execs + [exec])[..|execs|] == execs;
  }

  lemma ChainedAppend(execs: seq<Execution>, exec: Execution)
    requires Chained(execs)
    requires forall x :: x in execs && x.schedule == exec.schedule ==> x.scheduledAt + HOUR <= exec.scheduledAt
    ensures Chained(execs + [exec])
  {
    assert forall i :: 0 <= i < |execs| ==> execs[i] in execs;
  }

  /** A row that has just run moves on by an hour or more, or stops. */
  lemma AdvancedRowStrict(st: Store, id: Id, failed: bool)
    requires id in st.schedules && Forward(st.schedules[id].zone)
    requires NotBehind(st, id)
    requires forall x :: x in st.execs && x.schedule == id ==> !x.status.InProgress?
    requires !failed ==> Streak(st.execs, id) == 0
    ensures RowStrict(st.(schedules := st.schedules[id := AdvancedRow(st, id, failed)]), id)
  {
    var row := st.schedules[id];
    if !row.kind.Once? && NextIncluded(row.scheduledAt, SeriesOf(row)).At? {
      NextAtIsIncluded(row.scheduledAt, SeriesOf(row), MAX_WALK);
      NextIsLeast(row.scheduledAt, SeriesOf(row));
    }
  }

  /** Replacing one row leaves the others as they were. */
  lemma OthersStrict(st: Store, id: Id, row: Schedule)
    requires forall other :: other in st.schedules && other != id ==> RowStrict(st, other)
    ensures var after := st.(schedules := st.schedules[id := row]);
            forall other :: other in after.schedules && other != id ==> RowStrict(after, other)
  {
    var after := st.(schedules := st.schedules[id := row]);
    forall other | other in after.schedules && other != id ensures RowStrict(after, other) {
      assert RowStrict(st, other);
    }
  }

  /** Executions in progress belong to running schedules. */
  lemma IdleHasNone(sys: Sys, id: Id)
    requires Inv(sys) && id in sys.store.schedules && !sys.store.schedules[id].status.Running?
    ensures forall x :: x in sys.store.execs && x.schedule == id ==> !x.status.InProgress?
  {
    forall x | x in sys.store.execs && x.schedule == id && x.status.InProgress? ensures false {
      assert sys.callbacks[x.id] == id;
      assert Pending(sys.callbacks, id);
    }
  }

  /** A row beside the one that starts an execution. */
  lemma BystanderStrict(st: Store, id: Id, exec: Execution, other: Id)
    requires id in st.schedules && other in st.schedules && other != id && exec.schedule == id
    requires RowStrict(st, other)
    ensures RowStrict(Store(MarkedRunning(st, id), st.execs + [exec]), other)
  {
    AppendMembers(st.execs, exec);
    StreakAppend(st.execs, exec, other);
  }

  lemma TickStrict(sys: Sys, step: Step)
    requires step.TickStep? && Strict(sys) && Enabled(sys, step)
    ensures Strict(Do(sys, step))
  {
    var st, id := sys.store, step.id;
    StepKeepsInv(sys, step);
    IdleHasNone(sys, id);
    var status := if step.started then InProgress else Errored;
    var exec := StartedExec(st, id, step.execId, status);
    var mid := Store(MarkedRunning(st, id), st.execs + [exec]);
    assert RowStrict(st, id);
    AppendMembers(st.execs, exec);
    ChainedAppend(st.execs, exec);
    assert Forward(mid.schedules[id].zone) && NotBehind(mid, id) && RunsCurrent(mid, id);
    forall other | other in mid.schedules && other != id ensures RowStrict(mid, other) {
      BystanderStrict(st, id, exec, other);
    }
    if step.started {
      TickStartedEffect(sys, step.now, id, step.execId);
      assert RowStrict(mid, id);
    } else {
      TickFailedEffect(sys, step.now, id, step.execId);
      AdvancedRowStrict(mid, id, true);
      OthersStrict(mid, id, AdvancedRow(mid, id, true));
    }
  }

  // ------------------------------------------------ completion

  lemma {:induction false} StreakFinish(execs: seq<Execution>, execId: Id, schedule: Id, status: ExecStatus, id: Id)
    requires forall x :: x in execs && x.id == execId ==> x.schedule == schedule
    requires id != schedule
    ensures Streak(SetExecStatus(execs, execId, status), id) == Streak(execs, id)
  {
    if execs != [] {
      var init := execs[..|execs| - 1];
      StreakFinish(init, execId, schedule, status, id);
      assert SetExecStatus(execs, execId, status)[..|execs| - 1] == SetExecStatus(init, execId, status);
      assert execs[|execs| - 1] in execs;
    }
  }

  /** A success of the newest execution of a schedule resets its streak. */
  lemma {:induction false} StreakReset(execs: seq<Execution>, newest: Execution)
    requires Chained(execs) && newest in execs
    requires forall y :: y in execs && y.schedule == newest.schedule ==> y.scheduledAt <= newest.scheduledAt
    ensures Streak(SetExecStatus(execs, newest.id, Succeeded), newest.schedule) == 0
  {
    var n := |execs| - 1;
    var init, last := execs[..n], execs[n];
    assert last in execs;
    assert SetExecStatus(execs, newest.id, Succeeded)[..n] == SetExecStatus(init, newest.id, Succeeded);
    if last.schedule == newest.schedule {
      var k :| 0 <= k < |execs| && execs[k] == newest;
      assert k == n;
    } else {
      var k :| 0 <= k < |execs| && execs[k] == newest;
      assert init[k] == newest;
      StreakReset(init, newest);
    }
  }

  /** Writing an execution off changes its status, and that of no other. */
  lemma FinishedTimes(execs: seq<Execution>, execId: Id, status: ExecStatus, y: Execution)
    requires y in SetExecStatus(execs, execId, status) && !status.InProgress?
    ensures exists x ::
              && x in execs && x.schedule == y.schedule && x.scheduledAt == y.scheduledAt
              && (y.status.InProgress? ==> x == y)
  {
    var updated := SetExecStatus(execs, execId, status);
    var i :| 0 <= i < |updated| && updated[i] == y;
    assert execs[i] in execs;
  }

  lemma FinishedRow(sys: Sys, execId: Id, status: ExecStatus, other: Id)
    requires Strict(sys) && execId in sys.callbacks && !status.InProgress? && other in sys.store.schedules
    ensures var done := sys.store.(execs := SetExecStatus(sys.store.execs, execId, status));
            && Forward(done.schedules[other].zone) && NotBehind(done, other)
            && (other != sys.callbacks[execId] ==> RowStrict(done, other))
  {
    var done := sys.store.(execs := SetExecStatus(sys.store.execs, execId, status));
    assert RowStrict(sys.store, other);
    forall y | y in done.execs && y.schedule == other
      ensures y.scheduledAt <= done.schedules[other].scheduledAt
      ensures y.status.InProgress? ==> y.scheduledAt == done.schedules[other].scheduledAt
      ensures MayRun(done.schedules[other]) ==> y.scheduledAt + HOUR <= done.schedules[other].scheduledAt
    {
      FinishedTimes(sys.store.execs, execId, status, y);
    }
    if other != sys.callbacks[execId] {
      StreakFinish(sys.store.execs, execId, sys.callbacks[execId], status, other);
    }
  }

  /** Nothing is in progress any more for the schedule of a finished execution. */
  lemma FinishedIdle(sys: Sys, execId: Id, status: ExecStatus)
    requires Inv(sys) && execId in sys.callbacks && !status.InProgress?
    ensures forall x :: x in SetExecStatus(sys.store.execs, execId, status) && x.schedule == sys.callbacks[execId] ==>
              !x.status.InProgress?
  {
    forall x | x in SetExecStatus(sys.store.execs, execId, status) && x.schedule == sys.callbacks[execId]
      ensures !x.status.InProgress?
    {
      FinishedExec(sys, execId, status, x);
    }
  }

  lemma FinishedTable(sys: Sys, execId: Id, status: ExecStatus)
    requires Strict(sys) && execId in sys.callbacks && !status.InProgress?
    ensures var done := sys.store.(execs := SetExecStatus(sys.store.execs, execId, status));
            && Chained(done.execs)
            && (forall other :: other in done.schedules ==>
                  Forward(done.schedules[other].zone) && NotBehind(done, other)
                  && (other != sys.callbacks[execId] ==> RowStrict(done, other)))
  {
    var done := sys.store.(execs := SetExecStatus(sys.store.execs, execId, status));
    forall other | other in done.schedules
      ensures Forward(done.schedules[other].zone) && NotBehind(done, other)
      ensures other != sys.callbacks[execId] ==> RowStrict(done, other)
    {
      FinishedRow(sys, execId, status, other);
    }
  }

  /** The table while a completed execution is being written off. */
  lemma FinishedRows(sys: Sys, execId: Id, ok: bool)
    requires Strict(sys) && execId in sys.callbacks
    ensures var done := Apply(sys.store, Finish(execId, ok));
            var id := sys.callbacks[execId];
            && Chained(done.execs)
            && (forall other :: other in done.schedules ==>
                  Forward(done.schedules[other].zone) && NotBehind(done, other))
            && (forall other :: other in done.schedules && other != id ==> RowStrict(done, other))
            && (forall x :: x in done.execs && x.schedule == id ==> !x.status.InProgress?)
  {
    var status := Finish(execId, ok).execStatus;
    assert Apply(sys.store, Finish(execId, ok)) == sys.store.(execs := SetExecStatus(sys.store.execs, execId, status));
    FinishedIdle(sys, execId, status);
    FinishedTable(sys, execId, status);
  }

  lemma SuccessResets(sys: Sys, execId: Id)
    requires Strict(sys) && execId in sys.callbacks
    ensures Streak(SetExecStatus(sys.store.execs, execId, Succeeded), sys.callbacks[execId]) == 0
  {
    assert HasExec(sys.store.execs, execId);
    var x :| x in sys.store.execs && x.id == execId;
    assert x.schedule == sys.callbacks[execId];
    assert RowStrict(sys.store, x.schedule);
    StreakReset(sys.store.execs, x);
  }

  lemma CompleteStrict(sys: Sys, step: Step)
    requires step.CompleteStep? && Strict(sys) && Enabled(sys, step)
    ensures Strict(Do(sys, step))
  {
    var execId := step.execId;
    var id := sys.callbacks[execId];
    var done := Apply(sys.store, Finish(execId, step.ok));
    StepKeepsInv(sys, step);
    CompleteEffect(sys, execId, step.ok);
    FinishedRows(sys, execId, step.ok);
    if step.ok {
      SuccessResets(sys, execId);
    }
    AdvancedRowStrict(done, id, !step.ok);
    OthersStrict(done, id, AdvancedRow(done, id, !step.ok));
  }

  // ------------------------------------------------ edits

  lemma {:induction false} NoExecsNoStreak(execs: seq<Execution>, id: Id)
    requires forall x :: x in execs ==> x.schedule != id
    ensures Streak(execs, id) == 0
  {
    if execs != [] {
      assert execs[|execs| - 1] in execs;
      assert forall x :: x in execs[..|execs| - 1] ==> x in execs;
      NoExecsNoStreak(execs[..|execs| - 1], id);
    }
  }

  lemma DropStrict(sys: Sys, id: Id)
    requires Strict(sys)
    ensures var after := Apply(sys.store, DropSchedule(id));
            Chained(after.execs) && forall other :: other in after.schedules ==> RowStrict(after, other)
  {
    var st := sys.store;
    var after := Apply(st, DropSchedule(id));
    forall i, j | 0 <= i < j < |after.execs| && after.execs[i].schedule == after.execs[j].schedule
      ensures after.execs[i].scheduledAt + HOUR <= after.execs[j].scheduledAt
    {
      var k, l := DropExecsEmbeds(st.execs, id, i, j);
    }
    forall x ensures x in after.execs <==> x in st.execs && x.schedule != id {
      DropExecsMembers(st.execs, id, x);
    }
    forall other | other in after.schedules ensures RowStrict(after, other) {
      assert RowStrict(st, other);
      DropExecsStreak(st.execs, id, other);
    }
  }

  /** A deletion keeps the zone, moves the row's time forward if at all, by an hour at
      least, and never makes the row run or resume. */
  lemma DeletedRowForward(existing: Schedule, scope: Scope, requested: Instant, now: Instant, executions: nat)
    requires Forward(existing.zone) && Delete(existing, scope, requested, now, executions).Updated?
    ensures var row := Delete(existing, scope, requested, now, executions).schedule;
            && !existing.status.Running? && !row.status.Running?
            && row.kind == existing.kind && row.zone == existing.zone && row.paused == existing.paused
            && (row.scheduledAt == existing.scheduledAt || existing.scheduledAt + HOUR <= row.scheduledAt)
            && (row.scheduledAt == existing.scheduledAt ==> row.status == existing.status || row.status.Completed?)
  {
    if scope.Single? {
      var marked := existing.(skipped := AppendSkipped(existing.skipped, Normalize(requested)));
      if NextIncluded(existing.scheduledAt, SeriesOf(marked)).At? {
        NextAtIsIncluded(existing.scheduledAt, SeriesOf(marked), MAX_WALK);
        NextIsLeast(existing.scheduledAt, SeriesOf(marked));
      }
    }
  }

  /** Deleting an occurrence never moves a schedule back to a time it has run for. */
  lemma DeletedRowStrict(sys: Sys, step: Step)
    requires step.DeleteStep? && Strict(sys) && Enabled(sys, step)
    requires Delete(sys.store.schedules[step.id], step.scope, step.requested, step.now,
                    CountExecs(sys.store.execs, step.id)).Updated?
    ensures var row := Delete(sys.store.schedules[step.id], step.scope, step.requested, step.now,
                              CountExecs(sys.store.execs, step.id)).schedule;
            RowStrict(sys.store.(schedules := sys.store.schedules[step.id := row]), step.id)
  {
    var existing := sys.store.schedules[step.id];
    assert RowStrict(sys.store, step.id);
    DeletedRowForward(existing, step.scope, step.requested, step.now, CountExecs(sys.store.execs, step.id));
    IdleHasNone(sys, step.id);
  }

  lemma PutStrict(sys: Sys, step: Step, id: Id, row: Schedule)
    requires EditStep(step) && Strict(sys) && Enabled(sys, step) && Ordinary(sys, step)
    requires Writes(sys, step) == [PutSchedule(id, row)]
    ensures RowStrict(Apply(sys.store, PutSchedule(id, row)), id)
  {
    if step.DeleteStep? {
      DeletedRowStrict(sys, step);
    } else {
      StepKeepsInv(sys, step);
      NoExecsNoStreak(sys.store.execs, id);
    }
  }

  lemma PausedStrict(sys: Sys, step: Step, id: Id, paused: bool)
    requires EditStep(step) && Strict(sys) && Enabled(sys, step) && Ordinary(sys, step)
    requires Writes(sys, step) == [SetPaused(id, paused)]
    ensures id in sys.store.schedules && RowStrict(Apply(sys.store, SetPaused(id, paused)), id)
  {
    assert RowStrict(sys.store, id);
  }

  ghost predicate RowsStrict(st: Store) {
    Chained(st.execs) && forall id :: id in st.schedules ==> RowStrict(st, id)
  }

  lemma EditedRowsStrict(sys: Sys, step: Step, write: Write)
    requires EditStep(step) && Strict(sys) && Enabled(sys, step) && Ordinary(sys, step)
    requires Writes(sys, step) == [write]
    ensures RowsStrict(Apply(sys.store, write))
  {
    match write {
      case DropSchedule(id) => DropStrict(sys, id);
      case PutSchedule(id, row) =>
        PutStrict(sys, step, id, row);
        OthersStrict(sys.store, id, row);
      case SetPaused(id, paused) =>
        PausedStrict(sys, step, id, paused);
        OthersStrict(sys.store, id, sys.store.schedules[id].(paused := paused));
    }
  }

  lemma EditStrict(sys: Sys, step: Step)
    requires EditStep(step) && Strict(sys) && Enabled(sys, step) && Ordinary(sys, step)
    ensures Strict(Do(sys, step))
  {
    StepKeepsInv(sys, step);
    EditEffect(sys, step);
    var writes := Writes(sys, step);
    if writes != [] {
      assert writes == [writes[0]];
      EditedRowsStrict(sys, step, writes[0]);
    }
  }

  /** Without restart, update and an untimely resume, every step keeps the
      executions of each schedule strictly advancing and its failures below three. */
  lemma StepKeepsStrict(sys: Sys, step: Step)
    requires Strict(sys) && Enabled(sys, step) && Ordinary(sys, step)
    ensures Strict(Do(sys, step))
  {
    match step {
      case TickStep(_, _, _, _) => TickStrict(sys, step);
      case CompleteStep(_, _) => CompleteStrict(sys, step);
      case _ => EditStrict(sys, step);
    }
  }

  ghost predicate OrdinaryRun(sys: Sys, steps: seq<Step>, final: Sys)
    decreases |steps|
  {
    if steps == [] then sys == final
    else Enabled(sys, steps[0]) && Ordinary(sys, steps[0]) && OrdinaryRun(Do(sys, steps[0]), steps[1..], final)
  }

  /** No occurrence runs twice: over a whole run, two executions of one schedule are
      for times at least an hour apart, the later one for the later time. */
  lemma {:induction false} ExecutionsAdvance(sys: Sys, steps: seq<Step>, final: Sys)
    requires Strict(sys) && OrdinaryRun(sys, steps, final)
    ensures Strict(final) && Chained(final.store.execs)
    decreases |steps|
  {
    if steps != [] {
      StepKeepsStrict(sys, steps[0]);
      ExecutionsAdvance(Do(sys, steps[0]), steps[1..], final);
    }
  }

  lemma EmptyStrict()
    ensures Strict(EMPTY)
  {
    EmptyInv();
  }

  /** In every such run from an empty controller: when the scheduler starts a recurring
      schedule, fewer than three of its executions have failed in a row, and none was
      for the time it is about to run. */
  lemma NeverAfterThreeFailures(steps: seq<Step>, sys: Sys, tick: Step)
    requires OrdinaryRun(EMPTY, steps, sys) && tick.TickStep? && Enabled(sys, tick)
    ensures !sys.store.schedules[tick.id].kind.Once? ==> Streak(sys.store.execs, tick.id) < FAIL_LIMIT
    ensures forall x :: x in sys.store.execs && x.schedule == tick.id ==>
              x.scheduledAt < sys.store.schedules[tick.id].scheduledAt
  {
    EmptyStrict();
    ExecutionsAdvance(EMPTY, steps, sys);
    assert RowStrict(sys.store, tick.id);
  }

  /** `n` executions of a schedule, from its first to its last one, span at least
      `n - 1` hours, which bounds their number in any finite stretch of time. */
  lemma {:induction false} ExecutionsSpread(execs: seq<Execution>, id: Id) returns (first: nat, last: nat)
    requires Chained(execs) && CountExecs(execs, id) > 0
    ensures first <= last < |execs| && execs[first].schedule == id == execs[last].schedule
    ensures forall j :: last < j < |execs| ==> execs[j].schedule != id
    ensures execs[first].scheduledAt + (CountExecs(execs, id) - 1) * 3_600_000_000_000 <= execs[last].scheduledAt
  {
    var n := |execs| - 1;
    var init := execs[..n];
    if CountExecs(init, id) == 0 {
      first, last := n, n;
    } else {
      first, last := ExecutionsSpread(init, id);
      assert init[first] == execs[first] && init[last] == execs[last];
      if execs[n].schedule == id {
        last := n;
      } else {
        assert forall j :: last < j < n ==> execs[j] == init[j];
      }
    }
  }
}
