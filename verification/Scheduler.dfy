// The scheduler itself: its callback map and the two tables it writes, updated in
// place by the methods below, each tied to a step of the machine.
module SchedulerService {
  import opened Instants
  import opened Recurrence
  import opened Schedules
  import opened ScheduleDelete
  import opened Recovery
  import opened SchedulerModel
  import opened SchedulerEffects

  class Scheduler {
    var schedules: map<Id, Schedule>
    var execs: seq<Execution>
    var callbacks: map<Id, Id>

    ghost function Tables(): Store
      reads this
    {
      Store(schedules, execs)
    }

    ghost function View(): Sys
      reads this
    {
      Sys(Tables(), callbacks)
    }

    constructor ()
      ensures View() == Sys(Store(map[], []), map[])
    {
      schedules, execs, callbacks := map[], [], map[];
    }

    // -------------------------------------------- store writes

    method UpdateScheduleStatus(id: Id, status: Status)
      modifies this`schedules
      ensures Tables() == Apply(old(Tables()), SetStatus(id, status))
    {
      if id in schedules {
        schedules := schedules[id := schedules[id].(status := status)];
      }
    }

    method UpdateScheduleNextRun(id: Id, nextAt: Instant, status: Status)
      modifies this`schedules
      ensures Tables() == Apply(old(Tables()), SetNextRun(id, nextAt, status))
    {
      if id in schedules {
        schedules := schedules[id := schedules[id].(scheduledAt := nextAt, status := status)];
      }
    }

    method PauseSchedule(id: Id, paused: bool)
      modifies this`schedules
      ensures Tables() == Apply(old(Tables()), SetPaused(id, paused))
    {
      if id in schedules {
        schedules := schedules[id := schedules[id].(paused := paused)];
      }
    }

    method CreateExecution(exec: Execution)
      modifies this`execs
      ensures Tables() == Apply(old(Tables()), InsertExec(exec))
    {
      execs := execs + [exec];
    }

    method UpdateExecution(id: Id, status: ExecStatus)
      modifies this`execs
      ensures Tables() == Apply(old(Tables()), SetExec(id, status))
    {
      execs := SetExecStatus(execs, id, status);
    }

    // -------------------------------------------- reads

    /** Walks the last ten executions of the schedule, newest first. */
    method CountConsecutiveFailures(id: Id) returns (count: nat)
      ensures count == ConsecutiveFailures(execs, id)
    {
      count := 0;
      var n := |execs|;
      assert execs[..n] == execs;
      while n > 0 && count < HISTORY_LIMIT
        invariant 0 <= n <= |execs|
        invariant count <= HISTORY_LIMIT
        invariant Streak(execs, id) == count + Streak(execs[..n], id)
      {
        var row := execs[n - 1];
        assert execs[..n][..n - 1] == execs[..n - 1];
        if row.schedule == id {
          if !row.status.Errored? {
            return;
          }
          count := count + 1;
        }
        n := n - 1;
      }
      assert n == 0 ==> execs[..n] == [];
    }

    // -------------------------------------------- advancing

    method AdvanceSchedule(id: Id, failed: bool)
      modifies this`schedules
      ensures Tables() == ApplyAll(old(Tables()), AdvanceWrites(old(Tables()), id, failed))
    {
      if id !in schedules {
        return;
      }
      AdvanceEffect(Tables(), id, failed);
      var schedule := schedules[id];
      if schedule.kind.Once? {
        UpdateScheduleStatus(id, if failed then Failed else Completed);
        return;
      }
      if failed {
        var failures := CountConsecutiveFailures(id);
        if FAIL_LIMIT <= failures {
          PauseSchedule(id, true);
          UpdateScheduleStatus(id, Scheduled);
          return;
        }
      }
      var next := NextIncludedOccurrence(schedule.scheduledAt, SeriesOf(schedule));
      match next {
        case Fail => UpdateScheduleStatus(id, Failed);
        case NoMore => UpdateScheduleStatus(id, Completed);
        case At(t) => UpdateScheduleNextRun(id, t, Scheduled);
      }
    }

    // -------------------------------------------- tick and completion

    method BeginScheduledExecution(id: Id, execId: Id)
      requires id in schedules
      modifies this
      ensures Tables() == ApplyAll(old(Tables()), BeginWrites(old(Tables()), id, execId))
      ensures callbacks == old(callbacks)[execId := id]
    {
      ghost var begin := BeginWrites(Tables(), id, execId);
      ApplyTwo(Tables(), begin[0], begin[1]);
      assert begin == [begin[0], begin[1]];
      var scheduledAt := schedules[id].scheduledAt;
      UpdateScheduleStatus(id, Running);
      CreateExecution(Execution(execId, id, InProgress, scheduledAt));
      callbacks := callbacks[execId := id];
    }

    /** One tick. `due` is the answer of the due query, `active` whether a test runs,
        `started` whether the test of the due schedule could be prepared and started. */
    method Tick(now: Instant, active: bool, due: Option<Id>, execId: Id, started: bool)
      requires due.Some? ==> Enabled(View(), TickStep(now, due.value, execId, started))
      modifies this
      ensures View() == if active || due.None? then old(View())
                        else Do(old(View()), TickStep(now, due.value, execId, started))
    {
      if active {
        return;
      }
      if due.None? {
        return;
      }
      var id := due.value;
      ghost var before := Tables();
      ghost var begin := BeginWrites(before, id, execId);
      BeginScheduledExecution(id, execId);
      if !started {
        callbacks := callbacks - {execId};
        assert callbacks == old(callbacks);
        UpdateExecution(execId, Errored);
        ApplyLast(before, begin, SetExec(execId, Errored));
        ghost var failed := Tables();
        AdvanceSchedule(id, true);
        ApplyConcat(before, FailedStart(before, id, execId), AdvanceWrites(failed, id, true));
        return;
      }
      UpdateExecution(execId, InProgress);
      ApplyLast(before, begin, SetExec(execId, InProgress));
    }

    /** A test has finished: takes one pending callback, whichever the map yields. */
    method OnTestComplete(taken: Option<Id>, ok: bool)
      requires taken.None? <==> callbacks == map[]
      requires taken.Some? ==> taken.value in callbacks
      modifies this
      ensures View() == if taken.None? then old(View()) else Do(old(View()), CompleteStep(taken.value, ok))
    {
      if taken.None? {
        return;
      }
      var execId := taken.value;
      var id := callbacks[execId];
      callbacks := callbacks - {execId};
      ghost var before := Tables();
      UpdateExecution(execId, if ok then Succeeded else Errored);
      ghost var done := Tables();
      AdvanceSchedule(id, !ok);
      ApplyOne(before, Finish(execId, ok));
      ApplyConcat(before, [Finish(execId, ok)], AdvanceWrites(done, id, !ok));
    }

    // -------------------------------------------- deletion by the user

    method DeleteSchedule(id: Id, scope: Scope, requested: Instant, now: Instant) returns (outcome: Outcome)
      requires id in schedules
      modifies this
      ensures outcome == Delete(old(schedules)[id], scope, requested, now, CountExecs(old(execs), id))
      ensures View() == Do(old(View()), DeleteStep(id, scope, requested, now))
    {
      EditEffect(View(), DeleteStep(id, scope, requested, now));
      var existing := schedules[id];
      outcome := Delete(existing, scope, requested, now, CountExecs(execs, id));
      match outcome {
        case Removed =>
          execs := DropExecs(execs, id);
          schedules := schedules - {id};
        case Updated(row) => schedules := schedules[id := row];
        case _ =>
      }
    }

    // -------------------------------------------- startup recovery

    method NormalizeOverdueSchedule(id: Id, recoveryAt: Instant)
      requires id in schedules && Overdue(schedules[id], recoveryAt)
      modifies this`schedules
      ensures schedules == old(schedules)[id := NormalizeRow(old(schedules)[id], recoveryAt)]
    {
      var schedule := schedules[id];
      if schedule.kind.Once? {
        UpdateScheduleStatus(id, Failed);
        return;
      }
      var next := NextFutureOccurrence(SeriesOf(schedule), recoveryAt);
      match next {
        case Stuck => UpdateScheduleStatus(id, Failed);
        case Exhausted => UpdateScheduleStatus(id, Completed);
        case FutureAt(t) => UpdateScheduleNextRun(id, t, Scheduled);
      }
    }

    /** Every row that is overdue, in any order. */
    method NormalizeOverdueSchedules(recoveryAt: Instant)
      modifies this`schedules
      ensures schedules == PartlyNormalized(old(schedules), {}, recoveryAt)
    {
      ghost var before := schedules;
      var waiting := schedules.Keys;
      while waiting != {}
        invariant waiting <= before.Keys && schedules == PartlyNormalized(before, waiting, recoveryAt)
        decreases |waiting|
      {
        var id :| id in waiting;
        NormalizeNext(before, waiting, id, recoveryAt);
        if Overdue(schedules[id], recoveryAt) {
          NormalizeOverdueSchedule(id, recoveryAt);
        }
        waiting := waiting - {id};
      }
    }

    /** Startup after a crash; the callback map of the new process is empty. */
    method Recover(recoveryAt: Instant)
      requires callbacks == map[]
      modifies this
      ensures View() == SchedulerModel.Recover(old(Tables()), recoveryAt)
    {
      execs := FailStale(execs);
      schedules := map id | id in schedules :: ResetStale(schedules[id]);
      NormalizeOverdueSchedules(recoveryAt);
    }
  }
}
