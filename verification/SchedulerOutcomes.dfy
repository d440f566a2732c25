// What single steps do to rows and executions, told in the tables' own values.
module SchedulerOutcomes {
  import opened Instants
  import opened Recurrence
  import opened OccurrenceWalks
  import opened Schedules
  import opened ScheduleDelete
  import opened Recovery
  import opened SchedulerModel
  import opened SchedulerEffects
  import opened SchedulerSafety
  import opened CrashRecovery

  // ------------------------------------------------ failures in a row

  /** The last `n` executions of the schedule have all failed. */
  ghost predicate FailedInARow(execs: seq<Execution>, id: Id, n: nat) {
    exists cut: nat :: FailedSince(execs, id, n, cut)
  }

  predicate FailedSince(execs: seq<Execution>, id: Id, n: nat, cut: nat) {
    && cut <= |execs|
    && CountExecs(execs[cut..], id) == n
    && forall i :: cut <= i < |execs| && execs[i].schedule == id ==> execs[i].status == Errored
  }

  lemma CountLast(execs: seq<Execution>, id: Id, cut: nat)
    requires cut < |execs|
    ensures var n := |execs| - 1;
            CountExecs(execs[cut..], id)
            == CountExecs(execs[..n][cut..], id) + (if execs[n].schedule == id then 1 else 0)
  {
    var n := |execs| - 1;
    var tail := execs[cut..];
    assert tail[..|tail| - 1] == execs[..n][cut..] && tail[|tail| - 1] == execs[n];
  }

  lemma FailedSinceLast(execs: seq<Execution>, id: Id, n: nat, cut: nat)
    requires cut < |execs|
    ensures var m := |execs| - 1;
            FailedSince(execs, id, n, cut)
            <==> if execs[m].schedule == id
                 then execs[m].status == Errored && n > 0 && FailedSince(execs[..m], id, n - 1, cut)
                 else FailedSince(execs[..m], id, n, cut)
  {
    CountLast(execs, id, cut);
    var m := |execs| - 1;
    assert forall i :: 0 <= i < m ==> execs[..m][i] == execs[i];
  }

  lemma EmptyTail(execs: seq<Execution>, id: Id)
    ensures CountExecs(execs[|execs|..], id) == 0
  {
  }

  /** The count the controller keeps is the length of the run of failures. */
  lemma {:induction false} StreakIff(execs: seq<Execution>, id: Id, n: nat)
    ensures Streak(execs, id) >= n <==> FailedInARow(execs, id, n)
  {
    if n == 0 {
      assert execs[|execs|..] == [];
      assert FailedSince(execs, id, 0, |execs|);
    } else if execs == [] {
      assert forall cut: nat :: cut <= 0 ==> execs[cut..] == [];
    } else {
      var m := |execs| - 1;
      var k := if execs[m].schedule == id then n - 1 else n;
      StreakIff(execs[..m], id, k);
      if execs[m].schedule != id || execs[m].status == Errored {
        if cut: nat :| FailedSince(execs[..m], id, k, cut) {
          FailedSinceLast(execs, id, n, cut);
        }
      }
      if cut: nat :| FailedSince(execs, id, n, cut) {
        EmptyTail(execs, id);
        FailedSinceLast(execs, id, n, cut);
      }
    }
  }

  // ------------------------------------------------ after an execution

  /** What an execution that is over does to its row. A one-time row is completed or failed. A repeating one is paused
      after three failures in a row, and otherwise goes to its next run, is completed without one, or fails when the
      search gives up. */
  ghost predicate MovedOn(row: Schedule, execs: seq<Execution>, id: Id, ok: bool, after: Schedule) {
    var next := NextIncluded(row.scheduledAt, SeriesOf(row));
    if row.kind == Once then after == row.(status := if ok then Completed else Failed)
    else if !ok && FailedInARow(execs, id, 3) then after == row.(paused := true, status := Scheduled)
    else if next.Fail? then after == row.(status := Failed)
    else if next.NoMore? then after == row.(status := Completed)
    else after == row.(scheduledAt := next.t, status := Scheduled)
  }

  lemma AdvancedMovesOn(st: Store, id: Id, failed: bool)
    requires id in st.schedules
    ensures MovedOn(st.schedules[id], st.execs, id, !failed, AdvancedRow(st, id, failed))
  {
    StreakIff(st.execs, id, 3);
  }

  /** A completed test: its execution and its row are written, its callback is gone, nothing else changes. */
  lemma CompletionOutcome(sys: Sys, execId: Id, ok: bool)
    requires Inv(sys) && execId in sys.callbacks
    ensures var after, id := Do(sys, CompleteStep(execId, ok)), sys.callbacks[execId];
            && |after.store.execs| == |sys.store.execs|
            && (forall i :: 0 <= i < |sys.store.execs| ==>
                  after.store.execs[i] == if sys.store.execs[i].id == execId
                                          then sys.store.execs[i].(status := if ok then Succeeded else Errored)
                                          else sys.store.execs[i])
            && after.store.schedules.Keys == sys.store.schedules.Keys
            && MovedOn(sys.store.schedules[id], after.store.execs, id, ok, after.store.schedules[id])
            && (forall other :: other in sys.store.schedules && other != id ==>
                  after.store.schedules[other] == sys.store.schedules[other])
            && after.callbacks == sys.callbacks - {execId}
  {
    CompleteEffect(sys, execId, ok);
    AdvancedMovesOn(Apply(sys.store, Finish(execId, ok)), sys.callbacks[execId], !ok);
  }

  // ------------------------------------------------ ticks

  /** A tick takes an earliest row that is scheduled, not paused, and due within fifteen seconds; there is one to take
      exactly when there is such a row. */
  lemma TickTakesEarliest(sys: Sys, now: Instant, id: Id, execId: Id, started: bool)
    requires NewExecId(sys.store, execId) && execId !in sys.callbacks
    ensures Enabled(sys, TickStep(now, id, execId, started))
       <==> && id in sys.store.schedules && Waits(sys.store.schedules[id], now)
            && forall other :: other in sys.store.schedules && Waits(sys.store.schedules[other], now) ==>
                 sys.store.schedules[id].scheduledAt <= sys.store.schedules[other].scheduledAt
  {
  }

  predicate Waits(row: Schedule, now: Instant) {
    row.status == Scheduled && !row.paused && row.scheduledAt <= now + 15_000_000_000
  }

  /** A tick that starts the test: the row runs, a new execution for its time is in progress, and its callback is
      registered. */
  lemma TickOutcome(sys: Sys, now: Instant, id: Id, execId: Id)
    requires Enabled(sys, TickStep(now, id, execId, true))
    ensures var row := sys.store.schedules[id];
            Do(sys, TickStep(now, id, execId, true))
            == Sys(Store(sys.store.schedules[id := row.(status := Running)],
                         sys.store.execs + [Execution(execId, id, InProgress, row.scheduledAt)]),
                   sys.callbacks[execId := id])
  {
    TickStartedEffect(sys, now, id, execId);
  }

  /** A tick that cannot start it counts as a failed execution. */
  lemma FailedTickOutcome(sys: Sys, now: Instant, id: Id, execId: Id)
    requires Enabled(sys, TickStep(now, id, execId, false))
    ensures var row, after := sys.store.schedules[id], Do(sys, TickStep(now, id, execId, false));
            && after.store.execs == sys.store.execs + [Execution(execId, id, Errored, row.scheduledAt)]
            && after.store.schedules.Keys == sys.store.schedules.Keys
            && MovedOn(row.(status := Running), after.store.execs, id, false, after.store.schedules[id])
            && (forall other :: other in sys.store.schedules && other != id ==>
                  after.store.schedules[other] == sys.store.schedules[other])
            && after.callbacks == sys.callbacks
  {
    TickFailedEffect(sys, now, id, execId);
    AdvancedMovesOn(FailedStartStore(sys.store, id, execId), id, true);
  }

  // ------------------------------------------------ the order of the writes

  /** No execution is in progress without its row running: a crash can leave a running row behind, but never a test
      that the table does not show. */
  ghost predicate RunsShown(st: Store) {
    forall x :: x in st.execs && x.status == InProgress ==>
      x.schedule in st.schedules && st.schedules[x.schedule].status == Running
  }

  lemma LinkedShown(sys: Sys)
    requires Inv(sys)
    ensures RunsShown(sys.store)
  {
    forall x | x in sys.store.execs && x.status == InProgress
      ensures x.schedule in sys.store.schedules && sys.store.schedules[x.schedule].status == Running
    {
      assert sys.callbacks[x.id] == x.schedule;
      assert Pending(sys.callbacks, x.schedule);
    }
  }

  /** Nothing of the schedule is in progress. */
  ghost predicate NothingRuns(st: Store, id: Id) {
    forall x :: x in st.execs && x.schedule == id ==> x.status != InProgress
  }

  predicate WritesRow(w: Write, id: Id) {
    (w.SetStatus? || w.SetNextRun? || w.SetPaused?) && w.id == id
  }

  lemma {:induction false} RowWritesOnly(st: Store, id: Id, writes: seq<Write>)
    requires forall i :: 0 <= i < |writes| ==> WritesRow(writes[i], id)
    ensures var after := ApplyAll(st, writes);
            && after.execs == st.execs && after.schedules.Keys == st.schedules.Keys
            && forall other :: other in st.schedules && other != id ==> after.schedules[other] == st.schedules[other]
  {
    if writes != [] {
      RowWritesOnly(st, id, writes[..|writes| - 1]);
      assert WritesRow(writes[|writes| - 1], id);
    }
  }

  lemma RowWritesShown(st: Store, id: Id, writes: seq<Write>)
    requires RunsShown(st) && NothingRuns(st, id)
    requires forall i :: 0 <= i < |writes| ==> WritesRow(writes[i], id)
    ensures RunsShown(ApplyAll(st, writes))
  {
    RowWritesOnly(st, id, writes);
  }

  lemma AdvanceShown(st: Store, id: Id, failed: bool, k: nat)
    requires RunsShown(st) && NothingRuns(st, id) && k <= |AdvanceWrites(st, id, failed)|
    ensures RunsShown(ApplyAll(st, AdvanceWrites(st, id, failed)[..k]))
  {
    RowWritesShown(st, id, AdvanceWrites(st, id, failed)[..k]);
  }

  lemma MarkedShown(st: Store, id: Id)
    requires RunsShown(st) && id in st.schedules
    ensures RunsShown(Apply(st, SetStatus(id, Running)))
  {
  }

  lemma InsertedShown(st: Store, exec: Execution)
    requires RunsShown(st) && exec.schedule in st.schedules && st.schedules[exec.schedule].status == Running
    ensures RunsShown(Apply(st, InsertExec(exec)))
  {
    assert forall x :: x in st.execs + [exec] <==> x in st.execs || x == exec;
  }

  /** The first writes of a tick. */
  lemma BeginShown(st: Store, id: Id, execId: Id, k: nat)
    requires RunsShown(st) && id in st.schedules && k <= 2
    ensures RunsShown(ApplyAll(st, BeginWrites(st, id, execId)[..k]))
  {
    var begin := BeginWrites(st, id, execId);
    MarkedShown(st, id);
    if k == 0 {
      assert begin[..k] == [];
    } else if k == 1 {
      assert begin[..k] == [begin[0]];
      ApplyOne(st, begin[0]);
    } else {
      assert begin[..k] == [begin[0], begin[1]];
      ApplyTwo(st, begin[0], begin[1]);
      InsertedShown(Apply(st, begin[0]), begin[1].exec);
    }
  }

  lemma FailedStartShown(st: Store, id: Id, execId: Id)
    requires RunsShown(st) && id in st.schedules && st.schedules[id].status != Running && NewExecId(st, execId)
    ensures RunsShown(FailedStartStore(st, id, execId)) && NothingRuns(FailedStartStore(st, id, execId), id)
  {
    var exec := StartedExec(st, id, execId, Errored);
    assert forall x :: x in st.execs + [exec] <==> x in st.execs || x == exec;
  }

  lemma TickShown(sys: Sys, step: Step, k: nat)
    requires step.TickStep? && Inv(sys) && Enabled(sys, step) && k <= |Writes(sys, step)|
    ensures RunsShown(CrashStore(sys, step, k))
  {
    var st := sys.store;
    LinkedShown(sys);
    if k <= 2 {
      BeginShown(st, step.id, step.execId, k);
      assert Writes(sys, step)[..k] == BeginWrites(st, step.id, step.execId)[..k];
    } else if k == |Writes(sys, step)| {
      assert Writes(sys, step)[..k] == Writes(sys, step);
      StepKeepsInv(sys, step);
      LinkedShown(Do(sys, step));
    } else {
      var start := FailedStart(st, step.id, step.execId);
      FailedStartEffect(st, step.id, step.execId);
      FailedStartShown(st, step.id, step.execId);
      var rest := AdvanceWrites(ApplyAll(st, start), step.id, true);
      PrefixOfConcat(start, rest, k);
      assert start + rest[..0] == start;
      ApplyConcat(st, start, rest[..k - 3]);
      AdvanceShown(ApplyAll(st, start), step.id, true, k - 3);
    }
  }

  lemma FinishedShown(sys: Sys, execId: Id, ok: bool)
    requires Inv(sys) && execId in sys.callbacks
    ensures var done := Apply(sys.store, Finish(execId, ok));
            RunsShown(done) && NothingRuns(done, sys.callbacks[execId])
  {
    var done := Apply(sys.store, Finish(execId, ok));
    LinkedShown(sys);
    forall x | x in done.execs && x.status == InProgress
      ensures x.schedule != sys.callbacks[execId]
      ensures x.schedule in done.schedules && done.schedules[x.schedule].status == Running
    {
      FinishedExec(sys, execId, Finish(execId, ok).execStatus, x);
      var i :| 0 <= i < |done.execs| && done.execs[i] == x;
      assert sys.store.execs[i] in sys.store.execs;
    }
  }

  lemma CompleteShown(sys: Sys, step: Step, k: nat)
    requires step.CompleteStep? && Inv(sys) && Enabled(sys, step) && k <= |Writes(sys, step)|
    ensures RunsShown(CrashStore(sys, step, k))
  {
    if k == 0 {
      assert Writes(sys, step)[..k] == [];
      LinkedShown(sys);
    } else {
      var finish := Finish(step.execId, step.ok);
      var done := Apply(sys.store, finish);
      var rest := AdvanceWrites(done, sys.callbacks[step.execId], !step.ok);
      FinishedShown(sys, step.execId, step.ok);
      PrefixOfConcat([finish], rest, k);
      assert Writes(sys, step)[..k] == [finish] + rest[..k - 1];
      ApplyConcat(sys.store, [finish], rest[..k - 1]);
      ApplyOne(sys.store, finish);
      AdvanceShown(done, sys.callbacks[step.execId], !step.ok, k - 1);
    }
  }

  /** Wherever a step is cut off, every execution in progress belongs to a running row: rows are marked before their
      executions are inserted, and moved on only after these are written off. */
  lemma CrashShowsRuns(sys: Sys, step: Step, k: nat)
    requires Inv(sys) && Enabled(sys, step) && k <= |Writes(sys, step)|
    ensures RunsShown(CrashStore(sys, step, k))
  {
    match step {
      case TickStep(_, _, _, _) => TickShown(sys, step, k);
      case CompleteStep(_, _) => CompleteShown(sys, step, k);
      case _ =>
        LinkedShown(sys);
        if k == 0 {
          assert Writes(sys, step)[..k] == [];
        } else {
          EditEffect(sys, step);
          assert Writes(sys, step)[..k] == Writes(sys, step);
          StepKeepsInv(sys, step);
          LinkedShown(Do(sys, step));
        }
    }
  }

  /** The same for a restart: executions are written off before any row is reset. */
  lemma RestartShowsRuns(st: Store, recoveryAt: Instant, order: seq<Id>, k: nat)
    requires RunsShown(st) && ListsOnce(order)
    ensures RunsShown(CutRecovery(st, recoveryAt, order, k))
  {
    var j := CutRecoveryShape(st, recoveryAt, order, k);
    var execs := FailStale(st.execs);
    forall x | x in execs ensures x.status != InProgress {
      var i :| 0 <= i < |execs| && execs[i] == x;
    }
  }

  /** A row that has failed three times in a row is paused before it is put back to scheduled: it is not up for
      execution between these two writes. */
  lemma PausedBeforeScheduled(st: Store, id: Id, k: nat)
    requires id in st.schedules && st.schedules[id].kind != Once && st.schedules[id].status == Running
    requires FailedInARow(st.execs, id, 3) && k <= |AdvanceWrites(st, id, true)|
    ensures var rows := ApplyAll(st, AdvanceWrites(st, id, true)[..k]).schedules;
            id in rows && (rows[id].status == Scheduled ==> rows[id].paused)
  {
    StreakIff(st.execs, id, 3);
    var writes := AdvanceWrites(st, id, true);
    if k == 0 {
      assert writes[..k] == [];
    } else if k == 1 {
      assert writes[..k] == [writes[0]];
      ApplyOne(st, writes[0]);
    } else {
      assert writes[..k] == [writes[0], writes[1]];
      ApplyTwo(st, writes[0], writes[1]);
    }
  }

  // ------------------------------------------------ edits

  /** The nearest whole second, halves up. */
  predicate Nearest(t: Instant, second: Instant) {
    second % 1_000_000_000 == 0 && second - 500_000_000 <= t < second + 500_000_000
  }

  /** A created or updated row is that of the request, its times rounded to whole seconds; nothing else changes. */
  lemma PutOutcome(sys: Sys, step: Step)
    requires (step.CreateStep? || step.UpdateStep?) && Enabled(sys, step)
    ensures var after := Do(sys, step);
            && after == sys.(store := sys.store.(schedules := after.store.schedules))
            && step.id in after.store.schedules
            && var row := after.store.schedules[step.id];
            && after.store.schedules == sys.store.schedules[step.id := row]
            && row == step.row.(scheduledAt := row.scheduledAt, end := row.end)
            && Nearest(step.row.scheduledAt, row.scheduledAt)
            && (row.end == None <==> step.row.end == None)
            && (row.end.Some? ==> Nearest(step.row.end.value, row.end.value))
  {
    EditEffect(sys, step);
    assert Writes(sys, step)[0] == PutSchedule(step.id, Schedules.Stored(step.row));
    RoundedNearest(step.row.scheduledAt);
    if step.row.end.Some? {
      RoundedNearest(step.row.end.value);
    }
  }

  lemma RoundedNearest(t: Instant)
    ensures Nearest(t, ToSecond(t))
  {
  }

  /** Pausing and resuming touch nothing but the flag. */
  lemma PauseOutcome(sys: Sys, id: Id, paused: bool)
    requires id in sys.store.schedules
    ensures var row := sys.store.schedules[id].(paused := paused);
            Do(sys, PauseStep(id, paused)) == sys.(store := sys.store.(schedules := sys.store.schedules[id := row]))
  {
    EditEffect(sys, PauseStep(id, paused));
  }

  /** What the deletion answers is done: the row goes with all of its executions, or is replaced, or nothing happens. */
  lemma DeleteOutcome(sys: Sys, id: Id, scope: Scope, requested: Instant, now: Instant)
    requires id in sys.store.schedules
    ensures var before, after := sys.store, Do(sys, DeleteStep(id, scope, requested, now));
            var answer := Delete(before.schedules[id], scope, requested, now, CountExecs(before.execs, id));
            && after.callbacks == sys.callbacks
            && (answer == Removed ==>
                  && after.store.schedules == before.schedules - {id}
                  && forall x :: x in after.store.execs <==> x in before.execs && x.schedule != id)
            && (answer.Updated? ==> after.store == before.(schedules := before.schedules[id := answer.schedule]))
            && (answer != Removed && !answer.Updated? ==> after.store == before)
  {
    EditEffect(sys, DeleteStep(id, scope, requested, now));
    forall x ensures x in DropExecs(sys.store.execs, id) <==> x in sys.store.execs && x.schedule != id {
      DropExecsMembers(sys.store.execs, id, x);
    }
  }
}
