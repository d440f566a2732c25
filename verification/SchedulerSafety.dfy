// What every run of the scheduler keeps, and what recovery restores after a
// crash between any two store writes.
module SchedulerSafety {
  import opened Instants
  import opened Recurrence
  import opened Schedules
  import opened Overlap
  import opened ScheduleDelete
  import opened Recovery
  import opened SchedulerModel
  import opened SchedulerEffects

  ghost predicate DistinctIds(execs: seq<Execution>) {
    forall i, j :: 0 <= i < j < |execs| ==> execs[i].id != execs[j].id
  }

  ghost predicate AllWhole(st: Store) {
    forall id :: id in st.schedules ==> WholeRow(st.schedules[id])
  }

  /** Table constraints: unique execution ids, no orphan executions, whole seconds. */
  ghost predicate Consistent(st: Store) {
    && DistinctIds(st.execs)
    && (forall x :: x in st.execs ==> x.schedule in st.schedules)
    && AllWhole(st)
  }

  predicate HasExec(execs: seq<Execution>, id: Id) {
    exists x | x in execs :: x.id == id
  }

  predicate Pending(callbacks: map<Id, Id>, id: Id) {
    exists e | e in callbacks :: callbacks[e] == id
  }

  /** Callbacks, running executions and running schedules match one to one. */
  ghost predicate Linked(sys: Sys) {
    && (forall x :: x in sys.store.execs ==> (x.status.InProgress? <==> x.id in sys.callbacks))
    && (forall x :: x in sys.store.execs && x.id in sys.callbacks ==> sys.callbacks[x.id] == x.schedule)
    && (forall e :: e in sys.callbacks ==> HasExec(sys.store.execs, e))
    && (forall e :: e in sys.callbacks ==> sys.callbacks[e] in sys.store.schedules)
    && (forall id :: id in sys.store.schedules ==>
          (sys.store.schedules[id].status.Running? <==> Pending(sys.callbacks, id)))
    && (forall e, f :: e in sys.callbacks && f in sys.callbacks && sys.callbacks[e] == sys.callbacks[f] ==> e == f)
  }

  ghost predicate Inv(sys: Sys) {
    Consistent(sys.store) && Linked(sys)
  }

  const EMPTY: Sys := Sys(Store(map[], []), map[])

  lemma EmptyInv()
    ensures Inv(EMPTY)
  {
  }

  // ------------------------------------------------ one step keeps the link

  /** A new execution, its callback and its running row arrive together. */
  lemma StartedKeeps(sys: Sys, id: Id, execId: Id)
    requires Inv(sys) && id in sys.store.schedules && !sys.store.schedules[id].status.Running?
    requires NewExecId(sys.store, execId) && execId !in sys.callbacks
    ensures var execs := sys.store.execs + [StartedExec(sys.store, id, execId, InProgress)];
            Inv(Sys(Store(MarkedRunning(sys.store, id), execs), sys.callbacks[execId := id]))
  {
    var execs := sys.store.execs;
    var started := StartedExec(sys.store, id, execId, InProgress);
    var after := Sys(Store(MarkedRunning(sys.store, id), execs + [started]), sys.callbacks[execId := id]);
    assert forall x :: x in execs + [started] <==> x in execs || x == started;
    assert forall i :: 0 <= i < |execs| ==> execs[i] in execs;
    forall e | e in after.callbacks ensures HasExec(after.store.execs, e) {
      if e in sys.callbacks {
        var x :| x in execs && x.id == e;
        assert x in after.store.execs;
      } else {
        assert started in after.store.execs;
      }
    }
    forall other | other in after.store.schedules
      ensures after.store.schedules[other].status.Running? <==> Pending(after.callbacks, other)
    {
      StartedPending(sys.callbacks, execId, id, other);
    }
    forall e | e in sys.callbacks ensures sys.callbacks[e] != id {
      assert Pending(sys.callbacks, sys.callbacks[e]);
    }
  }

  lemma StartedPending(callbacks: map<Id, Id>, execId: Id, id: Id, other: Id)
    requires execId !in callbacks
    ensures Pending(callbacks[execId := id], other) <==> other == id || Pending(callbacks, other)
  {
    var after := callbacks[execId := id];
    assert after[execId] == id;
    if Pending(callbacks, other) {
      var e :| e in callbacks && callbacks[e] == other;
      assert e in after && after[e] == other;
    }
  }

  lemma TickStartedKeeps(sys: Sys, now: Instant, id: Id, execId: Id)
    requires Inv(sys) && Enabled(sys, TickStep(now, id, execId, true))
    ensures Inv(Do(sys, TickStep(now, id, execId, true)))
  {
    TickStartedEffect(sys, now, id, execId);
    StartedKeeps(sys, id, execId);
  }

  lemma AdvancedRowStops(st: Store, id: Id, failed: bool)
    requires id in st.schedules
    ensures !AdvancedRow(st, id, failed).status.Running?
  {
  }

  lemma AdvancedAllWhole(st: Store, id: Id, failed: bool)
    requires AllWhole(st) && id in st.schedules
    ensures AllWhole(Store(st.schedules[id := AdvancedRow(st, id, failed)], []))
  {
    AdvancedWhole(st, id, failed);
  }

  lemma TickFailedKeeps(sys: Sys, now: Instant, id: Id, execId: Id)
    requires Inv(sys) && Enabled(sys, TickStep(now, id, execId, false))
    ensures Inv(Do(sys, TickStep(now, id, execId, false)))
  {
    TickFailedEffect(sys, now, id, execId);
    var after := Do(sys, TickStep(now, id, execId, false));
    var execs := sys.store.execs;
    AdvancedRowStops(FailedStartStore(sys.store, id, execId), id, true);
    AdvancedWhole(FailedStartStore(sys.store, id, execId), id, true);
    assert after.store.execs == execs + [StartedExec(sys.store, id, execId, Errored)];
    assert forall i :: 0 <= i < |execs| ==> execs[i] in execs;
    forall e | e in after.callbacks ensures HasExec(after.store.execs, e) {
      var x :| x in execs && x.id == e;
      assert x in after.store.execs;
    }
  }

  /** One execution in the table after one has finished. */
  lemma FinishedExec(sys: Sys, execId: Id, status: ExecStatus, y: Execution)
    requires Inv(sys) && execId in sys.callbacks && !status.InProgress?
    requires y in SetExecStatus(sys.store.execs, execId, status)
    ensures y.schedule in sys.store.schedules
    ensures y.status.InProgress? <==> y.id in sys.callbacks - {execId}
    ensures y.id in sys.callbacks ==> sys.callbacks[y.id] == y.schedule
  {
    var before := sys.store.execs;
    var execs := SetExecStatus(before, execId, status);
    var i :| 0 <= i < |execs| && execs[i] == y;
    assert before[i] in before;
  }

  lemma FinishedHas(execs: seq<Execution>, execId: Id, status: ExecStatus, e: Id)
    requires HasExec(execs, e)
    ensures HasExec(SetExecStatus(execs, execId, status), e)
  {
    var x :| x in execs && x.id == e;
    var i :| 0 <= i < |execs| && execs[i] == x;
    assert SetExecStatus(execs, execId, status)[i] in SetExecStatus(execs, execId, status);
  }

  /** The execution table after one execution has finished. */
  lemma FinishedExecs(sys: Sys, execId: Id, status: ExecStatus)
    requires Inv(sys) && execId in sys.callbacks && !status.InProgress?
    ensures var execs := SetExecStatus(sys.store.execs, execId, status);
            var left := sys.callbacks - {execId};
            && DistinctIds(execs)
            && (forall y :: y in execs ==> y.schedule in sys.store.schedules)
            && (forall y :: y in execs ==> (y.status.InProgress? <==> y.id in left))
            && (forall y :: y in execs && y.id in left ==> left[y.id] == y.schedule)
            && (forall e :: e in left ==> HasExec(execs, e))
  {
    var execs := SetExecStatus(sys.store.execs, execId, status);
    forall y | y in execs
      ensures y.schedule in sys.store.schedules
      ensures y.status.InProgress? <==> y.id in sys.callbacks - {execId}
      ensures y.id in sys.callbacks ==> sys.callbacks[y.id] == y.schedule
    {
      FinishedExec(sys, execId, status, y);
    }
    forall e | e in sys.callbacks - {execId} ensures HasExec(execs, e) {
      FinishedHas(sys.store.execs, execId, status, e);
    }
  }

  /** Once its callback is taken, nothing is pending for the schedule; the others are as before. */
  lemma CallbackTaken(sys: Sys, execId: Id, other: Id)
    requires Linked(sys) && execId in sys.callbacks
    ensures Pending(sys.callbacks - {execId}, other)
       <==> Pending(sys.callbacks, other) && other != sys.callbacks[execId]
  {
    var left := sys.callbacks - {execId};
    if Pending(sys.callbacks, other) && other != sys.callbacks[execId] {
      var e :| e in sys.callbacks && sys.callbacks[e] == other;
      assert e in left && left[e] == other;
    }
  }

  /** Finishing an execution keeps the link, whatever becomes of the rows, as long as the running ones are those
      still pending. */
  lemma FinishedKeeps(sys: Sys, execId: Id, status: ExecStatus, rows: map<Id, Schedule>)
    requires Inv(sys) && execId in sys.callbacks && !status.InProgress?
    requires rows.Keys == sys.store.schedules.Keys && AllWhole(Store(rows, []))
    requires forall other :: other in rows ==>
               (rows[other].status.Running? <==> Pending(sys.callbacks - {execId}, other))
    ensures Inv(Sys(Store(rows, SetExecStatus(sys.store.execs, execId, status)), sys.callbacks - {execId}))
  {
    FinishedExecs(sys, execId, status);
  }

  lemma CompleteKeeps(sys: Sys, execId: Id, ok: bool)
    requires Inv(sys) && Enabled(sys, CompleteStep(execId, ok))
    ensures Inv(Do(sys, CompleteStep(execId, ok)))
  {
    CompleteEffect(sys, execId, ok);
    var status := if ok then Succeeded else Errored;
    var id := sys.callbacks[execId];
    var row := AdvancedRow(Apply(sys.store, Finish(execId, ok)), id, !ok);
    AdvancedRowStops(Apply(sys.store, Finish(execId, ok)), id, !ok);
    AdvancedAllWhole(Apply(sys.store, Finish(execId, ok)), id, !ok);
    var rows := sys.store.schedules[id := row];
    forall other | other in rows
      ensures rows[other].status.Running? <==> Pending(sys.callbacks - {execId}, other)
    {
      CallbackTaken(sys, execId, other);
    }
    FinishedKeeps(sys, execId, status, rows);
  }

  /** A write that neither starts nor stops an execution. */
  ghost predicate KeepsRunning(sys: Sys, w: Write) {
    match w
    case PutSchedule(id, row) =>
      && WholeRow(row) && !row.status.Running?
      && (id in sys.store.schedules ==> !sys.store.schedules[id].status.Running?)
    case DropSchedule(id) => id in sys.store.schedules && !sys.store.schedules[id].status.Running?
    case SetPaused(_, _) => true
    case _ => false
  }

  lemma DropExecsDistinct(execs: seq<Execution>, id: Id)
    requires DistinctIds(execs)
    ensures DistinctIds(DropExecs(execs, id))
  {
    var kept := DropExecs(execs, id);
    forall i, j | 0 <= i < j < |kept| ensures kept[i].id != kept[j].id {
      var k, l := DropExecsEmbeds(execs, id, i, j);
    }
  }

  lemma EditKeeps(sys: Sys, w: Write)
    requires Inv(sys) && KeepsRunning(sys, w)
    ensures Inv(Sys(Apply(sys.store, w), sys.callbacks))
  {
    var after := Sys(Apply(sys.store, w), sys.callbacks);
    match w {
      case DropSchedule(id) =>
        assert !Pending(sys.callbacks, id);
        forall x ensures x in after.store.execs <==> x in sys.store.execs && x.schedule != id {
          DropExecsMembers(sys.store.execs, id, x);
        }
        DropExecsDistinct(sys.store.execs, id);
        forall e | e in after.callbacks ensures HasExec(after.store.execs, e) {
          var x :| x in sys.store.execs && x.id == e;
          assert x.schedule != id;
          assert x in after.store.execs;
        }
      case PutSchedule(id, row) =>
        if id !in sys.store.schedules {
          assert !Pending(sys.callbacks, id);
        }
      case _ =>
    }
  }

  lemma EditsAreQuiet(sys: Sys, step: Step)
    requires Enabled(sys, step) && !step.TickStep? && !step.CompleteStep?
    requires AllWhole(sys.store) && Writes(sys, step) != []
    ensures KeepsRunning(sys, Writes(sys, step)[0])
  {
    if step.DeleteStep? {
      var existing := sys.store.schedules[step.id];
      var out := Delete(existing, step.scope, step.requested, step.now, CountExecs(sys.store.execs, step.id));
      assert out.Removed? || out.Updated?;
      assert out.Updated? ==> !out.schedule.status.Running?;
      if out.Updated? {
        DeletedWhole(existing, step.scope, step.requested, step.now, CountExecs(sys.store.execs, step.id));
      }
    } else if !step.PauseStep? {
      StoredWhole(step.row);
    }
  }

  /** Every step keeps callbacks, running executions and running schedules matched. */
  lemma StepKeepsInv(sys: Sys, step: Step)
    requires Inv(sys) && Enabled(sys, step)
    ensures Inv(Do(sys, step))
  {
    match step {
      case TickStep(now, id, execId, started) =>
        if started { TickStartedKeeps(sys, now, id, execId); } else { TickFailedKeeps(sys, now, id, execId); }
      case CompleteStep(execId, ok) => CompleteKeeps(sys, execId, ok);
      case _ =>
        EditEffect(sys, step);
        if Writes(sys, step) != [] {
          EditsAreQuiet(sys, step);
          EditKeeps(sys, Writes(sys, step)[0]);
        }
    }
  }

  // ------------------------------------------------ what the link says in counts

  function PendingFor(callbacks: map<Id, Id>, id: Id): set<Id> {
    set e | e in callbacks && callbacks[e] == id
  }

  function RunningExecs(execs: seq<Execution>, id: Id): set<Id> {
    set x | x in execs && x.schedule == id && x.status.InProgress? :: x.id
  }

  /** A schedule is running exactly when exactly one callback is pending for it and
      exactly one of its executions is in progress; otherwise there is none of either. */
  lemma RunningCounts(sys: Sys, id: Id)
    requires Inv(sys) && id in sys.store.schedules
    ensures RunningExecs(sys.store.execs, id) == PendingFor(sys.callbacks, id)
    ensures |PendingFor(sys.callbacks, id)| == if sys.store.schedules[id].status.Running? then 1 else 0
  {
    var pending := PendingFor(sys.callbacks, id);
    var running := RunningExecs(sys.store.execs, id);
    forall e | e in pending ensures e in running {
      assert HasExec(sys.store.execs, e);
      var x :| x in sys.store.execs && x.id == e;
    }
    forall e | e in running ensures e in pending {
      var x :| x in sys.store.execs && x.id == e && x.schedule == id && x.status.InProgress?;
    }
    if sys.store.schedules[id].status.Running? {
      var e :| e in sys.callbacks && sys.callbacks[e] == id;
      assert pending == {e};
    } else {
      assert pending == {} by {
        if e :| e in pending {
          assert Pending(sys.callbacks, id);
        }
      }
    }
  }
}
