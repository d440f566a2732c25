// The scheduler as a step machine over the store and the callback map. A step is
// a list of store writes, so that a crash can fall between any two of them.
module SchedulerModel {
  import opened Instants
  import opened Recurrence
  import opened Schedules
  import opened Overlap
  import opened ScheduleDelete
  import opened Recovery

  const FAIL_LIMIT: nat := 3
  const HISTORY_LIMIT: nat := 10

  datatype ExecStatus = InProgress | Succeeded | Errored

  datatype Execution = Execution(id: Id, schedule: Id, status: ExecStatus, scheduledAt: Instant)

  /** The two tables; executions in creation order. */
  datatype Store = Store(schedules: map<Id, Schedule>, execs: seq<Execution>)

  datatype Write =
    | SetStatus(id: Id, status: Status)
    | SetNextRun(id: Id, at: Instant, status: Status)
    | SetPaused(id: Id, paused: bool)
    | PutSchedule(id: Id, row: Schedule)
    | DropSchedule(id: Id)
    | InsertExec(exec: Execution)
    | SetExec(id: Id, execStatus: ExecStatus)
    | FailStaleExecs
    | ResetStaleRows

  function SetExecStatus(execs: seq<Execution>, id: Id, status: ExecStatus): (r: seq<Execution>)
    ensures |r| == |execs|
    ensures forall i :: 0 <= i < |execs| ==> r[i] == if execs[i].id == id then execs[i].(status := status) else execs[i]
  {
    seq(|execs|, i requires 0 <= i < |execs| => if execs[i].id == id then execs[i].(status := status) else execs[i])
  }

  /** What cascades when a schedule row goes. */
  function DropExecs(execs: seq<Execution>, id: Id): seq<Execution> {
    if execs == [] then []
    else
      var last := execs[|execs| - 1];
      DropExecs(execs[..|execs| - 1], id) + (if last.schedule == id then [] else [last])
  }

  function Apply(st: Store, w: Write): Store {
    match w
    case SetStatus(id, status) =>
      if id in st.schedules then st.(schedules := st.schedules[id := st.schedules[id].(status := status)]) else st
    case SetNextRun(id, at, status) =>
      if id in st.schedules then
        st.(schedules := st.schedules[id := st.schedules[id].(scheduledAt := at, status := status)])
      else st
    case SetPaused(id, paused) =>
      if id in st.schedules then st.(schedules := st.schedules[id := st.schedules[id].(paused := paused)]) else st
    case PutSchedule(id, row) => st.(schedules := st.schedules[id := row])
    case DropSchedule(id) => Store(st.schedules - {id}, DropExecs(st.execs, id))
    case InsertExec(exec) => st.(execs := st.execs + [exec])
    case SetExec(id, status) => st.(execs := SetExecStatus(st.execs, id, status))
    case FailStaleExecs => st.(execs := FailStale(st.execs))
    case ResetStaleRows => st.(schedules := map id | id in st.schedules :: ResetStale(st.schedules[id]))
  }

  function ApplyAll(st: Store, writes: seq<Write>): Store {
    if writes == [] then st else Apply(ApplyAll(st, writes[..|writes| - 1]), writes[|writes| - 1])
  }

  // ------------------------------------------------ failure history

  /** Failed executions of the schedule since its last one that did not fail. */
  function Streak(execs: seq<Execution>, id: Id): nat {
    if execs == [] then 0
    else
      var last := execs[|execs| - 1];
      var earlier := Streak(execs[..|execs| - 1], id);
      if last.schedule != id then earlier else if last.status.Errored? then 1 + earlier else 0
  }

  /** The query looks at the last ten rows only. */
  function ConsecutiveFailures(execs: seq<Execution>, id: Id): nat {
    var streak := Streak(execs, id);
    if streak < HISTORY_LIMIT then streak else HISTORY_LIMIT
  }

  // ------------------------------------------------ steps

  /** What follows an execution: the next run, the end of the series, or a pause
      after three failures in a row. */
  function AdvanceWrites(st: Store, id: Id, failed: bool): seq<Write> {
    if id !in st.schedules then []
    else
      var row := st.schedules[id];
      if row.kind.Once? then [SetStatus(id, if failed then Failed else Completed)]
      else if failed && FAIL_LIMIT <= ConsecutiveFailures(st.execs, id) then
        [SetPaused(id, true), SetStatus(id, Scheduled)]
      else
        match NextIncluded(row.scheduledAt, SeriesOf(row))
        case Fail => [SetStatus(id, Failed)]
        case NoMore => [SetStatus(id, Completed)]
        case At(t) => [SetNextRun(id, t, Scheduled)]
  }

  datatype Sys = Sys(store: Store, callbacks: map<Id, Id>)

  /** A new schedule is checked against every stored one: its own fresh id excludes
      none. `started` is whether preparing and starting the test worked, `ok` whether it
      completed. `running` in a Create or Update is the active test, if any. The times of
      their rows are those of the request, which the store rounds to whole seconds; every
      other write carries whole seconds anyway. */
  datatype Step =
    | TickStep(now: Instant, id: Id, execId: Id, started: bool)
    | CompleteStep(execId: Id, ok: bool)
    | CreateStep(id: Id, row: Schedule, running: Option<RunningTest>)
    | UpdateStep(id: Id, row: Schedule, running: Option<RunningTest>)
    | DeleteStep(id: Id, scope: Scope, requested: Instant, now: Instant)
    | PauseStep(id: Id, paused: bool)

  predicate Due(row: Schedule, now: Instant) {
    row.status.Scheduled? && !row.paused && row.scheduledAt <= now + 15 * SECOND
  }

  /** The due query returns an earliest due row. */
  predicate PicksDue(st: Store, now: Instant, id: Id) {
    && id in st.schedules
    && Due(st.schedules[id], now)
    && forall other | other in st.schedules :: Due(st.schedules[other], now) ==>
         st.schedules[id].scheduledAt <= st.schedules[other].scheduledAt
  }

  predicate NewExecId(st: Store, id: Id) {
    forall x | x in st.execs :: x.id != id
  }

  /** When the code lets a step happen. */
  predicate Enabled(sys: Sys, step: Step) {
    match step
    case TickStep(now, id, execId, started) =>
      PicksDue(sys.store, now, id) && NewExecId(sys.store, execId) && execId !in sys.callbacks
    case CompleteStep(execId, ok) => execId in sys.callbacks
    case CreateStep(id, row, running) =>
      && id !in sys.store.schedules
      && row.status.Scheduled? && !row.paused && row.skipped == []
      && Free(sys.store.schedules, running, SlotOf(row), id)
    case UpdateStep(id, row, running) =>
      && id in sys.store.schedules
      && !sys.store.schedules[id].status.Running?
      && row.status.Scheduled?
      && row.paused == sys.store.schedules[id].paused
      && row.skipped == sys.store.schedules[id].skipped
      && row.end == sys.store.schedules[id].end
      && Free(sys.store.schedules, running, SlotOf(row), id)
    case DeleteStep(id, scope, requested, now) => id in sys.store.schedules
    case PauseStep(id, paused) => id in sys.store.schedules
  }

  function CountExecs(execs: seq<Execution>, id: Id): nat {
    if execs == [] then 0
    else CountExecs(execs[..|execs| - 1], id) + (if execs[|execs| - 1].schedule == id then 1 else 0)
  }

  function BeginWrites(st: Store, id: Id, execId: Id): seq<Write>
    requires id in st.schedules
  {
    [SetStatus(id, Running), InsertExec(Execution(execId, id, InProgress, st.schedules[id].scheduledAt))]
  }

  function FailedStart(st: Store, id: Id, execId: Id): seq<Write>
    requires id in st.schedules
  {
    BeginWrites(st, id, execId) + [SetExec(execId, Errored)]
  }

  function Finish(execId: Id, ok: bool): Write {
    SetExec(execId, if ok then Succeeded else Errored)
  }

  /** The store writes of a step, in order. */
  function Writes(sys: Sys, step: Step): seq<Write>
    requires Enabled(sys, step)
  {
    var st := sys.store;
    match step
    case TickStep(now, id, execId, started) =>
      if started then BeginWrites(st, id, execId) + [SetExec(execId, InProgress)]
      else
        var failed := FailedStart(st, id, execId);
        failed + AdvanceWrites(ApplyAll(st, failed), id, true)
    case CompleteStep(execId, ok) =>
      [Finish(execId, ok)] + AdvanceWrites(Apply(st, Finish(execId, ok)), sys.callbacks[execId], !ok)
    case CreateStep(id, row, running) => [PutSchedule(id, Stored(row))]
    case UpdateStep(id, row, running) => [PutSchedule(id, Stored(row))]
    case DeleteStep(id, scope, requested, now) =>
      (match Delete(st.schedules[id], scope, requested, now, CountExecs(st.execs, id))
       case Removed => [DropSchedule(id)]
       case Updated(row) => [PutSchedule(id, row)]
       case _ => [])
    case PauseStep(id, paused) => [SetPaused(id, paused)]
  }

  function CallbacksAfter(sys: Sys, step: Step): map<Id, Id> {
    match step
    case TickStep(now, id, execId, started) => if started then sys.callbacks[execId := id] else sys.callbacks
    case CompleteStep(execId, ok) => sys.callbacks - {execId}
    case _ => sys.callbacks
  }

  function Do(sys: Sys, step: Step): Sys
    requires Enabled(sys, step)
  {
    Sys(ApplyAll(sys.store, Writes(sys, step)), CallbacksAfter(sys, step))
  }

  // ------------------------------------------------ crash and recovery

  /** The store after a crash that let through only the first `k` writes. */
  function CrashStore(sys: Sys, step: Step, k: nat): Store
    requires Enabled(sys, step) && k <= |Writes(sys, step)|
  {
    ApplyAll(sys.store, Writes(sys, step)[..k])
  }

  function FailStale(execs: seq<Execution>): (r: seq<Execution>)
    ensures |r| == |execs|
    ensures forall i :: 0 <= i < |execs| ==>
              r[i] == if execs[i].status.InProgress? then execs[i].(status := Errored) else execs[i]
  {
    seq(|execs|, i requires 0 <= i < |execs| =>
      if execs[i].status.InProgress? then execs[i].(status := Errored) else execs[i])
  }

  function ResetStale(row: Schedule): Schedule {
    if row.status.Running? then row.(status := Scheduled) else row
  }

  /** What a restart makes of a store: nothing runs, and overdue rows move on. */
  function Recover(st: Store, recoveryAt: Instant): Sys {
    Sys(Store(map id | id in st.schedules :: NormalizeRow(ResetStale(st.schedules[id]), recoveryAt),
              FailStale(st.execs)), map[])
  }

  /** The rows while those in `waiting` are still to be normalized. */
  function PartlyNormalized(rows: map<Id, Schedule>, waiting: set<Id>, recoveryAt: Instant): map<Id, Schedule> {
    map id | id in rows :: if id in waiting then rows[id] else NormalizeRow(rows[id], recoveryAt)
  }

  lemma NormalizeNext(rows: map<Id, Schedule>, waiting: set<Id>, id: Id, recoveryAt: Instant)
    requires id in waiting && waiting <= rows.Keys
    ensures PartlyNormalized(rows, waiting - {id}, recoveryAt)
         == PartlyNormalized(rows, waiting, recoveryAt)[id := NormalizeRow(rows[id], recoveryAt)]
  {
  }

  /** The write, if any, that normalizes a listed row. */
  function NormalizeWrites(id: Id, row: Schedule, recoveryAt: Instant): seq<Write> {
    if !Overdue(row, recoveryAt) then []
    else if row.kind.Once? then [SetStatus(id, Failed)]
    else
      match NextFuture(SeriesOf(row), recoveryAt)
      case Stuck => [SetStatus(id, Failed)]
      case Exhausted => [SetStatus(id, Completed)]
      case FutureAt(t) => [SetNextRun(id, t, Scheduled)]
  }

  function RowRecoveries(st: Store, recoveryAt: Instant, order: seq<Id>): seq<Write> {
    if order == [] then []
    else
      var id := order[|order| - 1];
      RowRecoveries(st, recoveryAt, order[..|order| - 1])
      + (if id in st.schedules then NormalizeWrites(id, ResetStale(st.schedules[id]), recoveryAt) else [])
  }

  /** The writes of a restart: one statement per table, then the overdue rows in the
      order they are listed. */
  function RecoverWrites(st: Store, recoveryAt: Instant, order: seq<Id>): seq<Write> {
    [FailStaleExecs, ResetStaleRows] + RowRecoveries(st, recoveryAt, order)
  }

  /** The store after a restart that was cut off after `k` of its writes. */
  function CutRecovery(st: Store, recoveryAt: Instant, order: seq<Id>, k: nat): Store {
    var writes := RecoverWrites(st, recoveryAt, order);
    ApplyAll(st, if k <= |writes| then writes[..k] else writes)
  }
}
