// A crash between any two store writes of a step, or of a restart, and the startup
// recovery that follows. Two rules say where a row that is up for execution may
// stand: not on a skipped occurrence, and not past the end date.
module CrashRecovery {
  import opened Instants
  import opened Recurrence
  import opened Schedules
  import opened ScheduleDelete
  import opened Recovery
  import opened SchedulerModel
  import opened SchedulerEffects
  import opened SchedulerSafety

  datatype Rule = NoRule | SkipList | EndDate

  predicate Meets(at: Instant, end: Option<Instant>, skipped: seq<Instant>, rule: Rule) {
    match rule
    case NoRule => true
    case SkipList => !IsSkipped(at, skipped)
    case EndDate => Within(end, at)
  }

  /** A recurring row that is up for execution, or being executed, meets the rule. */
  predicate Obeys(row: Schedule, rule: Rule) {
    (row.status.Scheduled? || row.status.Running?) && !row.kind.Once? ==>
      Meets(row.scheduledAt, row.end, row.skipped, rule)
  }

  predicate AllObey(st: Store, rule: Rule) {
    forall id | id in st.schedules :: Obeys(st.schedules[id], rule)
  }

  ghost predicate Good(st: Store, rule: Rule) {
    Consistent(st) && AllObey(st, rule)
  }

  /** What a caller can check before a step, on the times as the store rounds them. */
  predicate Guarded(sys: Sys, step: Step, rule: Rule)
    requires Enabled(sys, step)
  {
    match step
    case CreateStep(_, row, _) =>
      row.kind.Once? || Meets(ToSecond(row.scheduledAt), Stored(row).end, [], rule)
    case UpdateStep(id, row, _) =>
      var existing := sys.store.schedules[id];
      row.kind.Once? || Meets(ToSecond(row.scheduledAt), existing.end, existing.skipped, rule)
    case _ => true
  }

  // ------------------------------------------------ prefixes of the writes

  lemma PrefixOfConcat<T>(a: seq<T>, b: seq<T>, k: nat)
    requires k <= |a| + |b|
    ensures (a + b)[..k] == if k <= |a| then a[..k] else a + b[..k - |a|]
  {
  }

  /** An occurrence of the series meets every rule. */
  lemma IncludedMeets(row: Schedule, t: Instant, rule: Rule)
    requires Included(SeriesOf(row), t)
    ensures Meets(t, row.end, row.skipped, rule)
  {
  }

  lemma AdvancedRowObeys(st: Store, id: Id, failed: bool, rule: Rule)
    requires id in st.schedules && st.schedules[id].status.Running? && Obeys(st.schedules[id], rule)
    ensures Obeys(AdvancedRow(st, id, failed), rule)
  {
    var row := st.schedules[id];
    if !row.kind.Once? && NextIncluded(row.scheduledAt, SeriesOf(row)).At? {
      NextAtIsIncluded(row.scheduledAt, SeriesOf(row), MAX_WALK);
      IncludedMeets(row, NextIncluded(row.scheduledAt, SeriesOf(row)).t, rule);
    }
  }

  lemma AdvancePrefixGood(st: Store, id: Id, failed: bool, k: nat, rule: Rule)
    requires Good(st, rule) && id in st.schedules && st.schedules[id].status.Running?
    requires k <= |AdvanceWrites(st, id, failed)|
    ensures Good(ApplyAll(st, AdvanceWrites(st, id, failed)[..k]), rule)
  {
    var writes := AdvanceWrites(st, id, failed);
    if k == 0 {
      assert writes[..k] == [];
    } else if k == |writes| {
      assert writes[..k] == writes;
      AdvanceEffect(st, id, failed);
      AdvancedWhole(st, id, failed);
      AdvancedRowObeys(st, id, failed, rule);
    } else {
      assert writes[..k] == [SetPaused(id, true)];
      ApplyOne(st, SetPaused(id, true));
    }
  }

  lemma SetExecGood(st: Store, id: Id, status: ExecStatus, rule: Rule)
    requires Good(st, rule)
    ensures Good(Apply(st, SetExec(id, status)), rule)
  {
    var execs := SetExecStatus(st.execs, id, status);
    forall x | x in execs ensures x.schedule in st.schedules {
      var i :| 0 <= i < |execs| && execs[i] == x;
      assert st.execs[i] in st.execs;
    }
  }

  lemma InsertGood(st: Store, exec: Execution, rule: Rule)
    requires Good(st, rule) && NewExecId(st, exec.id) && exec.schedule in st.schedules
    ensures Good(Apply(st, InsertExec(exec)), rule)
  {
    assert forall i :: 0 <= i < |st.execs| ==> st.execs[i] in st.execs;
  }

  /** The three writes that start an execution, up to any of them. */
  lemma StartPrefixGood(st: Store, id: Id, execId: Id, status: ExecStatus, k: nat, rule: Rule)
    requires Good(st, rule) && id in st.schedules && st.schedules[id].status.Scheduled? && NewExecId(st, execId)
    requires k <= 3
    ensures var writes := BeginWrites(st, id, execId) + [SetExec(execId, status)];
            |writes| == 3 && Good(ApplyAll(st, writes[..k]), rule)
    ensures k > 0 ==> var after := ApplyAll(st, (BeginWrites(st, id, execId) + [SetExec(execId, status)])[..k]);
                      id in after.schedules && after.schedules[id].status.Running?
  {
    var begin := BeginWrites(st, id, execId);
    var marked := Apply(st, begin[0]);
    var inserted := Apply(marked, begin[1]);
    var writes := begin + [SetExec(execId, status)];
    assert Good(marked, rule);
    InsertGood(marked, begin[1].exec, rule);
    SetExecGood(inserted, execId, status, rule);
    if k == 0 {
      assert writes[..k] == [];
    } else if k == 1 {
      assert writes[..k] == [begin[0]];
      ApplyOne(st, begin[0]);
    } else if k == 2 {
      assert writes[..k] == [begin[0], begin[1]];
      ApplyTwo(st, begin[0], begin[1]);
    } else {
      assert writes[..k] == [begin[0], begin[1], SetExec(execId, status)];
      ApplyThree(st, begin[0], begin[1], SetExec(execId, status));
    }
  }

  /** A tick that could not start anything, cut while it advances the row. */
  lemma FailedTickPrefixGood(st: Store, id: Id, execId: Id, k: nat, rule: Rule)
    requires Good(st, rule) && id in st.schedules && st.schedules[id].status.Scheduled? && NewExecId(st, execId)
    requires var start := FailedStart(st, id, execId);
             3 < k <= |start + AdvanceWrites(ApplyAll(st, start), id, true)|
    ensures var start := FailedStart(st, id, execId);
            Good(ApplyAll(st, (start + AdvanceWrites(ApplyAll(st, start), id, true))[..k]), rule)
  {
    var start := FailedStart(st, id, execId);
    StartPrefixGood(st, id, execId, Errored, 3, rule);
    assert start[..3] == start;
    var after := ApplyAll(st, start);
    var rest := AdvanceWrites(after, id, true);
    PrefixOfConcat(start, rest, k);
    ApplyConcat(st, start, rest[..k - 3]);
    AdvancePrefixGood(after, id, true, k - 3, rule);
  }

  lemma TickPrefixGood(sys: Sys, step: Step, k: nat, rule: Rule)
    requires step.TickStep? && Enabled(sys, step) && Good(sys.store, rule)
    requires k <= |Writes(sys, step)|
    ensures Good(CrashStore(sys, step, k), rule)
  {
    var st := sys.store;
    var status := if step.started then InProgress else Errored;
    var start := BeginWrites(st, step.id, step.execId) + [SetExec(step.execId, status)];
    if k <= 3 {
      StartPrefixGood(st, step.id, step.execId, status, k, rule);
      assert Writes(sys, step)[..k] == start[..k];
    } else {
      assert start == FailedStart(st, step.id, step.execId);
      FailedTickPrefixGood(st, step.id, step.execId, k, rule);
    }
  }

  lemma CompletePrefixGood(sys: Sys, step: Step, k: nat, rule: Rule)
    requires step.CompleteStep? && Enabled(sys, step) && Inv(sys) && AllObey(sys.store, rule)
    requires k <= |Writes(sys, step)|
    ensures Good(CrashStore(sys, step, k), rule)
  {
    var st := sys.store;
    var finish := Finish(step.execId, step.ok);
    var id := sys.callbacks[step.execId];
    if k == 0 {
      assert Writes(sys, step)[..k] == [];
    } else {
      FinishedGood(sys, step, rule);
      var done := Apply(st, finish);
      var rest := AdvanceWrites(done, id, !step.ok);
      PrefixOfConcat([finish], rest, k);
      assert [finish][..1] + rest[..k - 1] == [finish] + rest[..k - 1];
      assert Writes(sys, step)[..k] == [finish] + rest[..k - 1];
      ApplyConcat(st, [finish], rest[..k - 1]);
      ApplyOne(st, finish);
      AdvancePrefixGood(done, id, !step.ok, k - 1, rule);
    }
  }

  /** The store once the execution is written off: its schedule is still running. */
  lemma FinishedGood(sys: Sys, step: Step, rule: Rule)
    requires step.CompleteStep? && Enabled(sys, step) && Inv(sys) && AllObey(sys.store, rule)
    ensures var done, id := Apply(sys.store, Finish(step.execId, step.ok)), sys.callbacks[step.execId];
            Good(done, rule) && id in done.schedules && done.schedules[id].status.Running?
  {
    SetExecGood(sys.store, step.execId, Finish(step.execId, step.ok).execStatus, rule);
    assert Pending(sys.callbacks, sys.callbacks[step.execId]);
  }

  /** What a deletion leaves of a row obeys every rule the row obeyed. */
  lemma DeletedRowObeys(existing: Schedule, scope: Scope, requested: Instant, now: Instant, executions: nat, rule: Rule)
    requires WholeRow(existing) && Obeys(existing, rule)
    requires Delete(existing, scope, requested, now, executions).Updated?
    ensures Obeys(Delete(existing, scope, requested, now, executions).schedule, rule)
  {
    var occurrence := Normalize(requested);
    match scope {
      case Future =>
        SkippedBeforeKeeps(existing.skipped, occurrence, existing.scheduledAt);
        FutureNeverStrands(existing, requested, now, executions);
      case Single =>
        AppendSkippedMarks(existing.skipped, occurrence, existing.scheduledAt);
        var marked := existing.(skipped := AppendSkipped(existing.skipped, occurrence));
        if NextIncluded(existing.scheduledAt, SeriesOf(marked)).At? {
          NextAtIsIncluded(existing.scheduledAt, SeriesOf(marked), MAX_WALK);
          IncludedMeets(marked, NextIncluded(existing.scheduledAt, SeriesOf(marked)).t, rule);
        }
    }
  }

  predicate EditStep(step: Step) {
    !step.TickStep? && !step.CompleteStep?
  }

  lemma DropGood(st: Store, id: Id, rule: Rule)
    requires Good(st, rule)
    ensures Good(Apply(st, DropSchedule(id)), rule)
  {
    DropExecsDistinct(st.execs, id);
    forall x | x in DropExecs(st.execs, id) ensures x in st.execs && x.schedule != id {
      DropExecsMembers(st.execs, id, x);
    }
  }

  lemma PutGoodIff(st: Store, id: Id, row: Schedule, rule: Rule)
    requires Good(st, rule) && WholeRow(row)
    ensures Consistent(Apply(st, PutSchedule(id, row)))
    ensures AllObey(Apply(st, PutSchedule(id, row)), rule) <==> Obeys(row, rule)
  {
    var after := Apply(st, PutSchedule(id, row));
    assert after.schedules[id] == row;
  }

  /** The one write of an edit. */
  lemma EditGoodIff(sys: Sys, step: Step, rule: Rule)
    requires EditStep(step) && Enabled(sys, step) && Good(sys.store, rule) && Writes(sys, step) != []
    ensures |Writes(sys, step)| == 1
    ensures var after := Apply(sys.store, Writes(sys, step)[0]);
            Consistent(after) && (AllObey(after, rule) <==> Guarded(sys, step, rule))
  {
    match step {
      case CreateStep(id, row, _) =>
        StoredWhole(row);
        PutGoodIff(sys.store, id, Stored(row), rule);
      case UpdateStep(id, row, _) =>
        StoredWhole(row);
        StoredWhole(sys.store.schedules[id]);
        PutGoodIff(sys.store, id, Stored(row), rule);
      case PauseStep(id, paused) =>
      case DeleteStep(id, scope, requested, now) => DeleteGood(sys, step, rule);
    }
  }

  lemma DeleteGood(sys: Sys, step: Step, rule: Rule)
    requires step.DeleteStep? && Enabled(sys, step) && Good(sys.store, rule) && Writes(sys, step) != []
    ensures |Writes(sys, step)| == 1
    ensures Good(Apply(sys.store, Writes(sys, step)[0]), rule)
  {
    var existing, executions := sys.store.schedules[step.id], CountExecs(sys.store.execs, step.id);
    match Delete(existing, step.scope, step.requested, step.now, executions) {
      case Removed => DropGood(sys.store, step.id, rule);
      case Updated(row) =>
        DeletedWhole(existing, step.scope, step.requested, step.now, executions);
        DeletedRowObeys(existing, step.scope, step.requested, step.now, executions, rule);
        PutGoodIff(sys.store, step.id, row, rule);
      case _ =>
    }
  }

  /** Wherever a guarded step is cut off, the tables are consistent and every row obeys. */
  lemma CrashStoreGood(sys: Sys, step: Step, k: nat, rule: Rule)
    requires Inv(sys) && AllObey(sys.store, rule) && Enabled(sys, step) && Guarded(sys, step, rule)
    requires k <= |Writes(sys, step)|
    ensures Good(CrashStore(sys, step, k), rule)
  {
    match step {
      case TickStep(_, _, _, _) => TickPrefixGood(sys, step, k, rule);
      case CompleteStep(_, _) => CompletePrefixGood(sys, step, k, rule);
      case _ =>
        var writes := Writes(sys, step);
        if k == 0 {
          assert writes[..k] == [];
        } else {
          EditGoodIff(sys, step, rule);
          assert writes[..k] == [writes[0]];
          ApplyOne(sys.store, writes[0]);
        }
    }
  }

  /** Without any rule to keep there is nothing to guard. */
  lemma CrashStoreConsistent(sys: Sys, step: Step, k: nat)
    requires Inv(sys) && Enabled(sys, step) && k <= |Writes(sys, step)|
    ensures Consistent(CrashStore(sys, step, k))
  {
    CrashStoreGood(sys, step, k, NoRule);
  }

  /** The guard is exact. A step puts a row that is up for execution onto a skipped
      occurrence, or past its end date, if and only if it is an update to a skipped
      second, or a create or an update past the end date. */
  lemma StepObeysIff(sys: Sys, step: Step, rule: Rule)
    requires Inv(sys) && AllObey(sys.store, rule) && Enabled(sys, step)
    ensures AllObey(Do(sys, step).store, rule) <==> Guarded(sys, step, rule)
  {
    var writes := Writes(sys, step);
    assert writes[..|writes|] == writes;
    if Guarded(sys, step, rule) {
      CrashStoreGood(sys, step, |writes|, rule);
    } else {
      UnguardedWrites(sys, step, rule);
      EditGoodIff(sys, step, rule);
      EditEffect(sys, step);
    }
  }

  lemma UnguardedWrites(sys: Sys, step: Step, rule: Rule)
    requires Enabled(sys, step) && !Guarded(sys, step, rule)
    ensures EditStep(step) && Writes(sys, step) != []
  {
  }

  // ------------------------------------------------ recovery

  /** What a restarted scheduler may rely on. */
  ghost predicate FreshStart(sys: Sys, recoveryAt: Instant) {
    && Inv(sys)
    && sys.callbacks == map[]
    && (forall x :: x in sys.store.execs ==> !x.status.InProgress?)
    && (forall id :: id in sys.store.schedules ==>
          var row := sys.store.schedules[id];
          !row.status.Running? && (row.status.Scheduled? && !row.paused ==> recoveryAt <= row.scheduledAt))
  }

  lemma FailStaleConsistent(st: Store, rows: map<Id, Schedule>)
    requires Consistent(st) && rows.Keys == st.schedules.Keys && AllWhole(Store(rows, []))
    ensures Consistent(Store(rows, FailStale(st.execs)))
    ensures forall x :: x in FailStale(st.execs) ==> !x.status.InProgress?
  {
    var execs := FailStale(st.execs);
    assert forall i :: 0 <= i < |execs| ==> execs[i].id == st.execs[i].id;
    forall x | x in execs ensures !x.status.InProgress? && x.schedule in rows {
      var i :| 0 <= i < |execs| && execs[i] == x;
      assert st.execs[i] in st.execs;
    }
  }

  lemma RecoverRestores(st: Store, recoveryAt: Instant)
    requires Consistent(st)
    ensures FreshStart(Recover(st, recoveryAt), recoveryAt)
  {
    var after := Recover(st, recoveryAt);
    forall id | id in st.schedules ensures WholeRow(after.store.schedules[id]) {
      NormalizedWhole(ResetStale(st.schedules[id]), recoveryAt);
    }
    FailStaleConsistent(st, after.store.schedules);
    forall id | id in after.store.schedules
      ensures var row := after.store.schedules[id];
              !row.status.Running? && (row.status.Scheduled? && !row.paused ==> recoveryAt <= row.scheduledAt)
    {
      NormalizedRow(ResetStale(st.schedules[id]), recoveryAt);
    }
  }

  lemma NormalizedRowObeys(row: Schedule, recoveryAt: Instant, rule: Rule)
    requires Obeys(row, rule)
    ensures Obeys(ResetStale(row), rule) && Obeys(NormalizeRow(ResetStale(row), recoveryAt), rule)
  {
    var after := NormalizeRow(ResetStale(row), recoveryAt);
    NormalizedRow(ResetStale(row), recoveryAt);
    if after.scheduledAt != row.scheduledAt {
      IncludedMeets(after, after.scheduledAt, rule);
    }
  }

  lemma RecoverObeys(st: Store, recoveryAt: Instant, rule: Rule)
    requires AllObey(st, rule)
    ensures AllObey(Recover(st, recoveryAt).store, rule)
  {
    forall id | id in st.schedules ensures Obeys(NormalizeRow(ResetStale(st.schedules[id]), recoveryAt), rule) {
      NormalizedRowObeys(st.schedules[id], recoveryAt, rule);
    }
  }

  /** Whatever step the controller dies in, and after whichever of its writes, a
      restart leaves nothing running, every live schedule in the future, and the
      machine's invariant in force; and a guarded step leaves every row obeying. */
  lemma CrashThenRecover(sys: Sys, step: Step, k: nat, recoveryAt: Instant)
    requires Inv(sys) && Enabled(sys, step) && k <= |Writes(sys, step)|
    ensures FreshStart(Recover(CrashStore(sys, step, k), recoveryAt), recoveryAt)
    ensures forall rule :: AllObey(sys.store, rule) && Guarded(sys, step, rule) ==>
              AllObey(Recover(CrashStore(sys, step, k), recoveryAt).store, rule)
  {
    CrashStoreConsistent(sys, step, k);
    RecoverRestores(CrashStore(sys, step, k), recoveryAt);
    forall rule | AllObey(sys.store, rule) && Guarded(sys, step, rule)
      ensures AllObey(Recover(CrashStore(sys, step, k), recoveryAt).store, rule)
    {
      CrashStoreGood(sys, step, k, rule);
      RecoverObeys(CrashStore(sys, step, k), recoveryAt, rule);
    }
  }

  /** A row once no execution of it can be running any more. */
  function Idle(row: Schedule): Schedule {
    if row.status == Running then row.(status := Scheduled) else row
  }

  /** Recovery leaves a row alone that is paused, not up for execution, or not in the past. */
  lemma RecoverLeavesAlone(st: Store, recoveryAt: Instant, id: Id)
    requires id in st.schedules
    requires var row := Idle(st.schedules[id]);
             row.paused || row.status != Scheduled || recoveryAt <= row.scheduledAt
    ensures Recover(st, recoveryAt).store.schedules[id] == Idle(st.schedules[id])
  {
  }

  /** A one-time row that is overdue has failed, and so has one of an unknown type. */
  lemma RecoverFailsOthers(st: Store, recoveryAt: Instant, id: Id)
    requires id in st.schedules && !Recurring(st.schedules[id].kind)
    requires var row := Idle(st.schedules[id]);
             !row.paused && row.status == Scheduled && row.scheduledAt < recoveryAt
    ensures Recover(st, recoveryAt).store.schedules[id] == Idle(st.schedules[id]).(status := Failed)
  {
    var row := Idle(st.schedules[id]);
    if row.kind.Unknown? {
      assert NextIncluded(row.scheduledAt, SeriesOf(row)).Fail?;
      assert NextFuture(SeriesOf(row), recoveryAt).Stuck?;
    }
  }

  /** An overdue recurring row moves to the least included occurrence that is not in the past, and never further;
      it is completed exactly when every later occurrence is in the past, and fails exactly when the search gives
      up. */
  lemma RecoverMovesLeast(st: Store, recoveryAt: Instant, id: Id)
    requires id in st.schedules && Recurring(st.schedules[id].kind) && Forward(st.schedules[id].zone)
    requires var row := Idle(st.schedules[id]);
             !row.paused && row.status == Scheduled && row.scheduledAt < recoveryAt
    ensures var row, after := Idle(st.schedules[id]), Recover(st, recoveryAt).store.schedules[id];
            var s, stuck := SeriesOf(row), NextFuture(SeriesOf(row), recoveryAt).Stuck?;
            && (after.status == Failed <==> stuck)
            && (after.status == Completed <==> !stuck && forall u :: Later(s, row.scheduledAt, u) ==> u < recoveryAt)
            && (after.status == Scheduled <==> !stuck && exists u :: Later(s, row.scheduledAt, u) && recoveryAt <= u)
            && (after.status == Scheduled ==>
                  && Later(s, row.scheduledAt, after.scheduledAt) && recoveryAt <= after.scheduledAt
                  && forall u :: Later(s, row.scheduledAt, u) && recoveryAt <= u ==> after.scheduledAt <= u)
            && (after.status != Scheduled ==> after.scheduledAt == row.scheduledAt)
            && after == row.(scheduledAt := after.scheduledAt, status := after.status)
  {
    var row := Idle(st.schedules[id]);
    NextFutureLeast(SeriesOf(row), row.scheduledAt, recoveryAt, MAX_ADVANCES);
  }

  /** Executions that were in progress have failed; all others, and their order, are as before. */
  lemma RecoverWritesOff(st: Store, recoveryAt: Instant, i: nat)
    requires i < |st.execs|
    ensures var after := Recover(st, recoveryAt).store.execs;
            && |after| == |st.execs|
            && after[i] == if st.execs[i].status == InProgress then st.execs[i].(status := Errored) else st.execs[i]
  {
  }

  // ------------------------------------------------ recovery, write by write

  /** The rows once stale ones are reset and those in `listed` are normalized. */
  function RecoveredRows(st: Store, recoveryAt: Instant, listed: seq<Id>): map<Id, Schedule> {
    map id | id in st.schedules ::
      if id in listed then NormalizeRow(ResetStale(st.schedules[id]), recoveryAt) else ResetStale(st.schedules[id])
  }

  lemma RecoveredWhole(st: Store, recoveryAt: Instant, listed: seq<Id>)
    requires AllWhole(st)
    ensures AllWhole(Store(RecoveredRows(st, recoveryAt, listed), []))
  {
    forall id | id in st.schedules ensures WholeRow(RecoveredRows(st, recoveryAt, listed)[id]) {
      NormalizedWhole(ResetStale(st.schedules[id]), recoveryAt);
    }
  }

  function ResetStore(st: Store): Store {
    Apply(Apply(st, FailStaleExecs), ResetStaleRows)
  }

  lemma ResetWrites(st: Store)
    ensures ApplyAll(st, [FailStaleExecs]) == Apply(st, FailStaleExecs)
    ensures ApplyAll(st, [FailStaleExecs, ResetStaleRows]) == ResetStore(st)
  {
    ApplyOne(st, FailStaleExecs);
    ApplyTwo(st, FailStaleExecs, ResetStaleRows);
  }

  /** One listed row. */
  lemma NormalizeEffect(st: Store, id: Id, recoveryAt: Instant)
    requires id in st.schedules
    ensures |NormalizeWrites(id, st.schedules[id], recoveryAt)| <= 1
    ensures ApplyAll(st, NormalizeWrites(id, st.schedules[id], recoveryAt))
         == st.(schedules := st.schedules[id := NormalizeRow(st.schedules[id], recoveryAt)])
  {
    var writes := NormalizeWrites(id, st.schedules[id], recoveryAt);
    if writes != [] {
      assert writes == [writes[0]];
      ApplyOne(st, writes[0]);
    }
  }

  lemma OneMoreRow(st: Store, recoveryAt: Instant, before: seq<Id>, id: Id)
    requires id !in before
    ensures RecoveredRows(st, recoveryAt, before + [id])
         == if id in st.schedules
            then RecoveredRows(st, recoveryAt, before)[id := NormalizeRow(ResetStale(st.schedules[id]), recoveryAt)]
            else RecoveredRows(st, recoveryAt, before)
  {
    assert forall x :: x in before + [id] <==> x in before || x == id;
  }

  lemma OneMoreWrite(st: Store, recoveryAt: Instant, before: seq<Id>, id: Id)
    ensures RowRecoveries(st, recoveryAt, before + [id])
         == RowRecoveries(st, recoveryAt, before)
            + (if id in st.schedules then NormalizeWrites(id, ResetStale(st.schedules[id]), recoveryAt) else [])
  {
    assert (before + [id])[..|before|] == before;
  }

  predicate ListsOnce(order: seq<Id>) {
    forall i, j :: 0 <= i < j < |order| ==> order[i] != order[j]
  }

  /** The row writes, for rows listed once each. */
  lemma {:induction false} RowRecoveriesEffect(st: Store, recoveryAt: Instant, order: seq<Id>)
    requires ListsOnce(order)
    ensures ApplyAll(ResetStore(st), RowRecoveries(st, recoveryAt, order))
         == Store(RecoveredRows(st, recoveryAt, order), FailStale(st.execs))
  {
    if order == [] {
      assert RecoveredRows(st, recoveryAt, order) == ResetStore(st).schedules;
    } else {
      var before, id := order[..|order| - 1], order[|order| - 1];
      var mid := Store(RecoveredRows(st, recoveryAt, before), FailStale(st.execs));
      RowRecoveriesEffect(st, recoveryAt, before);
      assert order == before + [id] && id !in before;
      OneMoreRow(st, recoveryAt, before, id);
      OneMoreWrite(st, recoveryAt, before, id);
      if id in st.schedules {
        assert mid.schedules[id] == ResetStale(st.schedules[id]);
        NormalizeEffect(mid, id, recoveryAt);
        ApplyConcat(ResetStore(st), RowRecoveries(st, recoveryAt, before),
                    NormalizeWrites(id, mid.schedules[id], recoveryAt));
      } else {
        assert RowRecoveries(st, recoveryAt, before) + [] == RowRecoveries(st, recoveryAt, before);
      }
    }
  }

  /** A part of the row writes is the row writes of a part of the list. */
  lemma {:induction false} RowRecoveriesPrefix(st: Store, recoveryAt: Instant, order: seq<Id>, k: nat) returns (j: nat)
    requires k <= |RowRecoveries(st, recoveryAt, order)|
    ensures j <= |order| && RowRecoveries(st, recoveryAt, order)[..k] == RowRecoveries(st, recoveryAt, order[..j])
  {
    var writes := RowRecoveries(st, recoveryAt, order);
    j := |order|;
    assert order[..j] == order;
    if k == |writes| {
      assert writes[..k] == writes;
    } else {
      var before := order[..|order| - 1];
      j := RowRecoveriesPrefix(st, recoveryAt, before, k);
      assert order[..j] == before[..j];
    }
  }

  /** A restart that lists every row once writes exactly the recovery. */
  lemma RecoverWritesAll(st: Store, recoveryAt: Instant, order: seq<Id>)
    requires ListsOnce(order)
    requires forall id :: id in st.schedules ==> id in order
    ensures ApplyAll(st, RecoverWrites(st, recoveryAt, order)) == Recover(st, recoveryAt).store
  {
    ResetWrites(st);
    ApplyConcat(st, [FailStaleExecs, ResetStaleRows], RowRecoveries(st, recoveryAt, order));
    RowRecoveriesEffect(st, recoveryAt, order);
    assert RecoveredRows(st, recoveryAt, order) == Recover(st, recoveryAt).store.schedules;
  }

  /** What a cut-off restart leaves: the store as it was, with the executions written
      off, or with the stale rows reset and some of the list normalized. */
  lemma CutRecoveryShape(st: Store, recoveryAt: Instant, order: seq<Id>, k: nat) returns (j: nat)
    requires ListsOnce(order)
    ensures j <= |order|
    ensures CutRecovery(st, recoveryAt, order, k)
         == if k == 0 then st else if k == 1 then st.(execs := FailStale(st.execs))
            else Store(RecoveredRows(st, recoveryAt, order[..j]), FailStale(st.execs))
  {
    j := |order|;
    var start, rows := [FailStaleExecs, ResetStaleRows], RowRecoveries(st, recoveryAt, order);
    ResetWrites(st);
    if k == 0 {
      assert RecoverWrites(st, recoveryAt, order)[..k] == [];
    } else if k == 1 {
      assert RecoverWrites(st, recoveryAt, order)[..k] == [FailStaleExecs];
    } else {
      var m := if k <= 2 + |rows| then k - 2 else |rows|;
      j := RowRecoveriesPrefix(st, recoveryAt, order, m);
      assert (start + rows)[..2 + m] == start + rows[..m];
      assert k > 2 + |rows| ==> rows[..m] == rows;
      ApplyConcat(st, start, rows[..m]);
      RowRecoveriesEffect(st, recoveryAt, order[..j]);
    }
  }

  /** A restart cut off after any of its writes leaves consistent tables with every row
      obeying, so that the next restart finds what it needs. */
  lemma CutRecoveryGood(st: Store, recoveryAt: Instant, order: seq<Id>, k: nat, rule: Rule)
    requires Good(st, rule)
    requires ListsOnce(order)
    ensures Good(CutRecovery(st, recoveryAt, order, k), rule)
  {
    var j := CutRecoveryShape(st, recoveryAt, order, k);
    FailStaleConsistent(st, st.schedules);
    RecoveredWhole(st, recoveryAt, order[..j]);
    FailStaleConsistent(st, RecoveredRows(st, recoveryAt, order[..j]));
    forall id | id in st.schedules ensures Obeys(RecoveredRows(st, recoveryAt, order[..j])[id], rule) {
      NormalizedRowObeys(st.schedules[id], recoveryAt, rule);
    }
  }

  // ------------------------------------------------ where the rules fail

  /** A controller that holds one schedule, `"a"`, and has run nothing. */
  function Lone(row: Schedule): Sys {
    Sys(Store(map["a" := row], []), map[])
  }

  lemma LoneIsSound(row: Schedule)
    requires !row.status.Running? && WholeRow(row)
    ensures Inv(Lone(row))
    ensures forall rule :: AllObey(Lone(row).store, rule) <==> Obeys(row, rule)
  {
    assert Lone(row).store.schedules["a"] == row;
  }

  lemma PutLone(row: Schedule)
    ensures forall was :: Apply(Lone(was).store, PutSchedule("a", row)) == Lone(row).store
    ensures Apply(EMPTY.store, PutSchedule("a", row)) == Lone(row).store
  {
  }

  /** A due lone row is executed for its current time. */
  lemma LoneRuns(row: Schedule, now: Instant)
    requires Due(row, now)
    ensures var tick := TickStep(now, "a", "x", true);
            && Enabled(Lone(row), tick)
            && Do(Lone(row), tick).store.execs == [Execution("x", "a", InProgress, row.scheduledAt)]
  {
    var tick := TickStep(now, "a", "x", true);
    assert PicksDue(Lone(row).store, now, "a");
    TickStartedEffect(Lone(row), now, "a", "x");
  }

  /** Moving a lone row is accepted, since there is nothing else to overlap. */
  lemma LoneMoves(row: Schedule, moved: Schedule)
    requires row.status.Scheduled? && WholeRow(moved) && moved == row.(scheduledAt := moved.scheduledAt)
    ensures var update := UpdateStep("a", moved, None);
            Enabled(Lone(row), update) && Do(Lone(row), update) == Lone(moved)
  {
    var update := UpdateStep("a", moved, None);
    assert Enabled(Lone(row), update);
    StoredWhole(moved);
    PutLone(moved);
    EditEffect(Lone(row), update);
  }

  lemma LoneArrives(row: Schedule)
    requires row.status.Scheduled? && !row.paused && row.skipped == [] && WholeRow(row)
    ensures var create := CreateStep("a", row, None);
            Enabled(EMPTY, create) && Do(EMPTY, create) == Lone(row)
  {
    StoredWhole(row);
    PutLone(row);
    EditEffect(EMPTY, CreateStep("a", row, None));
  }

  /** An hourly row that is due in two hours and skips the next one. */
  function SkipsNext(zone: Zone): Schedule {
    Schedule(2 * HOUR, 60, Hourly, zone, None, [HOUR], Scheduled, false)
  }

  /** An update onto a skipped occurrence is accepted, and the occurrence then runs. */
  lemma SkippedOccurrenceRuns(zone: Zone)
    ensures var row, moved := SkipsNext(zone), SkipsNext(zone).(scheduledAt := HOUR);
            var update, tick := UpdateStep("a", moved, None), TickStep(HOUR, "a", "x", true);
            && Inv(Lone(row)) && AllObey(Lone(row).store, SkipList) && Enabled(Lone(row), update)
            && Do(Lone(row), update) == Lone(moved) && IsSkipped(HOUR, moved.skipped)
            && Enabled(Lone(moved), tick)
            && Do(Lone(moved), tick).store.execs == [Execution("x", "a", InProgress, HOUR)]
  {
    var row, moved := SkipsNext(zone), SkipsNext(zone).(scheduledAt := HOUR);
    assert HOUR in moved.skipped;
    LoneIsSound(row);
    LoneMoves(row, moved);
    LoneRuns(moved, HOUR);
  }

  /** An hourly row whose end date lies before its first time. */
  function EndsBefore(zone: Zone): Schedule {
    Schedule(0, 60, Hourly, zone, Some(-HOUR), [], Scheduled, false)
  }

  /** A schedule is accepted with an end date before its first time, which then runs. */
  lemma PastEndRuns(zone: Zone)
    ensures var row := EndsBefore(zone);
            var create, tick := CreateStep("a", row, None), TickStep(0, "a", "x", true);
            && Enabled(EMPTY, create) && Do(EMPTY, create) == Lone(row)
            && Enabled(Lone(row), tick) && Do(Lone(row), tick).store.execs == [Execution("x", "a", InProgress, 0)]
  {
    LoneArrives(EndsBefore(zone));
    LoneRuns(EndsBefore(zone), 0);
  }
}
