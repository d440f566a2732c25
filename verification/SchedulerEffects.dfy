// What each step leaves in the store, write by write composed into one state.
module SchedulerEffects {
  import opened Instants
  import opened Recurrence
  import opened Schedules
  import opened Recovery
  import opened ScheduleDelete
  import opened SchedulerModel

  lemma {:induction false} ApplyConcat(st: Store, a: seq<Write>, b: seq<Write>)
    ensures ApplyAll(st, a + b) == ApplyAll(ApplyAll(st, a), b)
  {
    if b == [] {
      assert a + b == a;
    } else {
      ApplyConcat(st, a, b[..|b| - 1]);
      assert (a + b)[..|a + b| - 1] == a + b[..|b| - 1];
    }
  }

  lemma ApplyLast(st: Store, writes: seq<Write>, w: Write)
    ensures ApplyAll(st, writes + [w]) == Apply(ApplyAll(st, writes), w)
  {
    assert (writes + [w])[..|writes|] == writes;
  }

  lemma ApplyOne(st: Store, w: Write)
    ensures ApplyAll(st, [w]) == Apply(st, w)
  {
    assert [w][..0] == [];
    assert ApplyAll(st, []) == st;
  }

  lemma ApplyTwo(st: Store, v: Write, w: Write)
    ensures ApplyAll(st, [v, w]) == Apply(Apply(st, v), w)
  {
    assert [v, w][..1] == [v];
    ApplyOne(st, v);
  }

  lemma ApplyThree(st: Store, u: Write, v: Write, w: Write)
    ensures ApplyAll(st, [u, v, w]) == Apply(Apply(Apply(st, u), v), w)
  {
    assert [u, v] + [w] == [u, v, w];
    ApplyLast(st, [u, v], w);
    ApplyTwo(st, u, v);
  }

  /** The row after an execution of it. */
  function AdvancedRow(st: Store, id: Id, failed: bool): Schedule
    requires id in st.schedules
  {
    var row := st.schedules[id];
    if row.kind.Once? then row.(status := if failed then Failed else Completed)
    else if failed && FAIL_LIMIT <= ConsecutiveFailures(st.execs, id) then row.(paused := true, status := Scheduled)
    else
      match NextIncluded(row.scheduledAt, SeriesOf(row))
      case Fail => row.(status := Failed)
      case NoMore => row.(status := Completed)
      case At(t) => row.(scheduledAt := t, status := Scheduled)
  }

  lemma AdvancedWhole(st: Store, id: Id, failed: bool)
    requires id in st.schedules && WholeRow(st.schedules[id])
    ensures WholeRow(AdvancedRow(st, id, failed))
  {
    var row := st.schedules[id];
    if NextIncluded(row.scheduledAt, SeriesOf(row)).At? {
      NextWhole(row.scheduledAt, SeriesOf(row), MAX_WALK);
    }
  }

  lemma AdvanceEffect(st: Store, id: Id, failed: bool)
    requires id in st.schedules
    ensures ApplyAll(st, AdvanceWrites(st, id, failed))
         == st.(schedules := st.schedules[id := AdvancedRow(st, id, failed)])
  {
    var writes := AdvanceWrites(st, id, failed);
    if |writes| == 1 {
      ApplyOne(st, writes[0]);
      assert writes == [writes[0]];
    } else {
      ApplyTwo(st, writes[0], writes[1]);
      assert writes == [writes[0], writes[1]];
    }
  }

  function StartedExec(st: Store, id: Id, execId: Id, status: ExecStatus): Execution
    requires id in st.schedules
  {
    Execution(execId, id, status, st.schedules[id].scheduledAt)
  }

  function MarkedRunning(st: Store, id: Id): map<Id, Schedule>
    requires id in st.schedules
  {
    st.schedules[id := st.schedules[id].(status := Running)]
  }

  lemma FreshExecSet(execs: seq<Execution>, exec: Execution, status: ExecStatus)
    requires forall x :: x in execs ==> x.id != exec.id
    ensures SetExecStatus(execs + [exec], exec.id, status) == execs + [exec.(status := status)]
  {
    assert forall i :: 0 <= i < |execs| ==> execs[i] in execs;
  }

  lemma TickStartedEffect(sys: Sys, now: Instant, id: Id, execId: Id)
    requires Enabled(sys, TickStep(now, id, execId, true))
    ensures Do(sys, TickStep(now, id, execId, true)).store
            == Store(MarkedRunning(sys.store, id), sys.store.execs + [StartedExec(sys.store, id, execId, InProgress)])
  {
    var st := sys.store;
    var begin := BeginWrites(st, id, execId);
    assert begin + [SetExec(execId, InProgress)] == [begin[0], begin[1], SetExec(execId, InProgress)];
    ApplyThree(st, begin[0], begin[1], SetExec(execId, InProgress));
    FreshExecSet(st.execs, StartedExec(st, id, execId, InProgress), InProgress);
  }

  /** The store between a failed start and the advance that follows it. */
  function FailedStartStore(st: Store, id: Id, execId: Id): Store
    requires id in st.schedules
  {
    Store(MarkedRunning(st, id), st.execs + [StartedExec(st, id, execId, Errored)])
  }

  lemma FailedStartEffect(st: Store, id: Id, execId: Id)
    requires id in st.schedules && NewExecId(st, execId)
    ensures ApplyAll(st, FailedStart(st, id, execId)) == FailedStartStore(st, id, execId)
  {
    var begin := BeginWrites(st, id, execId);
    assert FailedStart(st, id, execId) == [begin[0], begin[1], SetExec(execId, Errored)];
    ApplyThree(st, begin[0], begin[1], SetExec(execId, Errored));
    FreshExecSet(st.execs, StartedExec(st, id, execId, InProgress), Errored);
  }

  lemma TickFailedEffect(sys: Sys, now: Instant, id: Id, execId: Id)
    requires Enabled(sys, TickStep(now, id, execId, false))
    ensures var failed := FailedStartStore(sys.store, id, execId);
            Do(sys, TickStep(now, id, execId, false)).store
            == failed.(schedules := failed.schedules[id := AdvancedRow(failed, id, true)])
  {
    var st := sys.store;
    var failed := FailedStartStore(st, id, execId);
    FailedStartEffect(st, id, execId);
    ApplyConcat(st, FailedStart(st, id, execId), AdvanceWrites(failed, id, true));
    AdvanceEffect(failed, id, true);
  }

  lemma CompleteEffect(sys: Sys, execId: Id, ok: bool)
    requires Enabled(sys, CompleteStep(execId, ok))
    requires sys.callbacks[execId] in sys.store.schedules
    ensures var done := Apply(sys.store, Finish(execId, ok));
            var id := sys.callbacks[execId];
            Do(sys, CompleteStep(execId, ok)).store
            == done.(schedules := done.schedules[id := AdvancedRow(done, id, !ok)])
  {
    var st := sys.store;
    var id := sys.callbacks[execId];
    var done := Apply(st, Finish(execId, ok));
    ApplyConcat(st, [Finish(execId, ok)], AdvanceWrites(done, id, !ok));
    ApplyOne(st, Finish(execId, ok));
    AdvanceEffect(done, id, !ok);
  }

  /** Every other step is at most one write. */
  lemma EditEffect(sys: Sys, step: Step)
    requires Enabled(sys, step) && !step.TickStep? && !step.CompleteStep?
    ensures |Writes(sys, step)| <= 1
    ensures Do(sys, step).store == if Writes(sys, step) == [] then sys.store else Apply(sys.store, Writes(sys, step)[0])
  {
    var writes := Writes(sys, step);
    if writes != [] {
      assert writes == [writes[0]];
      ApplyOne(sys.store, writes[0]);
    }
  }

  // ------------------------------------------------ dropping a schedule's executions

  lemma {:induction false} DropExecsMembers(execs: seq<Execution>, id: Id, x: Execution)
    ensures x in DropExecs(execs, id) <==> x in execs && x.schedule != id
  {
    if execs != [] {
      var init := execs[..|execs| - 1];
      DropExecsMembers(init, id, x);
      assert execs == init + [execs[|execs| - 1]];
    }
  }

  /** The cascade keeps rows in order: it embeds into the old table, index by index. */
  lemma {:induction false} DropExecsEmbeds(execs: seq<Execution>, id: Id, i: nat, j: nat) returns (k: nat, l: nat)
    requires i < j < |DropExecs(execs, id)|
    ensures k < l < |execs| && DropExecs(execs, id)[i] == execs[k] && DropExecs(execs, id)[j] == execs[l]
  {
    var init, last := execs[..|execs| - 1], execs[|execs| - 1];
    var kept := DropExecs(init, id);
    if j < |kept| {
      k, l := DropExecsEmbeds(init, id, i, j);
    } else {
      DropExecsMembers(init, id, kept[i]);
      k :| 0 <= k < |init| && init[k] == kept[i];
      l := |execs| - 1;
    }
  }

  lemma {:induction false} DropExecsStreak(execs: seq<Execution>, id: Id, other: Id)
    requires other != id
    ensures Streak(DropExecs(execs, id), other) == Streak(execs, other)
  {
    if execs != [] {
      var init, last := execs[..|execs| - 1], execs[|execs| - 1];
      DropExecsStreak(init, id, other);
      if last.schedule != id {
        assert DropExecs(execs, id)[..|DropExecs(execs, id)| - 1] == DropExecs(init, id);
      } else {
        assert DropExecs(execs, id) == DropExecs(init, id);
      }
    }
  }

  lemma {:induction false} CountsExecs(execs: seq<Execution>, id: Id)
    ensures CountExecs(execs, id) == 0 <==> forall x :: x in execs ==> x.schedule != id
  {
    if execs != [] {
      CountsExecs(execs[..|execs| - 1], id);
      assert execs == execs[..|execs| - 1] + [execs[|execs| - 1]];
    }
  }
}
