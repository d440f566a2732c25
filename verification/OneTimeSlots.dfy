// One-time schedules that are live keep clear of each other.
module OneTimeSlots {
  import opened Instants
  import opened Recurrence
  import opened Schedules
  import opened Overlap
  import opened Recovery
  import opened SchedulerModel
  import opened SchedulerEffects
  import opened SchedulerSafety

  ghost predicate OneTimeDisjoint(st: Store) {
    forall a, b :: a in st.schedules && b in st.schedules && a != b
      && st.schedules[a].kind.Once? && st.schedules[b].kind.Once? && Live(st.schedules[a]) && Live(st.schedules[b])
      ==> !Overlaps(SlotOf(st.schedules[a]), SlotOf(st.schedules[b]))
  }

  /** No one-time row of `after` is live that was not live before, for the same slot. */
  ghost predicate Shrinks(before: Store, after: Store) {
    forall id :: id in after.schedules ==>
      && id in before.schedules
      && after.schedules[id].kind == before.schedules[id].kind
      && (after.schedules[id].kind.Once? ==>
            && SlotOf(after.schedules[id]) == SlotOf(before.schedules[id])
            && (Live(after.schedules[id]) ==> Live(before.schedules[id])))
  }

  predicate Harmless(st: Store, w: Write) {
    match w
    case SetStatus(id, status) =>
      id in st.schedules ==>
        !st.schedules[id].kind.Once? || status.Completed? || status.Failed? || Live(st.schedules[id])
    case SetNextRun(id, _, _) => id in st.schedules ==> !st.schedules[id].kind.Once?
    case SetPaused(_, paused) => paused
    case PutSchedule(id, row) => id in st.schedules && !row.kind.Once? && row.kind == st.schedules[id].kind
    case _ => true
  }

  lemma {:induction false} HarmlessShrinks(st: Store, writes: seq<Write>)
    requires forall i :: 0 <= i < |writes| ==> Harmless(st, writes[i])
    ensures Shrinks(st, ApplyAll(st, writes))
  {
    if writes != [] {
      var n := |writes| - 1;
      HarmlessShrinks(st, writes[..n]);
      assert Harmless(st, writes[n]);
      var mid := ApplyAll(st, writes[..n]);
      assert ApplyAll(st, writes) == Apply(mid, writes[n]);
    }
  }

  lemma AdvanceHarmless(st: Store, mid: Store, id: Id, failed: bool)
    requires id in mid.schedules ==> id in st.schedules && mid.schedules[id].kind == st.schedules[id].kind
    ensures forall i :: 0 <= i < |AdvanceWrites(mid, id, failed)| ==> Harmless(st, AdvanceWrites(mid, id, failed)[i])
  {
  }

  /** Steps that bring no new live slot into the table. */
  predicate AddsNothing(step: Step) {
    !step.CreateStep? && !step.UpdateStep? && (step.PauseStep? ==> step.paused)
  }

  lemma WritesHarmless(sys: Sys, step: Step)
    requires Enabled(sys, step) && AddsNothing(step)
    ensures forall i :: 0 <= i < |Writes(sys, step)| ==> Harmless(sys.store, Writes(sys, step)[i])
  {
    var st := sys.store;
    match step {
      case TickStep(now, id, execId, started) =>
        if !started {
          FailedStartEffect(st, id, execId);
          AdvanceHarmless(st, FailedStartStore(st, id, execId), id, true);
        }
      case CompleteStep(execId, ok) =>
        AdvanceHarmless(st, Apply(st, Finish(execId, ok)), sys.callbacks[execId], !ok);
      case DeleteStep(id, scope, requested, now) =>
      case PauseStep(id, paused) =>
    }
  }

  /** What a resume has to look at and does not: a one-time schedule that becomes live
      again overlaps no other live one-time slot. */
  predicate ResumeFits(st: Store, id: Id)
    requires id in st.schedules
  {
    var row := st.schedules[id];
    row.kind.Once? && (row.status.Scheduled? || row.status.Running?) ==>
      forall other | other in st.schedules ::
        other != id && st.schedules[other].kind.Once? && Live(st.schedules[other])
        ==> !Overlaps(SlotOf(row), SlotOf(st.schedules[other]))
  }

  predicate Fits(sys: Sys, step: Step)
    requires Enabled(sys, step)
  {
    step.PauseStep? && !step.paused ==> ResumeFits(sys.store, step.id)
  }

  /** A resume keeps one-time schedules disjoint if and only if it fits. */
  lemma ResumeKeepsDisjointIff(sys: Sys, step: Step)
    requires OneTimeDisjoint(sys.store) && step.PauseStep? && !step.paused && Enabled(sys, step)
    ensures OneTimeDisjoint(Do(sys, step).store) <==> ResumeFits(sys.store, step.id)
  {
    EditEffect(sys, step);
    ResumedDisjointIff(sys.store, step.id);
  }

  lemma ResumedDisjointIff(st: Store, id: Id)
    requires OneTimeDisjoint(st) && id in st.schedules
    ensures OneTimeDisjoint(Apply(st, SetPaused(id, false))) <==> ResumeFits(st, id)
  {
    var after := Apply(st, SetPaused(id, false));
    assert after.schedules[id] == st.schedules[id].(paused := false);
    if !ResumeFits(st, id) {
      var other :| other in st.schedules && other != id && st.schedules[other].kind.Once? && Live(st.schedules[other])
                   && Overlaps(SlotOf(st.schedules[id]), SlotOf(st.schedules[other]));
      assert after.schedules[other] == st.schedules[other];
    }
  }

  /** One-time schedules that are live and not paused never overlap: creations and
      updates are checked, a resume has to fit, and nothing else adds a slot - not even
      a crash in the middle of a step. */
  lemma StepKeepsDisjoint(sys: Sys, step: Step, k: nat)
    requires OneTimeDisjoint(sys.store) && AllWhole(sys.store) && Enabled(sys, step) && Fits(sys, step)
    requires k <= |Writes(sys, step)|
    ensures OneTimeDisjoint(CrashStore(sys, step, k))
  {
    var prefix := Writes(sys, step)[..k];
    if AddsNothing(step) {
      WritesHarmless(sys, step);
      HarmlessShrinks(sys.store, prefix);
    } else if k == 0 {
      assert prefix == [];
    } else {
      CheckedEditDisjoint(sys, step);
      assert prefix == [Writes(sys, step)[0]];
      ApplyOne(sys.store, prefix[0]);
    }
  }

  /** Stored slots begin and end on whole seconds, so rounding a slot that is clear of one keeps it clear. */
  lemma RoundedStaysClear(stored: Schedule, row: Schedule)
    requires WholeRow(stored) && !Overlaps(SlotOf(stored), SlotOf(row))
    ensures !Overlaps(SlotOf(stored), SlotOf(Stored(row)))
  {
    RoundedAround(row.scheduledAt, SlotOf(stored).end);
    RoundedAround(row.scheduledAt, stored.scheduledAt - Seconds(row.durationS));
  }

  lemma PutDisjoint(st: Store, id: Id, row: Schedule)
    requires OneTimeDisjoint(st) && AllWhole(st)
    requires forall other :: other in st.schedules && other != id && Live(st.schedules[other])
               ==> !Overlaps(SlotOf(st.schedules[other]), SlotOf(row))
    ensures OneTimeDisjoint(Apply(st, PutSchedule(id, Stored(row))))
  {
    forall other | other in st.schedules && other != id && Live(st.schedules[other])
      ensures !Overlaps(SlotOf(st.schedules[other]), SlotOf(Stored(row)))
    {
      RoundedStaysClear(st.schedules[other], row);
    }
    PutClear(st, id, Stored(row));
  }

  lemma PutClear(st: Store, id: Id, row: Schedule)
    requires OneTimeDisjoint(st)
    requires forall other :: other in st.schedules && other != id && Live(st.schedules[other])
               ==> !Overlaps(SlotOf(st.schedules[other]), SlotOf(row))
    ensures OneTimeDisjoint(Apply(st, PutSchedule(id, row)))
  {
  }

  /** The one write of a checked create, update or resume. */
  lemma CheckedEditDisjoint(sys: Sys, step: Step)
    requires OneTimeDisjoint(sys.store) && AllWhole(sys.store) && Enabled(sys, step)
    requires !AddsNothing(step) && Fits(sys, step)
    ensures |Writes(sys, step)| == 1 && OneTimeDisjoint(Apply(sys.store, Writes(sys, step)[0]))
  {
    match step {
      case CreateStep(id, row, _) => PutDisjoint(sys.store, id, row);
      case UpdateStep(id, row, _) => PutDisjoint(sys.store, id, row);
      case PauseStep(id, paused) => ResumedDisjointIff(sys.store, id);
    }
  }

  lemma RecoverWritesHarmless(st: Store, recoveryAt: Instant, order: seq<Id>)
    ensures forall i :: 0 <= i < |RecoverWrites(st, recoveryAt, order)| ==>
              Harmless(st, RecoverWrites(st, recoveryAt, order)[i])
  {
    RowRecoveriesHarmless(st, recoveryAt, order);
  }

  lemma {:induction false} RowRecoveriesHarmless(st: Store, recoveryAt: Instant, order: seq<Id>)
    ensures forall i :: 0 <= i < |RowRecoveries(st, recoveryAt, order)| ==>
              Harmless(st, RowRecoveries(st, recoveryAt, order)[i])
  {
    if order != [] {
      RowRecoveriesHarmless(st, recoveryAt, order[..|order| - 1]);
    }
  }

  /** Neither does a restart, cut off after any of its writes. */
  lemma CutRecoveryDisjoint(st: Store, recoveryAt: Instant, order: seq<Id>, k: nat)
    requires OneTimeDisjoint(st)
    ensures OneTimeDisjoint(CutRecovery(st, recoveryAt, order, k))
  {
    var writes := RecoverWrites(st, recoveryAt, order);
    RecoverWritesHarmless(st, recoveryAt, order);
    HarmlessShrinks(st, if k <= |writes| then writes[..k] else writes);
  }

  lemma RecoverKeepsDisjoint(st: Store, recoveryAt: Instant)
    requires OneTimeDisjoint(st)
    ensures OneTimeDisjoint(Recover(st, recoveryAt).store)
  {
    var after := Recover(st, recoveryAt).store;
    forall id | id in after.schedules
      ensures after.schedules[id].kind == st.schedules[id].kind
      ensures after.schedules[id].kind.Once? ==> SlotOf(after.schedules[id]) == SlotOf(st.schedules[id])
      ensures after.schedules[id].kind.Once? && Live(after.schedules[id]) ==> Live(st.schedules[id])
    {
      NormalizedRow(ResetStale(st.schedules[id]), recoveryAt);
    }
    assert Shrinks(st, after);
  }

  /** Resuming is not checked: a one-time schedule created while another one was
      paused overlaps it after the resume. */
  lemma ResumeOverlaps(zone: Zone)
    ensures var row := Schedule(0, 60, Once, zone, None, [], Scheduled, false);
            var sys := Sys(Store(map["a" := row.(paused := true), "b" := row], []), map[]);
            OneTimeDisjoint(sys.store) && !OneTimeDisjoint(Do(sys, PauseStep("a", false)).store)
  {
    var row := Schedule(0, 60, Once, zone, None, [], Scheduled, false);
    var sys := Sys(Store(map["a" := row.(paused := true), "b" := row], []), map[]);
    assert "a" != "b" by { assert "a"[0] == 'a' && "b"[0] == 'b'; }
    EditEffect(sys, PauseStep("a", false));
    var after := Do(sys, PauseStep("a", false)).store;
    assert after.schedules["a"] == row && after.schedules["b"] == row;
    assert Overlaps(SlotOf(after.schedules["a"]), SlotOf(after.schedules["b"]));
  }
}
