// Runs in which the controller may die in any step, after any of its store writes, and
// again in any of the restarts that follow.
module CrashRuns {
  import opened Instants
  import opened Schedules
  import opened SchedulerModel
  import opened SchedulerSafety
  import opened CrashRecovery
  import opened OneTimeSlots

  /** A restart that dies after some of its writes. */
  datatype Restart = Restart(at: Instant, order: seq<Id>, writes: nat)

  datatype Event =
    | Happens(step: Step)
    | Crash(step: Step, writes: nat, restarts: seq<Restart>, recoveryAt: Instant)

  predicate Possible(sys: Sys, event: Event) {
    && Enabled(sys, event.step)
    && (event.Crash? ==>
          && event.writes <= |Writes(sys, event.step)|
          && forall r | r in event.restarts :: ListsOnce(r.order))
  }

  /** The store after one cut-off restart upon the other. */
  function Interrupted(st: Store, restarts: seq<Restart>): Store {
    if restarts == [] then st
    else
      var last := restarts[|restarts| - 1];
      CutRecovery(Interrupted(st, restarts[..|restarts| - 1]), last.at, last.order, last.writes)
  }

  function After(sys: Sys, event: Event): Sys
    requires Possible(sys, event)
  {
    match event
    case Happens(step) => Do(sys, step)
    case Crash(step, writes, restarts, recoveryAt) =>
      Recover(Interrupted(CrashStore(sys, step, writes), restarts), recoveryAt)
  }

  ghost predicate Runs(sys: Sys, events: seq<Event>, final: Sys)
    decreases |events|
  {
    if events == [] then sys == final
    else Possible(sys, events[0]) && Runs(After(sys, events[0]), events[1..], final)
  }

  lemma {:induction false} InterruptedGood(st: Store, restarts: seq<Restart>, rule: Rule)
    requires Good(st, rule) && forall r :: r in restarts ==> ListsOnce(r.order)
    ensures Good(Interrupted(st, restarts), rule)
  {
    if restarts != [] {
      var before, last := restarts[..|restarts| - 1], restarts[|restarts| - 1];
      assert forall r :: r in before ==> r in restarts;
      assert last in restarts;
      InterruptedGood(st, before, rule);
      CutRecoveryGood(Interrupted(st, before), last.at, last.order, last.writes, rule);
    }
  }

  lemma EventKeepsInv(sys: Sys, event: Event)
    requires Inv(sys) && Possible(sys, event)
    ensures Inv(After(sys, event))
    ensures event.Crash? ==> FreshStart(After(sys, event), event.recoveryAt)
  {
    match event {
      case Happens(step) => StepKeepsInv(sys, step);
      case Crash(step, k, restarts, recoveryAt) =>
        CrashStoreGood(sys, step, k, NoRule);
        InterruptedGood(CrashStore(sys, step, k), restarts, NoRule);
        RecoverRestores(Interrupted(CrashStore(sys, step, k), restarts), recoveryAt);
    }
  }

  /** However steps, crashes and restarts follow each other, running schedules,
      running executions and pending callbacks stay matched one to one. */
  lemma {:induction false} RunsKeepInv(sys: Sys, events: seq<Event>, final: Sys)
    requires Inv(sys) && Runs(sys, events, final)
    ensures Inv(final)
    decreases |events|
  {
    if events != [] {
      EventKeepsInv(sys, events[0]);
      RunsKeepInv(After(sys, events[0]), events[1..], final);
    }
  }

  // ------------------------------------------------ the rules over runs

  ghost predicate GuardedRun(sys: Sys, events: seq<Event>, rule: Rule)
    decreases |events|
  {
    events == []
    || (Possible(sys, events[0]) && Guarded(sys, events[0].step, rule)
        && GuardedRun(After(sys, events[0]), events[1..], rule))
  }

  lemma EventObeys(sys: Sys, event: Event, rule: Rule)
    requires Inv(sys) && AllObey(sys.store, rule) && Possible(sys, event) && Guarded(sys, event.step, rule)
    ensures AllObey(After(sys, event).store, rule)
  {
    match event {
      case Happens(step) => StepObeysIff(sys, step, rule);
      case Crash(step, k, restarts, recoveryAt) =>
        CrashStoreGood(sys, step, k, rule);
        InterruptedGood(CrashStore(sys, step, k), restarts, rule);
        RecoverObeys(Interrupted(CrashStore(sys, step, k), restarts), recoveryAt, rule);
    }
  }

  /** As long as every step is guarded, no row that is up for execution ever stands on
      a skipped occurrence, or past its end date. */
  lemma {:induction false} RunsObey(sys: Sys, events: seq<Event>, final: Sys, rule: Rule)
    requires Inv(sys) && AllObey(sys.store, rule) && Runs(sys, events, final) && GuardedRun(sys, events, rule)
    ensures AllObey(final.store, rule)
    decreases |events|
  {
    if events != [] {
      EventKeepsInv(sys, events[0]);
      EventObeys(sys, events[0], rule);
      RunsObey(After(sys, events[0]), events[1..], final, rule);
    }
  }

  // ------------------------------------------------ one-time slots over runs

  ghost predicate FittingRun(sys: Sys, events: seq<Event>)
    decreases |events|
  {
    events == []
    || (Possible(sys, events[0]) && Fits(sys, events[0].step) && FittingRun(After(sys, events[0]), events[1..]))
  }

  lemma {:induction false} InterruptedDisjoint(st: Store, restarts: seq<Restart>)
    requires OneTimeDisjoint(st)
    ensures OneTimeDisjoint(Interrupted(st, restarts))
  {
    if restarts != [] {
      var before, last := restarts[..|restarts| - 1], restarts[|restarts| - 1];
      InterruptedDisjoint(st, before);
      CutRecoveryDisjoint(Interrupted(st, before), last.at, last.order, last.writes);
    }
  }

  lemma EventKeepsDisjoint(sys: Sys, event: Event)
    requires Inv(sys) && OneTimeDisjoint(sys.store) && Possible(sys, event) && Fits(sys, event.step)
    ensures OneTimeDisjoint(After(sys, event).store)
  {
    var writes := Writes(sys, event.step);
    assert writes[..|writes|] == writes;
    match event {
      case Happens(step) => StepKeepsDisjoint(sys, step, |writes|);
      case Crash(step, k, restarts, recoveryAt) =>
        StepKeepsDisjoint(sys, step, k);
        InterruptedDisjoint(CrashStore(sys, step, k), restarts);
        RecoverKeepsDisjoint(Interrupted(CrashStore(sys, step, k), restarts), recoveryAt);
    }
  }

  /** In every run, with any crashes and restarts, whose resumes fit, live one-time
      schedules stay pairwise disjoint. */
  lemma {:induction false} RunsKeepDisjoint(sys: Sys, events: seq<Event>, final: Sys)
    requires Inv(sys) && OneTimeDisjoint(sys.store) && Runs(sys, events, final) && FittingRun(sys, events)
    ensures OneTimeDisjoint(final.store)
    decreases |events|
  {
    if events != [] {
      EventKeepsInv(sys, events[0]);
      EventKeepsDisjoint(sys, events[0]);
      RunsKeepDisjoint(After(sys, events[0]), events[1..], final);
    }
  }

  /** All of it holds of a controller that has just been set up. */
  lemma EmptyIsSound(events: seq<Event>, final: Sys)
    requires Runs(EMPTY, events, final)
    ensures Inv(final)
    ensures forall rule :: GuardedRun(EMPTY, events, rule) ==> AllObey(final.store, rule)
    ensures FittingRun(EMPTY, events) ==> OneTimeDisjoint(final.store)
  {
    EmptyInv();
    RunsKeepInv(EMPTY, events, final);
    forall rule | GuardedRun(EMPTY, events, rule) ensures AllObey(final.store, rule) {
      RunsObey(EMPTY, events, final, rule);
    }
    if FittingRun(EMPTY, events) {
      RunsKeepDisjoint(EMPTY, events, final);
    }
  }
}
