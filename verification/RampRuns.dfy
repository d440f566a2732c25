// The ramping manager as a step machine over timed events, and what every run of it does, told from the
// event log alone.
module RampRuns {
  import opened Instants
  import opened Ramping

  datatype Event =
    | Start(stages: seq<Stage>)
    | Pause
    | Resume(accepted: bool)
    | Override(vus: int)
    | Stop
    | Tick

  datatype Timed = Timed(at: Instant, event: Event)

  /** The manager's fields; `live` says whether a run loop holds a context that is not cancelled. */
  datatype Ramp = Ramp(stages: seq<Stage>, elapsed: int, startTime: Instant, paused: bool,
                       manualVus: int, overrideStage: int, live: bool)

  /** What a step asks of the orchestrator. */
  datatype Effect = Quiet | Scale(vus: int) | Done

  const IDLE := Ramp([], 0, 0, false, 0, -1, false)

  /** The elapsed time the manager computes at `now` while it is not paused. */
  function Clock(s: Ramp, now: Instant): int {
    s.elapsed + (now - s.startTime)
  }

  function Follow(s: Ramp, plan: Plan): (Ramp, Effect) {
    if plan.done then (s.(live := false), Done)
    else if s.manualVus > 0 && plan.stage == s.overrideStage then (s, Scale(s.manualVus))
    else if s.manualVus > 0 then (s.(manualVus := 0, overrideStage := -1), Scale(plan.vus))
    else (s, Scale(plan.vus))
  }

  function Ticked(s: Ramp, now: Instant): (Ramp, Effect) {
    Follow(s, PlanAt(Parsed(s.stages), Clock(s, now)))
  }

  function Step(s: Ramp, now: Instant, e: Event): (Ramp, Effect) {
    match e
    case Start(stages) => (Ramp(stages, 0, now, false, 0, -1, true), Quiet)
    case Pause =>
      if s.paused then (s, Quiet)
      else (s.(elapsed := if s.stages != [] then Clock(s, now) else s.elapsed, paused := true, live := false), Quiet)
    case Resume(accepted) =>
      if !accepted || !s.paused then (s, Quiet)
      else if s.stages == [] then (s.(paused := false), Quiet)
      else (s.(paused := false, startTime := now, live := true), Quiet)
    case Override(vus) =>
      if s.stages == [] then (s, Quiet)
      else
        var elapsed := if s.paused then s.elapsed else Clock(s, now);
        (s.(manualVus := vus, overrideStage := PlanAt(Parsed(s.stages), elapsed).stage), Quiet)
    case Stop => (s.(live := false), Quiet)
    case Tick => if s.live then Ticked(s, now) else (s, Quiet)
  }

  function Run(log: seq<Timed>): Ramp {
    if log == [] then IDLE
    else
      var last := log[|log| - 1];
      Step(Run(log[..|log| - 1]), last.at, last.event).0
  }

  // ------------------------------------------------ the log, without the manager's fields

  function StagesOf(log: seq<Timed>): seq<Stage> {
    if log == [] then []
    else
      var last := log[|log| - 1];
      if last.event.Start? then last.event.stages else StagesOf(log[..|log| - 1])
  }

  predicate PausedAfter(log: seq<Timed>) {
    if log == [] then false
    else
      match log[|log| - 1].event
      case Start(_) => false
      case Pause => true
      case Resume(accepted) => !accepted && PausedAfter(log[..|log| - 1])
      case _ => PausedAfter(log[..|log| - 1])
  }

  /** The time up to `now`, since the last start, during which the log was not paused. */
  function Unpaused(log: seq<Timed>, now: Instant): int {
    if log == [] then 0
    else
      var last := log[|log| - 1];
      (if last.event.Start? then 0 else Unpaused(log[..|log| - 1], last.at))
      + (if PausedAfter(log) then 0 else now - last.at)
  }

  /** The last manual override since the last start, with the stage its moment falls in. */
  function LastOverride(log: seq<Timed>): Option<(int, int)> {
    if log == [] then None
    else
      var before, last := log[..|log| - 1], log[|log| - 1];
      match last.event
      case Start(_) => None
      case Override(vus) =>
        if StagesOf(before) == [] then LastOverride(before)
        else Some((vus, PlanAt(Parsed(StagesOf(before)), Unpaused(before, last.at)).stage))
      case _ => LastOverride(before)
  }

  /** What a tick at `now` has to do: the schedule at the unpaused time, except that a positive override holds
      throughout the stage it was made in. No override is ever cleared here. */
  function Prescribed(log: seq<Timed>, now: Instant): Effect {
    var plan := PlanAt(Parsed(StagesOf(log)), Unpaused(log, now));
    if plan.done then Done
    else match LastOverride(log)
      case Some(o) => if o.0 > 0 && o.1 == plan.stage then Scale(o.0) else Scale(plan.vus)
      case None => Scale(plan.vus)
  }

  predicate Ordered(log: seq<Timed>) {
    forall i, j :: 0 <= i < j < |log| ==> log[i].at <= log[j].at
  }

  predicate NotBefore(log: seq<Timed>, now: Instant) {
    log == [] || log[|log| - 1].at <= now
  }

  // ------------------------------------------------ the clock

  /** The fields account for the unpaused time exactly, through any number of pauses and resumes. */
  predicate Tracks(s: Ramp, log: seq<Timed>) {
    && s.stages == StagesOf(log)
    && s.paused == PausedAfter(log)
    && (s.live ==> !s.paused && log != [])
    && (s.live || (s.stages != [] && !s.paused) ==> Clock(s, 0) == Unpaused(log, 0))
    && (s.stages != [] && s.paused ==> s.elapsed == Unpaused(log, 0))
  }

  lemma UnpausedMoves(log: seq<Timed>, t: Instant, u: Instant)
    requires log != []
    ensures Unpaused(log, u) == Unpaused(log, t) + (if PausedAfter(log) then 0 else u - t)
  {
  }

  lemma TracksStep(s: Ramp, before: seq<Timed>, last: Timed)
    requires Tracks(s, before)
    ensures Tracks(Step(s, last.at, last.event).0, before + [last])
  {
    var log := before + [last];
    assert log[..|log| - 1] == before && log[|log| - 1] == last;
    if before != [] {
      UnpausedMoves(before, 0, last.at);
    }
    match last.event
    case Start(_) =>
    case Pause =>
    case Resume(_) =>
    case Override(_) =>
    case Stop =>
    case Tick =>
      assert Ticked(s, last.at).0.elapsed == s.elapsed && Ticked(s, last.at).0.startTime == s.startTime;
  }

  lemma {:induction false} RunTracks(log: seq<Timed>)
    ensures Tracks(Run(log), log)
  {
    if log != [] {
      var before, last := log[..|log| - 1], log[|log| - 1];
      RunTracks(before);
      TracksStep(Run(before), before, last);
      assert before + [last] == log;
    }
  }

  /** In every run the elapsed time a live tick uses is the total unpaused time since the start. */
  lemma ElapsedConserved(log: seq<Timed>, now: Instant)
    requires Run(log).live
    ensures Clock(Run(log), now) == Unpaused(log, now)
  {
    RunTracks(log);
    UnpausedMoves(log, 0, now);
  }

  /** A live tick reports the ramp as done exactly when the unpaused time covers all stages. */
  lemma DoneOnlyAfterSchedule(log: seq<Timed>, now: Instant)
    requires Run(log).live && Ordered(log) && NotBefore(log, now) && NonNegative(Parsed(StagesOf(log)))
    ensures Step(Run(log), now, Tick).1 == Done <==> Unpaused(log, now) >= Total(Parsed(StagesOf(log)))
  {
    ElapsedConserved(log, now);
    RunTracks(log);
    UnpausedNonNegative(log, now);
    PlanCoversSchedule(Parsed(StagesOf(log)), Unpaused(log, now));
  }

  lemma {:induction false} UnpausedNonNegative(log: seq<Timed>, now: Instant)
    requires Ordered(log) && NotBefore(log, now)
    ensures Unpaused(log, now) >= 0
  {
    if log != [] {
      UnpausedNonNegative(log[..|log| - 1], log[|log| - 1].at);
    }
  }

  // ------------------------------------------------ manual overrides

  /** The manager's override is the log's, or it was cleared and the ramp has left its stage for good. */
  predicate OverrideTracks(s: Ramp, log: seq<Timed>, now: Instant) {
    match LastOverride(log)
    case None => s.manualVus == 0
    case Some(o) =>
      || (s.manualVus == o.0 && s.overrideStage == o.1)
      || (s.manualVus == 0 && o.1 < PlanAt(Parsed(s.stages), Unpaused(log, now)).stage)
  }

  /** The override in force was made in the current stage or an earlier one. */
  predicate OverrideBehind(s: Ramp, log: seq<Timed>, now: Instant) {
    LastOverride(log).Some? ==> LastOverride(log).value.1 <= PlanAt(Parsed(s.stages), Unpaused(log, now)).stage
  }

  lemma TracksLater(s: Ramp, log: seq<Timed>, now: Instant, later: Instant)
    requires now <= later && OverrideTracks(s, log, now) && OverrideBehind(s, log, now)
    ensures OverrideTracks(s, log, later) && OverrideBehind(s, log, later)
  {
    if log != [] {
      UnpausedMoves(log, now, later);
      StageNeverGoesBack(Parsed(s.stages), Unpaused(log, now), Unpaused(log, later));
    }
  }

  lemma {:induction false} RunTracksOverride(log: seq<Timed>, now: Instant)
    requires Ordered(log) && NotBefore(log, now)
    ensures OverrideTracks(Run(log), log, now) && OverrideBehind(Run(log), log, now)
  {
    if log != [] {
      var before, last := log[..|log| - 1], log[|log| - 1];
      RunTracksOverride(before, last.at);
      RunTracks(before);
      OverrideStep(Run(before), before, last);
      assert before + [last] == log;
      TracksLater(Run(log), log, last.at, now);
    }
  }

  lemma OverrideSet(s: Ramp, before: seq<Timed>, last: Timed)
    requires Tracks(s, before) && last.event.Override? && s.stages != []
    ensures var log, t := before + [last], Step(s, last.at, last.event).0;
            OverrideTracks(t, log, last.at) && OverrideBehind(t, log, last.at)
  {
    var log := before + [last];
    assert log[..|log| - 1] == before && log[|log| - 1] == last;
    UnpausedMoves(before, 0, last.at);
  }

  lemma OverrideTicked(s: Ramp, before: seq<Timed>, last: Timed)
    requires Tracks(s, before) && last.event.Tick? && s.live
    requires OverrideTracks(s, before, last.at) && OverrideBehind(s, before, last.at)
    ensures var log, t := before + [last], Ticked(s, last.at).0;
            OverrideTracks(t, log, last.at) && OverrideBehind(t, log, last.at)
  {
    var log := before + [last];
    assert log[..|log| - 1] == before && log[|log| - 1] == last;
    UnpausedMoves(before, 0, last.at);
    assert Clock(s, last.at) == Unpaused(before, last.at) == Unpaused(log, last.at);
  }

  lemma OverrideUntouched(s: Ramp, before: seq<Timed>, last: Timed)
    requires Tracks(s, before) && OverrideTracks(s, before, last.at) && OverrideBehind(s, before, last.at)
    requires match last.event
             case Start(_) => false
             case Override(_) => s.stages == []
             case Tick => !s.live
             case _ => true
    ensures var log, t := before + [last], Step(s, last.at, last.event).0;
            OverrideTracks(t, log, last.at) && OverrideBehind(t, log, last.at)
  {
    var log, t := before + [last], Step(s, last.at, last.event).0;
    assert log[..|log| - 1] == before && log[|log| - 1] == last;
    assert Unpaused(log, last.at) == Unpaused(before, last.at) && LastOverride(log) == LastOverride(before);
    assert t.stages == s.stages && t.manualVus == s.manualVus && t.overrideStage == s.overrideStage;
  }

  lemma OverrideStep(s: Ramp, before: seq<Timed>, last: Timed)
    requires Tracks(s, before) && OverrideTracks(s, before, last.at) && OverrideBehind(s, before, last.at)
    ensures var log, t := before + [last], Step(s, last.at, last.event).0;
            OverrideTracks(t, log, last.at) && OverrideBehind(t, log, last.at)
  {
    if last.event.Start? {
      var log := before + [last];
      assert log[|log| - 1] == last;
    } else if last.event.Override? && s.stages != [] {
      OverrideSet(s, before, last);
    } else if last.event.Tick? && s.live {
      OverrideTicked(s, before, last);
    } else {
      OverrideUntouched(s, before, last);
    }
  }

  /** Every live tick of every run does what the log prescribes: a positive override governs each tick of its
      stage, no tick of another stage, and once the ramp has left the stage it never comes back. */
  lemma TickDoesWhatLogPrescribes(log: seq<Timed>, now: Instant)
    requires Run(log).live && Ordered(log) && NotBefore(log, now)
    ensures Step(Run(log), now, Tick).1 == Prescribed(log, now)
  {
    RunTracks(log);
    ElapsedConserved(log, now);
    RunTracksOverride(log, now);
  }

  // ------------------------------------------------ when a run loop is ticking

  /** All stages are over after that much unpaused time; without stages they always are. */
  predicate Covered(stages: seq<Stage>, elapsed: int) {
    AllOver(Parsed(stages), elapsed, |stages|)
  }

  /** Event `i` sets a run loop going: a start, or an accepted resume of a paused ramp that has stages. */
  predicate Begins(log: seq<Timed>, i: nat)
    requires i < |log|
  {
    match log[i].event
    case Start(_) => true
    case Resume(accepted) => accepted && PausedAfter(log[..i]) && StagesOf(log[..i]) != []
    case _ => false
  }

  /** Event `i` ends whatever run loop there is: a stop, a pause that takes effect, or a tick that finds all stages
      over. */
  predicate Ends(log: seq<Timed>, i: nat)
    requires i < |log|
  {
    match log[i].event
    case Stop => true
    case Pause => !PausedAfter(log[..i])
    case Tick => Covered(StagesOf(log[..i]), Unpaused(log[..i], log[i].at))
    case _ => false
  }

  predicate BegunAt(log: seq<Timed>, i: nat) {
    i < |log| && Begins(log, i) && forall j :: i < j < |log| ==> !Ends(log, j)
  }

  /** Some event has set a run loop going, and none since has ended it. */
  ghost predicate Running(log: seq<Timed>) {
    exists i: nat :: BegunAt(log, i)
  }

  lemma CoveredIsDone(stages: seq<Stage>, elapsed: int)
    ensures PlanAt(Parsed(stages), elapsed).done <==> Covered(stages, elapsed)
  {
    if stages != [] && Covered(stages, elapsed) {
      PlanBehind(Parsed(stages), elapsed);
    }
  }

  lemma SameBefore(log: seq<Timed>, i: nat)
    requires log != [] && i < |log| - 1
    ensures var before := log[..|log| - 1];
            (Begins(log, i) <==> Begins(before, i)) && (Ends(log, i) <==> Ends(before, i))
  {
    assert log[..|log| - 1][..i] == log[..i];
  }

  /** Running, one event after the other. */
  lemma RunningLast(log: seq<Timed>)
    requires log != []
    ensures var n := |log| - 1;
            Running(log) <==> Begins(log, n) || (Running(log[..n]) && !Ends(log, n))
  {
    var n := |log| - 1;
    if Begins(log, n) {
      assert BegunAt(log, n);
    }
    forall i: nat | i < n
      ensures BegunAt(log, i) <==> BegunAt(log[..n], i) && !Ends(log, n)
    {
      SameBefore(log, i);
      forall j: nat | i < j < n ensures Ends(log, j) <==> Ends(log[..n], j) {
        SameBefore(log, j);
      }
    }
  }

  /** A run loop is live exactly when the log says so: started or resumed, and since then neither stopped, nor paused,
      nor through all its stages. */
  lemma {:induction false} LiveIffRunning(log: seq<Timed>)
    ensures Run(log).live <==> Running(log)
  {
    if log != [] {
      var n := |log| - 1;
      var before := log[..n];
      LiveIffRunning(before);
      RunningLast(log);
      RunTracks(before);
      LiveStep(Run(before), before, log[n]);
      assert before + [log[n]] == log;
    }
  }

  lemma LiveStep(s: Ramp, before: seq<Timed>, last: Timed)
    requires Tracks(s, before)
    ensures var log := before + [last];
            Step(s, last.at, last.event).0.live <==> Begins(log, |before|) || (s.live && !Ends(log, |before|))
  {
    var log := before + [last];
    assert log[..|before|] == before && log[|before|] == last;
    if last.event.Tick? && s.live {
      UnpausedMoves(before, 0, last.at);
      CoveredIsDone(s.stages, Clock(s, last.at));
    }
  }

  /** What any tick of any run does: what the log prescribes while a run loop is ticking, and nothing otherwise. */
  lemma TickLaw(log: seq<Timed>, now: Instant)
    requires Ordered(log) && NotBefore(log, now)
    ensures Step(Run(log), now, Tick).1 == if Running(log) then Prescribed(log, now) else Quiet
  {
    LiveIffRunning(log);
    if Run(log).live {
      TickDoesWhatLogPrescribes(log, now);
    }
  }

  /** Only ticks send anything. */
  lemma OnlyTicksSend(log: seq<Timed>, now: Instant, e: Event)
    ensures !e.Tick? ==> Step(Run(log), now, e).1 == Quiet
  {
  }
}
