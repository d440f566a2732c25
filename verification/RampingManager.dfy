// The ramping manager as the object the controller holds: its fields are updated in place, and every method is
// proved against the step machine and the event log of RampRuns.
module RampingService {
  import opened Instants
  import opened Ramping
  import opened RampRuns

  class RampingManager {
    var stages: seq<Stage>
    var elapsed: int
    var startTime: Instant
    var paused: bool
    var manualVus: int
    var overrideStageIdx: int
    var live: bool
    ghost var log: seq<Timed>

    ghost function View(): Ramp
      reads this
    {
      Ramp(stages, elapsed, startTime, paused, manualVus, overrideStageIdx, live)
    }

    ghost predicate Valid()
      reads this
    {
      View() == Run(log)
    }

    twostate predicate Took(now: Instant, e: Event)
      reads this
    {
      && log == old(log) + [Timed(now, e)]
      && View() == Step(old(View()), now, e).0
    }

    lemma RunExtends(before: seq<Timed>, t: Timed)
      ensures Run(before + [t]) == Step(Run(before), t.at, t.event).0
    {
      assert (before + [t])[..|before|] == before;
    }

    constructor ()
      ensures Valid() && log == []
    {
      stages, elapsed, startTime, paused := [], 0, 0, false;
      manualVus, overrideStageIdx, live, log := 0, -1, false, [];
    }

    method Begin(newStages: seq<Stage>, now: Instant)
      requires Valid()
      modifies this
      ensures Valid() && Took(now, Start(newStages))
    {
      RunExtends(log, Timed(now, Start(newStages)));
      stages := newStages;
      elapsed := 0;
      paused := false;
      manualVus := 0;
      overrideStageIdx := -1;
      startTime := now;
      live := true;
      log := log + [Timed(now, Start(newStages))];
    }

    method SetManualOverride(vus: int, now: Instant)
      requires Valid()
      modifies this
      ensures Valid() && Took(now, Override(vus))
    {
      RunExtends(log, Timed(now, Override(vus)));
      log := log + [Timed(now, Override(vus))];
      if |stages| == 0 {
        return;
      }
      var at := elapsed;
      if !paused {
        at := at + (now - startTime);
      }
      var plan := CalculateVUs(stages, at);
      manualVus := vus;
      overrideStageIdx := plan.stage;
    }

    method PauseRamp(now: Instant)
      requires Valid()
      modifies this
      ensures Valid() && Took(now, Pause)
    {
      RunExtends(log, Timed(now, Pause));
      log := log + [Timed(now, Pause)];
      if paused {
        return;
      }
      if |stages| > 0 {
        elapsed := elapsed + (now - startTime);
      }
      paused := true;
      live := false;
    }

    /** `accepted` is whether every worker took the resume command that is sent first. */
    method ResumeRamp(accepted: bool, now: Instant)
      requires Valid()
      modifies this
      ensures Valid() && Took(now, Resume(accepted))
    {
      RunExtends(log, Timed(now, Resume(accepted)));
      log := log + [Timed(now, Resume(accepted))];
      if !accepted || !paused {
        return;
      }
      paused := false;
      if |stages| > 0 {
        startTime := now;
        live := true;
      }
    }

    method Halt(now: Instant)
      requires Valid()
      modifies this
      ensures Valid() && Took(now, Stop)
    {
      RunExtends(log, Timed(now, Stop));
      log := log + [Timed(now, Stop)];
      live := false;
    }

    /** What a tick does once the schedule has been consulted. */
    method FollowPlan(plan: Plan) returns (effect: Effect)
      modifies this
      ensures (View(), effect) == Follow(old(View()), plan) && log == old(log)
    {
      if plan.done {
        live := false;
        return Done;
      }
      var effectiveVUs := plan.vus;
      if manualVus > 0 && plan.stage == overrideStageIdx {
        effectiveVUs := manualVus;
      } else if manualVus > 0 && plan.stage != overrideStageIdx {
        manualVus := 0;
        overrideStageIdx := -1;
      }
      return Scale(effectiveVUs);
    }

    /** The body of one tick. */
    method ApplyTick(now: Instant) returns (effect: Effect)
      modifies this
      ensures (View(), effect) == Ticked(old(View()), now) && log == old(log)
    {
      ghost var was := View();
      assert Clock(was, now) == elapsed + (now - startTime);
      var plan := CalculateVUs(stages, elapsed + (now - startTime));
      effect := FollowPlan(plan);
      assert Follow(was, plan) == Ticked(was, now);
    }

    /** One second of the ticker. A run loop ticks only while it is live; what is sent is fixed by the log before. */
    method TickOnce(now: Instant) returns (effect: Effect)
      requires Valid()
      modifies this
      ensures Valid() && Took(now, Tick)
      ensures Ordered(old(log)) && NotBefore(old(log), now) ==>
                effect == if Running(old(log)) then Prescribed(old(log), now) else Quiet
    {
      ghost var before, was := log, View();
      effect := Quiet;
      if live {
        effect := ApplyTick(now);
      }
      RunExtends(before, Timed(now, Tick));
      assert (View(), effect) == Step(was, now, Tick);
      if Ordered(before) && NotBefore(before, now) {
        TickLaw(before, now);
      }
      log := before + [Timed(now, Tick)];
    }
  }
}
