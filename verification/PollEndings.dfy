// When a tick of the poll loop declares a run complete, told from the history of polls and worker replies.
module PollEndings {
  import opened Polling

  datatype Config = Config(controllable: bool, managed: bool, expected: int, pollInterval: int)

  /** What one tick sees: the poll, the time it is recorded at, whether the ramp is reported done when the state
      is taken, and, should the workers be asked, the time then, the ramp flag then, and their replies. */
  datatype Observation = Observation(poll: Poll, elapsed: int, rampDone: bool,
                                     checkedAt: int, rampDoneThen: bool, replies: seq<Reply>)

  datatype Event = Tick(seen: Observation) | Deadline | Cancelled

  predicate Ended(controllable: bool, r: Reply) {
    r.Status? && (if r.paused then !controllable else !r.running && r.finished)
  }

  predicate AllEnded(controllable: bool, rampDone: bool, replies: seq<Reply>) {
    rampDone || forall i :: 0 <= i < |replies| ==> Ended(controllable, replies[i])
  }

  /** allWorkersEnded. */
  method AllWorkersEnded(controllable: bool, rampDone: bool, replies: seq<Reply>) returns (ended: bool)
    ensures ended == AllEnded(controllable, rampDone, replies)
  {
    if rampDone {
      return true;
    }
    for i := 0 to |replies|
      invariant forall j :: 0 <= j < i ==> Ended(controllable, replies[j])
    {
      match replies[i]
      case Unreachable =>
        return false;
      case Status(paused, running, finished) =>
        if paused {
          if controllable {
            return false;
          }
        } else if running || !finished {
          return false;
        }
    }
    return true;
  }

  /** shouldCompleteTest. */
  function ShouldComplete(cfg: Config, ticks: nat, s: PollState, o: Observation): bool {
    if cfg.managed then
      o.rampDone
      || (s.seenRunning && TotalVus(o.poll.samples) == 0 && s.zeroMetricRun >= 2 && ticks >= 5
          && AllEnded(cfg.controllable, o.rampDoneThen, o.replies))
    else if cfg.controllable then
      s.seenRunning && ticks >= 5 && AllEnded(cfg.controllable, o.rampDoneThen, o.replies)
    else if !s.seenRunning then false
    else if s.zeroMetricRun >= 3 then true
    else if cfg.expected > 0 && o.checkedAt + cfg.pollInterval < cfg.expected then false
    else ticks >= 5 && AllEnded(cfg.controllable, o.rampDoneThen, o.replies)
  }

  /** The tick that ends `history` completes the run: by the end checks, or by the guard for runs that never
      produced anything. */
  predicate Completes(cfg: Config, history: seq<Point>, o: Observation) {
    var s := Remembered(history);
    ShouldComplete(cfg, |history|, s, o) || (!s.seenRunning && |history| >= 150)
  }

  // ------------------------------------------------ exactly when a tick completes a run

  /** Some poll had data, and the last `n` had none. */
  ghost predicate FellSilent(history: seq<Point>, n: nat) {
    && n <= |history|
    && (forall i :: |history| - n <= i < |history| ==> !HasData(history[i].poll))
    && SomeData(history[..|history| - n])
  }

  lemma PrefixData(history: seq<Point>, m: nat)
    requires m <= |history|
    ensures SomeData(history[..m]) ==> SomeData(history)
  {
    if SomeData(history[..m]) {
      var i :| 0 <= i < m && HasData(history[..m][i].poll);
      assert HasData(history[i].poll);
    }
  }

  lemma SilenceCounted(history: seq<Point>, n: nat)
    ensures Remembered(history).seenRunning && Remembered(history).zeroMetricRun >= n <==> FellSilent(history, n)
  {
    var k := MemoryExact(history);
    if SomeData(history) {
      if k < |history| - n {
        assert HasData(history[..|history| - n][k].poll);
      }
      if FellSilent(history, n) {
        assert k < |history| - n;
      }
    }
    if n <= |history| {
      PrefixData(history, |history| - n);
    }
  }

  /** The guard: 150 polls, none with data. */
  ghost predicate NeverStarted(history: seq<Point>) {
    |history| >= 150 && !SomeData(history)
  }

  /** A native run completes exactly when three empty polls follow data, or every worker has ended once at most a
      poll interval of the expected duration is left, or it never started. */
  lemma NativeCompletesIff(cfg: Config, history: seq<Point>, o: Observation)
    requires !cfg.managed && !cfg.controllable
    ensures Completes(cfg, history, o)
       <==> || FellSilent(history, 3)
            || (SomeData(history) && |history| >= 5
                && (cfg.expected > 0 ==> o.checkedAt >= cfg.expected - cfg.pollInterval)
                && AllEnded(false, o.rampDoneThen, o.replies))
            || NeverStarted(history)
  {
    var _ := MemoryExact(history);
    SilenceCounted(history, 3);
  }

  /** A controllable run without a managed ramp completes exactly when, after data and five polls, every worker has
      ended, or it never started. */
  lemma ControllableCompletesIff(cfg: Config, history: seq<Point>, o: Observation)
    requires !cfg.managed && cfg.controllable
    ensures Completes(cfg, history, o)
       <==> || (SomeData(history) && |history| >= 5 && AllEnded(true, o.rampDoneThen, o.replies))
            || NeverStarted(history)
  {
    var _ := MemoryExact(history);
  }

  /** A run with a managed ramp completes exactly when the ramp is done, or the workers all ended while the run had
      fallen silent, or it never started. Five polls are not a condition of their own only when the ramp is done. */
  lemma ManagedCompletesIff(cfg: Config, history: seq<Point>, o: Observation)
    requires cfg.managed
    ensures Completes(cfg, history, o)
       <==> || o.rampDone
            || (FellSilent(history, 2) && TotalVus(o.poll.samples) == 0 && |history| >= 5
                && AllEnded(cfg.controllable, o.rampDoneThen, o.replies))
            || NeverStarted(history)
  {
    var _ := MemoryExact(history);
    SilenceCounted(history, 2);
  }

  /** As long as a worker of a controllable run says it is paused and the ramp is not done, the run is not over,
      unless it never started. */
  lemma PausedKeepsRunAlive(cfg: Config, history: seq<Point>, o: Observation, i: nat)
    requires cfg.controllable && !o.rampDone && !o.rampDoneThen
    requires i < |o.replies| && o.replies[i].Status? && o.replies[i].paused
    ensures Completes(cfg, history, o) <==> NeverStarted(history)
  {
    assert !Ended(true, o.replies[i]);
    if cfg.managed {
      ManagedCompletesIff(cfg, history, o);
    } else {
      ControllableCompletesIff(cfg, history, o);
    }
  }

  /** Neither does an unreachable or running worker end a run that still reports data, whatever its kind. */
  lemma ActiveWorkerKeepsRunAlive(cfg: Config, history: seq<Point>, o: Observation, i: nat)
    requires !o.rampDone && !o.rampDoneThen && i < |o.replies|
    requires o.replies[i].Unreachable? || (o.replies[i].running && !o.replies[i].paused)
    requires history != [] && HasData(history[|history| - 1].poll)
    ensures !Completes(cfg, history, o)
  {
    assert !Ended(cfg.controllable, o.replies[i]);
    assert SomeData(history);
    var k := MemoryExact(history);
  }

  // ------------------------------------------------ whole runs

  function History(events: seq<Event>): seq<Point> {
    if events == [] then []
    else
      var rest := History(events[..|events| - 1]);
      match events[|events| - 1]
      case Tick(o) => rest + [Point(o.elapsed, o.poll)]
      case _ => rest
  }

  /** The loop stops at event `i`. */
  predicate StopsAt(cfg: Config, events: seq<Event>, i: nat)
    requires i < |events|
  {
    events[i].Tick? ==> Completes(cfg, History(events[..i + 1]), events[i].seen)
  }

  /** The event the loop stops at; `|events|` while it is still running. */
  predicate Stop(cfg: Config, events: seq<Event>, k: nat) {
    && k <= |events|
    && (forall i :: 0 <= i < k ==> !StopsAt(cfg, events, i))
    && (k < |events| ==> StopsAt(cfg, events, k))
  }

  /** A run that never reports data is over at its 150th poll at the latest. */
  lemma {:induction false} NeverStartedIsBounded(cfg: Config, events: seq<Event>, k: nat)
    requires Stop(cfg, events, k) && !SomeData(History(events[..k]))
    ensures |History(events[..k])| < 150
  {
    if k > 0 {
      var h := History(events[..k]);
      assert events[..k][..k - 1] == events[..k - 1];
      assert !StopsAt(cfg, events, k - 1);
      if |h| >= 150 {
        var _ := MemoryExact(h);
        assert Completes(cfg, h, events[k - 1].seen);
      }
    }
  }

  /** Which answers let the end checks pass: with the ramp done, any; otherwise every worker answers, and is paused in a
      run that is not controllable, or neither paused nor running but finished. */
  lemma AllEndedIff(controllable: bool, rampDone: bool, replies: seq<Reply>)
    ensures AllEnded(controllable, rampDone, replies) <==>
            rampDone || forall i :: 0 <= i < |replies| ==>
              || replies[i] == Status(false, false, true)
              || (!controllable && replies[i].Status? && replies[i].paused)
  {
  }
}
