// Starting prepared workers: resume every one, and after an "already active" answer stop, wait and try again.
module Startup {
  /** A worker's answer to a resume command; `AlreadyActive` are the three messages a k6 that is not freshly
      paused gives. */
  datatype PatchReply = Accepted | AlreadyActive | Rejected

  /** A worker's answer to a readiness probe. */
  datatype Answer = Down | Answered(paused: bool, stopped: bool, finished: bool)

  /** What the workers do during one attempt: up to five answers each to the resume command, whether each takes the
      stop command, and the probes of every sweep made before the readiness timeout. */
  datatype Attempt = Attempt(resume: seq<seq<PatchReply>>, stop: seq<bool>, sweeps: seq<seq<Answer>>)

  datatype Outcome = Started | ResumeRejected | StillActive | StopRejected | NotReady

  const RESUME_TRIES: nat := 5
  const MAX_ATTEMPTS: nat := 3

  predicate Shaped(a: Attempt, workers: nat) {
    && |a.resume| == workers && |a.stop| == workers
    && forall w :: 0 <= w < workers ==> |a.resume[w]| == 5
  }

  /** The worker took the command at try `i`, after answers that neither counted as success nor stopped the tries. */
  predicate TakenAt(replies: seq<PatchReply>, tolerate: bool, fastFail: bool, i: nat) {
    && i < |replies|
    && (replies[i] == Accepted || (tolerate && replies[i] == AlreadyActive))
    && forall j :: 0 <= j < i ==> TriedAgain(replies[j], tolerate, fastFail)
  }

  /** An answer after which the command is sent once more, if any try is left. */
  predicate TriedAgain(r: PatchReply, tolerate: bool, fastFail: bool) {
    r == Rejected || (r == AlreadyActive && !tolerate && !fastFail)
  }

  /** The tries ended with answer `i`, which is no success: it stopped them, or it was the last. */
  predicate GaveUpAt(replies: seq<PatchReply>, tolerate: bool, fastFail: bool, i: nat) {
    && i < |replies|
    && replies[i] != Accepted && !(tolerate && replies[i] == AlreadyActive)
    && (forall j :: 0 <= j < i ==> TriedAgain(replies[j], tolerate, fastFail))
    && (i == |replies| - 1 || (fastFail && replies[i] == AlreadyActive))
  }

  /** The answer that ended the tries of a worker that did not take the command. */
  ghost predicate GaveUpWith(replies: seq<PatchReply>, tolerate: bool, fastFail: bool, result: PatchReply) {
    exists i: nat :: GaveUpAt(replies, tolerate, fastFail, i) && replies[i] == result
  }

  /** There is only one such answer, and none when the command was taken. */
  lemma GaveUpOnce(replies: seq<PatchReply>, tolerate: bool, fastFail: bool, i: nat, k: nat)
    requires GaveUpAt(replies, tolerate, fastFail, i)
    ensures !TakenAt(replies, tolerate, fastFail, k)
    ensures GaveUpAt(replies, tolerate, fastFail, k) ==> i == k
  {
    if k < i {
      assert TriedAgain(replies[k], tolerate, fastFail);
    } else if i < k < |replies| {
      assert !TriedAgain(replies[i], tolerate, fastFail);
    }
  }

  ghost predicate Taken(replies: seq<PatchReply>, tolerate: bool, fastFail: bool) {
    exists i: nat :: TakenAt(replies, tolerate, fastFail, i)
  }

  /** The retry loop for one worker. */
  method ResumeWorker(replies: seq<PatchReply>, tolerate: bool, fastFail: bool) returns (result: PatchReply)
    requires |replies| == 5
    ensures result == Accepted <==> Taken(replies, tolerate, fastFail)
    ensures result != Accepted ==> GaveUpWith(replies, tolerate, fastFail, result)
  {
    var lastErr := Rejected;
    for attempt := 0 to RESUME_TRIES
      invariant forall j :: 0 <= j < attempt ==> TriedAgain(replies[j], tolerate, fastFail)
      invariant attempt > 0 ==> lastErr == replies[attempt - 1]
    {
      var err := replies[attempt];
      if err == Accepted || (tolerate && err == AlreadyActive) {
        assert TakenAt(replies, tolerate, fastFail, attempt);
        return Accepted;
      }
      if fastFail && err == AlreadyActive {
        assert GaveUpAt(replies, tolerate, fastFail, attempt);
        assert forall i: nat :: TakenAt(replies, tolerate, fastFail, i) ==> i < attempt;
        return AlreadyActive;
      }
      lastErr := err;
    }
    assert GaveUpAt(replies, tolerate, fastFail, RESUME_TRIES - 1);
    return lastErr;
  }

  /** All workers are told to resume; the command succeeds when every one took it, and otherwise reports the answer
      that ended the tries of some worker that did not. */
  method ResumeAll(resume: seq<seq<PatchReply>>, tolerate: bool, fastFail: bool) returns (result: PatchReply)
    requires forall w :: 0 <= w < |resume| ==> |resume[w]| == 5
    ensures result == Accepted <==> forall w :: 0 <= w < |resume| ==> Taken(resume[w], tolerate, fastFail)
    ensures result != Accepted ==>
              exists w :: 0 <= w < |resume| && GaveUpWith(resume[w], tolerate, fastFail, result)
  {
    var failed: seq<(nat, PatchReply)> := [];
    for w := 0 to |resume|
      invariant failed == [] <==> forall v :: 0 <= v < w ==> Taken(resume[v], tolerate, fastFail)
      invariant forall f :: f in failed ==>
                  f.0 < w && f.1 != Accepted && GaveUpWith(resume[f.0], tolerate, fastFail, f.1)
    {
      var r := ResumeWorker(resume[w], tolerate, fastFail);
      if r != Accepted {
        failed := failed + [(w, r)];
      }
    }
    if failed == [] {
      return Accepted;
    }
    // Which worker fails first is up to the scheduler.
    assert failed[0] in failed;
    var f :| f in failed;
    return f.1;
  }

  predicate Ready(a: Answer) {
    a.Answered? && a.paused && !a.stopped && !a.finished
  }

  predicate AllReady(sweep: seq<Answer>) {
    forall w :: 0 <= w < |sweep| ==> Ready(sweep[w])
  }

  /** Sweeps `i` and `i + 1` found every worker ready. */
  predicate SteadyAt(sweeps: seq<seq<Answer>>, i: nat) {
    i + 1 < |sweeps| && AllReady(sweeps[i]) && AllReady(sweeps[i + 1])
  }

  ghost predicate Steady(sweeps: seq<seq<Answer>>) {
    exists i: nat :: SteadyAt(sweeps, i)
  }

  /** WaitForAllReady: two sweeps in a row, each probing worker after worker until one is not ready. */
  method WaitForAllReady(sweeps: seq<seq<Answer>>) returns (ready: bool)
    ensures ready <==> Steady(sweeps)
  {
    var consecutiveReady := 0;
    for s := 0 to |sweeps|
      invariant consecutiveReady == if s > 0 && AllReady(sweeps[s - 1]) then 1 else 0
      invariant forall i: nat :: i + 1 < s ==> !SteadyAt(sweeps, i)
    {
      var allReady := true;
      for w := 0 to |sweeps[s]|
        invariant allReady <==> forall v :: 0 <= v < w ==> Ready(sweeps[s][v])
      {
        if !Ready(sweeps[s][w]) {
          allReady := false;
          break;
        }
      }
      if allReady {
        consecutiveReady := consecutiveReady + 1;
        if consecutiveReady >= 2 {
          assert SteadyAt(sweeps, s - 1);
          return true;
        }
      } else {
        consecutiveReady := 0;
      }
    }
    return false;
  }

  predicate AllStopped(stop: seq<bool>) {
    forall w :: 0 <= w < |stop| ==> stop[w]
  }

  ghost predicate AllTaken(a: Attempt) {
    forall w :: 0 <= w < |a.resume| ==> Taken(a.resume[w], false, true)
  }

  ghost predicate SomeActive(a: Attempt) {
    exists w :: 0 <= w < |a.resume| && GaveUpWith(a.resume[w], false, true, AlreadyActive)
  }

  ghost predicate SomeRejecting(a: Attempt) {
    exists w :: 0 <= w < |a.resume| && GaveUpWith(a.resume[w], false, true, Rejected)
  }

  /** The attempt met an active worker, every worker then took the stop command, and all were steadily ready. */
  ghost predicate Recovered(a: Attempt) {
    SomeActive(a) && AllStopped(a.stop) && Steady(a.sweeps)
  }

  method StopAll(stop: seq<bool>) returns (ok: bool)
    ensures ok <==> forall w :: 0 <= w < |stop| ==> stop[w]
  {
    ok := true;
    for w := 0 to |stop|
      invariant ok <==> forall v :: 0 <= v < w ==> stop[v]
    {
      if !stop[w] {
        ok := false;
      }
    }
  }

  /** ResumeAllForStart. `made` attempts were made. */
  method ResumeAllForStart(run: seq<Attempt>, workers: nat) returns (outcome: Outcome, made: nat)
    requires |run| == 3 && forall k :: 0 <= k < |run| ==> Shaped(run[k], workers)
    ensures 1 <= made <= 3
    ensures forall k :: 0 <= k < made - 1 ==> Recovered(run[k])
    ensures match outcome
            case Started => AllTaken(run[made - 1])
            case ResumeRejected => SomeRejecting(run[made - 1])
            case StillActive => made == 3 && SomeActive(run[made - 1])
            case StopRejected => SomeActive(run[made - 1]) && !AllStopped(run[made - 1].stop)
            case NotReady => SomeActive(run[made - 1]) && !Steady(run[made - 1].sweeps)
  {
    made := 0;
    while true
      invariant made < MAX_ATTEMPTS
      invariant forall k :: 0 <= k < made ==> Recovered(run[k])
      decreases MAX_ATTEMPTS - made
    {
      var a := run[made];
      made := made + 1;
      var reply := ResumeAll(a.resume, false, true);
      if reply == Accepted {
        return Started, made;
      }
      if reply != AlreadyActive {
        return ResumeRejected, made;
      }
      if made == MAX_ATTEMPTS {
        return StillActive, made;
      }
      var stopped := StopAll(a.stop);
      if !stopped {
        return StopRejected, made;
      }
      var ready := WaitForAllReady(a.sweeps);
      if !ready {
        return NotReady, made;
      }
    }
  }

  lemma {:induction false} TakenByFirst(replies: seq<PatchReply>, fastFail: bool, i: nat)
    requires i < |replies| && replies[i] == Accepted && (fastFail ==> AlreadyActive !in replies[..i])
    ensures Taken(replies, false, fastFail)
    decreases i
  {
    if j: nat :| j < i && replies[j] == Accepted {
      assert forall x :: x in replies[..j] ==> x in replies[..i];
      TakenByFirst(replies, fastFail, j);
    } else {
      forall j: nat | j < i && fastFail ensures replies[j] == Rejected {
        assert replies[j] in replies[..i];
      }
      assert TakenAt(replies, false, fastFail, i);
    }
  }

  /** A worker is resumed by the user's command exactly when one of its answers accepts, and started exactly when
      an acceptance comes before any "already active" answer: an answer from a run still in progress is never
      mistaken for a start. */
  lemma TakenIff(replies: seq<PatchReply>)
    ensures Taken(replies, false, false) <==> Accepted in replies
    ensures Taken(replies, false, true)
       <==> exists i: nat :: i < |replies| && replies[i] == Accepted && AlreadyActive !in replies[..i]
  {
    if i: nat :| i < |replies| && replies[i] == Accepted {
      TakenByFirst(replies, false, i);
    }
    if i: nat :| i < |replies| && replies[i] == Accepted && AlreadyActive !in replies[..i] {
      TakenByFirst(replies, true, i);
    }
    if Taken(replies, false, true) {
      var i: nat :| TakenAt(replies, false, true, i);
      assert AlreadyActive !in replies[..i];
    }
  }

  /** Steady readiness: in two sweeps in a row every worker says it is paused, not stopped and not finished. */
  lemma SteadyMeaning(sweeps: seq<seq<Answer>>)
    ensures Steady(sweeps) <==>
            exists i: nat :: i + 1 < |sweeps| && AllSay(sweeps[i]) && AllSay(sweeps[i + 1])
  {
    forall k | 0 <= k < |sweeps| ensures AllReady(sweeps[k]) <==> AllSay(sweeps[k]) {
      ReadySays(sweeps[k]);
    }
    if i: nat :| i + 1 < |sweeps| && AllSay(sweeps[i]) && AllSay(sweeps[i + 1]) {
      assert SteadyAt(sweeps, i);
    }
  }

  lemma ReadySays(sweep: seq<Answer>)
    ensures AllReady(sweep) <==> AllSay(sweep)
  {
    if AllSay(sweep) {
      forall w | 0 <= w < |sweep| ensures Ready(sweep[w]) {
        assert sweep[w] in sweep;
      }
    }
  }

  predicate AllSay(sweep: seq<Answer>) {
    forall a :: a in sweep ==> a == Answered(true, false, false)
  }
}
