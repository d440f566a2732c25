// The registry of uploaded artifacts, updated in place, and the strength of auth
// summaries that decides which upload it keeps.
module RegistryService {
  import opened Instants
  import opened Text
  import opened RegistryModel

  class Registry {
    var runs: map<string, RunState>
    const policy: Policy

    /** A period that is not positive falls back to five minutes. */
    constructor (lateUploadTtl: int, signal: string -> int)
      ensures runs == map[] && policy.ttl > 0
      ensures policy == Policy(if lateUploadTtl <= 0 then 5 * MINUTE else lateUploadTtl, signal)
    {
      runs := map[];
      policy := Policy(if lateUploadTtl <= 0 then 5 * MINUTE else lateUploadTtl, signal);
    }

    method CleanupExpired(now: Instant)
      modifies this`runs
      ensures runs == Cleanup(old(runs), now)
    {
      var remaining := runs.Keys;
      while remaining != {}
        invariant remaining <= runs.Keys <= old(runs).Keys
        invariant forall id :: id in runs ==> runs[id] == old(runs)[id]
        invariant forall id :: id in old(runs) && id !in remaining ==> (id in runs <==> !Expired(old(runs)[id], now))
        decreases |remaining|
      {
        var id :| id in remaining;
        remaining := remaining - {id};
        if runs[id].expiresAt.Some? && runs[id].expiresAt.value < now {
          runs := runs - {id};
        }
      }
    }

    method RegisterRun(now: Instant, testId: string, expectedWorkers: seq<string>, uploadToken: string)
      requires Shelved(runs)
      modifies this`runs
      ensures var op := RegistryModel.RegisterRun(testId, expectedWorkers, uploadToken);
              runs == LazyStep(old(runs), now, op, policy).0
    {
      var expectedSet: set<string> := {};
      var normalized := [];
      for i := 0 to |expectedWorkers|
        invariant normalized == NormalizeWorkers(expectedWorkers[..i])
        invariant forall w :: w in expectedSet <==> w in normalized
      {
        var worker := TrimSpace(expectedWorkers[i]);
        assert expectedWorkers[..i + 1][..i] == expectedWorkers[..i];
        if worker != "" && worker !in expectedSet {
          expectedSet := expectedSet + {worker};
          normalized := normalized + [worker];
        }
      }
      assert expectedWorkers[..|expectedWorkers|] == expectedWorkers;
      CleanupExpired(now);
      runs := runs[testId := RunState(normalized, uploadToken, EmptyShelf(), now, None)];
    }

    method RemoveRun(now: Instant, testId: string)
      requires Shelved(runs)
      modifies this`runs
      ensures runs == LazyStep(old(runs), now, RegistryModel.RemoveRun(testId), policy).0
    {
      CleanupExpired(now);
      ghost var live := runs;
      if testId !in runs {
        return;
      }
      runs := runs[testId := runs[testId].(expiresAt := Some(now + policy.ttl))];
      assert runs == LazyRemove(live, now, testId, policy);
    }

    method StoreArtifact(now: Instant, testId: string, workerId: string, uploadToken: string, kind: ArtifactType,
                         contentType: string, content: string)
      returns (reply: Reply)
      requires Shelved(runs)
      modifies this`runs
      ensures var op := RegistryModel.StoreArtifact(testId, workerId, uploadToken, kind, contentType, content);
              (runs, reply) == LazyStep(old(runs), now, op, policy)
    {
      CleanupExpired(now);
      reply := StoreLive(now, testId, workerId, uploadToken, kind, contentType, content);
    }

    /** The same once the expired runs are gone. */
    method StoreLive(now: Instant, testId: string, workerId: string, uploadToken: string, kind: ArtifactType,
                     contentType: string, content: string)
      returns (reply: Reply)
      requires Shelved(runs)
      modifies this`runs
      ensures var op := RegistryModel.StoreArtifact(testId, workerId, uploadToken, kind, contentType, content);
              (runs, reply) == LazyStore(old(runs), now, op, policy)
    {
      if testId !in runs {
        return UnknownRun;
      }
      var run := runs[testId];
      if run.token == "" || uploadToken != run.token {
        return Unauthorized;
      }
      if workerId !in run.expected {
        return UnknownWorker;
      }
      if kind !in run.artifacts {
        return UnknownArtifact;
      }
      Shelve(now, testId, workerId, kind, contentType, content);
      return Done;
    }

    /** Puts an accepted artifact away, unless a kept auth summary is as strong. */
    method Shelve(now: Instant, testId: string, workerId: string, kind: ArtifactType, contentType: string,
                  content: string)
      requires Shelved(runs) && testId in runs && kind in Kinds()
      modifies this`runs
      ensures runs == old(runs)[testId := Accept(old(runs)[testId], now, workerId, kind, contentType, content, policy)]
    {
      var run := runs[testId];
      var byWorker := run.artifacts[kind];
      if kind.AuthSummary? && workerId in byWorker {
        if policy.signal(content) <= policy.signal(byWorker[workerId].content) {
          assert run.artifacts[kind := byWorker] == run.artifacts;
          return;
        }
      }
      byWorker := byWorker[workerId := Artifact(content, contentType, now)];
      runs := runs[testId := run.(artifacts := run.artifacts[kind := byWorker])];
    }

    method Snapshot(now: Instant, testId: string) returns (reply: Reply)
      requires Shelved(runs)
      modifies this`runs
      ensures (runs, reply) == LazyStep(old(runs), now, TakeSnapshot(testId), policy)
    {
      if testId !in runs {
        return NoSnapshot;
      }
      CleanupExpired(now);
      if testId !in runs {
        return NoSnapshot;
      }
      var run := runs[testId];
      return Got(RegistryModel.Snapshot(run.expected, run.token, run.artifacts, run.createdAt));
    }
  }

  // ------------------------------------------------ strength of auth summaries

  /** The fields of an auth summary that its strength looks at. */
  datatype AuthSnapshot = AuthSnapshot(
    status: string,
    tokenRequests: real,
    tokenFailures: real,
    statusCodes: nat,
    abortTriggered: bool,
    abortCause: string,
    abortReason: string)

  function Score(s: AuthSnapshot): int {
    1
    + (if Blank(s.status) then 0 else 1)
    + (if s.tokenRequests > 0.0 then 10 else 0)
    + (if s.tokenFailures > 0.0 then 10 else 0)
    + (if s.statusCodes > 0 then 5 else 0)
    + (if s.abortTriggered then 100 else 0)
    + (if Blank(s.abortCause) then 0 else 5)
    + (if Blank(s.abortReason) then 0 else 5)
  }

  /** `decode` is the JSON decoder: None for text it rejects. */
  function AuthSummarySignal(content: string, decode: string -> Option<AuthSnapshot>): int {
    var trimmed := TrimSpace(content);
    if trimmed == "" then 0
    else
      match decode(trimmed)
      case None => 1
      case Some(s) => Score(s)
  }

  predicate Aborted(content: string, decode: string -> Option<AuthSnapshot>) {
    var trimmed := TrimSpace(content);
    trimmed != "" && decode(trimmed).Some? && decode(trimmed).value.abortTriggered
  }

  /** A summary that reports an abort outranks every one that does not. */
  lemma AbortDominates(a: string, b: string, decode: string -> Option<AuthSnapshot>)
    requires Aborted(a, decode) && !Aborted(b, decode)
    ensures AuthSummarySignal(b, decode) < AuthSummarySignal(a, decode)
  {
  }

  /** Once a worker has reported an abort, its snapshot shows an abort for good:
      later uploads of restarted workers cannot erase the diagnosis. */
  lemma AbortKept(uploads: seq<Upload>, worker: string, policy: Policy, decode: string -> Option<AuthSnapshot>,
                  shown: nat, reported: nat)
    requires forall content :: policy.signal(content) == AuthSummarySignal(content, decode)
    requires Shows(uploads, AuthSummary, worker, policy, shown)
    requires reported < |uploads| && Concerns(uploads[reported], AuthSummary, worker)
    requires Aborted(uploads[reported].artifact.content, decode)
    ensures Aborted(uploads[shown].artifact.content, decode)
  {
    if !Aborted(uploads[shown].artifact.content, decode) {
      AbortDominates(uploads[reported].artifact.content, uploads[shown].artifact.content, decode);
    }
  }

  /** What each part of a summary is worth: an empty one counts as one, and every part adds its own points. */
  lemma ScoreParts(s: AuthSnapshot)
    ensures Score(AuthSnapshot("", 0.0, 0.0, 0, false, "", "")) == 1
    ensures !Blank(s.status) ==> Score(s) == Score(s.(status := "")) + 1
    ensures s.tokenRequests > 0.0 ==> Score(s) == Score(s.(tokenRequests := 0.0)) + 10
    ensures s.tokenFailures > 0.0 ==> Score(s) == Score(s.(tokenFailures := 0.0)) + 10
    ensures s.statusCodes > 0 ==> Score(s) == Score(s.(statusCodes := 0)) + 5
    ensures s.abortTriggered ==> Score(s) == Score(s.(abortTriggered := false)) + 100
    ensures !Blank(s.abortCause) ==> Score(s) == Score(s.(abortCause := "")) + 5
    ensures !Blank(s.abortReason) ==> Score(s) == Score(s.(abortReason := "")) + 5
  {
    assert TrimSpace("") == "";
  }

  /** A summary that cannot be read is worth as much as an empty one, and blank text nothing. */
  lemma SignalParts(content: string, decode: string -> Option<AuthSnapshot>)
    ensures var d := decode(TrimSpace(content));
            AuthSummarySignal(content, decode)
            == if Blank(content) then 0 else if d == None then 1 else Score(d.value)
  {
  }
}
