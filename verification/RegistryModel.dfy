// The artifact registry as two step functions: the code's, which drops expired
// runs lazily, and a history that forgets nothing and decides by the clock.
module RegistryModel {
  import opened Instants
  import opened Text

  datatype ArtifactType = Summary | AuthSummary | Payload | OtherType(name: string)

  datatype Artifact = Artifact(content: string, contentType: string, receivedAt: Instant)

  type Shelf = map<ArtifactType, map<string, Artifact>>

  datatype RunState = RunState(expected: seq<string>, token: string, artifacts: Shelf, createdAt: Instant,
                               expiresAt: Option<Instant>)

  datatype Snapshot = Snapshot(expected: seq<string>, token: string, artifacts: Shelf, createdAt: Instant)

  datatype Op =
    | RegisterRun(testId: string, workers: seq<string>, token: string)
    | RemoveRun(testId: string)
    | StoreArtifact(testId: string, worker: string, token: string, kind: ArtifactType, contentType: string,
                    content: string)
    | TakeSnapshot(testId: string)

  datatype Reply =
    | Done | UnknownRun | Unauthorized | UnknownWorker | UnknownArtifact | NoSnapshot
    | Got(snapshot: Snapshot)

  /** The late-upload period and the strength of an auth summary. */
  datatype Policy = Policy(ttl: int, signal: string -> int)

  function Kinds(): set<ArtifactType> {
    {Summary, AuthSummary, Payload}
  }

  function EmptyShelf(): (shelf: Shelf)
    ensures shelf.Keys == Kinds()
  {
    map[Summary := map[], AuthSummary := map[], Payload := map[]]
  }

  /** Trimmed, without blanks and repetitions, in the given order. */
  function NormalizeWorkers(workers: seq<string>): seq<string> {
    if workers == [] then []
    else
      var kept := NormalizeWorkers(workers[..|workers| - 1]);
      var worker := TrimSpace(workers[|workers| - 1]);
      if worker == "" || worker in kept then kept else kept + [worker]
  }

  /** Trimmed names, none of them blank and none twice. */
  predicate Normal(names: seq<string>) {
    && (forall w :: w in names ==> w != "" && Trimmed(w))
    && (forall i, j :: 0 <= i < j < |names| ==> names[i] != names[j])
  }

  lemma {:induction false} NormalizedWorkers(workers: seq<string>)
    ensures Normal(NormalizeWorkers(workers))
    ensures forall w :: w in NormalizeWorkers(workers) <==> w != "" && exists v :: v in workers && w == TrimSpace(v)
  {
    if workers != [] {
      var init, last := workers[..|workers| - 1], workers[|workers| - 1];
      NormalizedWorkers(init);
      var a, b := TrimSpaceShape(last);
      assert workers == init + [last];
      forall w | w != "" && exists v :: v in workers && w == TrimSpace(v) ensures w in NormalizeWorkers(workers) {
        var v :| v in workers && w == TrimSpace(v);
        assert v in init || v == last;
      }
      forall w | w in NormalizeWorkers(workers) ensures exists v :: v in workers && w == TrimSpace(v) {
        if w in NormalizeWorkers(init) {
          var v :| v in init && w == TrimSpace(v);
          assert v in workers;
        } else {
          assert last in workers;
        }
      }
    }
  }

  // ------------------------------------------------ the code's step

  predicate Expired(run: RunState, now: Instant) {
    run.expiresAt.Some? && run.expiresAt.value < now
  }

  function Cleanup(runs: map<string, RunState>, now: Instant): map<string, RunState> {
    map id | id in runs && !Expired(runs[id], now) :: runs[id]
  }

  /** An auth summary yields only to a strictly stronger one. */
  function Stored(byWorker: map<string, Artifact>, worker: string, kind: ArtifactType, artifact: Artifact,
                  policy: Policy): map<string, Artifact> {
    if kind.AuthSummary? && worker in byWorker
      && policy.signal(artifact.content) <= policy.signal(byWorker[worker].content)
    then byWorker
    else byWorker[worker := artifact]
  }

  /** Why an upload to a known run is refused, or Done. */
  function Check(expected: seq<string>, runToken: string, worker: string, token: string, kind: ArtifactType): Reply {
    if runToken == "" || token != runToken then Unauthorized
    else if worker !in expected then UnknownWorker
    else if kind !in Kinds() then UnknownArtifact
    else Done
  }

  predicate Shelved(runs: map<string, RunState>) {
    forall id | id in runs :: runs[id].artifacts.Keys == Kinds()
  }

  /** An upload that passed the check. */
  function Accept(run: RunState, now: Instant, worker: string, kind: ArtifactType, contentType: string,
                  content: string, policy: Policy): (r: RunState)
    requires run.artifacts.Keys == Kinds() && kind in Kinds()
    ensures r.artifacts.Keys == Kinds()
  {
    var byWorker := Stored(run.artifacts[kind], worker, kind, Artifact(content, contentType, now), policy);
    assert (run.artifacts[kind := byWorker]).Keys == Kinds();
    run.(artifacts := run.artifacts[kind := byWorker])
  }

  function LazyStore(live: map<string, RunState>, now: Instant, op: Op,
                     policy: Policy): (r: (map<string, RunState>, Reply))
    requires Shelved(live) && op.StoreArtifact?
    ensures Shelved(r.0)
  {
    if op.testId !in live then (live, UnknownRun)
    else
      var run := live[op.testId];
      var reply := Check(run.expected, run.token, op.worker, op.token, op.kind);
      if !reply.Done? then (live, reply)
      else (live[op.testId := Accept(run, now, op.worker, op.kind, op.contentType, op.content, policy)], Done)
  }

  function LazyRegister(live: map<string, RunState>, now: Instant, id: string, workers: seq<string>,
                        token: string): (r: map<string, RunState>)
    requires Shelved(live)
    ensures Shelved(r)
  {
    live[id := RunState(NormalizeWorkers(workers), token, EmptyShelf(), now, None)]
  }

  function LazyRemove(live: map<string, RunState>, now: Instant, id: string, policy: Policy): (r: map<string, RunState>)
    requires Shelved(live)
    ensures Shelved(r)
  {
    if id in live then live[id := live[id].(expiresAt := Some(now + policy.ttl))] else live
  }

  function LazyStep(runs: map<string, RunState>, now: Instant, op: Op,
                    policy: Policy): (r: (map<string, RunState>, Reply))
    requires Shelved(runs)
    ensures Shelved(r.0)
  {
    var live := Cleanup(runs, now);
    match op
    case RegisterRun(id, workers, token) => (LazyRegister(live, now, id, workers, token), Done)
    case RemoveRun(id) => (LazyRemove(live, now, id, policy), Done)
    case StoreArtifact(_, _, _, _, _, _) => LazyStore(live, now, op, policy)
    case TakeSnapshot(id) =>
      if id !in runs then (runs, NoSnapshot)
      else if id !in live then (live, NoSnapshot)
      else (live, Got(Snapshot(live[id].expected, live[id].token, live[id].artifacts, live[id].createdAt)))
  }

  // ------------------------------------------------ the history

  datatype Upload = Upload(worker: string, kind: ArtifactType, artifact: Artifact)

  /** Everything a run has accepted, and when it was last closed. */
  datatype History = History(expected: seq<string>, token: string, createdAt: Instant, uploads: seq<Upload>,
                             closedAt: Option<Instant>)

  predicate Visible(h: History, now: Instant, policy: Policy) {
    h.closedAt.Some? ==> now <= h.closedAt.value + policy.ttl
  }

  predicate Concerns(u: Upload, kind: ArtifactType, worker: string) {
    u.kind == kind && u.worker == worker
  }

  /** Upload `i` is the one that a snapshot shows for the worker: the last of its
      kind, but for auth summaries the first of maximal strength. */
  ghost predicate Shows(uploads: seq<Upload>, kind: ArtifactType, worker: string, policy: Policy, i: nat) {
    && i < |uploads|
    && Concerns(uploads[i], kind, worker)
    && forall j :: 0 <= j < |uploads| && j != i && Concerns(uploads[j], kind, worker) ==>
         if kind.AuthSummary?
         then if j < i then policy.signal(uploads[j].artifact.content) < policy.signal(uploads[i].artifact.content)
              else policy.signal(uploads[j].artifact.content) <= policy.signal(uploads[i].artifact.content)
         else j < i
  }

  /** What one kind's artifacts show for one worker is what the uploads determine. */
  ghost predicate ShownAt(byWorker: map<string, Artifact>, uploads: seq<Upload>, kind: ArtifactType, worker: string,
                          policy: Policy) {
    if worker in byWorker
    then exists i: nat :: Shows(uploads, kind, worker, policy, i) && byWorker[worker] == uploads[i].artifact
    else forall j :: 0 <= j < |uploads| ==> !Concerns(uploads[j], kind, worker)
  }

  ghost predicate ShelfShows(shelf: Shelf, uploads: seq<Upload>, policy: Policy) {
    && shelf.Keys == Kinds()
    && forall kind, worker :: kind in Kinds() ==> ShownAt(shelf[kind], uploads, kind, worker, policy)
  }

  /** Uploads a run takes: with its token, which must not be empty, from an expected worker, of a known kind. */
  predicate Admitted(h: History, worker: string, token: string, kind: ArtifactType) {
    h.token != "" && h.token == token && worker in h.expected && (kind.Summary? || kind.AuthSummary? || kind.Payload?)
  }

  /** The answer to an upload to a visible run; the token is looked at first, then the worker, then the kind. */
  predicate AnswersUpload(h: History, worker: string, token: string, kind: ArtifactType, reply: Reply) {
    && (reply == Unauthorized <==> h.token == "" || h.token != token)
    && (reply == UnknownWorker <==> h.token != "" && h.token == token && worker !in h.expected)
    && (reply == UnknownArtifact <==> h.token != "" && h.token == token && worker in h.expected && kind.OtherType?)
    && (reply == Done <==> Admitted(h, worker, token, kind))
  }

  function HistoryAfter(hist: map<string, History>, now: Instant, op: Op, policy: Policy): map<string, History> {
    match op
    case RegisterRun(id, workers, token) => hist[id := History(NormalizeWorkers(workers), token, now, [], None)]
    case RemoveRun(id) =>
      if id in hist && Visible(hist[id], now, policy) then hist[id := hist[id].(closedAt := Some(now))] else hist
    case StoreArtifact(id, worker, token, kind, contentType, content) =>
      if id in hist && Visible(hist[id], now, policy) && Admitted(hist[id], worker, token, kind) then
        var upload := Upload(worker, kind, Artifact(content, contentType, now));
        hist[id := hist[id].(uploads := hist[id].uploads + [upload])]
      else hist
    case TakeSnapshot(_) => hist
  }

  /** What the history says the registry must answer. */
  ghost predicate Answers(hist: map<string, History>, now: Instant, op: Op, policy: Policy, reply: Reply) {
    match op
    case RegisterRun(_, _, _) => reply.Done?
    case RemoveRun(_) => reply.Done?
    case StoreArtifact(id, worker, token, kind, _, _) =>
      if id in hist && Visible(hist[id], now, policy)
      then AnswersUpload(hist[id], worker, token, kind, reply)
      else reply.UnknownRun?
    case TakeSnapshot(id) =>
      if id in hist && Visible(hist[id], now, policy)
      then && reply.Got?
           && reply.snapshot == Snapshot(hist[id].expected, hist[id].token, reply.snapshot.artifacts,
                                         hist[id].createdAt)
           && ShelfShows(reply.snapshot.artifacts, hist[id].uploads, policy)
      else reply.NoSnapshot?
  }

  // ------------------------------------------------ refinement

  ghost predicate Matches(run: RunState, h: History, policy: Policy) {
    && run.expected == h.expected && run.token == h.token && run.createdAt == h.createdAt
    && run.expiresAt == (if h.closedAt.Some? then Some(h.closedAt.value + policy.ttl) else None)
    && ShelfShows(run.artifacts, h.uploads, policy)
  }

  /** The registry holds every visible run as its history says, and possibly runs
      that are no longer visible. */
  ghost predicate Related(runs: map<string, RunState>, hist: map<string, History>, now: Instant, policy: Policy) {
    && Shelved(runs)
    && (forall id :: id in hist && Visible(hist[id], now, policy) ==> id in runs && Matches(runs[id], hist[id], policy))
    && (forall id :: id in runs && !Expired(runs[id], now) ==> id in hist && Visible(hist[id], now, policy))
  }

  lemma TimePasses(runs: map<string, RunState>, hist: map<string, History>, now: Instant, later: Instant,
                   policy: Policy)
    requires Related(runs, hist, now, policy) && now <= later
    ensures Related(runs, hist, later, policy)
  {
    forall id | id in runs && !Expired(runs[id], later) ensures id in hist && Visible(hist[id], later, policy) {
      assert !Expired(runs[id], now);
      assert Matches(runs[id], hist[id], policy);
    }
  }

  lemma CleanupRelated(runs: map<string, RunState>, hist: map<string, History>, now: Instant, policy: Policy)
    requires Related(runs, hist, now, policy)
    ensures Related(Cleanup(runs, now), hist, now, policy)
    ensures forall id :: id in Cleanup(runs, now) <==> id in hist && Visible(hist[id], now, policy)
  {
    forall id | id in hist && Visible(hist[id], now, policy) ensures id in Cleanup(runs, now) {
      assert Matches(runs[id], hist[id], policy);
    }
  }

  lemma EmptyShelfShows(policy: Policy)
    ensures ShelfShows(EmptyShelf(), [], policy)
  {
  }

  /** One more upload for the worker: it replaces what was shown, unless it is an
      auth summary that is not stronger. */
  lemma UploadShown(byWorker: map<string, Artifact>, uploads: seq<Upload>, u: Upload, policy: Policy)
    requires ShownAt(byWorker, uploads, u.kind, u.worker, policy)
    ensures ShownAt(Stored(byWorker, u.worker, u.kind, u.artifact, policy), uploads + [u], u.kind, u.worker, policy)
  {
    var all := uploads + [u];
    var after := Stored(byWorker, u.worker, u.kind, u.artifact, policy);
    var newest: nat := |uploads|;
    assert all[newest] == u;
    assert forall j :: 0 <= j < newest ==> all[j] == uploads[j];
    if u.worker in byWorker {
      var i: nat :| Shows(uploads, u.kind, u.worker, policy, i) && byWorker[u.worker] == uploads[i].artifact;
      if u.kind.AuthSummary? && policy.signal(u.artifact.content) <= policy.signal(byWorker[u.worker].content) {
        assert Shows(all, u.kind, u.worker, policy, i);
      } else {
        assert Shows(all, u.kind, u.worker, policy, newest);
      }
    } else {
      assert Shows(all, u.kind, u.worker, policy, newest);
    }
  }

  /** An upload for someone else changes nothing. */
  lemma OtherUploadShown(byWorker: map<string, Artifact>, uploads: seq<Upload>, u: Upload, kind: ArtifactType,
                         worker: string, policy: Policy)
    requires ShownAt(byWorker, uploads, kind, worker, policy) && !Concerns(u, kind, worker)
    ensures ShownAt(byWorker, uploads + [u], kind, worker, policy)
  {
    var all := uploads + [u];
    assert forall j :: 0 <= j < |uploads| ==> all[j] == uploads[j];
    if worker in byWorker {
      var i: nat :| Shows(uploads, kind, worker, policy, i) && byWorker[worker] == uploads[i].artifact;
      assert Shows(all, kind, worker, policy, i);
    }
  }

  /** Storing one more upload keeps the shelf in step with the uploads. */
  lemma StoredShows(shelf: Shelf, uploads: seq<Upload>, u: Upload, policy: Policy)
    requires ShelfShows(shelf, uploads, policy) && u.kind in Kinds()
    ensures ShelfShows(shelf[u.kind := Stored(shelf[u.kind], u.worker, u.kind, u.artifact, policy)], uploads + [u],
                       policy)
  {
    var after := shelf[u.kind := Stored(shelf[u.kind], u.worker, u.kind, u.artifact, policy)];
    assert after.Keys == shelf.Keys;
    forall kind, worker | kind in Kinds() ensures ShownAt(after[kind], uploads + [u], kind, worker, policy) {
      assert ShownAt(shelf[kind], uploads, kind, worker, policy);
      if Concerns(u, kind, worker) {
        UploadShown(shelf[kind], uploads, u, policy);
      } else {
        OtherUploadShown(shelf[kind], uploads, u, kind, worker, policy);
        SameForOthers(shelf[kind], after[kind], uploads + [u], kind, worker, policy);
      }
    }
  }

  lemma SameForOthers(before: map<string, Artifact>, after: map<string, Artifact>, uploads: seq<Upload>,
                      kind: ArtifactType, worker: string, policy: Policy)
    requires ShownAt(before, uploads, kind, worker, policy)
    requires worker in before <==> worker in after
    requires worker in before ==> before[worker] == after[worker]
    ensures ShownAt(after, uploads, kind, worker, policy)
  {
  }

  lemma AcceptedMatches(run: RunState, h: History, now: Instant, op: Op, policy: Policy)
    requires op.StoreArtifact? && Matches(run, h, policy) && run.artifacts.Keys == Kinds()
    requires Check(run.expected, run.token, op.worker, op.token, op.kind).Done?
    ensures var u := Upload(op.worker, op.kind, Artifact(op.content, op.contentType, now));
            Matches(Accept(run, now, op.worker, op.kind, op.contentType, op.content, policy),
                    h.(uploads := h.uploads + [u]), policy)
  {
    var u := Upload(op.worker, op.kind, Artifact(op.content, op.contentType, now));
    StoredShows(run.artifacts, h.uploads, u, policy);
  }

  lemma StoreRefines(live: map<string, RunState>, hist: map<string, History>, now: Instant, op: Op, policy: Policy)
    requires Related(live, hist, now, policy) && op.StoreArtifact?
    requires forall id :: id in live <==> id in hist && Visible(hist[id], now, policy)
    ensures Answers(hist, now, op, policy, LazyStore(live, now, op, policy).1)
    ensures Related(LazyStore(live, now, op, policy).0, HistoryAfter(hist, now, op, policy), now, policy)
  {
    var id := op.testId;
    if id in live {
      var run := live[id];
      assert Matches(run, hist[id], policy);
      if Check(run.expected, run.token, op.worker, op.token, op.kind).Done? {
        AcceptedMatches(run, hist[id], now, op, policy);
      }
    }
  }

  lemma ReplaceRelated(live: map<string, RunState>, hist: map<string, History>, now: Instant, id: string,
                       run: RunState, h: History, policy: Policy)
    requires Related(live, hist, now, policy)
    requires run.artifacts.Keys == Kinds() && Matches(run, h, policy)
    requires !Expired(run, now) && Visible(h, now, policy)
    ensures Related(live[id := run], hist[id := h], now, policy)
  {
  }

  ghost predicate StepOk(runs: map<string, RunState>, hist: map<string, History>, now: Instant, op: Op, policy: Policy)
    requires Shelved(runs)
  {
    var (after, reply) := LazyStep(runs, now, op, policy);
    Answers(hist, now, op, policy, reply) && Related(after, HistoryAfter(hist, now, op, policy), now, policy)
  }

  lemma RegisterRefines(runs: map<string, RunState>, hist: map<string, History>, now: Instant, op: Op, policy: Policy)
    requires Related(runs, hist, now, policy) && op.RegisterRun?
    ensures StepOk(runs, hist, now, op, policy)
  {
    CleanupRelated(runs, hist, now, policy);
    EmptyShelfShows(policy);
    var run := RunState(NormalizeWorkers(op.workers), op.token, EmptyShelf(), now, None);
    var h := History(NormalizeWorkers(op.workers), op.token, now, [], None);
    ReplaceRelated(Cleanup(runs, now), hist, now, op.testId, run, h, policy);
  }

  lemma ClosedMatches(run: RunState, h: History, now: Instant, policy: Policy)
    requires Matches(run, h, policy)
    ensures Matches(run.(expiresAt := Some(now + policy.ttl)), h.(closedAt := Some(now)), policy)
  {
  }

  lemma RemoveRefines(runs: map<string, RunState>, hist: map<string, History>, now: Instant, op: Op, policy: Policy)
    requires Related(runs, hist, now, policy) && op.RemoveRun? && policy.ttl > 0
    ensures StepOk(runs, hist, now, op, policy)
  {
    CleanupRelated(runs, hist, now, policy);
    var live, id := Cleanup(runs, now), op.testId;
    if id in live {
      var run := live[id].(expiresAt := Some(now + policy.ttl));
      var h := hist[id].(closedAt := Some(now));
      ClosedMatches(live[id], hist[id], now, policy);
      ReplaceRelated(live, hist, now, id, run, h, policy);
      RemovedStep(runs, now, op, policy);
    }
  }

  lemma RemovedStep(runs: map<string, RunState>, now: Instant, op: Op, policy: Policy)
    requires Shelved(runs) && op.RemoveRun? && op.testId in Cleanup(runs, now)
    ensures var live, id := Cleanup(runs, now), op.testId;
            LazyStep(runs, now, op, policy) == (live[id := live[id].(expiresAt := Some(now + policy.ttl))], Done)
  {
    var r := LazyRemove(Cleanup(runs, now), now, op.testId, policy);
    assert LazyStep(runs, now, op, policy) == (r, Done);
  }

  lemma SnapshotRefines(runs: map<string, RunState>, hist: map<string, History>, now: Instant, op: Op, policy: Policy)
    requires Related(runs, hist, now, policy) && op.TakeSnapshot?
    ensures StepOk(runs, hist, now, op, policy)
  {
    CleanupRelated(runs, hist, now, policy);
    var live, id := Cleanup(runs, now), op.testId;
    if id in live {
      assert Matches(live[id], hist[id], policy);
    }
  }

  /** One operation: the answers are those of the history, and the relation holds on. */
  lemma StepRefines(runs: map<string, RunState>, hist: map<string, History>, now: Instant, op: Op, policy: Policy)
    requires Related(runs, hist, now, policy) && policy.ttl > 0
    ensures StepOk(runs, hist, now, op, policy)
  {
    match op {
      case RegisterRun(_, _, _) => RegisterRefines(runs, hist, now, op, policy);
      case RemoveRun(_) => RemoveRefines(runs, hist, now, op, policy);
      case StoreArtifact(_, _, _, _, _, _) =>
        CleanupRelated(runs, hist, now, policy);
        StoreRefines(Cleanup(runs, now), hist, now, op, policy);
      case TakeSnapshot(_) => SnapshotRefines(runs, hist, now, op, policy);
    }
  }

  datatype Call = Call(at: Instant, op: Op)

  predicate Ordered(calls: seq<Call>, from: Instant) {
    calls == [] || (from <= calls[0].at && Ordered(calls[1..], calls[0].at))
  }

  /** The registry's answers to a sequence of calls. */
  function Replies(runs: map<string, RunState>, calls: seq<Call>, policy: Policy): (replies: seq<Reply>)
    requires Shelved(runs)
    ensures |replies| == |calls|
    decreases |calls|
  {
    if calls == [] then []
    else
      var (next, reply) := LazyStep(runs, calls[0].at, calls[0].op, policy);
      [reply] + Replies(next, calls[1..], policy)
  }

  ghost predicate AllAnswered(hist: map<string, History>, calls: seq<Call>, replies: seq<Reply>, policy: Policy)
    decreases |calls|
  {
    if calls == [] then replies == []
    else
      && replies != []
      && Answers(hist, calls[0].at, calls[0].op, policy, replies[0])
      && AllAnswered(HistoryAfter(hist, calls[0].at, calls[0].op, policy), calls[1..], replies[1..], policy)
  }

  /** Lazy expiry cannot be observed: with a clock that does not run backwards, every
      sequence of calls is answered as the complete history demands. */
  lemma {:induction false} RegistryRefinesHistory(runs: map<string, RunState>, hist: map<string, History>,
                                                  from: Instant, calls: seq<Call>, policy: Policy)
    requires Related(runs, hist, from, policy) && policy.ttl > 0 && Ordered(calls, from)
    ensures AllAnswered(hist, calls, Replies(runs, calls, policy), policy)
    decreases |calls|
  {
    if calls != [] {
      var now, op := calls[0].at, calls[0].op;
      TimePasses(runs, hist, from, now, policy);
      StepRefines(runs, hist, now, op, policy);
      RegistryRefinesHistory(LazyStep(runs, now, op, policy).0, HistoryAfter(hist, now, op, policy), now, calls[1..],
                             policy);
      assert Replies(runs, calls, policy)[1..] == Replies(LazyStep(runs, now, op, policy).0, calls[1..], policy);
    }
  }

  lemma EmptyRelated(now: Instant, policy: Policy)
    ensures Related(map[], map[], now, policy)
  {
  }

  // ------------------------------------------------ stored keys

  ghost predicate ExpectedOnly(hist: map<string, History>) {
    forall id, i :: id in hist && 0 <= i < |hist[id].uploads| ==> hist[id].uploads[i].worker in hist[id].expected
  }

  lemma StepKeepsExpectedOnly(hist: map<string, History>, now: Instant, op: Op, policy: Policy)
    requires ExpectedOnly(hist)
    ensures ExpectedOnly(HistoryAfter(hist, now, op, policy))
  {
  }

  /** A snapshot names expected workers only. */
  lemma SnapshotNamesExpected(hist: map<string, History>, now: Instant, id: string, policy: Policy, reply: Reply)
    requires ExpectedOnly(hist)
    requires Answers(hist, now, TakeSnapshot(id), policy, reply) && reply.Got?
    ensures forall kind, worker :: kind in Kinds() && worker in reply.snapshot.artifacts[kind] ==>
              worker in reply.snapshot.expected
  {
    forall kind, worker | kind in Kinds() && worker in reply.snapshot.artifacts[kind]
      ensures worker in reply.snapshot.expected
    {
      assert ShownAt(reply.snapshot.artifacts[kind], hist[id].uploads, kind, worker, policy);
      var i: nat :| Shows(hist[id].uploads, kind, worker, policy, i);
    }
  }
}
