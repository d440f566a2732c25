// From the calls the registry received to the verdict on a run's summaries.
module UploadVerdicts {
  import opened Instants
  import opened Text
  import opened RegistryModel
  import opened RawFormat
  import opened Collection

  /** The run expects a list of workers as registration makes it, and has accepted uploads of those only. */
  ghost predicate Proper(h: History) {
    && Normal(h.expected)
    && forall u :: u in h.uploads ==> u.worker in h.expected
  }

  ghost predicate AllProper(hist: map<string, History>) {
    forall id :: id in hist ==> Proper(hist[id])
  }

  lemma StepKeepsProper(hist: map<string, History>, now: Instant, op: Op, policy: Policy)
    requires AllProper(hist)
    ensures AllProper(HistoryAfter(hist, now, op, policy))
  {
    var after := HistoryAfter(hist, now, op, policy);
    forall id | id in after ensures Proper(after[id]) {
      if id in hist {
        assert Proper(hist[id]);
      }
      if op.RegisterRun? && id == op.testId {
        NormalizedWorkers(op.workers);
      } else {
        assert after[id].expected == hist[id].expected;
      }
    }
  }

  /** What the first `n` calls have left behind. */
  function HistoryBefore(calls: seq<Call>, n: nat, policy: Policy): map<string, History>
    requires n <= |calls|
  {
    if n == 0 then map[]
    else HistoryAfter(HistoryBefore(calls, n - 1, policy), calls[n - 1].at, calls[n - 1].op, policy)
  }

  lemma {:induction false} RunsStayProper(calls: seq<Call>, n: nat, policy: Policy)
    requires n <= |calls|
    ensures AllProper(HistoryBefore(calls, n, policy))
  {
    if n > 0 {
      RunsStayProper(calls, n - 1, policy);
      StepKeepsProper(HistoryBefore(calls, n - 1, policy), calls[n - 1].at, calls[n - 1].op, policy);
    }
  }

  lemma {:induction false} AnsweredFrom(calls: seq<Call>, m: nat, n: nat, replies: seq<Reply>, policy: Policy)
    requires m <= n < |calls| && |replies| == |calls|
    requires AllAnswered(HistoryBefore(calls, m, policy), calls[m..], replies[m..], policy)
    ensures Answers(HistoryBefore(calls, n, policy), calls[n].at, calls[n].op, policy, replies[n])
    decreases n - m
  {
    if m < n {
      assert calls[m..][1..] == calls[m + 1..] && replies[m..][1..] == replies[m + 1..];
      AnsweredFrom(calls, m + 1, n, replies, policy);
    }
  }

  /** The n-th answer of a registry that starts empty is the one its calls so far demand. */
  lemma ReplyAnswers(calls: seq<Call>, n: nat, from: Instant, policy: Policy)
    requires Ordered(calls, from) && policy.ttl > 0 && n < |calls|
    ensures Answers(HistoryBefore(calls, n, policy), calls[n].at, calls[n].op, policy, Replies(map[], calls, policy)[n])
  {
    var replies := Replies(map[], calls, policy);
    EmptyRelated(from, policy);
    RegistryRefinesHistory(map[], map[], from, calls, policy);
    assert calls[0..] == calls && replies[0..] == replies;
    AnsweredFrom(calls, 0, n, replies, policy);
  }

  /** The last summary the run accepted from the worker is not blank. */
  ghost predicate Sent(uploads: seq<Upload>, worker: string) {
    exists i ::
      && 0 <= i < |uploads|
      && Concerns(uploads[i], Summary, worker)
      && !Blank(uploads[i].artifact.content)
      && forall j :: i < j < |uploads| ==> !Concerns(uploads[j], Summary, worker)
  }

  lemma ShownIsSent(byWorker: map<string, Artifact>, uploads: seq<Upload>, worker: string, policy: Policy)
    requires ShownAt(byWorker, uploads, Summary, worker, policy)
    ensures Uploaded(byWorker, worker) <==> Sent(uploads, worker)
  {
    if worker in byWorker {
      var i: nat :| Shows(uploads, Summary, worker, policy, i) && byWorker[worker] == uploads[i].artifact;
    }
  }

  /** The verdict on a run, told from what it accepted: complete exactly when the last summary of every expected
      worker is not blank, missing exactly when that is so of none. */
  ghost predicate Fair(report: Report, h: History) {
    && (report.verdict.Complete? <==> h.expected != [] && forall w :: w in h.expected ==> Sent(h.uploads, w))
    && (report.verdict.Missing? <==> forall w :: w in h.expected ==> !Sent(h.uploads, w))
    && report.expectedCount == |h.expected|
    && report.receivedCount + |report.missing| == |h.expected|
    && forall w :: w in report.missing <==> w in h.expected && !Sent(h.uploads, w)
  }

  lemma SnapshotFair<K>(hist: map<string, History>, now: Instant, id: string, policy: Policy, reply: Reply, raw: string,
                        decode: string -> Option<K>)
    requires AllProper(hist) && Answers(hist, now, TakeSnapshot(id), policy, reply) && reply.Got?
    requires forall w :: w in reply.snapshot.expected ==> NoNewline(w)
    requires SummariesOk(reply.snapshot.artifacts[Summary], decode)
    requires PrintedFrom(reply.snapshot.expected, reply.snapshot.artifacts[Summary], raw)
    ensures Fair(CollectionFromRaw(reply.snapshot.expected, raw, decode), hist[id])
  {
    var h, artifacts := hist[id], reply.snapshot.artifacts[Summary];
    assert Proper(h);
    forall w ensures (w in artifacts ==> w in h.expected) && (Uploaded(artifacts, w) <==> Sent(h.uploads, w)) {
      assert ShownAt(artifacts, h.uploads, Summary, w, policy);
      ShownIsSent(artifacts, h.uploads, w, policy);
    }
    VerdictExact(h.expected, artifacts, raw, decode);
  }

  /** From the calls to the verdict: whatever an empty registry was asked to do, the verdict on the printed snapshot
      of a run is fair to the uploads that run has accepted since it was registered. */
  lemma VerdictFromCalls<K>(calls: seq<Call>, n: nat, from: Instant, policy: Policy, raw: string,
                            decode: string -> Option<K>)
    requires Ordered(calls, from) && policy.ttl > 0 && n < |calls| && calls[n].op.TakeSnapshot?
    requires var reply := Replies(map[], calls, policy)[n];
             reply.Got? ==>
               && (forall w :: w in reply.snapshot.expected ==> NoNewline(w))
               && Summary in reply.snapshot.artifacts
               && SummariesOk(reply.snapshot.artifacts[Summary], decode)
               && PrintedFrom(reply.snapshot.expected, reply.snapshot.artifacts[Summary], raw)
    ensures var reply, id := Replies(map[], calls, policy)[n], calls[n].op.testId;
            var hist := HistoryBefore(calls, n, policy);
            && (reply.Got? <==> id in hist && Visible(hist[id], calls[n].at, policy))
            && (reply.Got? ==> Fair(CollectionFromRaw(reply.snapshot.expected, raw, decode), hist[id]))
  {
    var reply := Replies(map[], calls, policy)[n];
    ReplyAnswers(calls, n, from, policy);
    RunsStayProper(calls, n, policy);
    if reply.Got? {
      SnapshotFair(HistoryBefore(calls, n, policy), calls[n].at, calls[n].op.testId, policy, reply, raw, decode);
    }
  }
}
