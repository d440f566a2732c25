// The bounded wait for completion artifacts: every attempt may load worker uploads
// and summary files, and the best result so far survives the deadline.
module CompletionLoop {
  import opened Instants
  import opened Collection

  /** What one attempt could load: the uploads are looked at first. */
  datatype Attempt = Attempt(uploaded: Option<Report>, files: Option<Report>)

  /** The loaded results in the order they are looked at. */
  function Seen(attempts: seq<Attempt>): seq<Report> {
    if attempts == [] then []
    else
      var last := attempts[|attempts| - 1];
      Seen(attempts[..|attempts| - 1])
      + (if last.uploaded.Some? then [last.uploaded.value] else [])
      + (if last.files.Some? then [last.files.value] else [])
  }

  /** The loop's answer: the first complete result, or else the first one of the
      largest number of summaries received, if any was. */
  ghost predicate Best(seen: seq<Report>, best: Option<Report>) {
    match best
    case None => forall i :: 0 <= i < |seen| ==> seen[i].receivedCount == 0 && !seen[i].verdict.Complete?
    case Some(r) =>
      exists k :: 0 <= k < |seen| && seen[k] == r && PicksAt(seen, k)
  }

  ghost predicate PicksAt(seen: seq<Report>, k: int)
    requires 0 <= k < |seen|
  {
    if seen[k].verdict.Complete? then forall i :: 0 <= i < k ==> !seen[i].verdict.Complete?
    else
      && (forall i :: 0 <= i < |seen| ==> !seen[i].verdict.Complete?)
      && (forall i :: 0 <= i < k ==> seen[i].receivedCount < seen[k].receivedCount)
      && (forall i :: k < i < |seen| ==> seen[i].receivedCount <= seen[k].receivedCount)
      && seen[k].receivedCount > 0
  }

  function Better(best: Option<Report>, r: Report): Option<Report> {
    if (if best.Some? then best.value.receivedCount else 0) < r.receivedCount then Some(r) else best
  }

  ghost predicate NoneComplete(seen: seq<Report>) {
    forall i :: 0 <= i < |seen| ==> !seen[i].verdict.Complete?
  }

  lemma OneMore(seen: seq<Report>, best: Option<Report>, r: Report)
    requires NoneComplete(seen) && Best(seen, best)
    ensures r.verdict.Complete? ==> forall rest :: Best(seen + [r] + rest, Some(r))
    ensures !r.verdict.Complete? ==> NoneComplete(seen + [r]) && Best(seen + [r], Better(best, r))
  {
    var more := seen + [r];
    if r.verdict.Complete? {
      forall rest ensures Best(more + rest, Some(r)) {
        var all := more + rest;
        assert all[|seen|] == r;
        forall i | 0 <= i < |seen| ensures !all[i].verdict.Complete? {
          assert all[i] == seen[i];
        }
        assert PicksAt(all, |seen|);
      }
    } else if best.Some? {
      var k :| 0 <= k < |seen| && seen[k] == best.value && PicksAt(seen, k);
      assert more[k] == seen[k] && more[|seen|] == r;
      if best.value.receivedCount < r.receivedCount {
        assert PicksAt(more, |seen|);
      } else {
        assert PicksAt(more, k);
      }
    } else {
      assert more[|seen|] == r;
      if r.receivedCount > 0 {
        assert PicksAt(more, |seen|);
      }
    }
  }

  lemma {:induction false} SeenPrefix(attempts: seq<Attempt>, n: nat)
    requires n <= |attempts|
    ensures Seen(attempts[..n]) <= Seen(attempts)
  {
    if n < |attempts| {
      SeenPrefix(attempts[..|attempts| - 1], n);
      assert attempts[..|attempts| - 1][..n] == attempts[..n];
    } else {
      assert attempts[..n] == attempts;
    }
  }

  /** A result is looked at: a complete one is the answer, another one may become the best. */
  lemma LookedAt(all: seq<Report>, seen: seq<Report>, best: Option<Report>, r: Report)
    requires NoneComplete(seen) && Best(seen, best) && seen + [r] <= all
    ensures r.verdict.Complete? ==> Best(all, Some(r))
    ensures !r.verdict.Complete? ==> NoneComplete(seen + [r]) && Best(seen + [r], Better(best, r))
  {
    OneMore(seen, best, r);
    assert all == seen + [r] + all[|seen| + 1..];
  }

  lemma SeenNext(attempts: seq<Attempt>, i: nat) returns (uploaded: seq<Report>, files: seq<Report>)
    requires i < |attempts|
    ensures uploaded == if attempts[i].uploaded.Some? then [attempts[i].uploaded.value] else []
    ensures files == if attempts[i].files.Some? then [attempts[i].files.value] else []
    ensures Seen(attempts[..i + 1]) == Seen(attempts[..i]) + uploaded + files
    ensures Seen(attempts[..i]) + uploaded <= Seen(attempts) && Seen(attempts[..i]) + uploaded + files <= Seen(attempts)
  {
    uploaded := if attempts[i].uploaded.Some? then [attempts[i].uploaded.value] else [];
    files := if attempts[i].files.Some? then [attempts[i].files.value] else [];
    assert attempts[..i + 1][..i] == attempts[..i];
    SeenPrefix(attempts, i + 1);
  }

  /** `attempts` are the ones before the deadline. */
  method LoadCompletionSummary(attempts: seq<Attempt>) returns (best: Option<Report>)
    ensures Best(Seen(attempts), best)
  {
    best := None;
    for i := 0 to |attempts|
      invariant NoneComplete(Seen(attempts[..i])) && Best(Seen(attempts[..i]), best)
    {
      ghost var seen := Seen(attempts[..i]);
      ghost var more, last := SeenNext(attempts, i);
      var uploaded := attempts[i].uploaded;
      if uploaded.Some? {
        LookedAt(Seen(attempts), seen, best, uploaded.value);
        if uploaded.value.verdict.Complete? {
          return uploaded;
        }
        best := Better(best, uploaded.value);
      }
      assert seen + more == if uploaded.Some? then seen + [uploaded.value] else seen;
      var files := attempts[i].files;
      if files.Some? {
        LookedAt(Seen(attempts), seen + more, best, files.value);
        if files.value.verdict.Complete? {
          return files;
        }
        best := Better(best, files.value);
      }
      assert seen + more + last == if files.Some? then seen + more + [files.value] else seen + more;
    }
    assert attempts[..|attempts|] == attempts;
  }
}
