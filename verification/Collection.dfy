// From a registry snapshot to the verdict on how complete its worker summaries are.
module Collection {
  import opened Instants
  import opened Text
  import opened RegistryModel
  import opened RawFormat
  import opened RawParser

  // ------------------------------------------------ the order of the workers

  /** Expected workers that have an artifact, in expected order. */
  function Present(expected: seq<string>, artifacts: map<string, Artifact>): seq<string> {
    if expected == [] then []
    else
      Present(expected[..|expected| - 1], artifacts)
      + (if expected[|expected| - 1] in artifacts then [expected[|expected| - 1]] else [])
  }

  ghost predicate Ascending(names: seq<string>) {
    forall i, j :: 0 <= i < j < |names| ==> Less(names[i], names[j])
  }

  /** One insertion into a sorted list. */
  method InsertSorted(names: seq<string>, name: string) returns (r: seq<string>)
    requires Ascending(names) && name !in names
    ensures Ascending(r)
    ensures forall x :: x in r <==> x in names || x == name
  {
    var i := 0;
    while i < |names| && Less(names[i], name)
      invariant 0 <= i <= |names|
      invariant forall k :: 0 <= k < i ==> Less(names[k], name)
    {
      i := i + 1;
    }
    r := names[..i] + [name] + names[i..];
    forall k | i <= k < |names| ensures Less(name, names[k]) {
      LessTotal(names[i], name);
      assert names[i] in names;
      if i < k {
        LessTransitive(name, names[i], names[k]);
      }
    }
    forall k, l | 0 <= k < l < |r| ensures Less(r[k], r[l]) {
    }
    assert forall x :: x in r <==> x in names || x == name by {
      assert names == names[..i] + names[i..];
    }
  }

  /** Expected workers in their order, then the unexpected ones in byte order. */
  ghost predicate Arranged(expected: seq<string>, artifacts: map<string, Artifact>, ordered: seq<string>) {
    var present := Present(expected, artifacts);
    && present <= ordered
    && Ascending(ordered[|present|..])
    && forall w :: w in ordered[|present|..] <==> w in artifacts && w !in expected
  }

  method OrderedArtifactWorkers(expected: seq<string>, artifacts: map<string, Artifact>) returns (ordered: seq<string>)
    ensures Arranged(expected, artifacts, ordered)
  {
    ordered := [];
    var seen: set<string> := {};
    for i := 0 to |expected|
      invariant ordered == Present(expected[..i], artifacts)
      invariant forall w :: w in seen <==> w in artifacts && w in expected[..i]
    {
      assert expected[..i + 1][..i] == expected[..i];
      assert forall w :: w in expected[..i + 1] <==> w in expected[..i] || w == expected[i];
      if expected[i] in artifacts {
        ordered := ordered + [expected[i]];
        seen := seen + {expected[i]};
      }
    }
    assert expected[..|expected|] == expected;
    var sorted := [];
    var remaining := artifacts.Keys;
    while remaining != {}
      invariant remaining <= artifacts.Keys
      invariant Ascending(sorted)
      invariant forall w :: w in sorted <==> w in artifacts && w !in remaining && w !in seen
      decreases |remaining|
    {
      var worker :| worker in remaining;
      remaining := remaining - {worker};
      if worker !in seen {
        sorted := InsertSorted(sorted, worker);
      }
    }
    ghost var present := ordered;
    ordered := ordered + sorted;
    assert ordered[|present|..] == sorted;
  }

  // ------------------------------------------------ the raw text

  /** The printable artifacts, in the order of the workers. */
  function Entries(ordered: seq<string>, artifacts: map<string, Artifact>): seq<Entry> {
    if ordered == [] then []
    else
      var worker := ordered[|ordered| - 1];
      Entries(ordered[..|ordered| - 1], artifacts)
      + (if worker in artifacts && !Blank(artifacts[worker].content) then [Entry(worker, artifacts[worker].content)]
         else [])
  }

  function Joined(parts: seq<string>): string {
    if parts == [] then "" else if |parts| == 1 then parts[0] else parts[0] + "\n\n" + Joined(parts[1..])
  }

  function Part(e: Entry): string {
    "--- " + e.name + " ---\n" + e.content
  }

  function Parts(entries: seq<Entry>): (r: seq<string>)
    ensures |r| == |entries|
    ensures forall i :: 0 <= i < |r| ==> r[i] == Part(entries[i])
  {
    seq(|entries|, i requires 0 <= i < |entries| => Part(entries[i]))
  }

  lemma {:induction false} JoinedIsRendered(entries: seq<Entry>)
    ensures Joined(Parts(entries)) == Render(entries)
  {
    if |entries| == 1 {
      assert Part(entries[0]) == "--- " + Block(entries[0]);
    } else if |entries| > 1 {
      JoinedIsRendered(entries[1..]);
      assert Parts(entries)[1..] == Parts(entries[1..]);
      assert Part(entries[0]) + "\n\n" + ("--- " + Body(entries[1..]))
          == "--- " + (Block(entries[0]) + "\n\n--- " + Body(entries[1..]));
    }
  }

  lemma PartsNext(ordered: seq<string>, artifacts: map<string, Artifact>, i: nat)
    requires i < |ordered|
    ensures var worker := ordered[i];
            Parts(Entries(ordered[..i + 1], artifacts))
            == Parts(Entries(ordered[..i], artifacts))
               + if worker in artifacts && TrimSpace(artifacts[worker].content) != ""
                 then ["--- " + worker + " ---\n" + artifacts[worker].content] else []
  {
    assert ordered[..i + 1][..i] == ordered[..i];
  }

  /** The text is the printed artifacts of all senders, in their order. */
  ghost predicate PrintedFrom(expected: seq<string>, artifacts: map<string, Artifact>, raw: string) {
    exists ordered :: Arranged(expected, artifacts, ordered) && raw == Render(Entries(ordered, artifacts))
  }

  method BuildRawSummary(snapshot: Snapshot, kind: ArtifactType) returns (raw: string)
    ensures kind !in snapshot.artifacts ==> raw == ""
    ensures kind in snapshot.artifacts ==> PrintedFrom(snapshot.expected, snapshot.artifacts[kind], raw)
  {
    if kind !in snapshot.artifacts {
      return "";
    }
    var artifacts := snapshot.artifacts[kind];
    if |artifacts| == 0 {
      NothingPresent(snapshot.expected, artifacts);
      assert Arranged(snapshot.expected, artifacts, []);
      return "";
    }
    var ordered := OrderedArtifactWorkers(snapshot.expected, artifacts);
    var parts: seq<string> := [];
    for i := 0 to |ordered|
      invariant parts == Parts(Entries(ordered[..i], artifacts))
    {
      PartsNext(ordered, artifacts, i);
      var worker := ordered[i];
      if worker in artifacts && TrimSpace(artifacts[worker].content) != "" {
        parts := parts + ["--- " + worker + " ---\n" + artifacts[worker].content];
      }
    }
    assert ordered[..|ordered|] == ordered;
    JoinedIsRendered(Entries(ordered, artifacts));
    raw := Joined(parts);
  }

  lemma {:induction false} NothingPresent(expected: seq<string>, artifacts: map<string, Artifact>)
    requires |artifacts| == 0
    ensures Present(expected, artifacts) == []
  {
    if expected != [] {
      NothingPresent(expected[..|expected| - 1], artifacts);
    }
  }

  // ------------------------------------------------ the verdict

  datatype Verdict = Complete | Partial | Missing

  datatype Report = Report(verdict: Verdict, expectedCount: nat, receivedCount: nat, missing: seq<string>)

  function ReceivedNames(workers: seq<string>): set<string> {
    set w | w in workers && TrimSpace(w) != "" :: TrimSpace(w)
  }

  function MissingFrom(expected: seq<string>, received: set<string>): seq<string> {
    if expected == [] then []
    else
      var worker := TrimSpace(expected[|expected| - 1]);
      MissingFrom(expected[..|expected| - 1], received) + (if worker == "" || worker in received then [] else [worker])
  }

  function Judge(expectedCount: nat, receivedCount: nat, missing: seq<string>): Verdict {
    if expectedCount == 0 && receivedCount > 0 then Complete
    else if receivedCount == 0 then Missing
    else if expectedCount > 0 && receivedCount >= expectedCount && missing == [] then Complete
    else Partial
  }

  /** `merged` lists the workers of the parsed summaries, or None without any. */
  function Classify(expected: seq<string>, merged: Option<seq<string>>): Report {
    var workers := if merged.Some? then merged.value else [];
    var expectedCount := if expected == [] then |workers| else |expected|;
    var missing := MissingFrom(expected, ReceivedNames(workers));
    Report(Judge(expectedCount, |workers|, missing), expectedCount, |workers|, missing)
  }

  method ClassifyArtifactCollection(expected: seq<string>, merged: Option<seq<string>>) returns (report: Report)
    ensures report == Classify(expected, merged)
  {
    var receivedNames: set<string> := {};
    var workers := if merged.Some? then merged.value else [];
    for i := 0 to |workers|
      invariant receivedNames == ReceivedNames(workers[..i])
    {
      assert forall w :: w in workers[..i + 1] <==> w in workers[..i] || w == workers[i];
      var name := TrimSpace(workers[i]);
      if name != "" {
        receivedNames := receivedNames + {name};
      }
    }
    assert workers[..|workers|] == workers;
    var missing := [];
    for i := 0 to |expected|
      invariant missing == MissingFrom(expected[..i], receivedNames)
    {
      assert expected[..i + 1][..i] == expected[..i];
      var worker := TrimSpace(expected[i]);
      if worker != "" && worker !in receivedNames {
        missing := missing + [worker];
      }
    }
    assert expected[..|expected|] == expected;
    var expectedCount := if |expected| == 0 then |workers| else |expected|;
    report := Report(Judge(expectedCount, |workers|, missing), expectedCount, |workers|, missing);
  }

  function NamesOf<K>(summaries: seq<Named<K>>): (r: seq<string>)
    ensures |r| == |summaries|
    ensures forall i :: 0 <= i < |r| ==> r[i] == summaries[i].name
  {
    seq(|summaries|, i requires 0 <= i < |summaries| => summaries[i].name)
  }

  /** Parsing the raw text and classifying what it holds. */
  function CollectionFromRaw<K>(expected: seq<string>, raw: string, decode: string -> Option<K>): Report {
    match ParseRaw(raw, SummaryBlock, decode)
    case None => Classify(expected, None)
    case Some(summaries) => Classify(expected, Some(NamesOf(summaries)))
  }

  // ------------------------------------------------ from snapshot to verdict

  /** The worker has sent a summary worth printing. */
  predicate Uploaded(artifacts: map<string, Artifact>, worker: string) {
    worker in artifacts && !Blank(artifacts[worker].content)
  }

  /** What registration guarantees of a run's workers, plus newline-free names. */
  ghost predicate WorkersOk(expected: seq<string>) {
    && (forall w :: w in expected ==> NameOk(w))
    && (forall i, j :: 0 <= i < j < |expected| ==> expected[i] != expected[j])
  }

  /** Every printable summary is accepted by the JSON decoder, and the decoder accepts
      only lexically sound JSON. */
  ghost predicate SummariesOk<K>(artifacts: map<string, Artifact>, decode: string -> Option<K>) {
    && (forall w :: w in artifacts && !Blank(artifacts[w].content) ==> decode(TrimSpace(artifacts[w].content)).Some?)
    && (forall text :: decode(text).Some? ==> JsonLexical(text))
  }

  /** The expected workers that have uploaded, in order. */
  function Senders(expected: seq<string>, artifacts: map<string, Artifact>): seq<string> {
    if expected == [] then []
    else
      var worker := expected[|expected| - 1];
      Senders(expected[..|expected| - 1], artifacts) + (if Uploaded(artifacts, worker) then [worker] else [])
  }

  lemma {:induction false} EntriesOfSenders(expected: seq<string>, artifacts: map<string, Artifact>)
    ensures var entries := Entries(Present(expected, artifacts), artifacts);
            && |entries| == |Senders(expected, artifacts)|
            && forall i :: 0 <= i < |entries| ==>
                 && entries[i].name == Senders(expected, artifacts)[i]
                 && entries[i].name in expected && Uploaded(artifacts, entries[i].name)
                 && entries[i].content == artifacts[entries[i].name].content
  {
    if expected != [] {
      var init, worker := expected[..|expected| - 1], expected[|expected| - 1];
      EntriesOfSenders(init, artifacts);
      if worker in artifacts {
        var present := Present(expected, artifacts);
        assert present[..|present| - 1] == Present(init, artifacts);
      } else {
        assert Present(expected, artifacts) == Present(init, artifacts);
      }
      assert forall w :: w in init ==> w in expected;
    }
  }

  lemma {:induction false} ExpectedNames<K>(entries: seq<Entry>, n: nat, decode: string -> Option<K>)
    requires n <= |entries|
    requires forall e :: e in entries ==> decode(TrimSpace(e.content)).Some?
    ensures |Expected(entries, n, decode, false)| == n
    ensures forall i :: 0 <= i < n ==> Expected(entries, n, decode, false)[i].name == entries[i].name
  {
    if n > 0 {
      ExpectedNames(entries, n - 1, decode);
    }
  }

  /** Parsing the printed snapshot names exactly the workers that uploaded. */
  lemma ParsedSenders<K>(expected: seq<string>, artifacts: map<string, Artifact>, decode: string -> Option<K>)
    requires WorkersOk(expected) && SummariesOk(artifacts, decode)
    ensures var senders := Senders(expected, artifacts);
            var parsed := ParseRaw(Render(Entries(Present(expected, artifacts), artifacts)), SummaryBlock, decode);
            if senders == [] then parsed.None? else parsed.Some? && NamesOf(parsed.value) == senders
  {
    var entries := Entries(Present(expected, artifacts), artifacts);
    var senders := Senders(expected, artifacts);
    EntriesOfSenders(expected, artifacts);
    forall e | e in entries ensures EntryOk(e) && decode(TrimSpace(e.content)).Some? {
      var i :| 0 <= i < |entries| && entries[i] == e;
      assert NameOk(e.name) && Uploaded(artifacts, e.name);
      JsonContentOk(e.content);
    }
    SummaryRoundTrip(entries, decode);
    ExpectedNames(entries, |entries|, decode);
    if senders != [] {
      assert NamesOf(Expected(entries, |entries|, decode, false)) == senders;
    }
  }

  lemma {:induction false} SendersExact(expected: seq<string>, artifacts: map<string, Artifact>)
    ensures forall w :: w in Senders(expected, artifacts) <==> w in expected && Uploaded(artifacts, w)
    ensures |Senders(expected, artifacts)| <= |expected|
    ensures |Senders(expected, artifacts)| == |expected| <==> forall w :: w in expected ==> Uploaded(artifacts, w)
  {
    if expected != [] {
      SendersExact(expected[..|expected| - 1], artifacts);
      assert expected == expected[..|expected| - 1] + [expected[|expected| - 1]];
    }
  }

  lemma {:induction false} MissingExact(expected: seq<string>, received: set<string>, artifacts: map<string, Artifact>)
    requires forall w :: w in expected ==> NameOk(w) && (w in received <==> Uploaded(artifacts, w))
    ensures |MissingFrom(expected, received)| + |Senders(expected, artifacts)| == |expected|
    ensures forall w :: w in MissingFrom(expected, received) <==> w in expected && !Uploaded(artifacts, w)
  {
    if expected != [] {
      var init, worker := expected[..|expected| - 1], expected[|expected| - 1];
      assert expected == init + [worker];
      MissingExact(init, received, artifacts);
      assert worker in expected;
      TrimmedIsFixed(worker);
    }
  }

  lemma ReceivedAreSenders(expected: seq<string>, senders: seq<string>)
    requires forall w :: w in senders ==> w in expected
    requires forall w :: w in expected ==> NameOk(w)
    ensures forall w :: w in ReceivedNames(senders) <==> w in senders
  {
    forall w | w in senders ensures TrimSpace(w) == w && w != "" {
      TrimmedIsFixed(w);
    }
  }

  /** What is received and what is missing, for the list of senders. */
  lemma CountsExact(expected: seq<string>, artifacts: map<string, Artifact>)
    requires WorkersOk(expected)
    ensures var senders := Senders(expected, artifacts);
            var missing := MissingFrom(expected, ReceivedNames(senders));
            && |senders| + |missing| == |expected|
            && (forall w :: w in missing <==> w in expected && !Uploaded(artifacts, w))
            && (|senders| == |expected| <==> forall w :: w in expected ==> Uploaded(artifacts, w))
            && (senders == [] <==> forall w :: w in expected ==> !Uploaded(artifacts, w))
  {
    var senders := Senders(expected, artifacts);
    SendersExact(expected, artifacts);
    ReceivedAreSenders(expected, senders);
    MissingExact(expected, ReceivedNames(senders), artifacts);
    if senders != [] {
      assert senders[0] in senders;
    }
  }

  /** The verdict on the senders among the expected workers. */
  lemma ClassifiedExact(expected: seq<string>, artifacts: map<string, Artifact>)
    requires WorkersOk(expected)
    ensures var senders := Senders(expected, artifacts);
            var report := Classify(expected, if senders == [] then None else Some(senders));
            && (report.verdict.Complete? <==> expected != [] && forall w :: w in expected ==> Uploaded(artifacts, w))
            && (report.verdict.Missing? <==> forall w :: w in expected ==> !Uploaded(artifacts, w))
            && report.expectedCount == |expected|
            && report.receivedCount + |report.missing| == |expected|
            && (forall w :: w in report.missing <==> w in expected && !Uploaded(artifacts, w))
  {
    CountsExact(expected, artifacts);
  }

  /** The verdict on a snapshot, through the printed text and back: complete exactly
      when every expected worker has uploaded, missing exactly when none has, and the
      received and the missing workers always add up to the expected ones. */
  lemma VerdictExact<K>(expected: seq<string>, artifacts: map<string, Artifact>, raw: string,
                        decode: string -> Option<K>)
    requires WorkersOk(expected) && SummariesOk(artifacts, decode)
    requires forall w :: w in artifacts ==> w in expected
    requires PrintedFrom(expected, artifacts, raw)
    ensures var report := CollectionFromRaw(expected, raw, decode);
            && (report.verdict.Complete? <==> expected != [] && forall w :: w in expected ==> Uploaded(artifacts, w))
            && (report.verdict.Missing? <==> forall w :: w in expected ==> !Uploaded(artifacts, w))
            && report.expectedCount == |expected|
            && report.receivedCount + |report.missing| == |expected|
            && (forall w :: w in report.missing <==> w in expected && !Uploaded(artifacts, w))
  {
    var ordered :| Arranged(expected, artifacts, ordered) && raw == Render(Entries(ordered, artifacts));
    NobodyExtra(expected, artifacts, ordered);
    ParsedSenders(expected, artifacts, decode);
    ClassifiedExact(expected, artifacts);
  }

  lemma FirstMember(names: seq<string>)
    ensures names != [] ==> names[0] in names
  {
  }

  lemma NobodyExtra(expected: seq<string>, artifacts: map<string, Artifact>, ordered: seq<string>)
    requires Arranged(expected, artifacts, ordered) && forall w :: w in artifacts ==> w in expected
    ensures ordered == Present(expected, artifacts)
  {
    var present := Present(expected, artifacts);
    var extras := ordered[|present|..];
    FirstMember(extras);
    assert ordered == present + extras;
  }

  // ------------------------------------------------ the verdict on any list of summaries

  lemma {:induction false} MissingMembers(expected: seq<string>, received: set<string>, w: string)
    ensures w in MissingFrom(expected, received)
       <==> w != "" && w !in received && exists e :: e in expected && TrimSpace(e) == w
  {
    if expected != [] {
      var init, last := expected[..|expected| - 1], expected[|expected| - 1];
      MissingMembers(init, received, w);
      assert forall e :: e in expected <==> e in init || e == last;
    }
  }

  /** Whatever was expected and whatever arrived: nothing is missing data exactly when no summary arrived; it is
      complete exactly when some did, nobody expected is missing, and there are at least as many as expected; with
      nobody expected, whoever arrived was expected. */
  lemma ClassifyMeaning(expected: seq<string>, merged: Option<seq<string>>)
    ensures var report := Classify(expected, merged);
            var arrived := if merged.None? then [] else merged.value;
            && report.receivedCount == |arrived|
            && report.expectedCount == (if expected == [] then |arrived| else |expected|)
            && (forall w :: w in report.missing <==>
                  && w != "" && (exists e :: e in expected && TrimSpace(e) == w)
                  && forall a :: a in arrived ==> TrimSpace(a) != w)
            && (report.verdict == Missing <==> arrived == [])
            && (report.verdict == Complete <==>
                  arrived != [] && (expected == [] || (|expected| <= |arrived| && report.missing == [])))
  {
    var arrived := if merged.None? then [] else merged.value;
    forall w ensures w in MissingFrom(expected, ReceivedNames(arrived)) <==>
                     && w != "" && (exists e :: e in expected && TrimSpace(e) == w)
                     && forall a :: a in arrived ==> TrimSpace(a) != w
    {
      MissingMembers(expected, ReceivedNames(arrived), w);
    }
  }
}
