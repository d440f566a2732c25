// What the poll loop remembers of a run, and when it declares the run complete.
module Polling {
  import opened Instants

  /** One worker's line in an aggregated poll; an unreachable worker counts with 0 VUs. */
  datatype Sample = Sample(address: string, vus: int)

  datatype Poll = Poll(samples: seq<Sample>, requests: real)

  /** A worker's answer to a status request. */
  datatype Reply = Unreachable | Status(paused: bool, running: bool, finished: bool)

  /** A point of the recorded time series. */
  datatype Point = Point(elapsed: int, poll: Poll)

  datatype PollState = PollState(seenRunning: bool, zeroMetricRun: nat, peaks: map<string, int>, series: seq<Point>,
                                 latest: Option<Poll>)

  const FRESH := PollState(false, 0, map[], [], None)

  function TotalVus(samples: seq<Sample>): int {
    if samples == [] then 0 else TotalVus(samples[..|samples| - 1]) + samples[|samples| - 1].vus
  }

  predicate HasData(p: Poll) {
    p.requests > 0.0 || TotalVus(p.samples) > 0
  }

  /** The recorded peak of a worker; no entry reads as 0. */
  function PeakOf(peaks: map<string, int>, address: string): int {
    if address in peaks then peaks[address] else 0
  }

  /** The workers at their recorded peaks. */
  function AtPeak(workers: seq<Sample>, peaks: map<string, int>): (s: seq<Sample>)
    ensures |s| == |workers|
    ensures forall i :: 0 <= i < |s| ==> s[i] == Sample(workers[i].address, PeakOf(peaks, workers[i].address))
  {
    seq(|workers|, i requires 0 <= i < |workers| => Sample(workers[i].address, PeakOf(peaks, workers[i].address)))
  }

  function RaisePeaks(peaks: map<string, int>, samples: seq<Sample>): map<string, int> {
    if samples == [] then peaks
    else
      var last := samples[|samples| - 1];
      var before := RaisePeaks(peaks, samples[..|samples| - 1]);
      if last.vus > PeakOf(before, last.address) then before[last.address := last.vus] else before
  }

  function Update(s: PollState, p: Poll, elapsed: int): PollState {
    if HasData(p) then PollState(true, 0, RaisePeaks(s.peaks, p.samples), s.series + [Point(elapsed, p)], Some(p))
    else if s.seenRunning then s.(zeroMetricRun := s.zeroMetricRun + 1, latest := Some(p))
    else s.(latest := Some(p))
  }

  function Remembered(history: seq<Point>): PollState {
    if history == [] then FRESH
    else
      var last := history[|history| - 1];
      Update(Remembered(history[..|history| - 1]), last.poll, last.elapsed)
  }

  // ------------------------------------------------ the history, told directly

  ghost predicate SomeData(history: seq<Point>) {
    exists i :: 0 <= i < |history| && HasData(history[i].poll)
  }

  /** The last poll with data is `k`. */
  predicate LastData(history: seq<Point>, k: nat) {
    k < |history| && HasData(history[k].poll) && forall i :: k < i < |history| ==> !HasData(history[i].poll)
  }

  ghost predicate Reported(history: seq<Point>, address: string, vus: int) {
    exists i :: 0 <= i < |history| && Sample(address, vus) in history[i].poll.samples
  }

  predicate NonNegativeVus(history: seq<Point>) {
    forall i, s :: 0 <= i < |history| && s in history[i].poll.samples ==> s.vus >= 0
  }

  function Recorded(history: seq<Point>): seq<Point> {
    if history == [] then []
    else
      var rest := Recorded(history[..|history| - 1]);
      if HasData(history[|history| - 1].poll) then rest + [history[|history| - 1]] else rest
  }

  /** Having seen the test run means that some poll had data; the empty-poll counter is the number of polls since
      the last one that had; the time series is the polls with data, in order; the latest metrics are the last
      poll's, with or without data. */
  lemma {:induction false} MemoryExact(history: seq<Point>) returns (k: nat)
    ensures var s := Remembered(history);
            && (s.seenRunning <==> SomeData(history))
            && (s.seenRunning ==> LastData(history, k) && s.zeroMetricRun == |history| - 1 - k)
            && (!s.seenRunning ==> s.zeroMetricRun == 0)
            && s.series == Recorded(history)
            && s.latest == if history == [] then None else Some(history[|history| - 1].poll)
  {
    k := 0;
    if history != [] {
      var before, n := history[..|history| - 1], |history| - 1;
      k := MemoryExact(before);
      if HasData(history[n].poll) {
        k := n;
      } else {
        assert SomeData(before) ==> SomeData(history) by {
          if SomeData(before) {
            var i :| 0 <= i < |before| && HasData(before[i].poll);
            assert HasData(history[i].poll);
          }
        }
        assert SomeData(history) ==> SomeData(before) by {
          if SomeData(history) {
            var i :| 0 <= i < |history| && HasData(history[i].poll);
            assert HasData(before[i].poll);
          }
        }
        if SomeData(before) {
          forall i | k < i < |history| ensures !HasData(history[i].poll) {
            assert i < n ==> !HasData(before[i].poll);
          }
        }
      }
    }
  }

  lemma {:induction false} RaisedPeaks(peaks: map<string, int>, samples: seq<Sample>, address: string)
    ensures var after := PeakOf(RaisePeaks(peaks, samples), address);
            && after >= PeakOf(peaks, address)
            && (forall s :: s in samples && s.address == address ==> s.vus <= after)
            && (after == PeakOf(peaks, address) || Sample(address, after) in samples)
  {
    if samples != [] {
      var before, last := samples[..|samples| - 1], samples[|samples| - 1];
      RaisedPeaks(peaks, before, address);
      assert samples == before + [last];
    }
  }

  lemma {:induction false} NoVusNoSamples(samples: seq<Sample>)
    requires forall s :: s in samples ==> s.vus >= 0
    ensures TotalVus(samples) >= 0
    ensures TotalVus(samples) == 0 ==> forall s :: s in samples ==> s.vus == 0
  {
    if samples != [] {
      var before, last := samples[..|samples| - 1], samples[|samples| - 1];
      NoVusNoSamples(before);
      assert samples == before + [last];
    }
  }

  lemma ReportedSplit(before: seq<Point>, last: Point, address: string, vus: int)
    ensures Reported(before + [last], address, vus)
       <==> Reported(before, address, vus) || Sample(address, vus) in last.poll.samples
  {
    var history := before + [last];
    if Reported(before, address, vus) {
      var i :| 0 <= i < |before| && Sample(address, vus) in before[i].poll.samples;
      assert history[i] == before[i];
    }
    if Sample(address, vus) in last.poll.samples {
      assert history[|before|] == last;
    }
  }

  ghost predicate PeakCorrect(history: seq<Point>, address: string, peak: int) {
    && peak >= 0
    && (forall vus :: Reported(history, address, vus) ==> vus <= peak)
    && (peak == 0 || Reported(history, address, peak))
  }

  lemma PeaksStep(before: seq<Point>, last: Point, address: string)
    requires forall s :: s in last.poll.samples ==> s.vus >= 0
    requires PeakCorrect(before, address, PeakOf(Remembered(before).peaks, address))
    ensures var after := Update(Remembered(before), last.poll, last.elapsed);
            PeakCorrect(before + [last], address, PeakOf(after.peaks, address))
  {
    var samples := last.poll.samples;
    var after := PeakOf(Update(Remembered(before), last.poll, last.elapsed).peaks, address);
    if HasData(last.poll) {
      RaisedPeaks(Remembered(before).peaks, samples, address);
    } else {
      NoVusNoSamples(samples);
    }
    forall vus ensures Reported(before + [last], address, vus) ==> vus <= after {
      ReportedSplit(before, last, address, vus);
      assert Sample(address, vus) in samples ==> Sample(address, vus).vus <= after;
    }
    ReportedSplit(before, last, address, after);
  }

  /** The recorded peak of a worker bounds every count it ever reported, and was reported (or is 0), although polls
      without data are not looked at. */
  lemma {:induction false} PeaksExact(history: seq<Point>, address: string)
    requires NonNegativeVus(history)
    ensures PeakCorrect(history, address, PeakOf(Remembered(history).peaks, address))
  {
    if history != [] {
      var before, last := history[..|history| - 1], history[|history| - 1];
      PeaksExact(before, address);
      PeaksStep(before, last, address);
      assert before + [last] == history;
    }
  }

  /** The total is the workers' counts added up. */
  lemma {:induction false} TotalAdds(a: seq<Sample>, b: seq<Sample>)
    ensures TotalVus(a + b) == TotalVus(a) + TotalVus(b)
    ensures |b| == 1 ==> TotalVus(b) == b[0].vus
  {
    if b == [] {
      assert a + b == a;
    } else {
      var n := |b| - 1;
      TotalAdds(a, b[..n]);
      assert (a + b)[..|a + b| - 1] == a + b[..n];
      assert |b| == 1 ==> b[..n] == [];
    }
  }

  /** What one poll does: requests or VUs, even one of them, make it count and reset the counter of empty polls; without
      either it is empty, and counts as such only once the test has been seen running. */
  lemma PollCounts(s: PollState, p: Poll, elapsed: int)
    ensures var after := Update(s, p, elapsed);
            && after.latest == Some(p)
            && (p.requests > 0.0 || TotalVus(p.samples) > 0 ==>
                  after.seenRunning && after.zeroMetricRun == 0 && after.series == s.series + [Point(elapsed, p)])
            && (p.requests <= 0.0 && TotalVus(p.samples) <= 0 ==>
                  && after.seenRunning == s.seenRunning && after.series == s.series && after.peaks == s.peaks
                  && after.zeroMetricRun == s.zeroMetricRun + if s.seenRunning then 1 else 0)
  {
  }
}
