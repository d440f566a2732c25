// The poll loop over the orchestrator's mutable polling fields.
module PollService {
  import opened Polling
  import opened PollEndings
  import opened Instants

  class Orchestrator {
    var seenRunning: bool
    var zeroMetricRun: nat
    var peakWorkerVUs: map<string, int>
    var timeSeries: seq<Point>
    var latestMetrics: Option<Poll>

    ghost function View(): PollState
      reads this
    {
      PollState(seenRunning, zeroMetricRun, peakWorkerVUs, timeSeries, latestMetrics)
    }

    constructor ()
      ensures View() == FRESH
    {
      seenRunning, zeroMetricRun, peakWorkerVUs, timeSeries, latestMetrics := false, 0, map[], [], None;
    }

    /** resetPollingStateLocked, as far as the poll loop reads it. */
    method ResetPollingState()
      modifies this
      ensures View() == FRESH
    {
      latestMetrics := None;
      timeSeries := [];
      seenRunning := false;
      zeroMetricRun := 0;
      peakWorkerVUs := map[];
    }

    /** updatePollingState. */
    method UpdatePollingState(agg: Poll, elapsed: int)
      modifies this
      ensures View() == Update(old(View()), agg, elapsed)
    {
      latestMetrics := Some(agg);
      if HasData(agg) {
        if !seenRunning {
          seenRunning := true;
        }
        zeroMetricRun := 0;
        for i := 0 to |agg.samples|
          invariant seenRunning && zeroMetricRun == 0 && timeSeries == old(timeSeries)
          invariant latestMetrics == Some(agg)
          invariant peakWorkerVUs == RaisePeaks(old(peakWorkerVUs), agg.samples[..i])
        {
          assert agg.samples[..i + 1][..i] == agg.samples[..i];
          var wm := agg.samples[i];
          if wm.vus > PeakOf(peakWorkerVUs, wm.address) {
            peakWorkerVUs := peakWorkerVUs[wm.address := wm.vus];
          }
        }
        assert agg.samples[..|agg.samples|] == agg.samples;
        timeSeries := timeSeries + [Point(elapsed, agg)];
      } else if seenRunning {
        zeroMetricRun := zeroMetricRun + 1;
      }
    }

    /** One tick: fold the poll in, then ask whether the run is over or never started. */
    method PollOnce(cfg: Config, o: Observation, tickCount: nat, ghost before: seq<Point>) returns (ended: bool)
      requires View() == Remembered(before) && tickCount == |before| + 1
      modifies this
      ensures View() == Remembered(before + [Point(o.elapsed, o.poll)])
      ensures ended == Completes(cfg, before + [Point(o.elapsed, o.poll)], o)
    {
      assert (before + [Point(o.elapsed, o.poll)])[..|before|] == before;
      UpdatePollingState(o.poll, o.elapsed);
      var state := PollState(seenRunning, zeroMetricRun, peakWorkerVUs, timeSeries, latestMetrics);
      ended := ShouldComplete(cfg, tickCount, state, o);
      if !ended && !seenRunning && tickCount >= 150 {
        ended := true;
      }
    }

    /** StartPolling and pollLoop over the events the loop receives. It stops at the first event that stops it, calls
        the completion function once unless that event is a cancellation, and leaves the fields describing exactly
        the polls up to there. */
    method Poll(cfg: Config, events: seq<Event>) returns (stopped: nat, completions: nat)
      modifies this
      ensures Stop(cfg, events, stopped)
      ensures completions == if stopped < |events| && !events[stopped].Cancelled? then 1 else 0
      ensures View() == Remembered(History(events[..if stopped < |events| then stopped + 1 else stopped]))
    {
      ResetPollingState();
      var tickCount: nat := 0;
      completions := 0;
      stopped := 0;
      while stopped < |events|
        invariant stopped <= |events| && completions == 0
        invariant forall i :: 0 <= i < stopped ==> !StopsAt(cfg, events, i)
        invariant tickCount == |History(events[..stopped])|
        invariant View() == Remembered(History(events[..stopped]))
      {
        assert events[..stopped + 1][..stopped] == events[..stopped];
        match events[stopped]
        case Cancelled =>
          return;
        case Deadline =>
          completions := completions + 1;
          return;
        case Tick(o) =>
          tickCount := tickCount + 1;
          var ended := PollOnce(cfg, o, tickCount, History(events[..stopped]));
          assert History(events[..stopped + 1]) == History(events[..stopped]) + [Point(o.elapsed, o.poll)];
          if ended {
            completions := completions + 1;
            return;
          }
        stopped := stopped + 1;
      }
    }

    /** ApplyPeakVUs: every worker with a recorded peak shows it, and the total is the sum of those peaks. */
    method ApplyPeakVUs(workers: seq<Sample>) returns (shown: seq<Sample>, total: int)
      ensures |shown| == |workers|
      ensures forall i :: 0 <= i < |workers| ==>
                shown[i] == if workers[i].address in peakWorkerVUs
                            then Sample(workers[i].address, peakWorkerVUs[workers[i].address]) else workers[i]
      ensures total == TotalVus(AtPeak(workers, peakWorkerVUs))
    {
      shown, total := [], 0;
      for i := 0 to |workers|
        invariant |shown| == i
        invariant forall j :: 0 <= j < i ==>
                    shown[j] == if workers[j].address in peakWorkerVUs
                                then Sample(workers[j].address, peakWorkerVUs[workers[j].address]) else workers[j]
        invariant total == TotalVus(AtPeak(workers, peakWorkerVUs)[..i])
      {
        var wm := workers[i];
        if wm.address in peakWorkerVUs {
          wm := Sample(wm.address, peakWorkerVUs[wm.address]);
          total := total + wm.vus;
        }
        shown := shown + [wm];
        assert AtPeak(workers, peakWorkerVUs)[..i + 1][..i] == AtPeak(workers, peakWorkerVUs)[..i];
      }
      assert AtPeak(workers, peakWorkerVUs)[..|workers|] == AtPeak(workers, peakWorkerVUs);
    }
  }
}
