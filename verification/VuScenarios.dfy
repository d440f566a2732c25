// Rewriting VU scenarios to externally controlled ones: the controller replays the stages, the script only has
// to live long enough and to leave room for every share.
module VuScenarios {
  import opened Durations
  import opened Instants
  import opened Ramping
  import Text

  /** One element of a scenario's stage list; what is not a JSON object is skipped, and an absent duration or
      target reads as "" or 0. */
  datatype RawStage = Junk | RawStage(duration: string, target: int)

  /** A scenario entry. An absent number or text reads as 0 or "". `Untouched` is every other executor, and
      whatever is not an object. */
  datatype Scenario =
    | RampingVus(stages: seq<RawStage>)
    | NoStageList
    | ConstantVus(vus: int, duration: string)
    | External(vus: int, maxVUs: int, duration: string)
    | Untouched

  function Usable(raws: seq<RawStage>): seq<Stage> {
    if raws == [] then []
    else
      var last := raws[|raws| - 1];
      Usable(raws[..|raws| - 1]) + (if last.Junk? then [] else [Stage(last.duration, last.target)])
  }

  /** Two stages that jump to `vus` and hold it. */
  function Hold(vus: int, duration: string): seq<Stage> {
    [Stage("0s", vus), Stage(duration, vus)]
  }

  function AtLeast(n: int, low: int, otherwise: int): int {
    if n < low then otherwise else n
  }

  /** The stages the controller replays for a scenario. */
  function StagesOf(sc: Scenario): seq<Stage> {
    match sc
    case RampingVus(stages) => Usable(stages)
    case ConstantVus(vus, duration) => Hold(AtLeast(vus, 1, 1), duration)
    case External(_, maxVUs, duration) =>
      Hold(AtLeast(maxVUs, 1, 50), SecondsText(AtLeast(ParseDuration(duration), 1, 120)))
    case _ => []
  }

  /** The scenario the workers get instead. */
  function Rewritten(sc: Scenario, buffer: int): Scenario {
    match sc
    case RampingVus(stages) =>
      External(0, Peak(Usable(stages)), SecondsText(TotalSeconds(Usable(stages)) + buffer))
    case ConstantVus(vus, duration) =>
      External(0, AtLeast(vus, 1, 1), SecondsText(AtLeast(ParseDuration(duration), 1, 60) + buffer))
    case External(_, maxVUs, duration) =>
      External(0, AtLeast(maxVUs, 1, 50), SecondsText(AtLeast(ParseDuration(duration), 1, 120) + buffer))
    case _ => sc
  }

  predicate Controlled(sc: Scenario) {
    sc.RampingVus? || sc.ConstantVus? || sc.External?
  }

  function Concatenated(scenarios: map<string, Scenario>, order: seq<string>): seq<Stage>
    requires forall n :: n in order ==> n in scenarios
  {
    if order == [] then []
    else Concatenated(scenarios, order[..|order| - 1]) + StagesOf(scenarios[order[|order| - 1]])
  }

  lemma AppendStage(stages: seq<Stage>, stage: Stage)
    ensures Peak(stages) >= 1
    ensures Peak(stages + [stage]) == if stage.target > Peak(stages) then stage.target else Peak(stages)
    ensures TotalSeconds(stages + [stage]) == TotalSeconds(stages) + ParseDuration(stage.duration)
  {
    PeakAtLeast(stages, 0);
    assert (stages + [stage])[..|stages|] == stages;
  }

  /** The stage loop of a ramping-vus scenario. */
  method RampStages(raws: seq<RawStage>) returns (stages: seq<Stage>, maxVUs: int, seconds: int)
    ensures stages == Usable(raws) && maxVUs == Peak(stages) && seconds == TotalSeconds(stages)
  {
    stages, maxVUs, seconds := [], 0, 0;
    for i := 0 to |raws|
      invariant stages == Usable(raws[..i])
      invariant (if maxVUs < 1 then 1 else maxVUs) == Peak(stages) && seconds == TotalSeconds(stages)
    {
      assert raws[..i + 1][..i] == raws[..i];
      if raws[i].RawStage? {
        AppendStage(stages, Stage(raws[i].duration, raws[i].target));
        stages := stages + [Stage(raws[i].duration, raws[i].target)];
        if raws[i].target > maxVUs {
          maxVUs := raws[i].target;
        }
        seconds := seconds + ParseDuration(raws[i].duration);
      }
    }
    assert raws[..|raws|] == raws;
    if maxVUs < 1 {
      maxVUs := 1;
    }
  }

  method TransformConstant(given: int, duration: string, buffer: int) returns (stages: seq<Stage>, out: Scenario)
    ensures stages == StagesOf(ConstantVus(given, duration)) && out == Rewritten(ConstantVus(given, duration), buffer)
  {
    var vus := given;
    if vus < 1 {
      vus := 1;
    }
    var durationSec := ParseDuration(duration);
    if durationSec < 1 {
      durationSec := 60;
    }
    stages := Hold(vus, duration);
    out := External(0, vus, SecondsText(durationSec + buffer));
  }

  method TransformExternal(sc: Scenario, buffer: int) returns (stages: seq<Stage>, out: Scenario)
    requires sc.External?
    ensures stages == StagesOf(sc) && out == Rewritten(sc, buffer)
  {
    var maxVUs := sc.maxVUs;
    if maxVUs < 1 {
      maxVUs := 50;
    }
    var durationSec := ParseDuration(sc.duration);
    if durationSec < 1 {
      durationSec := 120;
    }
    stages := Hold(maxVUs, SecondsText(durationSec));
    out := External(0, maxVUs, SecondsText(durationSec + buffer));
  }

  /** One scenario: its stages and its replacement. */
  method TransformOne(sc: Scenario, buffer: int) returns (stages: seq<Stage>, out: Scenario)
    ensures stages == StagesOf(sc) && out == Rewritten(sc, buffer)
  {
    match sc
    case RampingVus(raws) =>
      var maxVUs, seconds;
      stages, maxVUs, seconds := RampStages(raws);
      out := External(0, maxVUs, SecondsText(seconds + buffer));
    case ConstantVus(vus, duration) => stages, out := TransformConstant(vus, duration, buffer);
    case External(_, _, _) => stages, out := TransformExternal(sc, buffer);
    case _ => stages, out := [], sc;
  }

  /** The configuration while the scenarios in `remaining` still wait. */
  function PartlyRewritten(scenarios: map<string, Scenario>, remaining: set<string>, buffer: int)
    : map<string, Scenario>
  {
    map n | n in scenarios :: if n in remaining then scenarios[n] else Rewritten(scenarios[n], buffer)
  }

  lemma RewriteNext(scenarios: map<string, Scenario>, remaining: set<string>, name: string, buffer: int)
    requires name in remaining && remaining <= scenarios.Keys
    ensures PartlyRewritten(scenarios, remaining - {name}, buffer)
         == PartlyRewritten(scenarios, remaining, buffer)[name := Rewritten(scenarios[name], buffer)]
  {
  }

  lemma VisitNext(scenarios: map<string, Scenario>, order: seq<string>, remaining: set<string>, name: string)
    requires name in remaining && name in scenarios && forall n :: n in order ==> n in scenarios
    ensures multiset(order + [name]) + multiset(remaining - {name}) == multiset(order) + multiset(remaining)
    ensures Concatenated(scenarios, order + [name]) == Concatenated(scenarios, order) + StagesOf(scenarios[name])
  {
    assert (order + [name])[..|order|] == order;
    assert multiset(remaining - {name}) == multiset(remaining) - multiset{name};
  }

  /** transformVUScenarios: entries are visited in an unspecified order, each exactly once, and the stages are
      concatenated in that order. */
  method TransformVUScenarios(scenarios: map<string, Scenario>, buffer: int)
    returns (out: map<string, Scenario>, stages: seq<Stage>, order: seq<string>)
    ensures out.Keys == scenarios.Keys && forall n :: n in scenarios ==> out[n] == Rewritten(scenarios[n], buffer)
    ensures multiset(order) == multiset(scenarios.Keys)
    ensures forall n :: n in order ==> n in scenarios
    ensures stages == Concatenated(scenarios, order)
    ensures forall n :: scenarios.Keys == {n} ==> Replayed(scenarios[n], stages)
  {
    out, stages, order := scenarios, [], [];
    var remaining := scenarios.Keys;
    while remaining != {}
      invariant remaining <= scenarios.Keys && out == PartlyRewritten(scenarios, remaining, buffer)
      invariant multiset(order) + multiset(remaining) == multiset(scenarios.Keys)
      invariant forall n :: n in order ==> n in scenarios
      invariant stages == Concatenated(scenarios, order)
      decreases |remaining|
    {
      var name :| name in remaining;
      var more, replacement := TransformOne(scenarios[name], buffer);
      RewriteNext(scenarios, remaining, name, buffer);
      VisitNext(scenarios, order, remaining, name);
      out := out[name := replacement];
      stages, order := stages + more, order + [name];
      remaining := remaining - {name};
    }
    forall n | scenarios.Keys == {n} ensures Replayed(scenarios[n], stages) {
      SingleScenario(scenarios, n, order);
      StagesReplayed(scenarios[n]);
    }
  }

  // ------------------------------------------------ what the rewriting preserves

  lemma {:induction false} NothingElseOnce(name: string, order: seq<string>)
    requires multiset(order) == multiset{name}
    ensures order == [name]
  {
    assert |multiset(order)| == |order|;
    assert order[0] in multiset(order);
  }

  /** With one scenario in the configuration the visiting order does not matter. */
  lemma SingleScenario(scenarios: map<string, Scenario>, name: string, order: seq<string>)
    requires scenarios.Keys == {name} && multiset(order) == multiset(scenarios.Keys)
    requires forall n :: n in order ==> n in scenarios
    ensures Concatenated(scenarios, order) == StagesOf(scenarios[name])
  {
    assert multiset({name}) == multiset{name};
    NothingElseOnce(name, order);
    assert [name][..0] == [];
    assert Concatenated(scenarios, [name][..0]) == [];
  }

  /** The target of `Hold` is in force from the first moment to the last, whatever the duration text says. */
  lemma HoldIsConstant(vus: int, duration: string, elapsed: int)
    requires vus >= 1 && elapsed >= 0 && FitsInt64(ParseDuration(duration) * 1_000_000_000)
    ensures PlanAt(Parsed(Hold(vus, duration)), elapsed)
         == Plan(vus, elapsed >= ParseDuration(duration) * 1_000_000_000, 1)
    ensures Total(Parsed(Hold(vus, duration))) == ParseDuration(duration) * 1_000_000_000
  {
    ParsersAgreeIff(duration);
    ZeroSeconds();
    HoldLegs(vus, ParseStageDuration(duration), elapsed);
    assert Parsed(Hold(vus, duration)) == [Leg(0, vus), Leg(ParseStageDuration(duration), vus)];
  }

  lemma ZeroSeconds()
    ensures ParseStageDuration("0s") == 0
  {
    ZeroText(0);
    NothingReadsAlike("0s");
  }

  lemma ZeroText(n: int)
    requires n == 0
    ensures ParseDuration("0s") == 0
  {
    SecondsTextReadsBack(n);
    assert SecondsText(n) == "0s";
  }

  lemma NothingReadsAlike(text: string)
    requires ParseDuration(text) == 0
    ensures ParseStageDuration(text) == 0
  {
    ParsersAgreeIff(text);
  }

  lemma HoldLegs(vus: int, span: int, elapsed: int)
    requires vus >= 1 && elapsed >= 0
    ensures PlanAt([Leg(0, vus), Leg(span, vus)], elapsed) == Plan(vus, elapsed >= span, 1)
    ensures Total([Leg(0, vus), Leg(span, vus)]) == span
  {
    var legs := [Leg(0, vus), Leg(span, vus)];
    assert End(legs, 0) == 0 && End(legs, 1) == 0 && End(legs, 2) == span;
    if elapsed < span {
      assert StageAt(legs, elapsed, 0) == 1;
      InterpolateWithin(vus, vus, Progress(elapsed, span));
    } else {
      assert StageAt(legs, elapsed, 0) == 2;
    }
  }

  // ------------------------------------------------ what the controller replays

  /** `count` VUs from the first moment on, and done once `seconds` are over. */
  ghost predicate Holds(stages: seq<Stage>, count: int, seconds: int) {
    forall elapsed :: elapsed >= 0 ==>
      PlanAt(Parsed(stages), elapsed) == Plan(count, elapsed >= seconds * 1_000_000_000, 1)
  }

  /** A constant-vus scenario is replayed as its own count, at least one, for its own duration. */
  lemma ConstantReplayed(vus: int, duration: string)
    requires FitsInt64(ParseDuration(duration) * 1_000_000_000)
    ensures Holds(StagesOf(ConstantVus(vus, duration)), if vus < 1 then 1 else vus, ParseDuration(duration))
  {
    forall elapsed | elapsed >= 0
      ensures PlanAt(Parsed(StagesOf(ConstantVus(vus, duration))), elapsed)
           == Plan(if vus < 1 then 1 else vus, elapsed >= ParseDuration(duration) * 1_000_000_000, 1)
    {
      HoldIsConstant(if vus < 1 then 1 else vus, duration, elapsed);
    }
  }

  /** An externally controlled one as its maximum, or fifty, for its duration, or two minutes. */
  lemma ExternalReplayed(vus: int, maxVUs: int, duration: string)
    requires FitsInt64(ParseDuration(duration) * 1_000_000_000) && FitsInt64(ParseDuration(duration))
    ensures Holds(StagesOf(External(vus, maxVUs, duration)), if maxVUs < 1 then 50 else maxVUs,
                  if ParseDuration(duration) < 1 then 120 else ParseDuration(duration))
  {
    var seconds := if ParseDuration(duration) < 1 then 120 else ParseDuration(duration);
    var count := if maxVUs < 1 then 50 else maxVUs;
    SecondsTextReadsBack(seconds);
    forall elapsed | elapsed >= 0
      ensures PlanAt(Parsed(StagesOf(External(vus, maxVUs, duration))), elapsed)
           == Plan(count, elapsed >= seconds * 1_000_000_000, 1)
    {
      HoldIsConstant(count, SecondsText(seconds), elapsed);
    }
  }

  /** The usable entries of a stage list, by position: those that are objects, in their order. */
  ghost predicate PicksInOrder(raws: seq<RawStage>, positions: seq<nat>) {
    && (forall k :: 0 <= k < |positions| ==> positions[k] < |raws| && raws[positions[k]] != Junk)
    && (forall k, l :: 0 <= k < l < |positions| ==> positions[k] < positions[l])
    && (forall i :: 0 <= i < |raws| && raws[i] != Junk ==> i in positions)
  }

  lemma {:induction false} UsableInOrder(raws: seq<RawStage>) returns (positions: seq<nat>)
    ensures PicksInOrder(raws, positions) && PickedStages(raws, positions, Usable(raws))
  {
    if raws == [] {
      positions := [];
    } else {
      var n := |raws| - 1;
      var before := UsableInOrder(raws[..n]);
      positions := if raws[n] == Junk then before else before + [n];
      PicksNext(raws, before);
      StagesNext(raws, before, Usable(raws[..n]));
    }
  }

  lemma PicksNext(raws: seq<RawStage>, before: seq<nat>)
    requires raws != [] && PicksInOrder(raws[..|raws| - 1], before)
    ensures var n := |raws| - 1; PicksInOrder(raws, if raws[n] == Junk then before else before + [n])
  {
    var n := |raws| - 1;
    var positions := if raws[n] == Junk then before else before + [n];
    forall k | 0 <= k < |positions| ensures positions[k] < |raws| && raws[positions[k]] != Junk {
      if k < |before| {
        assert positions[k] == before[k] && raws[..n][before[k]] == raws[before[k]];
      }
    }
    forall i | 0 <= i < |raws| && raws[i] != Junk ensures i in positions {
      PicksAll(raws, before, i);
    }
  }

  lemma PicksAll(raws: seq<RawStage>, before: seq<nat>, i: nat)
    requires i < |raws| && raws[i] != Junk && PicksInOrder(raws[..|raws| - 1], before)
    ensures i in before || i == |raws| - 1
  {
    var n := |raws| - 1;
    assert i < n ==> raws[..n][i] == raws[i];
  }

  /** The stages are those at the positions. */
  ghost predicate PickedStages(raws: seq<RawStage>, positions: seq<nat>, stages: seq<Stage>) {
    && |stages| == |positions|
    && forall k :: 0 <= k < |stages| ==> PickedAt(raws, positions[k], stages[k])
  }

  predicate PickedAt(raws: seq<RawStage>, position: nat, stage: Stage) {
    position < |raws| && raws[position] == RawStage(stage.duration, stage.target)
  }

  lemma StagesNext(raws: seq<RawStage>, before: seq<nat>, stages: seq<Stage>)
    requires raws != [] && PickedStages(raws[..|raws| - 1], before, stages)
    ensures var n := |raws| - 1;
            if raws[n] == Junk then PickedStages(raws, before, stages)
            else PickedStages(raws, before + [n], stages + [Stage(raws[n].duration, raws[n].target)])
  {
    forall k | 0 <= k < |stages| ensures PickedAt(raws, before[k], stages[k]) {
      assert PickedAt(raws[..|raws| - 1], before[k], stages[k]);
    }
  }

  /** What a scenario is replayed as. A ramping-vus one as its stages, one by one and in order, leaving out what is not
      a stage; the two that hold a count as told above; anything else is not replayed. */
  ghost predicate Replayed(sc: Scenario, stages: seq<Stage>) {
    match sc
    case RampingVus(raws) =>
      exists positions :: PicksInOrder(raws, positions) && PickedStages(raws, positions, stages)
    case ConstantVus(vus, d) =>
      FitsInt64(ParseDuration(d) * 1_000_000_000) ==> Holds(stages, if vus < 1 then 1 else vus, ParseDuration(d))
    case External(_, maxVUs, d) =>
      FitsInt64(ParseDuration(d) * 1_000_000_000) && FitsInt64(ParseDuration(d)) ==>
        Holds(stages, if maxVUs < 1 then 50 else maxVUs, if ParseDuration(d) < 1 then 120 else ParseDuration(d))
    case _ => stages == []
  }

  lemma StagesReplayed(sc: Scenario)
    ensures Replayed(sc, StagesOf(sc))
  {
    match sc
    case RampingVus(raws) => var positions := UsableInOrder(raws);
    case ConstantVus(vus, d) =>
      if FitsInt64(ParseDuration(d) * 1_000_000_000) {
        ConstantReplayed(vus, d);
      }
    case External(vus, maxVUs, d) =>
      if FitsInt64(ParseDuration(d) * 1_000_000_000) && FitsInt64(ParseDuration(d)) {
        ExternalReplayed(vus, maxVUs, d);
      }
    case _ =>
  }

  /** What the workers get instead: externally controlled, starting from nothing, with room for the largest target and
      a duration that leaves the completion buffer. Everything else is passed on. */
  lemma RewrittenMeaning(sc: Scenario, buffer: int)
    ensures match sc
            case RampingVus(_) =>
              Rewritten(sc, buffer) == External(0, Peak(StagesOf(sc)), Itoa(TotalSeconds(StagesOf(sc)) + buffer) + "s")
            case ConstantVus(vus, duration) =>
              Rewritten(sc, buffer)
              == External(0, if vus < 1 then 1 else vus,
                          Itoa((if ParseDuration(duration) < 1 then 60 else ParseDuration(duration)) + buffer) + "s")
            case External(_, maxVUs, duration) =>
              Rewritten(sc, buffer)
              == External(0, if maxVUs < 1 then 50 else maxVUs,
                          Itoa((if ParseDuration(duration) < 1 then 120 else ParseDuration(duration)) + buffer) + "s")
            case _ => Rewritten(sc, buffer) == sc && StagesOf(sc) == []
  {
  }

  predicate Sound(sc: Scenario, buffer: int) {
    && FitsDurations(StagesOf(sc))
    && FitsInt64(TotalSeconds(StagesOf(sc)) + buffer) && FitsInt64(120 + buffer)
    && (sc.ConstantVus? || sc.External? ==>
          FitsInt64(ParseDuration(sc.duration)) && FitsInt64(ParseDuration(sc.duration) + buffer))
  }

  /** The script's own duration runs past the end of the ramp by exactly the completion buffer. */
  ghost predicate Outlives(sc: Scenario, buffer: int)
    requires Controlled(sc)
  {
    ParseDuration(Rewritten(sc, buffer).duration) * 1_000_000_000
      == Total(Parsed(StagesOf(sc))) + buffer * 1_000_000_000
  }

  lemma ConstantOutlivesIff(sc: Scenario, buffer: int)
    requires sc.ConstantVus? && Sound(sc, buffer)
    ensures Outlives(sc, buffer) <==> ParseDuration(sc.duration) >= 1
  {
    assert StagesOf(sc)[1].duration == sc.duration;
    HoldIsConstant(AtLeast(sc.vus, 1, 1), sc.duration, 0);
    SecondsTextReadsBack(AtLeast(ParseDuration(sc.duration), 1, 60) + buffer);
  }

  lemma ExternalOutlives(sc: Scenario, buffer: int)
    requires sc.External? && Sound(sc, buffer)
    ensures Outlives(sc, buffer)
  {
    var d := AtLeast(ParseDuration(sc.duration), 1, 120);
    assert StagesOf(sc)[1].duration == SecondsText(d);
    SecondsTextReadsBack(d);
    SecondsTextReadsBack(d + buffer);
    HoldIsConstant(AtLeast(sc.maxVUs, 1, 50), SecondsText(d), 0);
  }

  lemma RampOutlives(sc: Scenario, buffer: int)
    requires sc.RampingVus? && Sound(sc, buffer)
    ensures Outlives(sc, buffer)
  {
    ScriptOutlivesRamp(StagesOf(sc), buffer);
  }

  /** The rewritten scenario outlives the controller's ramp by exactly the completion buffer, except when a
      constant-vus duration reads as less than a second: then the script runs for a minute, the ramp not at all. */
  lemma OutlivesByBufferIff(sc: Scenario, buffer: int)
    requires Controlled(sc) && Sound(sc, buffer)
    ensures Outlives(sc, buffer) <==> !(sc.ConstantVus? && ParseDuration(sc.duration) < 1)
  {
    if sc.RampingVus? {
      RampOutlives(sc, buffer);
    } else if sc.ConstantVus? {
      ConstantOutlivesIff(sc, buffer);
    } else {
      ExternalOutlives(sc, buffer);
    }
  }

  /** However the total is shared out and whenever it is asked for, no worker exceeds the rewritten maxVUs. */
  lemma RewrittenLeavesRoom(sc: Scenario, buffer: int, workers: int, elapsed: int, i: nat)
    requires Controlled(sc) && workers > 0
    ensures Share(PlanAt(Parsed(StagesOf(sc)), elapsed).vus, workers, i) <= Rewritten(sc, buffer).maxVUs
  {
    DemandFitsCapacity(StagesOf(sc), workers, elapsed, i);
    if sc.ConstantVus? || sc.External? {
      var s := StagesOf(sc);
      assert s[..1][..0] == [] && s[..|s| - 1] == s[..1];
      assert Peak(s[..1]) == s[0].target;
    }
  }

  // ------------------------------------------------ the builder's constant-vus form

  /** divideAcrossWorkers. */
  function DivideAcrossWorkers(total: int, workers: int): int {
    if workers <= 1 then total
    else
      var result := Quotient(total + workers - 1, workers);
      if result < 1 then 1 else result
  }

  /** resolveBuilderRamping for a constant-vus request. */
  function BuilderHold(vus: int, duration: string): seq<Stage> {
    if vus <= 0 then [] else Hold(vus, if duration == "" then "1m" else duration)
  }

  /** generateConstantVUs: the capacity and the duration of the script. */
  function ConstantScript(vus: int, duration: string, workers: int, buffer: int): (int, string) {
    (DivideAcrossWorkers(AtLeast(vus, 1, 1), workers), SecondsText(AtLeast(ParseDuration(duration), 1, 60) + buffer))
  }

  lemma OneMinute()
    ensures ParseDuration("1m") == 60
  {
    assert Text.TrimSpace("1m") == "1m";
    assert "1m"[..1] == "1" && Atoi("1") == Some(1) by {
      assert "1"[..0] == "";
      assert DecimalValue("1") == 1;
    }
  }

  /** No worker is asked for more than the capacity its script declares. */
  lemma DividedLeavesRoom(vus: int, workers: int, i: nat)
    requires vus >= 1 && workers >= 1
    ensures Share(vus, workers, i) <= DivideAcrossWorkers(vus, workers)
  {
    SharesEven(vus, workers, i, i);
    if workers == 1 {
      assert (vus + 1 - 1) / 1 == vus;
    }
  }

  /** The request handler and the script generator default the duration separately. They describe the same run
      exactly when the duration is left empty or reads as at least a second. */
  lemma BuilderHoldMatchesScriptIff(vus: int, duration: string, workers: int, buffer: int)
    requires vus >= 1
    requires FitsInt64(ParseDuration(duration) * 1_000_000_000)
    requires FitsInt64(AtLeast(ParseDuration(duration), 1, 60) + buffer)
    ensures ParseDuration(ConstantScript(vus, duration, workers, buffer).1) * 1_000_000_000
            == Total(Parsed(BuilderHold(vus, duration))) + buffer * 1_000_000_000
            <==> duration == "" || ParseDuration(duration) >= 1
  {
    var text := if duration == "" then "1m" else duration;
    OneMinute();
    assert duration == "" ==> ParseDuration(duration) == 0;
    HoldIsConstant(vus, text, 0);
    SecondsTextReadsBack(AtLeast(ParseDuration(duration), 1, 60) + buffer);
  }

  /** Whatever the duration text is, the requested count is in force from the first moment, and every share fits. */
  lemma BuilderHoldMeaning(vus: int, duration: string, workers: int, buffer: int, elapsed: int, i: nat)
    requires vus >= 1 && workers >= 1 && elapsed >= 0 && FitsInt64(ParseDuration(duration) * 1_000_000_000)
    ensures PlanAt(Parsed(BuilderHold(vus, duration)), elapsed).vus == vus
    ensures Share(vus, workers, i) <= ConstantScript(vus, duration, workers, buffer).0
  {
    OneMinute();
    HoldIsConstant(vus, if duration == "" then "1m" else duration, elapsed);
    DividedLeavesRoom(vus, workers, i);
  }

  // ------------------------------------------------ a duration both sides accept and read differently

  /** "1m30s" is no number in front of its last letter, so it reads as no seconds at all. */
  lemma CompoundDuration()
    ensures ParseDuration("1m30s") == 0 && ParseStageDuration("1m30s") == 0
  {
    var d := "1m30s";
    Text.TrimmedIsFixed(d);
    assert d[..4] == "1m30" && d[|d| - 1] == 's';
    assert !IsDigit("1m30"[1]);
    assert Atoi("1m30") == None;
  }

  /** A constant-vus scenario of "1m30s" becomes a script of one minute and the buffer, and a ramp that is over at
      once. */
  lemma CompoundDurationLosesRamp(buffer: int)
    requires FitsInt64(60 + buffer)
    ensures var sc := ConstantVus(1, "1m30s");
            && ParseDuration(Rewritten(sc, buffer).duration) == 60 + buffer
            && Total(Parsed(StagesOf(sc))) == 0
            && PlanAt(Parsed(StagesOf(sc)), 0).done
  {
    CompoundDuration();
    SecondsTextReadsBack(60 + buffer);
    HoldIsConstant(1, "1m30s", 0);
  }

  /** The same request in the builder. */
  lemma CompoundDurationInBuilder(workers: int, buffer: int)
    requires FitsInt64(60 + buffer)
    ensures ParseDuration(ConstantScript(1, "1m30s", workers, buffer).1) == 60 + buffer
    ensures Total(Parsed(BuilderHold(1, "1m30s"))) == 0
  {
    CompoundDuration();
    SecondsTextReadsBack(60 + buffer);
    HoldIsConstant(1, "1m30s", 0);
  }
}
