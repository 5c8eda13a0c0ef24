/**
 The placement decision of one reconcile (resolvePlacementWithEstimates, currentPlacement and
 applyDestinationReadiness in wasmfunction_controller.go) and its feedback through
 status.desiredPlacement over many reconciles.
 */
module PlacementController {
  import opened Common
  import opened DeadlineAdmission
  import DrainTracker

  /** spec.placement.mode after lower-casing, with the empty string read as auto. */
  datatype Mode = Auto | ExplicitLocal | ExplicitEdge | Unsupported

  /** status.desiredPlacement as stored. */
  datatype Retained = Unset | Known(placement: Placement) | Unrecognized

  datatype ObservedMode = NoMode | ReportsLocal | ReportsEdge

  /** Everything one reconcile reads apart from the retained placement. */
  datatype Inputs = Inputs(
    controlTopic: bool, mode: Mode,
    thresholdEnabled: bool, lowThreshold: int, highThreshold: int,
    manualBattery: Option<int>, observedBattery: Option<int>, observedMode: ObservedMode,
    drainEnabled: bool, drainPercent: Option<int>, riskyWindows: int,
    maxDrainPercent: int, riskyWindowsToOffload: int,
    deviceLocalResources: bool,
    deadline: Policy, identity: Identity, estimates: Estimates,
    deviceReady: bool, hostReady: bool, runtimeAvailable: bool)

  function Low(i: Inputs): int {
    if i.lowThreshold == 0 then 20 else i.lowThreshold
  }

  function High(i: Inputs): int {
    var high := if i.highThreshold == 0 then 60 else i.highThreshold;
    if high < Low(i) then Low(i) else high
  }

  function Battery(i: Inputs): Option<int> {
    if i.observedBattery.Some? then i.observedBattery else i.manualBattery
  }

  /** Remote execution is hybrid as soon as some contract member is bound to the device. */
  function WithLocality(i: Inputs, p: Placement): Placement {
    if p == Edge && i.deviceLocalResources then Hybrid else p
  }

  function CurrentPlacement(i: Inputs, r: Retained): Placement
  {
    match r
    case Known(p) => if p == Hybrid && !i.deviceLocalResources then Edge else p
    case Unrecognized => Local
    case Unset => if i.observedMode == ReportsEdge then WithLocality(i, Edge) else Local
  }

  predicate DrainForcesEdge(i: Inputs) {
    && i.drainEnabled && i.observedMode == ReportsLocal && i.drainPercent.Some?
    && !(i.observedBattery.Some? && i.observedBattery.value >= High(i))
    && i.drainPercent.value >= (if i.maxDrainPercent > 0 then i.maxDrainPercent else 3)
    && i.riskyWindows >= (if i.riskyWindowsToOffload > 0 then i.riskyWindowsToOffload else 2)
  }

  datatype Proposal = NoProposal | Proposed(target: Placement, hard: bool)

  function Propose(i: Inputs, current: Placement): Proposal
  {
    var battery := Battery(i);
    if i.thresholdEnabled && current == Local && battery.Some? && battery.value <= Low(i) then Proposed(Edge, true)
    else match i.mode
      case ExplicitEdge => Proposed(Edge, false)
      case ExplicitLocal => Proposed(Local, false)
      case Unsupported => NoProposal
      case Auto =>
        if battery == None then NoProposal
        else if i.thresholdEnabled && current != Local && battery.value >= High(i) then Proposed(Local, false)
        else if DrainForcesEdge(i) then Proposed(Edge, false)
        else NoProposal
  }

  datatype Readiness = CurrentPlacementActivation | DestinationReady
                     | RuntimeUnavailable | HostStagePending | DeviceStagePending

  datatype Decision = Decision(current: Placement, candidate: Placement, desired: Placement,
                               hard: bool, transition: bool, accepted: bool, readiness: Readiness)

  /** The decision before readiness is known: locality, then deadline admission of the candidate. */
  function Resolve(i: Inputs, r: Retained): Decision
  {
    var current := CurrentPlacement(i, r);
    if !i.controlTopic then
      Decision(current, current, current, false, false, false, CurrentPlacementActivation)
    else match Propose(i, current)
      case NoProposal =>
        var accepted := Evaluate(i.deadline, i.identity, current, false, i.estimates).accepted;
        Decision(current, current, current, false, false, accepted, CurrentPlacementActivation)
      case Proposed(target, hard) =>
        var candidate := WithLocality(i, target);
        var accepted := Evaluate(i.deadline, i.identity, candidate, hard, i.estimates).accepted;
        var transition := candidate != current;
        var desired := if !transition || accepted then candidate else current;
        Decision(current, candidate, desired, hard, transition, accepted, CurrentPlacementActivation)
  }

  /** A transition to a destination that is not ready is held back at the current placement. */
  function ApplyReadiness(i: Inputs, d: Decision): Decision
  {
    if !d.transition then d
    else
      var remote := d.candidate != Local;
      var ready := i.deviceReady && (remote ==> i.hostReady && i.runtimeAvailable);
      if ready then d.(readiness := DestinationReady)
      else
        var reason := if remote && !i.runtimeAvailable then RuntimeUnavailable
                      else if remote && !i.hostReady then HostStagePending
                      else DeviceStagePending;
        d.(readiness := reason, desired := d.current, accepted := false)
  }

  function Decide(i: Inputs, r: Retained): Decision {
    ApplyReadiness(i, Resolve(i, r))
  }

  /** The placement the next reconcile will find, when the status write succeeds. */
  function Next(i: Inputs, r: Retained): Retained {
    Known(Decide(i, r).desired)
  }

  // ------------------------------------------------- a move needs a proposal, admission and readiness

  predicate Ready(i: Inputs, destination: Placement) {
    i.deviceReady && (destination != Local ==> i.hostReady && i.runtimeAvailable)
  }

  lemma DecisionStartsFromCurrent(i: Inputs, r: Retained)
    ensures Decide(i, r).current == CurrentPlacement(i, r)
  {
    hide Evaluate, DrainForcesEdge;
  }

  /** Placement changes exactly when a proposal's candidate differs, was admitted, and its destination is ready. */
  lemma MovesExactlyWhenAdmittedAndReady(i: Inputs, r: Retained)
    ensures var d, proposal := Decide(i, r), Propose(i, CurrentPlacement(i, r));
            d.desired != d.current <==>
              && i.controlTopic && proposal.Proposed?
              && var candidate := WithLocality(i, proposal.target);
                 && candidate != d.current && Ready(i, candidate)
                 && Evaluate(i.deadline, i.identity, candidate, proposal.hard, i.estimates).accepted
    ensures var d, proposal := Decide(i, r), Propose(i, CurrentPlacement(i, r));
            d.desired != d.current ==> d.desired == WithLocality(i, proposal.target) && d.accepted
    ensures var d := Decide(i, r); d.desired == Edge && i.deviceLocalResources ==> d.current == Edge
  {
    hide Evaluate, DrainForcesEdge;
  }

  /** A local battery drain asks for remote execution. */
  predicate Draining(i: Inputs, high: int) {
    && i.drainEnabled && i.observedMode == ReportsLocal && (i.observedBattery.Some? ==> i.observedBattery.value < high)
    && i.drainPercent.Some? && i.drainPercent.value >= (if i.maxDrainPercent > 0 then i.maxDrainPercent else 3)
    && i.riskyWindows >= (if i.riskyWindowsToOffload > 0 then i.riskyWindowsToOffload else 2)
  }

  /**
   The rule for leaving local execution, in the fields of the inputs: everything remote is ready, and either
   the battery is at or below the low threshold, which nothing can refuse, or the deadline admits
   a move that was asked for explicitly or, in auto mode, by a confirmed drain.
   */
  lemma LeavesLocalExactlyWhen(i: Inputs)
    ensures var battery := if i.observedBattery.Some? then i.observedBattery else i.manualBattery;
            var low := if i.lowThreshold == 0 then 20 else i.lowThreshold;
            var above := if i.highThreshold == 0 then 60 else i.highThreshold;
            var high := if above < low then low else above;
            var remote := if i.deviceLocalResources then Hybrid else Edge;
            var forced := i.thresholdEnabled && battery.Some? && battery.value <= low;
            var asked := i.mode == ExplicitEdge || (i.mode == Auto && battery.Some? && Draining(i, high));
            Decide(i, Known(Local)).desired ==
              if i.controlTopic && i.deviceReady && i.hostReady && i.runtimeAvailable
                 && (forced || (asked && Evaluate(i.deadline, i.identity, remote, false, i.estimates).accepted))
              then remote else Local
  {
    HardIsAdmitted(i.deadline, i.identity, WithLocality(i, Edge), i.estimates);
    hide Evaluate;
  }

  /** The rule for returning to it: asked for explicitly, or in auto mode by a battery at or above the high threshold. */
  lemma ReturnsToLocalExactlyWhen(i: Inputs)
    ensures var battery := if i.observedBattery.Some? then i.observedBattery else i.manualBattery;
            var low := if i.lowThreshold == 0 then 20 else i.lowThreshold;
            var above := if i.highThreshold == 0 then 60 else i.highThreshold;
            var high := if above < low then low else above;
            var remote := if i.deviceLocalResources then Hybrid else Edge;
            var charged := i.mode == Auto && i.thresholdEnabled && battery.Some? && battery.value >= high;
            Decide(i, Known(remote)).desired ==
              if i.controlTopic && i.deviceReady && (i.mode == ExplicitLocal || charged)
                 && Evaluate(i.deadline, i.identity, Local, false, i.estimates).accepted
              then Local else remote
  {
    hide Evaluate;
  }

  /** A first reconcile starts where the device reports to be; hybrid is only kept while the device's resources are needed. */
  lemma StartsWhereTheDeviceIs(i: Inputs)
    ensures Decide(i, Unset).current ==
            if i.observedMode == ReportsEdge then (if i.deviceLocalResources then Hybrid else Edge) else Local
    ensures Decide(i, Unrecognized).current == Local && Decide(i, Known(Local)).current == Local
    ensures Decide(i, Known(Edge)).current == Edge
    ensures Decide(i, Known(Hybrid)).current == if i.deviceLocalResources then Hybrid else Edge
  {
    hide Evaluate, DrainForcesEdge;
  }

  /** A held-back transition names what is missing, runtime before host before device. */
  lemma ReadinessNamesWhatIsMissing(i: Inputs, r: Retained)
    ensures var d := Decide(i, r);
            && (d.readiness == CurrentPlacementActivation <==> !d.transition)
            && (d.transition <==> d.candidate != d.current)
            && (d.transition && d.candidate == Local ==> d.readiness == if i.deviceReady then DestinationReady else DeviceStagePending)
            && (d.transition && d.candidate != Local ==>
                  d.readiness == if !i.runtimeAvailable then RuntimeUnavailable
                                 else if !i.hostReady then HostStagePending
                                 else if !i.deviceReady then DeviceStagePending else DestinationReady)
            && (d.readiness !in {CurrentPlacementActivation, DestinationReady} ==> !d.accepted && d.desired == d.current)
  {
    hide Evaluate, DrainForcesEdge;
  }

  /**
   A proposal is forced exactly by a battery at or below the low threshold under local execution. The candidate counts
   as accepted exactly when the deadline admits it and nothing it needs is missing; without a control topic nothing is.
   */
  lemma ForcedExactlyWhenLow(i: Inputs, r: Retained)
    ensures var d := Decide(i, r);
            var battery := if i.observedBattery.Some? then i.observedBattery else i.manualBattery;
            var low := if i.lowThreshold == 0 then 20 else i.lowThreshold;
            && (d.hard <==> i.controlTopic && i.thresholdEnabled && d.current == Local && battery.Some? && battery.value <= low)
            && (!i.controlTopic ==> d.candidate == d.desired == d.current)
            && (d.accepted <==> i.controlTopic && Evaluate(i.deadline, i.identity, d.candidate, d.hard, i.estimates).accepted
                                && d.readiness in {CurrentPlacementActivation, DestinationReady})
  {
    hide Evaluate, DrainForcesEdge;
  }

  // ------------------------------------------------- from the history of observations to the move

  /** The inputs after the tracker has seen a history. */
  function Tracked(i: Inputs, p: DrainTracker.Policy, h: seq<DrainTracker.Observation>): Inputs
    requires h != []
  {
    var (state, drain) := DrainTracker.Step(p, DrainTracker.Run(p, h[..|h| - 1]), h[|h| - 1]);
    i.(drainPercent := drain, riskyWindows := state.riskyWindows)
  }

  /**
   In auto mode, above the low threshold and below the high one, a history of observations moves the function off the
   device exactly when its last observations, as many as the policy requires, were all risky.
   */
  lemma HistoryOffloadsExactlyWhen(i: Inputs, p: DrainTracker.Policy, h: seq<DrainTracker.Observation>)
    requires h != [] && DrainTracker.Monotone(h) && p.maxDrainPercent == i.maxDrainPercent
    requires i.controlTopic && i.deviceReady && i.hostReady && i.runtimeAvailable && !i.deadline.enabled
    requires i.mode == Auto && i.drainEnabled && i.observedMode == ReportsLocal
    requires i.observedBattery.Some? && Low(i) < i.observedBattery.value < High(i)
    ensures var n := if i.riskyWindowsToOffload > 0 then i.riskyWindowsToOffload else 2;
            Decide(Tracked(i, p, h), Known(Local)).desired != Local <==>
              n <= |h| && forall m :: |h| - n < m <= |h| ==> DrainTracker.Risky(p, h[..m])
  {
    var n := if i.riskyWindowsToOffload > 0 then i.riskyWindowsToOffload else 2;
    var tracked := Tracked(i, p, h);
    DrainTracker.StateRefinesHistory(p, h);
    DrainTracker.RiskyRunCountsTheLast(p, h, n);
    LeavesLocalExactlyWhen(tracked);
    RiskyIsAboveTheLimit(p, h);
    hide DrainTracker.Step, DrainTracker.Run, DrainTracker.Delta, DrainTracker.Risky, Decide;
  }

  lemma RiskyIsAboveTheLimit(p: DrainTracker.Policy, h: seq<DrainTracker.Observation>)
    ensures DrainTracker.RiskyRun(p, h) > 0 <==>
              h != [] && DrainTracker.Delta(p, h).Some? && DrainTracker.Delta(p, h).value >= (if p.maxDrainPercent > 0 then p.maxDrainPercent else 3)
  {
    hide DrainTracker.Delta;
  }

  // ------------------------------------------------- stability of repeated reconciles

  /** With these inputs a remote placement is pulled back to local. */
  predicate PullsLocal(i: Inputs) {
    i.mode == ExplicitLocal
    || (i.mode == Auto && i.thresholdEnabled && Battery(i).Some? && Battery(i).value >= High(i))
  }

  /** With these inputs a local placement is pushed to remote. */
  predicate PushesRemote(i: Inputs) {
    (i.thresholdEnabled && Battery(i).Some? && Battery(i).value <= Low(i))
    || ((i.mode == ExplicitEdge || (i.mode == Auto && Battery(i).Some? && DrainForcesEdge(i)))
        && Evaluate(i.deadline, i.identity, WithLocality(i, Edge), false, i.estimates).accepted)
  }

  /** Both directions are open: each is proposed, admitted and ready. */
  predicate Flaps(i: Inputs) {
    && i.controlTopic && PullsLocal(i) && PushesRemote(i) && Ready(i, Edge)
    && Evaluate(i.deadline, i.identity, Local, false, i.estimates).accepted
  }

  /**
   Feeding the decision back reaches a fixpoint after one reconcile, from every retained
   placement, exactly when the inputs do not hold both directions open.
   */
  lemma StableExactlyWhenNotFlapping(i: Inputs, r: Retained)
    ensures Next(i, Next(i, r)) == Next(i, r) <==> !Flaps(i)
  {
    HardIsAdmitted(i.deadline, i.identity, WithLocality(i, Edge), i.estimates);
    hide Evaluate, DrainForcesEdge;
    if CurrentPlacement(i, r) == Local {
      FromLocal(i, r);
      FromRemote(i, Known(WithLocality(i, Edge)));
    } else {
      FromRemote(i, r);
      FromLocal(i, Known(Local));
      if Next(i, r) != Known(Local) {
        StaysRemote(i, r);
      }
    }
  }

  lemma FromLocal(i: Inputs, r: Retained)
    requires CurrentPlacement(i, r) == Local
    ensures Next(i, r) == if i.controlTopic && PushesRemote(i) && Ready(i, Edge) then Known(WithLocality(i, Edge)) else Known(Local)
  {
    HardIsAdmitted(i.deadline, i.identity, WithLocality(i, Edge), i.estimates);
    hide Evaluate, DrainForcesEdge;
  }

  lemma FromRemote(i: Inputs, r: Retained)
    requires CurrentPlacement(i, r) != Local
    ensures Next(i, r) == Known(Local) <==>
            i.controlTopic && PullsLocal(i) && i.deviceReady
            && Evaluate(i.deadline, i.identity, Local, false, i.estimates).accepted
  {
    hide Evaluate, DrainForcesEdge;
  }

  /** A remote placement that is not pulled local is settled by one reconcile. */
  lemma StaysRemote(i: Inputs, r: Retained)
    requires CurrentPlacement(i, r) != Local && Next(i, r) != Known(Local)
    ensures Next(i, Next(i, r)) == Next(i, r)
  {
    hide Evaluate, DrainForcesEdge;
  }

  /** The promised case: auto or edge mode, low below high, and an observed battery. */
  lemma AutoAndEdgeAreStable(i: Inputs, r: Retained)
    requires i.mode == Auto || i.mode == ExplicitEdge
    requires Low(i) < High(i) && i.observedBattery.Some?
    ensures Next(i, Next(i, r)) == Next(i, r)
  {
    StableExactlyWhenNotFlapping(i, r);
    hide Evaluate;
  }

  /** Explicit local at a low battery alternates for ever: remote by the guardrail, local by request. */
  lemma ExplicitLocalAlternates()
    ensures exists i: Inputs ::
      && i.mode == ExplicitLocal && Low(i) < High(i) && i.observedBattery.Some?
      && Next(i, Known(Local)) == Known(Edge) && Next(i, Known(Edge)) == Known(Local)
  {
    var i := Inputs(true, ExplicitLocal, true, 20, 60, None, Some(10), ReportsLocal,
                    false, None, 0, 0, 0, false,
                    Policy(false, None, 0, 0), Identity("dht-reader", ""),
                    Estimates(true, false, 0, 0, 0, 0, 0, 0, 0), true, true, true);
    assert Next(i, Known(Local)) == Known(Edge) && Next(i, Known(Edge)) == Known(Local);
  }

  // ------------------------------------------------- hysteresis

  /** One reconcile of a run; the status write after it may fail. */
  datatype Round = Round(inputs: Inputs, written: bool)

  /** The retained placement, the moves so far, the total variation of the battery, its last value, and its value at the last move. */
  datatype Trace = Trace(retained: Retained, moves: nat, variation: nat, last: Option<int>, pivot: int)

  function Distance(a: int, b: int): nat {
    if a < b then b - a else a - b
  }

  function Advance(t: Trace, round: Round): Trace
  {
    var d, battery := Decide(round.inputs, t.retained), Battery(round.inputs);
    var variation := t.variation + (if battery.Some? && t.last.Some? then Distance(t.last.value, battery.value) else 0);
    var last := if battery.Some? then battery else t.last;
    if !round.written then t.(variation := variation, last := last)
    else if d.desired == d.current || battery == None
      then Trace(Known(d.desired), t.moves + (if d.desired == d.current then 0 else 1), variation, last, t.pivot)
    else Trace(Known(d.desired), t.moves + 1, variation, last, battery.value)
  }

  /** A move counts exactly when it is made and its status is written; a lost write leaves the placement as it was. */
  lemma MovesAreCountedWhenWritten(t: Trace, round: Round)
    ensures var d, after := Decide(round.inputs, t.retained), Advance(t, round);
            && after.retained == (if round.written then Known(d.desired) else t.retained)
            && after.moves == t.moves + (if round.written && d.desired != d.current then 1 else 0)
            && (after.last == if Battery(round.inputs).Some? then Battery(round.inputs) else t.last)
  {
    hide Decide;
  }

  function Replay(start: Retained, rounds: seq<Round>): Trace
  {
    if rounds == [] then Trace(start, 0, 0, None, 0)
    else Advance(Replay(start, rounds[..|rounds| - 1]), rounds[|rounds| - 1])
  }

  /** Auto mode with fixed thresholds switched on and the drain policy off; all else may vary. */
  predicate ThresholdAuto(i: Inputs, low: int, high: int) {
    i.mode == Auto && i.thresholdEnabled && !i.drainEnabled && Low(i) == low && High(i) == high
  }

  ghost predicate Bounded(t: Trace, low: int, high: int) {
    t.moves == 0
    || (&& t.retained.Known? && t.last.Some?
        && (if t.retained.placement == Local then t.pivot >= high else t.pivot <= low)
        && (t.moves - 1) * (high - low) + Distance(t.pivot, t.last.value) <= t.variation)
  }

  lemma AdvanceKeepsBound(t: Trace, round: Round, low: int, high: int)
    requires Bounded(t, low, high) && ThresholdAuto(round.inputs, low, high)
    ensures Bounded(Advance(t, round), low, high)
  {
    var i := round.inputs;
    var d, after := Decide(i, t.retained), Advance(t, round);
    MovesExactlyWhenAdmittedAndReady(i, t.retained);
    DecisionStartsFromCurrent(i, t.retained);
    hide Evaluate, Decide;
    if round.written && d.desired != d.current {
      assert Battery(i).Some?;
      assert if after.retained.placement == Local then after.pivot >= high else after.pivot <= low;
      if t.moves > 0 {
        assert t.moves * (high - low) == (t.moves - 1) * (high - low) + (high - low);
      }
    }
  }

  lemma {:induction false} ReplayIsBounded(start: Retained, rounds: seq<Round>, low: int, high: int)
    requires forall k :: 0 <= k < |rounds| ==> ThresholdAuto(rounds[k].inputs, low, high)
    ensures Bounded(Replay(start, rounds), low, high)
  {
    if rounds != [] {
      ReplayIsBounded(start, rounds[..|rounds| - 1], low, high);
      AdvanceKeepsBound(Replay(start, rounds[..|rounds| - 1]), rounds[|rounds| - 1], low, high);
    }
  }

  /** The batteries that the rounds of a run read. */
  function Readings(rounds: seq<Round>): seq<int>
  {
    if rounds == [] then []
    else
      var battery := Battery(rounds[|rounds| - 1].inputs);
      Readings(rounds[..|rounds| - 1]) + (if battery.Some? then [battery.value] else [])
  }

  /** How far the battery moved in all. */
  function Variation(readings: seq<int>): nat
  {
    if |readings| < 2 then 0
    else Variation(readings[..|readings| - 1]) + Distance(readings[|readings| - 2], readings[|readings| - 1])
  }

  /** The placement that a run leaves in the status. */
  function PlacementAfter(start: Retained, rounds: seq<Round>): Retained
  {
    if rounds == [] then start
    else
      var before, last := PlacementAfter(start, rounds[..|rounds| - 1]), rounds[|rounds| - 1];
      if last.written then Known(Decide(last.inputs, before).desired) else before
  }

  /** How often it moved. */
  function Moves(start: Retained, rounds: seq<Round>): nat
  {
    if rounds == [] then 0
    else
      var init, last := rounds[..|rounds| - 1], rounds[|rounds| - 1];
      var d := Decide(last.inputs, PlacementAfter(start, init));
      Moves(start, init) + (if last.written && d.desired != d.current then 1 else 0)
  }

  lemma {:induction false} ReplayMeasures(start: Retained, rounds: seq<Round>)
    ensures var t, readings := Replay(start, rounds), Readings(rounds);
            && t.retained == PlacementAfter(start, rounds) && t.moves == Moves(start, rounds) && t.variation == Variation(readings)
            && t.last == if readings == [] then None else Some(readings[|readings| - 1])
  {
    hide Decide, Battery, Variation, Distance;
    if rounds == [] {
      NothingVaries();
    } else {
      var init, last := rounds[..|rounds| - 1], rounds[|rounds| - 1];
      ReplayMeasures(start, init);
      if Battery(last.inputs).Some? {
        ReadingVaries(Readings(init), Battery(last.inputs).value);
      } else {
        assert Readings(rounds) == Readings(init);
      }
    }
  }

  lemma NothingVaries()
    ensures Variation([]) == 0
  {
  }

  lemma ReadingVaries(readings: seq<int>, reading: int)
    ensures Variation(readings + [reading]) ==
            Variation(readings) + (if readings == [] then 0 else Distance(readings[|readings| - 1], reading))
  {
    assert (readings + [reading])[..|readings|] == readings;
  }

  /**
   Hysteresis: whatever readiness, deadlines, contracts and lost status writes do, every
   placement move after the first costs a full threshold gap of battery movement.
   */
  lemma Hysteresis(start: Retained, rounds: seq<Round>, low: int, high: int)
    requires forall k :: 0 <= k < |rounds| ==> ThresholdAuto(rounds[k].inputs, low, high)
    ensures var moves := Moves(start, rounds);
            moves > 0 ==> (moves - 1) * (high - low) <= Variation(Readings(rounds))
  {
    ReplayIsBounded(start, rounds, low, high);
    ReplayMeasures(start, rounds);
    hide Replay;
  }
}
