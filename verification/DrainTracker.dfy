/**
 The rolling battery-drain tracker (updateBatteryDeltaStatus in mqtt_telemetry.go): per
 resource, a pruned list of battery samples and a count of consecutive risky windows.
 */
module DrainTracker {
  import opened Common
  import opened RollingWindow

  /** The policy as written in the resource; zero means the default. Times are in seconds. */
  datatype Policy = Policy(windowSeconds: int, maxDrainPercent: int, lowThreshold: int, highThreshold: int)

  function Window(p: Policy): int {
    if p.windowSeconds > 0 then p.windowSeconds else 60
  }

  function MaxDrain(p: Policy): int {
    if p.maxDrainPercent > 0 then p.maxDrainPercent else 3
  }

  function Low(p: Policy): int {
    if p.lowThreshold == 0 then 20 else p.lowThreshold
  }

  function High(p: Policy): int {
    if p.highThreshold == 0 then 60 else p.highThreshold
  }

  /** One telemetry message, with source, function and mode resolved against the stored status. */
  datatype Observation = Observation(source: string, identity: string, mode: string, at: int, battery: int)

  datatype State = State(source: string, identity: string, mode: string, lastObserved: int,
                         samples: seq<Timed<int>>, riskyWindows: nat)

  predicate Applicable(p: Policy, o: Observation) {
    o.mode == "local" && Low(p) < o.battery < High(p)
  }

  /** What one message does to the tracked state, and the drain it reports. */
  function Step(p: Policy, state: Option<State>, o: Observation): (State, Option<int>)
  {
    var reset :=
      || state == None
      || state.value.source != o.source || state.value.identity != o.identity || state.value.mode != o.mode
      || o.at - state.value.lastObserved > Window(p);
    var s := if reset then State(o.source, o.identity, o.mode, o.at, [], 0)
             else state.value.(lastObserved := o.at);
    if !Applicable(p, o) then (s.(samples := [], riskyWindows := 0), None)
    else
      var samples := Kept(s.samples, o.at - Window(p)) + [Timed(o.at, o.battery)];
      if |samples| < 2 then (s.(samples := samples, riskyWindows := 0), None)
      else
        var drop := samples[0].value - o.battery;
        var delta := if drop < 0 then 0 else drop;
        (s.(samples := samples, riskyWindows := if delta >= MaxDrain(p) then s.riskyWindows + 1 else 0), Some(delta))
  }

  function Run(p: Policy, h: seq<Observation>): Option<State>
  {
    if h == [] then None else Some(Step(p, Run(p, h[..|h| - 1]), h[|h| - 1]).0)
  }

  // ------------------------------------------------- what the history says, without any state

  /** Continuity is lost: another source, function or mode, or silence longer than the window. */
  predicate Breaks(p: Policy, previous: Observation, o: Observation) {
    previous.source != o.source || previous.identity != o.identity || previous.mode != o.mode
    || o.at - previous.at > Window(p)
  }

  /** Where the trailing run of applicable observations without a break begins; |h| when the last one is not applicable. */
  function SegmentStart(p: Policy, h: seq<Observation>): (i: nat)
    ensures i <= |h|
  {
    if h == [] then 0
    else if !Applicable(p, h[|h| - 1]) then |h|
    else if |h| > 1 && Breaks(p, h[|h| - 2], h[|h| - 1]) then |h| - 1
    else SegmentStart(p, h[..|h| - 1])
  }

  /** That run is the longest one: everything in it counts, nothing before it can. */
  lemma {:induction false} SegmentIsMaximal(p: Policy, h: seq<Observation>)
    ensures var i := SegmentStart(p, h);
            && (forall k :: i <= k < |h| ==> Applicable(p, h[k]))
            && (forall k :: i < k < |h| ==> !Breaks(p, h[k - 1], h[k]))
            && (0 < i < |h| ==> !Applicable(p, h[i - 1]) || Breaks(p, h[i - 1], h[i]))
            && (i == |h| > 0 ==> !Applicable(p, h[|h| - 1]))
  {
    if h != [] && Applicable(p, h[|h| - 1]) && !(|h| > 1 && Breaks(p, h[|h| - 2], h[|h| - 1])) {
      var init := h[..|h| - 1];
      SegmentIsMaximal(p, init);
      hide Applicable, Breaks;
      forall k | SegmentStart(p, h) < k < |h| ensures !Breaks(p, h[k - 1], h[k]) {
        if k < |init| {
          assert !Breaks(p, init[k - 1], init[k]);
        }
      }
    }
  }

  function Samples(h: seq<Observation>): seq<Timed<int>> {
    seq(|h|, i requires 0 <= i < |h| => Timed(h[i].at, h[i].battery))
  }

  /** The batteries of the current run that are no older than the window. */
  function InWindow(p: Policy, h: seq<Observation>): seq<Timed<int>>
  {
    if h == [] then [] else Kept(Samples(h[SegmentStart(p, h)..]), h[|h| - 1].at - Window(p))
  }

  /** The drain: the oldest in-window battery minus the current one, clamped at zero. */
  function Delta(p: Policy, h: seq<Observation>): Option<int>
  {
    var w := InWindow(p, h);
    if |w| < 2 then None
    else
      var drop := w[0].value - h[|h| - 1].battery;
      Some(if drop < 0 then 0 else drop)
  }

  predicate Risky(p: Policy, h: seq<Observation>) {
    Delta(p, h).Some? && Delta(p, h).value >= MaxDrain(p)
  }

  /** The number of consecutive risky observations that end the history. */
  function RiskyRun(p: Policy, h: seq<Observation>): nat
  {
    if h == [] || !Risky(p, h) then 0 else 1 + RiskyRun(p, h[..|h| - 1])
  }

  ghost predicate Monotone(h: seq<Observation>) {
    forall i, j :: 0 <= i < j < |h| ==> h[i].at <= h[j].at
  }

  lemma SamplesAppend(h: seq<Observation>, o: Observation)
    ensures Samples(h + [o]) == Samples(h) + [Timed(o.at, o.battery)]
  {
  }

  lemma NoSamples()
    ensures Samples([]) == []
  {
  }

  /** The in-window batteries after one more applicable observation. */
  lemma InWindowExtends(p: Policy, h: seq<Observation>)
    requires h != [] && Monotone(h) && Applicable(p, h[|h| - 1])
    ensures var init, o := h[..|h| - 1], h[|h| - 1];
            var before := if init != [] && Breaks(p, init[|init| - 1], o) then [] else InWindow(p, init);
            InWindow(p, h) == Kept(before, o.at - Window(p)) + [Timed(o.at, o.battery)]
  {
    hide Kept, Breaks, Applicable;
    var init, o := h[..|h| - 1], h[|h| - 1];
    var cutoff, i := o.at - Window(p), SegmentStart(p, h);
    WindowPositive(p);
    assert init != [] ==> init[|init| - 1].at <= o.at;
    hide Monotone, Window, Samples;
    assert Samples([]) == [] by { NoSamples(); }
    if init != [] && Breaks(p, init[|init| - 1], o) {
      assert h[i..] == [] + [o];
      SamplesAppend([], o);
      KeptLast(Samples([]), Timed(o.at, o.battery), cutoff);
    } else {
      assert i == SegmentStart(p, init);
      assert h[i..] == init[i..] + [o];
      SamplesAppend(init[i..], o);
      KeptLast(Samples(init[i..]), Timed(o.at, o.battery), cutoff);
      if init != [] {
        KeptTwice(Samples(init[i..]), init[|init| - 1].at - Window(p), cutoff);
      }
    }
  }

  lemma WindowPositive(p: Policy)
    ensures Window(p) > 0
  {
  }

  /** The state the history calls for. */
  function Expected(p: Policy, h: seq<Observation>): Option<State>
  {
    if h == [] then None
    else
      var o := h[|h| - 1];
      Some(State(o.source, o.identity, o.mode, o.at, InWindow(p, h), RiskyRun(p, h)))
  }

  lemma ExcludedStepRefines(p: Policy, h: seq<Observation>)
    requires h != [] && !Applicable(p, h[|h| - 1])
    ensures Step(p, Expected(p, h[..|h| - 1]), h[|h| - 1]) == (Expected(p, h).value, Delta(p, h))
  {
    InWindowAfterExclusion(p, h);
    hide InWindow, Applicable;
  }

  /** Either the samples start over, or they are those of the history without its last observation. */
  lemma ApplicableStepRefines(p: Policy, h: seq<Observation>)
    requires h != [] && Monotone(h) && Applicable(p, h[|h| - 1])
    ensures Step(p, Expected(p, h[..|h| - 1]), h[|h| - 1]) == (Expected(p, h).value, Delta(p, h))
  {
    hide Kept, InWindow, Breaks, Applicable, Monotone;
    var init, o := h[..|h| - 1], h[|h| - 1];
    InWindowExtends(p, h);
    KeptNothing<int>(o.at - Window(p));
    if init == [] {
      InWindowOfNothing(p);
    } else {
      BreaksMeans(p, init[|init| - 1], o);
      var before := if Breaks(p, init[|init| - 1], o) then [] else InWindow(p, init);
      RiskyGrows(p, h, before);
    }
  }

  lemma RiskyGrows(p: Policy, h: seq<Observation>, before: seq<Timed<int>>)
    requires |h| > 1
    requires InWindow(p, h) == Kept(before, h[|h| - 1].at - Window(p)) + [Timed(h[|h| - 1].at, h[|h| - 1].battery)]
    ensures RiskyRun(p, h) == if Risky(p, h) then RiskyRun(p, h[..|h| - 1]) + 1 else 0
    ensures before == [] ==> !Risky(p, h)
  {
    KeptNothing<int>(h[|h| - 1].at - Window(p));
    hide InWindow;
  }

  /**
   The rolling state refines the history: after every message the tracked samples are the
   in-window batteries of the current run, the reported drain is Delta, and riskyWindows is
   exactly the length of the trailing run of risky observations.
   */
  lemma {:induction false} StateRefinesHistory(p: Policy, h: seq<Observation>)
    requires h != [] && Monotone(h)
    ensures var o := h[|h| - 1];
            && Run(p, h) == Some(State(o.source, o.identity, o.mode, o.at, InWindow(p, h), RiskyRun(p, h)))
            && Step(p, Run(p, h[..|h| - 1]), o).1 == Delta(p, h)
  {
    hide Step, InWindow, Delta, RiskyRun;
    if |h| > 1 {
      StateRefinesHistory(p, h[..|h| - 1]);
    }
    if Applicable(p, h[|h| - 1]) {
      ApplicableStepRefines(p, h);
    } else {
      ExcludedStepRefines(p, h);
    }
    hide Applicable;
  }

  lemma BreaksMeans(p: Policy, previous: Observation, o: Observation)
    ensures Breaks(p, previous, o) <==>
            previous.source != o.source || previous.identity != o.identity || previous.mode != o.mode
            || o.at - previous.at > Window(p)
  {
  }

  lemma InWindowOfNothing(p: Policy)
    ensures InWindow(p, []) == []
  {
  }

  lemma InWindowAfterExclusion(p: Policy, h: seq<Observation>)
    requires h != [] && !Applicable(p, h[|h| - 1])
    ensures InWindow(p, h) == []
  {
    assert Samples(h[|h|..]) == [];
  }

  /** The count reaches n exactly when the last n observations were risky, each in the history up to it. */
  lemma {:induction false} RiskyRunCountsTheLast(p: Policy, h: seq<Observation>, n: nat)
    requires n > 0
    ensures RiskyRun(p, h) >= n <==> n <= |h| && forall m :: |h| - n < m <= |h| ==> Risky(p, h[..m])
  {
    hide Risky;
    assert h[..|h|] == h;
    if h != [] && n > 1 {
      var init := h[..|h| - 1];
      RiskyRunCountsTheLast(p, init, n - 1);
      forall m | 0 <= m < |h| ensures init[..m] == h[..m] {
      }
    }
  }

  /**
   Two observations in a row measure a drain exactly when both come from local mode with a battery strictly
   between the thresholds, from one source and function, and no further apart than the window; the drain is
   the loss of charge between them, and it is risky from the limit on.
   */
  lemma TwoObservationsMeasureTheDrain(p: Policy, a: Observation, b: Observation)
    requires a.at <= b.at
    ensures var window := if p.windowSeconds > 0 then p.windowSeconds else 60;
            var limit := if p.maxDrainPercent > 0 then p.maxDrainPercent else 3;
            var low := if p.lowThreshold == 0 then 20 else p.lowThreshold;
            var high := if p.highThreshold == 0 then 60 else p.highThreshold;
            var loss := if a.battery > b.battery then a.battery - b.battery else 0;
            && Delta(p, [a, b]) == (if && a.mode == b.mode == "local" && low < a.battery < high && low < b.battery < high
                                       && a.source == b.source && a.identity == b.identity && b.at - a.at <= window
                                    then Some(loss) else None)
            && (Risky(p, [a, b]) <==> Delta(p, [a, b]).Some? && loss >= limit)
  {
    var h := [a, b];
    assert h[..1] == [a] && [a][..0] == [];
    if Applicable(p, b) {
      InWindowExtends(p, h);
      if Applicable(p, a) {
        InWindowExtends(p, [a]);
        KeptNothing<int>(a.at - Window(p));
        KeptNothing<int>(b.at - Window(p));
        KeptSingle(Timed(a.at, a.battery), b.at - Window(p));
        assert InWindow(p, [a]) == [Timed(a.at, a.battery)];
      } else {
        InWindowAfterExclusion(p, [a]);
        KeptNothing<int>(b.at - Window(p));
      }
    } else {
      InWindowAfterExclusion(p, h);
    }
    hide InWindow, Kept;
  }

  lemma KeptSingle(item: Timed<int>, cutoff: int)
    ensures Kept([item], cutoff) == if item.at >= cutoff then [item] else []
  {
    assert [item][..0] == [];
  }

  // ------------------------------------------------- the tracker object

  class Tracker {
    var states: map<string, State>

    constructor ()
      ensures states == map[]
    {
      states := map[];
    }

    /** The policy is switched off: the tracked state of the resource is dropped and its status cleared. */
    method Disable(key: string) returns (delta: Option<int>, window: Option<int>, riskyWindows: nat)
      modifies this
      ensures states == old(states) - {key}
      ensures delta == None && window == None && riskyWindows == 0
    {
      states := states - {key};
      return None, None, 0;
    }

    method Observe(key: string, p: Policy, o: Observation)
      returns (delta: Option<int>, window: Option<int>, riskyWindows: nat)
      modifies this
      ensures var was := if key in old(states) then Some(old(states)[key]) else None;
              && states == old(states)[key := Step(p, was, o).0]
              && delta == Step(p, was, o).1 && window == Some(Window(p)) && riskyWindows == states[key].riskyWindows
    {
      var state := if key in states then Some(states[key]) else None;
      var gap := state.Some? && o.at - state.value.lastObserved > Window(p);
      if state == None || state.value.source != o.source || state.value.identity != o.identity
         || state.value.mode != o.mode || gap
      {
        state := Some(State(o.source, o.identity, o.mode, 0, [], 0));
      }
      var current := state.value.(lastObserved := o.at);
      delta := None;
      if !Applicable(p, o) {
        current := current.(samples := [], riskyWindows := 0);
      } else {
        var kept := KeepRecent(current.samples, o.at - Window(p));
        current := current.(samples := kept + [Timed(o.at, o.battery)]);
        if |current.samples| < 2 {
          current := current.(riskyWindows := 0);
        } else {
          var drop := current.samples[0].value - o.battery;
          if drop < 0 {
            drop := 0;
          }
          current := current.(riskyWindows := if drop >= MaxDrain(p) then current.riskyWindows + 1 else 0);
          delta := Some(drop);
        }
      }
      states := states[key := current];
      window, riskyWindows := Some(Window(p)), current.riskyWindows;
    }
  }
}
