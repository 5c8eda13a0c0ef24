/**
 Deadline admission of a placement candidate (deadline_placement.go) over the percentile
 estimates of snapshotLocked (deadline_estimator.go). Costs are 32-bit in the source, so
 sums and the slack wrap around explicitly.
 */
module DeadlineAdmission {
  import opened Common
  import NearestRank

  datatype Placement = Local | Edge | Hybrid

  /** Millisecond estimates; available is false when no timing profile covers the function. */
  datatype Estimates = Estimates(
    identityKnown: bool, available: bool,
    localExecution: int, localQueue: int, resourceWake: int,
    edgeExecution: int, networkRoundTrip: int,
    resourceCollection: int, outputApplication: int)

  /** The deadline policy as written in the resource; zero means the default. */
  datatype Policy = Policy(enabled: bool, target: Option<int>, minSlackMs: int, safetyMarginMs: int)

  /** The selected and the last reported function identity, trimmed; empty when unset. */
  datatype Identity = Identity(selected: string, observed: string)

  datatype Verdict =
    | NotEnabled | FunctionIdentityUnknown | FunctionIdentityMismatch
    | TargetUnavailable | EstimatesUnavailable
    | CandidateAccepted | ForcedBatteryOverride | CandidateDeadlineUnsafe

  datatype Evaluation = Evaluation(accepted: bool, verdict: Verdict)

  const MIN_INT32 := -0x8000_0000
  const MAX_INT32 := 0x7fff_ffff
  const DEFAULT_MIN_SLACK_MS := 500
  const DEFAULT_SAFETY_MARGIN_MS := 250

  function Wrap32(x: int): (r: int)
    ensures MIN_INT32 <= r <= MAX_INT32
    ensures MIN_INT32 <= x <= MAX_INT32 <==> r == x
  {
    (x + 0x8000_0000) % 0x1_0000_0000 - 0x8000_0000
  }

  function MinSlack(p: Policy): int {
    if p.minSlackMs > 0 then p.minSlackMs else DEFAULT_MIN_SLACK_MS
  }

  function SafetyMargin(p: Policy): int {
    if p.safetyMarginMs > 0 then p.safetyMarginMs else DEFAULT_SAFETY_MARGIN_MS
  }

  /** The cost model of the design, over the integers. */
  function ExactCost(candidate: Placement, e: Estimates, margin: int): int
  {
    match candidate
    case Local => e.localQueue + e.resourceWake + e.localExecution + margin
    case Edge => e.networkRoundTrip + e.edgeExecution + margin
    case Hybrid => e.resourceCollection + e.networkRoundTrip + e.edgeExecution + e.outputApplication + margin
  }

  /** The cost as the 32-bit additions of the source leave it. */
  function CandidateCost(candidate: Placement, e: Estimates, margin: int): int
  {
    match candidate
    case Local => Wrap32(Wrap32(Wrap32(e.localQueue + e.resourceWake) + e.localExecution) + margin)
    case Edge => Wrap32(Wrap32(e.networkRoundTrip + e.edgeExecution) + margin)
    case Hybrid =>
      Wrap32(Wrap32(Wrap32(Wrap32(e.resourceCollection + e.networkRoundTrip) + e.edgeExecution)
                    + e.outputApplication) + margin)
  }

  function Evaluate(p: Policy, id: Identity, candidate: Placement, hard: bool, e: Estimates): Evaluation
  {
    if !p.enabled then Evaluation(true, NotEnabled)
    else if id.selected == "" || !e.identityKnown then Evaluation(hard, FunctionIdentityUnknown)
    else if id.observed != "" && id.observed != id.selected then Evaluation(hard, FunctionIdentityMismatch)
    else if p.target == None || p.target.value <= 0 then Evaluation(true, TargetUnavailable)
    else if !e.available then Evaluation(true, EstimatesUnavailable)
    else
      var slack := Wrap32(p.target.value - CandidateCost(candidate, e, SafetyMargin(p)));
      if slack >= MinSlack(p) then Evaluation(true, CandidateAccepted)
      else if hard then Evaluation(true, ForcedBatteryOverride)
      else Evaluation(false, CandidateDeadlineUnsafe)
  }

  /** A hard proposal is never refused by the deadline. */
  lemma HardIsAdmitted(p: Policy, id: Identity, candidate: Placement, e: Estimates)
    ensures Evaluate(p, id, candidate, true, e).accepted
  {
  }

  lemma WrapChain(x: int, y: int)
    ensures Wrap32(Wrap32(x) + y) == Wrap32(x + y)
  {
    var a := x + 0x8000_0000;
    assert Wrap32(x) + y + 0x8000_0000 == a + y - 0x1_0000_0000 * (a / 0x1_0000_0000);
    assert (a + y - 0x1_0000_0000 * (a / 0x1_0000_0000)) % 0x1_0000_0000 == (a + y) % 0x1_0000_0000;
  }

  /** The stepwise 32-bit sum is the integer cost reduced once, so it is exact just when that cost fits. */
  lemma CostIsExactWhenItFits(candidate: Placement, e: Estimates, margin: int)
    ensures CandidateCost(candidate, e, margin) == Wrap32(ExactCost(candidate, e, margin))
    ensures CandidateCost(candidate, e, margin) == ExactCost(candidate, e, margin)
            <==> MIN_INT32 <= ExactCost(candidate, e, margin) <= MAX_INT32
  {
    hide Wrap32;
    match candidate
    case Local =>
      WrapChain(e.localQueue + e.resourceWake, e.localExecution);
      WrapChain(e.localQueue + e.resourceWake + e.localExecution, margin);
    case Edge =>
      WrapChain(e.networkRoundTrip + e.edgeExecution, margin);
    case Hybrid =>
      WrapChain(e.resourceCollection + e.networkRoundTrip, e.edgeExecution);
      WrapChain(e.resourceCollection + e.networkRoundTrip + e.edgeExecution, e.outputApplication);
      WrapChain(e.resourceCollection + e.networkRoundTrip + e.edgeExecution + e.outputApplication, margin);
  }

  predicate NonNegative(e: Estimates) {
    && e.localExecution >= 0 && e.localQueue >= 0 && e.resourceWake >= 0
    && e.edgeExecution >= 0 && e.networkRoundTrip >= 0
    && e.resourceCollection >= 0 && e.outputApplication >= 0
  }

  /** The same profile with no component larger. */
  predicate NoWorse(low: Estimates, high: Estimates) {
    && low.identityKnown == high.identityKnown && low.available == high.available
    && low.localExecution <= high.localExecution && low.localQueue <= high.localQueue
    && low.resourceWake <= high.resourceWake && low.edgeExecution <= high.edgeExecution
    && low.networkRoundTrip <= high.networkRoundTrip
    && low.resourceCollection <= high.resourceCollection
    && low.outputApplication <= high.outputApplication
  }

  /** An int32 deadline and a cost that fits, so that neither the sum nor the slack wraps. */
  predicate Fits(p: Policy, candidate: Placement, e: Estimates) {
    && (p.target.Some? ==> p.target.value <= MAX_INT32)
    && ExactCost(candidate, e, SafetyMargin(p)) <= MAX_INT32
  }

  /** Worse estimates never turn a rejected candidate into an accepted one. */
  lemma WorseEstimatesNeverAdmit(p: Policy, id: Identity, candidate: Placement, hard: bool, low: Estimates, high: Estimates)
    requires NonNegative(low) && NoWorse(low, high) && Fits(p, candidate, high)
    ensures Evaluate(p, id, candidate, hard, high).accepted ==> Evaluate(p, id, candidate, hard, low).accepted
  {
    CostIsExactWhenItFits(candidate, low, SafetyMargin(p));
    CostIsExactWhenItFits(candidate, high, SafetyMargin(p));
  }

  /** Wherever hybrid is admitted, plain edge is admitted on the same estimates. */
  lemma HybridAdmittedImpliesEdge(p: Policy, id: Identity, hard: bool, e: Estimates)
    requires NonNegative(e) && Fits(p, Hybrid, e)
    ensures Evaluate(p, id, Hybrid, hard, e).accepted ==> Evaluate(p, id, Edge, hard, e).accepted
  {
    CostIsExactWhenItFits(Hybrid, e, SafetyMargin(p));
    CostIsExactWhenItFits(Edge, e, SafetyMargin(p));
  }

  /** The evaluation comes down to comparing slack: the deadline is enabled, the function matches, target and estimates exist. */
  predicate Comparable(p: Policy, id: Identity, e: Estimates) {
    && p.enabled && id.selected != "" && e.identityKnown && (id.observed == "" || id.observed == id.selected)
    && p.target.Some? && 0 < p.target.value <= MAX_INT32 && e.available
    && p.minSlackMs <= MAX_INT32 && p.safetyMarginMs <= MAX_INT32
  }

  /** The cost leaves too little slack, but its 32-bit image leaves enough. */
  predicate SlackWraps(p: Policy, candidate: Placement, e: Estimates)
    requires p.target.Some?
  {
    var slack := p.target.value - ExactCost(candidate, e, SafetyMargin(p));
    slack < MinSlack(p) <= Wrap32(slack)
  }

  lemma WrapDifference(t: int, x: int)
    ensures Wrap32(t - Wrap32(x)) == Wrap32(t - x)
  {
    var a := x + 0x8000_0000;
    assert t - Wrap32(x) + 0x8000_0000 == (t - x + 0x8000_0000) + 0x1_0000_0000 * (a / 0x1_0000_0000);
    assert ((t - x + 0x8000_0000) + 0x1_0000_0000 * (a / 0x1_0000_0000)) % 0x1_0000_0000 == (t - x + 0x8000_0000) % 0x1_0000_0000;
  }

  lemma AdmissionByExactCost(p: Policy, id: Identity, candidate: Placement, e: Estimates)
    requires Comparable(p, id, e)
    ensures Evaluate(p, id, candidate, false, e).accepted <==>
            Wrap32(p.target.value - ExactCost(candidate, e, SafetyMargin(p))) >= MinSlack(p)
  {
    CostIsExactWhenItFits(candidate, e, SafetyMargin(p));
    WrapDifference(p.target.value, ExactCost(candidate, e, SafetyMargin(p)));
    hide Wrap32, CandidateCost, ExactCost;
  }

  /**
   The whole rule in the fields of its inputs: a candidate is refused exactly when the deadline is enabled, the
   proposal is not forced by the battery, and either the function is not the one the deadline was set for, or
   target and estimates exist and the time the candidate takes leaves less than the required slack.
   */
  lemma RefusedExactlyWhenUnknownOrLate(p: Policy, id: Identity, candidate: Placement, hard: bool, e: Estimates)
    ensures var time := match candidate
              case Local => e.localQueue + e.resourceWake + e.localExecution
              case Edge => e.networkRoundTrip + e.edgeExecution
              case Hybrid => e.resourceCollection + e.networkRoundTrip + e.edgeExecution + e.outputApplication;
            var margin := if p.safetyMarginMs > 0 then p.safetyMarginMs else 250;
            var least := if p.minSlackMs > 0 then p.minSlackMs else 500;
            var known := id.selected != "" && e.identityKnown && id.observed in {"", id.selected};
            var timed := p.target.Some? && p.target.value > 0 && e.available;
            !Evaluate(p, id, candidate, hard, e).accepted <==>
              p.enabled && !hard && (known ==> timed && Wrap32(p.target.value - (time + margin)) < least)
  {
    var margin := SafetyMargin(p);
    CostIsExactWhenItFits(candidate, e, margin);
    if p.target.Some? {
      WrapDifference(p.target.value, ExactCost(candidate, e, margin));
    }
    hide Wrap32, CandidateCost;
  }

  /** The verdict names the reason: the first of the conditions that keeps the deadline out of the decision, or what the slack says. */
  lemma VerdictNamesTheReason(p: Policy, id: Identity, candidate: Placement, hard: bool, e: Estimates)
    ensures var v := Evaluate(p, id, candidate, hard, e);
            var known := id.selected != "" && e.identityKnown;
            var timed := p.target.Some? && p.target.value > 0;
            && (v.verdict == NotEnabled <==> !p.enabled)
            && (v.verdict == FunctionIdentityUnknown <==> p.enabled && !known)
            && (v.verdict == FunctionIdentityMismatch <==> p.enabled && known && id.observed !in {"", id.selected})
            && (v.verdict == TargetUnavailable ==> v.accepted && !timed)
            && (v.verdict == EstimatesUnavailable ==> v.accepted && timed && !e.available)
            && (v.verdict in {CandidateAccepted, ForcedBatteryOverride, CandidateDeadlineUnsafe} ==> timed && e.available)
            && (v.verdict == ForcedBatteryOverride <==> v.accepted && !Evaluate(p, id, candidate, false, e).accepted && p.enabled && known && id.observed in {"", id.selected})
            && (v.verdict == CandidateDeadlineUnsafe ==> !v.accepted)
  {
    hide CandidateCost, Wrap32;
  }

  lemma WrapsOnce(x: int)
    requires MIN_INT32 - 0x1_0000_0000 <= x < MIN_INT32
    ensures Wrap32(x) == x + 0x1_0000_0000
  {
  }

  /** Without the bound the 32-bit sum wraps: a slower edge is admitted although a faster one was refused. */
  lemma OverflowAdmitsSlowerEdge(id: Identity)
    requires Comparable(Policy(true, Some(1000), 0, 0), id, Estimates(true, true, 0, 0, 0, 5000, 0, 0, 0))
    ensures var p, low := Policy(true, Some(1000), 0, 0), Estimates(true, true, 0, 0, 0, 5000, 0, 0, 0);
            var high := low.(edgeExecution := 0x7fff_fff0, networkRoundTrip := 0x7fff_fff0);
            && NoWorse(low, high)
            && !Evaluate(p, id, Edge, false, low).accepted && Evaluate(p, id, Edge, false, high).accepted
  {
    hide Wrap32, CandidateCost, Evaluate;
    var p, low := Policy(true, Some(1000), 0, 0), Estimates(true, true, 0, 0, 0, 5000, 0, 0, 0);
    var high := low.(edgeExecution := 0x7fff_fff0, networkRoundTrip := 0x7fff_fff0);
    AdmissionByExactCost(p, id, Edge, low);
    AdmissionByExactCost(p, id, Edge, high);
    WrapsOnce(1000 - ExactCost(Edge, high, 250));
  }

  function Min(a: int, b: int): int { if a < b then a else b }

  /** The same profile with its components cut until they add up to no more than the given sum. */
  function Cut(e: Estimates, sum: int): Estimates
  {
    var wake := Min(e.resourceWake, sum - Min(e.localQueue, sum));
    var trip := Min(e.networkRoundTrip, sum - Min(e.resourceCollection, sum));
    var edge := Min(e.edgeExecution, sum - Min(e.resourceCollection, sum) - trip);
    Estimates(true, true, Min(e.localExecution, sum - Min(e.localQueue, sum) - wake), Min(e.localQueue, sum), wake,
              edge, trip, Min(e.resourceCollection, sum), Min(e.outputApplication, sum - Min(e.resourceCollection, sum) - trip - edge))
  }

  /** Every smaller cost is the cost of a profile that is no worse. */
  lemma CutReaches(candidate: Placement, e: Estimates, margin: int, cost: int)
    requires NonNegative(e) && e.identityKnown && e.available && margin <= cost <= ExactCost(candidate, e, margin)
    ensures exists low :: NonNegative(low) && NoWorse(low, e) && ExactCost(candidate, low, margin) == cost
  {
    var bare := if candidate == Edge then e.(resourceCollection := 0, outputApplication := 0) else e;
    var low := Cut(bare, cost - margin);
    assert NonNegative(low) && NoWorse(low, e) && ExactCost(candidate, low, margin) == cost;
  }

  /** With every better profile an admitted candidate stays admitted, exactly when its slack does not wrap. */
  lemma AdmissionIsMonotoneExactlyWithoutWrapping(p: Policy, id: Identity, candidate: Placement, high: Estimates)
    requires Comparable(p, id, high) && NonNegative(high)
    ensures (forall low :: NonNegative(low) && NoWorse(low, high) && Evaluate(p, id, candidate, false, high).accepted ==>
                             Evaluate(p, id, candidate, false, low).accepted)
            <==> !SlackWraps(p, candidate, high)
  {
    hide Evaluate, ExactCost, NoWorse, NonNegative, Wrap32;
    AdmissionByExactCost(p, id, candidate, high);
    var margin, slack, target := SafetyMargin(p), MinSlack(p), p.target.value;
    if SlackWraps(p, candidate, high) {
      var cost := if target - margin < slack then margin else target - slack + 1;
      CostAtLeastMargin(candidate, high, margin);
      CutReaches(candidate, high, margin, cost);
      var low :| NonNegative(low) && NoWorse(low, high) && ExactCost(candidate, low, margin) == cost;
      BetterIsComparable(p, id, low, high);
      AdmissionByExactCost(p, id, candidate, low);
    } else {
      forall low | NonNegative(low) && NoWorse(low, high) && Evaluate(p, id, candidate, false, high).accepted
        ensures Evaluate(p, id, candidate, false, low).accepted
      {
        BetterIsComparable(p, id, low, high);
        AdmissionByExactCost(p, id, candidate, low);
        CostGrows(candidate, low, high, margin);
        CostAtLeastMargin(candidate, low, margin);
      }
    }
  }

  lemma BetterIsComparable(p: Policy, id: Identity, low: Estimates, high: Estimates)
    requires Comparable(p, id, high) && NoWorse(low, high)
    ensures Comparable(p, id, low)
  {
  }

  lemma CostAtLeastMargin(candidate: Placement, e: Estimates, margin: int)
    requires NonNegative(e)
    ensures ExactCost(candidate, e, margin) >= margin
  {
  }

  lemma CostGrows(candidate: Placement, low: Estimates, high: Estimates, margin: int)
    requires NoWorse(low, high)
    ensures ExactCost(candidate, low, margin) <= ExactCost(candidate, high, margin)
  {
  }

  // ------------------------------------------------- estimates from samples

  datatype Sample = Sample(
    localExecution: Option<int>, localQueue: Option<int>, resourceWake: Option<int>,
    edgeExecution: Option<int>, networkRoundTrip: Option<int>,
    resourceCollection: Option<int>, outputApplication: Option<int>)

  function Column(samples: seq<Sample>, pick: Sample -> Option<int>): seq<Option<int>> {
    seq(|samples|, i requires 0 <= i < |samples| => pick(samples[i]))
  }

  /** The estimator settings after defaulting. */
  datatype Settings = Settings(minSamples: int, percentile: nat)

  /** The estimates of one function from its in-window local and edge samples, metric by metric. */
  function Snapshot(local: seq<Sample>, edge: seq<Sample>, s: Settings, fallback: Estimates): Estimates
    requires s.minSamples >= 1
  {
    if !fallback.available then fallback
    else
      Estimates(true, true,
        NearestRank.Estimate(Column(local, (x: Sample) => x.localExecution), s.minSamples, s.percentile, fallback.localExecution),
        NearestRank.Estimate(Column(local, (x: Sample) => x.localQueue), s.minSamples, s.percentile, fallback.localQueue),
        NearestRank.Estimate(Column(local, (x: Sample) => x.resourceWake), s.minSamples, s.percentile, fallback.resourceWake),
        NearestRank.Estimate(Column(edge, (x: Sample) => x.edgeExecution), s.minSamples, s.percentile, fallback.edgeExecution),
        NearestRank.Estimate(Column(edge, (x: Sample) => x.networkRoundTrip), s.minSamples, s.percentile, fallback.networkRoundTrip),
        NearestRank.Estimate(Column(edge, (x: Sample) => x.resourceCollection), s.minSamples, s.percentile, fallback.resourceCollection),
        NearestRank.Estimate(Column(edge, (x: Sample) => x.outputApplication), s.minSamples, s.percentile, fallback.outputApplication))
  }

  /** One metric of one history is nowhere better than in the other. */
  predicate ColumnDominates(high: seq<Sample>, low: seq<Sample>, pick: Sample -> Option<int>) {
    NearestRank.Dominates(Column(high, pick), Column(low, pick))
  }

  /** Every metric of one history is nowhere better than in the other. */
  predicate SamplesDominate(high: seq<Sample>, low: seq<Sample>) {
    && ColumnDominates(high, low, (x: Sample) => x.localExecution)
    && ColumnDominates(high, low, (x: Sample) => x.localQueue)
    && ColumnDominates(high, low, (x: Sample) => x.resourceWake)
    && ColumnDominates(high, low, (x: Sample) => x.edgeExecution)
    && ColumnDominates(high, low, (x: Sample) => x.networkRoundTrip)
    && ColumnDominates(high, low, (x: Sample) => x.resourceCollection)
    && ColumnDominates(high, low, (x: Sample) => x.outputApplication)
  }

  lemma ColumnMonotone(low: seq<Sample>, high: seq<Sample>, pick: Sample -> Option<int>, s: Settings, t: Settings,
                       fallback: int, fallback': int)
    requires fallback <= fallback' && ColumnDominates(high, low, pick)
    requires s.minSamples == t.minSamples >= 1 && s.percentile <= t.percentile
    ensures NearestRank.Estimate(Column(low, pick), s.minSamples, s.percentile, fallback)
         <= NearestRank.Estimate(Column(high, pick), t.minSamples, t.percentile, fallback')
  {
    NearestRank.EstimateMonotone(Column(low, pick), Column(high, pick), s.minSamples, s.percentile, t.percentile, fallback, fallback');
  }

  lemma SnapshotMonotone(low: seq<Sample>, high: seq<Sample>, lowEdge: seq<Sample>, highEdge: seq<Sample>,
                         s: Settings, t: Settings, fallback: Estimates, fallback': Estimates)
    requires NoWorse(fallback, fallback') && SamplesDominate(high, low) && SamplesDominate(highEdge, lowEdge)
    requires s.minSamples == t.minSamples >= 1 && s.percentile <= t.percentile
    ensures NoWorse(Snapshot(low, lowEdge, s, fallback), Snapshot(high, highEdge, t, fallback'))
  {
    hide NearestRank.Estimate, Column, ColumnDominates;
    ColumnMonotone(low, high, (x: Sample) => x.localExecution, s, t, fallback.localExecution, fallback'.localExecution);
    ColumnMonotone(low, high, (x: Sample) => x.localQueue, s, t, fallback.localQueue, fallback'.localQueue);
    ColumnMonotone(low, high, (x: Sample) => x.resourceWake, s, t, fallback.resourceWake, fallback'.resourceWake);
    ColumnMonotone(lowEdge, highEdge, (x: Sample) => x.edgeExecution, s, t, fallback.edgeExecution, fallback'.edgeExecution);
    ColumnMonotone(lowEdge, highEdge, (x: Sample) => x.networkRoundTrip, s, t, fallback.networkRoundTrip, fallback'.networkRoundTrip);
    ColumnMonotone(lowEdge, highEdge, (x: Sample) => x.resourceCollection, s, t, fallback.resourceCollection, fallback'.resourceCollection);
    ColumnMonotone(lowEdge, highEdge, (x: Sample) => x.outputApplication, s, t, fallback.outputApplication, fallback'.outputApplication);
  }

  /**
   Admission is monotone through percentile, cost and slack: raising the percentile, any
   sample or the fallback never turns a rejected candidate into an accepted one.
   */
  lemma SlowerHistoryNeverAdmits(p: Policy, id: Identity, candidate: Placement, hard: bool,
                                 low: seq<Sample>, high: seq<Sample>, lowEdge: seq<Sample>, highEdge: seq<Sample>,
                                 s: Settings, t: Settings, fallback: Estimates, fallback': Estimates)
    requires NoWorse(fallback, fallback') && SamplesDominate(high, low) && SamplesDominate(highEdge, lowEdge)
    requires s.minSamples == t.minSamples >= 1 && s.percentile <= t.percentile
    requires NonNegative(fallback) && Fits(p, candidate, Snapshot(high, highEdge, t, fallback'))
    ensures Evaluate(p, id, candidate, hard, Snapshot(high, highEdge, t, fallback')).accepted ==>
            Evaluate(p, id, candidate, hard, Snapshot(low, lowEdge, s, fallback)).accepted
  {
    SnapshotMonotone(low, high, lowEdge, highEdge, s, t, fallback, fallback');
    SnapshotNonNegative(low, lowEdge, s, fallback);
    hide Snapshot, Evaluate, SamplesDominate;
    WorseEstimatesNeverAdmit(p, id, candidate, hard, Snapshot(low, lowEdge, s, fallback), Snapshot(high, highEdge, t, fallback'));
  }

  lemma SnapshotNonNegative(local: seq<Sample>, edge: seq<Sample>, s: Settings, fallback: Estimates)
    requires s.minSamples >= 1 && NonNegative(fallback)
    ensures NonNegative(Snapshot(local, edge, s, fallback))
  {
    hide NearestRank.Estimate, Column;
    NearestRank.EstimateNonNegative(Column(local, (x: Sample) => x.localExecution), s.minSamples, s.percentile, fallback.localExecution);
    NearestRank.EstimateNonNegative(Column(local, (x: Sample) => x.localQueue), s.minSamples, s.percentile, fallback.localQueue);
    NearestRank.EstimateNonNegative(Column(local, (x: Sample) => x.resourceWake), s.minSamples, s.percentile, fallback.resourceWake);
    NearestRank.EstimateNonNegative(Column(edge, (x: Sample) => x.edgeExecution), s.minSamples, s.percentile, fallback.edgeExecution);
    NearestRank.EstimateNonNegative(Column(edge, (x: Sample) => x.networkRoundTrip), s.minSamples, s.percentile, fallback.networkRoundTrip);
    NearestRank.EstimateNonNegative(Column(edge, (x: Sample) => x.resourceCollection), s.minSamples, s.percentile, fallback.resourceCollection);
    NearestRank.EstimateNonNegative(Column(edge, (x: Sample) => x.outputApplication), s.minSamples, s.percentile, fallback.outputApplication);
  }
}
