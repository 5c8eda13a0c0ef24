/**
 The rolling telemetry window of the deadline estimator (recordAndEstimate in
 deadline_estimator.go): one map of sample lists under textual keys, appended to and pruned
 in place on every recording.
 */
module DeadlineEstimator {
  import opened Common
  import opened DeadlineAdmission
  import opened RollingWindow
  import NearestRank

  // ------------------------------------------------- keys

  datatype Target = Target(namespace: string, name: string, identity: string)

  function Prefix(t: Target): string {
    t.namespace + "/" + t.name + "/" + t.identity
  }

  function Key(t: Target, mode: string): string {
    Prefix(t) + "/" + mode
  }

  /** The textual test by which a recording finds the sample lists of its function. */
  predicate Under(key: string, t: Target) {
    Prefix(t) + "/" <= key
  }

  /** Namespaces and names never contain a slash; function identities may. */
  predicate Named(t: Target) {
    '/' !in t.namespace && '/' !in t.name
  }

  /** The identity of t continues the other's, for the same resource, after a slash. */
  predicate Extends(t: Target, other: Target) {
    t.namespace == other.namespace && t.name == other.name && other.identity + "/" <= t.identity
  }

  /** Two slash-separated texts, one a prefix of the other, agree on their first component. */
  lemma FirstComponent(a: string, rest: string, b: string, rest': string)
    requires '/' !in a && '/' !in b
    requires a + "/" + rest <= b + "/" + rest'
    ensures a == b && rest <= rest'
  {
    var x, y := a + "/" + rest, b + "/" + rest';
    assert x[|a|] == '/' && y[|b|] == '/';
    assert x == y[..|x|];
    assert |a| == |b| by {
      if |a| != |b| {
        assert false;
      }
    }
    assert a == x[..|a|] == y[..|a|] == b;
    assert rest == x[|a| + 1..] && rest' == y[|a| + 1..];
  }

  /** A slash-terminated prefix of a slash-separated pair ends with its first part or inside it. */
  lemma PrefixOfPair(p: string, a: string, mode: string)
    requires '/' !in mode
    ensures p + "/" <= a + "/" + mode <==> p == a || p + "/" <= a
  {
    var w := a + "/" + mode;
    if p + "/" <= w {
      assert w[..|p|] == p && w[|p|] == '/';
      if |p| < |a| {
        assert p + "/" == w[..|p| + 1] == a[..|p| + 1];
      } else if |p| == |a| {
        assert p == w[..|a|] == a;
      }
    }
  }

  /** A recording finds a key exactly when the key is its own function's or that of a function whose identity extends its own. */
  lemma KeyBelongsToItsTarget(t: Target, mode: string, other: Target)
    requires Named(t) && Named(other) && '/' !in mode
    ensures Under(Key(t, mode), other) <==> t == other || Extends(t, other)
  {
    var inner, inner' := other.identity + "/", t.identity + "/" + mode;
    var middle, middle' := other.name + "/" + inner, t.name + "/" + inner';
    assert Prefix(other) + "/" == other.namespace + "/" + middle;
    assert Key(t, mode) == t.namespace + "/" + middle';
    PrefixOfPair(other.identity, t.identity, mode);
    if Under(Key(t, mode), other) {
      FirstComponent(other.namespace, middle, t.namespace, middle');
      FirstComponent(other.name, inner, t.name, inner');
    }
  }

  lemma KeyInjective(t: Target, mode: string, mode': string)
    ensures Key(t, mode) == Key(t, mode') <==> mode == mode'
  {
    if Key(t, mode) == Key(t, mode') {
      assert mode == Key(t, mode)[|Prefix(t)| + 1..] == mode';
    }
  }

  // ------------------------------------------------- samples

  /** The timing part of a telemetry message; mode is already trimmed and lower-cased. */
  datatype Telemetry = Telemetry(
    mode: string, identity: string,
    executionMs: Option<int>, queueDelayMs: Option<int>, resourceWakeMs: Option<int>,
    edgeExecutionMs: Option<int>, networkRoundTripMs: Option<int>,
    resourceCollectionMs: Option<int>, outputApplicationMs: Option<int>)

  function SampleOf(t: Telemetry, now: int): (s: Option<Timed<Sample>>)
    ensures s.Some? ==> s.value.at == now && t.mode in {"local", "edge"}
  {
    if t.mode == "local" then
      if t.executionMs == None && t.queueDelayMs == None && t.resourceWakeMs == None then None
      else Some(Timed(now, Sample(t.executionMs, t.queueDelayMs, t.resourceWakeMs, None, None, None, None)))
    else if t.mode == "edge" then
      var execution := if t.edgeExecutionMs == None && t.networkRoundTripMs == None then t.executionMs else t.edgeExecutionMs;
      if execution == None && t.networkRoundTripMs == None
         && t.resourceCollectionMs == None && t.outputApplicationMs == None
      then None
      else Some(Timed(now, Sample(None, None, None, execution, t.networkRoundTripMs, t.resourceCollectionMs, t.outputApplicationMs)))
    else None
  }

  // ------------------------------------------------- one recording

  type Table = map<string, seq<Timed<Sample>>>

  function At(table: Table, key: string): seq<Timed<Sample>> {
    if key in table then table[key] else []
  }

  datatype Recording = Recording(target: Target, telemetry: Telemetry, now: int, window: nat)

  /** A recording counts only for a selected function that the telemetry does not contradict. */
  predicate Effective(r: Recording) {
    r.target.identity != "" && (r.telemetry.identity == "" || r.telemetry.identity == r.target.identity)
  }

  function Appended(table: Table, r: Recording): Table {
    var key, sample := Key(r.target, r.telemetry.mode), SampleOf(r.telemetry, r.now);
    if sample.Some? then table[key := At(table, key) + [sample.value]] else table
  }

  function Pruned(table: Table, t: Target, cutoff: int): Table {
    map key | key in table && (Under(key, t) ==> Kept(table[key], cutoff) != [])
      :: if Under(key, t) then Kept(table[key], cutoff) else table[key]
  }

  function Recorded(table: Table, r: Recording): Table {
    if Effective(r) then Pruned(Appended(table, r), r.target, r.now - r.window) else table
  }

  // ------------------------------------------------- runs

  function Run(rs: seq<Recording>): Table
  {
    if rs == [] then map[] else Recorded(Run(rs[..|rs| - 1]), rs[|rs| - 1])
  }

  /** Every sample ever recorded for one function in one mode. */
  function History(rs: seq<Recording>, t: Target, mode: string): seq<Timed<Sample>>
  {
    if rs == [] then []
    else
      var r := rs[|rs| - 1];
      var sample := SampleOf(r.telemetry, r.now);
      History(rs[..|rs| - 1], t, mode)
      + (if Effective(r) && r.target == t && r.telemetry.mode == mode && sample.Some? then [sample.value] else [])
  }

  /** The cutoff of the last effective recording of a function. */
  function LastCutoff(rs: seq<Recording>, t: Target): Option<int>
  {
    if rs == [] then None
    else
      var r := rs[|rs| - 1];
      if Effective(r) && r.target == t then Some(r.now - r.window) else LastCutoff(rs[..|rs| - 1], t)
  }

  /** Time does not go back and each function keeps its window. */
  ghost predicate Orderly(rs: seq<Recording>) {
    && (forall i, j :: 0 <= i < j < |rs| ==> rs[i].now <= rs[j].now)
    && (forall i, j :: 0 <= i < j < |rs| && rs[i].target == rs[j].target ==> rs[i].window == rs[j].window)
    && (forall i :: 0 <= i < |rs| ==> Named(rs[i].target))
  }

  /** No function of the run has an identity that t's extends. */
  ghost predicate Unextended(rs: seq<Recording>, t: Target) {
    forall i :: 0 <= i < |rs| ==> !Extends(t, rs[i].target)
  }

  /** The list of a function in one mode is its full history filtered at its last cutoff. */
  ghost predicate IsFilteredHistory(rs: seq<Recording>, t: Target, mode: string) {
    match LastCutoff(rs, t)
    case None => At(Run(rs), Key(t, mode)) == [] && History(rs, t, mode) == []
    case Some(c) => At(Run(rs), Key(t, mode)) == Kept(History(rs, t, mode), c)
  }

  lemma {:induction false} CutoffAdvances(rs: seq<Recording>, r: Recording)
    requires forall i :: 0 <= i < |rs| ==> rs[i].now <= r.now
    requires forall i :: 0 <= i < |rs| && rs[i].target == r.target ==> rs[i].window == r.window
    ensures LastCutoff(rs, r.target).Some? ==> LastCutoff(rs, r.target).value <= r.now - r.window
  {
    if rs != [] {
      CutoffAdvances(rs[..|rs| - 1], r);
    }
  }

  /** What one recording does to the list under one key. */
  lemma AtRecorded(table: Table, r: Recording, key: string)
    ensures var own, sample := Key(r.target, r.telemetry.mode), SampleOf(r.telemetry, r.now);
            var appended := At(table, key) + (if key == own && sample.Some? then [sample.value] else []);
            At(Recorded(table, r), key) ==
              if !Effective(r) then At(table, key)
              else if Under(key, r.target) then Kept(appended, r.now - r.window)
              else At(table, key)
  {
    hide Key, Under, SampleOf, Effective, Kept;
    var own, sample := Key(r.target, r.telemetry.mode), SampleOf(r.telemetry, r.now);
    OwnKey(r.target, r.telemetry.mode);
    KeptNothing<Sample>(r.now - r.window);
    var appended := At(table, key) + (if key == own && sample.Some? then [sample.value] else []);
    assert At(Appended(table, r), key) == appended;
  }

  lemma OwnKey(t: Target, mode: string)
    ensures Under(Key(t, mode), t)
  {
  }

  /** The pruned list of a function is always its full history filtered at its last cutoff. */
  lemma {:induction false} TableIsFilteredHistory(rs: seq<Recording>, t: Target, mode: string)
    requires Orderly(rs) && Unextended(rs, t) && Named(t) && '/' !in mode
    ensures IsFilteredHistory(rs, t, mode)
  {
    hide Key, Under, SampleOf, Effective, Kept, Recorded, Extends, Named;
    if rs != [] {
      var init, r := rs[..|rs| - 1], rs[|rs| - 1];
      TableIsFilteredHistory(init, t, mode);
      CutoffAdvances(init, r);
      KeyBelongsToItsTarget(t, mode, r.target);
      OwnKey(r.target, r.telemetry.mode);
      AtRecorded(Run(init), r, Key(t, mode));
      KeyInjective(t, mode, r.telemetry.mode);
      if Effective(r) && r.target == t {
        OwnRecording(init, r, t, mode);
      } else {
        assert History(rs, t, mode) == History(init, t, mode);
      }
    }
  }

  /** A recording of the function itself appends its sample and moves the cutoff. */
  lemma OwnRecording(init: seq<Recording>, r: Recording, t: Target, mode: string)
    requires IsFilteredHistory(init, t, mode) && Effective(r) && r.target == t
    requires LastCutoff(init, t).Some? ==> LastCutoff(init, t).value <= r.now - r.window
    ensures var sample := SampleOf(r.telemetry, r.now);
            var extra := if r.telemetry.mode == mode && sample.Some? then [sample.value] else [];
            Kept(At(Run(init), Key(t, mode)) + extra, r.now - r.window) == Kept(History(init, t, mode) + extra, r.now - r.window)
  {
    hide Key, SampleOf, Effective, Kept, History, Run;
    var sample, cutoff := SampleOf(r.telemetry, r.now), r.now - r.window;
    var extra := if r.telemetry.mode == mode && sample.Some? then [sample.value] else [];
    var held, history := At(Run(init), Key(t, mode)), History(init, t, mode);
    KeptAppend(held, extra, cutoff);
    KeptAppend(history, extra, cutoff);
    if LastCutoff(init, t).Some? {
      KeptTwice(history, LastCutoff(init, t).value, cutoff);
    }
  }

  /**
   After each effective recording the samples of its function are the full history no older
   than now - window, and those of a function whose identity does not extend it are untouched.
   */
  lemma WindowEqualsHistory(rs: seq<Recording>, t: Target, mode: string)
    requires rs != [] && Orderly(rs) && Unextended(rs, t) && Named(t) && '/' !in mode
    requires Effective(rs[|rs| - 1])
    ensures var r := rs[|rs| - 1];
            if t == r.target
            then At(Run(rs), Key(t, mode)) == Kept(History(rs, t, mode), r.now - r.window)
            else At(Run(rs), Key(t, mode)) == At(Run(rs[..|rs| - 1]), Key(t, mode))
  {
    hide Key, Under, SampleOf, Effective, Kept, Recorded, Extends, Named;
    var r := rs[|rs| - 1];
    TableIsFilteredHistory(rs, t, mode);
    KeyBelongsToItsTarget(t, mode, r.target);
    OwnKey(r.target, r.telemetry.mode);
    AtRecorded(Run(rs[..|rs| - 1]), r, Key(t, mode));
  }

  // ------------------------------------------------- when the windows are right

  ghost predicate RunOver(rs: seq<Recording>, targets: set<Target>) {
    Orderly(rs) && forall i :: 0 <= i < |rs| ==> rs[i].target in targets
  }

  /** In every orderly run over the targets every list is its filtered history. */
  ghost predicate WindowsAreExact(targets: set<Target>) {
    forall rs, t, mode :: RunOver(rs, targets) && t in targets && mode in {"local", "edge"} ==> IsFilteredHistory(rs, t, mode)
  }

  ghost predicate SomeExtends(targets: set<Target>) {
    exists t, other :: t in targets && other in targets && Extends(t, other)
  }

  /** A sample of one function, then two seconds later one of a function that it extends, both with windows of one second. */
  function Foreign(t: Target, other: Target): seq<Recording> {
    var timing := Telemetry("local", "", Some(1), None, None, None, None, None, None);
    [Recording(t, timing, 0, 1), Recording(other, timing, 2, 1)]
  }

  /** The first recording leaves the function's list with its one sample. */
  lemma ForeignFirst(t: Target, other: Target)
    requires t.identity != ""
    ensures var rs := Foreign(t, other);
            var sample := Timed(0, Sample(Some(1), None, None, None, None, None, None));
            && Run(rs[..1]) == Recorded(map[], rs[0]) && At(Run(rs[..1]), Key(t, "local")) == [sample]
            && History(rs[..1], t, "local") == [sample]
  {
    var rs := Foreign(t, other);
    var sample := Timed(0, Sample(Some(1), None, None, None, None, None, None));
    assert rs[..1] == [rs[0]] && [rs[0]][..0] == [];
    OwnKey(t, "local");
    AtRecorded(map[], rs[0], Key(t, "local"));
    hide Key, Under, Recorded;
    assert [] + [sample] == [sample];
    KeptLast([], sample, -1);
  }

  lemma ForeignRun(t: Target, other: Target)
    ensures var rs := Foreign(t, other); Run(rs) == Recorded(Run(rs[..1]), rs[1])
  {
    hide Recorded;
  }

  /** The second recording drops that sample. */
  lemma ForeignSecond(t: Target, other: Target)
    requires Named(t) && Named(other) && t.identity != "" && other.identity != "" && Extends(t, other)
    ensures At(Run(Foreign(t, other)), Key(t, "local")) == []
  {
    hide Key, Under, Extends, Named, Recorded, Kept, Run, At, History;
    var rs, key := Foreign(t, other), Key(t, "local");
    var sample := Timed(0, Sample(Some(1), None, None, None, None, None, None));
    ExtendsAnother(t, other);
    ForeignFirst(t, other);
    assert Run(rs) == Recorded(Run(rs[..1]), rs[1]) by { ForeignRun(t, other); }
    KeyBelongsToItsTarget(t, "local", other);
    KeyBelongsToItsTarget(other, "local", t);
    OwnKey(t, "local");
    KeptOne(sample);
    AtRecorded(Run(rs[..1]), rs[1], key);
    assert [sample] + [] == [sample];
  }

  /** Yet it belongs to the function's own window. */
  lemma ForeignHistory(t: Target, other: Target)
    requires t != other && t.identity != ""
    ensures var rs, sample := Foreign(t, other), Timed(0, Sample(Some(1), None, None, None, None, None, None));
            History(rs, t, "local") == [sample] && LastCutoff(rs, t) == Some(-1)
  {
    var rs := Foreign(t, other);
    ForeignFirst(t, other);
    hide Key, Recorded, At, SampleOf;
    assert rs[..1] == [rs[0]];
    assert LastCutoff(rs[..1], t) == Some(-1);
  }

  lemma ExtendsAnother(t: Target, other: Target)
    requires Extends(t, other)
    ensures t != other && !Extends(other, t)
  {
    assert |other.identity| < |t.identity|;
  }

  lemma ForeignIsOrderly(t: Target, other: Target)
    requires Named(t) && Named(other) && t != other
    ensures Orderly(Foreign(t, other))
  {
    hide Named;
  }

  /** A recording prunes the samples of every function whose identity extends its own. */
  lemma ForeignRecordingPrunes(t: Target, other: Target)
    requires Named(t) && Named(other) && t.identity != "" && other.identity != "" && Extends(t, other)
    ensures Orderly(Foreign(t, other)) && !IsFilteredHistory(Foreign(t, other), t, "local")
  {
    hide Key, At, Run, History, LastCutoff, Kept, Extends, Named, Foreign, Orderly;
    ExtendsAnother(t, other);
    ForeignIsOrderly(t, other);
    ForeignSecond(t, other);
    ForeignHistory(t, other);
    KeptOne(Timed(0, Sample(Some(1), None, None, None, None, None, None)));
  }

  lemma KeptOne(sample: Timed<Sample>)
    requires sample.at == 0
    ensures Kept([sample], 1) == [] && Kept([sample], -1) == [sample]
  {
    assert [sample][..0] == [];
  }

  /** Windows are exact in every orderly run exactly when no identity extends another's by a slash. */
  lemma WindowsAreExactWhenNothingExtends(targets: set<Target>)
    requires forall t :: t in targets ==> Named(t) && t.identity != ""
    ensures WindowsAreExact(targets) <==> !SomeExtends(targets)
  {
    hide Orderly, Extends, Named, IsFilteredHistory;
    if SomeExtends(targets) {
      var t, other :| t in targets && other in targets && Extends(t, other);
      ForeignRecordingPrunes(t, other);
      assert RunOver(Foreign(t, other), targets);
    } else {
      forall rs, t, mode | RunOver(rs, targets) && t in targets && mode in {"local", "edge"}
        ensures IsFilteredHistory(rs, t, mode)
      {
        TableIsFilteredHistory(rs, t, mode);
      }
    }
  }

  // ------------------------------------------------- estimates

  /** The estimates that a table holds for a function. */
  function Estimated(table: Table, t: Target, s: Settings, profile: Estimates): Estimates
    requires s.minSamples >= 1
  {
    Snapshot(Values(At(table, Key(t, "local"))), Values(At(table, Key(t, "edge"))), s, profile)
  }

  /** What a recording answers: nothing about a function it does not count for. */
  function Reply(table: Table, r: Recording, s: Settings, profile: Estimates): Estimates
    requires s.minSamples >= 1
  {
    if Effective(r) then Estimated(Recorded(table, r), r.target, s, profile)
    else Estimates(profile.identityKnown, false, 0, 0, 0, 0, 0, 0, 0)
  }

  lemma LastIsNamed(rs: seq<Recording>)
    requires rs != [] && Orderly(rs)
    ensures Named(rs[|rs| - 1].target)
  {
  }

  /** The reply to a recording is the percentiles of the function's full history within the window. */
  lemma RepliesFollowHistory(rs: seq<Recording>, s: Settings, profile: Estimates)
    requires rs != [] && Orderly(rs) && Effective(rs[|rs| - 1]) && s.minSamples >= 1
    requires Unextended(rs, rs[|rs| - 1].target)
    ensures var r := rs[|rs| - 1];
            var cutoff := r.now - r.window;
            Reply(Run(rs[..|rs| - 1]), r, s, profile) ==
            Snapshot(Values(Kept(History(rs, r.target, "local"), cutoff)), Values(Kept(History(rs, r.target, "edge"), cutoff)), s, profile)
  {
    hide Key, At, Kept, Recorded, Effective, Extends, Snapshot, History, Orderly, Unextended, Values;
    assert Named(rs[|rs| - 1].target) by { LastIsNamed(rs); }
    WindowEqualsHistory(rs, rs[|rs| - 1].target, "local");
    WindowEqualsHistory(rs, rs[|rs| - 1].target, "edge");
    assert Run(rs) == Recorded(Run(rs[..|rs| - 1]), rs[|rs| - 1]);
  }

  /** A recording without a selected function, or one whose telemetry names another, changes and answers nothing. */
  lemma ContradictedRecordingIsIgnored(table: Table, r: Recording, s: Settings, profile: Estimates)
    requires r.target.identity == "" || (r.telemetry.identity != "" && r.telemetry.identity != r.target.identity)
    requires s.minSamples >= 1
    ensures Recorded(table, r) == table
    ensures Reply(table, r, s, profile) == Estimates(profile.identityKnown, false, 0, 0, 0, 0, 0, 0, 0)
  {
  }

  /** Without a timing profile no history makes estimates available. */
  lemma NoEstimatesWithoutProfile(table: Table, r: Recording, s: Settings, profile: Estimates)
    requires s.minSamples >= 1 && !profile.available
    ensures var e := Reply(table, r, s, profile); !e.available && e.identityKnown == profile.identityKnown
  {
  }

  /** What a metric of the first message is worth. */
  function FirstEstimate(metric: Option<int>, fallback: int): int {
    if metric.Some? && metric.value >= 0 then metric.value else fallback
  }

  /** The lists after a first recording. */
  lemma FirstLists(r: Recording)
    requires r.target.identity != "" && r.telemetry.identity in {"", r.target.identity}
    ensures var sample, table := SampleOf(r.telemetry, r.now), Recorded(map[], r);
            forall mode :: mode in {"local", "edge"} ==>
              At(table, Key(r.target, mode)) == if sample.Some? && r.telemetry.mode == mode then [sample.value] else []
  {
    hide Key, Under, Kept, Recorded;
    var sample, cutoff := SampleOf(r.telemetry, r.now), r.now - r.window;
    forall mode | mode in {"local", "edge"}
      ensures At(Recorded(map[], r), Key(r.target, mode)) == if sample.Some? && r.telemetry.mode == mode then [sample.value] else []
    {
      AtRecorded(map[], r, Key(r.target, mode));
      KeyInjective(r.target, mode, r.telemetry.mode);
      OwnKey(r.target, mode);
      KeptNothing<Sample>(cutoff);
      var none: seq<Timed<Sample>> := [];
      if sample.Some? && r.telemetry.mode == mode {
        KeptLast(none, sample.value, cutoff);
        assert none + [sample.value] == [sample.value];
      } else {
        assert none + none == none;
      }
    }
  }

  /** A message without a timing of its mode leaves no sample behind. */
  lemma UntimedMessageRecordsNothing(r: Recording, mode: string)
    requires r.target.identity != "" && r.telemetry.identity in {"", r.target.identity} && mode in {"local", "edge"}
    requires var t := r.telemetry;
             && t.executionMs == t.queueDelayMs == t.resourceWakeMs == None
             && t.edgeExecutionMs == t.networkRoundTripMs == t.resourceCollectionMs == t.outputApplicationMs == None
    ensures At(Recorded(map[], r), Key(r.target, mode)) == []
  {
    FirstLists(r);
    hide Recorded, At, Key;
  }

  lemma FirstColumn(samples: seq<Timed<Sample>>, pick: Sample -> Option<int>, percentile: nat, fallback: int)
    requires |samples| <= 1
    ensures NearestRank.Estimate(Column(Values(samples), pick), 1, percentile, fallback) ==
            if samples == [] then fallback else FirstEstimate(pick(samples[0].value), fallback)
  {
    if samples == [] {
      NearestRank.EstimateOfOne(None, percentile, fallback);
      assert Column(Values(samples), pick) == [];
    } else {
      NearestRank.EstimateOfOne(pick(samples[0].value), percentile, fallback);
      assert Column(Values(samples), pick) == [pick(samples[0].value)];
    }
  }

  /**
   The first recording of a function is answered with its own metrics: those of local mode for the local
   estimates, those of edge mode for the remote ones, and the profile's for all others. A message from the edge
   without remote timings counts its plain execution time as the edge's.
   */
  lemma FirstRecordingIsAnswered(r: Recording, percentile: nat, profile: Estimates)
    requires r.target.identity != "" && r.telemetry.identity in {"", r.target.identity} && profile.available
    ensures var t, e := r.telemetry, Reply(map[], r, Settings(1, percentile), profile);
            var local, edge := t.mode == "local", t.mode == "edge";
            var execution := if t.edgeExecutionMs == None && t.networkRoundTripMs == None then t.executionMs else t.edgeExecutionMs;
            && e.available && e.identityKnown
            && e.localExecution == (if local then FirstEstimate(t.executionMs, profile.localExecution) else profile.localExecution)
            && e.localQueue == (if local then FirstEstimate(t.queueDelayMs, profile.localQueue) else profile.localQueue)
            && e.resourceWake == (if local then FirstEstimate(t.resourceWakeMs, profile.resourceWake) else profile.resourceWake)
            && e.edgeExecution == (if edge then FirstEstimate(execution, profile.edgeExecution) else profile.edgeExecution)
            && e.networkRoundTrip == (if edge then FirstEstimate(t.networkRoundTripMs, profile.networkRoundTrip) else profile.networkRoundTrip)
            && e.resourceCollection == (if edge then FirstEstimate(t.resourceCollectionMs, profile.resourceCollection) else profile.resourceCollection)
            && e.outputApplication == (if edge then FirstEstimate(t.outputApplicationMs, profile.outputApplication) else profile.outputApplication)
  {
    hide Key, Under, Recorded, At, Column, Values, NearestRank.Estimate;
    FirstLists(r);
    var table := Recorded(map[], r);
    var local, edge := At(table, Key(r.target, "local")), At(table, Key(r.target, "edge"));
    FirstColumn(local, (x: Sample) => x.localExecution, percentile, profile.localExecution);
    FirstColumn(local, (x: Sample) => x.localQueue, percentile, profile.localQueue);
    FirstColumn(local, (x: Sample) => x.resourceWake, percentile, profile.resourceWake);
    FirstColumn(edge, (x: Sample) => x.edgeExecution, percentile, profile.edgeExecution);
    FirstColumn(edge, (x: Sample) => x.networkRoundTrip, percentile, profile.networkRoundTrip);
    FirstColumn(edge, (x: Sample) => x.resourceCollection, percentile, profile.resourceCollection);
    FirstColumn(edge, (x: Sample) => x.outputApplication, percentile, profile.outputApplication);
  }

  // ------------------------------------------------- the estimator object

  class Estimator {
    var samples: Table

    constructor ()
      ensures samples == map[]
    {
      samples := map[];
    }

    /** Appends the sample of one telemetry message, prunes the lists of its function and answers its estimates. */
    method Record(r: Recording, s: Settings, profile: Estimates) returns (e: Estimates)
      requires s.minSamples >= 1
      modifies this
      ensures samples == Recorded(old(samples), r) && e == Reply(old(samples), r, s, profile)
    {
      hide Key, Under, SampleOf, Effective, Kept, Snapshot;
      if !Effective(r) {
        return Estimates(profile.identityKnown, false, 0, 0, 0, 0, 0, 0, 0);
      }
      var cutoff := r.now - r.window;
      var sample := SampleOf(r.telemetry, r.now);
      if sample.Some? {
        var key := Key(r.target, r.telemetry.mode);
        samples := samples[key := At(samples, key) + [sample.value]];
      }
      ghost var appended := samples;
      var todo := samples.Keys;
      while todo != {}
        invariant todo <= appended.Keys && todo <= samples.Keys <= appended.Keys
        invariant forall key :: key in todo ==> samples[key] == appended[key]
        invariant forall key :: key in appended.Keys && key !in todo ==>
          if Under(key, r.target) && Kept(appended[key], cutoff) == [] then key !in samples
          else key in samples && samples[key] == (if Under(key, r.target) then Kept(appended[key], cutoff) else appended[key])
        decreases todo
      {
        var key :| key in todo;
        todo := todo - {key};
        if Under(key, r.target) {
          var kept := KeepRecent(samples[key], cutoff);
          if |kept| == 0 {
            samples := samples - {key};
          } else {
            samples := samples[key := kept];
          }
        }
      }
      assert samples == Pruned(appended, r.target, cutoff);
      e := EstimateNow(r.target, s, profile);
    }

    /** The estimates of a function from the lists as they are. */
    method EstimateNow(t: Target, s: Settings, profile: Estimates) returns (e: Estimates)
      requires s.minSamples >= 1
      ensures e == Estimated(samples, t, s, profile)
    {
      e := Snapshot(Values(At(samples, Key(t, "local"))), Values(At(samples, Key(t, "edge"))), s, profile);
    }
  }
}
