/**
 What the release protocol guarantees about host and device together: when their tuples agree, when the
 host keeps up, when edge invocations succeed, and that a newer release can always be rolled out. Each
 condition is exact, so each comes with a run that breaks the promise outside it.
 */
module ReleaseAgreement {
  import opened Common
  import opened ReleaseSlots
  import opened DeviceRelease
  import opened DeviceInvariants
  import opened EdgeHost
  import opened ReleaseProtocol
  import ArtifactFiles

  // ------------------------------------------------- composing runs

  lemma RunTwo(s: Sys, e0: Event, e1: Event)
    ensures Run(s, [e0, e1]) == Next(Next(s, e0), e1)
  {
    hide Next;
    assert [e0, e1][1..] == [e1] && [e1][1..] == [];
    assert Run(Next(s, e0), [e1]) == Next(Next(s, e0), e1);
  }

  lemma RunFive(s: Sys, e0: Event, e1: Event, e2: Event, e3: Event, e4: Event)
    ensures Run(s, [e0, e1, e2, e3, e4]) == Next(Next(Next(Next(Next(s, e0), e1), e2), e3), e4)
  {
    hide Next;
    var s3 := Next(Next(Next(s, e0), e1), e2);
    assert [e0, e1, e2, e3, e4][1..] == [e1, e2, e3, e4] && [e1, e2, e3, e4][1..] == [e2, e3, e4] && [e2, e3, e4][1..] == [e3, e4];
    RunTwo(s3, e3, e4);
    assert Run(Next(Next(s, e0), e1), [e2, e3, e4]) == Run(s3, [e3, e4]);
  }

  lemma {:induction false} RunAppend(s: Sys, a: seq<Event>, b: seq<Event>)
    ensures Run(s, a + b) == Run(Run(s, a), b)
    decreases |a|
  {
    hide Next;
    if a == [] {
      assert a + b == b;
    } else {
      assert (a + b)[0] == a[0] && (a + b)[1..] == a[1..] + b;
      RunAppend(Next(s, a[0]), a[1..], b);
    }
  }

  /** Some run leads from one state to the other. */
  ghost predicate Reaches(s: Sys, s': Sys) {
    exists events :: Run(s, events) == s'
  }

  lemma ReachesOn(s: Sys, s': Sys, s'': Sys)
    requires Reaches(s, s') && Reaches(s', s'')
    ensures Reaches(s, s'')
  {
    hide Run;
    var a :| Run(s, a) == s';
    var b :| Run(s', b) == s'';
    RunAppend(s, a, b);
    assert Run(s, a + b) == s'';
  }

  lemma ReachesKeepsInv(s: Sys, s': Sys)
    requires Inv(s) && Reaches(s, s')
    ensures Inv(s')
  {
    hide Run, Inv;
    var events :| Run(s, events) == s';
    RunKeepsInv(s, events);
  }

  lemma ValidIsPositive(r: Release)
    requires ValidRelease(r)
    ensures 0 < r.generation && |r.tuple.digest| == 64
  {
  }

  // ------------------------------------------------- a roll-out, from any state

  /** What the device reports: with the digest of its release, or without one. */
  function ReportOf(slots: Slots<DeviceTuple>, exact: bool): Report {
    Report(slots, if exact then Some(slots.active.tuple.digest) else None)
  }

  /** The device downloads the release and reports it. */
  function DeviceStages(s: Sys, r: Release, exact: bool): seq<Event> {
    [Edit(r), Begin(Version(r, s.current.status)), SendStage, DeviceApply(StageOf(r), true, true),
     ReportState(ReportOf(s.device.slots, exact).digest)]
  }

  lemma StageCommandBinds(s: Sys, r: Release)
    requires ValidRelease(r) && Fresh(s.device.slots, r) && StageOf(r) in s.commands
    ensures Next(s, DeviceApply(StageOf(r), true, true)) ==
            s.(device := s.device.(slots := Stage(s.device.slots, r)), deviceBound := s.deviceBound[r.generation := r])
  {
    hide ValidRelease;
  }

  lemma ReportIsSent(s: Sys, exact: bool)
    ensures var t := ReportOf(s.device.slots, exact); var after := Next(s, ReportState(t.digest));
            && after == s.(reports := s.reports + {t}, allExact := after.allExact)
            && (exact ==> after.allExact == s.allExact)
  {
  }

  lemma DeviceStagesRelease(s: Sys, r: Release, exact: bool)
    requires ValidRelease(r) && Fresh(s.device.slots, r) && !DeviceReady(Version(r, s.current.status))
    ensures var after, slots := Run(s, DeviceStages(s, r, exact)), Stage(s.device.slots, r);
            && after.current == Version(r, s.current.status) && after.published == s.published + {r}
            && after.host == s.host && after.device == s.device.(slots := slots) && ReportOf(slots, exact) in after.reports
            && (exact ==> after.allExact == s.allExact) && after.noModeLost == s.noModeLost
  {
    hide Run, Next, Observed, ValidRelease, DeviceReady, Fresh;
    var e, v := DeviceStages(s, r, exact), Version(r, s.current.status);
    RunFive(s, e[0], e[1], e[2], e[3], e[4]);
    ReleaseIsNamed(s, v);
    var s2 := Next(Next(s, e[0]), e[1]);
    StageIsSent(s2, v);
    StageCommandBinds(Next(s2, e[2]), r);
    ReportIsSent(Next(Next(s2, e[2]), e[3]), exact);
  }

  lemma ReleaseIsNamed(s: Sys, v: Version)
    requires v.status == s.current.status
    ensures Next(Next(s, Edit(v.spec)), Begin(v)) == NewVersion(s, v).(session := Some(Session(v, false, None, None)))
  {
    hide OperatorStep, HostStep, DeviceStep;
  }

  lemma StageIsSent(s: Sys, v: Version)
    requires s.session.Some? && s.session.value.version == v && ValidRelease(v.spec) && !DeviceReady(v)
    ensures Next(s, SendStage) == s.(commands := s.commands + {StageOf(v.spec)})
  {
    ValidIsPositive(v.spec);
    hide ValidRelease, DeviceReady;
  }

  /** A report arrives, the object names a release, and the operator finds the host without it. */
  function HostIsProbed(s: Sys, t: Report, q: Release): seq<Event> {
    [Observe(t), Edit(q), Begin(Version(q, Observed(s.current.status, t))), Probe, SendUpload]
  }

  lemma ProbeLeadsToUpload(s: Sys, t: Report, q: Release)
    requires t in s.reports && AcceptableUpload(q) && q.generation > Top(s.host) && WellOrdered(s.host)
    ensures var after, v := Run(s, HostIsProbed(s, t, q)), Version(q, Observed(s.current.status, t));
            && after.published == s.published + {s.current.spec, q} && q in after.uploads
            && after.host == s.host && after.device == s.device
            && after.session == Some(Session(v, true, Some(s.host.active), s.host.staged))
            && after.allExact == s.allExact && after.noModeLost == s.noModeLost
  {
    var e, st := HostIsProbed(s, t, q), Observed(s.current.status, t);
    var v := Version(q, st);
    assert q.generation > 0 && |q.tuple.digest| == 64;
    RunFive(s, e[0], e[1], e[2], e[3], e[4]);
    hide Run, Trim, Observed, HostStep, DeviceStep, AcceptableUpload;
    var s1 := Next(s, e[0]);
    assert s1 == NewVersion(s, Version(s.current.spec, st));
    var s2 := Next(s1, e[1]);
    assert s2 == NewVersion(s1, v);
    var s3 := Next(s2, e[2]);
    assert s3 == s2.(session := Some(Session(v, false, None, None)));
    var s4 := Next(s3, e[3]);
    assert s4 == s3.(session := Some(Session(v, true, Some(s.host.active), s.host.staged)));
    assert Next(s4, e[4]) == s4.(uploads := s4.uploads + {q});
  }

  function HostMoves(q: Release): seq<Event> {
    [HostUpload(q, true), UploadAcked, SendHostActivation, HostActivate(q.generation, true), HostActivationAcked]
  }

  lemma UploadIsStaged(s: Sys, q: Release)
    requires q in s.uploads && AcceptableUpload(q) && q.generation > Top(s.host) && WellOrdered(s.host)
    ensures Next(s, HostUpload(q, true)) ==
            s.(host := Stage(s.host, HostOf(q)), hostBound := s.hostBound[q.generation := HostOf(q).tuple], uploadAcks := s.uploadAcks + {q})
  {
    hide Trim;
  }

  lemma StagedIsActivated(s: Sys, g: int)
    requires g in s.activations && s.host.staged.Some? && s.host.staged.value.generation == g != s.host.active.generation
    ensures Next(s, HostActivate(g, true)) ==
            s.(host := Promote(s.host), activationAcks := s.activationAcks + {g}, hostWasActive := s.hostWasActive + {g})
  {
  }

  lemma UploadLeadsToActivation(s: Sys, q: Release, v: Version)
    requires v.spec == q && DeviceReady(v) && q in s.uploads && AcceptableUpload(q)
    requires q.generation > Top(s.host) && WellOrdered(s.host)
    requires s.session == Some(Session(v, true, Some(s.host.active), s.host.staged))
    ensures var after, known := Run(s, HostMoves(q)), Held(q.generation, HostTuple(q.tuple.digest, q.tuple.identity));
            && after.host == Slots(HostOf(q), None) && after.device == s.device && after.published == s.published
            && after.session == Some(Session(v, true, Some(known), None)) && HostMatches(Some(known), q)
            && after.allExact == s.allExact && after.noModeLost == s.noModeLost
  {
    var e, known := HostMoves(q), Held(q.generation, HostTuple(q.tuple.digest, q.tuple.identity));
    RunFive(s, e[0], e[1], e[2], e[3], e[4]);
    hide Run, Trim, DeviceReady;
    assert HostMatches(Some(known), q) && !HostMatches(Some(s.host.active), q);
    assert q.generation > 0 && |q.tuple.digest| == 64;
    UploadIsStaged(s, q);
    hide HostMatches, AcceptableUpload, HostStep;
    var s1 := Next(s, e[0]);
    var s2 := Next(s1, e[1]);
    assert s2 == s1.(session := Some(Session(v, true, Some(s.host.active), Some(known))));
    var s3 := Next(s2, e[2]);
    assert s3 == s2.(activations := s2.activations + {q.generation});
    StagedIsActivated(s3, q.generation);
    var s4 := Next(s3, e[3]);
    assert Next(s4, e[4]) == s4.(session := Some(Session(v, true, Some(known), None)));
  }

  /** An edge mode that was stored without its restart has to be left first. */
  function DeviceMoves(v: View, g: int): seq<Event> {
    if v.mode == Edge && v.localRuntime then ModeMove(g, Local) + ModeMove(g, Edge) else ModeMove(g, Edge)
  }

  function ModeMove(g: int, mode: Mode): seq<Event> {
    [SendMode(mode), DeviceApply(SetMode(g, mode), true, true)]
  }

  lemma CommandIsApplied(s: Sys, v: Version, mode: Mode)
    requires s.session.Some? && s.session.value.version == v && DeviceReady(v)
    requires v.spec.generation > 0 && |v.spec.tuple.digest| == 64 && (mode == Edge ==> HostMatches(s.session.value.active, v.spec))
    ensures var after, c := Run(s, ModeMove(v.spec.generation, mode)), SetMode(v.spec.generation, mode);
            && after == s.(device := Effect(s.device, c, true, true), commands := after.commands, noModeLost := after.noModeLost)
            && (after.noModeLost <==> s.noModeLost && !LosesMode(s.device, c, after.device))
  {
    var e := ModeMove(v.spec.generation, mode);
    RunTwo(s, e[0], e[1]);
    hide Run, Trim, DeviceReady, HostMatches, Effect, LosesMode;
    var s1 := Next(s, e[0]);
    assert s1 == s.(commands := s.commands + {SetMode(v.spec.generation, mode)});
  }

  lemma CommandLeadsToEdge(s: Sys, r: Release, v: Version)
    requires s.session.Some? && s.session.value.version == v && DeviceReady(v) && HostMatches(s.session.value.active, v.spec)
    requires v.spec.generation == r.generation && |v.spec.tuple.digest| == 64 && ValidRelease(r)
    requires s.device.slots == Slots(r, None) || (s.device.slots.staged == Some(r) && s.device.slots.active.generation != r.generation)
    ensures var after := Run(s, DeviceMoves(s.device, r.generation));
            && after.device == View(Slots(r, None), Edge, false) && after.host == s.host && after.published == s.published
            && after.allExact == s.allExact && after.noModeLost == s.noModeLost
  {
    ValidIsPositive(r);
    hide Run, Trim, DeviceReady, HostMatches, ValidRelease, ModeMove;
    var g := r.generation;
    if OnEdge(s.device) && s.device.localRuntime {
      CommandIsApplied(s, v, Local);
      var s1 := Run(s, ModeMove(g, Local));
      assert s1.device == View(Slots(r, None), Local, true);
      CommandIsApplied(s1, v, Edge);
      RunAppend(s, ModeMove(g, Local), ModeMove(g, Edge));
    } else {
      CommandIsApplied(s, v, Edge);
    }
  }

  /** The host is brought to a release that looks ready on the device, and the device to edge mode. */
  function HandOver(s: Sys, t: Report, q: Release): seq<Event> {
    HostIsProbed(s, t, q) + HostMoves(q) + DeviceMoves(s.device, q.generation)
  }

  lemma HandOverReachesTheEdge(s: Sys, t: Report, r: Release, q: Release)
    requires t in s.reports && AcceptableUpload(q) && q.generation > Top(s.host) && WellOrdered(s.host)
    requires DeviceReady(Version(q, Observed(s.current.status, t))) && ValidRelease(r) && r.generation == q.generation
    requires s.device.slots == Slots(r, None) || (s.device.slots.staged == Some(r) && s.device.slots.active.generation != r.generation)
    ensures var after := Run(s, HandOver(s, t, q));
            && after.device == View(Slots(r, None), Edge, false) && after.host == Slots(HostOf(q), None)
            && after.published == s.published + {s.current.spec, q}
            && after.allExact == s.allExact && after.noModeLost == s.noModeLost
  {
    hide Run, Next, DeviceReady, Observed, Trim, ValidRelease, HostIsProbed, HostMoves, DeviceMoves, HostMatches;
    var a, b, c := HostIsProbed(s, t, q), HostMoves(q), DeviceMoves(s.device, q.generation);
    var v := Version(q, Observed(s.current.status, t));
    ProbeLeadsToUpload(s, t, q);
    UploadLeadsToActivation(Run(s, a), q, v);
    CommandLeadsToEdge(Run(Run(s, a), b), r, v);
    RunAppend(s, a, b);
    RunAppend(s, a + b, c);
  }

  /**
   A fault-free roll-out to the edge. The object names one release while the device stages and another of
   the same generation and digest while the host does; the staged digest alone makes the second look ready.
   When they are the same release this is the roll-out as it should be.
   */
  function RollOut(s: Sys, r: Release, q: Release): seq<Event> {
    var staged := Run(s, DeviceStages(s, r, true));
    DeviceStages(s, r, true) + HandOver(staged, ReportOf(staged.device.slots, true), q)
  }

  lemma RollOutReachesTheEdge(s: Sys, r: Release, q: Release)
    requires Inv(s) && SameBinding(r, q) && r.generation > Top(s.host) && r.generation > Top(s.device.slots)
    ensures var after := Run(s, RollOut(s, r, q));
            && after.device == View(Slots(r, None), Edge, false) && after.host == Slots(HostOf(q), None)
            && after.published == s.published + {r, q}
            && after.allExact == s.allExact && after.noModeLost == s.noModeLost
  {
    NewerLooksUnready(s, r);
    hide Inv, Run, Trim, ValidRelease, DeviceStages, HandOver;
    DeviceStagesRelease(s, r, true);
    var staged := Run(s, DeviceStages(s, r, true));
    var t := ReportOf(staged.device.slots, true);
    assert DeviceReady(Version(q, Observed(staged.current.status, t)));
    HandOverReachesTheEdge(staged, t, r, q);
    RunAppend(s, DeviceStages(s, r, true), HandOver(staged, t, q));
    assert staged.published + {staged.current.spec, q} == s.published + {r, q};
  }

  /** Whatever status the operator holds, a release newer than everything on the device does not look ready. */
  lemma NewerLooksUnready(s: Sys, r: Release)
    requires Inv(s) && ValidRelease(r) && r.generation > Top(s.device.slots)
    ensures !DeviceReady(Version(r, s.current.status)) && WellOrdered(s.host) && WellOrdered(s.device.slots)
    ensures Fresh(s.device.slots, r)
  {
    ValidIsPositive(r);
    hide ValidRelease, Trim, CommandOk, ReportOk, SessionOk, AckOk;
  }

  /** From every reachable state, however it came about, some continuation brings both components to a newer release. */
  lemma NewerReleaseCanAlwaysBeRolledOut(spec: Release, host: Held<HostTuple>, flashed: Option<string>,
                                         events: seq<Event>, r: Release)
    requires ValidRelease(r) && AcceptableUpload(r)
    requires var s := Run(Start(spec, host, flashed), events);
             r.generation > Top(s.host) && r.generation > Top(s.device.slots)
    ensures exists more :: var s := Run(Start(spec, host, flashed), events + more);
              s.device == View(Slots(r, None), Edge, false) && s.host == Slots(HostOf(r), None)
  {
    var start := Start(spec, host, flashed);
    var s := Run(start, events);
    StartKeepsInv(spec, host, flashed);
    RunKeepsInv(start, events);
    RollOutReachesTheEdge(s, r, r);
    RunAppend(start, events, RollOut(s, r, r));
    hide Run, RollOut, Inv, Start, HostOf;
    assert Run(start, events + RollOut(s, r, r)).device == View(Slots(r, None), Edge, false);
  }

  /** A later start of the firmware keeps what was rolled out: the release always, and edge mode unless the power was off. */
  lemma RollOutSurvivesRestart(s: Sys, r: Release, q: Release, powerOn: bool, flashed: Option<string>)
    requires Inv(s) && SameBinding(r, q) && r.generation > Top(s.host) && r.generation > Top(s.device.slots)
    ensures var after := Next(Run(s, RollOut(s, r, q)), DeviceStart(powerOn, flashed));
            after.device == if powerOn then View(Slots(r, None), Local, true) else View(Slots(r, None), Edge, false)
  {
    hide Run, RollOut, Inv, Trim, Next, SameBinding, Top;
    RollOutReachesTheEdge(s, r, q);
    DeviceStarts(Run(s, RollOut(s, r, q)), powerOn, flashed);
    assert ValidRelease(r) by { BoundReleaseIsValid(r, q); }
  }

  lemma BoundReleaseIsValid(r: Release, q: Release)
    requires SameBinding(r, q)
    ensures ValidRelease(r)
  {
    hide Trim;
  }

  lemma DeviceStarts(s: Sys, powerOn: bool, flashed: Option<string>)
    ensures Next(s, DeviceStart(powerOn, flashed)).device == Started(s.device, powerOn, flashed)
  {
    hide Started;
  }

  // ------------------------------------------------- agreement on the identity

  /** An edge device and a host at the same generation run the same bytes under the same function identity. */
  ghost predicate TuplesAgree(s: Sys) {
    var h, d := s.host.active, s.device.slots.active;
    OnEdge(s.device) && d.generation >= 1 && h.generation == d.generation ==>
      h.tuple.digest == d.tuple.digest && h.tuple.identity == Trim(d.tuple.identity)
  }

  /** The device would take one and the host the other for the same generation and bytes. */
  predicate SameBinding(r: Release, q: Release) {
    r.generation == q.generation && r.tuple.digest == q.tuple.digest && ValidRelease(r) && AcceptableUpload(q)
  }

  /** The releases published for one generation and digest carry one function identity. */
  ghost predicate OneIdentityPerBinding(published: set<Release>) {
    forall r, q :: r in published && q in published && SameBinding(r, q) ==> Trim(r.tuple.identity) == Trim(q.tuple.identity)
  }

  /** Whatever is published of a set of releases, in every fault-free run tuples agree. */
  ghost predicate AlwaysAgrees(publishable: set<Release>) {
    forall spec, host, flashed, events ::
      var s := Run(Start(spec, host, flashed), events);
      s.published <= publishable && s.allExact && s.noModeLost ==> TuplesAgree(s)
  }

  lemma PublishedIdentitiesSuffice(s: Sys)
    requires Inv(s) && s.allExact && s.noModeLost && OneIdentityPerBinding(s.published)
    ensures TuplesAgree(s)
  {
    var h, d := s.host.active, s.device.slots.active;
    if OnEdge(s.device) && d.generation >= 1 && h.generation == d.generation {
      EdgeDeviceIsSupported(s);
      assert d in s.published by { ActiveWasPublished(s); }
      hide Inv, Trim, ValidRelease, AcceptableUpload;
      var q :| q in s.published && AcceptableUpload(q) && HostOf(q) == Held(h.generation, s.hostBound[h.generation]);
      assert SameBinding(d, q);
    }
  }

  lemma ActiveWasPublished(s: Sys)
    requires Inv(s) && s.device.slots.active.generation >= 1
    ensures s.device.slots.active in s.published && ValidRelease(s.device.slots.active)
  {
    hide ValidRelease, HostLedger, CommandOk, VersionOk, SessionOk, ReportOk, AckOk;
  }

  /** Two releases of one generation and digest under different identities do end up on host and device together. */
  lemma DivergingRun(r: Release, q: Release, host: HostTuple, flashed: Option<string>)
    requires SameBinding(r, q) && Trim(r.tuple.identity) != Trim(q.tuple.identity)
    ensures var start := Start(r, Held(0, host), flashed);
            var s := Run(start, RollOut(start, r, q));
            s.published == {r, q} && s.allExact && s.noModeLost && !TuplesAgree(s)
  {
    var start := Start(r, Held(0, host), flashed);
    ValidIsPositive(r);
    StartKeepsInv(r, Held(0, host), flashed);
    RollOutReachesTheEdge(start, r, q);
    assert {r} + {r, q} == {r, q};
    hide Run, RollOut, Trim, Inv;
  }

  /** Tuples agree in every fault-free run exactly when what is published for one generation and digest has one identity. */
  lemma TuplesAgreeExactlyWhenIdentitiesDo(publishable: set<Release>)
    ensures AlwaysAgrees(publishable) <==> OneIdentityPerBinding(publishable)
  {
    hide Run, Inv, TuplesAgree, Trim, SameBinding, Start, RollOut;
    if OneIdentityPerBinding(publishable) {
      forall spec, host, flashed, events | Run(Start(spec, host, flashed), events).published <= publishable
        ensures var s := Run(Start(spec, host, flashed), events); s.allExact && s.noModeLost ==> TuplesAgree(s)
      {
        var s := Run(Start(spec, host, flashed), events);
        StartKeepsInv(spec, host, flashed);
        RunKeepsInv(Start(spec, host, flashed), events);
        if s.allExact && s.noModeLost {
          PublishedIdentitiesSuffice(s);
        }
      }
    } else {
      var r, q :| r in publishable && q in publishable && SameBinding(r, q) && Trim(r.tuple.identity) != Trim(q.tuple.identity);
      DivergingRun(r, q, HostTuple("", ""), None);
    }
  }

  // ------------------------------------------------- agreement on the digest when reports may lack it

  ghost predicate DigestsAgree(s: Sys) {
    OnEdge(s.device) && s.device.slots.active.generation >= 1 && s.host.active.generation == s.device.slots.active.generation ==>
      s.host.active.tuple.digest == s.device.slots.active.tuple.digest
  }

  ghost predicate DigestsAlwaysAgree(publishable: set<Release>) {
    forall spec, host, flashed, events ::
      var s := Run(Start(spec, host, flashed), events);
      s.published <= publishable && s.noModeLost ==> DigestsAgree(s)
  }

  /** The device activates its staged release for local mode and reports it. */
  function LocalMoves(s: Sys, r: Release, exact: bool, modeWritten: bool): seq<Event> {
    var t := ReportOf(s.device.slots, exact);
    [Observe(t), Begin(Version(r, Observed(s.current.status, t))), SendMode(Local),
     DeviceApply(SetMode(r.generation, Local), modeWritten, true), ReportState(ReportOf(Slots(r, None), exact).digest)]
  }

  /** What a device runs after a local activation of release r whose mode may not reach the store. */
  function LocalView(v: View, r: Release, modeWritten: bool): View {
    View(Slots(r, None), if modeWritten then Local else v.mode, v.localRuntime || (modeWritten && v.mode == Edge))
  }

  lemma LocalCommandActivates(s: Sys, r: Release, modeWritten: bool)
    requires ValidRelease(r) && SetMode(r.generation, Local) in s.commands
    requires s.device.slots.staged == Some(r) && s.device.slots.active.generation != r.generation
    ensures var after := Next(s, DeviceApply(SetMode(r.generation, Local), modeWritten, true));
            && after == s.(device := LocalView(s.device, r, modeWritten), noModeLost := after.noModeLost)
            && (after.noModeLost <==> s.noModeLost && !OnEdge(after.device))
  {
    ValidIsPositive(r);
    hide ValidRelease;
  }

  lemma DeviceTurnsLocal(s: Sys, r: Release, exact: bool, modeWritten: bool)
    requires ValidRelease(r) && s.current.spec == r && r in s.published
    requires s.device.slots.staged == Some(r) && s.device.slots.active.generation != r.generation
    requires ReportOf(s.device.slots, exact) in s.reports
    ensures var after := Run(s, LocalMoves(s, r, exact, modeWritten));
            && after.current.status == Observed(s.current.status, ReportOf(s.device.slots, exact))
            && after.current.spec == r && after.published == s.published && after.host == s.host
            && after.device == LocalView(s.device, r, modeWritten) && ReportOf(Slots(r, None), exact) in after.reports
            && (exact ==> after.allExact == s.allExact) && (after.noModeLost <==> s.noModeLost && !OnEdge(after.device))
  {
    hide Run, Next, Observed, Trim, ValidRelease, DeviceReady, LocalView, OnEdge;
    var e, t := LocalMoves(s, r, exact, modeWritten), ReportOf(s.device.slots, exact);
    RunFive(s, e[0], e[1], e[2], e[3], e[4]);
    LocalIsCommanded(s, r, t);
    var s3 := Next(Next(Next(s, e[0]), e[1]), e[2]);
    LocalCommandActivates(s3, r, modeWritten);
    var s4 := Next(s3, e[3]);
    assert s4.device.slots == Slots(r, None) by { LocalSlots(s.device, r, modeWritten); }
    ReportIsSent(s4, exact);
  }

  /** A report of the staged release leads to its command for local mode. */
  lemma LocalIsCommanded(s: Sys, r: Release, t: Report)
    requires ValidRelease(r) && s.current.spec == r && t in s.reports && t.slots.staged == Some(r)
    ensures var v := Version(r, Observed(s.current.status, t));
            var s1 := NewVersion(s, v);
            Next(Next(Next(s, Observe(t)), Begin(v)), SendMode(Local)) ==
            s1.(session := Some(Session(v, false, None, None)), commands := s1.commands + {SetMode(r.generation, Local)})
  {
    var v := Version(r, Observed(s.current.status, t));
    ValidIsPositive(r);
    assert DeviceReady(v);
    hide Observed, Trim, ValidRelease, DeviceReady, DeviceStep, HostStep;
    var s1 := Next(s, Observe(t));
    assert s1 == NewVersion(s, v);
    var s2 := Next(s1, Begin(v));
    assert s2 == s1.(session := Some(Session(v, false, None, None)));
  }

  lemma LocalSlots(v: View, r: Release, modeWritten: bool)
    ensures LocalView(v, r, modeWritten).slots == Slots(r, None)
  {
  }

  /** A release newer than the device's can be rolled out to it for local mode, whatever the host does. */
  lemma LocalRollOut(s: Sys, r: Release, exact: bool, modeWritten: bool) returns (after: Sys)
    requires Inv(s) && ValidRelease(r) && r.generation > Top(s.device.slots)
    ensures Reaches(s, after)
    ensures after.current.status == Observed(s.current.status, ReportOf(Stage(s.device.slots, r), exact))
    ensures after.current.spec == r && after.published == s.published + {r} && after.host == s.host
    ensures after.device == LocalView(s.device, r, modeWritten) && ReportOf(Slots(r, None), exact) in after.reports
    ensures exact ==> after.allExact == s.allExact
    ensures after.noModeLost <==> s.noModeLost && !OnEdge(after.device)
  {
    hide Inv, Run, Trim, ValidRelease, DeviceStages, LocalMoves, Observed, DeviceReady, ReportOf, OnEdge;
    NewerLooksUnready(s, r);
    DeviceStagesRelease(s, r, exact);
    var staged := Run(s, DeviceStages(s, r, exact));
    DeviceTurnsLocal(staged, r, exact, modeWritten);
    RunAppend(s, DeviceStages(s, r, exact), LocalMoves(staged, r, exact, modeWritten));
    after := Run(staged, LocalMoves(staged, r, exact, modeWritten));
    assert Run(s, DeviceStages(s, r, exact) + LocalMoves(staged, r, exact, modeWritten)) == after;
  }

  // Runs in which the operator pairs a reported generation with the digest of an earlier report: the device was
  // built with the bytes of q, and reports r, which it activates, without a digest, and without a function
  // when that is blank.

  lemma FirstReport(r: Release, host: Held<HostTuple>, flashed: string) returns (after: Sys)
    ensures Reaches(Start(r, host, Some(flashed)), after)
    ensures after.current.status.activeDigest == flashed && after.published == {r} && after.noModeLost
    ensures after.host == Slots(BuiltIn(host), None) && after.device == View(Slots(Bootstrap(flashed), None), Local, true)
  {
    var start := Start(r, host, Some(flashed));
    var t := Report(start.device.slots, Some(flashed));
    hide Trim, Run, BuiltIn;
    var s1 := Next(start, ReportState(Some(flashed)));
    assert s1 == start.(reports := {t}, allExact := s1.allExact);
    after := Next(s1, Observe(t));
    RunTwo(start, ReportState(Some(flashed)), Observe(t));
    assert Run(start, [ReportState(Some(flashed)), Observe(t)]) == after;
  }

  /** The status pairs the generation of r with the digest of q, and shows the function of q. */
  lemma StaleStatusLooksReady(st: Status, before: Slots<DeviceTuple>, r: Release, q: Release)
    requires st.activeDigest == q.tuple.digest && r.generation == q.generation
    requires Trim(r.tuple.identity) == Trim(q.tuple.identity)
             || (Trim(r.tuple.identity) == "" && Trim(before.active.tuple.identity) == Trim(q.tuple.identity) != "")
    ensures Trim(q.tuple.identity) != "" ==>
              DeviceReady(Version(q, Observed(Observed(st, ReportOf(before, false)), ReportOf(Slots(r, None), false))))
  {
    TrimTwice(q.tuple.identity);
    hide Trim;
  }

  /** A device that runs an older release, or none, activates r and is taken for running q. */
  lemma MisreadFrom(s: Sys, r: Release, q: Release) returns (after: Sys)
    requires Inv(s) && s.noModeLost && s.current.status.activeDigest == q.tuple.digest
    requires r.generation == q.generation && ValidRelease(r) && AcceptableUpload(q) && r.tuple.digest != q.tuple.digest
    requires r.generation > Top(s.host) && r.generation > Top(s.device.slots) && !OnEdge(s.device)
    requires Trim(r.tuple.identity) == Trim(q.tuple.identity)
             || (Trim(r.tuple.identity) == "" && Trim(s.device.slots.active.tuple.identity) == Trim(q.tuple.identity))
    ensures Reaches(s, after) && after.published == s.published + {r, q} && after.noModeLost && !DigestsAgree(after)
  {
    hide Inv, Run, Trim, ValidRelease, DeviceReady, Observed, HandOver, ReportOf;
    ValidIsPositive(r);
    StaleStatusLooksReady(s.current.status, Stage(s.device.slots, r), r, q);
    NamedUpload(q);
    var local := LocalRollOut(s, r, false, true);
    NewerLooksUnready(s, r);
    var t := ReportOf(Slots(r, None), false);
    HandOverReachesTheEdge(local, t, r, q);
    after := Run(local, HandOver(local, t, q));
    assert Reaches(local, after);
    hide Reaches;
    ReachesOn(s, local, after);
  }

  lemma NamedUpload(q: Release)
    requires AcceptableUpload(q)
    ensures Trim(q.tuple.identity) != "" && HostOf(q).tuple.digest == q.tuple.digest && q.generation > 0
  {
    hide Trim;
  }

  /** One generation published with two digests for one function, or one blank and one that may still be shown, does split host and device. */
  lemma MisreadRun(publishable: set<Release>, r: Release, q: Release, host: HostTuple)
    requires r in publishable && q in publishable && SameFunction(publishable, r, q) && r.tuple.digest != q.tuple.digest
    ensures exists spec, events :: var s := Run(Start(spec, Held(0, host), Some(q.tuple.digest)), events);
              s.published <= publishable && s.noModeLost && !DigestsAgree(s)
  {
    hide Inv, Run, Trim, ValidRelease, AcceptableUpload, Reaches, DigestsAgree, Start, BuiltIn, LocalView;
    BootstrapIdentity();
    BuiltInGeneration(Held(0, host));
    ValidIsPositive(r);
    if Trim(r.tuple.identity) == Trim(q.tuple.identity) || Trim(q.tuple.identity) == "basic-edge-demo" {
      var s := FirstReport(r, Held(0, host), q.tuple.digest);
      StartKeepsInv(r, Held(0, host), Some(q.tuple.digest));
      ReachesKeepsInv(Start(r, Held(0, host), Some(q.tuple.digest)), s);
      var after := MisreadFrom(s, r, q);
      MisreadReached(publishable, r, host, q, s, after);
    } else {
      var p :| p in publishable && ValidRelease(p) && p.generation < r.generation && Trim(p.tuple.identity) == Trim(q.tuple.identity);
      var first := FirstReport(p, Held(0, host), q.tuple.digest);
      StartKeepsInv(p, Held(0, host), Some(q.tuple.digest));
      ReachesKeepsInv(Start(p, Held(0, host), Some(q.tuple.digest)), first);
      ValidIsPositive(p);
      var s := LocalRollOut(first, p, false, true);
      ReachesOn(Start(p, Held(0, host), Some(q.tuple.digest)), first, s);
      ReachesKeepsInv(Start(p, Held(0, host), Some(q.tuple.digest)), s);
      UnhashedKeepsDigest(first.current.status, Stage(first.device.slots, p));
      LocalStaysLocal(first.device, p);
      var after := MisreadFrom(s, r, q);
      MisreadReached(publishable, p, host, q, s, after);
    }
  }

  lemma BuiltInGeneration(host: Held<HostTuple>)
    ensures BuiltIn(host).generation == host.generation
  {
    hide Trim;
  }

  lemma UnhashedKeepsDigest(st: Status, slots: Slots<DeviceTuple>)
    ensures Observed(st, ReportOf(slots, false)).activeDigest == st.activeDigest
  {
    hide Trim;
  }

  lemma LocalStaysLocal(v: View, r: Release)
    requires !OnEdge(v)
    ensures LocalView(v, r, true).slots == Slots(r, None) && !OnEdge(LocalView(v, r, true))
  {
  }

  lemma MisreadReached(publishable: set<Release>, spec: Release, host: HostTuple, q: Release, s: Sys, after: Sys)
    requires Reaches(Start(spec, Held(0, host), Some(q.tuple.digest)), s) && Reaches(s, after)
    requires after.published <= publishable && after.noModeLost && !DigestsAgree(after)
    ensures exists spec, events :: var s := Run(Start(spec, Held(0, host), Some(q.tuple.digest)), events);
              s.published <= publishable && s.noModeLost && !DigestsAgree(s)
  {
    hide Run, Start, DigestsAgree;
    ReachesOn(Start(spec, Held(0, host), Some(q.tuple.digest)), s, after);
    var events :| Run(Start(spec, Held(0, host), Some(q.tuple.digest)), events) == after;
  }

  /**
   With reports that may carry another digest or none, host and device still agree on it in every run exactly
   when no generation is published with two digests for one function, a blank identity counting as any function
   that may still be shown.
   */
  lemma DigestsAgreeExactlyWhenPublishedOnce(publishable: set<Release>)
    ensures DigestsAlwaysAgree(publishable) <==> OneDigestPerFunction(publishable)
  {
    hide Run, Trim, Start, SameFunction, DigestsAgree;
    if OneDigestPerFunction(publishable) {
      forall spec, host, flashed, events | Run(Start(spec, host, flashed), events).published <= publishable
        ensures var s := Run(Start(spec, host, flashed), events); s.noModeLost ==> DigestsAgree(s)
      {
        ConsistentDigestsSuffice(publishable, spec, host, flashed, events);
      }
    } else {
      var r, q :| r in publishable && q in publishable && SameFunction(publishable, r, q) && r.tuple.digest != q.tuple.digest;
      MisreadRun(publishable, r, q, HostTuple("", ""));
    }
  }

  lemma ConsistentDigestsSuffice(publishable: set<Release>, spec: Release, host: Held<HostTuple>, flashed: Option<string>, events: seq<Event>)
    requires OneDigestPerFunction(publishable) && Run(Start(spec, host, flashed), events).published <= publishable
    ensures var s := Run(Start(spec, host, flashed), events); s.noModeLost ==> DigestsAgree(s)
  {
    hide Run, Start;
    FewerReleases(Run(Start(spec, host, flashed), events).published, publishable);
    HostSupportsEdgeDevice(spec, host, flashed, events);
  }

  lemma FewerReleases(published: set<Release>, publishable: set<Release>)
    requires published <= publishable && OneDigestPerFunction(publishable)
    ensures OneDigestPerFunction(published)
  {
    hide Trim, ValidRelease, AcceptableUpload;
    forall r, q | r in published && q in published && SameFunction(published, r, q) ensures r.tuple.digest == q.tuple.digest {
      assert SameFunction(publishable, r, q);
    }
  }

  // ------------------------------------------------- when the host keeps up

  ghost predicate HostKeepsUp(s: Sys) {
    OnEdge(s.device) && s.device.slots.active.generation >= 1 ==> s.host.active.generation >= s.device.slots.active.generation
  }

  /** Even where mode writes can be lost, the host is at least as new as an edge device. */
  ghost predicate HostAlwaysKeepsUp(publishable: set<Release>) {
    forall spec, host, flashed, events ::
      var s := Run(Start(spec, host, flashed), events);
      s.published <= publishable ==> HostKeepsUp(s)
  }

  /** After a roll-out to the edge, a newer release whose local activation loses its mode runs on the edge without the host. */
  lemma LostModeLeavesHostBehind(q: Release, r: Release, host: HostTuple)
    requires AcceptableUpload(q) && ValidRelease(r) && q.generation < r.generation
    ensures exists events :: var s := Run(Start(q, Held(0, host), None), events);
              && s.published == {q, r} && s.allExact && s.device == View(Slots(r, None), Edge, false)
              && s.host == Slots(HostOf(q), None) && !HostKeepsUp(s)
  {
    hide Inv, Run, Trim, Start, RollOut, Reaches, BuiltIn;
    var start := Start(q, Held(0, host), None);
    UploadIsValid(q);
    FirstState(q, Held(0, host), None);
    StartKeepsInv(q, Held(0, host), None);
    RollOutReachesTheEdge(start, q, q);
    var edge := Run(start, RollOut(start, q, q));
    assert Reaches(start, edge) by { RunReaches(start, RollOut(start, q, q)); }
    ReachesKeepsInv(start, edge);
    var after := LocalRollOut(edge, r, true, false);
    ReachesOn(start, edge, after);
    HostGeneration(q);
    assert after.published == {q, r};
    SomeRunReaches(start, after);
    hide HostOf, HostKeepsUp, AcceptableUpload;
  }

  lemma RunReaches(s: Sys, events: seq<Event>)
    ensures Reaches(s, Run(s, events))
  {
  }

  lemma SomeRunReaches(s: Sys, s': Sys)
    requires Reaches(s, s')
    ensures exists events :: Run(s, events) == s'
  {
  }

  lemma HostGeneration(q: Release)
    ensures HostOf(q).generation == q.generation
  {
    hide Trim;
  }

  lemma UploadIsValid(q: Release)
    requires AcceptableUpload(q)
    ensures ValidRelease(q)
  {
  }

  lemma FirstState(spec: Release, host: Held<HostTuple>, flashed: Option<string>)
    ensures var s := Start(spec, host, flashed);
            && s.published == {spec} && s.allExact && s.noModeLost && s.commands == {}
            && Top(s.host) == host.generation && Top(s.device.slots) == 0 && !OnEdge(s.device)
  {
    hide Trim;
  }

  /** The device is on the edge only at a release it was commanded to the edge with. */
  ghost predicate EdgeWasCommanded(s: Sys) {
    OnEdge(s.device) ==> s.device.slots.active.generation >= 1 && SetMode(s.device.slots.active.generation, Edge) in s.commands
  }

  /** Some release is fit for the device and newer than one that the host could take. */
  ghost predicate NewerFollows(published: set<Release>) {
    exists q, r :: q in published && r in published && AcceptableUpload(q) && ValidRelease(r) && q.generation < r.generation
  }

  lemma OthersLeaveTheDevice(s: Sys, e: Event)
    requires Inv(s) && !e.DeviceApply? && !e.DeviceStart?
    ensures Next(s, e).device == s.device && s.commands <= Next(s, e).commands
  {
    if s.session.Some? {
      OperatorTouchesNoComponent(s, e);
    }
    hide Inv, OperatorStep, Observed, AcceptableUpload, HostOf;
  }

  lemma NextKeepsEdgeCommanded(s: Sys, e: Event)
    requires Inv(s) && EdgeWasCommanded(s) && !NewerFollows(s.published)
    ensures EdgeWasCommanded(Next(s, e))
  {
    if e.DeviceApply? {
      if OnEdge(s.device) && s.device.slots.staged.Some? {
        NothingIsStagedOnTheEdge(s);
      }
      assert e.command in s.commands ==> CommandOk(s, e.command);
      hide Inv, NewerFollows, CommandOk, ValidRelease;
      CommandKeepsEdgeCommanded(s, e.command, e.modeWritten, e.commandWritten);
    } else if e.DeviceStart? {
      hide Inv, NewerFollows;
      StartKeepsEdgeCommanded(s, e.powerOn, e.flashed);
    } else {
      OthersLeaveTheDevice(s, e);
      hide Inv, NewerFollows, Next;
    }
  }

  lemma NothingIsStagedOnTheEdge(s: Sys)
    requires Inv(s) && EdgeWasCommanded(s) && OnEdge(s.device) && s.device.slots.staged.Some?
    ensures NewerFollows(s.published)
  {
    var g, r := s.device.slots.active.generation, s.device.slots.staged.value;
    assert CommandOk(s, SetMode(g, Edge));
    var q :| q in s.published && AcceptableUpload(q) && HostOf(q) == Held(g, s.hostBound[g]);
    hide AcceptableUpload, ValidRelease, Exact;
    assert r in s.published && ValidRelease(r) && q.generation < r.generation;
  }

  lemma CommandKeepsEdgeCommanded(s: Sys, c: Command, modeWritten: bool, commandWritten: bool)
    requires EdgeWasCommanded(s) && (OnEdge(s.device) ==> s.device.slots.staged.None?)
    requires c in s.commands ==> CommandOk(s, c)
    ensures EdgeWasCommanded(Next(s, DeviceApply(c, modeWritten, commandWritten)))
  {
    hide ValidRelease, SafeAtEdge;
  }

  lemma StartKeepsEdgeCommanded(s: Sys, powerOn: bool, flashed: Option<string>)
    requires EdgeWasCommanded(s) && Inv(s)
    ensures EdgeWasCommanded(Next(s, DeviceStart(powerOn, flashed)))
  {
    hide HostLedger, CommandOk, VersionOk, ReportOk, SessionOk, AckOk;
  }

  lemma {:induction false} RunKeepsEdgeCommanded(s: Sys, events: seq<Event>)
    requires Inv(s) && EdgeWasCommanded(s) && !NewerFollows(Run(s, events).published)
    ensures EdgeWasCommanded(Run(s, events))
    decreases |events|
  {
    hide Inv, EdgeWasCommanded, Next;
    if events != [] {
      RunKeepsInv(s, events);
      NextKeepsInv(s, events[0]);
      PublishedGrows(s, Run(s, events));
      NextKeepsEdgeCommanded(s, events[0]);
      RunKeepsEdgeCommanded(Next(s, events[0]), events[1..]);
    }
  }

  lemma PublishedGrows(s: Sys, s': Sys)
    requires Grows(s, s')
    ensures s.published <= s'.published
  {
  }

  /**
   Where mode and command writes can be lost, the host keeps up with an edge device in every run exactly when no
   release fit for the device is newer than one that the host could take.
   */
  lemma HostKeepsUpExactlyWhenNothingNewerFollows(publishable: set<Release>)
    ensures HostAlwaysKeepsUp(publishable) <==> !NewerFollows(publishable)
  {
    hide Run, Start, Inv, ValidRelease, AcceptableUpload, HostKeepsUp, HostOf;
    if NewerFollows(publishable) {
      var q, r :| q in publishable && r in publishable && AcceptableUpload(q) && ValidRelease(r) && q.generation < r.generation;
      LostModeLeavesHostBehind(q, r, HostTuple("", ""));
    } else {
      forall spec, host, flashed, events | Run(Start(spec, host, flashed), events).published <= publishable
        ensures HostKeepsUp(Run(Start(spec, host, flashed), events))
      {
        NothingNewerSuffices(publishable, spec, host, flashed, events);
      }
    }
  }

  lemma NothingNewerSuffices(publishable: set<Release>, spec: Release, host: Held<HostTuple>, flashed: Option<string>, events: seq<Event>)
    requires !NewerFollows(publishable) && Run(Start(spec, host, flashed), events).published <= publishable
    ensures HostKeepsUp(Run(Start(spec, host, flashed), events))
  {
    hide Run, Start, Inv, ValidRelease, AcceptableUpload, OnEdge;
    var start := Start(spec, host, flashed);
    FirstState(spec, host, flashed);
    StartKeepsInv(spec, host, flashed);
    RunKeepsInv(start, events);
    RunKeepsEdgeCommanded(start, events);
    var s := Run(start, events);
    if OnEdge(s.device) {
      CommandedWasActive(s, s.device.slots.active.generation);
    }
  }

  // ------------------------------------------------- edge invocations

  /** The device takes a result only from a host that reports the release the device runs. */
  predicate ResponseMatches(active: Release, executed: Held<HostTuple>) {
    && executed.generation == active.generation && executed.tuple.identity == active.tuple.identity
    && SameHex(active.tuple.digest, executed.tuple.digest)
  }

  /** The host would run the device's invocation now, and the device would take its result. */
  predicate InvocationSucceeds(s: Sys) {
    var active := s.device.slots.active;
    var executed := Executed(s.host, active.tuple.identity, active.generation);
    executed.Some? && ResponseMatches(active, executed.value)
  }

  /**
   On the edge, in every fault-free run over consistently published releases, an invocation succeeds
   exactly when the host has not moved on to a newer release and the identity has no blanks around it.
   */
  lemma EdgeInvocationsSucceedExactlyWhen(spec: Release, host: Held<HostTuple>, flashed: Option<string>, events: seq<Event>)
    requires var s := Run(Start(spec, host, flashed), events);
             s.allExact && s.noModeLost && OneIdentityPerBinding(s.published)
    ensures var s := Run(Start(spec, host, flashed), events);
            var active := s.device.slots.active;
            OnEdge(s.device) && active.generation >= 1 ==>
              (InvocationSucceeds(s) <==>
               s.host.active.generation <= active.generation && Trim(active.tuple.identity) == active.tuple.identity)
  {
    hide Run, Start, Inv, Trim, SameHex, OneIdentityPerBinding;
    var s := Run(Start(spec, host, flashed), events);
    StartKeepsInv(spec, host, flashed);
    RunKeepsInv(Start(spec, host, flashed), events);
    PublishedIdentitiesSuffice(s);
    HostSupportsEdgeDevice(spec, host, flashed, events);
    SameHexOfItself(s.host.active.tuple.digest);
  }

  /**
   Whatever the host runs for a device is run under the device's own generation and function; and for a device on
   the edge whose mode was never lost, with its own bytes, if reports were exact or none could mislead.
   */
  lemma HostRunsTheDevicesRelease(spec: Release, host: Held<HostTuple>, flashed: Option<string>, events: seq<Event>)
    ensures var s := Run(Start(spec, host, flashed), events);
            var active := s.device.slots.active;
            var executed := Executed(s.host, active.tuple.identity, active.generation);
            executed.Some? ==>
              && executed.value.generation == active.generation && executed.value.tuple.identity == active.tuple.identity
              && (s.noModeLost && OnEdge(s.device) && active.generation >= 1 && Exact(s) ==> executed.value.tuple.digest == active.tuple.digest)
  {
    hide Run, Start, Exact;
    HostSupportsEdgeDevice(spec, host, flashed, events);
  }

  lemma SameHexOfItself(digest: string)
    ensures SameHex(digest, digest)
  {
  }

  // ------------------------------------------------- releases without their bytes

  /** A device that lost the bytes of its staged release goes on reporting it as staged, and so it goes on looking ready. */
  lemma StrandedReleaseLooksReady(sha256: seq<Byte> -> string, d: Device, h: Release, actions: seq<Action>, st: Status, digest: Option<string>)
    requires Stranded(d, h) && ExactlyOnce(d) && Exec(sha256, d, actions).Some?
    requires forall k :: 0 <= k < |actions| ==> !StagesNewer(actions[k], h)
    ensures var later := Exec(sha256, d, actions).value;
            ArtifactFiles.Staged !in later.files && later.nvs.slots.active == d.nvs.slots.active
            && DeviceReady(Version(h, Observed(st, Report(later.nvs.slots, digest))))
  {
    StrandedUntilNewer(sha256, d, h, actions);
    hide Exec, ExactlyOnce, Trim;
  }
}
