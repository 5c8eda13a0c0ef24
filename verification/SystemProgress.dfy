/**
 Progress of the whole system: from every state of the operator, the host, the channels and the multi-step device
 together, however it came about, some run brings device and host to a newer release, bytes included.
 */
module SystemProgress {
  import opened Common
  import opened ReleaseSlots
  import opened ArtifactFiles
  import opened DeviceRelease
  import opened DeviceInvariants
  import opened DeviceProgress
  import opened EdgeHost
  import opened ReleaseProtocol
  import opened ReleaseAgreement
  import opened ReleaseSystem
  import ContractPolicy

  /** Some run of the whole system leads from one state to the other. */
  ghost predicate WholeReaches(fw: Firmware, w: Whole, w': Whole) {
    exists moves :: Together(fw, w, moves) == Some(w')
  }

  lemma {:induction false} TogetherAppend(fw: Firmware, w: Whole, a: seq<Move>, b: seq<Move>)
    requires Together(fw, w, a).Some?
    ensures Together(fw, w, a + b) == Together(fw, Together(fw, w, a).value, b)
  {
    hide Follow;
    if b == [] {
      assert a + b == a;
    } else {
      assert (a + b)[..|a + b| - 1] == a + b[..|b| - 1];
      TogetherAppend(fw, w, a, b[..|b| - 1]);
    }
  }

  lemma WholeReachesOn(fw: Firmware, w: Whole, w': Whole, w'': Whole)
    requires WholeReaches(fw, w, w') && WholeReaches(fw, w', w'')
    ensures WholeReaches(fw, w, w'')
  {
    hide Together;
    var a :| Together(fw, w, a) == Some(w');
    var b :| Together(fw, w', b) == Some(w'');
    TogetherAppend(fw, w, a, b);
  }

  lemma WholeReachesItself(fw: Firmware, w: Whole)
    ensures WholeReaches(fw, w, w)
  {
    assert Together(fw, w, []) == Some(w);
  }

  lemma WholeReachesBy(fw: Firmware, w: Whole, m: Move)
    requires Follow(fw, w, m).Some?
    ensures WholeReaches(fw, w, Follow(fw, w, m).value)
  {
    hide Follow;
    assert [m][..0] == [];
    assert Together(fw, w, [m]) == Follow(fw, w, m);
  }

  // ------------------------------------------------- around the device

  /** Exactly what can happen around the device: anything but its own steps, and a report carries no digest or that of the file a start would run. */
  lemma AroundExactlyWhen(fw: Firmware, w: Whole, e: Event)
    ensures Follow(fw, w, Around(e)) ==
              if && !e.DeviceApply? && !e.DeviceStart?
                 && (e.ReportState? && e.digest.Some? ==>
                       e.digest.value == if Active in w.d.files && |w.d.files[Active]| > 0 then fw.sha256(w.d.files[Active]) else fw.builtIn)
              then Some(w.(s := Next(w.s, e))) else None
  {
    hide Next;
  }

  /** Steps around the device that every state allows. */
  predicate Free(e: Event) {
    !e.DeviceApply? && !e.DeviceStart? && (e.ReportState? ==> e.digest == None)
  }

  lemma FreeStep(fw: Firmware, w: Whole, e: Event)
    requires Coupled(w) && Free(e)
    ensures var w' := w.(s := Next(w.s, e)); WholeReaches(fw, w, w') && Coupled(w')
  {
    hide Next, Coupled, WholeReaches;
    AroundExactlyWhen(fw, w, e);
    FollowKeepsCoupled(fw, w, Around(e));
    WholeReachesBy(fw, w, Around(e));
  }

  lemma {:induction false} FreeRun(fw: Firmware, w: Whole, events: seq<Event>)
    requires Coupled(w) && forall k :: 0 <= k < |events| ==> Free(events[k])
    ensures var w' := w.(s := Run(w.s, events)); WholeReaches(fw, w, w') && Coupled(w')
    decreases |events|
  {
    hide Next, Coupled, WholeReaches;
    if events == [] {
      WholeReachesItself(fw, w);
    } else {
      var next := w.(s := Next(w.s, events[0]));
      FreeStep(fw, w, events[0]);
      FreeRun(fw, next, events[1..]);
      WholeReachesOn(fw, w, next, next.(s := Run(next.s, events[1..])));
    }
  }

  // ------------------------------------------------- within the device

  /** Nothing but the device and its bookkeeping differs. */
  predicate DeviceOnly(s: Sys, s': Sys) {
    s' == s.(device := s'.device, deviceBound := s'.deviceBound, noModeLost := s'.noModeLost)
  }

  lemma CommandsTouchTheDeviceOnly(s: Sys, c: Command, modeWritten: bool, commandWritten: bool)
    ensures DeviceOnly(s, Next(s, DeviceApply(c, modeWritten, commandWritten)))
  {
    hide Effect, LosesMode, ValidRelease;
  }

  lemma WithinStep(fw: Firmware, w: Whole, a: Action)
    requires Coupled(w) && Do(fw.sha256, w.d, a).Some? && (a.OnCommand? ==> a.command in w.s.commands)
    ensures var w' := Follow(fw, w, Within(a));
            && w'.Some? && w'.value.d == Do(fw.sha256, w.d, a).value && DeviceOnly(w.s, w'.value.s)
            && WholeReaches(fw, w, w'.value) && Coupled(w'.value)
  {
    hide Next, Coupled, WholeReaches, Do, ViewOf;
    FollowKeepsCoupled(fw, w, Within(a));
    WholeReachesBy(fw, w, Within(a));
    if WorkNow(w.d, a) {
      CommandsTouchTheDeviceOnly(w.s, w.d.command.value, a.activation.modeWritten, a.activation.commandWritten);
    }
  }

  /** What the device can do with commands that were sent, it does in the whole system. */
  lemma {:induction false} WithinRun(fw: Firmware, w: Whole, actions: seq<Action>) returns (after: Whole)
    requires Coupled(w) && Exec(fw.sha256, w.d, actions).Some? && Receives(actions, w.s.commands)
    ensures WholeReaches(fw, w, after) && Coupled(after) && after.d == Exec(fw.sha256, w.d, actions).value && DeviceOnly(w.s, after.s)
  {
    hide Follow, Coupled, WholeReaches, Do;
    if actions == [] {
      after := w;
      WholeReachesItself(fw, w);
    } else {
      var init, last := actions[..|actions| - 1], actions[|actions| - 1];
      assert Receives(init, w.s.commands);
      var before := WithinRun(fw, w, init);
      WithinStep(fw, before, last);
      after := Follow(fw, before, Within(last)).value;
      WholeReachesOn(fw, w, before, after);
    }
  }

  lemma WithinLeads(fw: Firmware, w: Whole, d: Device) returns (after: Whole)
    requires Coupled(w) && Leads(fw.sha256, w.s.commands, w.d, d)
    ensures WholeReaches(fw, w, after) && Coupled(after) && after.d == d && DeviceOnly(w.s, after.s) && after.s.device == ViewOf(d)
  {
    hide Inv, WholeReaches, Exec, Receives, ExactlyOnce, SlotsKept;
    var actions :| Exec(fw.sha256, w.d, actions) == Some(d) && Receives(actions, w.s.commands);
    after := WithinRun(fw, w, actions);
  }

  // ------------------------------------------------- the roll-out of a whole system

  /** Device and host run the release, the device as a client of the host, with these bytes. */
  ghost predicate RolledOut(w: Whole, r: Release, bytes: seq<Byte>) {
    && w.d.nvs.slots == Slots(r, None) && w.d.nvs.mode == Edge && !w.d.localRuntime
    && Active in w.d.files && w.d.files[Active] == bytes && w.s.host == Slots(HostOf(r), None)
  }

  /** The operator names the release and sends its stage command. */
  lemma StageIsCommanded(fw: Firmware, w: Whole, r: Release) returns (after: Whole)
    requires Coupled(w) && ValidRelease(r) && r.generation > Top(w.s.device.slots)
    ensures WholeReaches(fw, w, after) && Coupled(after) && after.d == w.d
    ensures after.s.host == w.s.host && after.s.device == w.s.device && StageOf(r) in after.s.commands
    ensures after.s.current == Version(r, w.s.current.status) && WellOrdered(w.s.host) && Fresh(w.s.device.slots, r)
  {
    hide WholeReaches, Next, Run, ValidRelease, DeviceReady, Inv, ExactlyOnce, SlotsKept;
    var v := Version(r, w.s.current.status);
    NewerLooksUnready(w.s, r);
    ReleaseIsNamed(w.s, v);
    var s2 := Next(Next(w.s, Edit(r)), Begin(v));
    StageIsSent(s2, v);
    FreeStep(fw, w, Edit(r));
    var w1 := w.(s := Next(w.s, Edit(r)));
    FreeStep(fw, w1, Begin(v));
    var w2 := w.(s := s2);
    FreeStep(fw, w2, SendStage);
    after := w.(s := Next(s2, SendStage));
    WholeReachesOn(fw, w, w1, w2);
    WholeReachesOn(fw, w, w2, after);
  }

  /** The device downloads the release and reports it, without a digest. */
  lemma StageIsReported(fw: Firmware, w: Whole, r: Release, bytes: seq<Byte>) returns (after: Whole)
    requires Coupled(w) && Idle(w.d) && ValidRelease(r) && Fresh(w.d.nvs.slots, r) && StageOf(r) in w.s.commands
    requires SameHex(fw.sha256(bytes), r.tuple.digest)
    ensures WholeReaches(fw, w, after) && Coupled(after) && Idle(after.d)
    ensures after.d.nvs.slots == Stage(w.d.nvs.slots, r) && Staged in after.d.files && after.d.files[Staged] == bytes
    ensures after.s.host == w.s.host && after.s.current == w.s.current && ReportOf(after.d.nvs.slots, false) in after.s.reports
  {
    hide WholeReaches, ValidRelease, SameHex, Leads, Next, Inv, ExactlyOnce, SlotsKept;
    var staged := StageGoesThrough(fw.sha256, w.s.commands, w.d, "stage", "artifact", r, bytes);
    var w1 := WithinLeads(fw, w, staged);
    ReportIsSent(w1.s, false);
    FreeStep(fw, w1, ReportState(None));
    after := w1.(s := Next(w1.s, ReportState(None)));
    WholeReachesOn(fw, w, w1, after);
  }

  /** The host is brought to the release, and the device is commanded to both modes. */
  lemma HostIsBrought(fw: Firmware, w: Whole, r: Release) returns (after: Whole)
    requires Coupled(w) && AcceptableUpload(r) && r.generation > Top(w.s.host) && WellOrdered(w.s.host)
    requires w.d.nvs.slots.staged == Some(r) && ReportOf(w.d.nvs.slots, false) in w.s.reports
    ensures WholeReaches(fw, w, after) && Coupled(after) && after.d == w.d && after.s.host == Slots(HostOf(r), None)
    ensures SetMode(r.generation, Local) in after.s.commands && SetMode(r.generation, Edge) in after.s.commands
  {
    hide WholeReaches, Coupled, Run, Next, DeviceReady, Observed, HostMatches, AcceptableUpload, Trim;
    var t := ReportOf(w.d.nvs.slots, false);
    var v := Version(r, Observed(w.s.current.status, t));
    StagedLooksReady(w.s.current.status, w.d.nvs.slots, r);
    UploadIsSound(r);
    ProbeLeadsToUpload(w.s, t, r);
    FreeRun(fw, w, HostIsProbed(w.s, t, r));
    var w1 := w.(s := Run(w.s, HostIsProbed(w.s, t, r)));
    UploadLeadsToActivation(w1.s, r, v);
    FreeRun(fw, w1, HostMoves(r));
    var w2 := w1.(s := Run(w1.s, HostMoves(r)));
    WholeReachesOn(fw, w, w1, w2);
    ModeIsSent(w2.s, v, Local);
    FreeStep(fw, w2, SendMode(Local));
    var w3 := w2.(s := Next(w2.s, SendMode(Local)));
    WholeReachesOn(fw, w, w2, w3);
    ModeIsSent(w3.s, v, Edge);
    FreeStep(fw, w3, SendMode(Edge));
    after := w3.(s := Next(w3.s, SendMode(Edge)));
    WholeReachesOn(fw, w, w3, after);
  }

  lemma UploadIsSound(r: Release)
    requires AcceptableUpload(r)
    ensures r.generation > 0 && |r.tuple.digest| == 64
  {
    hide Trim;
  }

  lemma StagedLooksReady(st: Status, slots: Slots<DeviceTuple>, r: Release)
    requires slots.staged == Some(r)
    ensures DeviceReady(Version(r, Observed(st, ReportOf(slots, false))))
  {
    hide Trim;
  }

  lemma ModeIsSent(s: Sys, v: Version, mode: Mode)
    requires s.session.Some? && s.session.value.version == v && DeviceReady(v) && HostMatches(s.session.value.active, v.spec)
    requires v.spec.generation > 0 && |v.spec.tuple.digest| == 64
    ensures Next(s, SendMode(mode)) == s.(commands := s.commands + {SetMode(v.spec.generation, mode)})
  {
    hide DeviceReady, HostMatches;
  }

  /** The device takes over the release; an edge mode that was stored without its restart has to be left first. */
  lemma DeviceTakesOver(fw: Firmware, w: Whole, r: Release, bytes: seq<Byte>) returns (after: Whole)
    requires Coupled(w) && Idle(w.d) && ValidRelease(r) && WellOrdered(w.d.nvs.slots) && w.d.nvs.slots.staged == Some(r)
    requires ContractPolicy.WellFormed(r.tuple.contract) && Staged in w.d.files && w.d.files[Staged] == bytes != []
    requires SetMode(r.generation, Local) in w.s.commands && SetMode(r.generation, Edge) in w.s.commands
    requires w.s.host == Slots(HostOf(r), None)
    ensures WholeReaches(fw, w, after) && RolledOut(after, r, bytes)
  {
    hide WholeReaches, Coupled, Leads, ValidRelease, ContractPolicy.WellFormed, HostOf, ViewOf;
    var sent := w.s.commands;
    if w.d.nvs.mode == Edge && w.d.localRuntime {
      var local := ActivationGoesThrough(fw.sha256, sent, w.d, "activate-local", Local);
      var edge := ModeChangeGoesThrough(fw.sha256, sent, local, "runtime-edge", Edge);
      LeadsOn(fw.sha256, sent, w.d, local, edge);
      after := WithinLeads(fw, w, edge);
    } else {
      var edge := ActivationGoesThrough(fw.sha256, sent, w.d, "runtime-edge", Edge);
      after := WithinLeads(fw, w, edge);
    }
  }

  /**
   From every state that the whole system reaches, with whatever the device is doing, some run brings the device
   to a newer release as a client of the host, and the host to the same release.
   */
  lemma WholeSystemCanAlwaysBeRolledOut(fw: Firmware, w: Whole, r: Release, bytes: seq<Byte>)
    requires Coupled(w) && ValidRelease(r) && AcceptableUpload(r) && ContractPolicy.WellFormed(r.tuple.contract)
    requires r.generation > Top(w.s.host) && r.generation > Top(w.d.nvs.slots)
    requires bytes != [] && SameHex(fw.sha256(bytes), r.tuple.digest)
    ensures exists moves :: Together(fw, w, moves).Some? && RolledOut(Together(fw, w, moves).value, r, bytes)
  {
    hide WholeReaches, Leads, ValidRelease, AcceptableUpload, SameHex, ContractPolicy.WellFormed, RolledOut, Inv, ExactlyOnce, SlotsKept, Idle, Together;
    var rested := CoupledComesToRest(fw, w);
    var w1 := WithinLeads(fw, w, rested);
    var w2 := StageIsCommanded(fw, w1, r);
    var w3 := StageIsReported(fw, w2, r, bytes);
    var w4 := HostIsBrought(fw, w3, r);
    SlotsStayOrdered(w4);
    var w5 := DeviceTakesOver(fw, w4, r, bytes);
    WholeReachesOn(fw, w, w1, w2);
    WholeReachesOn(fw, w, w2, w3);
    WholeReachesOn(fw, w, w3, w4);
    WholeReachesOn(fw, w, w4, w5);
    SomeRunReachesIt(fw, w, w5);
  }

  /** So after any run from the device's first start, whatever failed in it, some continuation rolls a newer release out. */
  lemma AnyRunCanBeContinuedToARollOut(fw: Firmware, w: Whole, spec: Release, host: Held<HostTuple>, flashed: Option<string>,
                                       moves: seq<Move>, r: Release, bytes: seq<Byte>)
    requires Begun(w, spec, host, flashed) && Together(fw, w, moves).Some?
    requires ValidRelease(r) && AcceptableUpload(r) && ContractPolicy.WellFormed(r.tuple.contract)
    requires var now := Together(fw, w, moves).value; r.generation > Top(now.s.host) && r.generation > Top(now.d.nvs.slots)
    requires bytes != [] && SameHex(fw.sha256(bytes), r.tuple.digest)
    ensures exists more :: Together(fw, w, moves + more).Some? && RolledOut(Together(fw, w, moves + more).value, r, bytes)
  {
    hide Together, Begun, ValidRelease, AcceptableUpload, SameHex, ContractPolicy.WellFormed, RolledOut, Inv, ExactlyOnce, SlotsKept, Run;
    BegunIsCoupled(w, spec, host, flashed);
    WholeRunsAreProtocolRuns(fw, w, moves);
    var now := Together(fw, w, moves).value;
    WholeSystemCanAlwaysBeRolledOut(fw, now, r, bytes);
    var more :| Together(fw, now, more).Some? && RolledOut(Together(fw, now, more).value, r, bytes);
    TogetherAppend(fw, w, moves, more);
  }

  lemma CoupledComesToRest(fw: Firmware, w: Whole) returns (rested: Device)
    requires Coupled(w)
    ensures Leads(fw.sha256, w.s.commands, w.d, rested) && Idle(rested) && rested.nvs == w.d.nvs
  {
    rested := CanComeToRest(fw.sha256, w.s.commands, w.d);
    hide Inv, Leads;
  }

  lemma SlotsStayOrdered(w: Whole)
    requires Coupled(w)
    ensures WellOrdered(w.d.nvs.slots)
  {
    hide Inv;
  }

  lemma SomeRunReachesIt(fw: Firmware, w: Whole, w': Whole)
    requires WholeReaches(fw, w, w')
    ensures exists moves :: Together(fw, w, moves) == Some(w')
  {
  }
}
