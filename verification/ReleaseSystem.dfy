/**
 The whole system: the protocol of operator, host and channels with the multi-step device in it. The device
 takes its commands from the protocol's channel, may stop and start between any two actions, and reports the
 digest of the file it would run. Its runs are runs of the protocol, whose theorems therefore hold of it.
 */
module ReleaseSystem {
  import opened Common
  import opened ReleaseSlots
  import opened ArtifactFiles
  import opened DeviceRelease
  import opened DeviceInvariants
  import opened EdgeHost
  import opened ReleaseProtocol
  import opened ReleaseAgreement
  import ContractPolicy
  import ReleaseManager

  /** What is fixed in a firmware: its hash function, and the digest of the module it was built with. */
  datatype Firmware = Firmware(sha256: seq<Byte> -> string, builtIn: string)

  datatype Whole = Whole(s: Sys, d: Device)

  /** A step of operator, host or channels, an action of the device, or a start of its firmware wherever it was. */
  datatype Move = Around(event: Event) | Within(action: Action) | PowerCycle(powerOn: bool, flashed: Option<string>)

  /** The digest of the module a start would run: the active file, or the built-in module when that is missing or empty. */
  function RunnableDigest(fw: Firmware, files: Files): string {
    if Active in files && files[Active] != [] then fw.sha256(files[Active]) else fw.builtIn
  }

  function AfterPowerCycle(d: Device, powerOn: bool, flashed: Option<string>): Device {
    var v := Started(ViewOf(d), powerOn, flashed);
    ReleaseManager.Rebooted(Nvs(v.mode, v.slots, d.nvs.paused), d.files)
  }

  /** What the protocol sees of a device action. */
  function SeenByOthers(w: Whole, a: Action, after: Device): Sys {
    if WorkNow(w.d, a) && ViewOf(after) != ViewOf(w.d)
    then Next(w.s, DeviceApply(w.d.command.value, a.activation.modeWritten, a.activation.commandWritten))
    else w.s
  }

  function Follow(fw: Firmware, w: Whole, m: Move): Option<Whole>
  {
    match m
    case Around(e) =>
      if e.DeviceApply? || e.DeviceStart? then None
      else if e.ReportState? && e.digest.Some? && e.digest.value != RunnableDigest(fw, w.d.files) then None
      else Some(w.(s := Next(w.s, e)))
    case Within(a) =>
      if a.OnCommand? && a.command !in w.s.commands then None
      else (match Do(fw.sha256, w.d, a)
        case None => None
        case Some(after) => Some(Whole(SeenByOthers(w, a, after), after)))
    case PowerCycle(powerOn, flashed) =>
      Some(Whole(Next(w.s, DeviceStart(powerOn, flashed)), AfterPowerCycle(w.d, powerOn, flashed)))
  }

  function Together(fw: Firmware, w: Whole, moves: seq<Move>): Option<Whole>
  {
    if moves == [] then Some(w)
    else match Together(fw, w, moves[..|moves| - 1])
      case None => None
      case Some(before) => Follow(fw, before, moves[|moves| - 1])
  }

  /** The system at the device's first start. */
  ghost predicate Begun(w: Whole, spec: Release, host: Held<HostTuple>, flashed: Option<string>) {
    w.s == Start(spec, host, flashed) && ViewOf(w.d) == w.s.device && Booted(w.d)
  }

  /** The protocol's device is what the multi-step device shows, and that works on nothing but what was sent. */
  ghost predicate Coupled(w: Whole) {
    && Inv(w.s) && w.s.device == ViewOf(w.d) && ExactlyOnce(w.d) && SlotsKept(w.d)
    && forall c :: c in w.d.accepted ==> c in w.s.commands
  }

  // ------------------------------------------------- its runs are runs of the protocol

  lemma AcceptedIsOldOrArrives(sha256: seq<Byte> -> string, d: Device, a: Action)
    requires Do(sha256, d, a).Some?
    ensures forall c :: c in Do(sha256, d, a).value.accepted ==> c in d.accepted || (a.OnCommand? && c == a.command)
  {
    hide StageReply, ActivateReply, StageWork, ActivateWork, ContractPolicy.Compile;
  }

  /** The worker's effect is that of one protocol event. */
  lemma EffectIsAnEvent(s: Sys, c: Command, modeWritten: bool, commandWritten: bool)
    requires c in s.commands && (c.StageRelease? ==> ValidRelease(c.release) && Fresh(s.device.slots, c.release))
    ensures var after := Next(s, DeviceApply(c, modeWritten, commandWritten));
            after.device == Effect(s.device, c, modeWritten, commandWritten) && after.commands == s.commands
  {
    hide ValidRelease, Effect, LosesMode;
  }

  lemma WithinKeepsCoupled(fw: Firmware, w: Whole, a: Action)
    requires Coupled(w) && Follow(fw, w, Within(a)).Some?
    ensures Coupled(Follow(fw, w, Within(a)).value) && Reaches(w.s, Follow(fw, w, Within(a)).value.s)
  {
    hide Do, Next, Inv, Effect, ExactlyOnce, SlotsKept, Reaches;
    var after := Follow(fw, w, Within(a)).value;
    DoRefinesCommandEffect(fw.sha256, w.d, a);
    DoKeepsExactlyOnce(fw.sha256, w.d, a);
    DoIsASlotStep(fw.sha256, w.d, a);
    AcceptedIsOldOrArrives(fw.sha256, w.d, a);
    if !WorkNow(w.d, a) || ViewOf(after.d) == ViewOf(w.d) {
      ReachesItself(w.s);
    } else {
      var c := w.d.command.value;
      var e := DeviceApply(c, a.activation.modeWritten, a.activation.commandWritten);
      EffectIsAnEvent(w.s, c, a.activation.modeWritten, a.activation.commandWritten);
      NextKeepsInv(w.s, e);
      ReachesNext(w.s, e);
    }
  }

  lemma ReachesItself(s: Sys)
    ensures Reaches(s, s)
  {
    assert Run(s, []) == s;
  }

  lemma ReachesNext(s: Sys, e: Event)
    ensures Reaches(s, Next(s, e))
  {
    hide Next;
    assert [e][1..] == [];
    assert Run(s, [e]) == Next(s, e);
  }

  lemma AroundKeepsCoupled(fw: Firmware, w: Whole, e: Event)
    requires Coupled(w) && Follow(fw, w, Around(e)).Some?
    ensures Coupled(Follow(fw, w, Around(e)).value) && Reaches(w.s, Follow(fw, w, Around(e)).value.s)
  {
    hide Next, Inv, ExactlyOnce, SlotsKept, Reaches;
    OthersLeaveTheDevice(w.s, e);
    NextKeepsInv(w.s, e);
    ReachesNext(w.s, e);
  }

  lemma PowerCycleKeepsCoupled(fw: Firmware, w: Whole, powerOn: bool, flashed: Option<string>)
    requires Coupled(w)
    ensures var after := Follow(fw, w, PowerCycle(powerOn, flashed)).value;
            Coupled(after) && Reaches(w.s, after.s)
  {
    hide Inv, Reaches;
    var e := DeviceStart(powerOn, flashed);
    NextKeepsInv(w.s, e);
    ReachesNext(w.s, e);
    assert WellOrdered(Next(w.s, e).device.slots) by { SlotsAreOrdered(Next(w.s, e)); }
    hide ContractPolicy.Compile;
  }

  lemma SlotsAreOrdered(s: Sys)
    requires Inv(s)
    ensures WellOrdered(s.device.slots)
  {
    hide HostLedger, CommandOk, VersionOk, ReportOk, SessionOk, AckOk;
  }

  lemma FollowKeepsCoupled(fw: Firmware, w: Whole, m: Move)
    requires Coupled(w) && Follow(fw, w, m).Some?
    ensures Coupled(Follow(fw, w, m).value) && Reaches(w.s, Follow(fw, w, m).value.s)
  {
    match m {
      case Around(e) => AroundKeepsCoupled(fw, w, e);
      case Within(a) => WithinKeepsCoupled(fw, w, a);
      case PowerCycle(powerOn, flashed) => PowerCycleKeepsCoupled(fw, w, powerOn, flashed);
    }
    hide Follow, Coupled;
  }

  /**
   Every run of the whole system is a run of the protocol, in which each command of the device takes effect at
   once or short of what its store failed to take; and the protocol sees the device as it is.
   */
  lemma {:induction false} WholeRunsAreProtocolRuns(fw: Firmware, w: Whole, moves: seq<Move>)
    requires Coupled(w) && Together(fw, w, moves).Some?
    ensures var now := Together(fw, w, moves).value;
            Coupled(now) && now.s.device == ViewOf(now.d) && exists events :: Run(w.s, events) == now.s
  {
    hide Follow, Inv, ExactlyOnce, SlotsKept, Run, ViewOf;
    if moves == [] {
      ReachesItself(w.s);
    } else {
      var init := moves[..|moves| - 1];
      WholeRunsAreProtocolRuns(fw, w, init);
      var before := Together(fw, w, init).value;
      FollowKeepsCoupled(fw, before, moves[|moves| - 1]);
      ReachesOn(w.s, before.s, Follow(fw, before, moves[|moves| - 1]).value.s);
    }
  }

  lemma BegunIsCoupled(w: Whole, spec: Release, host: Held<HostTuple>, flashed: Option<string>)
    requires Begun(w, spec, host, flashed)
    ensures Coupled(w)
  {
    StartKeepsInv(spec, host, flashed);
    hide Inv, Start, ContractPolicy.Compile;
  }

  /** So the host supports the multi-step device too, whatever fails in it and whenever it is restarted. */
  lemma HostSupportsTheWholeDevice(fw: Firmware, w: Whole, spec: Release, host: Held<HostTuple>, flashed: Option<string>, moves: seq<Move>)
    requires Begun(w, spec, host, flashed) && Together(fw, w, moves).Some?
    ensures var now := Together(fw, w, moves).value; var active := now.d.nvs.slots.active;
            now.s.noModeLost && (now.d.nvs.mode == Edge || !now.d.localRuntime) && active.generation >= 1 ==>
              && now.s.host.active.generation >= active.generation
              && (now.s.host.active.generation == active.generation && Exact(now.s) ==> now.s.host.active.tuple.digest == active.tuple.digest)
  {
    hide Together, Inv, Run, Start, Exact, ExactlyOnce, SlotsKept, Booted;
    BegunIsCoupled(w, spec, host, flashed);
    WholeRunsAreProtocolRuns(fw, w, moves);
    var events :| Run(w.s, events) == Together(fw, w, moves).value.s;
    HostSupportsEdgeDevice(spec, host, flashed, events);
  }

  // ------------------------------------------------- down to the bytes

  /** The move splits no update, and what is reported or made of an unwritten store comes from the file the metadata describes. */
  ghost predicate Faithful(fw: Firmware, w: Whole, m: Move) {
    match m
    case Around(e) => e.ReportState? && w.d.nvs.slots.active.generation >= 1 ==>
                        e.digest.Some? && Active in w.d.files && w.d.files[Active] != []
    case Within(a) => !Splits(fw.sha256, w.d, a)
    case PowerCycle(powerOn, flashed) => FilesAgree(fw.sha256, Started(ViewOf(w.d), powerOn, flashed).slots, w.d.files)
  }

  ghost predicate AllFaithful(fw: Firmware, w: Whole, moves: seq<Move>)
  {
    moves == [] ||
    var init := moves[..|moves| - 1];
    && AllFaithful(fw, w, init)
    && (Together(fw, w, init).Some? ==> Faithful(fw, Together(fw, w, init).value, moves[|moves| - 1]))
  }

  predicate LowerCase(digest: string) {
    Lower(digest) == digest
  }

  /** Digests are written in lower case, by the hash function and in every published release. */
  ghost predicate AllLowerCase(fw: Firmware, published: set<Release>) {
    && (forall bytes :: LowerCase(fw.sha256(bytes)))
    && (forall r :: r in published ==> LowerCase(r.tuple.digest))
  }

  /** The active file is the one its release describes. */
  lemma ActiveFileHasItsDigest(fw: Firmware, w: Whole)
    requires Coupled(w) && BytesAgree(fw.sha256, w.d) && AllLowerCase(fw, w.s.published)
    requires w.d.nvs.slots.active.generation >= 1 && Active in w.d.files
    ensures fw.sha256(w.d.files[Active]) == w.d.nvs.slots.active.tuple.digest
  {
    ActiveWasPublished(w.s);
    hide Inv, ExactlyOnce, SlotsKept, ValidRelease, Lower, LoadedAgrees;
    assert LowerCase(fw.sha256(w.d.files[Active]));
  }

  lemma PowerCycleKeepsBytes(sha256: seq<Byte> -> string, d: Device, powerOn: bool, flashed: Option<string>)
    requires FilesAgree(sha256, Started(ViewOf(d), powerOn, flashed).slots, d.files)
    ensures BytesAgree(sha256, AfterPowerCycle(d, powerOn, flashed))
  {
    hide ContractPolicy.Compile, SameHex;
  }

  /** Only a report touches the trust in reports. */
  lemma OthersKeepExactness(s: Sys, e: Event)
    requires !e.ReportState?
    ensures Next(s, e).allExact == s.allExact
  {
    hide HostMatches, DeviceReady, Observed, AcceptableUpload, HostOf, Effect, Started, LosesMode;
  }

  lemma FaithfulMoveKeepsBytes(fw: Firmware, w: Whole, m: Move)
    requires Coupled(w) && Follow(fw, w, m).Some? && Faithful(fw, w, m)
    requires BytesAgree(fw.sha256, w.d) && AllLowerCase(fw, w.s.published)
    ensures var after := Follow(fw, w, m).value; BytesAgree(fw.sha256, after.d) && after.s.allExact == w.s.allExact
  {
    hide Coupled, BytesAgree, AllLowerCase, Do, Next, Splits, AfterPowerCycle, FilesAgree;
    match m {
      case Around(e) =>
        if e.ReportState? {
          ReportKeepsExactness(fw, w, e.digest);
        } else {
          OthersKeepExactness(w.s, e);
        }
      case Within(a) =>
        DoKeepsBytesExactlyWhenUndivided(fw.sha256, w.d, a);
        if WorkNow(w.d, a) {
          OthersKeepExactness(w.s, DeviceApply(w.d.command.value, a.activation.modeWritten, a.activation.commandWritten));
        }
      case PowerCycle(powerOn, flashed) =>
        PowerCycleKeepsBytes(fw.sha256, w.d, powerOn, flashed);
        OthersKeepExactness(w.s, DeviceStart(powerOn, flashed));
    }
  }

  lemma ReportKeepsExactness(fw: Firmware, w: Whole, digest: Option<string>)
    requires Coupled(w) && Follow(fw, w, Around(ReportState(digest))).Some? && Faithful(fw, w, Around(ReportState(digest)))
    requires BytesAgree(fw.sha256, w.d) && AllLowerCase(fw, w.s.published)
    ensures Next(w.s, ReportState(digest)).allExact == w.s.allExact
  {
    if w.d.nvs.slots.active.generation >= 1 {
      ActiveFileHasItsDigest(fw, w);
    }
    hide Inv, ExactlyOnce, SlotsKept, BytesAgree, AllLowerCase;
  }

  lemma {:induction false} FaithfulRunsKeepBytes(fw: Firmware, w: Whole, moves: seq<Move>)
    requires Coupled(w) && BytesAgree(fw.sha256, w.d) && AllFaithful(fw, w, moves) && Together(fw, w, moves).Some?
    requires AllLowerCase(fw, Together(fw, w, moves).value.s.published)
    ensures var now := Together(fw, w, moves).value;
            Coupled(now) && BytesAgree(fw.sha256, now.d) && now.s.allExact == w.s.allExact
  {
    hide Follow, Coupled, BytesAgree, AllLowerCase, Faithful;
    if moves != [] {
      var init, m := moves[..|moves| - 1], moves[|moves| - 1];
      var before := Together(fw, w, init).value;
      WholeRunsAreProtocolRuns(fw, w, init);
      MovePublishes(fw, before, m);
      StillLowerCase(fw, before.s.published, Together(fw, w, moves).value.s.published);
      FaithfulRunsKeepBytes(fw, w, init);
      FaithfulMoveKeepsBytes(fw, before, m);
      FollowKeepsCoupled(fw, before, m);
    }
  }

  lemma MovePublishes(fw: Firmware, w: Whole, m: Move)
    requires Coupled(w) && Follow(fw, w, m).Some?
    ensures w.s.published <= Follow(fw, w, m).value.s.published
  {
    FollowKeepsCoupled(fw, w, m);
    hide Follow, Inv, ExactlyOnce, SlotsKept, ViewOf, Run;
    var after := Follow(fw, w, m).value.s;
    var events :| Run(w.s, events) == after;
    RunKeepsInv(w.s, events);
  }

  lemma StillLowerCase(fw: Firmware, published: set<Release>, more: set<Release>)
    requires AllLowerCase(fw, more) && published <= more
    ensures AllLowerCase(fw, published)
  {
    hide LowerCase;
  }

  /**
   End to end: in a faithful run of the whole system, when a device on the edge and the host are at one
   generation, the bytes in the device's active file hash to the digest of what the host runs.
   */
  lemma EdgeFileHashesToTheHostsDigest(fw: Firmware, w: Whole, spec: Release, host: Held<HostTuple>, flashed: Option<string>, moves: seq<Move>)
    requires Begun(w, spec, host, flashed) && BytesAgree(fw.sha256, w.d)
    requires AllFaithful(fw, w, moves) && Together(fw, w, moves).Some?
    requires AllLowerCase(fw, Together(fw, w, moves).value.s.published)
    ensures var now := Together(fw, w, moves).value; var g := now.d.nvs.slots.active.generation;
            now.s.noModeLost && (now.d.nvs.mode == Edge || !now.d.localRuntime) && g >= 1 ==>
              && now.s.host.active.generation >= g
              && (now.s.host.active.generation == g && Active in now.d.files ==>
                    fw.sha256(now.d.files[Active]) == now.s.host.active.tuple.digest)
  {
    hide Together, AllFaithful, Coupled, BytesAgree, AllLowerCase, Booted, OneDigestPerFunction, BuiltIn, Started;
    BegunIsCoupled(w, spec, host, flashed);
    FaithfulRunsKeepBytes(fw, w, moves);
    HostSupportsTheWholeDevice(fw, w, spec, host, flashed, moves);
    var now := Together(fw, w, moves).value;
    if now.d.nvs.slots.active.generation >= 1 && Active in now.d.files {
      ActiveFileHasItsDigest(fw, now);
    }
  }
}
