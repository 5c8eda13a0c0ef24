/**
 What the device's release machinery keeps across its components: the slot discipline, the
 compiled policy, and the agreement between release metadata, files and the loaded module.
 */
module DeviceInvariants {
  import opened Common
  import opened ReleaseSlots
  import opened ArtifactFiles
  import opened DeviceRelease
  import ContractPolicy

  // ------------------------------------------------- slots over whole runs

  /** The slots are ordered, and a pending stage command is valid and still as fresh as when it was accepted. */
  ghost predicate SlotsKept(d: Device) {
    && WellOrdered(d.nvs.slots)
    && (Pending(d).Some? && Pending(d).value.StageRelease? ==>
          ValidRelease(Pending(d).value.release) && Fresh(d.nvs.slots, Pending(d).value.release))
  }

  lemma WorkIsASlotStep(sha256: seq<Byte> -> string, d: Device, stage: StageFaults, activation: ActivationFaults)
    requires SlotsKept(d) && d.phase.Working? && d.command.Some?
    ensures var c := d.command.value;
            var after := if c.StageRelease? then AfterStage(sha256, d, c, d.phase.drained, stage)
                         else AfterActivation(d, c, d.phase.drained, activation);
            Step(d.nvs.slots, after.nvs.slots) && WellOrdered(after.nvs.slots) && !Pending(after).Some?
  {
    hide StageAccepted, Promoted, Pulled, ContractPolicy.Compile, ValidRelease;
  }

  lemma IdleActionKeepsSlots(sha256: seq<Byte> -> string, d: Device, a: Action)
    requires ExactlyOnce(d) && SlotsKept(d) && Do(sha256, d, a).Some? && !WorkNow(d, a)
    ensures var after := Do(sha256, d, a).value; SlotsKept(after) && after.nvs.slots == d.nvs.slots
  {
    if a.OnCommand? {
      if a.command.StageRelease? {
        StageAcceptedExactlyWhenFresh(d, a.command.id, a.command.url, a.command.release, a.access);
      } else {
        ActivationAcceptedOnlyWhenIdle(d, a.command.id, a.command.generation, a.command.mode, a.access);
      }
    }
    hide StageReply, ActivateReply, AfterStage, AfterActivation, ValidRelease;
  }

  /** Every action leaves the slots alone or takes one step of the slot discipline. */
  lemma DoIsASlotStep(sha256: seq<Byte> -> string, d: Device, a: Action)
    requires ExactlyOnce(d) && SlotsKept(d) && Do(sha256, d, a).Some?
    ensures var after := Do(sha256, d, a).value; SlotsKept(after) && Step(d.nvs.slots, after.nvs.slots)
  {
    hide Do;
    if WorkNow(d, a) {
      hide AfterStage, AfterActivation;
      OnlyWorkTouchesReleases(sha256, d, a);
      WorkIsASlotStep(sha256, d, a.stage, a.activation);
    } else {
      IdleActionKeepsSlots(sha256, d, a);
    }
  }

  /** The slots after each prefix of a run. */
  function SlotsAlong(sha256: seq<Byte> -> string, d: Device, actions: seq<Action>): (run: seq<Slots<DeviceTuple>>)
    requires Exec(sha256, d, actions).Some?
    ensures |run| == |actions| + 1 && run[|actions|] == Exec(sha256, d, actions).value.nvs.slots
  {
    if actions == [] then [d.nvs.slots]
    else SlotsAlong(sha256, d, actions[..|actions| - 1]) + [Exec(sha256, d, actions).value.nvs.slots]
  }

  /** Every run of the device is a run of the slot discipline, so all its run-wide laws hold on the device. */
  lemma {:induction false} DeviceRunsAreSlotRuns(sha256: seq<Byte> -> string, boot: Device, actions: seq<Action>)
    requires Booted(boot) && Exec(sha256, boot, actions).Some?
    ensures IsRun(SlotsAlong(sha256, boot, actions)) && SlotsKept(Exec(sha256, boot, actions).value)
  {
    if actions != [] {
      var init, run := actions[..|actions| - 1], SlotsAlong(sha256, boot, actions);
      DeviceRunsAreSlotRuns(sha256, boot, init);
      ExecKeepsExactlyOnce(sha256, boot, init);
      DoIsASlotStep(sha256, Exec(sha256, boot, init).value, actions[|actions| - 1]);
      var before := SlotsAlong(sha256, boot, init);
      hide Exec;
      forall i | 0 <= i < |run| - 1 ensures Step(run[i], run[i + 1]) {
        if i < |before| - 1 {
          assert Step(before[i], before[i + 1]);
        }
      }
    }
  }

  /** On the device a generation is never bound to two different tuples, over any run. */
  lemma DeviceGenerationIsAKey(sha256: seq<Byte> -> string, boot: Device, actions: seq<Action>,
                               i: nat, j: nat, h: Release, k: Release)
    requires Booted(boot) && Exec(sha256, boot, actions).Some? && i <= j <= |actions|
    requires var run := SlotsAlong(sha256, boot, actions);
             Holds(run[i], h) && Holds(run[j], k) && h.generation == k.generation
    ensures h == k
  {
    DeviceRunsAreSlotRuns(sha256, boot, actions);
    GenerationIsAKey(SlotsAlong(sha256, boot, actions), i, j, h, k);
  }

  predicate WorkNow(d: Device, a: Action) {
    a.Work? && d.phase.Working? && d.command.Some?
  }

  /** Only the worker's work touches releases, files, the loaded module and the compiled policy. */
  lemma OnlyWorkTouchesReleases(sha256: seq<Byte> -> string, d: Device, a: Action)
    requires Do(sha256, d, a).Some?
    ensures !WorkNow(d, a) ==>
              var after := Do(sha256, d, a).value;
              && after.nvs.slots == d.nvs.slots && after.files == d.files && after.loaded == d.loaded
              && after.policy == d.policy && after.localRuntime == d.localRuntime && after.nvs.mode == d.nvs.mode
    ensures WorkNow(d, a) && d.command.value.StageRelease? ==>
              Do(sha256, d, a).value == AfterStage(sha256, d, d.command.value, d.phase.drained, a.stage)
    ensures WorkNow(d, a) && d.command.value.Activate? ==>
              Do(sha256, d, a).value == AfterActivation(d, d.command.value, d.phase.drained, a.activation)
  {
    if WorkNow(d, a) {
      WorkIsTheWorkers(sha256, d, a.stage, a.activation);
      hide Do;
    } else {
      hide StageReply, ActivateReply, AfterStage, AfterActivation;
    }
  }

  lemma WorkIsTheWorkers(sha256: seq<Byte> -> string, d: Device, stage: StageFaults, activation: ActivationFaults)
    requires d.phase.Working? && d.command.Some?
    ensures var c := d.command.value;
            Do(sha256, d, Work(stage, activation)) ==
              if c.StageRelease? then Some(AfterStage(sha256, d, c, d.phase.drained, stage))
              else Some(AfterActivation(d, c, d.phase.drained, activation))
  {
    hide AfterStage, AfterActivation;
  }

  // ------------------------------------------------- the policy is the active contract's

  ghost predicate PolicyOfActive(d: Device) {
    d.policy == ContractPolicy.Compile(d.nvs.slots.active.tuple.contract)
  }

  lemma DoKeepsPolicy(sha256: seq<Byte> -> string, d: Device, a: Action)
    requires PolicyOfActive(d) && Do(sha256, d, a).Some?
    ensures PolicyOfActive(Do(sha256, d, a).value)
  {
    OnlyWorkTouchesReleases(sha256, d, a);
    hide Do, ContractPolicy.Compile;
    if WorkNow(d, a) {
      if d.command.value.StageRelease? {
        hide StageAccepted, Pulled;
      } else {
        hide ActivateWork;
        ActivationPolicy(d, d.command.value.generation, d.command.value.mode, a.activation);
      }
    }
  }

  lemma ActivationPolicy(d: Device, g: int, mode: Mode, f: ActivationFaults)
    requires PolicyOfActive(d)
    ensures var o := ActivateWork(d, g, mode, f); o.policy == ContractPolicy.Compile(o.nvs.slots.active.tuple.contract)
  {
    hide Promoted, ContractPolicy.Compile;
  }

  lemma {:induction false} ExecKeepsPolicy(sha256: seq<Byte> -> string, boot: Device, actions: seq<Action>)
    requires PolicyOfActive(boot) && Exec(sha256, boot, actions).Some?
    ensures PolicyOfActive(Exec(sha256, boot, actions).value)
  {
    if actions != [] {
      ExecKeepsPolicy(sha256, boot, actions[..|actions| - 1]);
      DoKeepsPolicy(sha256, Exec(sha256, boot, actions[..|actions| - 1]).value, actions[|actions| - 1]);
    }
  }

  /** At every moment of every run, a host call is allowed exactly for a supported capability of the active release's contract. */
  lemma HostCallsFollowTheActiveContract(sha256: seq<Byte> -> string, boot: Device, actions: seq<Action>,
                                         resource: string, name: string, kind: string)
    requires Booted(boot) && Exec(sha256, boot, actions).Some?
    ensures var d := Exec(sha256, boot, actions).value;
            var contract := d.nvs.slots.active.tuple.contract;
            && (ContractPolicy.InputDeclared(d.policy, resource, name, kind) <==>
                ContractPolicy.InputBit(resource, name, kind) != 0
                && ContractPolicy.DeclaresInput(contract, resource, name, kind))
            && (ContractPolicy.OutputDeclared(d.policy, name, kind) <==>
                ContractPolicy.OutputBit(name, kind) != 0 && ContractPolicy.DeclaresOutput(contract, name, kind))
  {
    ExecKeepsPolicy(sha256, boot, actions);
    var contract := Exec(sha256, boot, actions).value.nvs.slots.active.tuple.contract;
    ContractPolicy.InputQueryRefinesContract(contract, resource, name, kind);
    ContractPolicy.OutputQueryRefinesContract(contract, name, kind);
    hide ContractPolicy.InputBit, ContractPolicy.OutputBit, ContractPolicy.Compile, Exec;
  }

  // ------------------------------------------------- bytes and metadata

  predicate Hashes(sha256: seq<Byte> -> string, files: Files, p: Path, digest: string) {
    p in files ==> SameHex(sha256(files[p]), digest)
  }

  /** Every release file that exists hashes to the digest of its slot, the kept previous file standing in for a missing active one. */
  ghost predicate FilesAgree(sha256: seq<Byte> -> string, slots: Slots<DeviceTuple>, files: Files) {
    && Hashes(sha256, files, Active, slots.active.tuple.digest)
    && (Active !in files ==> Hashes(sha256, files, Previous, slots.active.tuple.digest))
    && (slots.staged.Some? ==> Hashes(sha256, files, Staged, slots.staged.value.tuple.digest))
  }

  ghost predicate LoadedAgrees(sha256: seq<Byte> -> string, slots: Slots<DeviceTuple>, loaded: Option<seq<Byte>>) {
    loaded.Some? ==> SameHex(sha256(loaded.value), slots.active.tuple.digest)
  }

  /** A rejected download whose removal failed, left beneath the metadata of an older staged release. */
  ghost predicate StrayDownload(sha256: seq<Byte> -> string, d: Device, r: Release, drained: bool, f: StageFaults) {
    && drained && Pulled(d.files, f.pull, f.replace, f.temporaryRemoved).1
    && !StageAccepted(sha256, d.files, r, drained, f) && !f.stagedRemoved
    && d.nvs.slots.staged.Some? && !SameHex(sha256(f.pull.bytes), d.nvs.slots.staged.value.tuple.digest)
  }

  /**
   Staging keeps files and metadata in agreement through every combination of drain, download,
   digest and write failures, except exactly when a rejected download could not be removed.
   */
  lemma StagingKeepsAgreement(sha256: seq<Byte> -> string, d: Device, r: Release, drained: bool, f: StageFaults)
    requires FilesAgree(sha256, d.nvs.slots, d.files)
    ensures var (nvs, files) := StageWork(sha256, d.nvs, d.files, r, drained, f);
            FilesAgree(sha256, nvs.slots, files) <==> !StrayDownload(sha256, d, r, drained, f)
    ensures StageWork(sha256, d.nvs, d.files, r, drained, f).0.slots != d.nvs.slots && d.nvs.slots.staged != Some(r) ==>
              var (nvs, files) := StageWork(sha256, d.nvs, d.files, r, drained, f);
              Staged in files && SameHex(sha256(files[Staged]), r.tuple.digest)
  {
    PullIsAllOrNothing(d.files, f.pull, f.replace, f.temporaryRemoved);
    hide Pulled, SameHex;
  }

  /** The staged file was promoted but the store did not record the promotion. */
  ghost predicate UnrecordedPromotion(sha256: seq<Byte> -> string, d: Device, g: int, mode: Mode, f: ActivationFaults) {
    && Promotes(d, g, mode, f) && !f.committed
    && !SameHex(sha256(d.files[Staged]), d.nvs.slots.active.tuple.digest)
  }

  /** The runtime loaded the staged bytes but their release did not become active. */
  ghost predicate PrematureReload(sha256: seq<Byte> -> string, d: Device, g: int, mode: Mode, f: ActivationFaults) {
    && Reloads(d, g, mode, f) && !Commits(d, g, mode, f)
    && !SameHex(sha256(d.files[Staged]), d.nvs.slots.active.tuple.digest)
  }

  /** What a promotion attempt leaves in the previous place while the active place is empty. */
  lemma PromotionPrevious(files: Files, f: PromoteFaults)
    ensures var (after, ok) := Promoted(files, f);
            Active !in after && Previous in after ==>
              if Active in files then after[Previous] == files[Active]
              else Previous in files && after[Previous] == files[Previous]
  {
  }

  /** The release changed under a local runtime that was told to leave local mode but did not restart. */
  ghost predicate StaleModule(sha256: seq<Byte> -> string, d: Device, g: int, mode: Mode, f: ActivationFaults) {
    && Commits(d, g, mode, f) && mode == Edge && d.loaded.Some?
    && !(ActivateWork(d, g, mode, f).ok && d.nvs.mode != mode)
    && !SameHex(sha256(d.loaded.value), d.nvs.slots.staged.value.tuple.digest)
  }

  /** Metadata, files and the module of a local runtime agree. */
  ghost predicate BytesAgree(sha256: seq<Byte> -> string, d: Device) {
    && FilesAgree(sha256, d.nvs.slots, d.files)
    && LoadedAgrees(sha256, d.nvs.slots, d.loaded)
    && (d.loaded.Some? ==> d.localRuntime)
  }

  /** The files follow the metadata unless a promotion goes unrecorded. */
  lemma ActivationFiles(sha256: seq<Byte> -> string, d: Device, g: int, mode: Mode, f: ActivationFaults)
    requires FilesAgree(sha256, d.nvs.slots, d.files)
    ensures var o := ActivateWork(d, g, mode, f);
            FilesAgree(sha256, o.nvs.slots, o.files) <==> !UnrecordedPromotion(sha256, d, g, mode, f)
  {
    PromotionIsAllOrNothing(d.files, f.promote);
    PromotionPrevious(d.files, f.promote);
    hide Promoted, SameHex, ContractPolicy.Compile, ValidRelease;
  }

  /** The module follows the release unless it was loaded too early or kept too long. */
  lemma ActivationModule(sha256: seq<Byte> -> string, d: Device, c: Command, f: ActivationFaults)
    requires BytesAgree(sha256, d) && c.Activate?
    ensures var after := AfterActivation(d, c, true, f);
            FilesAgree(sha256, after.nvs.slots, after.files) ==>
              (LoadedAgrees(sha256, after.nvs.slots, after.loaded) && (after.loaded.Some? ==> after.localRuntime) <==>
               !PrematureReload(sha256, d, c.generation, c.mode, f) && !StaleModule(sha256, d, c.generation, c.mode, f))
  {
    hide Promoted, SameHex, ContractPolicy.Compile, ValidRelease;
  }

  /**
   Through every combination of failures, an activation keeps release metadata, files and the loaded
   module in agreement, except exactly when a promotion goes unrecorded, a reload runs ahead of its
   release, or a local runtime survives the change of its release.
   */
  lemma ActivationKeepsAgreement(sha256: seq<Byte> -> string, d: Device, c: Command, f: ActivationFaults)
    requires BytesAgree(sha256, d) && c.Activate?
    ensures BytesAgree(sha256, AfterActivation(d, c, true, f)) <==>
            && !UnrecordedPromotion(sha256, d, c.generation, c.mode, f)
            && !PrematureReload(sha256, d, c.generation, c.mode, f)
            && !StaleModule(sha256, d, c.generation, c.mode, f)
  {
    ActivationFiles(sha256, d, c.generation, c.mode, f);
    ActivationModule(sha256, d, c, f);
    hide FilesAgree, LoadedAgrees, UnrecordedPromotion, PrematureReload, StaleModule, ActivateWork, ContractPolicy.Compile;
  }

  /** The failures that split release, files and module; each leaves one side of an update undone. */
  ghost predicate Splits(sha256: seq<Byte> -> string, d: Device, a: Action) {
    WorkNow(d, a) &&
    match d.command.value
    case StageRelease(_, _, r) => StrayDownload(sha256, d, r, d.phase.drained, a.stage)
    case Activate(_, g, mode) =>
      d.phase.drained
      && (UnrecordedPromotion(sha256, d, g, mode, a.activation)
          || PrematureReload(sha256, d, g, mode, a.activation)
          || StaleModule(sha256, d, g, mode, a.activation))
  }

  /** One action keeps the agreement exactly when it does not split an update. */
  lemma DoKeepsBytesExactlyWhenUndivided(sha256: seq<Byte> -> string, d: Device, a: Action)
    requires BytesAgree(sha256, d) && Do(sha256, d, a).Some?
    ensures BytesAgree(sha256, Do(sha256, d, a).value) <==> !Splits(sha256, d, a)
  {
    OnlyWorkTouchesReleases(sha256, d, a);
    hide Do, FilesAgree, SameHex, ContractPolicy.Compile;
    if WorkNow(d, a) {
      var c := d.command.value;
      if c.StageRelease? {
        StagingKeepsAgreement(sha256, d, c.release, d.phase.drained, a.stage);
        StagingKeepsActive(sha256, d, c, d.phase.drained, a.stage);
        hide StageWork, StrayDownload;
      } else if d.phase.drained {
        ActivationKeepsAgreement(sha256, d, c, a.activation);
        hide AfterActivation, BytesAgree, UnrecordedPromotion, PrematureReload, StaleModule;
      }
    }
  }

  ghost predicate AllUndivided(sha256: seq<Byte> -> string, d: Device, actions: seq<Action>)
  {
    actions == [] ||
    var init := actions[..|actions| - 1];
    && AllUndivided(sha256, d, init)
    && (Exec(sha256, d, init).Some? ==> !Splits(sha256, Exec(sha256, d, init).value, actions[|actions| - 1]))
  }

  /** Over every run without such a split, staged and active files hash to the digests the store records for them. */
  lemma {:induction false} BytesAgreeOverRuns(sha256: seq<Byte> -> string, boot: Device, actions: seq<Action>)
    requires BytesAgree(sha256, boot) && AllUndivided(sha256, boot, actions) && Exec(sha256, boot, actions).Some?
    ensures BytesAgree(sha256, Exec(sha256, boot, actions).value)
  {
    if actions != [] {
      BytesAgreeOverRuns(sha256, boot, actions[..|actions| - 1]);
      DoKeepsBytesExactlyWhenUndivided(sha256, Exec(sha256, boot, actions[..|actions| - 1]).value, actions[|actions| - 1]);
      hide BytesAgree, Splits, Do;
    }
  }

  // ------------------------------------------------- mode and runtime

  /** The activation found its release, and replaced the running one if need be. */
  predicate Reached(d: Device, g: int, mode: Mode, f: ActivationFaults) {
    f.stateRead && (if Replaces(d.nvs.slots, g) then Commits(d, g, mode, f) else ActiveMatches(d.nvs.slots, g))
  }

  /** The new mode was stored but the restart into it did not come, because the command id could not be stored. */
  predicate MissesRestart(d: Device, a: Action) {
    WorkNow(d, a) && d.phase.drained && d.command.value.Activate? && d.command.value.mode != d.nvs.mode
    && Reached(d, d.command.value.generation, d.command.value.mode, a.activation)
    && a.activation.modeWritten && !a.activation.commandWritten
  }

  /** The runtime that was booted is that of the stored mode after an action exactly when the action does not miss a restart. */
  lemma DoKeepsRuntimeExactlyWhenRestarted(sha256: seq<Byte> -> string, d: Device, a: Action)
    requires d.localRuntime == (d.nvs.mode == Local) && Do(sha256, d, a).Some?
    ensures var after := Do(sha256, d, a).value;
            after.localRuntime == (after.nvs.mode == Local) <==> !MissesRestart(d, a)
  {
    hide Do, Pulled, StageAccepted, Promoted, Commits, ContractPolicy.Compile, ValidRelease;
    OnlyWorkTouchesReleases(sha256, d, a);
  }

  // ------------------------------------------------- the device as the protocol sees it

  /** Slots, stored mode and running runtime: what the other components can observe. */
  datatype View = View(slots: Slots<DeviceTuple>, mode: Mode, localRuntime: bool)

  function ViewOf(d: Device): View {
    View(d.nvs.slots, d.nvs.mode, d.localRuntime)
  }

  /** The device is, or will be at its next start, a client of the edge host. */
  predicate OnEdge(v: View) {
    v.mode == Edge || !v.localRuntime
  }

  /** The effect of a command whose mode and id may not reach the store; a changed mode restarts only when both did. */
  function Effect(v: View, c: Command, modeWritten: bool, commandWritten: bool): View
  {
    match c
    case StageRelease(_, _, r) => if Fresh(v.slots, r) then v.(slots := Stage(v.slots, r)) else v
    case Activate(_, g, mode) =>
      if !Replaces(v.slots, g) && !ActiveMatches(v.slots, g) then v
      else View(if Replaces(v.slots, g) then Promote(v.slots) else v.slots,
                if modeWritten then mode else v.mode,
                if modeWritten && commandWritten && mode != v.mode then mode == Local else v.localRuntime)
  }

  /**
   Refinement: each action of the multi-step device either leaves what others observe as it is, or has the
   effect of the accepted command in progress, short of what the store failed to take.
   */
  lemma DoRefinesCommandEffect(sha256: seq<Byte> -> string, d: Device, a: Action)
    requires ExactlyOnce(d) && SlotsKept(d) && Do(sha256, d, a).Some?
    ensures var before, after := ViewOf(d), ViewOf(Do(sha256, d, a).value);
            after == before
            || (WorkNow(d, a) && d.command.value in d.accepted
                && (d.command.value.StageRelease? ==> ValidRelease(d.command.value.release) && Fresh(before.slots, d.command.value.release))
                && after == Effect(before, d.command.value, a.activation.modeWritten, a.activation.commandWritten))
  {
    hide StageReply, ActivateReply, StageAccepted, Promoted, Pulled, ContractPolicy.Compile, ValidRelease;
  }

  /** A release change without its mode, or a stored mode without the restart it needs. */
  predicate Partial(d: Device, a: Action) {
    WorkNow(d, a) && d.phase.drained && d.command.value.Activate? &&
    var g, mode := d.command.value.generation, d.command.value.mode;
    && mode != d.nvs.mode && Reached(d, g, mode, a.activation)
    && (if a.activation.modeWritten then !a.activation.commandWritten && d.localRuntime != (mode == Local)
        else Replaces(d.nvs.slots, g))
  }

  /** The effect is all or nothing exactly when it is not partial. */
  lemma EffectIsWholeExactlyWhenNotPartial(sha256: seq<Byte> -> string, d: Device, a: Action)
    requires ExactlyOnce(d) && SlotsKept(d) && Do(sha256, d, a).Some?
    ensures var before, after := ViewOf(d), ViewOf(Do(sha256, d, a).value);
            (after == before || (WorkNow(d, a) && after == Effect(before, d.command.value, true, true)))
            <==> !Partial(d, a)
  {
    hide StageReply, ActivateReply, StageAccepted, Promoted, Pulled, ContractPolicy.Compile, ValidRelease;
  }
}
