/**
 What commands achieve on the device: exactly when a stage command or an activation takes effect, in terms of what
 failed on the way, and that from every state a device reaches some run brings it to a newer release. And what
 a pause prevents until it is resumed.
 */
module DeviceProgress {
  import opened Common
  import opened ReleaseSlots
  import opened ArtifactFiles
  import opened DeviceRelease
  import opened DeviceInvariants
  import ContractPolicy

  // ------------------------------------------------- what a callback answers

  /** A stage command is refused for its arguments first, then for an unreadable store, its age, a conflict, missing means, and the worker's work. */
  lemma StageReplyNamesTheReason(d: Device, id: string, url: string, r: Release, f: Access)
    requires WellOrdered(d.nvs.slots)
    ensures var reply, g, top := StageReply(d, id, url, r, f), r.generation, Top(d.nvs.slots);
            var newest := if d.nvs.slots.staged.Some? then d.nvs.slots.staged.value else d.nvs.slots.active;
            var sound := id != "" && url != "" && g > 0 && |r.tuple.digest| == 64 && r.tuple.identity != "";
            var alike := r.tuple.digest == newest.tuple.digest && r.tuple.identity == newest.tuple.identity;
            var clash := r != newest && (alike ==> f.detailRead);
            var pending := d.command.Some? && d.command.value.StageRelease? && d.command.value.id == id && d.command.value.release == r;
            && (reply == InvalidArgument <==> !sound)
            && (reply == StoreError <==> sound && (!f.summaryRead || (g == top && alike && !f.detailRead)))
            && (reply == StaleVersion <==> sound && f.summaryRead && g < top)
            && (reply == Duplicate <==> sound && f.summaryRead && (if g > top then f.worker && d.busy && pending else r == newest && f.detailRead))
            && (reply == InvalidState <==> sound && f.summaryRead && (if g > top then f.worker && d.busy && !pending else g == top && clash))
            && (reply == NoMemory <==> sound && f.summaryRead && g > top && (!f.worker || (!d.busy && !f.copied)))
  {
  }

  /** An activation is refused in the same order; one that changes nothing is a duplicate, one for a release that is not held is out of place. */
  lemma ActivateReplyNamesTheReason(d: Device, id: string, g: int, mode: Mode, f: Access)
    ensures var reply, slots := ActivateReply(d, id, g, mode, f), d.nvs.slots;
            var sound := id != "" && g > 0 && f.detailRead;
            var active := slots.active.generation == g && ValidRelease(slots.active);
            var held := active || (slots.staged.Some? && slots.staged.value.generation == g && ValidRelease(slots.staged.value));
            var done := active && d.nvs.mode == mode;
            && (reply == InvalidArgument <==> id == "" || g <= 0)
            && (reply == StoreError <==> id != "" && g > 0 && !f.detailRead)
            && (reply == Duplicate <==> sound && (done || (held && f.worker && d.busy && d.command == Some(Activate(id, g, mode)))))
            && (reply == InvalidState <==> sound && !done && (!held || (f.worker && d.busy && d.command != Some(Activate(id, g, mode)))))
            && (reply == NoMemory <==> sound && !done && held && !f.worker)
  {
    hide ValidRelease;
  }

  // ------------------------------------------------- the drain

  function Polls(n: nat): seq<Action> {
    seq(n, _ => Poll)
  }

  /** A drain goes on through ninety-nine polls that find an invocation still running, and gives up at the hundredth. */
  lemma {:induction false} DrainGivesUpAtTheHundredthPoll(sha256: seq<Byte> -> string, d: Device, n: nat)
    requires d.phase == Draining(0) && d.inFlight != map[] && n <= 100
    ensures Exec(sha256, d, Polls(n)) == Some(d.(phase := if n < 100 then Draining(n) else Working(false)))
  {
    hide Do;
    if n > 0 {
      DrainGivesUpAtTheHundredthPoll(sha256, d, n - 1);
      assert Polls(n) == Polls(n - 1) + [Poll];
      ExecLast(sha256, d, Polls(n - 1), Poll);
      FailedPoll(sha256, d.(phase := Draining(n - 1)), n - 1);
    } else {
      assert Polls(0) == [];
    }
  }

  lemma FailedPoll(sha256: seq<Byte> -> string, d: Device, k: nat)
    requires d.phase == Draining(k) && d.inFlight != map[] && k < 100
    ensures Do(sha256, d, Poll) == Some(d.(phase := if k + 1 < 100 then Draining(k + 1) else Working(false)))
  {
  }

  /** The first poll that finds nothing running ends it, whenever that is. */
  lemma DrainEndsWithTheLastInvocation(sha256: seq<Byte> -> string, d: Device)
    requires d.phase.Draining? && d.inFlight == map[]
    ensures Do(sha256, d, Poll) == Some(d.(phase := Working(true)))
  {
  }

  /** An invocation is admitted only through the open gate, under an identity of its own, and its completion undoes that. */
  lemma CompletionUndoesAdmission(sha256: seq<Byte> -> string, d: Device, i: nat)
    ensures Do(sha256, d, Admit(i)).Some? <==> d.gateOpen && i !in d.inFlight
    ensures Do(sha256, d, Complete(i)).Some? <==> i in d.inFlight
    ensures Do(sha256, d, Admit(i)).Some? ==> Exec(sha256, d, [Admit(i), Complete(i)]) == Some(d)
  {
    if Do(sha256, d, Admit(i)).Some? {
      var admitted := Do(sha256, d, Admit(i)).value;
      ExecOne(sha256, d, Admit(i));
      ExecLast(sha256, d, [Admit(i)], Complete(i));
      assert [Admit(i)] + [Complete(i)] == [Admit(i), Complete(i)];
      assert admitted.inFlight - {i} == d.inFlight;
      hide Exec;
    }
  }

  /** A wake-up without a command closes no gate. */
  lemma SpuriousWakeUpOnlyClears(sha256: seq<Byte> -> string, d: Device)
    requires d.phase == Waiting && d.notified > 0 && d.command == None
    ensures Do(sha256, d, Take) == Some(d.(notified := 0, phase := Clearing))
  {
  }

  // ------------------------------------------------- when a command takes effect

  /**
   A stage command takes effect exactly when the drain succeeded, the whole body arrived, the renames it needs
   worked, the digest was read and is the release's, and the metadata was written. Then the downloaded bytes are
   staged, over whatever was staged before; otherwise the store is as it was.
   */
  lemma StageSucceedsExactlyWhen(sha256: seq<Byte> -> string, d: Device, f: StageFaults, activation: ActivationFaults)
    requires d.phase.Working? && d.command.Some? && d.command.value.StageRelease?
    requires Fresh(d.nvs.slots, d.command.value.release)
    ensures var r, after := d.command.value.release, Do(sha256, d, Work(f, activation)).value;
            var arrived := d.phase.drained && f.pull.Body? && f.replace.stat && (Staged in d.files ==> f.replace.backedUp) && f.replace.renamed;
            var staged := arrived && f.digestRead && SameHex(sha256(f.pull.bytes), r.tuple.digest) && f.metadataWritten;
            && after == d.(nvs := after.nvs, files := after.files, processed := d.processed + [d.command.value], phase := Clearing)
            && after.nvs == (if staged then d.nvs.(slots := Slots(d.nvs.slots.active, Some(r))) else d.nvs)
            && (after.nvs.slots.staged == Some(r) <==> staged)
            && (staged ==> Staged in after.files && after.files[Staged] == f.pull.bytes)
            && (forall p :: p in {Active, Previous} ==> (p in after.files <==> p in d.files) && (p in d.files ==> after.files[p] == d.files[p]))
  {
    PullSucceedsExactlyWhen(d.files, f.pull, f.replace, f.temporaryRemoved);
    PullIsAllOrNothing(d.files, f.pull, f.replace, f.temporaryRemoved);
    hide SameHex, Pulled;
  }

  /** So a command that meets no failure is always staged. */
  lemma FaultFreeStageSucceeds(sha256: seq<Byte> -> string, d: Device, bytes: seq<Byte>)
    requires d.phase == Working(true) && d.command.Some? && d.command.value.StageRelease?
    requires Fresh(d.nvs.slots, d.command.value.release) && SameHex(sha256(bytes), d.command.value.release.tuple.digest)
    ensures var after := Do(sha256, d, Work(Download(bytes), NO_FAILURE)).value;
            && after == d.(nvs := d.nvs.(slots := Stage(d.nvs.slots, d.command.value.release)), files := after.files,
                           processed := d.processed + [d.command.value], phase := Clearing)
            && Staged in after.files && after.files[Staged] == bytes
  {
    StageSucceedsExactlyWhen(sha256, d, Download(bytes), NO_FAILURE);
    hide SameHex, Do;
  }

  const NO_FAILURE := ActivationFaults(true, true, PromoteFaults(true, true, true, true, true), true, true, true)

  function Download(bytes: seq<Byte>): StageFaults {
    StageFaults(Body(bytes), ReplaceFaults(true, true, true, true, true, true), true, true, true, true)
  }

  /**
   An activation of the staged release takes effect exactly when the drain succeeded, the store could be read, the
   contract is well formed, the staged file is there and not empty, a local runtime that stays local could load it, the
   renames worked, and the promotion was recorded. The mode follows if it could be written, and a changed
   mode restarts the firmware if the command could be recorded as well.
   */
  lemma ActivationSucceedsExactlyWhen(sha256: seq<Byte> -> string, d: Device, stage: StageFaults, f: ActivationFaults)
    requires d.phase.Working? && d.command.Some? && d.command.value.Activate?
    requires d.nvs.slots.staged.Some? && d.nvs.slots.staged.value.generation == d.command.value.generation != d.nvs.slots.active.generation
    requires ValidRelease(d.nvs.slots.staged.value)
    ensures var r, mode, after := d.nvs.slots.staged.value, d.command.value.mode, Do(sha256, d, Work(stage, f)).value;
            var replaced :=
              && d.phase.drained && f.stateRead && ContractPolicy.WellFormed(r.tuple.contract)
              && Staged in d.files && d.files[Staged] != [] && (mode == Local && d.localRuntime ==> f.reloaded)
              && (Active in d.files ==> f.promote.backedUp) && f.promote.renamed && f.committed;
            var restarted := replaced && f.modeWritten && f.commandWritten && mode != d.nvs.mode;
            && after.nvs.slots == (if replaced then Slots(r, None) else d.nvs.slots)
            && after.nvs.mode == (if replaced && f.modeWritten then mode else d.nvs.mode)
            && after.nvs.paused == d.nvs.paused && after.processed == d.processed + [d.command.value]
            && (replaced ==> Active in after.files && after.files[Active] == d.files[Staged] && Staged !in after.files)
            && after.localRuntime == (if restarted then mode == Local else d.localRuntime)
            && (restarted ==> after.loaded == if mode == Local then Some(d.files[Staged]) else None)
            && (!restarted ==>
                  after.loaded == if && d.phase.drained && f.stateRead && ContractPolicy.WellFormed(r.tuple.contract)
                                     && mode == Local && d.localRuntime && Staged in d.files && f.reloaded
                                  then Some(d.files[Staged]) else d.loaded)
            && Settled(d, after, restarted)
  {
    hide Do, AfterActivation, ActivateWork, Commits, ContractPolicy.Compile, ContractPolicy.WellFormed, ValidRelease, Settled;
    WorkIsTheWorkers(sha256, d, stage, f);
    CommitsExactlyWhen(d, f);
    ActivationOutcome(d, f);
    ActivationSettles(d, f);
  }

  lemma ActivationSettles(d: Device, f: ActivationFaults)
    requires d.phase.Working? && d.command.Some? && d.command.value.Activate?
    ensures var c := d.command.value; var o, after := ActivateWork(d, c.generation, c.mode, f), AfterActivation(d, c, d.phase.drained, f);
            var restarted := d.phase.drained && o.ok && c.mode != d.nvs.mode;
            && after.nvs == (if d.phase.drained then o.nvs else d.nvs) && after.files == (if d.phase.drained then o.files else d.files)
            && after.localRuntime == (if restarted then c.mode == Local else d.localRuntime)
            && after.loaded == (if restarted then BootModule(c.mode, o.files) else if d.phase.drained then o.loaded else d.loaded)
            && after.processed == d.processed + [c] && Settled(d, after, restarted)
  {
    hide ActivateWork, ContractPolicy.Compile;
  }

  lemma ActivationOutcome(d: Device, f: ActivationFaults)
    requires d.command.Some? && d.command.value.Activate?
    requires d.nvs.slots.staged.Some? && d.nvs.slots.staged.value.generation == d.command.value.generation != d.nvs.slots.active.generation
    requires ValidRelease(d.nvs.slots.staged.value)
    ensures var c := d.command.value; var o := ActivateWork(d, c.generation, c.mode, f);
            var replaced := Commits(d, c.generation, c.mode, f);
            && o.nvs == Nvs(if replaced && f.modeWritten then c.mode else d.nvs.mode,
                            if replaced then Slots(d.nvs.slots.staged.value, None) else d.nvs.slots, d.nvs.paused)
            && o.ok == (replaced && f.modeWritten && f.commandWritten)
            && (replaced ==> Staged in d.files && Active in o.files && o.files[Active] == d.files[Staged] && Staged !in o.files)
            && o.loaded == (if && f.stateRead && ContractPolicy.Compile(d.nvs.slots.staged.value.tuple.contract).valid
                               && c.mode == Local && d.localRuntime && Staged in d.files && f.reloaded
                            then Some(d.files[Staged]) else d.loaded)
  {
    PromotionIsAllOrNothing(d.files, f.promote);
    hide Promoted, ContractPolicy.Compile, ValidRelease;
  }

  lemma CommitsExactlyWhen(d: Device, f: ActivationFaults)
    requires d.command.Some? && d.command.value.Activate?
    requires d.nvs.slots.staged.Some? && d.nvs.slots.staged.value.generation == d.command.value.generation != d.nvs.slots.active.generation
    requires ValidRelease(d.nvs.slots.staged.value)
    ensures var c := d.command.value;
            Commits(d, c.generation, c.mode, f) <==>
              && f.stateRead && ContractPolicy.WellFormed(d.nvs.slots.staged.value.tuple.contract)
              && Staged in d.files && d.files[Staged] != [] && (c.mode == Local && d.localRuntime ==> f.reloaded)
              && (Active in d.files ==> f.promote.backedUp) && f.promote.renamed && f.committed
    ensures ContractPolicy.Compile(d.nvs.slots.staged.value.tuple.contract).valid <==>
            ContractPolicy.WellFormed(d.nvs.slots.staged.value.tuple.contract)
  {
    PromotionIsAllOrNothing(d.files, f.promote);
    hide Promoted, ContractPolicy.OrAll, ContractPolicy.InputBits, ContractPolicy.OutputBits;
  }

  /** After its work the device waits anew, its gate following the store, or still has to release the command behind its closed gate. */
  ghost predicate Settled(d: Device, after: Device, restarted: bool) {
    if restarted
    then after.phase == Waiting && !after.busy && after.command == None && after.gives == 0 && after.notified == 0
         && after.inFlight == map[] && after.gateOpen == !after.nvs.paused
    else after.phase == Clearing && after.busy == d.busy && after.command == d.command && after.gives == d.gives && after.notified == d.notified
         && after.inFlight == d.inFlight && after.gateOpen == d.gateOpen
  }

  /** An activation of the release that is active already only changes the mode, exactly when the store takes it. */
  lemma ModeChangeSucceedsExactlyWhen(sha256: seq<Byte> -> string, d: Device, stage: StageFaults, f: ActivationFaults)
    requires d.phase.Working? && d.command.Some? && d.command.value.Activate?
    requires d.nvs.slots.active.generation == d.command.value.generation && ValidRelease(d.nvs.slots.active)
    ensures var mode, after := d.command.value.mode, Do(sha256, d, Work(stage, f)).value;
            var restarted := d.phase.drained && f.stateRead && f.modeWritten && f.commandWritten && mode != d.nvs.mode;
            && after.nvs == d.nvs.(mode := if d.phase.drained && f.stateRead && f.modeWritten then mode else d.nvs.mode)
            && after.files == d.files && after.localRuntime == (if restarted then mode == Local else d.localRuntime)
            && Settled(d, after, restarted)
  {
    hide ContractPolicy.Compile, Promoted;
  }

  /** Without a drain, without a readable store, or for a release that the device does not validly hold an activation changes nothing. */
  lemma IneffectiveActivationChangesNothing(sha256: seq<Byte> -> string, d: Device, stage: StageFaults, f: ActivationFaults)
    requires d.phase.Working? && d.command.Some? && d.command.value.Activate?
    requires var g, slots := d.command.value.generation, d.nvs.slots;
             || !d.phase.drained || !f.stateRead
             || (&& (slots.active.generation == g ==> !ValidRelease(slots.active))
                 && (slots.staged.Some? && slots.staged.value.generation == g ==> !ValidRelease(slots.staged.value)))
    ensures Do(sha256, d, Work(stage, f)) == Some(d.(processed := d.processed + [d.command.value], phase := Clearing))
  {
    hide ContractPolicy.Compile, Promoted;
  }

  // ------------------------------------------------- from any state to a newer release

  ghost predicate Idle(d: Device) {
    ExactlyOnce(d) && d.phase == Waiting && !d.busy
  }

  /** In the run only these commands arrive. */
  ghost predicate Receives(actions: seq<Action>, sent: set<Command>) {
    forall k :: 0 <= k < |actions| && actions[k].OnCommand? ==> actions[k].command in sent
  }

  /** Some run in which only these commands arrive leads from one state to the other. */
  ghost predicate Leads(sha256: seq<Byte> -> string, sent: set<Command>, d: Device, after: Device) {
    exists actions :: Exec(sha256, d, actions) == Some(after) && Receives(actions, sent)
  }

  lemma LeadsBy(sha256: seq<Byte> -> string, sent: set<Command>, d: Device, a: Action)
    requires Do(sha256, d, a).Some? && (a.OnCommand? ==> a.command in sent)
    ensures Leads(sha256, sent, d, Do(sha256, d, a).value)
  {
    ExecOne(sha256, d, a);
    assert Receives([a], sent);
    hide Do, Exec;
  }

  lemma LeadsOn(sha256: seq<Byte> -> string, sent: set<Command>, d: Device, d': Device, d'': Device)
    requires Leads(sha256, sent, d, d') && Leads(sha256, sent, d', d'')
    ensures Leads(sha256, sent, d, d'')
  {
    hide Exec;
    var a :| Exec(sha256, d, a) == Some(d') && Receives(a, sent);
    var b :| Exec(sha256, d', b) == Some(d'') && Receives(b, sent);
    ExecAppend(sha256, d, a, b);
    assert Receives(a + b, sent);
  }

  /** An accepted command reaches the worker behind a closed gate with nothing in flight. */
  lemma CommandReachesWorker(sha256: seq<Byte> -> string, sent: set<Command>, d: Device, c: Command) returns (working: Device)
    requires Idle(d) && c in sent
    requires var all := Access(true, true, true, true);
             (if c.StageRelease? then StageReply(d, c.id, c.url, c.release, all) else ActivateReply(d, c.id, c.generation, c.mode, all)) == Accepted
    ensures Leads(sha256, sent, d, working)
    ensures working == d.(busy := true, command := Some(c), accepted := d.accepted + [c], gateOpen := false, inFlight := map[], phase := Working(true))
  {
    hide StageReply, ActivateReply, Exec, Leads;
    var claimed := Claim(d, c);
    LeadsBy(sha256, sent, d, OnCommand(c, Access(true, true, true, true)));
    LeadsBy(sha256, sent, claimed, Give);
    var given := claimed.(gives := 0, notified := 1);
    LeadsBy(sha256, sent, given, Take);
    var taken := given.(notified := 0, gateOpen := false, phase := Draining(0));
    working := taken.(inFlight := map[], phase := Working(true));
    DrainLeads(sha256, sent, taken);
    LeadsOn(sha256, sent, d, claimed, given);
    LeadsOn(sha256, sent, d, given, taken);
    LeadsOn(sha256, sent, d, taken, working);
  }

  lemma DrainLeads(sha256: seq<Byte> -> string, sent: set<Command>, d: Device)
    requires d.phase.Draining?
    ensures Leads(sha256, sent, d, d.(inFlight := map[], phase := Working(true)))
  {
    var actions := DrainCanEnd(sha256, d);
    assert Receives(actions, sent);
    hide Exec;
  }

  /** After its work the worker releases the command, and the gate follows the store. */
  lemma WorkerComesToRest(sha256: seq<Byte> -> string, sent: set<Command>, d: Device) returns (rested: Device)
    requires ExactlyOnce(d) && d.phase == Clearing
    ensures Leads(sha256, sent, d, rested) && Idle(rested)
    ensures rested == d.(command := None, busy := false, phase := Waiting, gateOpen := d.gateOpen || !d.nvs.paused)
  {
    hide Leads;
    var cleared := d.(command := None, busy := false, phase := Restoring);
    LeadsBy(sha256, sent, d, Clear);
    LeadsBy(sha256, sent, cleared, Restore(true));
    rested := cleared.(phase := Waiting, gateOpen := d.gateOpen || !d.nvs.paused);
    LeadsOn(sha256, sent, d, cleared, rested);
  }

  /** A new release goes through the device's whole staging, and admission is then what the store says. */
  lemma StageGoesThrough(sha256: seq<Byte> -> string, sent: set<Command>, d: Device, id: string, url: string, r: Release, bytes: seq<Byte>) returns (after: Device)
    requires StageRelease(id, url, r) in sent
    requires Idle(d) && id != "" && url != "" && ValidRelease(r) && Fresh(d.nvs.slots, r) && SameHex(sha256(bytes), r.tuple.digest)
    ensures Leads(sha256, sent, d, after) && Idle(after)
    ensures after.nvs == d.nvs.(slots := Slots(d.nvs.slots.active, Some(r))) && after.localRuntime == d.localRuntime
    ensures Staged in after.files && after.files[Staged] == bytes && after.gateOpen == !d.nvs.paused
  {
    hide ValidRelease, SameHex, Leads, Exec, Do, StageReply;
    var c, all := StageRelease(id, url, r), Access(true, true, true, true);
    StageAcceptedExactlyWhenFresh(d, id, url, r, all);
    var working := CommandReachesWorker(sha256, sent, d, c);
    FaultFreeStageSucceeds(sha256, working, bytes);
    WorkCanBeDone(sha256, working, Download(bytes), NO_FAILURE);
    LeadsBy(sha256, sent, working, Work(Download(bytes), NO_FAILURE));
    var worked := Do(sha256, working, Work(Download(bytes), NO_FAILURE)).value;
    after := WorkerComesToRest(sha256, sent, worked);
    LeadsOn(sha256, sent, d, working, worked);
    LeadsOn(sha256, sent, d, worked, after);
  }

  lemma WorkCanBeDone(sha256: seq<Byte> -> string, d: Device, stage: StageFaults, activation: ActivationFaults)
    requires d.phase.Working? && d.command.Some?
    ensures Do(sha256, d, Work(stage, activation)).Some?
  {
    hide AfterStage, AfterActivation;
  }

  /** The staged release goes through the device's whole activation. */
  lemma ActivationGoesThrough(sha256: seq<Byte> -> string, sent: set<Command>, d: Device, id: string, mode: Mode) returns (after: Device)
    requires d.nvs.slots.staged.Some? && Activate(id, d.nvs.slots.staged.value.generation, mode) in sent
    requires Idle(d) && id != "" && WellOrdered(d.nvs.slots) && d.nvs.slots.staged.Some? && ValidRelease(d.nvs.slots.staged.value)
    requires ContractPolicy.WellFormed(d.nvs.slots.staged.value.tuple.contract) && Staged in d.files && d.files[Staged] != []
    ensures Leads(sha256, sent, d, after) && Idle(after)
    ensures after.nvs == Nvs(mode, Slots(d.nvs.slots.staged.value, None), d.nvs.paused)
    ensures Active in after.files && after.files[Active] == d.files[Staged] && after.gateOpen == !d.nvs.paused
    ensures (mode != d.nvs.mode ==> after.localRuntime == (mode == Local)) && (mode == d.nvs.mode ==> after.localRuntime == d.localRuntime)
  {
    hide Leads, Exec, Do, ActivateReply, ContractPolicy.WellFormed, StagedMatches, ActiveMatches;
    var g, all := d.nvs.slots.staged.value.generation, Access(true, true, true, true);
    var c := Activate(id, g, mode);
    ActivationIsAccepted(d, id, mode);
    var working := CommandReachesWorker(sha256, sent, d, c);
    var stage := Download([]);
    ActivationSucceedsExactlyWhen(sha256, working, stage, NO_FAILURE);
    WorkCanBeDone(sha256, working, stage, NO_FAILURE);
    LeadsBy(sha256, sent, working, Work(stage, NO_FAILURE));
    var worked := Do(sha256, working, Work(stage, NO_FAILURE)).value;
    DoKeepsExactlyOnce(sha256, working, Work(stage, NO_FAILURE));
    if worked.phase == Waiting {
      after := worked;
      LeadsOn(sha256, sent, d, working, after);
    } else {
      after := WorkerComesToRest(sha256, sent, worked);
      LeadsOn(sha256, sent, d, working, worked);
      LeadsOn(sha256, sent, d, worked, after);
    }
  }

  /** A device that runs the release already goes through a mode change the same way. */
  lemma ModeChangeGoesThrough(sha256: seq<Byte> -> string, sent: set<Command>, d: Device, id: string, mode: Mode) returns (after: Device)
    requires Idle(d) && id != "" && ValidRelease(d.nvs.slots.active) && mode != d.nvs.mode
    requires Activate(id, d.nvs.slots.active.generation, mode) in sent
    ensures Leads(sha256, sent, d, after) && Idle(after)
    ensures after.nvs == d.nvs.(mode := mode) && after.files == d.files && after.localRuntime == (mode == Local)
  {
    hide Leads, Exec, Do, ActivateReply;
    var g := d.nvs.slots.active.generation;
    ModeChangeIsAccepted(d, id, mode);
    var working := CommandReachesWorker(sha256, sent, d, Activate(id, g, mode));
    var stage := Download([]);
    ModeChangeSucceedsExactlyWhen(sha256, working, stage, NO_FAILURE);
    WorkCanBeDone(sha256, working, stage, NO_FAILURE);
    LeadsBy(sha256, sent, working, Work(stage, NO_FAILURE));
    after := Do(sha256, working, Work(stage, NO_FAILURE)).value;
    DoKeepsExactlyOnce(sha256, working, Work(stage, NO_FAILURE));
    LeadsOn(sha256, sent, d, working, after);
  }

  lemma ModeChangeIsAccepted(d: Device, id: string, mode: Mode)
    requires Idle(d) && id != "" && ValidRelease(d.nvs.slots.active) && mode != d.nvs.mode
    ensures ActivateReply(d, id, d.nvs.slots.active.generation, mode, Access(true, true, true, true)) == Accepted
  {
  }

  lemma ActivationIsAccepted(d: Device, id: string, mode: Mode)
    requires Idle(d) && id != "" && WellOrdered(d.nvs.slots) && d.nvs.slots.staged.Some? && ValidRelease(d.nvs.slots.staged.value)
    ensures ActivateReply(d, id, d.nvs.slots.staged.value.generation, mode, Access(true, true, true, true)) == Accepted
  {
  }

  /** Whatever is in progress can come to an end without changing what is held. */
  lemma CanComeToRest(sha256: seq<Byte> -> string, sent: set<Command>, d: Device) returns (rested: Device)
    requires ExactlyOnce(d)
    ensures Leads(sha256, sent, d, rested) && Idle(rested) && rested.nvs == d.nvs && rested.localRuntime == d.localRuntime
  {
    hide Leads;
    NothingLeads(sha256, sent, d);
    var now := d;
    if d.phase == Restoring {
      LeadsBy(sha256, sent, d, Restore(true));
      now := d.(gateOpen := d.gateOpen || !d.nvs.paused, phase := Waiting);
    }
    rested := now;
    if now.phase != Waiting || now.busy {
      var cleared := WorkerFinishes(sha256, sent, now);
      rested := WorkerComesToRest(sha256, sent, cleared);
      LeadsOn(sha256, sent, d, now, cleared);
      LeadsOn(sha256, sent, d, cleared, rested);
    }
  }

  lemma WorkerFinishes(sha256: seq<Byte> -> string, sent: set<Command>, d: Device) returns (cleared: Device)
    requires ExactlyOnce(d) && d.phase != Restoring && (d.phase == Waiting ==> d.busy)
    ensures Leads(sha256, sent, d, cleared) && ExactlyOnce(cleared) && cleared.phase == Clearing
    ensures cleared.nvs == d.nvs && cleared.localRuntime == d.localRuntime
  {
    hide Leads;
    NothingLeads(sha256, sent, d);
    cleared := d;
    if d.phase == Waiting {
      var taken := CommandIsTaken(sha256, sent, d);
      cleared := WorkCanFail(sha256, sent, taken);
      LeadsOn(sha256, sent, d, taken, cleared);
    } else if d.phase != Clearing {
      cleared := WorkCanFail(sha256, sent, d);
    }
  }

  lemma NothingLeads(sha256: seq<Byte> -> string, sent: set<Command>, d: Device)
    ensures Leads(sha256, sent, d, d)
  {
    assert Exec(sha256, d, []) == Some(d) && Receives([], sent);
  }

  lemma CommandIsTaken(sha256: seq<Byte> -> string, sent: set<Command>, d: Device) returns (taken: Device)
    requires ExactlyOnce(d) && d.phase == Waiting && d.busy
    ensures Leads(sha256, sent, d, taken) && taken == d.(gives := 0, notified := 0, gateOpen := false, phase := Draining(0))
  {
    hide Leads;
    var given := d.(gives := 0, notified := 1);
    if d.gives == 1 {
      LeadsBy(sha256, sent, d, Give);
    } else {
      NothingLeads(sha256, sent, d);
    }
    LeadsBy(sha256, sent, given, Take);
    taken := given.(notified := 0, gateOpen := false, phase := Draining(0));
    LeadsOn(sha256, sent, d, given, taken);
  }

  const FAILED_STAGE := StageFaults(NoResponse, ReplaceFaults(false, false, false, false, false, false), false, false, false, false)
  const FAILED_ACTIVATION := ActivationFaults(false, false, PromoteFaults(false, false, false, false, false), false, false, false)

  /** The worker can fail its command and leave store and files as they are. */
  lemma WorkCanFail(sha256: seq<Byte> -> string, sent: set<Command>, d: Device) returns (cleared: Device)
    requires ExactlyOnce(d) && (d.phase.Draining? || d.phase.Working?)
    ensures Leads(sha256, sent, d, cleared) && ExactlyOnce(cleared) && cleared.phase == Clearing
    ensures cleared.nvs == d.nvs && cleared.localRuntime == d.localRuntime
  {
    hide Leads;
    var working := d;
    NothingLeads(sha256, sent, d);
    if d.phase.Draining? {
      DrainLeads(sha256, sent, d);
      working := d.(inFlight := map[], phase := Working(true));
    }
    var a := Work(FAILED_STAGE, FAILED_ACTIVATION);
    FailedWork(sha256, working);
    cleared := working.(processed := working.processed + [working.command.value], phase := Clearing);
    LeadsBy(sha256, sent, working, a);
    LeadsOn(sha256, sent, d, working, cleared);
  }

  lemma FailedWork(sha256: seq<Byte> -> string, d: Device)
    requires d.phase.Working? && d.command.Some?
    ensures Do(sha256, d, Work(FAILED_STAGE, FAILED_ACTIVATION)) == Some(d.(processed := d.processed + [d.command.value], phase := Clearing))
  {
    hide ContractPolicy.Compile, Promoted, ValidRelease, SameHex;
  }

  /**
   From every state that any run of callbacks, worker and invocations reaches, some continuation installs a
   newer release: its bytes are active, it alone is held, and the mode is the requested one.
   */
  lemma DeviceCanAlwaysBeUpdated(sha256: seq<Byte> -> string, boot: Device, actions: seq<Action>, id: string, url: string,
                                 r: Release, bytes: seq<Byte>, mode: Mode)
    requires Booted(boot) && Exec(sha256, boot, actions).Some?
    requires id != "" && url != "" && ValidRelease(r) && Fresh(Exec(sha256, boot, actions).value.nvs.slots, r)
    requires ContractPolicy.WellFormed(r.tuple.contract) && bytes != [] && SameHex(sha256(bytes), r.tuple.digest)
    ensures exists more :: var run := Exec(sha256, boot, actions + more);
              && run.Some? && run.value.nvs.slots == Slots(r, None) && run.value.nvs.mode == mode
              && Active in run.value.files && run.value.files[Active] == bytes
              && run.value.gateOpen == !run.value.nvs.paused
  {
    hide Exec, ValidRelease, SameHex, ContractPolicy.WellFormed;
    var d := Exec(sha256, boot, actions).value;
    ExecKeepsExactlyOnce(sha256, boot, actions);
    var sent := {StageRelease(id, url, r), Activate(id, r.generation, mode)};
    var rested := CanComeToRest(sha256, sent, d);
    var staged := StageGoesThrough(sha256, sent, rested, id, url, r, bytes);
    var after := ActivationGoesThrough(sha256, sent, staged, id, mode);
    LeadsOn(sha256, sent, d, rested, staged);
    LeadsOn(sha256, sent, d, staged, after);
    var more :| Exec(sha256, d, more) == Some(after) && Receives(more, sent);
    ExecAppend(sha256, boot, actions, more);
  }

  // ------------------------------------------------- pause and resume

  /** A resume of the active generation that reaches the store. */
  predicate Resumes(d: Device, a: Action) {
    a.Resume? && a.read && a.resumeGeneration == d.nvs.slots.active.generation && a.unpaused
  }

  ghost predicate NeverResumed(sha256: seq<Byte> -> string, d: Device, actions: seq<Action>)
  {
    actions == [] ||
    var init := actions[..|actions| - 1];
    && NeverResumed(sha256, d, init)
    && (Exec(sha256, d, init).Some? ==> !Resumes(Exec(sha256, d, init).value, actions[|actions| - 1]))
  }

  /** Nothing but a resume opens a gate that the store says is paused. */
  lemma DoKeepsPaused(sha256: seq<Byte> -> string, d: Device, a: Action)
    requires d.nvs.paused && !d.gateOpen && !Resumes(d, a) && Do(sha256, d, a).Some?
    ensures var after := Do(sha256, d, a).value; after.nvs.paused && !after.gateOpen && after.inFlight.Keys <= d.inFlight.Keys
  {
    if a.Work? && d.phase.Working? {
      WorkKeepsPaused(sha256, d, a.stage, a.activation);
      hide Do;
    } else {
      hide StageReply, ActivateReply, AfterStage, AfterActivation;
    }
  }

  lemma WorkKeepsPaused(sha256: seq<Byte> -> string, d: Device, stage: StageFaults, activation: ActivationFaults)
    requires d.nvs.paused && !d.gateOpen && d.phase.Working? && Do(sha256, d, Work(stage, activation)).Some?
    ensures var after := Do(sha256, d, Work(stage, activation)).value;
            after.nvs.paused && !after.gateOpen && after.inFlight.Keys <= d.inFlight.Keys
  {
    hide Promoted, Pulled, StageAccepted, ContractPolicy.Compile, Commits, Reloads;
  }

  lemma {:induction false} PausedRunsStayPaused(sha256: seq<Byte> -> string, d: Device, actions: seq<Action>)
    requires d.nvs.paused && !d.gateOpen && NeverResumed(sha256, d, actions) && Exec(sha256, d, actions).Some?
    ensures var after := Exec(sha256, d, actions).value; after.nvs.paused && !after.gateOpen && after.inFlight.Keys <= d.inFlight.Keys
  {
    hide Do, Resumes;
    if actions != [] {
      PausedRunsStayPaused(sha256, d, actions[..|actions| - 1]);
      DoKeepsPaused(sha256, Exec(sha256, d, actions[..|actions| - 1]).value, actions[|actions| - 1]);
    }
  }

  /**
   A pause that reached the store keeps every new invocation out, through transitions and restarts, until a resume
   of the active generation. One for an older generation, or with an unreadable store, does nothing; and one
   that the store does not take still closes the gate.
   */
  lemma PauseLastsUntilResumed(sha256: seq<Byte> -> string, d: Device, g: int, actions: seq<Action>)
    ensures g < d.nvs.slots.active.generation ==> Do(sha256, d, Pause(g, true, true)) == Some(d)
    ensures Do(sha256, d, Pause(g, false, true)) == Some(d)
    ensures g >= d.nvs.slots.active.generation ==> Do(sha256, d, Pause(g, true, false)) == Some(d.(gateOpen := false))
    ensures g >= d.nvs.slots.active.generation ==>
              var paused := Do(sha256, d, Pause(g, true, true)).value;
              var run := Exec(sha256, paused, actions);
              && paused == d.(gateOpen := false, nvs := d.nvs.(paused := true))
              && (NeverResumed(sha256, paused, actions) && run.Some? ==> !run.value.gateOpen && run.value.inFlight.Keys <= d.inFlight.Keys)
  {
    hide Exec, NeverResumed;
    var paused := d.(gateOpen := false, nvs := d.nvs.(paused := true));
    if NeverResumed(sha256, paused, actions) && Exec(sha256, paused, actions).Some? {
      PausedRunsStayPaused(sha256, paused, actions);
    }
  }

  /** A resume of the active generation opens the gate at once if it was recorded, and with the next transition otherwise. */
  lemma ResumeReopens(sha256: seq<Byte> -> string, d: Device, recorded: bool)
    requires ExactlyOnce(d)
    ensures var resumed := Do(sha256, d, Resume(d.nvs.slots.active.generation, true, true, recorded)).value;
            && resumed == d.(gateOpen := resumed.gateOpen, nvs := d.nvs.(paused := false))
            && (resumed.gateOpen <==> d.gateOpen || recorded)
            && (d.phase == Clearing ==> exists rested :: Leads(sha256, {}, resumed, rested) && Idle(rested) && rested.gateOpen)
    ensures forall g :: g != d.nvs.slots.active.generation ==> Do(sha256, d, Resume(g, true, true, recorded)) == Some(d)
    ensures forall g :: Do(sha256, d, Resume(g, false, true, recorded)) == Do(sha256, d, Resume(g, true, false, recorded)) == Some(d)
  {
    var resumed := Do(sha256, d, Resume(d.nvs.slots.active.generation, true, true, recorded)).value;
    if d.phase == Clearing {
      var rested := WorkerComesToRest(sha256, {}, resumed);
    }
  }
}
