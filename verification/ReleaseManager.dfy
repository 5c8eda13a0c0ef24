/**
 The release manager's own code (sif_release.cpp) over its mutable variables. Each callback and each
 stage of the worker is proved to be the matching action of the state machine in DeviceRelease, and one
 turn of the worker's loop to be a run of such actions.
 */
module ReleaseManager {
  import opened Common
  import opened ReleaseSlots
  import opened ArtifactFiles
  import opened DeviceRelease
  import ContractPolicy

  /** The invocations still admitted after k delays, when each delay lets some of them complete. */
  function Remaining(admitted: set<nat>, completing: nat -> set<nat>, k: nat): set<nat>
  {
    if k == 0 then admitted else Remaining(admitted, completing, k - 1) - completing(k - 1)
  }

  lemma {:induction false} RemainingShrinks(admitted: set<nat>, completing: nat -> set<nat>, k: nat, l: nat)
    requires k <= l
    ensures Remaining(admitted, completing, l) <= Remaining(admitted, completing, k)
    decreases l - k
  {
    if k < l {
      RemainingShrinks(admitted, completing, k, l - 1);
    }
  }

  /** An invocation remains exactly when none of the delays completed it. */
  lemma {:induction false} RemainingMeaning(admitted: set<nat>, completing: nat -> set<nat>, k: nat, i: nat)
    ensures i in Remaining(admitted, completing, k) <==> i in admitted && forall j: nat :: j < k ==> i !in completing(j)
  {
    if k > 0 {
      RemainingMeaning(admitted, completing, k - 1, i);
    }
  }

  /** The mode follows only a reached release, and without a release change nothing but the mode changes. */
  lemma ActivationOutline(d: Device, g: int, mode: Mode, f: ActivationFaults)
    ensures var o := ActivateWork(d, g, mode, f);
            var changes := f.stateRead && Replaces(d.nvs.slots, g);
            var reached := if changes then Commits(d, g, mode, f) else f.stateRead && ActiveMatches(d.nvs.slots, g);
            && o.nvs.mode == (if reached && f.modeWritten then mode else d.nvs.mode)
            && o.ok == (reached && f.modeWritten && f.commandWritten)
            && o.nvs.paused == d.nvs.paused
            && (!changes ==> o == o.(files := d.files, loaded := d.loaded, policy := d.policy)
                              && o.nvs.slots == d.nvs.slots)
  {
    hide ContractPolicy.Compile, Promoted;
  }

  /** What the work of an activation writes. */
  function Apply(d: Device, o: Outcome): Device {
    d.(nvs := o.nvs, files := o.files, loaded := o.loaded, policy := o.policy)
  }

  /**
   What an activation leaves: store, files and history are those of the machine's next state, and so is
   everything else unless a changed mode asks for the restart that rebuilds it.
   */
  ghost predicate ActivationProcessed(was: Device, c: Command, drained: bool, f: ActivationFaults, now: Device, restarting: bool) {
    && c.Activate? &&
    var next := AfterActivation(was, c, drained, f);
    && now.nvs == next.nvs && now.files == next.files && now.processed == next.processed
    && restarting == (drained && ActivateWork(was, c.generation, c.mode, f).ok && was.nvs.mode != c.mode)
    && (!restarting ==> now == next)
  }

  lemma ActivationEnds(was: Device, c: Command, drained: bool, f: ActivationFaults, now: Device, restarting: bool)
    requires c.Activate?
    requires var o := ActivateWork(was, c.generation, c.mode, f);
             && now == (if drained
                        then Apply(was, o).(processed := was.processed + [c], phase := Clearing)
                        else was.(processed := was.processed + [c], phase := Clearing))
             && restarting == (drained && o.ok && was.nvs.mode != c.mode)
    ensures ActivationProcessed(was, c, drained, f, now, restarting)
  {
    hide ContractPolicy.Compile, ActivateWork;
  }

  /** The firmware after a boot from the store and the files. */
  function Rebooted(nvs: Nvs, files: Files): Device
  {
    Device(nvs, files, nvs.mode == Local, BootModule(nvs.mode, files),
           ContractPolicy.Compile(nvs.slots.active.tuple.contract), !nvs.paused, map[],
           false, None, 0, 0, Waiting, [], [])
  }

  lemma RebootIsBooted(nvs: Nvs, files: Files)
    requires WellOrdered(nvs.slots)
    ensures Booted(Rebooted(nvs, files))
  {
    hide ContractPolicy.Compile;
  }

  /** The restart an activation asks for reaches the machine's next state, from the store and the files alone. */
  lemma RestartReachesNextState(was: Device, c: Command, f: ActivationFaults, now: Device)
    requires ActivationProcessed(was, c, true, f, now, true)
    ensures AfterActivation(was, c, true, f) ==
            Rebooted(now.nvs, now.files).(accepted := was.accepted, processed := was.processed + [c])
    ensures WellOrdered(now.nvs.slots) ==> Booted(Rebooted(now.nvs, now.files))
  {
    hide ContractPolicy.Compile, Promoted;
    if WellOrdered(now.nvs.slots) {
      RebootIsBooted(now.nvs, now.files);
    }
  }

  /** The trace leads from the taken command to these invocations in flight and this phase, and changes nothing else. */
  ghost predicate DrainReached(sha256: seq<Byte> -> string, taken: Device, trace: seq<Action>, admitted: map<nat, int>, phase: Phase) {
    Exec(sha256, taken, trace) == Some(taken.(inFlight := admitted, phase := phase))
  }

  function AfterPoll(polls: nat): Phase {
    if polls + 1 < DRAIN_ATTEMPTS then Draining(polls + 1) else Working(false)
  }

  /** An unsuccessful poll and the completions during the delay after it. */
  lemma PollAndDelay(sha256: seq<Byte> -> string, taken: Device, trace: seq<Action>, admitted: map<nat, int>, polls: nat, done: set<nat>)
    returns (longer: seq<Action>)
    requires DrainReached(sha256, taken, trace, admitted, Draining(polls)) && admitted.Keys != {}
    ensures DrainReached(sha256, taken, longer, admitted - done, AfterPoll(polls))
  {
    hide Do;
    var polled := taken.(inFlight := admitted, phase := AfterPoll(polls));
    FailedPoll(sha256, taken, trace, admitted, polls);
    var completions := Completions(sha256, polled, done);
    ExecAppend(sha256, taken, trace + [Poll], completions);
    longer := trace + [Poll] + completions;
    hide Exec;
  }

  lemma FailedPoll(sha256: seq<Byte> -> string, taken: Device, trace: seq<Action>, admitted: map<nat, int>, polls: nat)
    requires DrainReached(sha256, taken, trace, admitted, Draining(polls)) && admitted.Keys != {}
    ensures DrainReached(sha256, taken, trace + [Poll], admitted, AfterPoll(polls))
  {
    ExecLast(sha256, taken, trace, Poll);
    hide Exec;
  }

  lemma LastPoll(sha256: seq<Byte> -> string, taken: Device, trace: seq<Action>, admitted: map<nat, int>, polls: nat)
    requires DrainReached(sha256, taken, trace, admitted, Draining(polls)) && admitted.Keys == {}
    ensures admitted == map[] && DrainReached(sha256, taken, trace + [Poll], map[], Working(true))
  {
    ExecLast(sha256, taken, trace, Poll);
    hide Exec;
  }

  lemma NoPollYet(sha256: seq<Byte> -> string, taken: Device)
    requires taken.phase == Draining(0)
    ensures DrainReached(sha256, taken, [], taken.inFlight, Draining(0))
  {
  }

  /** The polling loop, over the invocations still admitted. */
  method PollUntilDrained(ghost sha256: seq<Byte> -> string, ghost taken: Device, before: map<nat, int>, completing: nat -> set<nat>)
    returns (admitted: map<nat, int>, drained: bool, ghost trace: seq<Action>)
    requires taken.inFlight == before && taken.phase == Draining(0)
    ensures drained <==> Remaining(before.Keys, completing, DRAIN_ATTEMPTS - 1) == {}
    ensures drained ==> admitted == map[]
    ensures DrainReached(sha256, taken, trace, admitted, Working(drained))
  {
    hide DrainReached;
    admitted, trace := before, [];
    ghost var phase := Draining(0);
    NoPollYet(sha256, taken);
    for attempt := 0 to DRAIN_ATTEMPTS
      invariant admitted.Keys == Remaining(before.Keys, completing, attempt)
      invariant attempt > 0 ==> Remaining(before.Keys, completing, attempt - 1) != {}
      invariant phase == (if attempt < DRAIN_ATTEMPTS then Draining(attempt) else Working(false))
      invariant DrainReached(sha256, taken, trace, admitted, phase)
    {
      if |admitted.Keys| == 0 {
        RemainingShrinks(before.Keys, completing, attempt, DRAIN_ATTEMPTS - 1);
        LastPoll(sha256, taken, trace, admitted, attempt);
        return admitted, true, trace + [Poll];
      }
      trace := PollAndDelay(sha256, taken, trace, admitted, attempt, completing(attempt));
      phase := AfterPoll(attempt);
      admitted := admitted - completing(attempt);
    }
    drained := false;
  }

  /** Where the worker's work on its command leads. */
  function Worked(sha256: seq<Byte> -> string, d: Device, stage: StageFaults, activation: ActivationFaults): Device
    requires d.command.Some? && d.phase.Working?
  {
    var c := d.command.value;
    if c.StageRelease? then AfterStage(sha256, d, c, d.phase.drained, stage) else AfterActivation(d, c, d.phase.drained, activation)
  }

  lemma TakeAndDrain(sha256: seq<Byte> -> string, d: Device, polls: seq<Action>, drained: Device)
    requires d.phase == Waiting && d.notified > 0 && d.command.Some?
    requires Exec(sha256, d.(notified := 0, gateOpen := false, phase := Draining(0)), polls) == Some(drained)
    ensures Exec(sha256, d, [Take] + polls) == Some(drained)
  {
    ExecOne(sha256, d, Take);
    hide Exec;
    ExecAppend(sha256, d, [Take], polls);
  }

  lemma ThenWork(sha256: seq<Byte> -> string, start: Device, trace: seq<Action>, d: Device, stage: StageFaults, activation: ActivationFaults)
    requires Exec(sha256, start, trace) == Some(d) && d.phase.Working? && d.command.Some?
    ensures Exec(sha256, start, trace + [Work(stage, activation)]) == Some(Worked(sha256, d, stage, activation))
  {
    ExecLast(sha256, start, trace, Work(stage, activation));
    hide Exec, AfterStage, AfterActivation;
  }

  lemma RestartedWork(sha256: seq<Byte> -> string, was: Device, stage: StageFaults, activation: ActivationFaults, now: Device)
    requires was.command.Some? && was.command.value.Activate? && was.phase == Working(true)
    requires ActivationProcessed(was, was.command.value, true, activation, now, true)
    ensures RestartsInto(Some(Worked(sha256, was, stage, activation)), now)
  {
    RestartReachesNextState(was, was.command.value, activation, now);
    hide AfterActivation, Rebooted;
  }

  /** Restarting from this store and these files reaches the machine's state, whose history the restart forgets. */
  ghost predicate RestartsInto(machine: Option<Device>, now: Device) {
    machine.Some? && machine.value ==
      Rebooted(now.nvs, now.files).(accepted := machine.value.accepted, processed := now.processed)
  }

  class Manager {
    const sha256: seq<Byte> -> string
    const store: FileStore

    // the persistent store
    var mode: Mode
    var activeRelease: Release
    var stagedRelease: Option<Release>
    var admissionPaused: bool

    // the running firmware
    const localRuntime: bool
    var loaded: Option<seq<Byte>>
    var activePolicy: ContractPolicy.Policy
    var gateOpen: bool
    var admitted: map<nat, int>

    // the transition worker
    var transitionInProgress: bool
    var transition: Option<Command>
    var gives: nat
    var notified: nat
    ghost var phase: Phase
    ghost var accepted: seq<Command>
    ghost var processed: seq<Command>
    var restarting: bool

    ghost function View(): Device
      reads this, store
    {
      Device(Nvs(mode, Slots(activeRelease, stagedRelease), admissionPaused), store.files,
             localRuntime, loaded, activePolicy, gateOpen, admitted,
             transitionInProgress, transition, gives, notified, phase, accepted, processed)
    }

    constructor (sha256: seq<Byte> -> string, store: FileStore, nvs: Nvs)
      ensures this.store == store && this.sha256 == sha256 && !restarting
      ensures View() == Rebooted(nvs, store.files)
    {
      this.sha256, this.store := sha256, store;
      mode, activeRelease, stagedRelease, admissionPaused := nvs.mode, nvs.slots.active, nvs.slots.staged, nvs.paused;
      localRuntime := nvs.mode == Local;
      loaded := BootModule(nvs.mode, store.files);
      activePolicy := ContractPolicy.Compile(nvs.slots.active.tuple.contract);
      gateOpen, admitted := !nvs.paused, map[];
      transitionInProgress, transition, gives, notified := false, None, 0, 0;
      phase, accepted, processed := Waiting, [], [];
      restarting := false;
    }

    method StageAsync(id: string, url: string, release: Release, f: Access) returns (reply: Reply)
      modifies this
      ensures reply == StageReply(old(View()), id, url, release, f)
      ensures View() == if reply == Accepted then Claim(old(View()), StageRelease(id, url, release)) else old(View())
    {
      hide ValidRelease, SameSummary;
      if |id| == 0 || |url| == 0 || !ValidRelease(release) {
        return InvalidArgument;
      }
      if !f.summaryRead {
        return StoreError;
      }
      if release.generation < activeRelease.generation
         || (stagedRelease.Some? && release.generation < stagedRelease.value.generation)
      {
        return StaleVersion;
      }
      var activeGenerationMatches := activeRelease.generation == release.generation;
      var stagedGenerationMatches := stagedRelease.Some? && stagedRelease.value.generation == release.generation;
      if activeGenerationMatches || stagedGenerationMatches {
        if (activeGenerationMatches && !SameSummary(activeRelease, release))
           || (stagedGenerationMatches && !SameSummary(stagedRelease.value, release))
        {
          return InvalidState;
        }
        if !f.detailRead {
          return StoreError;
        }
        if (activeGenerationMatches && activeRelease != release)
           || (stagedGenerationMatches && stagedRelease.value != release)
        {
          return InvalidState;
        }
        return Duplicate;
      }
      if !f.worker {
        return NoMemory;
      }
      if transitionInProgress {
        var duplicate := transition.Some? && transition.value.StageRelease? && transition.value.id == id
                         && transition.value.release == release;
        return if duplicate then Duplicate else InvalidState;
      }
      if !f.copied {
        return NoMemory;
      }
      transition := Some(StageRelease(id, url, release));
      transitionInProgress := true;
      gives := gives + 1;
      accepted := accepted + [StageRelease(id, url, release)];
      return Accepted;
    }

    method ActivateAsync(id: string, generation: int, target: Mode, f: Access) returns (reply: Reply)
      modifies this
      ensures reply == ActivateReply(old(View()), id, generation, target, f)
      ensures View() == if reply == Accepted then Claim(old(View()), Activate(id, generation, target)) else old(View())
    {
      hide ValidRelease, ActiveMatches, StagedMatches;
      if |id| == 0 || generation <= 0 {
        return InvalidArgument;
      }
      if !f.detailRead {
        return StoreError;
      }
      var slots := Slots(activeRelease, stagedRelease);
      var activeMatches, stagedMatches := ActiveMatches(slots, generation), StagedMatches(slots, generation);
      if activeMatches && mode == target {
        return Duplicate;
      }
      if !activeMatches && !stagedMatches {
        return InvalidState;
      }
      if !f.worker {
        return NoMemory;
      }
      if transitionInProgress {
        return if transition == Some(Activate(id, generation, target)) then Duplicate else InvalidState;
      }
      transition := Some(Activate(id, generation, target));
      transitionInProgress := true;
      gives := gives + 1;
      accepted := accepted + [Activate(id, generation, target)];
      return Accepted;
    }

    /**
     Closes the gate and polls while invocations complete; it succeeds exactly when every admitted invocation
     completes within the 99 delays. Together with the notification just taken it is the machine's Take and a
     run of its polls and completions.
     */
    method CloseAdmissionAndDrain(completing: nat -> set<nat>) returns (drained: bool, ghost trace: seq<Action>)
      requires transition.Some?
      modifies this`gateOpen, this`admitted, this`phase
      ensures drained <==> Remaining(old(admitted).Keys, completing, DRAIN_ATTEMPTS - 1) == {}
      ensures phase == Working(drained) && (drained ==> admitted == map[]) && !gateOpen
      ensures Exec(sha256, old(View()).(gateOpen := false, phase := Draining(0)), trace) == Some(View())
    {
      hide Exec;
      gateOpen := false;
      phase := Draining(0);
      ghost var taken := View();
      admitted, drained, trace := PollUntilDrained(sha256, taken, admitted, completing);
      phase := Working(drained);
      assert View() == taken.(inFlight := admitted, phase := phase);
    }

    /** The worker's handling of a stage command, after the drain attempt. */
    method ProcessStage(drained: bool, f: StageFaults)
      requires transition.Some? && transition.value.StageRelease?
      modifies this`stagedRelease, this`processed, this`phase, store
      ensures View() == AfterStage(sha256, old(View()), old(transition).value, drained, f) && phase == Clearing
    {
      var release := transition.value.release;
      var ok := drained;
      if ok {
        ok := store.PullBlob(f.pull, f.replace, f.temporaryRemoved);
      }
      if ok && !f.digestRead {
        ok := false;
      }
      if ok && (Staged !in store.files || !SameHex(sha256(store.files[Staged]), release.tuple.digest)) {
        ok := false;
      }
      if ok && !f.metadataWritten {
        ok := false;
      }
      if ok {
        stagedRelease := Some(release);
      } else {
        store.files := Remove(store.files, Staged, f.stagedRemoved);
      }
      processed := processed + [transition.value];
      phase := Clearing;
    }

    /** Compiles the staged contract, reloads, promotes and commits the staged release, stopping at the first failure. */
    method ReplaceRelease(target: Mode, f: ActivationFaults) returns (ok: bool)
      requires stagedRelease.Some? && Replaces(View().nvs.slots, stagedRelease.value.generation) && f.stateRead
      modifies this`loaded, this`activeRelease, this`stagedRelease, this`activePolicy, store
      ensures var was, g := old(View()), old(stagedRelease).value.generation;
              var o := ActivateWork(was, g, target, f);
              && ok == Commits(was, g, target, f)
              && store.files == o.files && loaded == o.loaded && activePolicy == o.policy
              && Slots(activeRelease, stagedRelease) == o.nvs.slots
    {
      hide ContractPolicy.Compile, Promoted, ValidRelease;
      var stagedPolicy := ContractPolicy.CompileContract(stagedRelease.value.tuple.contract);
      if !stagedPolicy.valid {
        return false;
      }
      if target == Local && localRuntime {
        if !(Staged in store.files && f.reloaded) {
          return false;
        }
        loaded := Some(store.files[Staged]);
      }
      ok := store.PromoteStagedFile(f.promote);
      if !ok {
        return;
      }
      if !f.committed {
        return false;
      }
      activeRelease := stagedRelease.value;
      stagedRelease := None;
      activePolicy := stagedPolicy;
      return true;
    }

    /** The drained part of an activation: find the release, replace it if it is the staged one, then record the activation. */
    method ActivateRelease(generation: int, target: Mode, f: ActivationFaults) returns (ok: bool)
      modifies this`loaded, this`activeRelease, this`stagedRelease, this`activePolicy, this`mode, this`admissionPaused, store
      ensures var o := ActivateWork(old(View()), generation, target, f);
              ok == o.ok && View() == Apply(old(View()), o)
    {
      hide ContractPolicy.Compile, Promoted, ActivateWork, Commits;
      ActivationOutline(View(), generation, target, f);
      ok := f.stateRead;
      var stagedMatches := stagedRelease.Some? && ValidRelease(stagedRelease.value)
                           && stagedRelease.value.generation == generation;
      var activeMatches := ValidRelease(activeRelease) && activeRelease.generation == generation;
      if ok && !stagedMatches && !activeMatches {
        return false;
      }
      if ok && stagedMatches && !activeMatches {
        ok := ReplaceRelease(target, f);
      }
      if ok {
        ok := RecordActivation(target, f);
      }
    }

    /** Stores mode and command, and unpauses what was not paused. */
    method RecordActivation(target: Mode, f: ActivationFaults) returns (ok: bool)
      modifies this`mode, this`admissionPaused
      ensures mode == (if f.modeWritten then target else old(mode)) && ok == (f.modeWritten && f.commandWritten)
      ensures admissionPaused == old(admissionPaused)
    {
      var wasPaused := admissionPaused;
      ok := f.modeWritten;
      if ok {
        mode := target;
      }
      if ok && !f.commandWritten {
        ok := false;
      }
      if ok && !wasPaused {
        admissionPaused := false;
      }
    }

    /** The worker's handling of an activation; a changed mode asks for a restart. */
    method ProcessActivation(drained: bool, f: ActivationFaults)
      requires transition.Some? && transition.value.Activate? && !restarting
      modifies this, store
      ensures ActivationProcessed(old(View()), old(transition).value, drained, f, View(), restarting) && phase == Clearing
    {
      hide ContractPolicy.Compile, ActivateWork, AfterActivation, ActivationProcessed;
      ghost var was, c := View(), transition.value;
      var previousMode := mode;
      if drained {
        var ok := ActivateRelease(transition.value.generation, transition.value.mode, f);
        restarting := ok && previousMode != transition.value.mode;
      }
      processed := processed + [transition.value];
      phase := Clearing;
      ActivationEnds(was, c, drained, f, View(), restarting);
    }

    /** The end of a transition: the claim is released. */
    method FinishTransition()
      requires phase == Clearing
      modifies this
      ensures Some(View()) == Do(sha256, old(View()), Clear) && phase == Restoring && restarting == old(restarting)
    {
      transition := None;
      transitionInProgress := false;
      phase := Restoring;
    }

    method RestorePersistedAdmission(stateRead: bool)
      requires phase == Restoring
      modifies this
      ensures Some(View()) == Do(sha256, old(View()), Restore(stateRead)) && phase == Waiting && restarting == old(restarting)
    {
      if stateRead && !admissionPaused {
        gateOpen := true;
      }
      phase := Waiting;
    }

    method PauseFunction(generation: int, read: bool, paused: bool, recorded: bool) returns (ok: bool)
      modifies this
      ensures Some(View()) == Do(sha256, old(View()), Pause(generation, read, paused))
      ensures ok <==> read && paused && recorded && generation >= activeRelease.generation
    {
      if !read {
        return false;
      }
      if generation < activeRelease.generation {
        return false;
      }
      gateOpen := false;
      if !paused {
        return false;
      }
      admissionPaused := true;
      return recorded;
    }

    method ResumeFunction(generation: int, read: bool, unpaused: bool, recorded: bool) returns (ok: bool)
      modifies this
      ensures Some(View()) == Do(sha256, old(View()), Resume(generation, read, unpaused, recorded))
      ensures ok <==> Opens(old(View()), Resume(generation, read, unpaused, recorded))
    {
      if !read {
        return false;
      }
      if generation != activeRelease.generation {
        return false;
      }
      if !unpaused {
        return false;
      }
      admissionPaused := false;
      if !recorded {
        return false;
      }
      gateOpen := true;
      return true;
    }

    /** The claimed command, after the drain attempt: the machine's Work, unless it asks for a restart. */
    method ProcessCommand(drained: bool, stage: StageFaults, activation: ActivationFaults)
      requires transition.Some? && phase == Working(drained) && !restarting
      modifies this, store
      ensures restarting ==> old(transition).value.Activate? && drained
                             && ActivationProcessed(old(View()), old(transition).value, true, activation, View(), true)
      ensures !restarting ==> View() == Worked(sha256, old(View()), stage, activation) && phase == Clearing
    {
      hide AfterStage, AfterActivation;
      if transition.value.StageRelease? {
        ProcessStage(drained, stage);
      } else {
        ProcessActivation(drained, activation);
      }
    }

    /** From the notification to the end of the work. */
    method TakeAndProcess(completing: nat -> set<nat>, stage: StageFaults, activation: ActivationFaults)
      returns (ghost trace: seq<Action>)
      requires phase == Waiting && notified > 0 && transition.Some? && !restarting
      modifies this, store
      ensures !restarting ==> Exec(sha256, old(View()), trace) == Some(View()) && phase == Clearing
      ensures restarting ==> RestartsInto(Exec(sha256, old(View()), trace), View())
    {
      hide Exec, Do, Worked, ActivationProcessed, RestartsInto, DrainReached;
      ghost var before := View();
      notified := 0;
      var drained, polls := CloseAdmissionAndDrain(completing);
      ghost var behind := View();
      TakeAndDrain(sha256, before, polls, behind);
      ProcessCommand(drained, stage, activation);
      ThenWork(sha256, before, [Take] + polls, behind, stage, activation);
      trace := [Take] + polls + [Work(stage, activation)];
      if restarting {
        RestartedWork(sha256, behind, stage, activation, View());
      }
    }

    /**
     One turn of the worker's loop, from a notification to the next wait: take the command, drain, work,
     release the claim and restore admission. It is a run of the machine's actions; a restart cuts it short
     at the state that the machine's work leads to.
     */
    method TransitionOnce(completing: nat -> set<nat>, stage: StageFaults, activation: ActivationFaults, stateRead: bool)
      returns (ghost trace: seq<Action>)
      requires phase == Waiting && notified > 0 && transition.Some? && !restarting
      modifies this, store
      ensures !restarting ==> Exec(sha256, old(View()), trace) == Some(View()) && phase == Waiting
      ensures restarting ==> RestartsInto(Exec(sha256, old(View()), trace), View())
    {
      hide Exec, Do, RestartsInto;
      ghost var before := View();
      trace := TakeAndProcess(completing, stage, activation);
      if restarting {
        return;
      }
      ExecLast(sha256, before, trace, Clear);
      FinishTransition();
      trace := trace + [Clear];
      ExecLast(sha256, before, trace, Restore(stateRead));
      RestorePersistedAdmission(stateRead);
      trace := trace + [Restore(stateRead)];
    }
  }
}
