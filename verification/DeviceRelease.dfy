/**
 The device's release machinery (sif_release.cpp over sif_state.cpp) as a state machine: command
 callbacks, the single transition worker with its drain and work phases, invocations admitted
 and completed meanwhile, and pause and resume. The scheduler's admission gate is part of the
 state; downloads and writes may fail in every combination.
 */
module DeviceRelease {
  import opened Common
  import opened ReleaseSlots
  import opened ArtifactFiles
  import ContractPolicy

  datatype Mode = Local | Edge

  datatype DeviceTuple = DeviceTuple(digest: string, identity: string, contract: ContractPolicy.Contract)

  type Release = Held<DeviceTuple>

  predicate ValidRelease(r: Release) {
    r.generation > 0 && |r.tuple.digest| == 64 && r.tuple.identity != ""
  }

  /** The persistent store: every setter commits as a whole or not at all. */
  datatype Nvs = Nvs(mode: Mode, slots: Slots<DeviceTuple>, paused: bool)

  datatype Command =
    | StageRelease(id: string, url: string, release: Release)
    | Activate(id: string, generation: int, mode: Mode)

  datatype Phase = Waiting | Draining(polls: nat) | Working(drained: bool) | Clearing | Restoring

  const DRAIN_ATTEMPTS := 100

  datatype Device = Device(
    nvs: Nvs, files: Files,
    localRuntime: bool,                  // the mode the firmware booted into
    loaded: Option<seq<Byte>>,           // file-backed module of the local runtime
    policy: ContractPolicy.Policy,       // compiled contract that host calls are checked against
    gateOpen: bool, inFlight: map<nat, int>,
    busy: bool, command: Option<Command>,
    gives: nat, notified: nat, phase: Phase,
    accepted: seq<Command>, processed: seq<Command>)

  // ------------------------------------------------- digests

  function LowerChar(c: char): char {
    if 'A' <= c <= 'Z' then (c as int + 32) as char else c
  }

  function Lower(s: string): string {
    seq(|s|, i requires 0 <= i < |s| => LowerChar(s[i]))
  }

  /** Digests are compared without regard to case. */
  predicate SameHex(a: string, b: string) {
    Lower(a) == Lower(b)
  }

  /** Two texts are the same digest exactly when they are equal letter by letter, up to the case of an ASCII letter. */
  lemma SameHexIgnoresCaseOnly(a: string, b: string)
    ensures SameHex(a, b) <==> |a| == |b| && forall i :: 0 <= i < |a| ==> SameLetter(a[i], b[i])
  {
    if |a| == |b| && forall i :: 0 <= i < |a| ==> SameLetter(a[i], b[i]) {
      assert Lower(a) == Lower(b);
    }
    if SameHex(a, b) {
      assert |Lower(a)| == |Lower(b)|;
      forall i | 0 <= i < |a| ensures SameLetter(a[i], b[i]) {
        assert Lower(a)[i] == Lower(b)[i];
      }
    }
  }

  predicate SameLetter(x: char, y: char) {
    || x == y
    || ('A' <= x <= 'Z' && y as int == x as int + 32)
    || ('A' <= y <= 'Z' && x as int == y as int + 32)
  }

  // ------------------------------------------------- staging

  datatype StageFaults = StageFaults(pull: Pull, replace: ReplaceFaults, temporaryRemoved: bool,
                                     digestRead: bool, metadataWritten: bool, stagedRemoved: bool)

  /** Whether the downloaded file may be recorded as the staged release. */
  predicate StageAccepted(sha256: seq<Byte> -> string, files: Files, r: Release, drained: bool, f: StageFaults)
  {
    var pulled := Pulled(files, f.pull, f.replace, f.temporaryRemoved);
    && drained && pulled.1 && f.digestRead
    && Staged in pulled.0 && SameHex(sha256(pulled.0[Staged]), r.tuple.digest)
    && f.metadataWritten
  }

  /** The store and the files after the worker processed a stage command. */
  function StageWork(sha256: seq<Byte> -> string, nvs: Nvs, files: Files, r: Release, drained: bool, f: StageFaults): (Nvs, Files)
  {
    var pulled := if drained then Pulled(files, f.pull, f.replace, f.temporaryRemoved).0 else files;
    if StageAccepted(sha256, files, r, drained, f)
    then (nvs.(slots := Stage(nvs.slots, r)), pulled)
    else (nvs, Remove(pulled, Staged, f.stagedRemoved))
  }

  // ------------------------------------------------- activation

  datatype ActivationFaults = ActivationFaults(stateRead: bool, reloaded: bool, promote: PromoteFaults,
                                               committed: bool, modeWritten: bool, commandWritten: bool)

  datatype Outcome = Outcome(nvs: Nvs, files: Files, loaded: Option<seq<Byte>>, policy: ContractPolicy.Policy, ok: bool)

  predicate StagedMatches(s: Slots<DeviceTuple>, g: int) {
    s.staged.Some? && s.staged.value.generation == g && ValidRelease(s.staged.value)
  }

  predicate ActiveMatches(s: Slots<DeviceTuple>, g: int) {
    s.active.generation == g && ValidRelease(s.active)
  }

  /** The activation would replace the running release rather than only its mode. */
  predicate Replaces(s: Slots<DeviceTuple>, g: int) {
    StagedMatches(s, g) && !ActiveMatches(s, g)
  }

  /** The local runtime takes over the staged bytes before they are promoted. */
  predicate Reloads(d: Device, g: int, mode: Mode, f: ActivationFaults) {
    && f.stateRead && Replaces(d.nvs.slots, g) && ContractPolicy.Compile(d.nvs.slots.staged.value.tuple.contract).valid
    && mode == Local && d.localRuntime && Staged in d.files && f.reloaded
  }

  /** The staged file becomes the active one. */
  predicate Promotes(d: Device, g: int, mode: Mode, f: ActivationFaults) {
    && f.stateRead && Replaces(d.nvs.slots, g) && ContractPolicy.Compile(d.nvs.slots.staged.value.tuple.contract).valid
    && (mode == Local && d.localRuntime ==> Staged in d.files && f.reloaded)
    && Promoted(d.files, f.promote).1
  }

  /** The staged release becomes the active one. */
  predicate Commits(d: Device, g: int, mode: Mode, f: ActivationFaults) {
    Promotes(d, g, mode, f) && f.committed
  }

  /** What the worker's activation leaves behind, given that the drain succeeded. */
  function ActivateWork(d: Device, g: int, mode: Mode, f: ActivationFaults): Outcome
  {
    var slots := d.nvs.slots;
    var attempts :=
      && f.stateRead && Replaces(slots, g) && ContractPolicy.Compile(slots.staged.value.tuple.contract).valid
      && (mode == Local && d.localRuntime ==> Staged in d.files && f.reloaded);
    var loaded := if Reloads(d, g, mode, f) then Some(d.files[Staged]) else d.loaded;
    var files := if attempts then Promoted(d.files, f.promote).0 else d.files;
    var commits := Commits(d, g, mode, f);
    var reached := f.stateRead && (if Replaces(slots, g) then commits else ActiveMatches(slots, g));
    var nvs := Nvs(if reached && f.modeWritten then mode else d.nvs.mode,
                   if commits then Promote(slots) else slots,
                   d.nvs.paused);
    var policy := if commits then ContractPolicy.Compile(slots.staged.value.tuple.contract) else d.policy;
    Outcome(nvs, files, loaded, policy, reached && f.modeWritten && f.commandWritten)
  }

  /** The module a boot into local mode takes from the active file. */
  function BootModule(mode: Mode, files: Files): Option<seq<Byte>> {
    if mode == Local && Active in files then Some(files[Active]) else None
  }

  /** The state after the worker's activation; a changed mode restarts the firmware. */
  function AfterActivation(d: Device, c: Command, drained: bool, f: ActivationFaults): Device
    requires c.Activate?
  {
    var done := d.processed + [c];
    if !drained then d.(processed := done, phase := Clearing)
    else
      var o := ActivateWork(d, c.generation, c.mode, f);
      if o.ok && d.nvs.mode != c.mode then
        Device(o.nvs, o.files, c.mode == Local, BootModule(c.mode, o.files),
               ContractPolicy.Compile(o.nvs.slots.active.tuple.contract),
               !o.nvs.paused, map[], false, None, 0, 0, Waiting, d.accepted, done)
      else
        d.(nvs := o.nvs, files := o.files, processed := done, loaded := o.loaded, policy := o.policy, phase := Clearing)
  }

  function AfterStage(sha256: seq<Byte> -> string, d: Device, c: Command, drained: bool, f: StageFaults): Device
    requires c.StageRelease?
  {
    var work := StageWork(sha256, d.nvs, d.files, c.release, drained, f);
    d.(nvs := work.0, files := work.1, processed := d.processed + [c], phase := Clearing)
  }

  // ------------------------------------------------- command callbacks

  datatype Reply = Accepted | Duplicate | InvalidArgument | StaleVersion | InvalidState | StoreError | NoMemory

  /** What a callback finds: readable releases without and with their contracts, a worker, and room for the arguments. */
  datatype Access = Access(summaryRead: bool, detailRead: bool, worker: bool, copied: bool)

  /** Both name the same bytes under the same identity, whatever their contracts. */
  predicate SameSummary(a: Release, b: Release) {
    a.tuple.digest == b.tuple.digest && a.tuple.identity == b.tuple.identity
  }

  function StageReply(d: Device, id: string, url: string, release: Release, f: Access): Reply
  {
    var active, staged := d.nvs.slots.active, d.nvs.slots.staged;
    var activeMatches := release.generation == active.generation;
    var stagedMatches := staged.Some? && staged.value.generation == release.generation;
    if id == "" || url == "" || !ValidRelease(release) then InvalidArgument
    else if !f.summaryRead then StoreError
    else if release.generation < active.generation
            || (staged.Some? && release.generation < staged.value.generation) then StaleVersion
    else if activeMatches || stagedMatches then
      if (activeMatches && !SameSummary(active, release)) || (stagedMatches && !SameSummary(staged.value, release))
      then InvalidState
      else if !f.detailRead then StoreError
      else if (activeMatches && release != active) || (stagedMatches && release != staged.value) then InvalidState
      else Duplicate
    else if !f.worker then NoMemory
    else if d.busy then
      if d.command.Some? && d.command.value.StageRelease? && d.command.value.id == id && d.command.value.release == release
      then Duplicate else InvalidState
    else if !f.copied then NoMemory
    else Accepted
  }

  function ActivateReply(d: Device, id: string, g: int, mode: Mode, f: Access): Reply
  {
    if id == "" || g <= 0 then InvalidArgument
    else if !f.detailRead then StoreError
    else if ActiveMatches(d.nvs.slots, g) && d.nvs.mode == mode then Duplicate
    else if !ActiveMatches(d.nvs.slots, g) && !StagedMatches(d.nvs.slots, g) then InvalidState
    else if !f.worker then NoMemory
    else if d.busy then
      if d.command == Some(Activate(id, g, mode)) then Duplicate else InvalidState
    else Accepted
  }

  /**
   With a readable store and room for the command, a stage command is accepted exactly when it is valid,
   newer than everything held, and the worker is idle; it is a duplicate exactly of the newest held release.
   */
  lemma StageAcceptedExactlyWhenFresh(d: Device, id: string, url: string, r: Release, f: Access)
    ensures StageReply(d, id, url, r, f) == Accepted <==>
            && id != "" && url != "" && ValidRelease(r) && Fresh(d.nvs.slots, r) && !d.busy
            && f.summaryRead && f.worker && f.copied
    ensures WellOrdered(d.nvs.slots) && id != "" && url != "" && ValidRelease(r) && !d.busy && f.summaryRead && f.detailRead ==>
            (StageReply(d, id, url, r, f) == Duplicate <==> Holds(d.nvs.slots, r) && r.generation == Top(d.nvs.slots))
  {
    hide ValidRelease;
  }

  lemma ActivationAcceptedOnlyWhenIdle(d: Device, id: string, g: int, mode: Mode, f: Access)
    ensures ActivateReply(d, id, g, mode, f) == Accepted <==>
            && id != "" && g > 0 && !d.busy && f.detailRead && f.worker
            && (ActiveMatches(d.nvs.slots, g) || StagedMatches(d.nvs.slots, g))
            && !(ActiveMatches(d.nvs.slots, g) && d.nvs.mode == mode)
  {
    hide ValidRelease;
  }

  function Claim(d: Device, c: Command): Device {
    d.(busy := true, command := Some(c), gives := d.gives + 1, accepted := d.accepted + [c])
  }

  // ------------------------------------------------- the machine

  datatype Action =
    | OnCommand(command: Command, access: Access)   // a control message reaches its callback
    | Give                                     // the callback notifies the worker it claimed
    | Take | Poll | Work(stage: StageFaults, activation: ActivationFaults) | Clear | Restore(stateRead: bool)
    | Admit(invocation: nat) | Complete(invocation: nat)
    | Pause(pauseGeneration: int, read: bool, paused: bool)
    | Resume(resumeGeneration: int, read: bool, unpaused: bool, recorded: bool)

  /** The effect of one action, or None when it cannot happen now. */
  function Do(sha256: seq<Byte> -> string, d: Device, a: Action): Option<Device>
  {
    match a
    case OnCommand(c, f) =>
      var reply := if c.StageRelease? then StageReply(d, c.id, c.url, c.release, f) else ActivateReply(d, c.id, c.generation, c.mode, f);
      Some(if reply == Accepted then Claim(d, c) else d)
    case Give =>
      if d.gives == 0 then None else Some(d.(gives := d.gives - 1, notified := d.notified + 1))
    case Take =>
      if d.phase != Waiting || d.notified == 0 then None
      else if d.command == None then Some(d.(notified := 0, phase := Clearing))
      else Some(d.(notified := 0, gateOpen := false, phase := Draining(0)))
    case Poll =>
      if !d.phase.Draining? then None
      else if d.inFlight == map[] then Some(d.(phase := Working(true)))
      else if d.phase.polls + 1 >= DRAIN_ATTEMPTS then Some(d.(phase := Working(false)))
      else Some(d.(phase := Draining(d.phase.polls + 1)))
    case Work(stage, activation) =>
      if !d.phase.Working? || d.command == None then None
      else if d.command.value.StageRelease?
        then Some(AfterStage(sha256, d, d.command.value, d.phase.drained, stage))
        else Some(AfterActivation(d, d.command.value, d.phase.drained, activation))
    case Clear =>
      if d.phase != Clearing then None else Some(d.(command := None, busy := false, phase := Restoring))
    case Restore(stateRead) =>
      if d.phase != Restoring then None
      else Some(d.(gateOpen := d.gateOpen || (stateRead && !d.nvs.paused), phase := Waiting))
    case Admit(i) =>
      if !d.gateOpen || i in d.inFlight then None
      else Some(d.(inFlight := d.inFlight[i := d.nvs.slots.active.generation]))
    case Complete(i) =>
      if i !in d.inFlight then None else Some(d.(inFlight := d.inFlight - {i}))
    case Pause(g, read, paused) =>
      if !read || g < d.nvs.slots.active.generation then Some(d)
      else Some(d.(gateOpen := false, nvs := d.nvs.(paused := d.nvs.paused || paused)))
    case Resume(g, read, unpaused, recorded) =>
      if !read || g != d.nvs.slots.active.generation || !unpaused then Some(d)
      else Some(d.(gateOpen := d.gateOpen || recorded, nvs := d.nvs.(paused := false)))
  }

  /** A resume of the active generation opens the gate at once, unless the store fails it. */
  predicate Opens(d: Device, a: Action) {
    a.Resume? && a.read && a.resumeGeneration == d.nvs.slots.active.generation && a.unpaused && a.recorded
  }

  /** An opening resume must not land while the worker relies on the gate being closed. */
  predicate Timely(d: Device, a: Action) {
    Opens(d, a) ==> !d.phase.Draining? && !d.phase.Working?
  }

  function Exec(sha256: seq<Byte> -> string, d: Device, actions: seq<Action>): Option<Device>
  {
    if actions == [] then Some(d)
    else match Exec(sha256, d, actions[..|actions| - 1])
      case None => None
      case Some(before) => Do(sha256, before, actions[|actions| - 1])
  }

  ghost predicate AllTimely(sha256: seq<Byte> -> string, d: Device, actions: seq<Action>)
  {
    actions == [] ||
    var init := actions[..|actions| - 1];
    && AllTimely(sha256, d, init)
    && (Exec(sha256, d, init).Some? ==> Timely(Exec(sha256, d, init).value, actions[|actions| - 1]))
  }

  /** The device after boot, with nothing in progress. */
  ghost predicate Booted(d: Device) {
    && WellOrdered(d.nvs.slots) && d.policy == ContractPolicy.Compile(d.nvs.slots.active.tuple.contract)
    && d.inFlight == map[] && !d.busy && d.command == None && d.gives == 0 && d.notified == 0
    && d.phase == Waiting && d.accepted == [] && d.processed == []
    && d.localRuntime == (d.nvs.mode == Local)
  }

  lemma ExecOne(sha256: seq<Byte> -> string, d: Device, a: Action)
    ensures Exec(sha256, d, [a]) == Do(sha256, d, a)
  {
    assert [a][..0] == [];
    hide Do;
  }

  lemma ExecLast(sha256: seq<Byte> -> string, d: Device, actions: seq<Action>, a: Action)
    requires Exec(sha256, d, actions).Some?
    ensures Exec(sha256, d, actions + [a]) == Do(sha256, Exec(sha256, d, actions).value, a)
  {
    assert (actions + [a])[..|actions|] == actions;
    hide Do;
  }

  lemma {:induction false} ExecAppend(sha256: seq<Byte> -> string, d: Device, a: seq<Action>, b: seq<Action>)
    requires Exec(sha256, d, a).Some?
    ensures Exec(sha256, d, a + b) == Exec(sha256, Exec(sha256, d, a).value, b)
  {
    hide Do;
    if b == [] {
      assert a + b == a;
    } else {
      assert (a + b)[..|a + b| - 1] == a + b[..|b| - 1];
      ExecAppend(sha256, d, a, b[..|b| - 1]);
    }
  }

  predicate IsComplete(a: Action) { a.Complete? }

  /** Any set of invocations can complete, one after the other. */
  lemma Completions(sha256: seq<Byte> -> string, d: Device, done: set<nat>) returns (actions: seq<Action>)
    ensures Exec(sha256, d, actions) == Some(d.(inFlight := d.inFlight - done))
    ensures forall k :: 0 <= k < |actions| ==> IsComplete(actions[k])
  {
    actions := [];
    var rest := done * d.inFlight.Keys;
    assert d.inFlight - {} == d.inFlight && d == d.(inFlight := d.inFlight - {});
    ghost var gone: set<nat> := {};
    while rest != {}
      invariant gone + rest == done * d.inFlight.Keys && gone !! rest
      invariant Exec(sha256, d, actions) == Some(d.(inFlight := d.inFlight - gone))
      invariant forall k :: 0 <= k < |actions| ==> IsComplete(actions[k])
      decreases rest
    {
      var i :| i in rest;
      ExecLast(sha256, d, actions, Complete(i));
      assert d.inFlight - gone - {i} == d.inFlight - (gone + {i});
      actions, rest, gone := actions + [Complete(i)], rest - {i}, gone + {i};
    }
    assert d.inFlight - gone == d.inFlight - done;
  }

  // ------------------------------------------------- exactly-once processing

  function InWorker(p: Phase): nat {
    if p.Draining? || p.Working? || p.Clearing? then 1 else 0
  }

  /** The command that was accepted and not processed yet. */
  function Pending(d: Device): Option<Command> {
    if d.phase == Clearing then None else d.command
  }

  /** One claim at a time, one token for it, and the accepted commands are the processed ones plus the pending one. */
  ghost predicate ExactlyOnce(d: Device) {
    && (d.busy <==> d.command.Some?)
    && d.gives + d.notified + InWorker(d.phase) == (if d.busy then 1 else 0)
    && d.accepted == (if Pending(d).Some? then d.processed + [Pending(d).value] else d.processed)
  }

  lemma WorkKeepsExactlyOnce(sha256: seq<Byte> -> string, d: Device, c: Command, stage: StageFaults, activation: ActivationFaults)
    requires ExactlyOnce(d) && d.phase.Working? && d.command == Some(c)
    ensures c.StageRelease? ==> ExactlyOnce(AfterStage(sha256, d, c, d.phase.drained, stage))
    ensures c.Activate? ==> ExactlyOnce(AfterActivation(d, c, d.phase.drained, activation))
  {
    hide StageWork, ActivateWork, ContractPolicy.Compile;
  }

  lemma DoKeepsExactlyOnce(sha256: seq<Byte> -> string, d: Device, a: Action)
    requires ExactlyOnce(d) && Do(sha256, d, a).Some?
    ensures ExactlyOnce(Do(sha256, d, a).value)
  {
    if a.OnCommand? {
      if a.command.StageRelease? {
        StageAcceptedExactlyWhenFresh(d, a.command.id, a.command.url, a.command.release, a.access);
      } else {
        ActivationAcceptedOnlyWhenIdle(d, a.command.id, a.command.generation, a.command.mode, a.access);
      }
    }
    if a.Work? && d.phase.Working? {
      WorkKeepsExactlyOnce(sha256, d, d.command.value, a.stage, a.activation);
    }
    hide AfterStage, AfterActivation, StageReply, ActivateReply, Fresh, ValidRelease, StagedMatches, ActiveMatches;
  }

  lemma {:induction false} ExecKeepsExactlyOnce(sha256: seq<Byte> -> string, d: Device, actions: seq<Action>)
    requires ExactlyOnce(d) && Exec(sha256, d, actions).Some?
    ensures ExactlyOnce(Exec(sha256, d, actions).value)
  {
    if actions != [] {
      ExecKeepsExactlyOnce(sha256, d, actions[..|actions| - 1]);
      DoKeepsExactlyOnce(sha256, Exec(sha256, d, actions[..|actions| - 1]).value, actions[|actions| - 1]);
    }
  }

  /**
   Over all interleavings of callbacks and the worker, the processed commands are exactly the accepted
   ones, in order and with their arguments, except for at most the one in progress; the worker is never
   woken without a command, and an accepted command always has a next step that leads to it.
   */
  lemma AcceptedCommandsAreProcessedOnce(sha256: seq<Byte> -> string, boot: Device, actions: seq<Action>)
    requires Booted(boot) && Exec(sha256, boot, actions).Some?
    ensures var d := Exec(sha256, boot, actions).value;
            && d.accepted == (if Pending(d).Some? then d.processed + [Pending(d).value] else d.processed)
            && (d.phase == Waiting && d.notified > 0 ==> Pending(d).Some?)
            && (!d.busy ==> d.accepted == d.processed && d.gives == 0 && d.notified == 0)
            && (d.busy && d.phase == Waiting ==> d.gives + d.notified == 1)
            && (Pending(d).Some? && d.phase == Waiting ==> Do(sha256, d, Give).Some? || Do(sha256, d, Take).Some?)
            && (d.phase.Draining? || d.phase.Working? ==> Pending(d).Some?)
  {
    ExecKeepsExactlyOnce(sha256, boot, actions);
    hide StageWork, ActivateWork, StageReply, ActivateReply, Exec;
  }

  // ------------------------------------------------- the drain barrier

  /** Invocations in flight all run under the active generation, and none is in flight behind a drained gate. */
  ghost predicate Barrier(d: Device) {
    && (forall i :: i in d.inFlight ==> d.inFlight[i] == d.nvs.slots.active.generation)
    && (d.phase.Draining? || d.phase.Working? ==> !d.gateOpen)
    && (d.phase == Working(true) ==> d.inFlight == map[])
  }

  /** An invocation that began under one release is still running under another. */
  ghost predicate Spans(d: Device) {
    exists i :: i in d.inFlight && d.inFlight[i] != d.nvs.slots.active.generation
  }

  /** Exactly an untimely resume opens the gate behind the barrier's back; what that can lead to is stated below. */
  lemma DoKeepsBarrier(sha256: seq<Byte> -> string, d: Device, a: Action)
    requires Barrier(d) && Do(sha256, d, a).Some?
    ensures Barrier(Do(sha256, d, a).value) <==> Timely(d, a)
  {
    if a.Work? {
      var c := d.command.value;
      WorkKeepsBarrier(sha256, d, c, a.stage, a.activation);
    }
    hide StageReply, ActivateReply, AfterStage, AfterActivation;
  }

  lemma WorkKeepsBarrier(sha256: seq<Byte> -> string, d: Device, c: Command, stage: StageFaults, activation: ActivationFaults)
    requires Barrier(d) && d.phase.Working?
    ensures c.StageRelease? ==> Barrier(AfterStage(sha256, d, c, d.phase.drained, stage))
    ensures c.Activate? ==> Barrier(AfterActivation(d, c, d.phase.drained, activation))
  {
    hide ActivateWork, StageWork;
    if c.StageRelease? {
      StagingKeepsActive(sha256, d, c, d.phase.drained, stage);
    }
  }

  lemma StagingKeepsActive(sha256: seq<Byte> -> string, d: Device, c: Command, drained: bool, f: StageFaults)
    requires c.StageRelease?
    ensures var after := AfterStage(sha256, d, c, drained, f);
            after == d.(nvs := after.nvs, files := after.files, processed := after.processed, phase := Clearing)
            && after.nvs.slots.active == d.nvs.slots.active && after.nvs.mode == d.nvs.mode
  {
    hide StageAccepted, Pulled;
  }

  /** Every invocation starts and finishes under one active generation, over every timely run. */
  lemma {:induction false} InvocationsNeverSpanARelease(sha256: seq<Byte> -> string, boot: Device, actions: seq<Action>)
    requires Booted(boot) && AllTimely(sha256, boot, actions) && Exec(sha256, boot, actions).Some?
    ensures Barrier(Exec(sha256, boot, actions).value) && !Spans(Exec(sha256, boot, actions).value)
  {
    hide Do;
    if actions != [] {
      InvocationsNeverSpanARelease(sha256, boot, actions[..|actions| - 1]);
      DoKeepsBarrier(sha256, Exec(sha256, boot, actions[..|actions| - 1]).value, actions[|actions| - 1]);
    }
  }

  // ------------------------------------------------- what an untimely resume leads to

  /** The command in the worker is still able to replace the running release. */
  predicate CanReplace(d: Device) {
    && (d.phase.Draining? || d.phase == Working(true)) && d.command.Some? && d.command.value.Activate?
    && Replaces(d.nvs.slots, d.command.value.generation)
    && ContractPolicy.Compile(d.nvs.slots.staged.value.tuple.contract).valid
    && Staged in d.files && d.files[Staged] != []
  }

  /** No invocation spans a release now, and none can without a further untimely resume. */
  ghost predicate Quiet(d: Device) {
    !Spans(d) && (Barrier(d) || !CanReplace(d))
  }

  /** What cannot replace the running release does not. */
  lemma WorkKeepsActive(d: Device, c: Command, f: ActivationFaults)
    requires d.phase.Working? && d.command == Some(c) && c.Activate? && !CanReplace(d)
    ensures var after := AfterActivation(d, c, d.phase.drained, f);
            after.nvs.slots == d.nvs.slots && (after.inFlight == d.inFlight || after.inFlight == map[])
            && !after.phase.Draining? && !after.phase.Working?
  {
    PromotionIsAllOrNothing(d.files, f.promote);
    hide Promoted, ContractPolicy.Compile, ValidRelease;
  }

  lemma DoKeepsQuiet(sha256: seq<Byte> -> string, d: Device, a: Action)
    requires Quiet(d) && ExactlyOnce(d) && Timely(d, a) && Do(sha256, d, a).Some?
    ensures Quiet(Do(sha256, d, a).value)
  {
    if Barrier(d) {
      DoKeepsBarrier(sha256, d, a);
      hide Do, CanReplace;
    } else {
      OpenWorkStaysQuiet(sha256, d, a);
    }
  }

  /** While the worker goes on behind an open gate, nothing makes its command able to replace the release. */
  lemma OpenWorkStaysQuiet(sha256: seq<Byte> -> string, d: Device, a: Action)
    requires !Spans(d) && !CanReplace(d) && (d.phase.Draining? || d.phase.Working?) && ExactlyOnce(d)
    requires Timely(d, a) && Do(sha256, d, a).Some?
    ensures Quiet(Do(sha256, d, a).value)
  {
    hide ContractPolicy.Compile, Replaces;
    if a.Work? {
      var c := d.command.value;
      if c.StageRelease? {
        StagingKeepsActive(sha256, d, c, d.phase.drained, a.stage);
        hide AfterStage, CanReplace;
      } else {
        WorkKeepsActive(d, c, a.activation);
        hide AfterActivation, CanReplace;
      }
    } else {
      hide AfterStage, AfterActivation;
      if a.OnCommand? {
        BusyAcceptsNothing(sha256, d, a);
        hide Do;
      }
    }
  }

  lemma BusyAcceptsNothing(sha256: seq<Byte> -> string, d: Device, a: Action)
    requires d.busy && a.OnCommand?
    ensures Do(sha256, d, a) == Some(d)
  {
    if a.command.StageRelease? {
      StageAcceptedExactlyWhenFresh(d, a.command.id, a.command.url, a.command.release, a.access);
    } else {
      ActivationAcceptedOnlyWhenIdle(d, a.command.id, a.command.generation, a.command.mode, a.access);
    }
    hide StageReply, ActivateReply;
  }

  lemma {:induction false} TimelyRunsStayQuiet(sha256: seq<Byte> -> string, d: Device, actions: seq<Action>)
    requires Quiet(d) && ExactlyOnce(d) && AllTimely(sha256, d, actions) && Exec(sha256, d, actions).Some?
    ensures Quiet(Exec(sha256, d, actions).value)
  {
    hide Quiet, ExactlyOnce, Do, Timely;
    if actions != [] {
      var init := actions[..|actions| - 1];
      TimelyRunsStayQuiet(sha256, d, init);
      ExecKeepsExactlyOnce(sha256, d, init);
      DoKeepsQuiet(sha256, Exec(sha256, d, init).value, actions[|actions| - 1]);
    }
  }

  lemma {:induction false} WithoutResumesIsTimely(sha256: seq<Byte> -> string, d: Device, actions: seq<Action>)
    requires forall k :: 0 <= k < |actions| ==> !actions[k].Resume?
    ensures AllTimely(sha256, d, actions)
  {
    hide Do, Exec;
    if actions != [] {
      WithoutResumesIsTimely(sha256, d, actions[..|actions| - 1]);
    }
  }

  const ONLY_MODE_LOST := ActivationFaults(true, true, PromoteFaults(true, true, true, true, true), true, false, true)

  /** Behind an open gate a command that can replace the release lets an invocation admitted after the drain span the change. */
  lemma AdmittedInvocationSpans(sha256: seq<Byte> -> string, d: Device, stage: StageFaults)
    requires d.phase == Working(true) && CanReplace(d) && d.gateOpen && d.inFlight == map[] && WellOrdered(d.nvs.slots)
    ensures var run := Exec(sha256, d, [Admit(0), Work(stage, ONLY_MODE_LOST)]); run.Some? && Spans(run.value)
  {
    var admitted := Do(sha256, d, Admit(0)).value;
    assert admitted == d.(inFlight := map[0 := d.nvs.slots.active.generation]);
    ExecOne(sha256, d, Admit(0));
    ExecLast(sha256, d, [Admit(0)], Work(stage, ONLY_MODE_LOST));
    assert [Admit(0)] + [Work(stage, ONLY_MODE_LOST)] == [Admit(0), Work(stage, ONLY_MODE_LOST)];
    PromotionIsAllOrNothing(d.files, ONLY_MODE_LOST.promote);
    hide Promoted, ContractPolicy.Compile, ValidRelease, Exec;
    var after := AfterActivation(admitted, d.command.value, true, ONLY_MODE_LOST);
    assert after.inFlight == admitted.inFlight && after.nvs.slots == Promote(d.nvs.slots);
    assert 0 in after.inFlight && after.inFlight[0] != after.nvs.slots.active.generation;
  }

  /** A drain can always be brought to its end by completions. */
  lemma DrainCanEnd(sha256: seq<Byte> -> string, d: Device) returns (actions: seq<Action>)
    requires d.phase.Draining?
    ensures Exec(sha256, d, actions) == Some(d.(inFlight := map[], phase := Working(true)))
    ensures forall k :: 0 <= k < |actions| ==> !actions[k].Resume? && !actions[k].OnCommand?
  {
    actions := Completions(sha256, d, d.inFlight.Keys);
    assert d.inFlight - d.inFlight.Keys == map[];
    ExecLast(sha256, d, actions, Poll);
    actions := actions + [Poll];
    hide Exec;
  }

  /**
   A resume that opens the gate during a drain or the work behind it can be followed, without any further
   untimely resume, by an invocation that spans a release exactly when the command in the worker can still
   replace the running release: an activation of another, staged release whose contract compiles and whose
   file can be promoted, before a failed drain gave it up.
   */
  lemma UntimelyResumeSpansExactlyWhen(sha256: seq<Byte> -> string, d: Device)
    requires Barrier(d) && ExactlyOnce(d) && WellOrdered(d.nvs.slots) && (d.phase.Draining? || d.phase.Working?)
    ensures var resumed := Do(sha256, d, Resume(d.nvs.slots.active.generation, true, true, true)).value;
            (exists actions :: AllTimely(sha256, resumed, actions) && Exec(sha256, resumed, actions).Some?
                               && Spans(Exec(sha256, resumed, actions).value))
            <==> CanReplace(d)
  {
    var resume := Resume(d.nvs.slots.active.generation, true, true, true);
    var resumed := Do(sha256, d, resume).value;
    assert resumed == d.(gateOpen := true, nvs := d.nvs.(paused := false));
    assert CanReplace(resumed) == CanReplace(d) && !Spans(resumed);
    if CanReplace(d) {
      var drain: seq<Action> := [];
      if d.phase.Draining? {
        drain := DrainCanEnd(sha256, resumed);
      }
      var drained := resumed.(inFlight := map[], phase := Working(true));
      assert Exec(sha256, resumed, drain) == Some(drained);
      SpanAfterDrain(sha256, resumed, drain, drained);
    } else {
      DoKeepsExactlyOnce(sha256, d, resume);
      forall actions | AllTimely(sha256, resumed, actions) && Exec(sha256, resumed, actions).Some?
        ensures !Spans(Exec(sha256, resumed, actions).value)
      {
        TimelyRunsStayQuiet(sha256, resumed, actions);
      }
    }
    hide Exec, AllTimely, Spans, CanReplace, Do;
  }

  lemma SpanAfterDrain(sha256: seq<Byte> -> string, d: Device, drain: seq<Action>, drained: Device)
    requires Exec(sha256, d, drain) == Some(drained) && forall k :: 0 <= k < |drain| ==> !drain[k].Resume?
    requires drained.phase == Working(true) && CanReplace(drained) && drained.gateOpen && drained.inFlight == map[]
    requires WellOrdered(drained.nvs.slots)
    ensures exists actions :: AllTimely(sha256, d, actions) && Exec(sha256, d, actions).Some? && Spans(Exec(sha256, d, actions).value)
  {
    var stage := StageFaults(NoResponse, ReplaceFaults(true, true, true, true, true, true), true, true, true, true);
    var span := [Admit(0), Work(stage, ONLY_MODE_LOST)];
    AdmittedInvocationSpans(sha256, drained, stage);
    ExecAppend(sha256, d, drain, span);
    hide Exec, Spans, CanReplace;
    WithoutResumesIsTimely(sha256, d, drain + span);
    assert Spans(Exec(sha256, d, drain + span).value);
  }

  /** A resume that lands after the drain breaks the barrier: an invocation admitted then spans the release change. */
  lemma ResumeDuringWorkBreaksBarrier(sha256: seq<Byte> -> string, d: Device, stage: StageFaults, f: ActivationFaults)
    requires Barrier(d) && WellOrdered(d.nvs.slots) && d.phase == Working(true)
    requires d.command.Some? && d.command.value.Activate? && d.command.value.mode == d.nvs.mode
    requires Commits(d, d.command.value.generation, d.nvs.mode, f)
    ensures var resume := Resume(d.nvs.slots.active.generation, true, true, true);
            var run := Exec(sha256, d, [resume, Admit(0), Work(stage, f)]);
            run.Some? && Spans(run.value)
  {
    var a1, a2, a3 := Resume(d.nvs.slots.active.generation, true, true, true), Admit(0), Work(stage, f);
    hide Promoted, ContractPolicy.Compile, ValidRelease;
    var d1 := Do(sha256, d, a1).value;
    var d2 := Do(sha256, d1, a2).value;
    var d3 := Do(sha256, d2, a3).value;
    ExecOne(sha256, d, a1);
    ExecLast(sha256, d, [a1], a2);
    ExecLast(sha256, d, [a1] + [a2], a3);
    assert [a1] + [a2] + [a3] == [a1, a2, a3];
    hide Exec;
    assert Commits(d2, d.command.value.generation, d.nvs.mode, f);
    assert d3.nvs.slots == Promote(d.nvs.slots) && d3.inFlight == d2.inFlight;
    assert 0 in d3.inFlight && d3.inFlight[0] == d.nvs.slots.active.generation;
  }

  // ------------------------------------------------- what a drain timeout leads to

  /**
   A drain that timed out leaves the release, the mode, the policy and the loaded module as they were, and
   the files too exactly when an activation was pending, nothing was staged, or the removal failed.
   */
  lemma DrainTimeoutLeavesReleaseUnchanged(sha256: seq<Byte> -> string, d: Device, stage: StageFaults, activation: ActivationFaults)
    requires d.phase == Working(false) && d.command.Some?
    ensures var after := Do(sha256, d, Work(stage, activation)).value;
            && after == d.(files := after.files, processed := d.processed + [d.command.value], phase := Clearing)
            && (after.files == d.files <==> d.command.value.Activate? || Staged !in d.files || !stage.stagedRemoved)
  {
    hide Pulled, SameHex, ActivateWork;
    if d.command.value.StageRelease? && Staged in d.files {
      assert Staged !in d.files - {Staged};
    }
  }

  /** The store still names a staged release whose bytes are gone, and no other is on its way. */
  predicate Stranded(d: Device, h: Release) {
    d.nvs.slots.staged == Some(h) && Staged !in d.files && !(Pending(d).Some? && Pending(d).value.StageRelease?)
  }

  /** What a stage command finds in the release places once its download ended; without a drain there is none. */
  function FilesAfterPull(d: Device, f: StageFaults): Files
    requires d.phase.Working?
  {
    if d.phase.drained then Pulled(d.files, f.pull, f.replace, f.temporaryRemoved).0 else d.files
  }

  /**
   A stage command strands the release staged before it exactly when it is not accepted, for whichever reason,
   and leaves no file in the staged place: because none was there, or because its removal succeeds.
   */
  lemma StageStrandsExactlyWhenRejected(sha256: seq<Byte> -> string, d: Device, h: Release, stage: StageFaults, activation: ActivationFaults)
    requires d.phase.Working? && d.command.Some? && d.command.value.StageRelease?
    requires d.nvs.slots.staged == Some(h)
    ensures Stranded(Do(sha256, d, Work(stage, activation)).value, h) <==>
            && !StageAccepted(sha256, d.files, d.command.value.release, d.phase.drained, stage)
            && (Staged !in FilesAfterPull(d, stage) || stage.stagedRemoved)
  {
    hide Pulled, SameHex;
  }

  /** So a drain that times out strands it, unless its file cannot be removed. */
  lemma TimeoutStrandsStagedRelease(sha256: seq<Byte> -> string, d: Device, h: Release, stage: StageFaults, activation: ActivationFaults)
    requires d.phase == Working(false) && d.command.Some? && d.command.value.StageRelease?
    requires d.nvs.slots.staged == Some(h)
    ensures Stranded(Do(sha256, d, Work(stage, activation)).value, h) <==> Staged !in d.files || stage.stagedRemoved
  {
    StageStrandsExactlyWhenRejected(sha256, d, h, stage, activation);
    hide Pulled, SameHex, Do;
  }

  /** A stranded release is never downloaded again: staging it once more only counts as a duplicate. */
  lemma StrandedIsOnlyADuplicate(d: Device, h: Release, id: string, url: string, f: Access)
    requires Stranded(d, h) && WellOrdered(d.nvs.slots) && ValidRelease(h)
    ensures StageReply(d, id, url, h, f) != Accepted
    ensures id != "" && url != "" && f.summaryRead && f.detailRead ==> StageReply(d, id, url, h, f) == Duplicate
  {
    hide ValidRelease;
  }

  /** The command stages a release newer than h. */
  predicate StagesNewer(a: Action, h: Release) {
    a.OnCommand? && a.command.StageRelease? && a.command.release.generation > h.generation
  }

  lemma DoKeepsStranded(sha256: seq<Byte> -> string, d: Device, h: Release, a: Action)
    requires Stranded(d, h) && ExactlyOnce(d) && !StagesNewer(a, h) && Do(sha256, d, a).Some?
    ensures Stranded(Do(sha256, d, a).value, h) && Do(sha256, d, a).value.nvs.slots == d.nvs.slots
  {
    hide ContractPolicy.Compile, ValidRelease;
    if a.OnCommand? && a.command.StageRelease? {
      StageAcceptedExactlyWhenFresh(d, a.command.id, a.command.url, a.command.release, a.access);
      hide StageReply;
    } else if a.Work? && d.phase.Working? {
      StrandedWork(d, h, d.command.value, a.activation);
      hide AfterActivation, AfterStage;
    } else {
      hide StageReply, ActivateReply, AfterStage, AfterActivation;
    }
  }

  lemma StrandedWork(d: Device, h: Release, c: Command, f: ActivationFaults)
    requires d.nvs.slots.staged == Some(h) && Staged !in d.files && d.phase.Working? && d.command == Some(c) && c.Activate?
    ensures var after := AfterActivation(d, c, d.phase.drained, f);
            && after.nvs.slots == d.nvs.slots && after.files == d.files
            && (after.phase == Clearing || (after.phase == Waiting && after.command == None))
  {
    hide ContractPolicy.Compile, ValidRelease;
  }

  /** Whatever arrives, until a newer release is staged a stranded release stays staged, without its bytes, and is never activated. */
  lemma {:induction false} StrandedUntilNewer(sha256: seq<Byte> -> string, d: Device, h: Release, actions: seq<Action>)
    requires Stranded(d, h) && ExactlyOnce(d) && Exec(sha256, d, actions).Some?
    requires forall k :: 0 <= k < |actions| ==> !StagesNewer(actions[k], h)
    ensures Stranded(Exec(sha256, d, actions).value, h) && Exec(sha256, d, actions).value.nvs.slots == d.nvs.slots
  {
    hide Stranded, ExactlyOnce, Do, StagesNewer;
    if actions != [] {
      var init := actions[..|actions| - 1];
      StrandedUntilNewer(sha256, d, h, init);
      ExecKeepsExactlyOnce(sha256, d, init);
      DoKeepsStranded(sha256, Exec(sha256, d, init).value, h, actions[|actions| - 1]);
    }
  }
}
