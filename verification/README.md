# Proofs about the release, placement and telemetry core

This project models the logic of a system that moves WebAssembly functions between a small device and an edge host, and
proves what its parts promise each other. An operator (a Kubernetes controller in Go) publishes releases and decides where a
function runs; an edge host (Go) and an ESP32 device (C++) each hold one active and at most one staged release; MQTT and HTTP
connect them. A release is a generation, the SHA-256 digest of the module, a function identity and a resource contract.

`dafny verify dfyconfig.toml` checks everything. Each file is one module:

| file | what it models |
|---|---|
| `ReleaseSlots.dfy` | the slot discipline host and device share, over whole runs |
| `EdgeHost.dfy` | upload, activation and execution on the host, as a class over its variables |
| `ArtifactFiles.dfy` | the device's rename and remove sequences, with every operation able to fail |
| `DeviceRelease.dfy`, `DeviceInvariants.dfy` | the device's release machinery as a state machine: callbacks, worker, drain, invocations, pause and resume |
| `DeviceProgress.dfy` | when a command takes effect on the device, that a newer release can always be installed, and what a pause prevents |
| `ReleaseManager.dfy` | the code of that machinery over its mutable variables, proved to be the machine's actions |
| `ReleaseProtocol.dfy` | operator, host and device together, over channels that lose, duplicate and reorder, and what every step of them keeps |
| `ReleaseAgreement.dfy` | when host and device agree, with the runs that show each condition exact, and progress from every state |
| `ReleaseSystem.dfy` | the protocol with the multi-step device in it, restarts between any two device actions included, down to the bytes of the active file |
| `SystemProgress.dfy` | that from every state of the whole system a newer release can be rolled out |
| `PlacementController.dfy` | proposal, locality, admission and readiness, fed back through the retained placement |
| `DeadlineAdmission.dfy`, `NearestRank.dfy`, `DeadlineEstimator.dfy`, `RollingWindow.dfy` | deadline admission with 32-bit costs, percentiles, and the pruned sample table |
| `DrainTracker.dfy` | the rolling battery-drain tracker |
| `StageSender.dfy` | the at-least-once sender of stage commands |
| `MqttCodec.dfy`, `ControlMessageAssembler.dfy` | the MQTT 3.1.1 packet codec (sections 1.5.3, 2.2.3 and 3.3) and the bounded fragment assembler |
| `ContractPolicy.dfy` | compilation of a resource contract into capability bits |
| `HeatIndexRoot.dfy` | the guest's Newton iteration, over the reals |

Two layers recur. Code that changes state step by step is a class or a method with a loop, proved equal to a function of the
old state; the laws over all runs are then proved about those functions. A device action that takes several steps is shown to
have either no observable effect or the effect of one command, short of what the store failed to take
(`DoRefinesCommandEffect`). That effect is what the protocol of the three components is built from, and runs of the protocol
with the multi-step device in it are proved to be runs of the protocol (`WholeRunsAreProtocolRuns`), from each of
whose states a newer release can be rolled out (`WholeSystemCanAlwaysBeRolledOut`).

A device is *on the edge* here when its stored mode is edge or the runtime it booted posts to the host. The two differ after a
mode was stored and the restart into it did not come.

## Where the code and its promises part

The model follows the code. These promises hold only under a condition, which is stated as an if-and-only-if and comes with
a concrete run or input that breaks it:

- Host and device at one generation run under one function identity exactly when all releases published for that generation
  and digest share it. The operator accepts a device as staged by generation and digest alone
  (`TuplesAgreeExactlyWhenIdentitiesDo`).
- The operator keeps the last reported digest when a report has none, and the last reported function when the reported one is
  blank, and the reported digest is that of the active file rather than of the record, so it can pair a new generation with
  another digest. The digests of host and device then agree exactly when no generation is published with two digests for one
  function. A blank identity counts as any function that may still be shown: `basic-edge-demo`, which the firmware writes
  into an empty store, or that of an older release (`DigestsAgreeExactlyWhenPublishedOnce`).
- The host trims function identities and the device does not, so an identity with blanks around it is rolled out but every edge
  invocation of it is refused (`EdgeInvocationsSucceedExactlyWhen`).
- On the device, release metadata, files and the loaded module agree unless one of four half-done updates happens: a rejected
  download that cannot be removed, a promotion that the store does not record, a reload ahead of its release, or a local runtime
  that survives the change of its release (`DoKeepsBytesExactlyWhenUndivided`).
- The runtime follows the stored mode exactly when no restart is missed, which happens when the mode was stored and the command
  id could not be (`DoKeepsRuntimeExactlyWhenRestarted`). A command's effect is all or nothing exactly when neither that happens
  nor a release change goes without its mode (`EffectIsWholeExactlyWhenNotPartial`). Either failure can leave a device on the
  edge at a release that was activated for local mode only, ahead of the host. So where they can happen, the host keeps up in
  every run exactly when no publishable release that is fit for the device is newer than one that the host could take
  (`HostKeepsUpExactlyWhenNothingNewerFollows`, `LostModeLeavesHostBehind`).
- A resume that opens the gate during a drain or the work behind it can let an invocation span a release, exactly when the
  command in the worker can still replace the running release (`UntimelyResumeSpansExactlyWhen`).
- A stage command that is not accepted, be it for a drain that timed out, a failed download, another digest or a failed
  metadata write, removes the staged file, while the metadata of the release staged before stays. That release is then
  stranded, exactly when no file was there or its removal succeeds (`StageStrandsExactlyWhenRejected`). Until a
  newer release is staged it is answered as a duplicate, reported as staged, and never activated
  (`StrandedIsOnlyADuplicate`, `StrandedUntilNewer`, `StrandedReleaseLooksReady`).
- The host checks an upload and installs it in two critical sections. A late install keeps the discipline exactly when since its
  check no other release as new was staged and it was not itself activated, and can bind a generation to two tuples exactly when
  another release as new was staged (`LateInstallContinuesTheRun`, `LateInstallRebindsExactlyWhenOvertaken`).
- Repeated reconciles settle exactly when the inputs do not open both directions. Mode `local` with a low battery does, so it
  alternates for ever (`StableExactlyWhenNotFlapping`, `ExplicitLocalAlternates`).
- Deadline costs are 32-bit. Admission is monotone in the estimates exactly when the slack does not wrap around from too small
  to large enough (`AdmissionIsMonotoneExactlyWithoutWrapping`, `OverflowAdmitsSlowerEdge`).
- Samples are pruned by key prefix. In every orderly run the windows of a set of functions are their filtered histories exactly
  when no identity of the set extends another's by a slash (`WindowsAreExactWhenNothingExtends`, `ForeignRecordingPrunes`).
- A topic longer than 65535 bytes is not read back, because its length prefix is truncated (`PublishRoundTrip`).

## Model

| member | source | states |
|---|---|---|
| ReleaseProtocol.HostSupportsEdgeDevice | edge/operator/internal/controller/wasmfunction_controller.go:1066-1110 | in every reachable state in which no device stayed on the edge through a change to a local release, the generation of a device on the edge is at most the host's; at equal generations their digests agree, if all reports were exact or none could mislead |
| ReleaseSystem.WholeRunsAreProtocolRuns | SIF_wasm_dht/main/sif_release.cpp:165-303 | every run of the protocol with the multi-step device in it, interrupted by starts of the firmware between any two device actions, is a run of the protocol, which sees slots, mode and runtime as they are; the device works on nothing but commands that were sent |
| ReleaseSystem.FollowKeepsCoupled | SIF_wasm_dht/main/sif_release.cpp:165-303 | each move of the whole system keeps that coupling and takes the protocol to a state it can reach |
| ReleaseSystem.HostSupportsTheWholeDevice | edge/operator/internal/controller/wasmfunction_controller.go:1066-1110 | the host's support holds of the multi-step device in every state of every such run |
| SystemProgress.WholeSystemCanAlwaysBeRolledOut | edge/operator/internal/controller/wasmfunction_controller.go:889-1110 | from every state of operator, host, channels and multi-step device together some run brings device and host to a newer release, its bytes in the active file and the device a client of the host |
| SystemProgress.AnyRunCanBeContinuedToARollOut | edge/operator/internal/controller/wasmfunction_controller.go:889-1110 | that holds after every run from the first start, whatever failed in it |
| SystemProgress.WithinRun | SIF_wasm_dht/main/sif_release.cpp:272-303 | whatever the device can do with commands that were sent it does in the whole system, and nothing around it changes |
| SystemProgress.AroundExactlyWhen | SIF_wasm_dht/main/sif_telemetry.cpp:65-72 | what can happen around the device: every step of the others, and reports that carry no digest or that of the non-empty active file, or of the built-in module without one |
| ReleaseSystem.EdgeFileHashesToTheHostsDigest | SIF_wasm_dht/main/sif_telemetry.cpp:65-72 | in every run without a split update, whose reports carry the active file's digest, when a device on the edge and the host are at one generation, the bytes of the device's active file hash to the digest of what the host runs |
| ReleaseSystem.FaithfulRunsKeepBytes | SIF_wasm_dht/main/sif_telemetry.cpp:65-112 | over such runs files and metadata agree, and the file digest that a report carries is that of the active release |
| ReleaseSystem.PowerCycleKeepsBytes | SIF_wasm_dht/main/main.cpp:299-325 | a start of the firmware from store and files keeps files, metadata and module in agreement |
| ReleaseProtocol.EdgeCommandFollowsHostActivation | edge/operator/internal/controller/wasmfunction_controller.go:1085-1109 | a command to edge mode for a generation is only ever sent after the host was active at it, and the host never falls below it again |
| ReleaseProtocol.HostFollowsTheDevice | edge/operator/internal/controller/wasmfunction_controller.go:1066-1084 | in every reachable state the host runs what it was built with or a generation that the device held staged at an earlier point of the run, with the same digest unless the device has moved on, if reports were exact or none could mislead |
| ReleaseProtocol.ActivatedWasOk | edge/operator/internal/controller/wasmfunction_controller.go:1071-1084 | a generation that became active on the host in a run is bound on host and device, with one digest unless the device has moved on |
| ReleaseAgreement.TuplesAgreeExactlyWhenIdentitiesDo | edge/operator/internal/controller/artifact_sync.go:346-359 | digest and identity of host and edge device agree in all fault-free runs iff the releases published for one generation and digest carry one identity |
| ReleaseAgreement.DigestsAgreeExactlyWhenPublishedOnce | edge/operator/internal/controller/mqtt_telemetry.go:438-463 | with reports that may carry another digest or none, digests agree in all runs iff no generation is published with two digests for one function, a blank identity counting as any function that may still be shown |
| ReleaseAgreement.EdgeInvocationsSucceedExactlyWhen | SIF_wasm_dht/main/sif_httpForward.cpp:281-292 | an invocation of a device on the edge is run and its result taken iff the host has not moved on and the identity has no blanks around it |
| ReleaseAgreement.HostRunsTheDevicesRelease | edge/host/main.go:240-272 | what the host runs for a device is run under the generation and function of the device, and for a device on the edge with its digest |
| ReleaseAgreement.RollOutReachesTheEdge | edge/operator/internal/controller/wasmfunction_controller.go:1066-1110 | from any state that keeps the invariant, a fault-free schedule brings both components to a newer release, in edge mode |
| ReleaseAgreement.NewerReleaseCanAlwaysBeRolledOut | edge/operator/internal/controller/wasmfunction_controller.go:889-1110 | from every reachable state some continuation brings host and device to a release newer than everything held |
| ReleaseAgreement.RollOutSurvivesRestart | SIF_wasm_dht/main/main.cpp:299-337 | a later start keeps the rolled-out release, and edge mode unless it is a power-on |
| ReleaseAgreement.HostKeepsUpExactlyWhenNothingNewerFollows | SIF_wasm_dht/main/sif_release.cpp:234-264 | where mode and command writes can be lost, the host is at least as new as a device on the edge in all runs iff no publishable release fit for the device is newer than one the host could take |
| ReleaseAgreement.RunKeepsEdgeCommanded | edge/operator/internal/controller/wasmfunction_controller.go:1085-1109 | while nothing newer is published, a device on the edge runs a release that it was commanded to the edge with, whatever its store fails to take |
| ReleaseAgreement.StrandedReleaseLooksReady | edge/operator/internal/controller/artifact_sync.go:350-353 | a device that lost its staged bytes reports the release as staged until a newer one is, and so looks ready to the operator |
| ReleaseAgreement.DivergingRun | edge/operator/internal/controller/artifact_sync.go:350-353 | two identities for one generation and digest end up on host and device together |
| ReleaseAgreement.MisreadRun | edge/operator/internal/controller/mqtt_telemetry.go:438-448 | from the device's first start, a generation paired with the digest of an earlier report splits host and device, for every pair of releases the condition rules out |
| ReleaseAgreement.LostModeLeavesHostBehind | SIF_wasm_dht/main/sif_release.cpp:234-251 | after a roll-out to the edge, a newer release whose local activation loses its mode write runs on the edge at a generation the host never had |
| ReleaseProtocol.NextKeepsInv | edge/operator/internal/controller/artifact_sync.go:70-135 | every step of operator, host, device and channels keeps the protocol invariant and every binding made before |
| ReleaseProtocol.RunKeepsInv | edge/operator/internal/controller/wasmfunction_controller.go:96-180 | the invariant holds after every interleaving, however stale the operator's view |
| ReleaseProtocol.ReadyAndActiveIsSafe | edge/operator/internal/controller/artifact_sync.go:141-145 | a release that looks ready on the device and active on the host was bound on both with one digest and has run on the host |
| ReleaseProtocol.OperatorSendsWhatIsOk | edge/operator/internal/controller/wasmfunction_controller.go:889-937 | every command an operator step sends stages a published release or names a generation that the device was staged with, and for edge mode one that is safe there |
| ReleaseProtocol.OperatorActivatesWhatIsOk | edge/operator/internal/controller/wasmfunction_controller.go:1071-1084 | the operator asks the host to activate only a generation that host and device have both been staged with |
| ReleaseProtocol.OperatorLearnsWhatIsOk | edge/operator/internal/controller/artifact_sync.go:96-126 | what probe and acknowledgements make the operator believe about the host was bound there |
| ReleaseProtocol.NothingIsSentInVain | edge/operator/internal/controller/artifact_sync.go:70-135 | an operator that finds a release where it belongs sends nothing more to get it there; what it sends otherwise is the stage command of its release |
| ReleaseProtocol.MissingFieldsKeepTheOld | edge/operator/internal/controller/mqtt_telemetry.go:438-463 | a digest or function that a report leaves out stays as it was shown, and an empty staged slot is shown empty |
| ReleaseProtocol.HostUploadKeepsLedger | edge/host/main.go:563-614 | an upload, however late or often it arrives, never rebinds a generation on the host |
| ReleaseProtocol.HostActivateKeepsLedger | edge/host/main.go:659-687 | an activation request, however late, never moves the host back and acknowledges only what has been active |
| ReleaseProtocol.FailedRequestsChangeNothing | edge/host/main.go:598-687 | an upload or activation whose file operations fail leaves the host as it was |
| ReleaseProtocol.RepeatedRequestsAreAcknowledged | edge/host/main.go:572-597 | a repeated upload or activation is acknowledged again as long as it is still so |
| ReleaseProtocol.DeviceStageKeepsLedger | SIF_wasm_dht/main/sif_release.cpp:343-385 | a stage command never rebinds a generation on the device |
| ReleaseProtocol.DeviceActivateKeepsLedger | SIF_wasm_dht/main/sif_release.cpp:204-270 | after an activation a device on the edge runs a generation it was commanded to the edge with, unless it stayed there through a change to a local release |
| ReleaseProtocol.ModeIsLostByAReleaseChange | SIF_wasm_dht/main/sif_release.cpp:234-264 | the mode counts as lost only when a command for local mode changes the release and leaves the device on the edge |
| ReleaseProtocol.DeviceStartKeepsLedger | SIF_wasm_dht/main/main.cpp:299-337 | a start of the firmware, at power-on or later, rebinds no generation and brings no device to the edge |
| ReleaseProtocol.SeenIsShown | edge/operator/internal/controller/mqtt_telemetry.go:459-463 | the function an operator shows for an active release is that of the release, or when that is blank the bootstrap's or an older release's, unless the device has moved on |
| ReleaseProtocol.ObservationIsOk | edge/operator/internal/controller/mqtt_telemetry.go:438-463 | a report delivered at any later time leaves a status whose generations and digests are bound on the device, and whose function is one that has been active |
| ReleaseProtocol.TrimTwice | edge/operator/internal/controller/artifact_sync.go:141-145 | trimming an identity that one side has trimmed already changes nothing |
| ReleaseProtocol.TrimMeaning | edge/operator/internal/controller/artifact_sync.go:141-145 | trimming takes white space from both ends of an identity, and all of it |
| ReleaseProtocol.WhiteSpace | edge/operator/internal/controller/artifact_sync.go:141-145 | the white space that is trimmed is the Unicode property White_Space |
| ReleaseSlots.RunIsWellOrdered | edge/host/main.go:563-614 | a staged generation exceeds the active one in every state of every run |
| ReleaseSlots.GenerationsNeverDecrease | edge/host/main.go:659-687 | the active and the newest generation never decrease over a run |
| ReleaseSlots.AcceptedGenerationsIncrease | edge/host/main.go:563-614 | accepted staged generations strictly increase over a run |
| ReleaseSlots.OldReleasesWereAlwaysHeld | edge/host/main.go:563-614 | a release of a generation already reached was held when it was reached |
| ReleaseSlots.GenerationIsAKey | edge/host/main.go:563-614 | no generation is bound to two different tuples over a run |
| ReleaseSlots.LateInstallContinuesTheRun | edge/host/main.go:598-614 | an install after further steps continues the run iff since the check no other release as new was staged and the release itself was not activated |
| ReleaseSlots.LateInstallRebindsExactlyWhenOvertaken | edge/host/main.go:598-614 | a late install can lead to one generation bound to two tuples iff another release as new was staged between check and install |
| ReleaseSlots.OverlappingInstallsRegress | edge/host/main.go:598-614 | two overlapping uploads can stage an older release beneath a newer active one |
| EdgeHost.VerdictIsFreshness | edge/host/main.go:563-597 | an upload is staged iff newer than everything held, accepted without effect iff it is the newest held tuple, a conflict iff another tuple of that generation, otherwise stale |
| EdgeHost.Host.CheckUpload | edge/host/main.go:495-597 | the first section's reply, or that the upload is to be installed; a release accepted there has the declared digest |
| EdgeHost.Host.InstallUpload | edge/host/main.go:598-614 | the second section stages the release on whatever the host has become since, without another look |
| EdgeHost.Host.constructor | edge/host/main.go:176-192 | the host starts with the module it was built with active and nothing staged |
| EdgeHost.Host.HandleUpload | edge/host/main.go:495-622 | with nothing between its two sections: an upload is staged iff it is complete, has the declared digest, compiles, is newer than everything held and no file operation fails; reply and whole new state; one step of the slot discipline |
| EdgeHost.Host.ActivateStagedRelease | edge/host/main.go:659-687 | activation succeeds iff the generation is active already, or staged with its file and the renames work; slots and file are promoted together |
| EdgeHost.Host.RunWasm | edge/host/main.go:240-272 | a request runs iff it names the active generation and function, and is answered with the active tuple |
| DeviceRelease.StageAcceptedExactlyWhenFresh | SIF_wasm_dht/main/sif_release.cpp:343-414 | a stage command is accepted iff valid, newer than all held, the worker idle and store and memory available; a duplicate iff it is the newest held release |
| DeviceRelease.ActivationAcceptedOnlyWhenIdle | SIF_wasm_dht/main/sif_release.cpp:416-456 | an activation is accepted iff its generation is held, it changes something, the store is readable and the worker idle |
| DeviceProgress.StageReplyNamesTheReason | SIF_wasm_dht/main/sif_release.cpp:343-414 | which of its six answers a stage command gets, each iff |
| DeviceProgress.ActivateReplyNamesTheReason | SIF_wasm_dht/main/sif_release.cpp:416-456 | which of its answers an activation gets, each iff |
| DeviceRelease.DoKeepsExactlyOnce | SIF_wasm_dht/main/sif_release.cpp:272-303 | every action keeps one claim, one wake-up token for it, and the accepted commands equal to the processed ones plus the pending one |
| DeviceRelease.AcceptedCommandsAreProcessedOnce | SIF_wasm_dht/main/sif_release.cpp:272-303 | over all interleavings accepted commands are processed once, in order, with their arguments; no notification is lost or spurious |
| DeviceRelease.DoKeepsBarrier | SIF_wasm_dht/main/sif_release.cpp:126-145 | an action keeps invocations in flight under the active generation and the gate closed behind the drain, iff it is not a resume that opens the gate during drain or work |
| DeviceProgress.DrainGivesUpAtTheHundredthPoll | SIF_wasm_dht/main/sif_release.cpp:126-137 | a drain whose invocations do not complete polls a hundred times and then gives up |
| DeviceProgress.CompletionUndoesAdmission | SIF_wasm_dht/main/sif_release.cpp:126-145 | an invocation is admitted iff the gate is open, and its completion undoes that |
| DeviceRelease.UntimelyResumeSpansExactlyWhen | SIF_wasm_dht/main/sif_release.cpp:481-494 | after such a resume, some continuation lets an invocation span a release iff the pending command can still replace the running release: an activation of another staged release with a valid contract and a promotable file |
| DeviceRelease.InvocationsNeverSpanARelease | SIF_wasm_dht/main/sif_release.cpp:204-303 | over every timely run each invocation starts and finishes under one active generation, and none spans a release |
| DeviceRelease.DrainTimeoutLeavesReleaseUnchanged | SIF_wasm_dht/main/sif_release.cpp:165-209 | a drain timeout leaves all but the files as it was, and the files too iff an activation was pending, nothing was staged or the removal failed |
| DeviceRelease.StageStrandsExactlyWhenRejected | SIF_wasm_dht/main/sif_release.cpp:165-202 | a stage command strands the release staged before iff it is not accepted, for any of its reasons, and no file was in the staged place after the download or the removal succeeds |
| DeviceRelease.TimeoutStrandsStagedRelease | SIF_wasm_dht/main/sif_release.cpp:198-201 | a timeout before a stage command strands the release staged before, iff its file is missing or the removal succeeds |
| DeviceRelease.StrandedIsOnlyADuplicate | SIF_wasm_dht/main/sif_release.cpp:357-385 | staging a stranded release once more is answered as a duplicate and never accepted |
| DeviceRelease.StrandedUntilNewer | SIF_wasm_dht/main/sif_release.cpp:147-270 | over every run without a newer stage command a stranded release stays staged without its bytes and is never activated |
| DeviceRelease.ResumeDuringWorkBreaksBarrier | SIF_wasm_dht/main/sif_release.cpp:481-494 | a resume after the drain lets an invocation span the release change |
| DeviceProgress.StageSucceedsExactlyWhen | SIF_wasm_dht/main/sif_release.cpp:165-202 | a stage command stages the downloaded bytes, over whatever was staged, iff the drain succeeded, the whole body arrived, the renames it needs worked, the digest was read and is equal, and the metadata was written; otherwise the store is unchanged |
| DeviceProgress.FaultFreeStageSucceeds | SIF_wasm_dht/main/sif_release.cpp:165-202 | a stage command that meets no failure is staged |
| DeviceProgress.ActivationSucceedsExactlyWhen | SIF_wasm_dht/main/sif_release.cpp:204-270 | the staged release becomes active, its file with it, iff drained, readable, well formed, its file present and loadable where needed, renamed and recorded; mode, runtime and restart follow the mode and command writes |
| DeviceProgress.ModeChangeSucceedsExactlyWhen | SIF_wasm_dht/main/sif_release.cpp:251-264 | an activation of the active release changes only the mode, iff drained, readable and written |
| DeviceProgress.IneffectiveActivationChangesNothing | SIF_wasm_dht/main/sif_release.cpp:211-218 | without a drain, without a readable store, or for a release that is not validly held an activation changes nothing |
| DeviceProgress.StageGoesThrough | SIF_wasm_dht/main/sif_release.cpp:343-414 | an idle device takes a new valid release through callback, worker, drain and cleanup to the staged slot, and its gate then follows the store |
| DeviceProgress.ActivationGoesThrough | SIF_wasm_dht/main/sif_release.cpp:416-456 | an idle device takes the staged release through the same steps to the active slot and the requested mode |
| DeviceProgress.ModeChangeGoesThrough | SIF_wasm_dht/main/sif_release.cpp:416-456 | an idle device goes through a mode change for its active release and restarts into it |
| DeviceProgress.DeviceCanAlwaysBeUpdated | SIF_wasm_dht/main/sif_release.cpp:272-303 | from every state of every run some continuation installs a newer release, bytes and mode included |
| DeviceProgress.PauseLastsUntilResumed | SIF_wasm_dht/main/sif_release.cpp:468-479 | a pause that reached the store keeps every new invocation out over any run until a resume of the active generation; one for an older generation does nothing |
| DeviceProgress.ResumeReopens | SIF_wasm_dht/main/sif_release.cpp:481-494 | a resume of the active generation clears the pause and opens the gate, at once if it was recorded; another does nothing |
| DeviceRelease.SameHexIgnoresCaseOnly | SIF_wasm_dht/main/sif_release.cpp:183-188 | digests are compared letter by letter up to case |
| DeviceInvariants.DoIsASlotStep | SIF_wasm_dht/main/sif_release.cpp:343-385 | every device action is a step of the slot discipline, and a pending stage command stays fresh |
| DeviceInvariants.DeviceRunsAreSlotRuns | SIF_wasm_dht/main/sif_state.cpp:209-234 | every device run is a run of the slot discipline |
| DeviceInvariants.DeviceGenerationIsAKey | SIF_wasm_dht/main/sif_release.cpp:343-385 | on the device no generation is bound to two different tuples over any run |
| DeviceInvariants.HostCallsFollowTheActiveContract | SIF_wasm_dht/main/sif_release.cpp:519-547 | at every moment of every run a host call is allowed iff supported and declared in the active release's contract |
| DeviceInvariants.ExecKeepsPolicy | SIF_wasm_dht/main/sif_release.cpp:244-250 | the compiled policy is always that of the active contract |
| DeviceInvariants.StagingKeepsAgreement | SIF_wasm_dht/main/sif_release.cpp:165-202 | staging keeps files and metadata in agreement iff no rejected download is left beneath older metadata; a newly staged file hashes to its digest |
| DeviceInvariants.ActivationKeepsAgreement | SIF_wasm_dht/main/sif_release.cpp:204-270 | activation keeps files, metadata and module in agreement iff no promotion goes unrecorded, no reload runs ahead and no stale module survives |
| DeviceInvariants.ActivationFiles | SIF_wasm_dht/main/sif_release.cpp:233-236 | files follow the metadata iff the promotion is recorded |
| DeviceInvariants.ActivationModule | SIF_wasm_dht/main/sif_release.cpp:229-232 | the loaded module follows the release iff it is not loaded too early or kept too long |
| DeviceInvariants.DoKeepsBytesExactlyWhenUndivided | SIF_wasm_dht/main/sif_release.cpp:165-270 | one action keeps the agreement iff it does not split an update |
| DeviceInvariants.BytesAgreeOverRuns | SIF_wasm_dht/main/sif_release.cpp:165-270 | over every run without a split, staged and active files hash to their recorded digests |
| DeviceInvariants.DoKeepsRuntimeExactlyWhenRestarted | SIF_wasm_dht/main/sif_release.cpp:251-264 | the booted runtime stays that of the stored mode iff the action does not store a new mode without the command id |
| DeviceInvariants.DoRefinesCommandEffect | SIF_wasm_dht/main/sif_release.cpp:272-303 | each device action has no effect on slots, mode and runtime or the effect of the accepted command, short of the mode and command writes that failed |
| DeviceInvariants.EffectIsWholeExactlyWhenNotPartial | SIF_wasm_dht/main/sif_release.cpp:204-270 | that effect is nothing or the whole effect iff no release change goes without its mode and no restart that is needed is missed |
| ArtifactFiles.PullIsAllOrNothing | SIF_wasm_dht/main/sif_wasmPull.cpp:105-187 | a download replaces the staged file entirely or not with other bytes, and touches no other release file |
| ArtifactFiles.PullSucceedsExactlyWhen | SIF_wasm_dht/main/sif_wasmPull.cpp:38-187 | a download succeeds iff the whole body arrived and its renames worked |
| ArtifactFiles.PromotionIsAllOrNothing | SIF_wasm_dht/main/sif_release.cpp:147-163 | a promotion moves the whole staged file into place or leaves the active bytes recoverable |
| ArtifactFiles.FileStore.ReplaceFromDownload | SIF_wasm_dht/main/sif_wasmPull.cpp:38-79 | the rename sequence with rollback, tied to the function the laws are about |
| ArtifactFiles.FileStore.PullBlob | SIF_wasm_dht/main/sif_wasmPull.cpp:105-187 | the download into a temporary file and its replacement, tied to that function |
| ArtifactFiles.FileStore.PromoteStagedFile | SIF_wasm_dht/main/sif_release.cpp:147-163 | the promotion's renames with backup and rollback, tied to that function |
| ReleaseManager.RestartReachesNextState | SIF_wasm_dht/main/sif_release.cpp:305-328 | a restart rebuilds, from store and files alone, the state the machine prescribes, ready for its next run |
| ReleaseManager.Manager.constructor | SIF_wasm_dht/main/sif_release.cpp:305-328 | the state after a boot: gate, policy and module follow the store and the files |
| ReleaseManager.Manager.StageAsync | SIF_wasm_dht/main/sif_release.cpp:343-414 | the stage callback's reply and new state are the machine's |
| ReleaseManager.Manager.ActivateAsync | SIF_wasm_dht/main/sif_release.cpp:416-456 | the activation callback's reply and new state are the machine's |
| ReleaseManager.PollUntilDrained | SIF_wasm_dht/main/sif_release.cpp:129-136 | the polling loop succeeds iff every admitted invocation completes within the 99 delays, and is a run of the machine's polls and completions |
| ReleaseManager.RemainingMeaning | SIF_wasm_dht/main/sif_release.cpp:129-136 | an invocation is still admitted after k delays iff none of them completed it |
| ReleaseManager.Manager.CloseAdmissionAndDrain | SIF_wasm_dht/main/sif_release.cpp:126-137 | the gate closes, the drain has that outcome, and the new state is that of the machine's run |
| ReleaseManager.Manager.ProcessStage | SIF_wasm_dht/main/sif_release.cpp:165-202 | the worker's staging is the machine's, for every pattern of faults; StageSucceedsExactlyWhen says what that achieves |
| ReleaseManager.Manager.ReplaceRelease | SIF_wasm_dht/main/sif_release.cpp:219-250 | compile, reload, promote and commit stop at the first failure as the machine says |
| ReleaseManager.Manager.ActivateRelease | SIF_wasm_dht/main/sif_release.cpp:211-266 | the drained part of an activation, its unpause included, applies the machine's outcome |
| ReleaseManager.Manager.ProcessActivation | SIF_wasm_dht/main/sif_release.cpp:204-270 | the worker's activation is the machine's, and it asks for a restart exactly when the mode changed |
| ReleaseManager.Manager.TakeAndProcess | SIF_wasm_dht/main/sif_release.cpp:275-283 | from a notification to the end of the work is a run of the machine's actions, or a restart into its state |
| ReleaseManager.Manager.TransitionOnce | SIF_wasm_dht/main/sif_release.cpp:274-302 | one turn of the worker's loop is a run of the machine's actions: take, polls and completions, work, clear, restore |
| ReleaseManager.Manager.FinishTransition | SIF_wasm_dht/main/sif_release.cpp:284-294 | the end of a transition releases the claim |
| ReleaseManager.Manager.RestorePersistedAdmission | SIF_wasm_dht/main/sif_release.cpp:139-145 | the gate opens again unless the store says paused |
| ReleaseManager.Manager.PauseFunction | SIF_wasm_dht/main/sif_release.cpp:468-479 | pause closes the gate, and the store if it can be written, unless its generation is stale; the reply also needs the command id written |
| ReleaseManager.Manager.ResumeFunction | SIF_wasm_dht/main/sif_release.cpp:481-494 | resume opens the gate only for the active generation and after both its store writes |
| PlacementController.MovesExactlyWhenAdmittedAndReady | edge/operator/internal/controller/wasmfunction_controller.go:548-589 | placement changes iff a different candidate was proposed, admitted and its destination is ready |
| PlacementController.LeavesLocalExactlyWhen | edge/operator/internal/controller/wasmfunction_controller.go:439-546 | the rule for leaving local execution in the fields of the inputs: all remote parts ready, and the battery at or below its low threshold, or a request or confirmed drain that the deadline admits |
| PlacementController.ReturnsToLocalExactlyWhen | edge/operator/internal/controller/wasmfunction_controller.go:439-546 | the rule for returning: a request, or in auto mode a battery at or above its high threshold, admitted and ready |
| PlacementController.HistoryOffloadsExactlyWhen | edge/operator/internal/controller/wasmfunction_controller.go:619-629 | between the thresholds in auto mode a history of observations moves the function off the device iff its last ones, as many as required, were all risky |
| PlacementController.StartsWhereTheDeviceIs | edge/operator/internal/controller/wasmfunction_controller.go:548-562 | a first reconcile starts where the device reports to be, and hybrid is kept only while device resources are needed |
| PlacementController.ReadinessNamesWhatIsMissing | edge/operator/internal/controller/wasmfunction_controller.go:564-611 | a transition is held back iff something is missing, and the reason names it, runtime before host before device |
| PlacementController.StableExactlyWhenNotFlapping | edge/operator/internal/controller/wasmfunction_controller.go:439-589 | with fixed inputs one reconcile reaches a fixpoint from every placement iff not both directions are open |
| PlacementController.AutoAndEdgeAreStable | edge/operator/internal/controller/wasmfunction_controller.go:439-546 | modes auto and edge with low below high and an observed battery are stable |
| PlacementController.ExplicitLocalAlternates | edge/operator/internal/controller/wasmfunction_controller.go:439-531 | mode local at a low battery alternates |
| PlacementController.Hysteresis | edge/operator/internal/controller/wasmfunction_controller.go:439-589 | in every auto run (moves - 1) times the threshold gap is at most the total variation of the batteries read |
| PlacementController.ReplayMeasures | edge/operator/internal/controller/wasmfunction_controller.go:548-562 | placement, moves, last battery and variation of a run are those its rounds define |
| PlacementController.ForcedExactlyWhenLow | edge/operator/internal/controller/wasmfunction_controller.go:470-476 | a proposal is forced iff the battery is at or below the low threshold under local execution; the candidate is accepted iff the deadline admits it and its destination is ready |
| PlacementController.AdvanceKeepsBound | edge/operator/internal/controller/wasmfunction_controller.go:439-589 | one reconcile keeps the potential that accounts for battery movement since the last move |
| DeadlineAdmission.Wrap32 | edge/operator/internal/controller/deadline_placement.go:134-145 | 32-bit reduction: in range, and the identity exactly on the range |
| DeadlineAdmission.HardIsAdmitted | edge/operator/internal/controller/deadline_placement.go:113-122 | a hard proposal is never refused by the deadline |
| DeadlineAdmission.RefusedExactlyWhenUnknownOrLate | edge/operator/internal/controller/deadline_placement.go:30-145 | the whole rule in the fields of its inputs: refused iff enabled, not forced, and the function unknown or different, or target and estimates present and the 32-bit slack too small |
| DeadlineAdmission.VerdictNamesTheReason | edge/operator/internal/controller/deadline_placement.go:30-131 | the verdict names the first reason that decides |
| DeadlineAdmission.CostIsExactWhenItFits | edge/operator/internal/controller/deadline_placement.go:134-145 | the stepwise 32-bit sum is the integer cost iff that cost fits |
| DeadlineAdmission.WorseEstimatesNeverAdmit | edge/operator/internal/controller/deadline_placement.go:88-131 | without overflow, worse estimates never turn a rejection into an admission |
| DeadlineAdmission.AdmissionIsMonotoneExactlyWithoutWrapping | edge/operator/internal/controller/deadline_placement.go:88-131 | every better profile stays admitted iff the profile's slack is not too small over the integers yet large enough after wrap-around |
| DeadlineAdmission.OverflowAdmitsSlowerEdge | edge/operator/internal/controller/deadline_placement.go:134-145 | a concrete overflow that admits a slower edge |
| DeadlineAdmission.HybridAdmittedImpliesEdge | edge/operator/internal/controller/deadline_placement.go:134-145 | without overflow, hybrid admitted implies edge admitted on the same estimates |
| DeadlineAdmission.SnapshotMonotone | edge/operator/internal/controller/deadline_estimator.go:146-178 | raising samples, percentile or the profile's fallbacks never lowers an estimate |
| DeadlineAdmission.SlowerHistoryNeverAdmits | edge/operator/internal/controller/deadline_estimator.go:146-178 | through percentile, cost and slack, a slower history, a higher percentile or slower fallbacks never admit what was rejected |
| NearestRank.SortedPositionIsRank | edge/operator/internal/controller/deadline_estimator.go:298-306 | the k-th sorted value has fewer than k values below it and at least k not above it |
| NearestRank.RankIgnoresOrder | edge/operator/internal/controller/deadline_estimator.go:298-306 | the ranked value does not depend on the order of the samples |
| NearestRank.RankMonotone | edge/operator/internal/controller/deadline_estimator.go:298-306 | raising samples or the rank never lowers the ranked value |
| NearestRank.RankIsCeiling | edge/operator/internal/controller/deadline_estimator.go:299-305 | the clamped index is the ceiling of p n / 100 |
| NearestRank.EstimateIsNearestRank | edge/operator/internal/controller/deadline_estimator.go:286-307 | with enough samples the estimate is their nearest-rank percentile, otherwise the fallback |
| NearestRank.EstimateMonotone | edge/operator/internal/controller/deadline_estimator.go:286-307 | raising samples, percentile or fallback never lowers the estimate |
| NearestRank.EstimatePercentile | edge/operator/internal/controller/deadline_estimator.go:286-307 | the filtering loop and index arithmetic compute that estimate |
| DeadlineEstimator.KeyBelongsToItsTarget | edge/operator/internal/controller/deadline_estimator.go:233-239 | a recording finds a key iff it is its own function's or that of a function of the same resource whose identity extends its own by a slash |
| DeadlineEstimator.ForeignRecordingPrunes | edge/operator/internal/controller/deadline_estimator.go:126-141 | two recordings after which the samples of a function whose identity extends another's are gone before their time |
| DeadlineEstimator.WindowsAreExactWhenNothingExtends | edge/operator/internal/controller/deadline_estimator.go:105-144 | in every orderly run over a set of functions each list is its filtered history iff no identity of the set extends another's by a slash for one resource |
| DeadlineEstimator.RepliesFollowHistory | edge/operator/internal/controller/deadline_estimator.go:105-178 | the reply to a recording is the percentiles of the function's full history within the window |
| DeadlineEstimator.FirstRecordingIsAnswered | edge/operator/internal/controller/deadline_estimator.go:105-178 | the first message of a function is answered with its own metrics, each in the estimate of its mode, and the profile for all others |
| DeadlineEstimator.ContradictedRecordingIsIgnored | edge/operator/internal/controller/deadline_estimator.go:222-231 | a message for no function or another one changes and answers nothing |
| DeadlineEstimator.NoEstimatesWithoutProfile | edge/operator/internal/controller/deadline_estimator.go:146-150 | without a timing profile no history makes estimates available |
| DeadlineEstimator.UntimedMessageRecordsNothing | edge/operator/internal/controller/deadline_estimator.go:241-284 | a message without timings leaves no sample |
| DeadlineEstimator.TableIsFilteredHistory | edge/operator/internal/controller/deadline_estimator.go:105-144 | the list of a function whose identity extends none of the run's is its filtered history |
| DeadlineEstimator.WindowEqualsHistory | edge/operator/internal/controller/deadline_estimator.go:118-141 | after each recording the function's samples are its full history no older than the window, and those of functions whose identity does not extend it are untouched |
| DeadlineEstimator.Estimator.Record | edge/operator/internal/controller/deadline_estimator.go:105-144 | appending and pruning in place compute that table, and the reply is its snapshot |
| RollingWindow.KeepRecent | edge/operator/internal/controller/deadline_estimator.go:130-135 | the in-place filter keeps exactly the samples not before the cutoff, in order |
| RollingWindow.KeptTwice | edge/operator/internal/controller/deadline_estimator.go:130-140 | pruning again with a later cutoff is pruning once |
| RollingWindow.KeptMembers | edge/operator/internal/controller/deadline_estimator.go:130-135 | each sample stays as often as it was there iff it is not before the cutoff |
| DrainTracker.SegmentIsMaximal | edge/operator/internal/controller/mqtt_telemetry.go:501-523 | the current run is the longest suffix of applicable observations without a break |
| DrainTracker.StateRefinesHistory | edge/operator/internal/controller/mqtt_telemetry.go:499-548 | samples, drain and riskyWindows are exactly what the history of observations says |
| DrainTracker.RiskyRunCountsTheLast | edge/operator/internal/controller/mqtt_telemetry.go:530-548 | the count reaches n iff the last n observations were risky |
| DrainTracker.TwoObservationsMeasureTheDrain | edge/operator/internal/controller/mqtt_telemetry.go:487-548 | two observations measure their loss of charge iff both are local, strictly between the thresholds, of one source and function and no further apart than the window; it is risky from the limit on |
| DrainTracker.Tracker.Disable | edge/operator/internal/controller/mqtt_telemetry.go:475-486 | switching the policy off drops the resource's state and no other, and clears drain, window and count of its status |
| DrainTracker.Tracker.Observe | edge/operator/internal/controller/mqtt_telemetry.go:499-548 | one message's branch-by-branch update is the step the refinement is about |
| StageSender.ComputeRetryDelay | edge/operator/internal/controller/wasmfunction_controller.go:984-996 | the doubling loop gives 30 seconds once and 60 afterwards |
| StageSender.ClaimDependsOnlyOnTheLatestSend | edge/operator/internal/controller/wasmfunction_controller.go:939-982 | however stale the snapshot, even from before an acknowledgement, a claim succeeds iff the delay since the latest send has passed |
| StageSender.LaterSendDecides | edge/operator/internal/controller/wasmfunction_controller.go:939-982 | of what memory and status say the later send decides: 30 seconds after a first one and 60 after any other the next may go |
| StageSender.FirstClaim | edge/operator/internal/controller/wasmfunction_controller.go:939-982 | the first claim after an acknowledgement succeeds at once unless the snapshot still shows an earlier send, and then once the delay since that has passed |
| StageSender.Backoff | edge/operator/internal/controller/wasmfunction_controller.go:939-996 | between two acknowledgements the k-th send comes at least 30 + 60 (k - 2) seconds after the first, whatever snapshots are read |
| StageSender.ScheduledRequeueSucceeds | edge/operator/internal/controller/wasmfunction_controller.go:378-403 | the wake-up is the due instant, or one second away once that has passed, however late it is computed; the next claim succeeds iff that instant has come, whatever snapshot it reads |
| StageSender.StaleRequeueNeverPostpones | edge/operator/internal/controller/wasmfunction_controller.go:378-403 | a wake-up computed from a stale snapshot is never later than the due instant, or one second away; one that still shows a send from before an acknowledgement is less than 30 seconds late |
| StageSender.Reconciler.ClaimStageAttempt | edge/operator/internal/controller/wasmfunction_controller.go:939-982 | the claim's reply, and status and memory after it |
| StageSender.Reconciler.Acknowledged | edge/operator/internal/controller/wasmfunction_controller.go:897-903 | an acknowledgement clears the attempts and the remembered send |
| MqttCodec.LengthRoundTrip | edge/operator/internal/controller/mqtt_telemetry.go:659-674 | a remaining length is read back iff it is at most 268435455 |
| MqttCodec.LengthOnTheWire | edge/operator/internal/controller/mqtt_publisher.go:156-170 | a length is written in groups of seven bits, low group first, the top bit set on all but the last |
| MqttCodec.PacketRoundTrip | edge/operator/internal/controller/mqtt_telemetry.go:643-657 | a packet in front of any bytes is read back with those bytes left over, iff its length fits |
| MqttCodec.StreamRoundTrip | edge/operator/internal/controller/mqtt_telemetry.go:643-674 | a concatenation of encoded packets decodes to the same packets in order |
| MqttCodec.PublishRoundTrip | edge/operator/internal/controller/mqtt_publisher.go:125-154 | the parser undoes the QoS 1 encoder iff the topic is at most 65535 bytes |
| MqttCodec.UnacknowledgedRoundTrip | edge/operator/internal/controller/mqtt_telemetry.go:676-693 | at quality of service 0 the parser undoes topic and payload alone |
| MqttCodec.AcknowledgedRoundTrip | edge/operator/internal/controller/mqtt_telemetry.go:685-691 | at quality of service 1 and 2 it skips the two-byte packet identifier between them |
| MqttCodec.CutBodyIsRefused | edge/operator/internal/controller/mqtt_telemetry.go:676-691 | a body cut before its payload is refused with the error of the part it ends in |
| MqttCodec.PublishOnTheWire | edge/operator/internal/controller/mqtt_publisher.go:125-154 | header, lengths, topic, identifier 1 and payload stand where the standard wants them |
| MqttCodec.ParseSound | edge/operator/internal/controller/mqtt_telemetry.go:676-693 | the parser accepts exactly the well-formed PUBLISH bodies, on arbitrary bytes |
| MqttCodec.ResumeStep | edge/operator/internal/controller/mqtt_telemetry.go:662-672 | the reading loop's accumulators carry exactly the part of the length already read |
| MqttCodec.FixedHeader | edge/operator/internal/controller/mqtt_publisher.go:156-170 | the dividing loop emits the length encoding |
| MqttCodec.BuildPublish | edge/operator/internal/controller/mqtt_publisher.go:125-133 | the piecewise packet is the encoded PUBLISH |
| MqttCodec.Connection.ReadRemainingLength | edge/operator/internal/controller/mqtt_telemetry.go:659-674 | the reading loop decodes the length and consumes exactly its bytes |
| MqttCodec.Connection.ReadPacket | edge/operator/internal/controller/mqtt_telemetry.go:643-657 | the reader takes the front packet and leaves what follows it |
| ControlMessageAssembler.RunMeaning | SIF_wasm_dht/main/sif_controlMessageAssembler.hpp:21-52 | over any call sequence, complete means the payload is the concatenation of the consecutive fragments since the last control-topic start; receiving iff such a prefix is pending |
| ControlMessageAssembler.StatusMeaning | SIF_wasm_dht/main/sif_controlMessageAssembler.hpp:21-52 | an event is ignored iff it belongs to no control message, incomplete iff its message is pending after it, and otherwise completes or drops it |
| ControlMessageAssembler.AnySplitCompletes | SIF_wasm_dht/main/sif_controlMessageAssembler.hpp:21-52 | after any history, every split of a message of 1 to capacity bytes into nonempty fragments completes with that message |
| ControlMessageAssembler.Assembler.Consume | SIF_wasm_dht/main/sif_controlMessageAssembler.hpp:21-52 | one call on the fixed buffer, every write inside capacity plus one, terminator included |
| ControlMessageAssembler.Assembler.Reset | SIF_wasm_dht/main/sif_controlMessageAssembler.hpp:54-59 | a reset empties the message and writes the terminator |
| ContractPolicy.InputBitInjective | SIF_wasm_dht/main/sif_contractPolicy.hpp:43-78 | distinct input capabilities own distinct bits |
| ContractPolicy.SupportedInputs | SIF_wasm_dht/main/sif_contractPolicy.hpp:43-78 | the inputs that can be granted are exactly seven |
| ContractPolicy.OutputBitInjective | SIF_wasm_dht/main/sif_contractPolicy.hpp:80-97 | distinct output capabilities own distinct bits |
| ContractPolicy.SupportedOutputs | SIF_wasm_dht/main/sif_contractPolicy.hpp:80-97 | the outputs that can be granted are exactly six |
| ContractPolicy.UnionTest | SIF_wasm_dht/main/sif_release.cpp:82-106 | testing a bit against an unbounded union sees exactly whether it was accumulated |
| ContractPolicy.InputQueryRefinesContract | SIF_wasm_dht/main/sif_release.cpp:519-530 | a compiled input query is true iff the capability is supported and occurs in the contract |
| ContractPolicy.OutputQueryRefinesContract | SIF_wasm_dht/main/sif_release.cpp:537-547 | a compiled output query is true iff the capability is supported and occurs in the contract |
| ContractPolicy.CompileContract | SIF_wasm_dht/main/sif_release.cpp:60-110 | the nested compilation loops compute the policy those queries are about |
| HeatIndexRoot.StepHalvesTheError | wasm_guests/hybrid_resource_demo/src/lib.rs:130 | one Newton step stays above the root and at least halves the distance |
| HeatIndexRoot.NewtonBound | wasm_guests/hybrid_resource_demo/src/lib.rs:128-131 | after n steps the error is not negative and has shrunk by 2^n from that of the first guess, for every radicand |
| HeatIndexRoot.AdjustedTemperatures | wasm_guests/hybrid_resource_demo/src/lib.rs:126-127 | the guard makes the radicand lie between 0 and 1 |
| HeatIndexRoot.SquareRoot | wasm_guests/hybrid_resource_demo/src/lib.rs:128-131 | the six iterations reach the root to within (1 - s) / 64 |
| HeatIndexRoot.AdjustmentError | wasm_guests/hybrid_resource_demo/src/lib.rs:126-132 | the adjustment exceeds the exact one by at most 13/256 degrees Fahrenheit and never falls short |

## Left out

- HTTP, TCP, NVS, SPIFFS, Kubernetes and WebAssembly runtime internals: stores, injected failures and nondeterministic replies stand for them; SHA-256 is an arbitrary function.
- JSON parsing and log, condition and status texts: releases, contracts and reports arrive parsed; digests arrive lower-cased and generations are below 2^53.
- Deployment and Service reconciliation, deepcopy and CRD code: generated or plumbing.
- EdgeHost.Host.InstallUpload: moving the uploaded file and recording it are one step, so two uploads that move and record crosswise are not modelled; what other requests do between check and install is stated by ReleaseSlots.LateInstallContinuesTheRun and ReleaseSlots.OverlappingInstallsRegress.
- DeviceRelease.DoKeepsBarrier: checking and claiming the worker are one step, invocation admission is one step, and pause and resume land between worker actions, not inside them.
- ReleaseManager.Manager.TransitionOnce: within one turn of the loop only completions are interleaved; all other interleavings are covered by the machine's runs.
- ReleaseManager.Manager.ActivateRelease: nothing else runs inside the drained part of an activation, so a pause that lands there, and is overwritten by its unpause, is not modelled.
- DeviceInvariants.DoKeepsBytesExactlyWhenUndivided: each store setter commits as a whole or not at all, and power is not lost between file and store updates.
- ReleaseProtocol.HostSupportsEdgeDevice: the device starts with an erased store, and the host with any built-in release; host restarts, several host replicas, and operator restarts or overlapping operators are not modelled, and a report is one consistent snapshot of the store.
- ReleaseProtocol.NextKeepsInv: guards that only suppress sends (retry timing, placement choice, an already acknowledged mode) are left open, so every send they allow is covered; command identifiers are placeholders that only tell the kinds of command apart.
- StageSender.Backoff: attempts are unbounded integers rather than 32-bit, and the controller's process is not restarted within the stretch; activation commands, whose rate is not bounded when a rejected transition sends them, are not included.
- DrainTracker.StateRefinesHistory: riskyWindows is unbounded rather than 32-bit.
- DeadlineAdmission.WorseEstimatesNeverAdmit: the branch for an unknown candidate is left out, as no caller can reach it.
- MqttCodec.Connection.ReadPacket: a read deadline that expires in the middle of a packet, after which the reader loses its place, is not modelled.
- HeatIndexRoot.SquareRoot: over the reals; floating-point rounding is not modelled.
- The operator's requeue after errors, threshold and simulation commands, battery simulation, LED and actuator output, comfort score, heat-index polynomial and the device's HTTP retry loop: none of them reads or changes releases, placement, admission or the telemetry windows.
