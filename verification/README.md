# Verification of the Magnum node reconciler

This project models the parts of the reconciler whose correctness depends on order, interleaving or
exact text, and proves what they promise. `dafny verify dfyconfig.toml` checks all of it.

## What is modelled

**The dual-CA rotation protocol.** `Phases`, `CoordStore`, `BarrierCheck`, `BarrierWait`,
`RotationProtocol`, `RotationProgress`, `RotationWitnesses`, `JoiningNodes`, `RotationIds`,
`RestartLease`. The API server is a set of versioned objects with compare-and-swap. `CoordStore` has
any number of clients between their Get and their Update of the desired-phase ConfigMap.
`RotationProtocol` is a transition system over any number of masters and workers in which every API
call, file change, service load, report, state save and poll is a step of its own, any process may
stop anywhere and start again from its saved state, nodes join, terminate and leave at any time,
node lists may fail or be stale, and participant reads may fail. Each host carries the phase it
saved, the furthest phase it ever reported, the phase all its services have loaded and the phase
whose files it has begun to write; what its services may present and accept is derived from the last
two. `RestartLease` has one shared clock and separate steps for stamping RenewTime, reading,
checking and writing.

**The parallel phase scheduler.** `PhaseGraph`, `PhaseTrace`, `PhaseScheduler`. The scheduler is the
imperative loop with its maps, queue and counters; which running phase completes next, and with which
errors, is left open. It is proved to produce only valid traces, and the guarantees are proved of all
valid traces.

**Rotation classification across processes.** `RotationHistory`, `RotationRuns`. Marker, history and
persisted state over any sequence of processes, with re-delivered tokens, previews, and marker writes
that stop halfway.

**Trust bundles.** `KeyBundle`. Capping, the retired-key registry, and the ledger of published and
retired keys over any number of rotations.

**Host files.** `ShellQuote`, `HostFiles`, `ExportConvergence`, `SharedFile`, `MixedEdits`,
`LockFallback`. Required lines and export lines in one file, the shell's reading of them (sections
2.2.1 and 2.2.2 of the POSIX.1-2017 Shell Command Language), the provider's drift report, and the
advisory lock with its fallback.

**Text formats.** `GoQuote`, `HeatParams`, `NodeTaints`, `VersionMap`, over the string operations in
`Text` and `SortedStrings`.

## Assumptions

- The rotation protocol is proved for one rotation id at a time, with the hosts that held the old CA
  when it began; a node that joins later is minted with the new CA. Node names contain no white space,
  as Kubernetes requires. Nobody outside the protocol deletes the ConfigMap or the Lease. Once the Node
  object of an old-CA host is gone, none is registered under that name again, neither by another
  machine nor by the same one: its annotation would be gone with it, and a barrier passed in between
  would not have waited for it.
- Restart exclusion needs one clock and needs each master to leave the section before its recorded
  RenewTime plus duration; `OverstayBreaksExclusion` and `OverstayIsReached` show that the assumption
  cannot be dropped.
- Export theorems need variable names without `=`, newline or carriage return, values without
  carriage return, and a file in which no line ends in a carriage return once CRLF ends are replaced.
- Rotation tokens in `RotationRuns` contain no white space; `WriteReadsBackIff` says why.

## Where code and promise part

- `Heartbeat` (internal/carotation/coord.go:321-337) is documented as a no-op on the ConfigMap of
  another rotation. It reads and then patches without a version, so a heartbeat that read its own
  rotation still marks the next one: `HeartbeatTouchesForeignIff`.
- A rotation id with an `@` is never recognised in a node annotation, so such a rotation never leaves
  prepare: `StatusRoundTripIff`, `CanLeavePrepareIff`.
- A rotation id with white space is split in the history file: `WriteReadsBackIff`,
  `SpacedIdPollutesHistory`.
- The design calls nodes that join during a rotation trust-safe (docs/ca-rotation-design.md:426-434).
  Before the ConfigMap says finalize they are not: a joiner trusts the new CA only and meets hosts that
  still present old leaves or trust the old CA only. `JoiningIsSafeIff` gives the exact phases;
  `SplitIff` narrows them to cutover when a joiner needs a live node that accepts it to register at all.
- A marker write that stops before the history is forgotten at the next finalize:
  `InterruptedWriteForgottenIff`.
- Retiring evicted service-account keys is best effort, and when it fails a withdrawn key is no longer
  accounted for: `StepConservesIff`, `RotationsConserveIff`.
- `UpsertExport` rewrites the file on every call for values that span lines, `EnsureLine` appends a
  blank line, or a text with a newline, again and again: `UpsertConvergesIff`, `EnsureAgainIff`.
- The export resource reports a wrong file mode as drift, but an upsert that has no line to change
  does not set the mode, so that drift stays: `StillDriftedIff`, `WrongModeStays`.
- A partial run with a failed phase reports success even when a cyclic graph kept other phases from
  running: the failure returns before the check for completeness
  (internal/pulumi/phase_runner.go:149-158). `PartialRunsAllIff` says when all ran, `VerdictIff`
  which error is returned.
- The lock is best effort per call, and one process that proceeds without it is enough to lose edits,
  also those of a process that holds it: `FallbackRun`, `AlwaysSerialIff`.

## Beyond what the callers do

Two statements about inputs that the program itself does not produce; they matter to whoever adds
another caller.

- `WriteMarker` does not renew an id that is already in the history: `RewrittenIdSurvivesIff`. The
  callers first ask whether the id is finalized (internal/module/ca-rotation/module.go:85,
  internal/app/app.go:389), and `RotationRuns` has no such step.
- Version maps have one "major.minor" key for each version (internal/config/versionmap.go:9-11). If a
  map spelled one version in several ways, a request for exactly that version would still get the
  canonical key; other requests it answers would depend on the order of the map unless the spellings
  carry one value: `DeterminedIff`, `TwoSpellingsIff`, `ComesFromSomeOrderIff`.

## Model

| member | source | states |
|---|---|---|
| `Phases.Index` | internal/carotation/phase.go:29-38 | a phase has index i exactly when it is entry i of the protocol order; anything else has -1 |
| `Phases.NextClimbs` | internal/carotation/phase.go:45-56 | the next phase of any value is one step up the order, and done is its own successor |
| `Phases.StatusRoundTripIff` | internal/carotation/coord.go:116-126 | a reported status is read back as the reported phase exactly when the rotation id has no `@` |
| `Phases.StatusNeverMisread` | internal/carotation/coord.go:443-454 | whatever the ids, a status is never read as a different protocol phase than the one reported |
| `RotationIds.CanLeavePrepareIff` | internal/carotation/coord.go:443-454 | a rotation can get past prepare with one of its hosts still in the cluster exactly when its id has no `@` |
| `CoordStore.ReadsStayPast` | internal/carotation/coord.go:133-168 | every step of every client keeps all outstanding reads at or behind the server object: same version means same object |
| `CoordStore.StepKeepsOrResets` | internal/carotation/coord.go:128-168 | per step, with any number of clients between Get and Update: the ConfigMap changes its rotation id, or keeps the participants and never lowers the phase |
| `CoordStore.StepMovesToTarget` | internal/carotation/coord.go:338-368 | a step of a run moves the phase to the maximum of where it is and the target the step completed |
| `CoordStore.AdvancesEndAtMaximum` | internal/carotation/coord.go:338-368 | concurrent advances of one rotation end at the maximum of the starting phase and all completed targets, for every interleaving |
| `CoordStore.ForeignReadsSeePrepare` | internal/carotation/coord.go:222-319 | while one rotation holds the ConfigMap, a read for any other id gives prepare and no participants |
| `CoordStore.OwnReadsBack` | internal/carotation/coord.go:222-239 | a rotation reads back from its own ConfigMap exactly the recorded names, and the recorded phase if it is a protocol phase |
| `CoordStore.ClaimReadsBack` | internal/carotation/coord.go:128-168 | claiming a missing or foreign ConfigMap makes the rotation read exactly the listed names and prepare |
| `CoordStore.AdvanceReadsBack` | internal/carotation/coord.go:338-368 | what an undisturbed advance leaves in each case: no participants when there was no ConfigMap, the listed names over a foreign one (left alone when the target is prepare), its own raised and otherwise unchanged |
| `CoordStore.IdleRotationSeesPrepare` | internal/carotation/coord.go:222-319 | in every run in which no client works for an id and the ConfigMap was not its own, reads for that id give prepare and no participants throughout |
| `CoordStore.HeartbeatTouchesForeignIff` | internal/carotation/coord.go:321-337 | a heartbeat alters the ConfigMap of another rotation exactly when its read still saw its own; even then it keeps phase and participants |
| `CoordStore.HeartbeatTouchesForeignExample` | internal/carotation/coord.go:321-337 | a four-step interleaving in which a late master marks a foreign rotation as driven |
| `CoordStore.EnsureRotation` | internal/carotation/coord.go:128-155 | success took effect at one instant between call and return and leaves the ConfigMap owned by the rotation; one claimed from another rotation, or created, reads back exactly the listed names and prepare; a conflict means five other writes |
| `CoordStore.AdvanceDesiredPhase` | internal/carotation/coord.go:338-368 | success took effect at one instant, after which the rotation reads the higher of its phase and the target, with its participants unchanged; over a foreign ConfigMap it reads the target and the listed names |
| `BarrierCheck.PendingNamesBlockers` | internal/carotation/coord.go:389-420 | the pending list is empty exactly when no listed, present, non-terminating node lags |
| `BarrierCheck.AllNodesReached` | internal/carotation/coord.go:370-410 | true exactly when every node in the cluster that is recorded (any, when none is) and not terminating reported the phase or a later one, whatever the order of the lists |
| `BarrierCheck.OutsiderIgnored` | internal/carotation/coord.go:389-404 | with recorded participants a node outside them makes no difference to the check |
| `BarrierWait.PendingKeyIff` | internal/carotation/coord.go:582-588 | two pending lists of comma-free names have the same key exactly when one is a permutation of the other |
| `BarrierWait.Barrier` | internal/carotation/coord.go:517-580 | opens exactly at the first poll whose desired phase is at or past the next one; a worker gives up exactly on a heartbeat as old as the abandon timeout; each other failure only under its own condition; it goes on only past polls that decide nothing |
| `BarrierWait.TrackStretch` | internal/carotation/coord.go:528-563 | the stall clock dates from the last observation with a different key, and every observation since then had the same key |
| `BarrierWait.StallMeansNoChange` | internal/carotation/coord.go:557-563 | a stall failure implies that for the whole stall timeout every observed pending set was the same |
| `BarrierWait.StallIff` | internal/carotation/coord.go:557-563 | with a clock that does not run backwards a stall is reported exactly when a master's looks over at least the stall timeout all found the same nodes pending |
| `SortedStrings.SortEqualIff` | internal/carotation/coord.go:582-588 | sorting makes two lists equal exactly when they hold the same strings equally often |
| `RotationProtocol.StepKeepsInv` | internal/module/ca-rotation/module.go:385-535 | every step of every node (ensure, list, write, retry after a conflict, give up an advance, install, load, report, save, poll, check, abort at any point) and of the environment keeps the protocol invariant |
| `RotationProtocol.RunKeepsInv` | internal/carotation/coord.go:128-168 | the invariant holds in every state of every run of one rotation, for any number of nodes and any interleaving, crashes and failed list or participant reads included |
| `RotationProtocol.JudgedAllReported` | internal/carotation/coord.go:370-410 | a passed check on an older node list, with recorded participants or the fallback, means that every live host has reported the phase |
| `RotationProtocol.WriteIsSound` | internal/carotation/coord.go:128-168 | an accepted ConfigMap write never names a phase ahead of what all live hosts have reported |
| `RotationProtocol.PhaseSkew` | internal/carotation/coord.go:522-557 | if any node has begun to write the files of phase q, every live host has reported phase q-1 |
| `RotationProtocol.LivePhasesAdjacent` | docs/ca-rotation-design.md:99-128 | the phases whose files the services of two live hosts may be using never differ by more than one |
| `RotationProtocol.EveryPeerTrusted` | docs/ca-rotation-design.md:99-128 | in every reachable state each live host accepts the certificate and the service-account tokens of every other, whatever mixture of old and new files their services have loaded |
| `JoiningNodes.AcceptedFromFinalize` | docs/ca-rotation-design.md:426-434 | in every state of every run whose ConfigMap says finalize or done, every live old-CA host and every node minted with the new CA accept each other |
| `JoiningNodes.NobodyAcceptsAtPrepare` | internal/module/ca-rotation/module.go:385-535 | while the ConfigMap says prepare no host has begun cutover, and none accepts a joiner |
| `JoiningNodes.SplitAtCutover` | internal/carotation/coord.go:400-407 | at cutover there is a run with one master that has cut over and accepts the joiner and another that is at odds with it |
| `JoiningNodes.RejectedBefore` | internal/carotation/coord.go:400-407 | at prepare and at cutover there is a run in which a node joins and is at odds with a live host |
| `JoiningNodes.JoiningIsSafeIff` | docs/ca-rotation-design.md:426-434 | joining is safe in all runs exactly for those ConfigMap phases that are at least finalize |
| `JoiningNodes.SplitIff` | docs/ca-rotation-design.md:426-434 | counting only joiners that some live node accepts, so that they could register, one of them can be at odds with another live node exactly while the ConfigMap says cutover |
| `RotationProtocol.BarrierOpens` | internal/carotation/coord.go:541-549 | once every recorded node (any, when none is) that is in the cluster and not terminating shows the phase, any one master at the barrier can open it alone, changing nothing but the ConfigMap, and move on |
| `RotationProgress.StagesFollowDesign` | docs/ca-rotation-design.md:99-128 | the four stages present and accept what the design says, and none changes trust and presented material at once |
| `RotationProgress.PhaseCompletes` | internal/module/ca-rotation/module.go:385-535 | a node that has come to a phase completes it in four steps of its own: files, services, report, state |
| `RotationProgress.RestartReports` | internal/module/ca-rotation/module.go:385-535 | a process that starts again reports the phase in its state file once more and goes through the phases from the first, changing nothing else |
| `RotationProgress.CompletedIsSkipped` | internal/module/ca-rotation/module.go:385-535 | a phase in the state file is not done again: the node goes straight to its barrier, or is done |
| `RotationProgress.HoldParks` | internal/module/ca-rotation/module.go:385-535 | a hold ends the run before finalize and leaves the node as it is; prepare and cutover are entered all the same |
| `RotationProgress.ParticipantsStay` | internal/carotation/coord.go:128-168 | in every run of a rotation the participants, once recorded, never change |
| `RotationProgress.AdmitLeavesCheck` | internal/carotation/coord.go:389-404 | in every run, a node that joins outside the recorded participants leaves the result of the check as it was, reporting or not |
| `RotationProgress.DepartureLeavesCheck` | internal/carotation/coord.go:389-404 | a node that terminates or leaves never turns a passed check into a failed one |
| `RotationProgress.OpensDespiteJoiner` | internal/carotation/coord.go:389-404 | with a joiner that never reports, a master still opens the barrier once the recorded participants have reported |
| `RestartLease.StepKeepsInv` | internal/carotation/coord.go:646-711 | every stamp, read, check, write, release and crash keeps the lease invariant as long as holders are inside their window |
| `RestartLease.MutualExclusion` | internal/carotation/coord.go:620-688 | no two masters are ever in the restart section, for any number of masters and any interleaving, if each is there only before its stamped RenewTime plus its seconds, counted in microseconds |
| `RestartLease.CheckAgainstHolder` | internal/carotation/coord.go:713-723 | in every run, another master's check of the present lease sends it away strictly before the holder's RenewTime plus seconds and lets it through from then on |
| `RestartLease.HeldByOtherIff` | internal/carotation/coord.go:713-723 | a lease stands in the way exactly when it has another holder and lacks one of its times or RenewTime plus seconds has not come |
| `RestartLease.RunKeepsReads` | internal/carotation/coord.go:646-711 | in every run, holders that overstay included, what a master read is the lease as it is or was, and it releases only what it read as its own |
| `RestartLease.ReleaseFreesOnlyOwn` | internal/carotation/coord.go:690-711 | in every run, stale holders included, a release changes the lease exactly when the lease is still the one the releaser read as its own |
| `RestartLease.FreeLeaseIsTaken` | internal/carotation/coord.go:646-688 | from any state, a master outside that finds the lease missing, free, its own or expired is inside after four steps of its own, and nobody else changed |
| `RestartLease.EntersAloneIff` | internal/carotation/coord.go:713-723 | a crashed holder cannot wedge the cluster: with nobody else moving, a master outside can get in at some later time, exactly unless the lease is someone else's and lacks one of its times |
| `RestartLease.OverstayBreaksExclusion` | internal/carotation/coord.go:598-612 | from any state of the invariant with a holder past its window, any master outside gets in beside it in four steps |
| `RestartLease.OverstayIsReached` | internal/carotation/coord.go:598-612 | and such a state is reached from any start without a lease, for any master and any duration |
| `RestartLease.TryAcquireLease` | internal/carotation/coord.go:646-688 | acquired means one accepted write at one instant, stamped before the read, on a lease that was free, its own, or at or past RenewTime plus seconds; busy means another holder before that instant or without both times; all else wrote nothing |
| `RestartLease.AcquireRestartLock` | internal/carotation/coord.go:598-644 | enters only with a lease in its own name, stamped within the call and with a positive duration; gives up only after a failed attempt past the deadline; always returns |
| `RestartLease.ReleaseLease` | internal/carotation/coord.go:690-711 | frees the lease at one instant, with RenewTime an hour back, if it is still its own; otherwise writes nothing, because it was not its own or after five conflicts |
| `PhaseGraph.StuckSetHasCycle` | internal/pulumi/phase_runner.go:155-157 | a set of phases each waiting for another of the set contains a dependency cycle |
| `PhaseGraph.RankedIsAcyclic` | internal/pulumi/phase_runner.go:45-63 | a graph whose dependencies have lower rank has no cycle |
| `PhaseTrace.StartsAfterDependencies` | internal/pulumi/phase_runner.go:80-143 | a phase starts only after each in-plan dependency was received and handled without error and, outside partial mode, succeeded |
| `PhaseTrace.NoRepeats` | internal/pulumi/phase_runner.go:80-143 | no phase is started or received twice |
| `PhaseTrace.SlotsRespected` | internal/pulumi/phase_runner.go:81-101 | at most `parallelism` phases run at once |
| `PhaseTrace.AbortStopsStarting` | internal/pulumi/phase_runner.go:111-133 | after a handler error, or a phase error outside partial mode, nothing more starts |
| `PhaseTrace.MayStartIff` | internal/pulumi/phase_runner.go:80-143 | a phase may start next exactly when no stopping error was received, a slot is free, it has not started, each in-plan dependency was received without a blocking error, and no earlier phase is ready |
| `PhaseTrace.UnstartedIff` | internal/pulumi/phase_runner.go:122-142 | nothing else stops a run: without a stopping error a phase stays unstarted exactly when an in-plan dependency was never received |
| `PhaseTrace.PartialRunsAllIff` | internal/pulumi/phase_runner.go:122-142 | a partial run without handler errors, whatever phases failed, runs every task exactly when the in-plan graph is acyclic, and then reports success |
| `PhaseTrace.VerdictIff` | internal/pulumi/phase_runner.go:146-158 | which error is returned: the earliest handler error if any, else the earliest phase error outside partial mode, and the incomplete graph only when there was no error at all |
| `PhaseTrace.FinishedReceivesAll` | internal/pulumi/phase_runner.go:103-109 | every started phase has been received and handled when the scheduler returns |
| `PhaseTrace.FirstErrorIsEarliest` | internal/pulumi/phase_runner.go:111-133 | the error kept is the earliest received one, for handler errors and for phase errors |
| `PhaseTrace.UnrunHasCycle` | internal/pulumi/phase_runner.go:155-157 | when a run without failures stops early, the phases that did not run contain a dependency cycle |
| `PhaseTrace.CompleteRunIsAcyclic` | internal/pulumi/phase_runner.go:146-158 | a run in which everything was received proves the graph acyclic |
| `PhaseTrace.CompletesIffAcyclic` | internal/pulumi/phase_runner.go:146-158 | without failures the result is success exactly when the in-plan graph is acyclic, for every parallelism and completion order, and then every task ran; otherwise it is the could-not-be-completed error |
| `PhaseTrace.LaterStartIsLaterInCatalog` | internal/pulumi/phase_runner.go:161-165 | with one slot and a catalog that respects the dependencies, later starts are later in the catalog |
| `PhaseTrace.SerialRunFollowsCatalog` | internal/pulumi/phase_runner.go:65-68 | with one slot, no failures and a catalog that respects the dependencies, every task starts and the execution order is the catalog order |
| `PhaseTrace.HandlerSeesAllDependencies` | internal/pulumi/program.go:231-273 | when the phase-done handler builds its DependsOn list, the list holds each declared dependency as often as declared if it is in the plan and could be registered, and nothing else |
| `PhaseScheduler.SortByIndex` | internal/pulumi/phase_runner.go:161-165 | the sorted queue is an ordered permutation by catalog position |
| `PhaseScheduler.LinkDependencies` | internal/pulumi/phase_runner.go:53-59 | the counter of a task and the reverse edges count its in-plan dependencies with their multiplicity |
| `PhaseScheduler.Prepare` | internal/pulumi/phase_runner.go:36-68 | after the setup the counters count all in-plan dependencies and the queue holds exactly the ready phases in catalog order |
| `PhaseScheduler.ReleaseDependents` | internal/pulumi/phase_runner.go:135-141 | releasing a phase leaves each counter at the number of dependencies still pending and queues exactly the phases that reach zero |
| `PhaseScheduler.Handle` | internal/pulumi/phase_runner.go:111-143 | handling a completion keeps counters and queue exact for the extended trace |
| `PhaseScheduler.StartPhases` | internal/pulumi/phase_runner.go:81-101 | the inner loop starts least-index ready phases until it is stopped, out of slots or out of ready phases |
| `PhaseScheduler.ReceiveOne` | internal/pulumi/phase_runner.go:107-143 | any running phase may complete next, with any errors; one result is added, so the loop terminates |
| `PhaseScheduler.RunPhaseDAG` | internal/pulumi/phase_runner.go:31-159 | terminates with a finished valid trace, the verdict that trace calls for and exactly the received results; a partial run of an acyclic plan without handler errors has a result for every task and no error |
| `RotationHistory.MarkerFiles.RecordFinalized` | internal/carotation/state.go:72-87 | the history gains the id at the end unless it is there, and keeps the last 64 |
| `RotationHistory.MarkerFiles.WriteMarker` | internal/carotation/state.go:43-52 | marker and history after a write that got as far as a given point |
| `RotationHistory.WriteReadsBackIff` | internal/carotation/state.go:43-70 | a completed write of a new id is read back as intended exactly when the id is non-empty and free of white space |
| `RotationHistory.SpacedIdPollutesHistory` | internal/carotation/state.go:64-70 | finalizing an id of two words makes its first word count as finalized |
| `RotationHistory.HistoryIsLastRecordings` | internal/carotation/state.go:72-87 | over any sequence of writes the history is duplicate-free, at most 64 long and equal to the last 64 recordings |
| `RotationHistory.SurvivesIff` | internal/carotation/state.go:72-95 | an entry is still known exactly while the newer recordings before and after the present fill fewer than 64 places |
| `RotationHistory.FreshWriteSurvivesIff` | internal/carotation/state.go:43-95 | an id recorded by its write survives exactly 63 further new ids |
| `RotationHistory.InterruptedWriteForgottenIff` | internal/carotation/state.go:43-52 | after an interrupted write the id is forgotten at the next finalize unless the write reached the history |
| `RotationHistory.RecordedIdSurvivesIff` | internal/carotation/state.go:43-95 | after a write of a new id it is still finalized exactly while fewer than 64 of the later writes were new |
| `RotationHistory.RewrittenIdSurvivesIff` | internal/carotation/state.go:72-76 | writing an id that is already recorded does not renew it: it is still finalized exactly while the later new writes and the entries already behind it are fewer than 64 |
| `RotationHistory.RewrittenIdIsForgotten` | internal/carotation/state.go:72-76 | for example, the oldest of 64 entries, written again, is lost to the next finalize |
| `RotationRuns.Reconciler.Classify` | internal/app/app.go:370-404 | create exactly when the token is empty, is the persisted id, the marker or in the history, or the node has no state and no CA; then the token is applied, and only such a new node has its marker written |
| `RotationRuns.Reconciler.Persist` | internal/reconcile/reconciler.go:1012-1023 | the state saved is the trimmed marker, or the trimmed previous id only when there is no marker; a preview saves nothing |
| `RotationRuns.RunKeepsInv` | internal/app/app.go:370-404 | over any history of processes, every id in marker, history or state was once written |
| `RotationRuns.AppliedOnlyWhenWritten` | internal/app/app.go:370-404 | a non-empty token counts as applied only if its marker was once written here or this process found a never-reconciled node without a CA |
| `RotationRuns.PersistedIsWritten` | internal/reconcile/reconciler.go:997-1023 | the persisted rotation id is always empty or the id of a written marker |
| `RotationRuns.AppliedIff` | internal/app/app.go:370-404 | in every state of every run a token is ordinary convergence exactly when there is none, it is persisted, in the marker or in the history, or the node is new |
| `RotationRuns.StateFollowsMarker` | internal/reconcile/reconciler.go:997-1023 | in every run a successful process persists the marker whenever there is one |
| `RotationRuns.NewNodeStaysCreate` | internal/app/app.go:396-404 | a new node given a token stays on ordinary convergence for it, its CA installed and its first run failed, until 64 further ids were recorded |
| `RotationRuns.FinalizedStaysApplied` | internal/app/app.go:389-391 | after a completed first write of a marker every later process given that token is ordinary convergence until 64 further ids were recorded |
| `KeyBundle.ParsePublicKeys` | internal/certutil/pubkeys.go:47-74 | the parsed keys in file order, re-encoded |
| `KeyBundle.KeyIdsOf` | internal/certutil/pubkeys.go:47-74 | the keys of a bundle are its public keys and the keys its certificates carry, and no others |
| `KeyBundle.DedupPrefix` | internal/certutil/pubkeys.go:252-268 | repetitions are removed behind the first occurrence: later blocks never move what earlier ones gave |
| `KeyBundle.CapPublicKeyBundle` | internal/certutil/pubkeys.go:233-270 | kept followed by dropped is the duplicate-free sequence of parsed keys; without a positive maximum nothing is dropped, with one the kept keys never exceed it and fill it before any is dropped; what does not parse at all is returned untouched |
| `KeyBundle.CapCertBundle` | internal/certutil/pubkeys.go:272-315 | the same for certificates, with the number dropped |
| `KeyBundle.CapTwice` | internal/certutil/pubkeys.go:233-270 | capping twice keeps what capping once keeps and drops nothing more |
| `KeyBundle.DedupInner` | internal/certutil/pubkeys.go:252-268 | removing repetitions from the older part first makes no difference |
| `KeyBundle.RecordRetired` | internal/carotation/state.go:282-313 | the registry gains exactly the non-blank trimmed ids and is rewritten exactly when one is new |
| `KeyBundle.HoldRotation` | internal/module/ca-rotation/module.go:779-807 | prepare publishes the new key and the live ones capped at three, and retires exactly what was evicted |
| `KeyBundle.FinalizeRotation` | internal/module/ca-rotation/module.go:892-942 | finalize publishes the new key alone and retires everything else that was live |
| `KeyBundle.StepConservesIff` | internal/module/ca-rotation/module.go:779-942 | published and retired keys stay disjoint and together all keys ever seen exactly when whatever left the bundle was recorded |
| `KeyBundle.RotationsPublishNewest` | README.md:183-186 | over any number of rotations, held or finalized, recorded or not, the published keys are the newest keys ever seen: one more with each held rotation up to the cap of three, one after a finalize |
| `KeyBundle.HeldRotationsPublishNewestMax` | internal/certutil/pubkeys.go:233-240 | as long as every rotation is held, the published keys are the newest three of all keys ever seen |
| `KeyBundle.RotationsConserveKeys` | internal/carotation/state.go:282-313 | over any number of held and finalized rotations with recording working, the published keys are the newest within the cap, disjoint from the retired ones, and none is lost |
| `KeyBundle.RotationsConserveIff` | internal/module/ca-rotation/module.go:779-942 | over any number of rotations the books balance exactly when every step so far recorded what left the bundle, if anything did: a key that slipped through is never accounted for again |
| `KeyBundle.HeldKeepsNewest` | internal/module/ca-rotation/module.go:779-791 | one held rotation publishes the newest of the new key and those published before, up to three |
| `KeyBundle.RepublishedKeySafeIff` | internal/module/ca-rotation/module.go:779-791 | publishing a key again keeps published and retired disjoint exactly when it was not retired |
| `ShellQuote.RenderedReadsBack` | internal/host/ops.go:204-207 | the shell reads the rendered assignment as the variable and exactly the value, for every value; both printers of the repository are this one rendering |
| `ShellQuote.RenderedInjective` | provider/hostplugin/export_resource.go:212-214 | different values are rendered differently |
| `HostFiles.FilterExportLines` | internal/host/ops.go:454-477 | keeps every line as often as it was there, in order, except those that start with either way of exporting the variable, which are gone |
| `HostFiles.DropEmptyTrailingLines` | internal/host/ops.go:495-501 | what is left is a prefix that does not end in a blank line, and all that was dropped is blank |
| `HostFiles.HostFile.UpsertExport` | internal/host/ops.go:190-232 | either no change and the file as it was, or the new text with the mode asked for; deleted exactly when nothing is left; created only where there was no file; a preview reports the same and writes nothing |
| `HostFiles.HostFile.EnsureLine` | internal/host/ops.go:159-188 | either no change and the file as it was, or the old text followed by the line with the mode asked for; created exactly where there was no file; a preview reports the same and writes nothing |
| `HostFiles.HostFile.ObserveExport` | provider/hostplugin/export_resource.go:169-190 | reports whether the file exists and whether one of its lines is the desired one |
| `ExportConvergence.AfterLines` | internal/host/ops.go:204-231 | whether or not it had to write, an upsert leaves the other lines in order followed by the rendered assignment |
| `ExportConvergence.UpsertConvergesIff` | internal/host/ops.go:204-216 | a second identical upsert reports no change exactly when the value is empty or every line of the rendered assignment starts like an assignment of the variable |
| `ExportConvergence.MultiLineNeverConverges` | internal/host/ops.go:204-216 | values that span lines and whose last line starts with anything but `e` or `d` change the file every time |
| `ExportConvergence.UpsertEffect` | internal/host/ops.go:204-231 | after an upsert the lines of the variable are those of the rendered assignment, and all other non-blank lines survive in order |
| `ExportConvergence.SingleLineUpsert` | internal/host/ops.go:190-232 | for one-line values exactly one line of the variable is left, none for the empty value |
| `ExportConvergence.ExportLineIff` | internal/host/ops.go:190-232 | of the lines that start with either way of exporting the variable exactly the rendered one is in the file, if there is a value |
| `ExportConvergence.OtherLineCount` | internal/host/ops.go:454-477 | every other non-blank line is in the file as often as before |
| `ExportConvergence.OtherVariableKept` | internal/host/ops.go:454-477 | an upsert leaves the lines of every other variable as they were |
| `ExportConvergence.LastUpsertWins` | internal/host/ops.go:190-232 | after any sequence of upserts each variable has its last value, and variables not named keep their lines |
| `ExportConvergence.ObservedIff` | provider/hostplugin/export_resource.go:169-190 | right after an upsert the provider observes the desired value exactly when it is non-empty and fits on a line |
| `ExportConvergence.DiffExport` | provider/hostplugin/export_resource.go:192-210 | drift reasons are given exactly when the file is missing, of another mode or without the value, for what was observed of it; and which |
| `ExportConvergence.StillDriftedIff` | provider/hostplugin/export_resource.go:192-210 | drift left right after an upsert: a value that spans lines, or the wrong mode of an existing file whose lines needed no change |
| `ExportConvergence.WrittenMode` | internal/host/ops.go:159-232 | a file that is written has the mode asked for; one left alone needed no change of its text |
| `ExportConvergence.WrongModeStays` | internal/host/ops.go:213-216 | for example, once a value was exported, asking for another mode changes nothing and stays drift |
| `ExportConvergence.ApplyExport` | provider/hostplugin/export_resource.go:37-65 | create and update apply, observe and compare: the drift they report after applying is exactly what the upsert could not cure, and a preview reports the drift it found |
| `ExportConvergence.ShellReadsUpserted` | internal/host/ops.go:204-207 | the one line left of the variable is read by the shell as the desired assignment |
| `SharedFile.EnsureHolds` | internal/host/ops.go:174-187 | a required line is in the file afterwards, appended only if it was missing, and nothing else changes |
| `SharedFile.EnsureExtends` | internal/host/ops.go:174-187 | the text is only ever extended, for any line |
| `SharedFile.EnsureAgainIff` | internal/host/ops.go:174-187 | a second identical call changes nothing exactly when the line has no newline and is not blank, or is blank and was already found or the file was missing |
| `SharedFile.LinesInOrder` | internal/host/ops.go:159-188 | any sequence of required lines: originals first and kept, each requested line that was missing exactly once |
| `SharedFile.Serializable` | internal/host/filelock.go:27-45 | under the lock, every interleaving of any number of processes, dying ones included, leaves what the written requests make of the file one after the other |
| `SharedFile.NoLostUpdates` | internal/host/filelock.go:16-26 | every original line and every requested line is in the file, and none was appended twice |
| `SharedFile.LastExportWins` | internal/host/filelock.go:16-26 | concurrent export upserts leave each variable with the value written last |
| `MixedEdits.EnsureShown` | internal/host/ops.go:174-187 | a required line joins the end of the normalised lines of a file with any line ends, or was among them |
| `MixedEdits.UnrelatedLineShownIff` | internal/host/ops.go:159-232 | required lines and exports in any sequence: a line that assigns no exported variable is in the file exactly when it was there or was required |
| `MixedEdits.VariableHasLastExport` | internal/host/ops.go:159-232 | and a variable that no required line assigns has the value exported last |
| `MixedEdits.MixedEditsKept` | internal/host/filelock.go:16-26 | both, for every interleaving of processes that require lines and export variables in one file under the lock |
| `LockFallback.FallbackRun` | internal/host/filelock.go:24-41 | of two processes not both of which lock, either can finish first and have its edit lost, whatever the edits: the lock does not protect even its holder from one that falls back |
| `LockFallback.FallbackLosesUpdate` | internal/host/filelock.go:24-41 | for example, of two required lines only the second is left, which no serial order of the log gives |
| `LockFallback.AlwaysSerialIff` | internal/host/filelock.go:16-45 | all runs of a set of processes are serial exactly when none of them may fall back or there is at most one of them |
| `GoQuote.UnquoteCharOfEscaped` | e2e/scenario/scenario.go:195-201 | every spelling of a character is read back as that character, whatever follows it |
| `GoQuote.NumericSpellings` | e2e/scenario/scenario.go:195-201 | characters that are neither printable nor have a letter are spelled with two, four or eight lower-case hexadecimal digits, by size |
| `GoQuote.UnquoteOfQuoted` | internal/config/heatparams.go:247-253 | unquoting a quoted text gives the text back, whichever characters above ASCII count as printable |
| `HeatParams.ReadLine` | internal/config/heatparams.go:221-239 | what one line sets, if anything |
| `HeatParams.ParseHeatParams` | internal/config/heatparams.go:209-245 | the last line that sets a key wins, other lines are skipped, and one line at or over 4 MiB fails the file |
| `HeatParams.SetsIff` | internal/config/heatparams.go:221-233 | a line sets something exactly when, spaces aside, it is no comment and has an equals sign behind a first character |
| `HeatParams.BareValue` | internal/config/heatparams.go:234-260 | a value that does not start and end with one kind of quotation mark is taken as it is |
| `HeatParams.ApostropheValue` | internal/config/heatparams.go:254-260 | apostrophes are taken off and nothing between them is changed |
| `HeatParams.MalformedValue` | internal/config/heatparams.go:247-260 | a double-quoted value that does not unquote is kept, marks included |
| `HeatParams.LaterLineWins` | internal/config/heatparams.go:209-245 | a later setting of a key replaces an earlier one and leaves the other keys alone |
| `HeatParams.AsciiFits` | internal/config/heatparams.go:209-216 | a line of plain text is too long from 4,194,304 characters on |
| `HeatParams.Render` | e2e/scenario/scenario.go:195-201 | the rendered file |
| `HeatParams.RoundTripIff` | internal/config/heatparams.go:209-260 | the rendered file is read back as every key with its last value exactly when all keys are ones a line can carry and every line is under the limit; values may hold anything |
| `HeatParams.ParsedKey` | internal/config/heatparams.go:222-238 | a parsed key is never blank, padded, commented out or split over lines |
| `HeatParams.StrayLineIgnored` | internal/config/heatparams.go:226-236 | a line that sets nothing can be removed without changing the result |
| `NodeTaints.CheckItem` | internal/config/nodemetadata.go:132-153 | the checks of one item, in order |
| `NodeTaints.ParseNodeTaints` | internal/config/nodemetadata.go:119-163 | the accepted taints and the warnings of a list |
| `NodeTaints.ParseIsSound` | internal/config/nodemetadata.go:119-163 | whatever the input, the result has only valid taints, no two with the same key and effect, and every stated item is a taint or a warning |
| `NodeTaints.ValidInWords` | internal/config/nodemetadata.go:119-163 | a valid taint has one of the three effects, no reserved key, a key and a value within the length limits and a value that starts and ends with a letter or digit |
| `NodeTaints.PlainTaintsAreValid` | internal/config/nodemetadata.go:119-163 | plain names of at most 63 characters are valid, bare or behind a plain prefix, with each of the effects |
| `NodeTaints.BadEffectIff` | internal/config/nodemetadata.go:132-136 | an item is rejected for its effect exactly when it does not end in a colon and one of the three effects |
| `NodeTaints.PrintedOutcome` | internal/config/nodemetadata.go:137-153 | what becomes of the text of any taint with a known effect, and which warning it gets |
| `NodeTaints.EarlierItemsStay` | internal/config/nodemetadata.go:154-163 | later items never change what earlier ones gave: of two taints with one key and effect the first stays |
| `NodeTaints.PrintParses` | internal/config/nodemetadata.go:18-24 | what a valid taint prints parses to that taint |
| `NodeTaints.RoundTripIff` | internal/config/nodemetadata.go:119-163 | printing a list and parsing it gives the list back without a warning exactly when every taint is valid and unreserved and no two share key and effect |
| `VersionMap.AtoiOfItoa` | internal/config/versionmap.go:38-40 | a number printed in decimal is read back as itself over the whole 64-bit range |
| `VersionMap.KeyParses` | internal/config/versionmap.go:89-104 | the key of a version is read as that version |
| `VersionMap.ReleaseParses` | internal/config/versionmap.go:89-104 | the full name of any release of a version is read as that version |
| `VersionMap.LowestValue` | internal/config/versionmap.go:106-128 | the lower boundary: the value of a key with none below it, or the empty string without keys |
| `VersionMap.LookupByKubeVersionClamped` | internal/config/versionmap.go:26-74 | the value of the exact key whenever it is in the map; else the value of a greatest key not above the request; without one a lowest key's value, flagged; the same, flagged, for a request that is no version |
| `VersionMap.LookupVersion` | internal/config/versionmap.go:38-74 | the same from the parsed version on, the exact key first, whatever order the map is walked in |
| `VersionMap.UnflaggedAnswer` | internal/config/versionmap.go:38-74 | an unflagged answer comes from a key whose major and minor are at most the request's, with no key in between |
| `VersionMap.FlaggedAnswer` | internal/config/versionmap.go:58-63 | a flagged answer to a request that is a version: all keys are above it, and none is below the chosen one |
| `VersionMap.UnparsedAnswer` | internal/config/versionmap.go:30-37 | a request that is no version gets, flagged, the value of a key with none below it |
| `VersionMap.EmptyAnswer` | internal/config/versionmap.go:49-57 | without a key that is a version the answer is empty, and flagged only for a request that is none either |
| `VersionMap.ChoiceIsMonotone` | internal/config/versionmap.go:11-20 | when one request's major and minor are at most another's, so are those of the keys chosen for them, and the later one is flagged only if the earlier one is |
| `VersionMap.CanonicalChoiceUnique` | internal/config/versionmap.go:11-20 | with canonical keys the chosen key and the flag are determined by the request |
| `VersionMap.CanonicalAnswerUnique` | internal/config/versionmap.go:26-74 | with canonical keys the value and the flag are determined by the request, one that is no version included |
| `VersionMap.DeterminedIff` | internal/config/versionmap.go:38-74 | for any map and request, value and flag are determined exactly when the exact key is in the map or all keys the request may be answered from carry one value |
| `VersionMap.TwoSpellingsIff` | internal/config/versionmap.go:38-40 | with two spellings of one version and different values, the lookup is determined for requests of that version and for no other |
| `VersionMap.ComesFromSomeOrderIff` | internal/config/versionmap.go:46-73 | the keys a request may be answered from are exactly those that some order of the map and of the unstable sort leads to |
| `VersionMap.FloorKey` | internal/config/versionmap.go:64-73 | the walk up the sorted entries ends at a greatest key not above the request |

## Left out

- `PhaseScheduler.RunPhaseDAG`: requires unique phase ids in the plan; a plan that lists a phase twice is not modelled. Cancellation of running modules and the attempts of `runModuleWithRetry` are folded into the open outcome of a phase.
- `PhaseScheduler.Prepare`: does not sort the lists of dependents; every release sorts the queue again, so their order has no effect.
- `BarrierWait.Barrier`: takes one clock reading per poll and a finite sequence of polls; the pending names are arbitrary text, so `StallIff` says nothing about how often a NotReady duration inside a name makes it another name.
- `RestartLease.MutualExclusion`: says nothing about AcquireTime, which the code compares with a holder it has just overwritten.
- `CoordStore.EnsureRotation`: API errors other than not-found, already-exists and conflict are left to the caller's retry; requests of a process that died and that the server still carries out are not modelled.
- `RotationHistory.MarkerFiles.WriteMarker`: an interrupted marker is empty or whole, not torn in the middle; the history file is replaced by a rename and so is old or new.
- `KeyBundle.CapPublicKeyBundle`: PEM and DER bytes, key ids and certificates are abstract; a block parses to a key, to a certificate with its key, or not at all.
- `KeyBundle.RecordRetired`: the registry is a set; the sorted text of its file is not modelled, nor is a registry that cannot be read.
- `HostFiles.HostFile.UpsertExport`: file errors other than a missing file, and two CR characters before a newline, are not modelled.
- `ShellQuote.RenderedReadsBack`: the reader covers single quotes, backslashes and characters that stand for themselves; double quotes, expansions and operators outside quotes are not read.
- `GoQuote.UnquoteOfQuoted`: text is a sequence of Unicode scalar values; the escapes for single bytes of 0x80 and above, which only hand-written files contain, are read as the character of that number.
- `NodeTaints.ParseNodeTaints`: warnings are values, not sentences; the label parser beside it, which has the same shape, is left out.
- The hard (single-barrier) rotation, the manual phase override, resumption of another rotation's staging directory and the hold label's evaluation: in `RotationProtocol` a hold is an open choice before finalize.
- The Kubernetes, Pulumi, Helm, Magnum, Keystone and Nova clients, the Helm recovery cascade, and all cryptography.
- `RunAccumulator`, reporting, logging, previews' display, systemd, mode and ownership specs, and provider registration.
