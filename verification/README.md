# Sidecar coordinator: a verified model

The sidecar sits beside a rollup sequencer and takes part in a two-phase commit of
cross-chain transactions ("XTs"). This project models its coordination logic in
Dafny and proves what that logic keeps over whole runs. `dafny verify dfyconfig.toml`
checks everything.

## How it is organised

- `NonceLane`, `NonceRuns`: the allocator of `putInbox` nonces as an object and as
  a value, its partition invariant, and runs of it between two resets.
- `Matching`, `Fulfilment`, `Xt`: mailbox messages, the six-field key, the pass
  that serves dependencies from waiting messages, and the record of one XT with its
  votes, decision and dependency bookkeeping.
- `CoordState`, `Coordinator`: the shared state. Each hold of the state lock is one
  step; `Coordinator.CoordinatorState` is the object the handlers update, and each
  of its methods is proved to take exactly one step, or none where it refuses its
  input before it takes the lock.
- `StepLaws`: what each of these steps does, told on the fields of the state and the
  inputs alone.
- `CoordInvariants`, `MailboxIndex`, `Decisions`, `Bookkeeping`, `Conservation`: what
  every step keeps, and what follows for every reachable state and run.
- `BuilderSystem`, `BuilderControl`, `Rollbacks`: builder commands are computed under
  the lock and carried out later; all interleavings with other steps and with the
  nonce lane; what a rollback leaves of the lane.
- `Agreement`, `AgreementLimits`, `VoteDelivery`: several sidecars without a publisher,
  exchanging votes over a network that loses, duplicates and reorders messages; the
  runs that disagree; when a decision is reached.
- `Admission`, `Framing`: period and sequence admission; length-prefixed frames.
- `Overrides`, `TraceDiff`, `MailboxStorage`, `TraceWalk`, `TraceReports`, `Pipeline`,
  `Slices`: state overrides and what a node does with them, their reconstruction from a
  trace, the mailbox contract's storage, the walk over a call trace and what it reports,
  the simulate, wait and retry loop, and the state each transaction of a slice is
  simulated on.

## Assumptions that are stated, not hidden

- Keccak-256 is a function parameter. The storage theorem names the finitely many
  byte strings hashed and the chunk slots in use and assumes no collision among them.
- A diff-mode trace is described by `TraceDiff.Traces`: changed fields appear in the
  post-state, except a nonce of zero, empty code and slots that became zero;
  destroyed accounts appear only in the pre-state.
- The index is exact in exactly the runs whose registrations take over no entry, and
  conservation asks for registered names that are new. Names that are apart, such as
  those of one id scheme, take over nothing. That fulfilled keys are discovered keys is for runs in which a
  recording precedes each pass, as in the pipeline. Run theorems about releases
  exclude ids that are minted or registered twice. The lane theorems ask for ids
  without a live reservation and for runs that fit in 64 bits.
- In the agreement theorems members run this code: only the submitting sidecar and
  chains with transactions start a simulation, so only they vote. Voters that run no
  sidecar may vote as they like under their own chain ids.

## Where the expected property is false of the code

- Agreement fails when the submitting sidecar has no transactions of its own: it votes
  no and aborts, while the participants never wait for it. It also fails when a chain
  outside the XT votes (`AgreementLimits.AgreementExactlyWhen`): votes are counted
  without asking who cast them (`AgreementLimits.UnanimousExactlyWhen`).
- A submitted chain with an empty list makes the submitting sidecar wait for a vote
  nobody casts, so it never commits (`VoteDelivery.OriginDecidesExactlyWhen`).
- `reserve` for an id that is still live forgets nonces (`NonceLane.ReserveForgetsExactlyWhenLive`).
- Registrations do not check raw ids, so where both id schemes are in use a forwarded or
  submitted XT can take over the index entry of a publisher instance
  (`MailboxIndex.IndexSurvivesExactlyWhen`, `MailboxIndex.IndexExactExactlyWhen`).
- Which payload a dependency receives depends on the order of the waiting messages,
  because consumption moves the last message forward, although a comment in the source
  calls the order irrelevant (`Fulfilment.PayloadsOrderIndependentExactlyWhen`).
- A local submission does not take over buffered messages, and they are never used
  (`Conservation.NoneOverdueExactlyWhen`, `Conservation.OverdueIsNeverUsed`).
- A builder error during a rollback leaves the nonce floor and the remaining
  reservations in place (`Rollbacks.RollbackReanchorsExactlyWhen`); a rollback without errors
  forgets what other commands reserved before the reset (`Rollbacks.ResetReissuesExactlyWhen`).
- A delivered message that a transaction consumes is delivered again to the next one of
  the slice (`Slices.NextSeesPredecessorExactlyWhen`, `Slices.ConsumedMessageComesBack`).
- A trace that hides a cleared code or nonce is not reproduced (`TraceDiff.ReconstructsExactlyWhen`).
- Frames of 2^32 bytes or more are cut (`Framing.FrameRoundTripExactlyWhen`), and admission is
  ordered only for increasing period ids (`Admission.AdmissionOrderedExactlyWhen`).
- The statuses `waiting_circ` and `simulated` are never reported (`Bookkeeping.NeverWaitingCirc`).
- `record_decision` is documented as freeing simulation memory; the code keeps it, and so does the model.

## Model

| member | source | states |
|---|---|---|
| NonceLane.DeferredNonceManager.constructor | crates/coordinator/coordinator/src/nonce_manager.rs:39-41 | A new manager is the empty lane. |
| NonceLane.DeferredNonceManager.ReserveRun | crates/coordinator/coordinator/src/nonce_manager.rs:50-88 | Returns the start of the run and leaves exactly the lane `Reserve` describes; a failed fetch of the chain nonce changes nothing. |
| NonceLane.DeferredNonceManager.AnchorTo | crates/coordinator/coordinator/src/nonce_manager.rs:63-68 | Raising the floor drops recycled nonces and live ranges that the chain has passed, and nothing else. |
| NonceLane.DeferredNonceManager.ReleaseConfirmed | crates/coordinator/coordinator/src/nonce_manager.rs:94-99 | The reservation goes, its nonces are not recycled, and the floor rises to its end. |
| NonceLane.DeferredNonceManager.ReleaseAborted | crates/coordinator/coordinator/src/nonce_manager.rs:104-115 | The reservation goes and exactly its nonces at or above the floor are recycled. |
| NonceLane.DeferredNonceManager.Reset | crates/coordinator/coordinator/src/nonce_manager.rs:122-125 | The lane is empty again. |
| NonceLane.DeferredNonceManager.MaxEnd | crates/coordinator/coordinator/src/nonce_manager.rs:128-136 | The loop computes the largest live end or the floor. |
| NonceLane.DeferredNonceManager.FirstRecycled | crates/coordinator/coordinator/src/nonce_manager.rs:70-76 | The loop finds the least recycled nonce. |
| NonceLane.DeferredNonceManager.DropRecycled | crates/coordinator/coordinator/src/nonce_manager.rs:81-83 | Exactly the granted nonces leave the pool. |
| NonceLane.LiveEnd | crates/coordinator/coordinator/src/nonce_manager.rs:128-136 | The result bounds every live end and the floor, and is one of them. |
| NonceLane.ReserveKeepsPartition | crates/coordinator/coordinator/src/nonce_manager.rs:63-87 | A reservation for an id that is not live keeps live ranges and pool disjoint and gap-free from the floor up, and issues only nonces nobody holds, at or above floor and chain nonce. |
| NonceLane.ConfirmKeepsPartition | crates/coordinator/coordinator/src/nonce_manager.rs:94-99 | Confirming keeps the partition and lifts the floor past the confirmed range. |
| NonceLane.AbortKeepsPartition | crates/coordinator/coordinator/src/nonce_manager.rs:104-115 | Aborting keeps the partition and strands no nonce: what was held is recycled. |
| NonceLane.LeastFree | crates/coordinator/coordinator/src/nonce_manager.rs:66-87 | In every partitioned lane a single nonce is the least one at or above the floor that no reservation holds; a longer run starts at the least point above which nothing is held. |
| NonceLane.ReserveForgetsExactlyWhenLive | crates/coordinator/coordinator/src/nonce_manager.rs:84-86 | `reserve` overwrites an entry of the same id: it loses track of a nonce if and only if that id still has a live range past the floor. |
| NonceRuns.ReachableIsPartitioned | crates/coordinator/coordinator/src/nonce_manager.rs:50-115 | In every run of the lane each nonce from the floor to the high-water mark is in exactly one live range or in the pool. |
| NonceRuns.HolderKeepsNonce | crates/coordinator/coordinator/src/nonce_manager.rs:50-115 | A nonce issued to an id stays its own until that id aborts or the floor passes the nonce. |
| NonceRuns.NoDoubleIssue | crates/coordinator/coordinator/src/nonce_manager.rs:50-115 | Between two resets a nonce is issued again only after its previous holder was released as aborted. |
| NonceRuns.ReusedIdLosesNonces | crates/coordinator/coordinator/src/nonce_manager.rs:84-86 | The two-event run in which reserving again for a live id strands the nonces of the first reservation. |
| NonceRuns.FloorOnlyRises | crates/coordinator/coordinator/src/nonce_manager.rs:63-66 | Over every run the floor never moves down. |
| NonceRuns.IssuedAboveChain | crates/coordinator/coordinator/src/nonce_manager.rs:63-87 | Every issued nonce is at or above every chain nonce seen before and every confirmed range end. |
| Matching.SessionIdRoundTrip | crates/mailbox/src/wire.rs:8-19 | A session id travels as 32 bytes, most significant first; it survives the wire, and every well-sized byte string is the encoding of what it decodes to. |
| Matching.MatchIsKeyEquality | crates/mailbox/src/matching.rs:64-105 | A message matches a dependency if and only if its six decoded fields are the dependency's key; two dependencies one message matches have equal keys. |
| Matching.MatchesExactlyWhen | crates/mailbox/src/matching.rs:64-105 | A message matches a read if and only if it spells the six fields of the read; malformed fields match nothing. |
| Matching.WireDeliversToItsKey | crates/coordinator/coordinator/src/pipeline/simulation.rs:507-516 | A write put on the wire matches exactly the reads with the same six fields. |
| Fulfilment.FirstMatch | crates/coordinator/coordinator/src/pipeline/simulation.rs:455-458 | The first matching message: it matches and nothing before it does. |
| Fulfilment.FulfilFromMailbox | crates/coordinator/coordinator/src/pipeline/simulation.rs:437-481 | The in-place pass equals the pass on values and returns the number of messages used. |
| Fulfilment.PassConserves | crates/coordinator/coordinator/src/pipeline/simulation.rs:455-468 | Messages still waiting and messages used are together, as a multiset, the messages waiting before. |
| Fulfilment.PassEntries | crates/coordinator/coordinator/src/pipeline/simulation.rs:462-468 | A pass appends one entry per used message, carrying that message's payload. |
| Fulfilment.PassKeys | crates/coordinator/coordinator/src/pipeline/simulation.rs:449-468 | The keys fulfilled by a pass are exactly those asked for, not yet fulfilled and matched by a waiting message, whatever the order. |
| Fulfilment.WonFromWaiting | crates/coordinator/coordinator/src/pipeline/simulation.rs:455-468 | Every newly fulfilled key gets the payload of a message that was waiting for it. |
| Fulfilment.WriteReachesRead | crates/coordinator/coordinator/src/pipeline/simulation.rs:449-468 | A write that comes over the wire fulfils a read of its key with the bytes written. |
| Fulfilment.PayloadsOrderIndependentExactlyWhen | crates/coordinator/coordinator/src/pipeline/simulation.rs:455-466 | The payloads a pass assigns are the same for every order of the waiting messages if and only if messages of one needed key have one payload. |
| Fulfilment.SwapRemoveReordersPayloads | crates/coordinator/coordinator/src/pipeline/simulation.rs:460-463 | A concrete mailbox in which taking one message changes which of two others a later dependency receives. |
| Xt.MaybeMakeStandaloneDecision | crates/coordinator/coordinator/src/coordinator.rs:367-407 | Decides abort exactly when a counted vote is no, commit exactly when all votes are yes and at least one per listed chain, and returns the counts. |
| Xt.CountPeerVotes | crates/coordinator/coordinator/src/coordinator.rs:386-394 | The loop counts each peer other than the local chain once and notices any no vote. |
| Xt.RecordingKeepsBooks | crates/coordinator/coordinator/src/pipeline/simulation.rs:371-376 | Recording keeps key sets equal to the keys of their lists and adds exactly the missing keys. |
| Xt.FulfilmentKeepsBooks | crates/coordinator/coordinator/src/pipeline/simulation.rs:449-468 | A pass keeps the fulfilled list duplicate-free and its key set equal to its keys, and adds only keys it was asked for. |
| Xt.RecordingTouchesNothingElse | crates/coordinator/coordinator/src/pipeline/simulation.rs:371-376 | Recording dependencies changes only their list and key set. |
| Xt.OutboundTouchesNothingElse | crates/coordinator/coordinator/src/pipeline/simulation.rs:378-382 | Recording outbound messages changes only the outbound list. |
| Xt.DependenciesRecorded | crates/coordinator/coordinator/src/pipeline/simulation.rs:371-376 | Recording appends, for each key not known yet, the first dependency that carries it, and nothing else. |
| Xt.OutboundRecorded | crates/coordinator/coordinator/src/pipeline/simulation.rs:378-382 | Recording appends outbound messages of keys not recorded yet, and in the end every key is there. |
| Xt.SameWireKeyExactlyWhen | crates/coordinator/coordinator/src/pipeline/simulation.rs:496-521 | Two writes of an XT count as the same message if and only if all six fields agree, whatever the payload. |
| Xt.LengthsTellUnfulfilled | crates/coordinator/coordinator/src/model/xt_status.rs:36-41 | Comparing list lengths is equivalent to "some discovered dependency is unfulfilled". |
| Admission.PublisherPeriod.StartPeriod | crates/coordinator/coordinator/src/model/publisher_period.rs:18-21 | Opens the given period without a watermark. |
| Admission.PublisherPeriod.Close | crates/coordinator/coordinator/src/model/publisher_period.rs:23-25 | No period is open. |
| Admission.PublisherPeriod.AcceptStartInstance | crates/coordinator/coordinator/src/model/publisher_period.rs:32-64 | Refuses with the matching reason or advances the watermark. |
| Admission.WatermarkBoundsAccepted | crates/coordinator/coordinator/src/model/publisher_period.rs:32-64 | With increasing period ids the accepted pairs strictly increase, lie in periods already opened, and those of the open period do not exceed the watermark. |
| Admission.AdmissionOrderedExactlyWhen | crates/coordinator/coordinator/src/model/publisher_period.rs:18-64 | All runs over a list of period ids accept strictly increasing (period, sequence) pairs if and only if those period ids strictly increase. |
| Admission.AdmittedExactlyWhen | crates/coordinator/coordinator/src/model/publisher_period.rs:32-65 | After any run a message is admitted if and only if its period is the last one started, no rollback came since, and its sequence number is above every one seen for the period. |
| Admission.XtLessIsStrictTotal | crates/coordinator/coordinator/src/model/ordering.rs:6-14 | The canonical order is irreflexive, transitive and total. |
| Admission.BytesLessExactlyWhen | crates/coordinator/coordinator/src/model/ordering.rs:6-14 | Ids are compared by the first byte in which they differ, or by one being a proper prefix. |
| Admission.AdmissionIsXtOrder | crates/coordinator/coordinator/src/handlers/start_instance.rs:92-117 | With increasing period ids, earlier admission means smaller in the canonical order. |
| CoordState.StandaloneIdInjective | crates/primitives/src/lib.rs:69-71 | Distinct chains, and distinct sequence numbers of one chain, give distinct ids. |
| CoordState.StandaloneIdText | crates/primitives/src/lib.rs:64-71 | A minted id is the text `xt-`, the chain number, a dash and the sequence number in decimal. |
| CoordState.PublisherIdText | crates/primitives/src/lib.rs:77-79 | A publisher id spells each byte as two lower-case hex digits. |
| CoordState.PublisherIdInjective | crates/primitives/src/lib.rs:77-79 | The hex form of a publisher id determines its bytes. |
| CoordInvariants.ReachableIsCoherent | crates/coordinator/coordinator/src/coordinator.rs:80-122 | In every state reachable with names that are apart, mixed deployments included: the mailbox index is the inverse of the raw ids, every fingerprint is pending, at most 100 XTs are undecided, and the orphan buffer is within both caps. |
| CoordInvariants.ReachableIsKeyed | crates/coordinator/coordinator/src/coordinator.rs:80-122 | Whatever the steps of a run, every XT is kept under its own id. |
| CoordInvariants.MintedIsApart | crates/primitives/src/lib.rs:64-71 | Ids of the minted form are apart from all publisher-assigned bytes that do not have that form. |
| CoordInvariants.NextCoherent | crates/coordinator/coordinator/src/handlers/builder_control.rs:221-236 | Each single critical section keeps that invariant. |
| CoordInvariants.RegistrationCoherent | crates/coordinator/coordinator/src/coordinator.rs:504-555 | Submission, forwarding and StartInstance keep it, refusals included. |
| CoordInvariants.CleanupCoherent | crates/coordinator/coordinator/src/coordinator.rs:255-296 | Cleanup keeps it. |
| MailboxIndex.IndexSurvivesExactlyWhen | crates/coordinator/coordinator/src/handlers/forwarded_xt.rs:45-71 | Whatever the step, the index stays the inverse of the raw ids if and only if the step does not register an XT whose raw id is indexed for another XT or whose id is pending under another raw id. |
| MailboxIndex.IndexExactExactlyWhen | crates/coordinator/coordinator/src/coordinator.rs:504-555 | The index is exact in every state of a run if and only if no step of it takes over an entry. |
| MailboxIndex.ApartNeverTakesOver | crates/coordinator/coordinator/src/coordinator.rs:420-431 | With names that are apart no step takes over an entry. |
| MailboxIndex.InstanceThenForward | crates/coordinator/coordinator/src/handlers/forwarded_xt.rs:45-71 | A forwarded XT named like the raw bytes of a publisher instance takes over its index entry. |
| MailboxIndex.InstanceThenSubmission | crates/coordinator/coordinator/src/coordinator.rs:504-555 | After a publisher instance and a submission both XTs are pending, and the index is exact if and only if the raw bytes of the instance are not the minted id. |
| CoordInvariants.MintedIdsAreFresh | crates/coordinator/coordinator/src/coordinator.rs:525-527 | In every run in which no peer forwards an id of this sidecar's series, a submission mints an id that is not pending, whatever instances the publisher starts. |
| CoordInvariants.PeersRespectMinting | crates/primitives/src/lib.rs:64-71 | A peer that forwards an id it minted for its own chain does not use this sidecar's series. |
| Bookkeeping.NeverWaitingCirc | crates/coordinator/coordinator/src/model/xt_status.rs:36-41 | Whatever the steps of a run, no XT in it reports `waiting_circ` or `simulated`. |
| Bookkeeping.StatusExactlyWhen | crates/coordinator/coordinator/src/model/xt_status.rs:19-46 | In every run the reported status is the one that decision, inclusion, vote and locks call for. |
| Bookkeeping.ReachableXtsSound | crates/coordinator/coordinator/src/pipeline/simulation.rs:371-376 | Whatever the steps of a run, every XT in it has dedup sets equal to the keys of duplicate-free lists, and vote fields that agree. |
| Bookkeeping.DepKeysGrow | crates/coordinator/coordinator/src/pipeline/simulation.rs:371-376 | While an XT stays registered, no discovered key is forgotten. |
| Bookkeeping.PassKeysRecorded | crates/coordinator/coordinator/src/pipeline/simulation.rs:135-213 | When a recording of the same simulation comes before each pass and the XT stays registered in between, a pass asks for recorded keys only. |
| Bookkeeping.ReachableIsBookkept | crates/coordinator/coordinator/src/pipeline/simulation.rs:449-468 | In every run of that order, fulfilled keys are discovered keys in every XT. |
| Bookkeeping.ReachableLengthsTell | crates/coordinator/coordinator/src/model/xt_status.rs:37-39 | In every XT of such a run, the length comparison means some dependency is unfulfilled. |
| Coordinator.CoordinatorState.CountUndecided | crates/coordinator/coordinator/src/coordinator.rs:516-520 | The loop counts the undecided XTs. |
| Coordinator.CoordinatorState.BufferOrphanMailbox | crates/coordinator/coordinator/src/coordinator.rs:103-116 | Appends to the bucket unless a cap is reached. |
| Coordinator.CoordinatorState.DrainMailboxBuffer | crates/coordinator/coordinator/src/coordinator.rs:120-122 | Returns and removes the bucket. |
| Coordinator.CoordinatorState.SubmitStandalone | crates/coordinator/coordinator/src/coordinator.rs:414-555 | Duplicate, full, refused and accepted submissions, with the state and the answer of each. |
| Coordinator.CoordinatorState.HandleForwardedXt | crates/coordinator/coordinator/src/handlers/forwarded_xt.rs:18-83 | Every branch, with the error or acceptance and the new state. |
| Coordinator.CoordinatorState.HandleStartInstance | crates/coordinator/coordinator/src/handlers/start_instance.rs:70-140 | Every branch, including refused admission, with the new state. |
| Coordinator.CoordinatorState.HandleMailboxMessage | crates/coordinator/coordinator/src/handlers/mailbox.rs:34-58 | Routes to the XT, drops for a vanished XT, or buffers. |
| Coordinator.CoordinatorState.SendVote | crates/coordinator/coordinator/src/pipeline/simulation.rs:549-577 | First local vote wins; new state and issued command are those of the step. |
| Coordinator.CoordinatorState.HandlePeerVote | crates/coordinator/coordinator/src/handlers/peer_vote.rs:17-55 | First vote per peer wins; new state, error and issued command. |
| Coordinator.CoordinatorState.HandleDecision | crates/coordinator/coordinator/src/handlers/decision.rs:15-30 | An undecided XT takes the decision received, and with local transactions the command is a release or an abort accordingly; new state and error. |
| Coordinator.CoordinatorState.HandleStartPeriod | crates/coordinator/coordinator/src/handlers/start_period.rs:18-47 | The loop, in any order, aborts exactly the undecided, unconfirmed XTs of periods before the new one and collects exactly their aborts and those of already aborted ones. |
| Coordinator.CoordinatorState.HandleRollback | crates/coordinator/coordinator/src/handlers/rollback.rs:17-37 | The loop turns every decision into abort and collects an abort for every local XT. |
| Coordinator.CoordinatorState.ConfirmIncludedXts | crates/coordinator/coordinator/src/handlers/builder_control.rs:200-211 | Marks exactly the known ids confirmed. |
| Coordinator.CoordinatorState.RemovePendingXt | crates/coordinator/coordinator/src/handlers/builder_control.rs:221-236 | Removes the XT, its index entry and its fingerprints. |
| Coordinator.CoordinatorState.Cleanup | crates/coordinator/coordinator/src/coordinator.rs:255-296 | Drops expired XTs, their index entries, dangling fingerprints and unindexed buckets. |
| Coordinator.CoordinatorState.RecordSimulationState | crates/coordinator/coordinator/src/pipeline/simulation.rs:366-382 | Records dependencies and outbound messages without duplicates. |
| Coordinator.CoordinatorState.FulfilDependencies | crates/coordinator/coordinator/src/pipeline/simulation.rs:437-481 | Runs a pass on the stored XT and returns how many messages it used. |
| Coordinator.CoordinatorState.DispatchOutbound | crates/coordinator/coordinator/src/pipeline/simulation.rs:500-522 | Marks the keys of the stored XT and returns, for each new key, the first message that carries it. |
| Conservation.MessagesConserved | crates/coordinator/coordinator/src/handlers/mailbox.rs:34-58 | Over every run, with any mix of registrations, without cleanup, rollback, removal or a full buffer and with names that are new when registered: received messages are together the buffered, the waiting and the used ones, the used ones are the fulfilled entries, and the index is exact. |
| Conservation.ApartRunsConserve | crates/coordinator/coordinator/src/handlers/mailbox.rs:34-58 | With names that are apart the same holds when nothing is dropped and peers leave this sidecar's ids alone. |
| Conservation.OverdueExactlyWhen | crates/coordinator/coordinator/src/coordinator.rs:504-555 | A step puts buffered messages beside their registered XT if and only if it is a submission that is new, not refused, and mints an id for which messages are buffered. |
| Conservation.NoneOverdueExactlyWhen | crates/coordinator/coordinator/src/coordinator.rs:504-555 | No state of a run has such messages if and only if no step of it is such a submission. |
| Conservation.MessageThenSubmission | crates/coordinator/coordinator/src/coordinator.rs:504-555 | The two-step run, message then submission, that leaves the message in the buffer and the mailbox empty. |
| Conservation.OverdueIsNeverUsed | crates/coordinator/coordinator/src/handlers/mailbox.rs:34-58 | In every run without takeover: while its XT stays registered such a bucket stays as it is until a rollback drops it, and what the XT holds and uses is accounted for without it. |
| Conservation.CleanupEmptiesBuffer | crates/coordinator/coordinator/src/coordinator.rs:285-293 | When no indexed key is buffered, cleanup drops every buffered message. |
| StepLaws.DecisionReceived | crates/coordinator/coordinator/src/handlers/decision.rs:15-30 | After the publisher's decision an undecided XT has it; with local transactions the one command is a release with its fulfilled local dependencies, or an abort; otherwise there is none. |
| StepLaws.DecidedExactlyWhen | crates/coordinator/coordinator/src/coordinator.rs:367-407 | A step that names an undecided XT decides it if and only if it brings the publisher's word, or a vote with which one is no or all expected ones are yes. |
| StepLaws.CommandsExactlyWhen | crates/coordinator/coordinator/src/handlers/builder_control.rs:52-75 | A step that names one XT issues a command if and only if it decides an undecided XT with local transactions, and it is the one its decision calls for. |
| StepLaws.ReleaseCarries | crates/coordinator/coordinator/src/pipeline/delivery.rs:36-44 | A release carries exactly the fulfilled dependencies of the local chain, in order. |
| StepLaws.VoteCast | crates/coordinator/coordinator/src/pipeline/simulation.rs:549-577 | The first local vote is recorded with its flags and lock; with a publisher it decides nothing. |
| StepLaws.VoteHeard | crates/coordinator/coordinator/src/handlers/peer_vote.rs:25-55 | The first vote of each peer is recorded on an undecided XT and decides it exactly when the votes then settle it. |
| StepLaws.PipelineSections | crates/coordinator/coordinator/src/pipeline/simulation.rs:342-385 | Lock, record, pass and sent marks change only their own fields of the XT they name and issue no command. |
| StepLaws.QuietSections | crates/coordinator/coordinator/src/handlers/mailbox.rs:34-58 | Registrations, messages, confirmations and removals issue no builder command. |
| StepLaws.PeriodStarted | crates/coordinator/coordinator/src/handlers/start_period.rs:23-47 | A new period aborts exactly the undecided, unconfirmed XTs of older periods; builder aborts go out exactly for uncommitted ones with local transactions. |
| StepLaws.ReachableOlderSettled | crates/coordinator/coordinator/src/handlers/start_period.rs:9-12 | In every reachable state no undecided, unconfirmed publisher XT belongs to a period before the open one. |
| StepLaws.RolledBackAll | crates/coordinator/coordinator/src/handlers/rollback.rs:19-46 | A rollback aborts every XT, commits included, drops the buffer, closes the period, and has the builder drop exactly the local ones. |
| StepLaws.SubmissionStored | crates/coordinator/coordinator/src/coordinator.rs:504-555 | What a submission stores, and that it is refused exactly for a pending duplicate or at a hundred undecided XTs. |
| StepLaws.ForwardStored | crates/coordinator/coordinator/src/handlers/forwarded_xt.rs:18-83 | What a forwarded XT stores, its non-empty chains and its buffered messages included, and exactly when it is refused. |
| StepLaws.InstanceStored | crates/coordinator/coordinator/src/handlers/start_instance.rs:68-140 | What a publisher instance stores, period and sequence number as announced, and exactly when it is refused. |
| StepLaws.MessageStored | crates/coordinator/coordinator/src/handlers/mailbox.rs:34-58 | A message joins its XT's waiting ones or the buffer; it is lost exactly for a stale index entry, 256 messages under its key, or a new key beside 1024. |
| StepLaws.InclusionMarked | crates/coordinator/coordinator/src/handlers/builder_control.rs:196-211 | Included XTs are marked, no others. |
| StepLaws.RemovalDrops | crates/coordinator/coordinator/src/handlers/builder_control.rs:221-236 | A removed XT takes its index entry and its fingerprints with it, nothing else. |
| StepLaws.CleanupDrops | crates/coordinator/coordinator/src/coordinator.rs:255-296 | Cleanup drops exactly the aged XTs that are confirmed or decided, what points at them, and buckets without an index entry. |
| Decisions.DecisionOnlyMovesUp | crates/coordinator/coordinator/src/handlers/rollback.rs:21-31 | Across all handlers a decision moves from none to commit or abort, or by rollback from commit to abort; transactions and id stay. |
| Decisions.ReleaseExactlyOnCommit | crates/coordinator/coordinator/src/handlers/builder_control.rs:52-75 | A release is issued if and only if the step names an undecided XT with local transactions and brings the publisher's commit, or the vote that completes the expected ones without a no. |
| Decisions.AtMostOneRelease | crates/coordinator/coordinator/src/handlers/decision.rs:22-30 | In every run: while an XT stays registered at most one release is issued for it, and none after a decision is on record. |
| BuilderSystem.RunSound | crates/coordinator/coordinator/src/handlers/builder_control.rs:152-189 | Over every interleaving of sections and delayed commands without rollback or id reuse: commands agree with decisions, each release is carried out at most once, and the nonce lane is used legally. |
| BuilderSystem.CoordFollowsSections | crates/coordinator/coordinator/src/handlers/builder_control.rs:152-189 | The coordinator of an interleaving is where its own steps alone take it. |
| BuilderSystem.CommittedNoncesStayOwned | crates/coordinator/coordinator/src/handlers/start_period.rs:23-44 | The nonces of an XT whose release the builder accepted are never issued again, across period changes and lagging chain nonces. |
| BuilderSystem.AcceptedNoncesKept | crates/coordinator/coordinator/src/nonce_manager.rs:104-115 | Where each release is carried out once and the lane is used legally, nonces of an accepted XT are never issued again. |
| Rollbacks.RollbackReanchorsExactlyWhen | crates/coordinator/coordinator/src/handlers/rollback.rs:48-60 | After a rollback on its own the next reservation starts at the chain nonce, for every nonce and count, if and only if all builder aborts succeeded, or the lane had no floor and every reservation was given back before the first error. |
| Rollbacks.InterleavedReanchorsExactlyWhen | crates/coordinator/coordinator/src/handlers/rollback.rs:48-60 | With other commands between the aborts it does if and only if all aborts succeeded or the first error finds a lane without floor and reservations. |
| Rollbacks.AloneIsInterleaved | crates/coordinator/coordinator/src/handlers/rollback.rs:48-60 | Without other commands the two descriptions are the same lane. |
| Rollbacks.ResetReissuesExactlyWhen | crates/coordinator/coordinator/src/nonce_manager.rs:117-125 | After a rollback without errors a nonce held right before the reset can be issued again if and only if some reservation is live there. |
| Rollbacks.ReservationBeforeResetIsReissued | crates/coordinator/coordinator/src/handlers/rollback.rs:48-60 | A reservation made between the last abort and the reset: the next one is given the same nonce. |
| Rollbacks.SurvivingRangeMovesReservation | crates/coordinator/coordinator/src/handlers/rollback.rs:48-60 | A reachable lane without a floor whose surviving reservation moves the next one past it. |
| Rollbacks.SurvivingFloorMovesReservation | crates/coordinator/coordinator/src/handlers/rollback.rs:48-60 | A reachable lane whose surviving floor is where the next reservation starts although the chain is at zero. |
| BuilderControl.BuildPutInboxTransactions | crates/coordinator/coordinator/src/handlers/builder_control.rs:94-150 | One transaction per dependency with consecutive nonces, or an error with the reservation given back. |
| BuilderControl.ApplyBuilderCommand | crates/coordinator/coordinator/src/handlers/builder_control.rs:152-189 | Success or failure and the lane it leaves, for every answer of the outside. |
| BuilderControl.AbortThenReset | crates/coordinator/coordinator/src/handlers/rollback.rs:48-60 | Stops at the first builder error; the lane is reset only when there is none. |
| BuilderControl.NoncesAreOwned | crates/coordinator/coordinator/src/handlers/builder_control.rs:118-147 | The nonces put into the transactions are distinct, belong to the reservation and were held by nobody. |
| BuilderControl.AbortUndoesReserve | crates/coordinator/coordinator/src/handlers/builder_control.rs:141-143 | Giving a fresh reservation back restores the other reservations and recycles exactly its nonces. |
| BuilderControl.CommandIsMoves | crates/coordinator/coordinator/src/handlers/builder_control.rs:152-189 | What carrying out a command does to the lane is what a sequence of moves of the interleaved system does, for every answer of the outside. |
| BuilderControl.CommandLeavesReservationExactlyWhen | crates/coordinator/coordinator/src/handlers/builder_control.rs:152-189 | A command keeps the lane partitioned, and a release leaves a reservation if and only if everything was built and the builder accepted. |
| Agreement.OneVoteEach | crates/coordinator/coordinator/src/pipeline/simulation.rs:556-569 | No sidecar ever sends both votes; only participants vote yes. |
| Agreement.DecisionsRestOnVotes | crates/coordinator/coordinator/src/coordinator.rs:367-407 | A commit anywhere takes yes votes from as many participants and outsiders as the sidecar waits for; an abort takes a no from a participant, the origin or an outsider. |
| Agreement.CommitIsUnanimous | crates/coordinator/coordinator/src/coordinator.rs:367-407 | Without outsiders a commit anywhere means every participant voted yes. |
| Agreement.ParticipatingOriginAgrees | crates/coordinator/coordinator/src/handlers/peer_vote.rs:17-55 | When the submitting sidecar takes part and no outsider votes, no two sidecars decide differently in any run with loss, duplication and reordering. |
| AgreementLimits.IdleOriginDisagrees | crates/coordinator/coordinator/src/pipeline/simulation.rs:57-62 | A submitting sidecar without local transactions votes no and aborts while the participants can still commit. |
| AgreementLimits.OutsideVoteCompletesCount | crates/coordinator/coordinator/src/handlers/peer_vote.rs:45-55 | For every outsider there is a run in which its vote completes the count: a sidecar commits without the yes of every participant while the origin aborts. |
| AgreementLimits.UnanimousExactlyWhen | crates/coordinator/coordinator/src/coordinator.rs:386-404 | All commits of all runs rest on every participant's yes if and only if nobody takes part, no outsider votes, or the origin is the only sidecar and outsiders are fewer than the chains submitted. |
| AgreementLimits.AgreementExactlyWhen | crates/coordinator/coordinator/src/coordinator.rs:375-404 | All runs agree if and only if nobody takes part, there is no other sidecar, or the submitting sidecar takes part and no outsider votes. |
| VoteDelivery.DecidedExactlyWhenSettled | crates/coordinator/coordinator/src/coordinator.rs:367-407 | In every run a registered sidecar has decided if and only if a recorded vote is no or as many votes as expected are recorded. |
| VoteDelivery.AllDeliveredDecides | crates/coordinator/coordinator/src/handlers/peer_vote.rs:45-55 | A registered sidecar to which every participant's vote was delivered has decided; the submitting one when no list is empty. |
| VoteDelivery.EmptyListBlocksCommit | crates/coordinator/coordinator/src/coordinator.rs:375-404 | The submitting sidecar never commits when fewer chains can vote than were submitted. |
| VoteDelivery.OriginDecidesExactlyWhen | crates/coordinator/coordinator/src/coordinator.rs:375-404 | With all votes delivered and no outsiders the submitting sidecar has decided if and only if no list is empty or somebody voted no. |
| Overrides.MergeOverrides | crates/mailbox/src/overrides.rs:22-59 | The borrowing loop gives the merge in whatever order accounts and slots come. |
| Overrides.MergeOverridesOwned | crates/mailbox/src/overrides.rs:63-101 | The consuming loop gives the same merge. |
| Overrides.MergeEntry | crates/mailbox/src/overrides.rs:24-53 | One occupied entry: `state` replaces, `stateDiff` patches what is there. |
| Overrides.MergeEntryOwned | crates/mailbox/src/overrides.rs:65-94 | The same entry when a whole diff may be moved. |
| Overrides.MergeIsComposition | crates/mailbox/src/overrides.rs:22-59 | For well-formed overrides, applying the merge to any world is applying base, then overlay; the merge is well-formed again. |
| Overrides.MergeAssociative | crates/mailbox/src/overrides.rs:22-101 | Merging is associative. |
| TraceDiff.StateOverridesFromDiff | crates/simulation/src/rpc.rs:214-270 | The loops compute the overrides of a diff, or none when there are none. |
| TraceDiff.ConvertSurvivors | crates/simulation/src/rpc.rs:218-250 | Each surviving account takes its pre-state out; empty entries are left out. |
| TraceDiff.ReconstructsExactlyWhen | crates/simulation/src/rpc.rs:214-270 | Applied to the pre-state, the overrides of a diff-mode trace give the post-state if and only if no surviving account lost its code or had its nonce set back to zero. |
| TraceDiff.ClearedCodeStays | crates/simulation/src/rpc.rs:220-225 | A trace of an account that loses its code, whose overrides leave the code in place. |
| TraceDiff.ChainSeesPredecessors | crates/coordinator/coordinator/src/pipeline/simulation.rs:352-365 | Carried overrides take the starting world to exactly the state after the first k transactions. |
| TraceDiff.PatchReappliedExactlyWhen | crates/simulation/src/rpc.rs:438-465 | With dependencies, a next transaction patched with at least the same slots sees the state its predecessor left if and only if the trace hides no change and that state holds the values of its patch. |
| MailboxStorage.PreimageInjective | crates/mailbox/src/overrides.rs:152-161 | The key preimage is equal for two dependencies if and only if all six fields are. |
| MailboxStorage.PreimageIsLaidOut | crates/mailbox/src/overrides.rs:138-161 | The key preimage is the one byte string with source chain, local chain, sender, receiver, session id and label at the offsets of the contract. |
| MailboxStorage.ApplyBytes | crates/mailbox/src/overrides.rs:118-136 | Writes the short form, or head and chunks, over the existing diff. |
| MailboxStorage.BuildMailboxStateOverrides | crates/mailbox/src/overrides.rs:167-203 | Skips other chains and unfulfilled dependencies; none when nothing is left. |
| MailboxStorage.ChunkSlotsDiffer | crates/mailbox/src/overrides.rs:130-134 | Chunk slots of one value are distinct even when the addition wraps around. |
| MailboxStorage.BytesReadBack | crates/mailbox/src/overrides.rs:110-136 | Any byte string reads back by Solidity's layout rules from the slots it wrote. |
| MailboxStorage.DependenciesReadBack | crates/mailbox/src/overrides.rs:103-203 | On any world, at the slots that any byte string with the contract's layout hashes to, the contract reads exactly the bytes of the last dependency of that key with its created flag set, and slots no dependency occupies are unchanged. |
| TraceWalk.ParseCallTrace | crates/mailbox/src/parser.rs:20-47 | The explicit-stack loop terminates and yields the recursive pre-order walk cut at depth 1024, in order. |
| TraceWalk.PushReversed | crates/mailbox/src/parser.rs:41-43 | Pushing the children in reverse makes the stack continue with them left to right. |
| TraceWalk.CutLosesNothingExactlyWhen | crates/mailbox/src/parser.rs:33-35 | The cut walk is the whole walk if and only if no mailbox call lies below the depth limit. |
| TraceReports.DependenciesAreReads | crates/simulation/src/rpc.rs:305-329 | The dependencies are exactly the reverted mailbox reads within depth 1024, each once, with the fields of its header, in pre-order. |
| TraceReports.OutboundIsWrites | crates/mailbox/src/parser.rs:92-115 | The outbound messages are exactly the mailbox writes within the limit by callers that parse, each once, with header fields and payload, in pre-order. |
| TraceReports.ReportedExactlyWhen | crates/mailbox/src/parser.rs:50-136 | A dependency or message is reported if and only if some frame within the limit calls for it. |
| TraceReports.SuccessExactlyWhen | crates/simulation/src/rpc.rs:357-390 | Success holds if and only if the root has no error and no decodable mailbox read within the limit reverted. |
| TraceReports.ErrorExactlyWhen | crates/simulation/src/rpc.rs:368-382 | An error is given if and only if the simulation failed or the root carries a text, and it is that text or the count of unmet reads. |
| TraceReports.NoMailboxNoReports | crates/simulation/src/rpc.rs:310-312 | Without a mailbox address nothing is reported and only the root decides. |
| TraceReports.ResultReconstructsExactlyWhen | crates/simulation/src/rpc.rs:384-390 | The overrides of a result reproduce the traced post-state if and only if the trace hides no change. |
| Pipeline.WaitForDependencies | crates/coordinator/coordinator/src/pipeline/simulation.rs:390-435 | True exactly when a message was used; one that is there already is used at once; on failure the deadline is reached and nothing waiting matches an unfulfilled dependency. |
| Pipeline.FulfilPass | crates/coordinator/coordinator/src/pipeline/simulation.rs:437-481 | The pass on a pending XT, none when it has gone. |
| Pipeline.RecordSimulationState | crates/coordinator/coordinator/src/pipeline/simulation.rs:342-385 | Merges only the result of a success for an XT still pending, and records every dependency before a pass can ask for it. |
| Pipeline.DispatchOutbound | crates/coordinator/coordinator/src/pipeline/simulation.rs:483-522 | Marks every key and sends, for each key not sent before, the first message that carries it. |
| Pipeline.Dispatch | crates/coordinator/coordinator/src/pipeline/simulation.rs:483-538 | Sends nothing for an XT that is gone; it fails exactly when something had to be sent and was not delivered. |
| Pipeline.SentCarriesWrites | crates/coordinator/coordinator/src/pipeline/simulation.rs:496-521 | What goes out spells out the writes of the XT, raw id and payload included. |
| Pipeline.KeysGoOutOnce | crates/coordinator/coordinator/src/pipeline/simulation.rs:518-521 | Over a whole run, retries included, no key goes out twice, nor one sent before the run. |
| Pipeline.EveryKeyGoesOut | crates/coordinator/coordinator/src/pipeline/simulation.rs:172-200 | While the XT is there, every key that an answer writes is out once the answer is dealt with. |
| Pipeline.RefusedExactlyWhen | crates/coordinator/coordinator/src/pipeline/simulation.rs:143-170 | An answer ends the run at once if and only if it is an error, or a failure whose dependencies are all fulfilled. |
| Pipeline.FirstPerKeyCovers | crates/coordinator/coordinator/src/pipeline/simulation.rs:518-521 | Every key not sent before is sent, and once. |
| Pipeline.FirstPerKeyIsFirst | crates/coordinator/coordinator/src/pipeline/simulation.rs:518-521 | What is sent for a key is the first message of the list that carries it. |
| Pipeline.TryOnce | crates/coordinator/coordinator/src/pipeline/simulation.rs:123-243 | One turn of the retry loop: advance, stop with the reason its last answer shows, or repeat with fewer messages left. |
| Pipeline.SimulateTransaction | crates/coordinator/coordinator/src/pipeline/simulation.rs:123-243 | The retry loop terminates, because each repetition uses up a message. |
| Pipeline.ProcessXt | crates/coordinator/coordinator/src/pipeline/simulation.rs:33-250 | Every attempt is the simulator's answer on the local transaction of its index, on the merge of the recorded successes before it; calls are at most local transactions plus dependencies fulfilled in the run, each of which used a message of its own; what goes on the wire is delivered or ends the run; the vote is yes exactly for all simulated or no simulator, none exactly when the XT is gone; each other end is explained. |
| Slices.RunsOnPatched | crates/simulation/src/rpc.rs:424-468 | A simulator call runs on the carried state patched with the slots of its fulfilled dependencies. |
| Slices.SimulatedOnPredecessorState | crates/coordinator/coordinator/src/pipeline/simulation.rs:120-246 | Every attempt at transaction k that is given no fulfilled dependency runs on exactly the state its predecessors left. |
| Slices.NextSeesPredecessorExactlyWhen | crates/coordinator/coordinator/src/pipeline/simulation.rs:120-246 | Over the log of any run, an attempt at the transaction after a success, first or repeated, runs on the state that success left if and only if its trace hides no change and that state holds what the attempt's fulfilled dependencies write. |
| Slices.ConsumedMessageComesBack | crates/simulation/src/rpc.rs:424-468 | Two attempts with one fulfilled dependency whose message the first consumes, inbox and created slot cleared: the second does not run on what the first left but on the state the first started from. |
| Framing.LengthPrefixCodec.Encode | crates/net/transport/src/framing.rs:21-32 | Refuses payloads over the limit, otherwise gives the frame. |
| Framing.FrameLayout | crates/net/transport/src/framing.rs:21-32 | The first four bytes of a frame, most significant first, are the payload length; the payload follows. |
| Framing.LengthPrefixCodec.DecodeFrame | crates/net/transport/src/framing.rs:49-69 | Takes a complete frame off the buffer; an incomplete or refused one is left untouched. |
| Framing.LengthPrefixCodec.Receive | crates/net/transport/src/framing.rs:49-69 | Draining after an append takes off every complete frame. |
| Framing.FrameRoundTripExactlyWhen | crates/net/transport/src/framing.rs:29-31 | A frame decodes to its payload if and only if the payload is shorter than 2^32 bytes. |
| Framing.FeedIsDrain | crates/net/transport/src/framing.rs:49-69 | However the bytes are cut into chunks, draining after each chunk gives what draining once gives. |
| Framing.StreamDelivers | crates/net/transport/src/framing.rs:21-69 | For every list of payloads and every split of their frames into chunks, exactly those payloads come out in order and nothing is left. |
| Framing.PartialStream | crates/net/transport/src/framing.rs:49-69 | After any part of the stream, cut in any way, a prefix of the payloads is out, nothing is lost, and the other bytes bring out the rest. |

## Left out

- Permission snapshot and engine (`crates/permissions`): lookups and branches over a policy; in the pipeline their verdict is an input.
- The verification hook and the absence of a simulator are inputs of `Pipeline.ProcessXt`.
- QUIC, TLS, HTTP, websocket and RPC plumbing: their results are inputs or messages.
- Calldata, RLP, ABI, hex and protobuf decoding: a trace frame carries its decoded arguments or none.
- Real time: deadlines, notifications and the age limit of cleanup are inputs; of timestamps only whether they are set is kept.
- Publisher submission waiters (`pending_submissions`), `last_known_blocks`, `sender_nonces` and metrics: no state another modelled handler reads.
- The chain overlay is the starting value of `Pipeline.ProcessXt`; who updates and clears it is not modelled.
- `InMemoryQueue` and the computation of request fingerprints: a fingerprint is given with the submission.
- Sequence counters of the coordinator are unbounded; their 64-bit overflow is not modelled.
- `movePrecompileTo` in account overrides: the source never sets it.
- Account overrides that set both `state` and `stateDiff`: a node refuses them, so merging is related to application only for overrides that do not.
- Pipeline.ProcessXt: between its steps the other handlers add messages to the XT or remove it; their votes and decisions, which it does not read, are steps of `CoordState`, where all orders are covered.
- A sidecar without a configured mailbox sender: outbound messages are dispatched, and one that cannot be delivered ends the run.
- Abort votes that a new period sends to the publisher for the XTs it aborts: only the state and the builder commands are kept.
- Log order of builder aborts: the loops over a hash map collect a set.
