# Verification of the agent claim network's core protocols

A Dafny model of the parts of the program where several writers, crashes, retries or delicate text handling
meet, and proofs of what those parts promise. Check everything with `dafny verify dfyconfig.toml`.

## What is modelled

**Consolidation delivery** (`ConsolidationDelivery.dfy`, `ConsolidationQueue.dfy`). Retired claims point at the
carrier claims that took over their knowledge; carriers may be retired in turn, so the groups form an AND/OR graph
that may be cyclic. The model has the backtracking search with its shared visiting set, the garbage collector's
fixpoint loop, the rewrites between queries, and the groups over the whole life of the upload queue.

**Inbox delivery** (`Outbox.dfy`, `OutboxRuns.dfy`, `Maintainer.dfy`, `OutboxAudit.dfy`, `InboxFolder.dfy`,
`InboxReaders.dfy`, `DeliveryProtocol.dfy`, `OutboxEffects.dfy`, `InboxEffects.dfy`). The Maintainer's policies and
outbox ledger with offered and delivered marks; one agent's inbox directory with active, processing and done files,
leases and several readers; and both joined by a network that loses, delays and repeats pull replies and receipts.
Every Maintainer operation may crash after any file it writes. An agent's inbox operation is one step, except that it
may crash between the done file and the removal of the live file. An agent sends a receipt only for messages whose
acceptance returned Ok. A message once handled is not handed out again, and a confirmed message is on the agent's
disk.

**Claim edits and reads** (`ClaimEdits.dfy`, `ClaimEffects.dfy`, `ClaimEditor.dfy`, `DreamBoundary.dfy`,
`PlanAlignment.dfy`). The compare-and-swap update that logs its intent before writing, its recovery, the optimistic
read boundary around Dream commits, and the comparison of a partly executed plan with the current claims.

**Memory files** (`MemoryText.dfy`, `MemoryEdits.dfy`, `MemoryBatches.dfy`, `MemoryEffects.dfy`). Parser, printer,
batch editor, capacities and report, and a batch against the same edits made one call at a time.

**Text algorithms** (`ShellCommand.dfy`, `SkillMentions.dfy`, `Continuation.dfy`, `Utf8.dfy`). The shell printer
against a reader written from the POSIX rules, the `/skill` scanner against a position-by-position reading, and
the overlap join over UTF-8 bytes against the shortest common extension.

Where the program updates state in place the model has classes or methods with loops, proved equal to a
specification function of the old state; what the program promises is proved about those functions and the
runs made of them. The modules named after effects state what each operation writes field by field, without those
functions. `Claims.dfy`, `Sequences.dfy`, `Sorting.dfy` and `Text.dfy` hold what the modules share.

Conventions: identifiers are naturals, instants are integers (nanoseconds where they are rounded to seconds), and
a clock is any integer, so it may go backwards. The policy statuses active and deprecated are called `InForce`
and `Withdrawn`. Random ids and file-name suffixes are parameters. The Maintainer's process and file locks, and
the agent's knowledge lock, make each guarded operation one step.

## What the proofs brought to light

- The carrier search keeps ids on its path and not versions, so as a function it can miss a derivation when two
  groups retire different versions of one id. The writers of the queue keep one group per retired id, so on
  every queue that comes about nothing is missed (`ConsolidationQueue.SearchIsCompleteOnQueues`).
- A late Dream batch adds the versions of all its groups to the recorded state, in the order of a wall clock. If the
  clock went back between groups, that can restore an earlier state, and an ordinary read around the later group
  finds nothing changed (`ClockGoneBackHidesACommit`, and `LateBatchHidesACommit` for the whole family).
  `FinishingAdvancesExactly` gives the exact guard, `ReadIsOneSnapshot` the safety of every read where it holds.
- A claim on an inbox message ages from the last write of the message file and not from the claim, because
  renaming keeps the modification time. `SecondClaimTakesItWhen` says exactly when a second claim takes a message
  from the first, and `TwoClaimsAtOneInstant` gives two that both succeed.
- The listing closes a broadcast as soon as its policy is withdrawn, yet the next pull may still serve it to
  agents that were offered it and have not confirmed. `ListingOfBroadcasts` gives the exact condition,
  `WithdrawnWhileOwed` the whole failing family and `ClosedButServed` a run that ends in it.
- A continuation that genuinely repeats the end of the text is taken for an overlap. `JoinRestores` says exactly
  when a cut reply comes back whole, and `RepeatedTextIsLost` gives a reply that does not.
- A memory batch drops duplicates only at its end, so it is not its edits made one call at a time.
  `BatchAgreesExactly` says when it is: as long as no edit takes away one of several equal entries.
  `CopyTakenChangesTheFiles` shows that the first one that does makes the files differ, and `BatchCanDiffer` gives
  a file and two edits.

## Model

| member | source | states |
|---|---|---|
| `ConsolidationDelivery.SearchCarrier` | src/agent/consolidation_delivery.rs:45-71 | The backtracking search with its one shared visiting set: it terminates on every group graph, cycles included, leaves the set as it found it, and answers what the recursive definition over values answers; a claim that nothing retires further is ready exactly if it is not deprecated, current and acknowledged. |
| `ConsolidationDelivery.SearchAll` | src/agent/consolidation_delivery.rs:63-67 | The search over a carrier list: true exactly when every carrier is ready under the current path; the path is restored, also after an early stop. |
| `ConsolidationDelivery.SearchRetired` | src/agent/consolidation_delivery.rs:30-43 | Answers for the claim itself: true if nothing retires it; and if something does, a true answer needs some acknowledged claim that is current and not deprecated. |
| `ConsolidationDelivery.UnretiredIsReadyWhen` | src/agent/consolidation_delivery.rs:52-57 | A claim that no group retires is ready exactly if it is not deprecated, is current and has been acknowledged, whatever is being visited. |
| `ConsolidationDelivery.ReadyNeedsAcknowledgement` | src/agent/consolidation_delivery.rs:30-71 | Below every carrier of a ready retirement stands, at the end of a derivation, a claim that is not deprecated, is current and has been acknowledged. |
| `ConsolidationDelivery.ReadyHasDerivation` | src/agent/consolidation_delivery.rs:45-71 | Every true answer has a finite derivation whose leaves are non-deprecated, current and acknowledged claims, whose inner nodes are groups in force with all carriers derived, and in which no id repeats along a branch. |
| `ConsolidationDelivery.CarrierReadyExact` | src/agent/consolidation_delivery.rs:45-71 | On every group graph and for every visiting set the answer is true if and only if such an unrepeated derivation exists. |
| `ConsolidationDelivery.CarrierReadyIsLeastFixedPoint` | src/agent/consolidation_delivery.rs:45-71 | When originals sharing an id are the same version, the search started with nothing visited computes the least fixed point: true if and only if any finite derivation exists, repetitions allowed. |
| `ConsolidationDelivery.TwoOriginalsOfOneIdCanHideADerivation` | src/agent/consolidation_delivery.rs:52-54 | A limit of the bare function, not of the program: on a group graph where one id is retired in two versions a derivation can exist while the search answers false. No queue the program writes has such groups. |
| `ConsolidationDelivery.UnfoundedIsNeverReady` | src/agent/consolidation_delivery.rs:45-71 | A set of retirements that only lean on one another, with no live claim among them, is never ready, whatever is being visited. |
| `ConsolidationDelivery.LeastClosedIsClosed` | src/agent/consolidation_delivery.rs:91-111 | The indices in every closed set above the pending retirements themselves form a closed set above them, so a least one exists. |
| `ConsolidationDelivery.PrunedIsClosed` | src/agent/consolidation_delivery.rs:85-121 | What survives a collection: only groups that were there, every group with a pending retirement, and with a group every group that retires one of its carriers. |
| `ConsolidationDelivery.PrunedExactly` | src/agent/consolidation_delivery.rs:91-118 | A group survives exactly if a chain of carriers leads to it from a group whose retirement is pending. |
| `ConsolidationDelivery.PrunedAcksExactly` | src/agent/consolidation_delivery.rs:119-121 | An acknowledgement survives exactly if a surviving group retires its id or names it as a carrier. |
| `ConsolidationDelivery.PruneKeepsCarriers` | src/agent/consolidation_delivery.rs:85-122 | A carrier of a surviving group gets the same answer before and after the collection, for any current claims and any visiting set. |
| `ConsolidationDelivery.PruneKeepsReady` | src/agent/consolidation_delivery.rs:85-122 | Collection preserves meaning: every pending claim is ready after it exactly if it was ready before, for any current claims. |
| `ConsolidationDelivery.PruneTwice` | src/agent/consolidation_delivery.rs:85-122 | Collecting twice against the same pending claims is collecting once, for groups and for acknowledgements. |
| `ConsolidationDelivery.AcknowledgedHolds` | src/agent/consolidation_delivery.rs:16-19 | After an acknowledgement exactly the acknowledged version of its id is on record, and every other id is as before. |
| `ConsolidationDelivery.SupersedeKeepsDependencies` | src/agent/consolidation_delivery.rs:74-82 | A later deprecated version inherits the waiting: it is ready if and only if the carriers of every group that retired its id are ready. |
| `ConsolidationDelivery.SupersedeWithdraws` | src/agent/consolidation_delivery.rs:74-82 | A revived claim waits for nothing: every version of its id is ready afterwards. |
| `ConsolidationDelivery.AcknowledgeKeepsCarriers` | src/agent/consolidation_delivery.rs:16-19 | With unique current ids, acknowledging a current version never turns a ready carrier unready. |
| `ConsolidationDelivery.ReadyIsStable` | src/agent/consolidation_delivery.rs:16-71 | Over every run of acknowledgements of current claims and collections in which it is pending, a ready claim stays ready. |
| `ConsolidationDelivery.OthersCounted` | src/agent/consolidation_delivery.rs:17 | Acknowledging keeps every version of every other id, as often as it was on record, and none of the acknowledged id. |
| `ConsolidationDelivery.OthersInOrder` | src/agent/consolidation_delivery.rs:17 | And it keeps their order. |
| `ConsolidationDelivery.DeliveryQueue.Acknowledge` | src/agent/consolidation_delivery.rs:16-19 | After the retaining loop and the push the claim comes last, once and alone of its id, and every other claim is on record as often as before. |
| `ConsolidationDelivery.DeliveryQueue.Stage` | src/agent/maintainer_upload.rs:226-232 | After staging a dependency, or giving a waiting one new carriers, exactly one group retires that id, and the others are those that were there. |
| `ConsolidationDelivery.DeliveryQueue.Supersede` | src/agent/consolidation_delivery.rs:74-82 | The groups rewritten in place, order kept, are the supersession of the old groups. |
| `ConsolidationDelivery.KeptIndices` | src/agent/consolidation_delivery.rs:91-111 | The fixpoint loop over the kept indices terminates and ends in exactly the least closed set above the pending retirements. |
| `ConsolidationDelivery.DeliveryQueue.Prune` | src/agent/consolidation_delivery.rs:85-122 | Keeps, in order, exactly the groups a chain of carriers leads to from a pending retirement, and exactly the acknowledgements of ids those groups mention. |
| `ConsolidationQueue.StepKeepsInv` | src/agent/maintainer_upload.rs:160-233 | Staging, rebinding, newer versions, withdrawals and collections all keep one group per retired id, each retiring a version of its own original. |
| `ConsolidationQueue.RunKeepsInv` | src/agent/maintainer_upload.rs:160-233 | So does every run of them. |
| `ConsolidationQueue.SearchIsCompleteOnQueues` | src/agent/consolidation_delivery.rs:45-71 | On every queue that comes about from the empty one the search computes the least fixed point: true if and only if any finite derivation exists, cycles included. |
| `ConsolidationQueue.ReadyOnQueues` | src/agent/consolidation_delivery.rs:30-43 | On every such queue a claim is ready if and only if each group that retires it has carriers and each of them has a finite derivation. |
| `MaintainerStore.Mint` | src/maintainer.rs:974-996 | The first drawn candidate that is unused, or nothing exactly when every allowed draw is in use. |
| `MaintainerStore.Maintainer.CreateOutboxEntries` | src/maintainer.rs:1006-1047 | One entry per target in order, each under a fresh id, none repeated; a failed mint leaves exactly the entries of the targets before it. |
| `MaintainerStore.Maintainer.PublishNewPolicy` | src/maintainer.rs:299-332 | On success one new policy stands in the store with the given name, statement, scope and type, in force from now, never updated, for the given recipients; the new entries are unmarked, carry exactly that policy under one new action, and address each recipient once, or everyone. A failure leaves the store alone or with a written prefix of one publish event; the invariant of all runs holds either way. |
| `MaintainerStore.Maintainer.DeprecatePolicy` | src/maintainer.rs:342-365 | On success the policy differs in its status and its update time, now, and nothing else, and new unmarked entries carry it to its recipients under one new action. An unknown policy changes nothing, and any other failure leaves a written prefix of one deprecation event. |
| `MaintainerStore.Maintainer.MintActionId` | src/maintainer.rs:967-996 | The new action id occurs in no existing entry; none is given exactly when every allowed draw occurs in one. |
| `MaintainerStore.Maintainer.SeenPolicies` | src/maintainer.rs:502-515 | Exactly the policies some entry of which carries a mark of the agent. |
| `MaintainerStore.Maintainer.ChooseEntries` | src/maintainer.rs:517-552 | Exactly the entries the agent is eligible for, in the order by event time, creation time and id. |
| `MaintainerStore.Maintainer.RecordOffers` | src/maintainer.rs:554-560 | Each chosen entry gains the mark of the agent and nothing else changes; the messages returned are those of the entries before the marks. |
| `MaintainerStore.Maintainer.PullInbox` | src/maintainer.rs:495-569 | Serves exactly what the agent has not confirmed and is its own, or is in force, or was offered to it, or retires something it is marked on; by event time, entry time and id; and refreshes or sets the offer mark of each entry served, and no other. |
| `MaintainerStore.Maintainer.CheckBatch` | src/maintainer.rs:598-627 | The error of the first id that fails, or none if all pass, with nothing written. |
| `MaintainerStore.Maintainer.AckInbox` | src/maintainer.rs:576-645 | Two phases over the deduplicated batch compute exactly the all-or-nothing acknowledgement and keep the invariant; an accepted batch appends one receipt, timed now, where the agent had none, and changes nothing else. |
| `MaintainerStore.Maintainer.BroadcastDeliveries` | src/maintainer.rs:1156-1178 | For every policy exactly the agents marked on one of its broadcasts written while it was in force. |
| `MaintainerStore.Maintainer.ListOutboxEntries` | src/maintainer.rs:672-695 | The entries of the open state asked for, or all without one, each once, by creation time and id from the newest, and the first of them when there is a limit. |
| `Outbox.NormalizeTargets` | src/maintainer.rs:1232-1244 | The result names the same agents, each once, and is absent rather than empty. |
| `Outbox.WithEntriesAt` | src/maintainer.rs:1025-1046 | The i-th fresh id holds a new unmarked entry for the i-th target, and every other entry is untouched. |
| `Outbox.OrderIsUnique` | src/maintainer.rs:546-552 | The serving order is total: two ordered listings of the same entries are the same list. |
| `Outbox.AckIsAtomic` | src/maintainer.rs:576-645 | A batch is accepted if and only if each id passes its check; a rejected batch changes nothing; an accepted one confirms each of its ids for this agent and no other pair. |
| `Outbox.RetryWritesTheRest` | src/maintainer.rs:571-575 | After a crash at any written prefix a retry of the same batch is accepted and writes exactly the receipts that were missing. |
| `Outbox.AckRetryConverges` | src/maintainer.rs:571-575 | A retry after a crash at any written prefix, at any later time, leaves each entry with the delivered agents an uninterrupted call would have left; at the same time, the same ledger. |
| `Outbox.AckTwice` | src/maintainer.rs:571-575 | Repeating an accepted batch is accepted and changes nothing at all. |
| `OutboxEffects.AnnouncingWrites` | src/maintainer.rs:1006-1047 | Entries for all targets under fresh ids leave the old entries alone, are unmarked, carry the policy as it stands, share one action no entry had, and address each recipient exactly once, or everyone where none are named. |
| `OutboxEffects.EligibleIsServed` | src/maintainer.rs:502-543 | Who is served what, in terms of the marks and states on file. |
| `OutboxEffects.PullingServes` | src/maintainer.rs:517-560 | What one pull serves, in which order, and what it makes of the offer marks. |
| `OutboxEffects.OfferMarks` | src/maintainer/outbox_io.rs:66-96 | The first mark of the agent keeps its first time, gets now as its last and counts one attempt more, up to the width of the counter; without a mark one is appended with the first attempt now. |
| `OutboxEffects.ReceiptsOnce` | src/maintainer/outbox_io.rs:98-120 | The first receipt of an agent is appended with its time; a later one changes nothing. |
| `OutboxEffects.RefusalIs` | src/maintainer.rs:598-627 | The three reasons for refusing an id, each exactly when it holds. |
| `OutboxEffects.FirstRefusal` | src/maintainer.rs:598-627 | The error of a batch is that of its first refused id. |
| `OutboxRuns.AnnouncedKeepsInv` | src/maintainer.rs:299-365 | Writing a policy and any prefix of its entries keeps the invariant, for new policies and for retirements. |
| `OutboxRuns.SeenMeansInformed` | src/maintainer.rs:502-543 | In every reachable state a mark on any entry of a broadcast policy goes back to an offer on a broadcast made while the policy was in force. |
| `OutboxRuns.StepKeepsInv` | src/maintainer.rs:299-645 | Every operation, cut off after any file it writes, keeps the invariant and only adds: entries keep their content, marks stay, policies stay, retirements are final. |
| `OutboxRuns.ReachableInv` | src/maintainer.rs:299-645 | The invariant holds after every run from an empty store, crashes included. |
| `OutboxRuns.ServedUntilConfirmed` | src/maintainer.rs:517-560 | Once offered, an entry is in each later pull of that agent with the same message, whatever happens to the policy, exactly until its confirmation is recorded, and in none after that. |
| `OutboxRuns.UnmarkedStaysUnmarked` | src/maintainer.rs:502-543 | An agent without a mark on a broadcast policy when it is deprecated never gains one and is never eligible for any of its entries, over all later runs. |
| `OutboxRuns.RetirementReachesTheInformed` | src/maintainer.rs:342-365 | After a completed deprecation each agent marked on the policy while it was in force is eligible for the retirement in every later state exactly until it confirms it. |
| `OutboxRuns.ListingAgrees` | src/maintainer.rs:1180-1206 | In every reachable state a targeted entry or a retirement is listed open if and only if some agent is eligible for it in its next pull. |
| `OutboxRuns.ListingOfBroadcasts` | src/maintainer.rs:1190-1194 | For a broadcast written in force, the listing agrees with the next pulls if and only if the policy is in force or every agent offered it has confirmed. |
| `OutboxRuns.WithdrawnWhileOwed` | src/maintainer.rs:1190-1194 | In every reachable state, deprecating a policy closes the listing of each broadcast made while it was in force, and an agent that was offered one and has not confirmed it is still eligible for it. |
| `OutboxRuns.ClosedButServed` | src/maintainer.rs:535-540 | A run from the empty store that ends in a closed broadcast which the next pull serves. |
| `OutboxAudit.BuildSendLog` | src/maintainer.rs:1208-1230 | The rows are exactly those of the log, each as often, ordered by receipt time and then agent. |
| `OutboxAudit.SendLogAt` | src/maintainer.rs:1208-1223 | Each delivered mark of each entry has a row of its own, with the time and agent of the mark and the ids, policy and type of the entry. |
| `OutboxAudit.SendLogFrom` | src/maintainer.rs:1208-1223 | The log holds no other rows. |
| `OutboxAudit.EarliestIsFirst` | src/maintainer.rs:1084-1091 | The representative of a group is a member no other precedes by creation time and id. |
| `OutboxAudit.BuildActionRows` | src/maintainer.rs:1073-1154 | Exactly one row for each action that occurs, made from all entries of that action and no other, from the newest action, equal times by action id. |
| `OutboxAudit.RowDescribes` | src/maintainer.rs:1084-1143 | A row takes policy and time from the first entry of its action by time and id, gathers inbox ids, target agents and receivers of the whole action, and is of one target kind exactly if all entries are. |
| `OutboxAudit.RowsAddUp` | src/maintainer.rs:1141-1142 | Any correct set of rows conserves totals: entry counts add up to the outbox and send events to the length of the send log. |
| `OutboxAudit.RowsSpeakForTheirGroups` | src/maintainer.rs:1089-1143 | In every reachable state the policy, time and target kind of a row hold for its whole group, and "mixed" never occurs. |
| `InboxFolder.AcceptKeeps` | src/agent/fs.rs:594-619 | Accepting keeps the invariant and returns Ok exactly if afterwards the directory holds this very message. |
| `InboxFolder.AckClaimedKeeps` | src/agent/fs.rs:543-562 | Finishing a claim, also when it crashes between the done file and the removal, loses and alters no message. |
| `InboxFolder.ReleaseKeeps` | src/agent/fs.rs:564-592 | Releasing loses and alters no message and never makes a second live copy. |
| `InboxFolder.StepKeeps` | src/agent/fs.rs:403-619 | Every operation by any reader, with any memory of what it acknowledged and any outdated claim, keeps the invariant, every message held, and every done file. |
| `InboxFolder.AcceptedIsConserved` | src/agent/fs.rs:403-619 | After any interleaving of readers and crashes an accepted message has a done copy or exactly one live copy, never two live copies, and its content is unchanged. |
| `InboxFolder.RedeliveryIsAccepted` | src/agent/fs.rs:600-615 | Delivering the same message again, at any later point of any run, is accepted and writes nothing. |
| `InboxFolder.DoneIsNeverTaken` | src/agent/fs.rs:416-426 | Once a done file exists, no later listing or claim in any run returns the message. |
| `InboxFolder.ClaimIsExclusive` | src/agent/fs.rs:501-524 | Two claims of one message, by any readers, need between them the recovery of its stale lease or a release that gives a held lease back. |
| `InboxFolder.LeaseAgesFromTheWrite` | src/agent/fs.rs:708-716 | A claimed file is due for recovery exactly when the unclaimed file would have been: the age counts from the last write of the message, not from the claim. |
| `InboxFolder.SecondClaimTakesItWhen` | src/agent/fs.rs:701-755 | A claim right after another takes the same message if and only if it finds the lease, does not remember the message as acknowledged, and the message file had gone unwritten for the limit. |
| `InboxFolder.TwoClaimsAtOneInstant` | src/agent/fs.rs:701-755 | For every message and limit there is a directory where two claims at the same instant are both given it. |
| `InboxEffects.AcceptWritesOrCompares` | src/agent/fs.rs:594-619 | A message without a copy is written as it came; one with a copy changes nothing and is accepted exactly if every copy reads like it apart from the handling time. |
| `InboxEffects.RecoveringGivesBack` | src/agent/fs.rs:701-755 | Exactly the listed leases whose files are at least as old as the limit end, and their messages are active again unless they were done. |
| `InboxEffects.ScanningCleans` | src/agent/fs.rs:408-447 | A scan removes exactly the active files beside a done file, and offers exactly what is active, not done and not remembered. |
| `InboxEffects.ClaimingTakes` | src/agent/fs.rs:456-498 | A claim takes exactly what is active after recovery, not done and not remembered. |
| `InboxEffects.ClaimingMoves` | src/agent/fs.rs:500-524 | It moves each file it takes to its lease, content and time unchanged, and leaves the other files alone. |
| `InboxEffects.OfferedInTime` | src/agent/fs.rs:438-444 | Of two messages offered together the earlier event comes first, then the older file, then the lesser id. |
| `InboxEffects.AckingWritesDone` | src/agent/fs.rs:528-541 | Finishing an active message writes it as done with the handling time and removes the active file, unless a crash leaves it behind; anything else is untouched. |
| `InboxEffects.AckingClaimedWritesDone` | src/agent/fs.rs:543-562 | Finishing under a held lease writes that file as done with the handling time and gives the lease up, unless a crash leaves it behind; without the lease nothing happens to a done message, and an active one is finished. |
| `InboxEffects.ReleasingGivesBack` | src/agent/fs.rs:564-592 | A release under a held lease makes the message active and claimable again, unless it is done or active already. |
| `InboxEffects.FinishedIsOver` | src/agent/fs.rs:528-562 | Once an active message or one held under its lease has been finished, with or without a crash, no claim or listing in any later run returns it. |
| `InboxReaders.InboxReader.AcceptPulled` | src/agent/fs.rs:594-619 | Checks every existing copy and otherwise writes the active file: the directory and the verdict are those of the specification. |
| `InboxReaders.InboxReader.RecoverStaleProcessing` | src/agent/fs.rs:701-755 | The loop over the directory listing leaves the directory as recovering the listed stale leases one after another does. |
| `InboxReaders.InboxReader.Scan` | src/agent/fs.rs:408-447 | Removes exactly the active files beside a done file and returns exactly the remaining ids this reader has not acknowledged. |
| `InboxReaders.InboxReader.ListPending` | src/agent/fs.rs:403-449 | Returns the messages of exactly the claimable ids, by event time, file time and id, and removes leftovers only. |
| `InboxReaders.InboxReader.ClaimPending` | src/agent/fs.rs:451-526 | After recovery and cleaning, moves exactly the claimable files to leases of their own and returns each with its lease, in the same order. |
| `InboxReaders.InboxReader.Ack` | src/agent/fs.rs:528-541 | The uninterrupted acknowledgement: an active message is done with the handling time now and no longer active; the id is remembered either way. |
| `InboxReaders.InboxReader.AckClaimed` | src/agent/fs.rs:543-562 | The uninterrupted acknowledgement: under a held lease the message is done with the handling time now and the lease is gone, with the fall-back to the active file when the lease is not held; the id is remembered. |
| `InboxReaders.InboxReader.ReleaseClaimed` | src/agent/fs.rs:564-592 | A held lease is given up and its file active again, unless the message is done or active already. |
| `DeliveryProtocol.StepKeepsInv` | src/maintainer.rs:495-645 | Maintainer steps, lossy and repeating delivery in both directions, agent file steps and crashes all keep: replies and copies are what the Maintainer wrote, receipts and delivered marks were earned by acceptance. |
| `DeliveryProtocol.ConfirmedIsDurable` | src/agent/fs.rs:594-619 | In every reachable state of the whole system an agent with a delivered mark holds an active, processing or done copy, and every copy it holds equals the message in the ledger apart from the handling time. |
| `DeliveryProtocol.RepliesAreAccepted` | src/agent/fs.rs:682-699 | A delayed or repeated reply never conflicts with what the agent has on disk. |
| `DeliveryProtocol.ReceiptsAreHonoured` | src/maintainer.rs:598-627 | A delayed or repeated receipt is never refused. |
| `DeliveryProtocol.HandledIsNeverHandedOutAgain` | src/agent/fs.rs:403-526 | Once handled, a message is never listed or claimed again, in any run of the whole system, however often it is redelivered. |
| `DeliveryProtocol.FinishedIsNeverHandedOutAgain` | src/agent/fs.rs:528-562 | A message an agent finishes, even if it crashes doing so, is never handed to it again in any run of the whole system. |
| `ClaimEdits.CrashLeavesOldOrNew` | src/agent/claims.rs:209-273 | A team-mode edit that crashes at any point, also within the recovery it runs first, recovers to one of two states with the record cleared: as before it, or as the completed edit would have left claims and queue. |
| `ClaimEdits.RecoverTwice` | src/agent/claims.rs:406-448 | Recovering again changes nothing, a recovery cut off between the queue and the record ends where an uninterrupted one does, and one that fails has changed nothing. |
| `ClaimEdits.StepKeepsInv` | src/agent/claims.rs:209-281 | Edits of team and solo sessions, recoveries, crashes within either, other writers that write claims and stage them, uploads and Dream phases keep: the queue never runs ahead of the store, and a logged original is in place or behind for good. |
| `ClaimEdits.RunAdvances` | src/agent/claims.rs:209-281 | Over every run each claim is only ever replaced by a strictly later version of the same claim and holder. |
| `ClaimEdits.RecoveryOverRuns` | src/agent/claims.rs:406-448 | In every reachable state with a record, recovery clears it and either the original is untouched and the queue left alone, or a later version is in place and exactly that version is queued. |
| `ClaimEdits.LandingMovesOn` | src/agent/claims.rs:216-251 | A call that writes its claim found exactly the version its revision names and left a strictly later one, under any clock. |
| `ClaimEdits.OneEditPerRevision` | src/agent/claims.rs:216-226 | Of all calls carrying the same revision at most one writes its claim, over every run between them. |
| `ClaimEdits.RevisionsNeverRepeat` | src/agent/claims.rs:486-489 | A version once replaced never comes back, so no revision repeats. |
| `ClaimEffects.EditTakesWhatIsGiven` | src/agent/claims.rs:228-251 | Each of the six editable fields is the given one where one was given and the old one otherwise; id, holder, creation and sources stay; the update time is the whole second of the clock, or a second after the version replaced if that is later. |
| `ClaimEffects.UpdateWrites` | src/agent/claims.rs:228-272 | A successful update replaces the claim by its edit, touches no other claim, and for a team clears the record and queues the edit. |
| `ClaimEffects.RefusedExactly` | src/agent/claims.rs:209-247 | An update is refused exactly for the first that applies of: nothing to edit, a commit in progress, an unknown claim, another holder, another version, a text that would be blank or fail the scan; or because the recovery before it fails. |
| `ClaimEffects.RecoveryIs` | src/agent/claims.rs:406-448 | Recovery keeps the claims, and clears the record; it queues the version in place exactly if that is not the one the edit started from. |
| `ClaimEffects.QueueKeepsTheLater` | src/agent/maintainer_upload.rs:618-626 | A claim displaces the queued version of its id unless that one is later. |
| `ClaimEditor.AgentHome.RecoverPendingEdit` | src/agent/claims.rs:406-448 | Computes the recovery function on the files, including its errors, and leaves the claims alone. |
| `ClaimEditor.AgentHome.UpdateClaim` | src/agent/claims.rs:209-281 | On success the claim has each given field as given and each other field as it was, is dated after the version replaced, and no other claim changes; a refused update changes no claim; the files are those of the completed update. |
| `ClaimEditor.AgentHome.Commit` | src/agent/claims.rs:253-272 | The writes in sequence end in the completed edit; after each of them the files are those of the corresponding interrupted edit. |
| `DreamBoundary.StepKeepsInv` | src/agent/session_engine/dream.rs:577-603 | Group commits, whole batches in time and late with any versions of their own, batches run again, and ordinary edits keep every recorded version at or behind the claim in place; every step that passes the guard of FinishingAdvancesExactly moves the state ahead. |
| `DreamBoundary.FinishingAdvancesExactly` | src/agent/session_engine/dream.rs:577-603 | A whole batch moves the state ahead if and only if its success time is later, or it is earlier and none of its own versions is behind the record, or it is the same and the batch also knows all that is on record. |
| `DreamBoundary.BoundarySucceedsExactly` | src/agent/claim_alignment.rs:28-41 | The boundary succeeds exactly with no commit pending at either check and the same state at both ends. |
| `DreamBoundary.QuietReadSucceeds` | src/agent/claim_alignment.rs:24-41 | A read that no Dream touches succeeds, however many ordinary edits are made meanwhile. |
| `DreamBoundary.GroupIsRecorded` | src/agent/session_engine/dream.rs:580-585 | The commit of a group records the versions it wrote and keeps the rest of the record. |
| `DreamBoundary.BatchIsRecorded` | src/agent/session_engine/dream.rs:586-603 | A batch in time records its own versions over those it began with and its success time; a late one adds its own to the record. |
| `DreamBoundary.ForwardClockIsEnough` | src/agent/session_engine/dream_execution.rs:190-192 | A late batch passes that guard if the clock put its groups in the order in which they wrote. |
| `DreamBoundary.LateBatchHidesACommit` | src/agent/session_engine/dream.rs:596-603 | Where a success time is on record, a late batch whose own version of a claim is the recorded one hides any commit made to that claim just before: the boundary succeeds around them and the claim has changed. |
| `DreamBoundary.ClockGoneBackHidesACommit` | src/agent/session_engine/dream_execution.rs:604-612 | A timeline from before the first Dream on which this happens: the clock goes back between two groups of one batch, and the batch ends late. |
| `DreamBoundary.TimelineAdvances` | src/agent/claim_alignment.rs:24-50 | Over every timeline whose batches pass the guard the state only moves ahead: to a later success time, or at the same one to versions none of which goes back. |
| `DreamBoundary.SameStateInBetween` | src/agent/claim_alignment.rs:35-41 | On such timelines, if the state reads the same at two instants it did not change at any instant between them: a state once left never returns. |
| `DreamBoundary.SavingMovesTheState` | src/agent/session_engine/dream.rs:577-603 | The state written at the end of a commit that wrote at least one claim differs from the one before, whichever of the three branches writes it. |
| `DreamBoundary.CommitStaysPending` | src/agent/session_engine/dream.rs:577-612 | On every timeline, while the state stands still a commit that has written a claim is still pending. |
| `DreamBoundary.ReadIsOneSnapshot` | src/agent/claims.rs:182-195 | For every interleaving with commits of single groups and of whole batches that pass the guard: if both halves of the boundary succeed, no commit wrote a claim during the read, and every claim not edited by an ordinary edit meanwhile was the same at every instant of it. |
| `DreamBoundary.ReadsFromTheFirstDreamOn` | src/agent/claims.rs:182-195 | In particular on every such timeline that begins with any claims and nothing recorded. |
| `PlanAlignment.Observe` | src/agent/claim_alignment.rs:53-59 | The loop that extends the record in place computes the observation function. |
| `PlanAlignment.ObservedMembers` | src/agent/claim_alignment.rs:53-59 | With unique target ids, the record gains exactly the targets now in place to the letter whose id was not recorded. |
| `PlanAlignment.ReportChanges` | src/agent/claim_alignment.rs:61-111 | The maps filled in loops give exactly the specified report. |
| `PlanAlignment.ReportIsExact` | src/agent/claim_alignment.rs:53-111 | For any earlier record, nothing is reported if and only if each claim of the analysis or the plan holds its analysed value (or absence) or its exact target, a recorded target still being in place. |
| `PlanAlignment.PartialPlanIsAccepted` | src/agent/claim_alignment.rs:113-115 | Starting from an empty record, every partly written plan is found fresh, whichever part was written. |
| `PlanAlignment.OtherEditsAreFlagged` | src/agent/claim_alignment.rs:81-115 | Starting from an empty record, any claim in a third state makes the analysis stale, is reported, and comes with at least one changed field. |
| `PlanAlignment.DifferenceIs` | src/agent/claim_alignment.rs:81-111 | A difference sets the target, where it is on record as applied, and otherwise the analysed version, against the version in place, and names exactly the fields in which they differ, or their existence. |
| `PlanAlignment.StaleWhen` | src/agent/claim_alignment.rs:113-115 | An analysis is stale without one or when any difference is reported. |
| `PlanAlignment.DifferenceIsNamed` | src/agent/claim_alignment.rs:91-105 | Two versions of one claim that differ in anything differ in one of the reported fields. |
| `MemoryText.Parse` | src/memory.rs:240-249 | The loop collects the distinct trimmed non-empty pieces in order of first occurrence. |
| `MemoryText.RenderParses` | src/memory.rs:251-253 | Printing any entries in normal form and reading the text gives back exactly those entries. |
| `MemoryText.ParsedIsNormal` | src/memory.rs:240-249 | Whatever a file holds, the entries read from it are trimmed, non-empty, free of the section sign and distinct. |
| `MemoryText.ParseRenderParse` | src/memory.rs:240-253 | Reading, printing and reading again is reading once, for every text. |
| `MemoryText.EntriesAreThePieces` | src/memory.rs:240-249 | The entries read are exactly the non-empty cores of the stretches between section signs. |
| `MemoryText.PrintedBetweenSigns` | src/memory.rs:251-253 | Entries are printed in order with a section sign on a line of its own between them. |
| `Sequences.DistinctOrder` | src/memory.rs:255-263 | Deduplication keeps first occurrences: elements of the result are ordered as the positions where they first occur. |
| `Sequences.RemoveDuplicates` | src/memory.rs:255-263 | The loop that rebuilds the vector computes that deduplication. |
| `MemoryEdits.MatchIsExact` | src/memory.rs:358-396 | An edit finds entry i if and only if its trimmed text is non-empty, i is where it first occurs, and it occurs in no entry reading otherwise. |
| `MemoryEdits.MatchFailsExactly` | src/memory.rs:358-396 | An edit finds nothing, always with the ambiguity error, if and only if its text is blank, occurs nowhere, or occurs in two different entries. |
| `MemoryEdits.Apply` | src/memory.rs:163-238 | The loop over the edits, stopping at the first error, computes the batch function, errors included. |
| `MemoryEdits.BatchKeepsClean` | src/memory.rs:174-207 | Any successful batch leaves entries that are trimmed, non-empty and free of the section sign, in both files. |
| `MemoryEdits.OtherTargetKept` | src/memory.rs:315-335 | Edits that name one file never touch the entries of the other. |
| `MemoryEdits.WrittenReadsBack` | src/memory.rs:209-237 | Each text of a successful batch is within its cap and reads back as exactly the edited entries, each once at its first place. |
| `MemoryEdits.ReportCountsWhatWasWritten` | src/memory.rs:221-236 | The characters and entries the report counts are those a reader of the two written texts would count. |
| `MemoryEdits.ReportShowsTheTarget` | src/memory.rs:217-220 | The report names the file of the last edit and shows exactly the entries a reader would find in it. |
| `MemoryEdits.NoOpIsNoChange` | src/memory.rs:215-216 | The no-op flag is set if and only if both written texts hold the entries the given ones held. |
| `MemoryEdits.PercentOfCap` | src/memory.rs:265-271 | The percentage never overstates nor passes one hundred; where the product does not saturate it is exact, rounded down, and one hundred exactly from a full file on; a cap of zero gives zero. |
| `MemoryEdits.SnapshotMakesNoDifference` | src/agent/fs.rs:240-247 | Editing the normalised snapshot or the raw files gives the same result, errors included. |
| `MemoryEdits.UntouchedTextIsOnlyLaidOut` | src/memory.rs:209-216 | The text of a file the batch does not name is printed from the entries it already had. |
| `MemoryEdits.AddingAgainIsNoOp` | src/memory.rs:178-186 | Adding once more what a batch ended by adding changes neither text, is flagged as no-op and noted as existing. |
| `MemoryEdits.AdditionGoesLast` | src/memory.rs:178-186 | An addition puts the trimmed entry after all others, unless it is there already; then nothing changes. |
| `MemoryEdits.ReplacementTakesThePlace` | src/memory.rs:188-200 | A replacement puts the trimmed new text exactly where the designated entry stood; an equal entry further down gives way to it, and beside an equal entry further up the replaced one is dropped. |
| `MemoryEdits.RemovalTakesTheDesignated` | src/memory.rs:201-205 | A removal leaves exactly the other entries in their order. |
| `MemoryEdits.RemovingAgainFails` | src/memory.rs:201-205 | Repeating a successful removal fails with zero matches. |
| `MemoryBatches.StepAgrees` | src/memory.rs:174-210 | An edit fails alike with and without earlier deduplication, and leaves the same distinct entries if and only if it does not take away one of several equal entries. |
| `MemoryBatches.BatchAgreesExactly` | src/memory.rs:174-210 | A batch agrees with its edits deduplicated one by one, after each of them and in its failures, if and only if no edit takes away one of several equal entries. |
| `MemoryBatches.NoCollisionNoDifference` | src/memory.rs:174-210 | From distinct entries, a batch in which no replacement writes what another entry reads is the same as its edits one by one, errors included. |
| `MemoryBatches.CallsAreSingleEdits` | src/memory.rs:163-238 | One call for each edit succeeds exactly when the edits do one by one and what each leaves fits, and leaves the texts they do. |
| `MemoryBatches.BatchAgreesWithCalls` | src/memory.rs:163-238 | On the texts, while no edit takes a copy: where the calls succeed the batch does with the same texts, and where the batch succeeds the calls do if and only if what each of them leaves fits. |
| `MemoryBatches.CopyTakenChangesTheFiles` | src/memory.rs:163-238 | The first edit that takes a copy makes the texts differ, whenever batch and calls both get past it. |
| `MemoryBatches.BatchCanDiffer` | src/memory.rs:163-238 | A text and two edits for which batch and calls both succeed and leave different texts. |
| `MemoryFiles.AgentMemory.ApplyMemoryOps` | src/agent/fs.rs:230-261 | On the files: an error leaves both alone, so does a batch that changes no entry whatever the layout, and a file that is rewritten is in normal form, within its cap and reads back as reported. |
| `MemoryEffects.ContainsMeans` | src/memory.rs:377 | A needle is found exactly where the entry reads something before it, it, and something after it. |
| `MemoryEffects.RefusedExactly` | src/memory.rs:293-396 | An edit is refused for a section sign first, then for a blank text, then for not designating one entry, with the number of entries that match. |
| `MemoryEffects.EditWrites` | src/memory.rs:174-207 | What each edit makes of its file and how it is noted; the other file is as it was. |
| `MemoryEffects.BatchFailsExactly` | src/memory.rs:398-414 | A batch fails with its first failing edit, or because the first and then the second file would be too long, with its length, the cap and the excess. |
| `MemoryEffects.ReportFigures` | src/memory.rs:265-278 | Length, cap and percentage of each written text: never overstated, exact where the product does not saturate. |
| `MemoryEffects.ReportNotesTheLast` | src/memory.rs:171-207 | The note is that of the last edit. |
| `ShellCommand.ReplacedIsRead` | src/update.rs:615-624 | Inside single quotes the replaced value, with its excursions into double quotes, adds exactly the value to the word being read. |
| `ShellCommand.QuotedIsRead` | src/update.rs:615-624 | Every value, the empty one included, is read as exactly one word with that value. |
| `ShellCommand.RetryCommandRoundTrip` | src/update.rs:626-632 | For every list of strings, splitting the printed command under the quoting and token rules of sections 2.2 and 2.3 of the POSIX.1-2017 Shell Command Language gives the list back. |
| `ShellCommand.RetryCommandTellsApart` | src/update.rs:626-632 | Different argument lists are never printed alike. |
| `ShellCommand.BareWhenPlain` | src/update.rs:616-622 | A value is printed without quotes if and only if it is non-empty and every character is an ASCII letter or digit or one of _ - . / : @ +. |
| `SkillMentions.MentionIsSpelled` | src/skill.rs:158-190 | A mention is exactly a slash at the start or after whitespace, a maximal non-empty name of ASCII letters, digits, underscores and hyphens, and then the end, whitespace or punctuation. |
| `SkillMentions.FindCandidates` | src/skill.rs:158-190 | The single pass that skips over consumed names finds exactly the mentions, in the order of the text. |
| `SkillMentions.ReferenceOrigin` | src/skill.rs:192-227 | Each reference comes from the first call of its path, and references stand in the order of those calls. |
| `SkillMentions.PathsAreUnique` | src/skill.rs:201-203 | No spec path is referenced twice. |
| `SkillMentions.EveryCallIsReferenced` | src/skill.rs:192-227 | Every mention of a registered non-native name is answered by a reference with the path of the first skill of that name. |
| `SkillMentions.OnlyTheLeadingReferenceHasArguments` | src/skill.rs:204-220 | Arguments occur only on the first reference. |
| `SkillMentions.NextSkillStart` | src/skill.rs:206-211 | The scan of later candidates finds the next mention of any registered name, native ones included, or the end. |
| `SkillMentions.ArgumentsOf` | src/skill.rs:204-218 | Arguments exist exactly after blank text and are the trimmed non-empty text up to that next mention. |
| `SkillMentions.ArgumentsAreSpelled` | src/skill.rs:204-218 | The arguments of a mention: absent exactly if something other than blanks stands before it, or nothing but blanks follows it up to the next registered mention or the end; else that stretch without its blank margins. |
| `SkillMentions.FindExplicitSkillInvocations` | src/skill.rs:147-229 | Each reference names the first skill registered under the name of a token that is not native, and its path; references stand in the order of the text, no path repeats, and each call has a reference to its path no later than itself. Arguments exist exactly after blank text and are the non-blank core of what stands between the name and the next token naming any registered skill, or the end. |
| `Text.TrimIsCore` | src/skill.rs:204-212 | Trimming takes off blank margins only, and what is left begins and ends with a non-blank. |
| `Continuation.JoinContinues` | src/api/continuation.rs:11-29 | The join begins with the old text and ends with the chunk. |
| `Continuation.JoinIsShortest` | src/api/continuation.rs:22-28 | No string that begins with the text and ends with the chunk is shorter than the join, and none as short is different. |
| `Continuation.JoinIsShortestInBytes` | src/api/continuation.rs:22-28 | Nor is any such string shorter in UTF-8 bytes. |
| `Continuation.JoinTwice` | src/api/continuation.rs:18-20 | Joining the same chunk twice is joining it once. |
| `Continuation.JoinRestores` | src/api/continuation.rs:22-28 | A reply cut at i and continued from j is restored if and only if the repeated part is the longest overlap; otherwise the join is too short. |
| `Continuation.RepeatedTextIsLost` | src/api/continuation.rs:18-20 | A concrete text and chunk whose genuine repetition is taken for an overlap. |
| `Continuation.FindOverlap` | src/api/continuation.rs:22-27 | The search over character offsets with its byte-length filter finds where the longest overlap begins. |
| `Continuation.CutIsBetweenCharacters` | src/api/continuation.rs:28 | The byte offset at which the chunk is cut is a character boundary of it. |
| `Continuation.Reply.AppendWithOverlapDedupe` | src/api/continuation.rs:10-29 | The text extended in place, early returns included, is the join; no slice falls inside a character. |
| `Utf8.PrefixInBytes` | src/api/continuation.rs:26 | Comparing bytes decides prefixes of characters: one string begins another if and only if its UTF-8 bytes begin the other's. |
| `Utf8.SuffixInBytes` | src/api/continuation.rs:18 | The same for endings. |
| `Utf8.CutIsPossible` | src/api/continuation.rs:28 | A byte offset is a boundary if and only if it is the end or the byte there is no continuation byte. |

## Left out

- Unreadable, damaged or concurrently vanishing files, and errors of the file system; every file operation
  succeeds or the operation has crashed before it.
- Zero-byte files that a crashed mint leaves to reserve an id: minting draws from unused ids.
- `sweep_items` and the sweep that fills them; its suggestions are published like other policies.
- Policies and outbox entries written by arbitration: `src/maintainer/arbitration/resolution.rs` writes them under
  ids fixed beforehand, checks what is already there, and resumes after a crash.
- Ledgers from before offers were recorded: runs start from an empty store, so every delivered mark comes after
  an offer; the acknowledgement check itself accepts a delivered mark without an offer, as the program does.
- Registration of agents on their first pull, uploads of claims, and disputes.
- DreamBoundary.ReadIsOneSnapshot: holds where no whole batch takes the recorded state back, which is the guard
  `GoesForward`; the program itself does not check it. The snapshot time and the bytes of the state file are not part
  of this model.
- DreamBoundary.ReadIsOneSnapshot: an ordinary edit during the read shows in what is read of that claim, since
  the program guards reads against Dream commits only.
- ClaimEdits.RevisionsNeverRepeat: the revision is an injective function of the claim; SHA-256 and JSON encoding
  are not part of this model.
- ClaimEdits.RecoveryOverRuns: the upload queue is the newest-wins merge keyed by claim; durable ids and the
  supersession that staging performs are not linked to it.
- The content scan of claim texts is an arbitrary predicate; the scan of memory edits before a batch, and the
  table behind both, are not part of this model.
- Pagination of claims and traces, trace reading, and prompt rendering.
- MemoryFiles.AgentMemory.ApplyMemoryOps: a crash between the writes of the two files, which leaves the first
  rewritten and the second as it was, is not part of this model.
- PlanAlignment.ReportIsExact: the report is a map keyed by claim; its JSON form is not part of this model.
- ShellCommand.RetryCommandRoundTrip: reserved words and aliases (sections 2.4 and 2.3.1), which a shell looks for
  after the words are read, are not part of this model; expansions and operators make the reader refuse.
- SkillMentions.FindExplicitSkillInvocations: positions count characters, not bytes, because every offset the
  scanner uses comes from a character it has read.
- Reading, expanding and hashing skill bodies, limits per turn, and escaping of XML metadata.
- Text.TrimIsCore: white space is the property White_Space of Unicode, listed by code point.
- LLM providers, servers and clients, the terminal interface, configuration, authentication and attachments.
