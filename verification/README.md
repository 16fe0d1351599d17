# Backing statements, bridge light clients and message lanes

A Dafny model of four stateful parts of the SDK, with proofs about whole runs of each:

1. **The statement table** of candidate backing (`polkadot/statement-table`). Signed `Seconded` and `Valid` statements
   are imported into three linked maps. `StatementTable` holds the data and what one import does, `TableRuns` runs and
   their linkage, `Accountability` who gets accused, `HonestRuns` order independence, `Attestation` backing,
   `MisbehaviorDrain` draining, and `TableObject` the table as an object updated in place.
2. **The GRANDPA light client** (`bridges/modules/grandpa`). `GrandpaPallet` holds storage, calls and the reading of
   digests, `GrandpaRuns` the theorems about runs, `GrandpaCalls` what each call accepts and writes, `GrandpaExtension`
   the transaction extension, `GrandpaClient` the pallet as an object.
3. **The BEEFY light client** (`bridges/modules/beefy`). `BeefyQuorum` holds the commitment checks, `BeefyPallet` storage
   and calls, `BeefyRuns` the theorems about runs, `BeefyClient` the pallet as an object. Both light clients keep a map
   beside a ring buffer of its keys; `RingWindow` shows once when that is a sliding window.
4. **The message lanes** (`bridges/modules/messages`, `bridges/bin/runtime-common`). `MessageLanes` holds the two ends of
   a lane, `RelayerQueue` the queue of unrewarded relayers, `LaneProtocol` both chains of one lane together,
   `LargestNonce` runs that use up all nonces, `MessageGate` the obsolete-call gate, and `Congestion` the congestion
   signals.

Every stateful part is written twice: as functions from one storage value to the next, on which runs are defined as
sequences of calls, and as a class (or a method with the source's loop) that updates fields in place and is proved to do
what the function says. The classes `Table` and both `Pallet`s carry a ghost history, and `Valid()` says that their
fields are the result of that run; so the theorems about runs hold of every such object.

What comes from outside is a parameter: the statement table's `Context` (digest, group membership, group size),
justification and signature verification, hashing, Merkle and MMR proofs, and whether an XCM message could be sent.
Assumptions on them (no collision of digests, hashes or roots) are preconditions of exactly the lemmas that need them,
and speak only about the values that occur in the run. Origins are booleans (signed; owner or root). A panic is an
outcome of a call, and a run ends with it. 64-bit counters wrap around or saturate as in the source.

## Main results

- Accountability is exact. In every run an authority is accused if and only if it broke a rule, where the rules speak
  only about the imported statements (`Accountability.AccusedExactly`). Each record is made of statements the authority
  really signed (`Accountability.RecordsProve`), and no record is lost (`MisbehaviorDrain.MisbehaviorConserved`).
- The panic in the vote import is reachable. A run ends in it exactly when a statement crosses groups
  (`TableRuns.CrashesExactly`); a caller that passes one group per digest excludes it (`TableRuns.NeverPanics`).
- For honest runs the order of statements does not matter (`HonestRuns.OrderIrrelevant`).
- Both light clients are sliding windows over a chain of trust that starts at the initial authority set. What their calls
  accept and write is stated on the inputs alone (`GrandpaCalls.SubmitAcceptedExactly`, `SubmitWrites`,
  `BeefyRuns.SubmitAcceptedExactly`, `SubmitWrites`).
- Two BEEFY light clients cannot accept different commitments to a block under one authority set unless more positions
  are faulty than the quorum tolerates (`BeefyRuns.ClientsAgree`).
- On a message lane whose two chains see each other only through proofs of arbitrary earlier states, in every run that
  sends at most 2^64 - 1 messages: every message is dispatched once and in order, and the lane is never stuck
  (`LaneProtocol.DispatchedOnceInOrder`, `NeverStuck`); every such proof is accepted unless the largest nonce is
  confirmed on both chains (`ProofsAcceptedExactly`); and every delivery is paid exactly once unless the largest nonce is
  confirmed again (`PaidOnceExactly`). Below the largest nonce there are no exceptions.

Where the code does less than its documentation or names suggest, the model follows the code and a lemma gives the exact
condition:

- `submit_finality_proof_ex` is documented to fail on any header with a forced change. The reader looks only at the first
  GRANDPA log of the digest (`GrandpaPallet.ForcedChangeSeen`), so an otherwise passing call fails for a forced change
  exactly when that log is one (`GrandpaRuns.ForcedChangeRejectedExactly`); `GrandpaRuns.ForcedChangeBehindLog` is a
  header with a forced change that is imported.
- `was_successful` of the GRANDPA extension is true after a failing call exactly when the best header already had that
  number (`GrandpaExtension.SuccessTestExactly`).
- Only the initial BEEFY authority set is checked for emptiness. All sets in charge have validators exactly when no
  accepted submission hands over to an empty one (`BeefyRuns.NonEmptyExactly`); under an empty set a commitment without
  signatures is accepted (`BeefyRuns.EmptySetNeedsNoSignature`).
- An accepted delivery is delivered in full exactly when the slots suffice that are free after the lane state it brings,
  if any, is applied. A relayer that takes the last free entry of the queue delivers only the first of its messages,
  because the entry limit is checked again for each (`MessageGate.AcceptedDeliverySucceedsExactly`).
- Confirming nonces that are confirmed already is meant to change nothing. That holds exactly below the largest nonce; at
  the largest nonce the saturated range is never empty (`RelayerQueue.ConfirmedAgainExactly`). There are runs in which
  the last message is paid for twice (`LargestNonce.PaidTwice`) and runs in which a true proof is rejected
  (`LargestNonce.TrueProofRejected`). One message later the nonces start again at zero (`LargestNonce.OneTooMany`).

## Model

| member | source | states |
|---|---|---|
| `TableRuns.ReachableLinked` | polkadot/statement-table/src/generic.rs:382-462 | in every run that has not panicked: proposals of an authority are of different candidates (exactly one when only one is allowed), each of a candidate on which it has a vote; an implicit vote belongs to a noted proposal; candidates, groups and votes are those of the imported statements |
| `TableRuns.PanicsExactly` | polkadot/statement-table/src/generic.rs:471-493 | in a reachable table the lookup behind the existence proof succeeds, and an import panics exactly when an in-group `Seconded` meets a candidate recorded under a group its sender is not in |
| `TableRuns.CrashesExactly` | polkadot/statement-table/src/generic.rs:477-484 | a whole run ends in a panic if and only if one of its statements crosses groups, a condition on the statements before it |
| `TableRuns.NeverPanics` | polkadot/statement-table/src/generic.rs:449-461 | a caller that passes one group per digest never makes the table panic |
| `TableRuns.TwoGroupsCrash` | polkadot/statement-table/src/generic.rs:477-484 | two proposers of one candidate in two groups: a run that does panic |
| `TableRuns.RecordedGroup` | polkadot/statement-table/src/generic.rs:451-459 | a candidate keeps the group and body of the first statement that opened it |
| `Accountability.RecordsProve` | polkadot/statement-table/src/generic.rs:340-363 | if no two imported candidates collide in their digest, every recorded misbehavior consists of statements imported earlier from that authority with those signatures, and they conflict or fall outside the group they are checked against |
| `Accountability.RecordsOffend` | polkadot/statement-table/src/generic.rs:390-447 | whatever the digest, a record is only made against an authority that broke a rule |
| `Accountability.OutsideGroupAccused` | polkadot/statement-table/src/generic.rs:390-399 | a statement outside the group it is checked against is recorded |
| `Accountability.TwoCandidatesAccused` | polkadot/statement-table/src/generic.rs:401-447 | two in-group proposals of different candidates, when one is allowed, are recorded in any run that ends with the later one or goes on after it |
| `Accountability.TwoVotesAccused` | polkadot/statement-table/src/generic.rs:495-525 | two different votes, or one vote with two signatures, on a candidate known at both times are recorded in any run that ends with the later one or goes on after it |
| `Accountability.AccusedExactly` | polkadot/statement-table/src/generic.rs:333-363 | in every run an authority is accused if and only if it made a statement outside its group, two proposals when one is allowed, or two different votes on a known candidate |
| `Accountability.EntriesStay` | polkadot/statement-table/src/generic.rs:464-528 | over any stretch of a run proposals only grow, and candidates, groups and votes are write-once |
| `Accountability.CastLeavesVote` | polkadot/statement-table/src/generic.rs:495-527 | a vote on a known candidate either blames its caster or is the caster's stored vote afterwards |
| `HonestRuns.HonestNotAccused` | polkadot/statement-table/src/generic.rs:354-362 | a run that follows the rules does not panic and accuses nobody |
| `HonestRuns.HonestTally` | polkadot/statement-table/src/generic.rs:382-528 | an honest run ends with the candidates and votes read off the set of its statements, with no order |
| `HonestRuns.TallyUnique` | polkadot/statement-table/src/generic.rs:235-240 | that reference determines the candidate table |
| `HonestRuns.OrderIrrelevant` | polkadot/statement-table/src/generic.rs:382-528 | two honest orders of the same statements, with repetitions and drains anywhere, end with the same candidates and votes |
| `Attestation.Attested` | polkadot/statement-table/src/generic.rs:245-269 | an attestation exists exactly when the votes reach the threshold; it lists every voter once, with the implicit or explicit kind and signature of its vote |
| `Attestation.EffectiveMinimumBackingVotes` | polkadot/primitives/src/v7/mod.rs:1835-1840 | the smaller of group size and configured minimum |
| `Attestation.VotersExactly` | polkadot/statement-table/src/generic.rs:464-528 | in every run the stored voters of a candidate are exactly the members of its first proposal's group that opened it or called it valid while it was known |
| `Attestation.BackedExactly` | polkadot/statement-table/src/generic.rs:319-331 | in every run a candidate is includable exactly when n distinct members of that group backed it, where n is the smaller of group size and configured minimum, or 2^64 - 1 for an unknown group |
| `Attestation.BackedStays` | polkadot/statement-table/src/generic.rs:319-331 | once includable, a candidate stays so for the rest of the run |
| `Attestation.StepAddsVote` | polkadot/statement-table/src/generic.rs:522-527 | an import that returns a summary adds exactly the sender's vote and reports the candidate's group and number of votes; any other call adds none |
| `Attestation.VotesConserved` | polkadot/statement-table/src/generic.rs:271-277 | the number of stored votes is the number of imports that returned a summary |
| `MisbehaviorDrain.MisbehaviorConserved` | polkadot/statement-table/src/generic.rs:354-380 | per authority and in order, recorded misbehavior is what was drained followed by what is pending; no stored list is ever empty |
| `MisbehaviorDrain.RecordedExactly` | polkadot/statement-table/src/generic.rs:356-361 | the ordered record of an authority holds exactly what some import recorded |
| `MisbehaviorDrain.Drain.MaybeItem` | polkadot/statement-table/src/generic.rs:549-572 | pops the first remaining item of the authority in progress |
| `MisbehaviorDrain.Drain.Next` | polkadot/statement-table/src/generic.rs:574-588 | yields the first remaining item of some authority and touches no other; returns nothing early only if an empty list was stored |
| `MisbehaviorDrain.Collect` | polkadot/statement-table/src/generic.rs:574-588 | run to its end the iterator loses, adds and reorders nothing, and with no empty list it yields everything once |
| `TableObject.Table.constructor` | polkadot/statement-table/src/generic.rs:307-314 | an empty table with an empty history |
| `TableObject.Table.ImportStatement` | polkadot/statement-table/src/generic.rs:340-363 | the new contents and result of one import; it panics exactly when it crosses groups, and otherwise extends the run |
| `TableObject.Table.ImportCandidate` | polkadot/statement-table/src/generic.rs:382-462 | the in-place import of a proposal does what the value-level import does |
| `TableObject.Table.CastValidityVote` | polkadot/statement-table/src/generic.rs:464-528 | the in-place vote does what the value-level vote does, branch by branch |
| `TableObject.Table.GetAttestedCandidate` | polkadot/statement-table/src/generic.rs:319-331 | exactly when that many group members backed the candidate: its first proposal's group and body, and every voter once with a vote it cast in the run as a group member |
| `TableObject.Table.StartDrain` | polkadot/statement-table/src/generic.rs:375-380 | the table forgets all misbehavior and the iterator holds all of it, with no empty list |
| `RingWindow.InsertSlides` | bridges/modules/grandpa/src/lib.rs:656-672 | with different keys, inserting and then pruning keeps exactly the last `size` insertions, and the pointer at their number modulo `size` |
| `RingWindow.NewEntrySurvives` | bridges/modules/grandpa/src/lib.rs:661-671 | the new entry survives exactly when its key is not the pruned one |
| `RingWindow.WindowListsKeys` | bridges/modules/beefy/src/lib.rs:298-307 | the ring lists exactly the keys of the entries, each once |
| `RingWindow.WindowBound` | bridges/modules/grandpa/src/lib.rs:133-141 | the number of kept entries |
| `GrandpaRuns.HeadersWindow` | bridges/modules/grandpa/src/lib.rs:656-704 | in every run imported numbers strictly increase, the store is exactly the last `HeadersToKeep` imported headers, the pointer is the number of imports modulo that, and the best header is stored and is the last one |
| `GrandpaRuns.HeadersListed` | bridges/modules/grandpa/src/lib.rs:389-414 | in every run the ring lists exactly the stored hashes, each once, within the bound |
| `GrandpaRuns.EveryImportTrusted` | bridges/modules/grandpa/src/lib.rs:283-362 | in every run each header after the initial one was justified by the set in charge: the initial one, replaced in turn by the first scheduled change in the digest of each header before it, wherever it stands; such changes have no delay and respect the size limit, and no first GRANDPA log is a forced change |
| `GrandpaRuns.SetIdCounts` | bridges/modules/grandpa/src/lib.rs:588-606 | the set id is the initial id plus the number of imported changes, modulo 2^64 |
| `GrandpaPallet.ScheduledChangeSeen` | bridges/primitives/header-chain/src/lib.rs:152-164 | the reader finds the first scheduled change of a digest wherever it stands |
| `GrandpaPallet.NoScheduledChange` | bridges/primitives/header-chain/src/lib.rs:152-164 | and finds none exactly when no item is one |
| `GrandpaPallet.ForcedChangeSeen` | bridges/primitives/header-chain/src/lib.rs:166-177 | the reader sees a forced change exactly when it is the first GRANDPA log of the digest |
| `GrandpaRuns.ForcedChangeRejectedExactly` | bridges/modules/grandpa/src/lib.rs:575-600 | a call that passes every other check fails as an unsupported change exactly when the first GRANDPA log of its header is a forced change, and succeeds otherwise |
| `GrandpaRuns.ForcedChangeBehindLog` | bridges/modules/grandpa/src/lib.rs:283-362 | a header with a forced change behind another GRANDPA log is imported, and the change is ignored |
| `GrandpaRuns.ForcedChangesOnlyBehindLogs` | bridges/modules/grandpa/src/lib.rs:575-586 | in every run a header imported after initialization carries a forced change only behind another GRANDPA log |
| `GrandpaRuns.FreeHeadersAccounted` | bridges/modules/grandpa/src/lib.rs:150-160 | in every run the free slots left in a block and the refunded imports of that block add up to the maximum; outside of a block there are none |
| `GrandpaRuns.OutsideBlockPays` | bridges/modules/grandpa/src/lib.rs:527-536 | outside of a block no import is refunded |
| `GrandpaCalls.CheckObsoleteExactly` | bridges/modules/grandpa/src/call_ext.rs:162-211 | not obsolete are exactly the numbers above the best one, under the stored set if one is named; the result is the distance to the best one |
| `GrandpaCalls.SubmitAcceptedExactly` | bridges/modules/grandpa/src/lib.rs:283-312 | a finality proof is accepted exactly when its header is above the best one under the stored set, that set justifies it, its first GRANDPA log is not a forced change, and its first scheduled change has no delay and fits |
| `GrandpaCalls.SubmitErrors` | bridges/modules/grandpa/src/lib.rs:283-312 | for each error the inputs that fail with it |
| `GrandpaCalls.SubmitWrites` | bridges/modules/grandpa/src/lib.rs:313-362 | the first scheduled change of the digest takes over with the next id, any other header leaves the set alone; the call is free exactly when a slot is left, it fits, and it changes the set or is far enough ahead; a free call takes one slot |
| `GrandpaCalls.InitializeExactly` | bridges/modules/grandpa/src/lib.rs:676-704 | initialization succeeds exactly once, for owner or root, with a set that fits, and stores all it was given |
| `GrandpaExtension.ExtensionAgreesExactly` | bridges/modules/grandpa/src/call_ext.rs:92-160 | the extension accepts a free call exactly when the call passes its own checks and would be refunded, or one of two missing values decides; in those cases it would not be refunded |
| `GrandpaExtension.AcceptedFreeCallIsFree` | bridges/modules/grandpa/src/call_ext.rs:109-160 | with a counter and an interval, an accepted free call that succeeds is free and takes one slot, and the later success test is right |
| `GrandpaExtension.InBlockFreeCallIsFree` | bridges/modules/grandpa/src/lib.rs:313-332 | in every run, inside a block, an accepted free call that succeeds is a refunded import of that block, which had a slot left |
| `GrandpaExtension.SuccessTestExactly` | bridges/modules/grandpa/src/call_ext.rs:213-219 | the success test is right exactly when the best header did not have that number before |
| `GrandpaExtension.StaleExactly` | bridges/modules/grandpa/src/call_ext.rs:228-291 | of both calls, stale are exactly those that bring no header above the best one |
| `GrandpaExtension.AcceptedCallFailures` | bridges/modules/grandpa/src/lib.rs:302-312 | an accepted call, the deprecated one included, fails only for its justification or its authority change |
| `GrandpaExtension.PaidCallAcceptedExactly` | bridges/modules/grandpa/src/call_ext.rs:92-107 | a call that does not ask for free execution is accepted exactly when the pallet works, the header is above the best one and a named set is the stored one |
| `GrandpaClient.Pallet.constructor` | bridges/modules/grandpa/src/lib.rs:454-460 | genesis without initialization data: halted, nothing stored |
| `GrandpaClient.Pallet.OnInitialize` | bridges/modules/grandpa/src/lib.rs:152-155 | a block starts with the maximum of free slots |
| `GrandpaClient.Pallet.OnFinalize` | bridges/modules/grandpa/src/lib.rs:157-159 | the counter disappears with the block |
| `GrandpaClient.Pallet.SetOperatingMode` | bridges/modules/grandpa/src/lib.rs:239-249 | only owner or root changes the mode |
| `GrandpaClient.Pallet.StoreHeader` | bridges/modules/grandpa/src/lib.rs:656-672 | the in-place import and pruning does what the value-level insertion does |
| `GrandpaClient.Pallet.EnactAuthorityChange` | bridges/modules/grandpa/src/lib.rs:575-620 | succeeds exactly without a forced first log and with a supported schedule; then the set is the one of the first scheduled change with the next id, and it stays otherwise |
| `GrandpaClient.Pallet.SubmitFinalityProofEx` | bridges/modules/grandpa/src/lib.rs:283-362 | storage and result of the call, which extends the run; a failing call changes nothing |
| `GrandpaClient.Pallet.SubmitFinalityProof` | bridges/modules/grandpa/src/lib.rs:183-198 | the deprecated call is the other one with the stored set id |
| `GrandpaClient.Pallet.InitializePallet` | bridges/modules/grandpa/src/lib.rs:211-228 | storage and result of the initialization, possible once; a failing call changes nothing |
| `BeefyQuorum.VerifySignatures` | bridges/modules/beefy/src/utils.rs:59-94 | the countdown with early exit accepts exactly when the lengths agree and the required number of positions carry a correct signature |
| `BeefyQuorum.QuorumExactly` | bridges/modules/beefy/src/utils.rs:50-57 | a quorum is exactly that no more than floor((n-1)/3) positions miss a correct signature |
| `BeefyQuorum.CommitmentAcceptedExactly` | bridges/modules/beefy/src/utils.rs:33-126 | a commitment is accepted, with this MMR root, exactly when ids, lengths and Merkle root name the set in charge, at most floor((n-1)/3) positions miss a correct signature, and it carries the root |
| `BeefyQuorum.CommitmentErrors` | bridges/modules/beefy/src/utils.rs:33-126 | for each error the commitments that fail with it |
| `BeefyQuorum.QuorumsIntersect` | bridges/modules/beefy/src/utils.rs:33-126 | two commitments accepted under one set info (n >= 1) were checked against the same validators, and at least floor((n-1)/3) + 1 positions signed both |
| `BeefyQuorum.NoConflictingCommitments` | bridges/modules/beefy/src/utils.rs:107-126 | with no more faulty positions than that, commitments accepted for one block under one set info are equal |
| `BeefyRuns.CommitmentsWindow` | bridges/modules/beefy/src/lib.rs:217-266 | in every run accepted block numbers strictly increase above the initial one, the store is exactly the last `CommitmentsToKeep` of them with their parent and root, and the next index is their number modulo that |
| `BeefyRuns.CommitmentsListed` | bridges/modules/beefy/src/lib.rs:298-307 | in every run the ring lists exactly the stored block numbers, each once, within the bound; the best block is stored once there is one |
| `BeefyRuns.EveryCommitmentTrusted` | bridges/modules/beefy/src/lib.rs:225-239 | in every run each accepted commitment was signed by a quorum of the set in charge, and its leaf proven under the signed root; so is each hand-off |
| `BeefyRuns.SetIdsIncrease` | bridges/modules/beefy/src/lib.rs:236-239 | the id of the set in charge never decreases, and a different set has a higher id |
| `BeefyRuns.StoredSetInCharge` | bridges/modules/beefy/src/lib.rs:236-239 | in every run the set in charge starts as the initial one, becomes the whole next set of an accepted leaf exactly if its id is higher, and is the stored one |
| `BeefyRuns.SubmitAcceptedExactly` | bridges/modules/beefy/src/lib.rs:202-233 | a submission is accepted exactly when the client admits its block, it names the set in charge, at most floor((n-1)/3) positions miss a correct signature, and its leaf is proven under its root |
| `BeefyRuns.SubmitErrors` | bridges/modules/beefy/src/lib.rs:202-233 | for each error of the call the inputs that fail with it |
| `BeefyRuns.SubmitWrites` | bridges/modules/beefy/src/lib.rs:235-266 | what an accepted submission writes, in terms of its own fields |
| `BeefyRuns.InitializeExactly` | bridges/modules/beefy/src/lib.rs:391-408 | initialization succeeds exactly once, for owner or root, with a non-empty set, and stores all it was given |
| `BeefyRuns.NonEmptyExactly` | bridges/modules/beefy/src/lib.rs:236-239 | in every run, all sets ever in charge had validators if and only if no accepted submission handed over to a set without any |
| `BeefyRuns.EmptySetNeedsNoSignature` | bridges/modules/beefy/src/utils.rs:50-94 | with an empty set in charge, a submission that the limiter and the block number admit is accepted exactly when it has no signatures, names that set and proves its leaf |
| `BeefyRuns.ClientsAgree` | bridges/modules/beefy/src/lib.rs:202-275 | two light clients in any two runs agree on a block accepted under the same set, within the tolerated faults |
| `BeefyRuns.RequestsBounded` | bridges/modules/beefy/src/lib.rs:215-235 | the request count never exceeds its maximum |
| `BeefyRuns.RateBound` | bridges/modules/beefy/src/lib.rs:134-140 | over any stretch of a run at most the free request slots plus the blocks started are accepted |
| `BeefyRuns.BlockStartAdmits` | bridges/modules/beefy/src/lib.rs:278-287 | right after a block start the limiter rejects nothing |
| `BeefyClient.Pallet.constructor` | bridges/modules/beefy/src/lib.rs:340-356 | genesis without initialization data: halted, nothing stored |
| `BeefyClient.Pallet.OnInitialize` | bridges/modules/beefy/src/lib.rs:134-140 | a block start frees one request slot, down to none used |
| `BeefyClient.Pallet.SetOperatingMode` | bridges/modules/beefy/src/lib.rs:185-190 | only owner or root changes the mode |
| `BeefyClient.Pallet.InitializePallet` | bridges/modules/beefy/src/lib.rs:158-169 | storage and result of the initialization, possible once and only with a non-empty set |
| `BeefyClient.Pallet.CheckCommitment` | bridges/modules/beefy/src/utils.rs:107-126 | the checks with the signature countdown accept exactly when the commitment names the set, at most floor((n-1)/3) positions miss a correct signature and a root is there; the same errors in the same order |
| `BeefyClient.Pallet.CheckSubmission` | bridges/modules/beefy/src/lib.rs:212-233 | the checks of a submission in order, against the stored state |
| `BeefyClient.Pallet.ImportCommitment` | bridges/modules/beefy/src/lib.rs:235-266 | the in-place writes: request count, insertion and pruning, and the hand-off to the whole next set if its id is higher |
| `BeefyClient.Pallet.SubmitCommitment` | bridges/modules/beefy/src/lib.rs:202-275 | storage and result of the call, which extends the run; a failing call changes nothing |
| `MessageLanes.InboundLane.ReceiveStateUpdate` | bridges/modules/messages/src/inbound_lane.rs:126-165 | drops the confirmed entries, trims the next one, and moves the confirmed nonce, or changes nothing |
| `MessageLanes.InboundLane.ReceiveMessage` | bridges/modules/messages/src/inbound_lane.rs:168-211 | takes exactly the next nonce within the limits and notes its relayer |
| `MessageLanes.OutboundLane.SendMessage` | bridges/modules/messages/src/outbound_lane.rs:86-98 | stores the message under the next nonce |
| `MessageLanes.OutboundLane.ConfirmDelivery` | bridges/modules/messages/src/outbound_lane.rs:100-139 | confirms the range above the last confirmed nonce, or fails with the first check that fails |
| `MessageLanes.OutboundLane.PruneMessages` | bridges/modules/messages/src/outbound_lane.rs:141-170 | the stored messages, the lane data and the weight spent; the data is saved only if the messages took weight, and no more is spent than given |
| `MessageLanes.PrunesOldestConfirmed` | bridges/modules/messages/src/outbound_lane.rs:153-161 | below the largest nonce exactly the oldest messages up to some confirmed nonce are removed, and the oldest nonce is the one behind them |
| `MessageLanes.PruningWeight` | bridges/modules/messages/src/outbound_lane.rs:153-161 | each removed message takes one write, and pruning stops only when nothing confirmed is left or two more writes do not fit |
| `MessageLanes.PrunedData` | bridges/modules/messages/src/outbound_lane.rs:163-168 | the new lane data is saved unless writes weigh nothing |
| `MessageLanes.ConfirmExactly` | bridges/modules/messages/src/outbound_lane.rs:100-139 | for all inputs: when a confirmation changes nothing, when it succeeds (nonces generated, no more than declared, queue well formed) and with which range, and which error the first checks give |
| `MessageLanes.FirstWrongEntry` | bridges/modules/messages/src/outbound_lane.rs:176-202 | the first wrong entry of a queue decides the error: empty, not consecutive or from the future |
| `MessageLanes.EnsureUnrewardedRelayersAreCorrect` | bridges/modules/messages/src/outbound_lane.rs:172-202 | accepts exactly queues of non-empty, consecutive entries that do not pass the latest nonce |
| `MessageLanes.CalcRelayersRewards` | bridges/primitives/messages/src/lib.rs:429-450 | each relayer earns the number of its nonces in the received range |
| `RelayerQueue.StateUpdateExactly` | bridges/modules/messages/src/inbound_lane.rs:126-165 | a state update confirms something exactly when the source knows more than is confirmed and no more than was delivered; the queue then covers exactly the rest |
| `RelayerQueue.ReceiveExactly` | bridges/modules/messages/src/inbound_lane.rs:168-194 | for each result of receiving a message the inputs that give it |
| `RelayerQueue.ConfirmedCovers` | bridges/modules/messages/src/inbound_lane.rs:141-161 | after a state update the queue covers exactly the nonces above the confirmed one |
| `RelayerQueue.ReceivedCovers` | bridges/modules/messages/src/inbound_lane.rs:168-211 | after a message the queue covers exactly one nonce more, within the limits |
| `RelayerQueue.ReceivedAttributed` | bridges/modules/messages/src/inbound_lane.rs:196-208 | and every entry names the relayer that delivered its nonces |
| `RelayerQueue.CoveringQueueAccepted` | bridges/modules/messages/src/outbound_lane.rs:181-198 | what the inbound lane guarantees is what the confirmation checks |
| `RelayerQueue.RewardsMatchLog` | bridges/primitives/messages/src/lib.rs:429-450 | the reward of a relayer from a queue is the number of messages it delivered in the range |
| `RelayerQueue.ConfirmedAgainExactly` | bridges/modules/messages/src/outbound_lane.rs:107-131 | confirming confirmed nonces again changes nothing exactly below the largest nonce; there an empty queue is rejected, and any other has its last message confirmed again, which pays its relayer once more |
| `LaneProtocol.ConfirmOutcome` | bridges/modules/messages/src/outbound_lane.rs:100-139 | the exact outcome, in all four cases, of a confirmation with a proof of an earlier target state |
| `LaneProtocol.GeneratedNonce` | bridges/modules/messages/src/outbound_lane.rs:86-98 | in every run, however long, the generated nonce is the number of sent messages modulo 2^64; they agree exactly up to 2^64 - 1 messages |
| `LaneProtocol.EveryRun` | bridges/modules/messages/src/lib.rs:269-507 | the invariant of both chains, kept by every sequence of sends (at most 2^64 - 1), prunings, deliveries and confirmations with proofs of arbitrary earlier states |
| `LaneProtocol.DispatchedOnceInOrder` | bridges/modules/messages/src/inbound_lane.rs:168-211 | in every run with at most 2^64 - 1 sends the dispatched messages are a prefix of the sent ones; confirmed <= received <= delivered <= generated; no unconfirmed message is pruned |
| `LaneProtocol.ProofsAcceptedExactly` | bridges/modules/messages/src/outbound_lane.rs:54-68 | in every such run a confirmation with a proof of an earlier target state is accepted if and only if not both chains have the largest nonce confirmed; a proven source state is never ahead of what was delivered |
| `LaneProtocol.PaidOnceExactly` | bridges/modules/messages/src/lib.rs:450-477 | in every such run each relayer was paid once for each confirmed message it delivered, and the relayer of the largest nonce once more for each time that nonce was confirmed again; so all were paid exactly once if and only if it never was |
| `LaneProtocol.NeverStuck` | bridges/primitives/messages/src/lib.rs:165-180 | after every such run, confirming the current target state and bringing the current source state with the next message dispatches it |
| `LargestNonce.PaidTwice` | bridges/modules/messages/src/outbound_lane.rs:107-114 | for any limits, message and relayer there is a run in which one more confirmation, with the same proof, pays the relayer for the last message again |
| `LargestNonce.TrueProofRejected` | bridges/modules/messages/src/outbound_lane.rs:118-131 | and a run after which a confirmation with a proof of the current target state is rejected |
| `LargestNonce.OneTooMany` | bridges/modules/messages/src/outbound_lane.rs:90-92 | the bound on sends is exact: one message more and the generated nonce is zero, below what was delivered |
| `MessageGate.DeliveryVerdict` | bridges/bin/runtime-common/src/messages_call_ext.rs:83-105 | the verdict on a delivery for every lane, range and value of both flags |
| `MessageGate.ConfirmationVerdict` | bridges/bin/runtime-common/src/messages_call_ext.rs:112-117 | the verdict on a confirmation for every lane, nonce and value of both flags |
| `MessageGate.RangesTile` | bridges/bin/runtime-common/src/messages_call_ext.rs:83-115 | over any run of accepted and successful calls each nonce above the initial one and up to the last one is in exactly one range, and no other nonce in any |
| `MessageGate.AcceptedDeliverySucceedsExactly` | bridges/bin/runtime-common/src/messages_call_ext.rs:150-174 | an accepted delivery is successful at the real lane exactly when the slots suffice that are free once the lane state it brings, if any, is applied; otherwise a part is delivered |
| `MessageGate.StateFreesSlots` | bridges/modules/messages/src/lib.rs:332-366 | the slots that the gate read do not decide: a delivery that finds the queue full, but brings a state that frees an entry, is successful |
| `MessageGate.EmptyDeliveryAcceptedExactly` | bridges/bin/runtime-common/src/messages_call_ext.rs:89-100 | a delivery without messages is let through exactly when no relayer could bring the next message without a lane state |
| `MessageGate.EmptyDeliverySucceedsExactly` | bridges/bin/runtime-common/src/messages_call_ext.rs:155-164 | it is successful exactly when the state it brings confirms something new |
| `MessageGate.RelayerSlotsFreeMessageSlots` | bridges/bin/runtime-common/src/messages_call_ext.rs:158-161 | a state update that frees a relayer slot frees message slots |
| `Congestion.LocalXcmQueueManager.OnBridgeMessageEnqueued` | bridges/bin/runtime-common/src/messages_xcm_extension.rs:206-244 | sends and notes "congested" exactly above 8192 messages when not yet noted, configured and sendable |
| `Congestion.LocalXcmQueueManager.OnBridgeMessagesDelivered` | bridges/bin/runtime-common/src/messages_xcm_extension.rs:246-284 | sends "uncongested" and clears the note exactly at or below 1024 messages when noted, configured and sendable |
| `Congestion.LocalXcmQueueManager.OnMessagesDelivered` | bridges/bin/runtime-common/src/messages_xcm_extension.rs:177-187 | the same for lanes of this chain; other lanes are ignored |
| `Congestion.SignalsAlternate` | bridges/bin/runtime-common/src/messages_xcm_extension.rs:205-313 | on each lane the sent signals alternate, starting with "congested", for all configurations, passed lengths and send failures |
| `Congestion.SignalSentExactly` | bridges/bin/runtime-common/src/messages_xcm_extension.rs:205-284 | in every run a call sends a signal exactly when the last signal of the lane, the passed length (above 8192, at or below 1024), the configuration and the transport ask for it |
| `Congestion.Hysteresis` | bridges/bin/runtime-common/src/messages_xcm_extension.rs:196-203 | between consecutive signals that saw the true length, at least 7169 messages are confirmed before "uncongested" and at least 7169 enqueued before "congested" |
| `Congestion.OtherLanesUntouched` | bridges/bin/runtime-common/src/messages_xcm_extension.rs:286-312 | a call for one lane leaves the flags and signals of the others alone |

## Left out

- LaneProtocol.EveryRun: states nothing about runs with more than 2^64 - 1 sends, in which nonces are used twice; `LargestNonce.OneTooMany` shows that the bound is exact.
- LaneProtocol.DispatchedOnceInOrder: the same bound on sends.
- LaneProtocol.ProofsAcceptedExactly: the same bound on sends.
- LaneProtocol.PaidOnceExactly: the same bound on sends.
- LaneProtocol.NeverStuck: the same bound on sends.
- MessageLanes.OutboundLane.PruneMessages: requires that pruning ends. If writes weigh nothing and the largest nonce is confirmed, the loop of the source never does.
- HonestRuns.OrderIrrelevant: the order of an authority's proposal list does depend on the order of statements; only candidates and votes are compared.
- GrandpaClient.Pallet.StoreHeader: the hash passed in is the hash of the header, as at both call sites.
- Signature schemes, hashing, encoding, trie and MMR proofs and GRANDPA justification verification are parameters.
- Events, weights and sizes, beyond pruning and whether a call fits the limits, and the owner account.
- A context of the statement table that changes between calls.
- Dispatch of message payloads; delivery calls that the pallet rejects as a whole (halted, inactive dispatcher, too many messages, too little weight) change nothing and are not events.
- The reward split with the confirming relayer.
- Benchmarking entry points that bypass the invariants.
- Erasure coding, XCM versions, node services, CLI, chain specifications and scripts.
