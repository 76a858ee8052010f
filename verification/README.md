# inx-tendercoo: a verified model

inx-tendercoo is a coordinator that a committee of validators runs on top of Tendermint: the validators propose
parents, prove that they are valid, agree on one milestone essence, sign it, and issue the milestone. This project
models its core in Dafny and proves what that core is for.

| files | what they model |
|---|---|
| `ByteStrings`, `Sets` | identifiers as 256-bit numbers, fixed-width integers, byte orders; sizes of finite sets |
| `Wire`, `Codec` | the Protocol Buffers wire format, and the three signed transactions |
| `Committees` | the committee and its thresholds |
| `AppData`, `AppStates` | the replicated state as a value, and as an object that the transactions update |
| `Sorting`, `Parents`, `Collecting` | the sorts, the choice of the milestone parents, the loops over maps |
| `Blocks`, `Chains` | what a block does to the committed state; chains of blocks, crash recovery |
| `Sending`, `Abci`, `Broadcasts` | one validator as a machine of ABCI calls and callbacks, and what it broadcasts |
| `Coordinators`, `Resume` | the coordinator as an object, and how it resumes from the Tangle |
| `Network` | all N validators, of which up to F do anything they like, and the others may crash and restart |
| `Submissions` | why a validator broadcasts what it does, and that this is what `Network` lets a member send |
| `Liveness`, `Progress` | that the honest members complete milestones without the others |
| `Thresholds` | for exactly which signature thresholds the validators agree, and make progress |
| `QueueMachine`, `KeyedQueue` | the keyed retry queue as a machine of atomic steps, and as an object |
| `Coverage`, `Tangle`, `Selections`, `Heaviest` | greedy maximum coverage, the index of past cones, what a selection does to it, and the tip selector |

The code changes its objects in place, so `AppState`, `CommitStore`, `Coordinator`, `KeyedQueue` and `Heaviest` are
classes. Each of their methods is proved against a function or a step relation on values (`Apply`, `Deliver`,
`Next`, `AddBlock`, `AfterSelection`), and what the program promises is proved about those for all inputs and all
runs. Where the code ranges over a map, the loop takes the elements in any order.

Assumptions, none of which is an axiom (all of them are parameters or `requires` clauses):

- Ed25519 verification, the hash of the state, milestone and block IDs, the serialized milestone essence and the
  white-flag Merkle roots are unknown functions (`World`); so are the maximum number of parents of a block and of
  signatures of a milestone. Only `Network` needs that signatures cannot be forged (`Authentic`); `AttributedIsMade`
  derives this for the transaction envelope from the verification function alone. `Liveness` and `Progress` need that
  the signatures of honest members verify (`SignsRight`).
- The threshold T and the keys are what the node says (components/decoo/component.go:153-161); only `NewCommittee`
  makes T = N - F. `Agreement` and `CompletedAgree` need that two quorums share an honest member (`Overlapping`: 2T
  exceeds the number of keys of the index plus that of the faulty ones), `Liveness` and `Progress` that the honest
  members are more than F and at least T (`IsEnough`); nothing else in `Network` depends on T or on the number of keys.
  With N keys and at most F faulty members that means 2T > N + F, and 0 < T <= N - F (`EnoughHonest`), which T = N - F
  satisfies (`StandardIsBoth`). Both conditions are exact: `AgreementThreshold`, `CompletionThreshold`,
  `EnoughIsNeeded`.
- The node's answers are the same whenever a block is executed, also when it is executed again: above all the protocol
  version, which the code asks for in each EndBlock (pkg/decoo/app.go:365). After a protocol upgrade a restarted member
  could make another essence for the same index; `CrashRecovery`, `NonInterference` and `SignsOncePerIndex` do not
  cover that.
- Block heights grow by at least 2 per milestone only if T >= 1, which is required there.
- Milestone indices are 32 bits wide and wrap around, as in the code. For arbitrary blocks a chain makes one essence
  per index exactly until then (`OneEssencePerIndex`). With at most F faulty members that never happens: for the
  index 0 no honest member ever sends a proof (`ProofIffValid`), so that the committee stops there (`NeverWraps`).
  A committee bootstrapped at the index 0 would not issue anything.

Where the code and its documentation differ, the model follows the code: README.md:83 of the repository says that a
selection resets the tracked blocks, but `SelectTips` only leaves its changes in the shared bitsets
(pkg/selector/heaviest.go:171, 250-254). So bitsets need not be past cones after a selection, even after one that
returns a single tip (`OneTipDestroys`); when they are sure to be is told before the selection by the sizes and the
overlap of the tips' bitsets (`SelectionKeepsCones`), and a weaker invariant survives every run (`RunsAreConsistent`).
pkg/decoo/queue/queue.go:154-159 handles a retried key that was queued again; `RetriedKeyIsAbsent` shows that this
cannot happen. `UnmarshalTx` panics on a public key that is not 32 bytes long (pkg/decoo/committee.go:104 into
pkg/decoo/types/byte32.go:15-18); the model has that outcome and `PanicCondition` says exactly when.

## Model

| member | source | states |
|---|---|---|
| ByteStrings.BigEndianRoundTrip | pkg/decoo/types/byte32.go:9-22 | a number that stands for an identifier is determined by its 32 bytes |
| ByteStrings.FromBigEndianRoundTrip | pkg/decoo/types/byte32.go:9-22 | and any bytes are determined by the number that stands for them |
| ByteStrings.CompareIsNumeric | pkg/decoo/app.go:338-340 | comparing the bytes of two identifiers lexicographically is comparing their numbers |
| ByteStrings.BigEndianAt | pkg/decoo/types/byte32.go:9-22 | the bytes of an identifier are the digits of its number, the most significant one first |
| ByteStrings.LittleEndianAt | pkg/decoo/state.go:34-48 | a height is encoded with the least significant byte first |
| Wire.VarintRoundTrip | pkg/decoo/proto/tendermint/tx.proto:16-36 | Base 128 varints decode to what was encoded, whatever follows |
| Wire.FieldsRoundTrip | pkg/decoo/proto/tendermint/tx.proto:7-45 | every list of well-formed fields, nested groups of unknown fields included, is decoded exactly as it was encoded |
| Wire.VarintIsBase128 | pkg/decoo/proto/tendermint/tx.proto:16-36 | a varint is the 7-bit groups of its number, as few as possible, marked by the highest bit |
| Wire.DecodedIsWellFormed | pkg/decoo/proto/tendermint/tx.proto:7-45 | only well-formed fields are ever decoded: field numbers, 64-bit integers, sizes and groups are all checked |
| Wire.GroupEnds | pkg/decoo/proto/tendermint/tx.proto:7-45 | a group of an unknown field, which is skipped, ends with the end tag of its own number |
| Codec.EssenceRoundTrip | pkg/decoo/txs.go:185-216 | the oneof of the essence gives back its message |
| Codec.TxRoundTrip | pkg/decoo/txs.go:135-219 | `UnmarshalTx` of what a member marshaled returns that member's key and the transaction |
| Codec.DecodedIff | pkg/decoo/txs.go:135-219 | a transaction of a member is decoded if and only if the last key is its 32 bytes, it is applicable, its signature of the last essence verifies, and that is the message of the transaction, with a block ID of 32 bytes |
| Codec.EssenceLayout | pkg/decoo/proto/tendermint/tx.proto:16-45 | the exact bytes of the three messages |
| Codec.EnvelopeLayout | pkg/decoo/proto/tendermint/tx.proto:7-14 | the exact bytes of the signed envelope |
| Codec.ConcatMerges | pkg/decoo/txs.go:185-216 | two encoded messages one after the other are read as the second one merged into the first |
| Codec.LastFieldsCount | pkg/decoo/txs.go:176-219 | whatever fields precede a member's transaction, it is decoded |
| Codec.SizeBound | pkg/decoo/txs.go:16-17 | an encoding fits into MaxTxBytes = 170 exactly if its partial signature has at most 64 bytes, and the bound is reached exactly by a partial signature of 64 bytes |
| Codec.AttributedIsMade | pkg/decoo/txs.go:176-219 | if all that verifies under a member's key are encodings of its transactions and milestone essences, then no other transaction is ever attributed to it |
| Codec.PanicCondition | pkg/decoo/committee.go:102-105 | the decoder panics if and only if the envelope is well-formed and its key is not 32 bytes long |
| Codec.EmptyTransactionPanics | pkg/decoo/committee.go:102-105 | the empty transaction is such an envelope, and so is one with nothing but an empty group in an unknown field |
| Committees.NewCommittee | pkg/decoo/committee.go:45-65 | it panics exactly on duplicate keys, on no keys, or on a foreign private key; otherwise F is the largest number below a third of N, the threshold is N - F, and the members are the given keys |
| Committees.LargestFaulty | pkg/decoo/committee.go:114-120 | F is the largest number of faulty members for which any two sets of all the others share more than the faulty ones |
| Committees.QuorumsShareMoreThanFaulty | pkg/decoo/committee.go:39-47 | any two sets of T members share more than the faulty members, if 2T exceeds the number of keys plus that of the faulty ones |
| Committees.EnoughHonest | pkg/decoo/committee.go:39-41 | whoever sets the threshold: if it is at most N - F, the honest members of N reach it, and the one for the proofs, without the others |
| Committees.StandardIsBoth | pkg/decoo/committee.go:45-65 | N - F, as NewCommittee sets it, is large enough for the former and small enough for the latter |
| Committees.QuorumThreshold | pkg/decoo/committee.go:39-41 | for any threshold t that is so if and only if 2t > N + F |
| AppData.MetadataRoundTrip | pkg/decoo/state.go:34-76 | the state that a milestone was made from is rebuilt exactly from its metadata, index and previous ID |
| AppData.MetadataIff | pkg/decoo/state.go:52-76 | a state is read from a milestone if and only if the milestone has its index, its previous ID, and exactly its metadata; any other length than 40 bytes is refused |
| AppData.MetadataLayout | pkg/decoo/state.go:34-48 | each byte of the metadata: the height in little-endian two's complement, then the last milestone block |
| AppData.ApplyKeeps | pkg/decoo/txs.go:41-132 | every transaction of a member keeps the counts exact (the count of a block is the number of those who proposed it), keeps proofs to proposed blocks, and keeps one valid signature per signer; it leaves the carried-over state alone |
| AppData.DeliverKeeps | pkg/decoo/app.go:96-116 | so does any raw transaction, valid or not |
| AppData.AppliedIffUseful | pkg/decoo/txs.go:41-132 | a transaction is applied if and only if it is for the current state, not a repetition, and not a forged signature; each error has exactly one of these reasons |
| AppData.AppliedRecords | pkg/decoo/txs.go:41-132 | and then exactly one proposal, proof or signature is added, and nothing is overwritten |
| AppData.DeliverCodes | pkg/decoo/app.go:56-116 | a raw transaction is accepted if and only if it changes the state; each other code is given exactly for its reason: more than 170 bytes, no transaction of a member, a panic, refused by the state |
| AppData.DeliverOnce | pkg/decoo/app.go:56-116 | so no transaction is accepted a second time |
| AppData.BlocksHaveIssuers | pkg/decoo/app.go:128-137 | the proposers of several blocks are at least as many as the blocks, as no one proposes two |
| AppStates.AppState.ApplyParent | pkg/decoo/txs.go:41-61 | the fields become what `Apply` says; the three errors leave them as they were |
| AppStates.AppState.ApplyProof | pkg/decoo/txs.go:70-98 | likewise for a proof, which needs a proposed parent |
| AppStates.AppState.ApplyPartialSignature | pkg/decoo/txs.go:106-132 | likewise for a signature, which needs an essence over which it verifies |
| AppStates.AppState.Copy | pkg/decoo/appstate.go:56-65 | the copy has the value of the original and only new sets of proof issuers, so that it shares nothing that is updated in place |
| AppStates.NewIssuers | pkg/decoo/appstate.go:42-43 | the sets that are read back are new and separate, and have the given contents |
| Blocks.RunHeight | pkg/decoo/commit.go:30-39 | in a chain of consecutive heights every block passes the height check of the state that the blocks before it lead to |
| AppStates.CommitStore.Commit | pkg/decoo/commit.go:42-50 | the stored height and hash become those of the given state |
| Sorting.BeforeIsStrictTotalOrder | pkg/decoo/app.go:332-343 | the comparator of the parents is irreflexive, total and transitive, so that sorting with it has one result |
| Sorting.SortIsRanked | pkg/decoo/app.go:332-343 | distinct parents are sorted by that order |
| Sorting.PrefixIsFirst | pkg/decoo/app.go:344 | cutting off the sorted list keeps exactly the blocks with fewer than k blocks before them, whatever the input order was |
| Sorting.SortIsDetermined | pkg/decoo/app.go:347-348 | sorting and removing duplicates depends on the set of parents only |
| Sorting.KeyedUnique | pkg/decoo/app.go:200-206 | a list of signatures in the order of their keys is determined by its elements |
| Collecting.CollectParents | pkg/decoo/app.go:128-141 | in any map order, the loop finds exactly the confirmed parents, and its weight is the number of members who proposed one of them |
| Collecting.FinalParents | pkg/decoo/app.go:328-348 | in any order of its input, truncating, adding the last milestone block and sorting gives the one list of `MilestoneParents` |
| Collecting.CollectSignatures | pkg/decoo/app.go:200-206 | in any map order, the signatures of a milestone are the recorded ones sorted by key |
| Parents.KeptAreMostProposed | pkg/decoo/app.go:330-345 | whatever is dropped was proposed by no more members than anything that is kept, and has the larger identifier if by as many |
| Parents.KeptHaveMostIssuers | pkg/decoo/app.go:330-345 | no choice of as many blocks has more proposers than what is kept |
| Parents.DroppedAreLeastProposed | pkg/decoo/app.go:328-348 | a confirmed block is no parent only if there is no room, and it is ranked behind all the parents |
| Parents.LimitsAreNeeded | pkg/decoo/coordinator.go:104-107 | with less room than New requires, all remaining parents can be proposals of faulty members |
| Parents.ParentsShape | pkg/decoo/app.go:328-348 | the parents are sorted, without duplicates, at most as many as a block can have, contain the last milestone block, and are confirmed otherwise; all confirmed blocks are among them if there is room |
| Parents.ParentsKeepIssuers | pkg/decoo/app.go:328-345 | more than F members proposed one of the parents, even after truncation |
| Parents.HonestParentSurvives | pkg/decoo/coordinator.go:104-107 | so one of the parents was proposed by a member that is not faulty |
| Parents.HonestProof | pkg/decoo/app.go:132-133 | every parent but the last milestone block was proved by a member that is not faulty |
| Blocks.SameParents | pkg/decoo/app.go:123-149 | whether there is an essence, and which one, depends on the proposals and proofs only |
| Blocks.DeliverFrozen | pkg/decoo/txs.go:46-49 | once there is an essence, no transaction changes proposals or proofs |
| Blocks.DeliveredToTheEnd | pkg/decoo/app.go:96-116 | the transactions of a block are executed to the end, in any state, if and only if none is a well-formed envelope of at most MaxTxBytes whose key is not 32 bytes long |
| Blocks.RunValid | pkg/decoo/app.go:77-241 | along every chain of blocks, the recorded counts, signatures and essence stay valid; the essence is the one that the recorded proposals and proofs determine |
| Blocks.RunConcat | pkg/decoo/app.go:77-241 | executing blocks in two stretches is executing them in one |
| Blocks.MilestoneChain | pkg/decoo/app.go:200-228 | the milestones of every chain of blocks have consecutive indices, each names the ID of its predecessor and has its block among the parents, its Merkle roots are those of its own index, time, parents and predecessor, and each carries enough signatures |
| Blocks.CompletedVerifies | pkg/decoo/app.go:381 | whatever Commit completes has between T and N signatures, of different members of its index, sorted, all valid: the check before the submission succeeds |
| Blocks.MilestoneFits | pkg/decoo/coordinator.go:104-112 | it has all the recorded signatures; signatures and parents fit within the limits that New checks |
| Blocks.TooManySignatures | pkg/decoo/coordinator.go:108-111 | and the limit for the signatures is needed |
| Blocks.HonestSuffice | pkg/decoo/app.go:123-149 | no step waits for the faulty members: once enough honest ones have proposed and proved each other's parents there is an essence, and once they have signed it the milestone is complete |
| Chains.LastReset | pkg/decoo/app.go:220-228 | the current state was reached from a fresh one at some earlier block |
| Chains.CrashRecovery | pkg/decoo/coordinator.go:156-166 | resuming from any milestone made along a chain and replaying the blocks after the height in its metadata ends in the state, height and hash of the uninterrupted run |
| Chains.MilestoneState | pkg/decoo/state.go:52-76 | the state rebuilt from a milestone is the carried-over state of its block's predecessor |
| Chains.CompletedLater | pkg/decoo/app.go:124-149 | a milestone is completed at least two blocks after the height it started from, if T >= 1 |
| Chains.MilestoneHeightsGrow | pkg/decoo/app.go:220-228 | so the heights recorded for consecutive milestones grow by at least 2 |
| Chains.IndexOfEpoch | pkg/decoo/app.go:223 | the index is the initial one plus the number of completed milestones, modulo 2^32 |
| Chains.SameEpochSameMilestone | pkg/decoo/app.go:124 | between two completed milestones the essence does not change |
| Chains.OneEssencePerIndex | pkg/decoo/app.go:223 | two essences of a chain have the same index if and only if a multiple of 2^32 milestones lies between them; they are equal if that is less than 2^32 |
| Abci.NonInterference | pkg/decoo/app.go:53-74 | whatever is checked by CheckTx and whichever callbacks fire in between, the committed state, height and hash are the function `Run` of the blocks |
| Abci.ReplicasAgree | pkg/decoo/app.go:93-116 | two validators with different keys, checks, callbacks and map orders commit the same states and hashes |
| Abci.Restart | pkg/decoo/coordinator.go:156-166 | a validator that resumes from any milestone and replays the rest ends like one that was never interrupted, check state included |
| Sending.ProofIffValid | pkg/decoo/app.go:300-317 | a proof of a block is made if and only if it is solid, not referenced, not below max depth, and the index is not 0 |
| Broadcasts.ProofIsBroadcast | pkg/decoo/app.go:300-326 | and then exactly that proof is broadcast, under the key of the peer who proposed the block |
| Broadcasts.PartialIffMissing | pkg/decoo/app.go:189-198 | the partial signature is broadcast if and only if the milestone is not complete and the signature would be accepted |
| Broadcasts.AwaitedIffMissing | pkg/decoo/app.go:153-170 | a block is awaited if and only if a proof of it would be accepted |
| Broadcasts.RightfulIffMissing | pkg/decoo/app.go:153-170 | a callback may be registered if and only if its proof would be accepted and its peer proposed the block |
| Broadcasts.EachBlockOnce | pkg/decoo/app.go:289-296 | unless the listener forgets a callback, a block gets only one per milestone, whoever else proposes it |
| Broadcasts.OwnPassesCheck | pkg/decoo/app.go:56-74 | of what a validator makes itself, CheckTx accepts exactly what the state has a use for |
| Broadcasts.CheckedOnce | pkg/decoo/app.go:56-74 | what CheckTx has accepted it does not accept again, as long as the check state is not replaced; the state of the blockchain is not touched |
| Broadcasts.NodeStep | pkg/decoo/app.go:289-326 | every call keeps the invariant of callbacks, registrations and submissions |
| Broadcasts.NoStaleCallbacks | pkg/decoo/app.go:291-292 | in every run all registered callbacks belong to the current index and to what their peer proposed for it, and there are none once there is a milestone |
| Broadcasts.ProofsAgree | pkg/decoo/app.go:322-325 | two proofs submitted under one peer key for one index are the same transaction, before the index wraps around |
| Broadcasts.KeysAreMembers | pkg/decoo/app.go:283-285 | for a fixed committee the keys of the broadcast queue are those of the members and the one of the partial signature |
| Broadcasts.QueueStaysSmall | pkg/decoo/app.go:322-325 | in any interleaving, that queue holds at most N + 1 values, and its length is at most N + 2 |
| Broadcasts.PartialPassesCheck | pkg/decoo/app.go:194-197 | the partial signature that Commit broadcasts passes CheckTx in the state that Commit leaves behind, and does not in one without the milestone |
| Broadcasts.ProofPassesCheck | pkg/decoo/app.go:300-326 | a proof passes CheckTx if and only if its index is current, there is no milestone, its parent is proposed and the proof is new |
| Coordinators.Coordinator.New | pkg/decoo/coordinator.go:103-131 | it succeeds exactly if an honest parent and a signature of each member fit; the coordinator is then the empty state of the machine, made of new objects |
| Coordinators.Coordinator.ValidateLatest | pkg/decoo/coordinator.go:251-271 | the parameters are accepted exactly if they continue after the latest milestone, or there is none |
| Coordinators.Coordinator.Bootstrap | pkg/decoo/coordinator.go:134-153 | it succeeds exactly if it is forced or continues the latest milestone; both states and the commit info then become those of a genesis state at height 0, and nothing else changes |
| Coordinators.ContinuesLatest | pkg/decoo/coordinator.go:251-271 | that is so exactly if they are the state that follows the latest milestone |
| Coordinators.BootstrapLinks | pkg/decoo/coordinator.go:134-153 | so the first milestone after bootstrapping without force has the next index, names the latest one and has its block as a parent |
| Coordinators.Coordinator.InitState | pkg/decoo/coordinator.go:156-166 | both states and the commit info become those of the milestone, and nothing else changes; nothing at all if its metadata is malformed |
| Coordinators.Launch | components/decoo/coordinator.go:18-36 | a coordinator that is created and bootstrapped is in the start state of the machine and satisfies its invariant, so that what is proved of all runs holds of the object |
| Coordinators.Coordinator.CheckTx | pkg/decoo/app.go:56-74 | only the check state and the sets that belong to it change, as `Deliver` says, with its code |
| Coordinators.Coordinator.BeginBlock | pkg/decoo/app.go:77-90 | the header is stored exactly if its height is the next one |
| Coordinators.Coordinator.DeliverTx | pkg/decoo/app.go:96-116 | only the deliver state changes, as `Deliver` says, with its code |
| Coordinators.Coordinator.CreateMilestoneEssence | pkg/decoo/app.go:328-371 | the milestone gets the essence that `NewEssence` determines from the state before |
| Coordinators.Coordinator.AwaitParents | pkg/decoo/app.go:153-170 | every awaited block has a callback afterwards; those that were there stay, and new ones stand for a peer who proposed the block |
| Coordinators.Coordinator.EndBlock | pkg/decoo/app.go:121-174 | a step of the machine: the essence if enough parents are confirmed, callbacks otherwise |
| Coordinators.Coordinator.Commit | pkg/decoo/app.go:179-241 | a step of the machine: the own signature is broadcast, a complete milestone is issued and verifies, the state is reset, copied and committed |
| Coordinators.Coordinator.ProcessParentOnSolid | pkg/decoo/app.go:300-326 | a step of the machine: a proof is broadcast for a valid parent and for nothing else |
| Resume.FindMilestone | components/decoo/coordinator.go:86-102 | the walk back returns the first milestone that is not too new, or the first failure: all the ones before it were well-formed and too new |
| Resume.WalkEnds | components/decoo/coordinator.go:86-102 | the walk ends if and only if the confirmed milestone is old enough, or some index is missing, malformed or old enough |
| Resume.WalkOnChain | components/decoo/coordinator.go:82-85 | on the milestones of a chain bootstrapped at height 0 the walk finds the newest one whose height the blockchain has reached, and never fails |
| Resume.ChainHasEnd | components/decoo/coordinator.go:86-102 | on such milestones the walk ends |
| Resume.ResumeRecovers | components/decoo/coordinator.go:38-47 | the coordinator then is in the state that the chain had at that height, which is at most the blockchain's, and replaying the rest leads to where the chain is |
| Resume.ResumeCoordinator | components/decoo/coordinator.go:43-104 | all outcomes of resuming; the height that Info reports is never above Tendermint's, and a new coordinator then satisfies the invariant of the machine |
| Network.RestartStep | components/decoo/coordinator.go:38-104 | a member may restart from the metadata of any milestone, whoever made it, that agrees with its own blockchain up to the height in it; it is then in the state that its chain had at that height, and the invariant of the system holds |
| Network.RestartEnabled | components/decoo/coordinator.go:79-102 | it can do so from every milestone made anywhere on a chain of blocks, also by blocks that it has not executed, if its own chain is the same up to that height |
| Network.ConfirmedRestart | components/decoo/coordinator.go:79-102 | every essence that more members than the faulty ones have signed was made by the chain of an honest signer, so that a member can restart from it if its own chain is the same up to the height in it |
| Network.ReplayStep | pkg/decoo/app.go:189-198 | whatever it signs while it executes its blocks again is what it signed, or was to sign, the first time |
| Network.NetStep | pkg/decoo/app.go:93-116 | every step of every member, restarts included, keeps: what the states record of honest members was made by them, they signed only what their chain made, and their state is that of their chain |
| Network.NoEssenceAtZero | pkg/decoo/app.go:302-305 | in every run no essence has the index 0 |
| Network.NeverWraps | pkg/decoo/app.go:223 | in every run the milestone index never wraps around |
| Network.SignsOncePerIndex | pkg/decoo/app.go:189-198 | an honest member signs at most one essence per index, however often it crashes and executes its blocks again |
| Network.Agreement | pkg/decoo/committee.go:39-41 | whatever blocks the members execute, and whenever they crash and restart, two different essences of one index cannot both be signed by T members, for every threshold with which quorums overlap |
| Network.CompletedAgree | pkg/decoo/app.go:200-217 | for such a threshold, milestones of one index that any two members complete have the same essence |
| Network.HonestValidation | pkg/decoo/app.go:132-133 | every parent of every essence but the last milestone block was found solid, not referenced and not below max depth by an honest member, in a callback that it had registered for that index |
| Network.HonestProposal | pkg/decoo/coordinator.go:104-107 | every essence has a parent that an honest member proposed for that index |
| Submissions.SubmissionsAreExplained | pkg/decoo/app.go:153-198 | in every run of a validator along a chain, each broadcast is the partial signature that the end of some block called for, or the proof of a block that was awaited at the end of some block and found to be a valid parent |
| Submissions.PartialIsSigned | pkg/decoo/app.go:189-198 | every partial signature that an honest validator broadcasts, after restarts too, is one of an essence that the system says it has signed; so `Agreement` holds of the program |
| Submissions.ProofIsSent | pkg/decoo/app.go:300-326 | and every proof that it broadcasts is one that a step of the system sends; so `HonestValidation` does |
| Liveness.HonestBlocksComplete | pkg/decoo/app.go:121-241 | if the honest members are more than F and at least T: from every valid state without a milestone, three blocks of encoded transactions of the honest members, and of no one else, complete the milestone of the current index: proposals, proofs and signatures |
| Liveness.HonestTransactionsSuffice | pkg/decoo/app.go:121-241 | along every chain of blocks that contains the proposals of the honest members, later their proofs and later their signatures, a milestone of the current index is completed, whatever else anybody has put into the blocks |
| Progress.MilestoneHappens | pkg/decoo/app.go:121-326 | for any proposals of the honest members, if these are more than F and at least T, there is a run of the system in which all of them complete the first milestone, if its index is not 0 |
| Thresholds.AgreementThreshold | pkg/decoo/committee.go:39-41 | for a committee of the manager with N keys: there is no run at all in which two different essences of the first index are both signed by quorums, if and only if 2T exceeds N plus the number of faulty members; otherwise two halves of the honest members can execute blocks of different times |
| Thresholds.CompletionThreshold | pkg/decoo/app.go:200-217 | the same for the milestones that honest members complete: two different ones of the first index, if and only if quorums do not overlap |
| Thresholds.EnoughIsNeeded | pkg/decoo/app.go:128-149 | conversely, if only the members of a set contribute to a chain that completes a milestone, they are more than F and at least T |
| QueueMachine.TimerStep | pkg/decoo/queue/queue.go:94-187 | every atomic step keeps the timer, the length and the running call consistent |
| QueueMachine.TimerTheorem | pkg/decoo/queue/queue.go:94-187 | in every reachable state len is the size of the list plus the running call, nothing pops an empty list, and before Stop a non-empty queue has exactly one tick to come or a running call, and an empty one has no tick |
| QueueMachine.RetriedKeyIsAbsent | pkg/decoo/queue/queue.go:154-159 | when a call failed without being canceled, its key is not queued |
| QueueMachine.CanceledIffReplaced | pkg/decoo/queue/queue.go:103-106 | before Stop, a running call is canceled if and only if its key is queued again |
| QueueMachine.NothingLost | pkg/decoo/queue/queue.go:11-14 | before Stop, the last value submitted for each key is queued, running and not canceled, or an execution of it has succeeded |
| QueueMachine.OnlySubmitted | pkg/decoo/queue/queue.go:108-115 | whatever is queued or running is a value as it was submitted, with its key |
| QueueMachine.NoCallsAfterShutdown | pkg/decoo/queue/queue.go:133-138 | after the shutdown no call starts any more, but for one if the main loop has just checked |
| QueueMachine.StopSettles | pkg/decoo/queue/queue.go:68-75 | unless the main loop has just checked, Stop leaves no call running that is not canceled, nothing is retried from then on, and only submissions change the queue |
| QueueMachine.StopEnds | pkg/decoo/queue/queue.go:78-80 | and the main loop can always end, after at most one other step |
| QueueMachine.NeverOvertaken | pkg/decoo/queue/queue.go:12 | no step moves a queued value back, unless it is replaced; every pop moves it on |
| QueueMachine.Fifo | pkg/decoo/queue/queue.go:12 | a value with i values before it is executed by the (i+1)-st pop at the latest, unless it is replaced |
| QueueMachine.SizeBound | pkg/decoo/queue/queue.go:83-90 | there is at most one queued value per key; the length can count one more |
| KeyedQueue.KeyedQueue.Submit | pkg/decoo/queue/queue.go:94-116 | the fields make the step `Submit` of the machine, with byKey indexing exactly the list |
| KeyedQueue.KeyedQueue.PopFront | pkg/decoo/queue/queue.go:173-187 | likewise for `PopFront`; the list is never empty |
| KeyedQueue.KeyedQueue.Finish | pkg/decoo/queue/queue.go:146-169 | likewise for the end of an execution, with its three outcomes |
| KeyedQueue.KeyedQueue.CheckShutdown | pkg/decoo/queue/queue.go:133-138 | likewise for the check of the shutdown |
| KeyedQueue.KeyedQueue.CancelRunning | pkg/decoo/queue/queue.go:70-75 | likewise for the cancellation by Stop |
| Coverage.GainsTelescope | pkg/selector/heaviest.go:203-228 | the gains of the picks add up to the number of blocks they reference together |
| Coverage.GainsDecrease | pkg/selector/heaviest.go:203-228 | no pick gains more than an earlier one |
| Coverage.GreedyStep | pkg/selector/heaviest.go:262-298 | each pick closes at least one k-th of the gap to what any k tips reference together, whatever the tie-breaks |
| Coverage.GreedyBound | pkg/selector/heaviest.go:184-232 | after k picks the gap to any k tips is at most ((k-1)/k)^k of what those reference |
| Tangle.ConeIsReachability | pkg/selector/heaviest.go:134-141 | the past cone of a block is what can be reached along parents that were tracked when each block arrived |
| Tangle.ConsistentAdd | pkg/selector/heaviest.go:115-152 | adding a block keeps the tips those without a tracked child, keeps bitsets within past cones, and keeps them equal if they were |
| Tangle.AddBlockMeans | pkg/selector/heaviest.go:115-152 | in terms of IDs: a new block becomes a tip instead of its parents, and references itself and exactly what its tracked parents do |
| Tangle.ConsistentSelect | pkg/selector/heaviest.go:58-65 | a selection keeps the former two |
| Selections.SelectionKeepsCones | pkg/selector/heaviest.go:184-232 | from past cones, every outcome of a selection leaves past cones if and only if each tip that may be referenced shares nothing with another tip; a tip may be referenced if so few tips are heavier that it can be picked before the last turn, and it is either required or large enough compared to the heaviest one |
| Selections.UnlimitedSelection | pkg/selector/heaviest.go:184-232 | without limits every tip may be referenced, so that the tips must be pairwise disjoint |
| Selections.PicksAreWorthIt | pkg/selector/heaviest.go:204-225 | a pick that is not required gains at least the given fraction of what the first one does; and if there was room and time, every tip that is left would gain less |
| Selections.OneTipDestroys | pkg/selector/heaviest.go:204-225 | after three blocks, a selection that returns one of the two tips can leave a bitset that is not a past cone |
| Tangle.TipOwnsItsBit | pkg/selector/heaviest.go:137-149 | the bit of a tip is in its own bitset and in no other, so that it never counts 0 |
| Tangle.RunsAreConsistent | pkg/selector/heaviest.go:101-232 | all this holds after any sequence of resets, new blocks and selections |
| Tangle.RunsTrackPastCones | pkg/selector/heaviest.go:112-152 | without selections every bitset is exactly the set of reachable tracked blocks |
| Tangle.ReferenceStep | pkg/selector/heaviest.go:58-65 | subtracting bitsets one after another leaves each tip its starting set minus the starting sets of all referenced tips |
| Heaviest.TrackedBlocksList.ReferenceTip | pkg/selector/heaviest.go:58-65 | the tip leaves the list, and its bitset is subtracted from all others, in any map order |
| Heaviest.SelectTip | pkg/selector/heaviest.go:262-298 | any of the heaviest tips with its count, and none exactly if there is none |
| Heaviest.Heaviest.Reset | pkg/selector/heaviest.go:101-110 | nothing is tracked |
| Heaviest.Heaviest.OnNewSolidBlock | pkg/selector/heaviest.go:115-152 | the tracked blocks, their bitsets and the tips become what `AddBlock` says; duplicates are ignored |
| Heaviest.Heaviest.TipsToList | pkg/selector/heaviest.go:244-258 | the working list holds exactly the current tips, which are shared and not copied |
| Heaviest.Heaviest.PickGreedy | pkg/selector/heaviest.go:184-232 | the picks are greedy and none of them was too light; which of the four reasons ended the loop |
| Heaviest.Heaviest.SelectTips | pkg/selector/heaviest.go:161-232 | the picks are distinct starting tips, each the heaviest left; success is having minRequiredTips or maxTips of them; no tip that is left would be worth it unless the number or the time ran out; the bitsets are left as `AfterSelection` says, where the last pick is unreferenced exactly if the number or the time ran out, and as they were if at most one tip is allowed |

## Left out

- Tendermint's consensus, mempool and gossip: a chain of blocks is given; `Network.Agreement` does not even need that the chains of two members agree.
- The node bridge, contexts, timeouts, logging and configuration: what the node answers is a parameter; a timeout is a predicate on the number of picks so far.
- Errors of ComputeWhiteFlag, of serialization and of the Tendermint client, all of which make the code panic and stop.
- Ed25519, BLAKE2b, JSON, and the serialization of milestones and blocks: unknown functions. JSON is not needed for `Copy`, which is specified by its effect.
- Signatures of other sizes than 64 bytes: the code copies a verified signature into 64 bytes, the model stores it as it is; Ed25519 verifies no other size.
- Chains.MilestoneHeightsGrow: heights are assumed not to overflow 64 bits.
- Network.RestartEnabled: heights are assumed not to overflow 64 bits.
- Coordinators.Coordinator.DeliverTx: a transaction that panics leaves the state as it was, and the machine goes on; in the code the panic ends the execution of the block, so that one faulty proposer can stop all validators. `Blocks.DeliveredToTheEnd` says which blocks are free of this; for the others the model claims more than the code does.
- Thresholds.AgreementThreshold: the two halves execute different blocks of one height, which Tendermint itself prevents if at most F members are faulty; the condition is exact for a committee that does not rely on this, as `Agreement` does not. The same holds of `CompletionThreshold`, which moreover requires T > 0.
- Progress.MilestoneHappens: says that progress is possible, not that the network brings it about; that is up to Tendermint.
- Broadcasts.ProofsAgree: for a validator that has completed fewer than 2^32 milestones, since it is stated for arbitrary blocks.
- Heaviest.Heaviest.SelectTips: the code computes the fraction of the gains in floating point, the model in real numbers; and new blocks between its lock and its end are not modelled.
- Heaviest.Heaviest.OnNewSolidBlock: the tip list is a set, since nothing observes the order of the list.
- KeyedQueue.KeyedQueue.Submit: wall-clock time is left out; a timer that is armed fires at any later step.
- Coordinators.Coordinator.Commit: the goroutine that submits a milestone is left out, apart from the fact that its signature check succeeds; so is the pruning height, and that pruning keeps what recovery needs is not claimed.
- Coordinators.Coordinator.AwaitParents: how the listener finds out that a block is solid, and when it forgets a callback, are steps of the machine `Abci` and not of the class.
- ProposeParent and the milestone loop (components/decoo/loop.go), hexadecimal identifiers, the Single queue: they would only add easy members.
