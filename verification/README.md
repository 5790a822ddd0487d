# Savitri network: a verified model

This project models the parts of the Savitri network where nodes have to agree, count or conserve
something, and proves what holds over every input and every run:

- the lattice: cells and their signed bytes, the publisher, the aggregator that certifies cells, the runtime that
  attests them, the lineage rule that commits a pivot's causal history, the poller that commits cycle after cycle,
  and the pivot schedule;
- quorum thresholds, leader elections inside a group, and the receiver of block certificates;
- the group directory with its reverse index, and the availability monitor;
- slashing, reward halving, the treasury and the split of fees;
- proposals (canonical parents, signed bytes), the proposer election and weighted selection;
- Byzantine-robust scoring of gradients;
- the run-length codec that stands in for Snappy.

Objects that the source updates in place are classes; each of their methods is proved against a
function of the old state, and the statements about runs are lemmas about these functions. Loops of the
source are loops here. Hashes, signatures, clocks, random draws and scores of other components are
parameters, so every result holds for all of them.

Some promised properties are false as they stand. Each of these is replaced by an exact condition:

- *Decompression undoes compression.* The marker 0xFF is never escaped. `RunLength.RoundTrip` gives the
  inputs that survive, for both the encoded and the unencoded branch; `RunLength.MarkLost` is an input
  that does not.
- *The lattice threshold mirrors the canonical one.* The comment on `lattice_quorum` says so; the code
  computes 2f + 1 with f = (n - 1) / 3, which is less than ceil(2n/3) unless n = 3f + 1:
  `Quorum.ThresholdsAgreeIff`.
- *The threshold fits the group.* It is computed from a configured size that is 5 on every node
  (savitri-lightnode/src/p2p/network/mod.rs:535-540), and nothing sets it later: three attestations certify in a
  group of any number of members. The results below are stated for every configured size and every number of
  members; those on size and members equal say what the threshold was meant to give, and
  `LatticeThreshold.SafeByDefault`, `LatticeRuntime.SilentByDefault`, `LaterCommits.SkipByDefault` what 5 gives.
- *A certificate of an author and round is unique.* The aggregator checks an attestation by its key and counts
  it by a name that nothing ties to the key: `LatticeThreshold.OneKeyCertifies`, `LatticeThreshold.LooseIff`.
  The runtime ties names to keys but attests every cell it accepts, so two nodes that run it can certify
  different cells exactly when some author has two cells of a round and the others reach the threshold:
  `LatticeRuntime.PartIff`, `LatticeRuntime.TwinsDecide`, `LatticeThreshold.RuntimeParts`. No fault is needed for
  that: the publisher itself makes two cells when two ticks fall into one round and its parents have changed
  (`LatticePublisher.RepublishIff`, and `LatticePublisher.OwnTicksHappen` is such a run). With names tied to keys and at most one attestation per author and round,
  the threshold decides: `LatticeThreshold.ConflictIff`, and `LatticeThreshold.SafeGroups` says which groups
  such a rule would make safe.
- *A certified cell stays.* A second cell of its author and round can take its place on the same node, and one
  cell of a far round makes collections drop all cells of the present: `LatticeAggregator.SlotStaysIff`,
  `LatticeRuntime.ReplaceIff`, `LatticeAggregator.CollectedIff`.
- *The threshold tolerates f silent members.* Nodes do not attest cells under their own name, so were the size
  set, exactly the groups of 3f + 1 members would not: `LatticeRuntime.CertifiableIff`,
  `LatticeRuntime.SilentFaultsIff`.
- *Nodes commit the same lineage.* Each tick elects the pivot from the ranking it reads, two nodes may hold
  different cells of one author and round, and the walk skips parents that are not certified locally, or no longer.
  `LineageCommit.SameLineageIff`, `LineageCommit.GcKeepsLineageIff`, `LineageCommit.WindowedIff` and
  `CommitPoller.LogsComparableIff`, `CommitPoller.WindowedLogsIff`, `CommitPoller.SweptLogsIff` say exactly when lists
  and logs agree, without a premise on certificates; `AgreementInputs.PivotsPart`, `AgreementInputs.TwinsPart` and
  `AgreementInputs.MissingParentParts` are inputs at which they do not.
- *A later commit extends an earlier one.* `LaterCommits.SkipIff` says for which numbers of members, followers and
  parents this is sure, and `LaterCommits.LaterEntryExtends` what follows for two entries of one log.
- *Parents are committed first.* Nobody checks that parents come from earlier rounds:
  `LineageCommit.LineageIsCausalIff`, `AgreementInputs.LaterParentComesAfter`.
- *The poller commits what it can.* It starts at cycle 0 while rounds count seconds since 1970, never skips a
  cycle, and reading the row of the largest round panics: `CommitPoller.GoesOnIff`, `CommitPoller.StartsIff`,
  `AgreementInputs.PanicEnds`.
- *Pivots take turns in proportion to their scores.* The schedule has a single slot, and rounding gives it
  to the last ranked peer in every cycle (`Pivot.OneSlotGoesLast`). The comment speaks of ten slots; for
  any number of slots `Pivot.FairShare` holds.
- *A finalized certificate is never pending again.* True of uninterrupted receipts, false between the two
  locked sections of a receipt: `Certificates.SettledIff`,
  `Certificates.SettledThroughoutIff`, `Certificates.Overtaken`.
- *A certificate stands for two thirds of the committee.* The validator counts the entries of the voter list, not
  the voters: `Certificates.OneVoterFinalizes`. With distinct voters `Certificates.ForkIff` says when two nodes can
  finalize different blocks.
- *Announcements converge* and *the leader does not depend on iteration order*:
  `GroupDirectory.ConvergentIff`, `GroupDirectory.EqualEpochsPart`, with sweeps and local elections
  `GroupDirectory.SeeAlikeIff`, `GroupDirectory.ElectionsPart`, `GroupDirectory.SweepRevives`; and `GroupDirectory.OrderFreeIff`.
- *Issuance is bounded.* The shift is limited to 63 places but rewards have 128 bits: `Fees.BoundedIff`.
- *The cooldown spaces slashes.* Epoch 0 doubles as "never slashed", so no cooldown follows a slash at
  epoch 0: `Slashing.AcceptedIff`, `Slashing.DefaultFastest`.
- *Two nodes elect the same leader.* A node counts against the candidates it knows:
  `IntraGroupElection.PartialKnowledgeIff`, `IntraGroupElection.UninformedDisagree`.
- *A node elects itself when it is ahead of its peers.* Its table of peers may hold an old entry of its own:
  `ProposerElection.ElectsItselfIff`. On a tie nobody does: `ProposerElection.TieElectsNobody`.

`dafny verify dfyconfig.toml` checks the whole project.

## Model

| member | source | states |
|---|---|---|
| `RunLength.CompressSnappy` | savitri-core/src/compression.rs:125-160 | the encoder's loop computes the encoding by maximal runs of at most 255 bytes and keeps it only if it is shorter |
| `RunLength.DecompressSnappy` | savitri-core/src/compression.rs:163-187 | the decoder's loop computes `Decode`, including markers too close to the end, which are literals |
| `RunLength.FormatIs` | savitri-core/src/compression.rs:125-187 | a run of three to 255 equal bytes is written as 0xFF, the byte and the count, and read back so |
| `RunLength.CompressIs` | savitri-core/src/compression.rs:50-61 | nothing comes out exactly for data of at least the threshold under an algorithm that is not built in; smaller data comes out as it is |
| `RunLength.DecodeCost` | savitri-core/src/compression.rs:163-187 | no stream decodes to x in fewer bytes than the encoding of x has, and strictly more are needed if x has a loose marker |
| `RunLength.RoundTripEncoded` | savitri-core/src/compression.rs:125-187 | decoding undoes encoding exactly when no literal 0xFF has two or more encoded bytes after it |
| `RunLength.NeverCatchesUp` | savitri-core/src/compression.rs:163-187 | a decoder that owes bytes other than the marker never reproduces what it reads |
| `RunLength.RoundTripRaw` | savitri-core/src/compression.rs:125-187 | data stored unencoded decodes to itself exactly when no 0xFF has two or more bytes after it |
| `RunLength.RoundTrip` | savitri-core/src/compression.rs:50-71 | `decompress` after `compress` gives the data back exactly on the inputs `Restorable` describes, for every size threshold and algorithm |
| `RunLength.UnmarkedRoundTrip` | savitri-core/src/compression.rs:50-71 | data without the byte 0xFF always survives, for every size threshold |
| `RunLength.CostBounds` | savitri-core/src/compression.rs:125-160 | the encoding has at most one byte per input byte and at least three per 255 |
| `RunLength.StoredSize` | savitri-core/src/compression.rs:50-61 | output is never longer than input, and input at most 85 times as long as output |
| `RunLength.MarkLost` | savitri-core/src/compression.rs:125-187 | an input that does not survive |
| `Quorum.SharedHonest` | savitri-consensus/src/primitives/quorum.rs:25-30 | two quorums share an honest member whenever 2q > n + f, in every committee |
| `Quorum.IntersectingIff` | savitri-consensus/src/primitives/quorum.rs:25-30 | a threshold has that property exactly when 2q > n + f |
| `Quorum.VotersQuorumSafe` | savitri-consensus/src/primitives/quorum.rs:25-30 | ceil(2n/3) is safe against any f below n/3 |
| `Quorum.LatticeQuorumSafeIff` | savitri-consensus/src/types/lattice.rs:276-285 | the lattice threshold is safe at its own fault count exactly for n = 3f + 1 |
| `Quorum.ThresholdsAgreeIff` | savitri-consensus/src/types/lattice.rs:276-285 | it is never above the canonical threshold, and equal exactly for n = 0 and n = 3f + 1 |
| `LatticeCells.SignableInjective` | savitri-consensus/src/types/lattice.rs:121-142 | cells whose names hold no separator sign equal bytes exactly when all signed fields are equal |
| `LatticeCells.SignedLayout` | savitri-consensus/src/types/lattice.rs:121-142 | where every signed field stands in the signed bytes, numbers in little-endian order |
| `LatticeCells.AmbiguousNames` | savitri-consensus/src/types/lattice.rs:121-142 | for every cell with a separator in a name there is a different cell with the same signed bytes |
| `LatticeCells.AscendingUnique` | savitri-consensus/src/lattice/commit.rs:143-179 | a set of keys has one canonical order by round and author |
| `LatticeAggregator.Aggregator.Observe` | savitri-consensus/src/lattice/aggregator.rs:214-236 | a cell raises the high-water round and becomes pending unless its slot is certified or it is pending already |
| `LatticeAggregator.Aggregator.Attest` | savitri-consensus/src/lattice/aggregator.rs:246-315 | all six outcomes of an attestation, and the promotion of a cell from pending to certified |
| `LatticeAggregator.AnswerIff` | savitri-consensus/src/lattice/aggregator.rs:246-315 | exactly when each of the six outcomes comes |
| `LatticeAggregator.CountedIs` | savitri-consensus/src/lattice/aggregator.rs:285-315 | a counted attestation replaces the signer's earlier one, and moves the cell to its slot exactly when it completes a quorum |
| `LatticeAggregator.Aggregator.Gc` | savitri-consensus/src/lattice/aggregator.rs:321-350 | exactly the cells below the retention window go, and their number is returned |
| `LatticeAggregator.CollisionFreeIsFaithful` | savitri-consensus/src/types/lattice.rs:169-171 | a collision-free hash of the signed bytes identifies cells by their content |
| `LatticeAggregator.StepKeeps` | savitri-consensus/src/lattice/aggregator.rs:214-350 | every step keeps: certified entries stand under their own round and author with a quorum of delivered and verified attestations, pending ones have fewer, and no certified cell is pending |
| `LatticeAggregator.RunKeeps` | savitri-consensus/src/lattice/aggregator.rs:160-350 | the same for every sequence of cells, attestations and collections |
| `LatticeAggregator.SlotStaysIff` | savitri-consensus/src/lattice/aggregator.rs:214-350 | a certified cell stays through a step exactly when it is not collected and the step does not complete another pending cell of its author and round |
| `LatticeAggregator.HighWaterIs` | savitri-consensus/src/lattice/aggregator.rs:214-236 | after every run the high-water round is the highest round of a verified cell that arrived |
| `LatticeAggregator.CollectedIff` | savitri-consensus/src/lattice/aggregator.rs:321-350 | after every run a certified cell survives a collection exactly when no cell that ever arrived is further ahead than the retention |
| `LatticeAggregator.PendingCollectedIff` | savitri-consensus/src/lattice/aggregator.rs:321-350 | the same for pending cells |
| `LatticeAggregator.CertificatesAgree` | savitri-consensus/src/lattice/aggregator.rs:285-309 | two certificates of one author and round carry the same cell if delivered names come with their keys, keys of members that are not faulty back one cell each, and 2q > n + f for the threshold q of the configured size and n members |
| `LatticeAggregator.TablesAgree` | savitri-consensus/src/lattice/aggregator.rs:285-309 | the tables of two nodes agree wherever both have an entry, by such certificates, or with no quorum at all if no author has two verified cells of a round |
| `LatticeAggregator.RunsAgree` | savitri-consensus/src/lattice/aggregator.rs:160-350 | so in either case no two runs of two nodes certify different cells of one author in one round |
| `CertifyingRuns.Certifies` | savitri-consensus/src/lattice/aggregator.rs:246-315 | from any state with nothing pending a first quorum of attestations under different names certifies a new cell and changes nothing else |
| `CertifyingRuns.CertifiesAll` | savitri-consensus/src/lattice/aggregator.rs:214-315 | so a node can come to hold any cells of different authors and rounds, and just these |
| `LatticeThreshold.OneKeyCertifies` | savitri-consensus/src/lattice/aggregator.rs:393-401 | in every world and for every configured size one signature under one key, sent under a quorum of names, certifies its cell |
| `LatticeThreshold.LooseIff` | savitri-consensus/src/lattice/aggregator.rs:246-309 | if names may come with any member's key, two runs can certify different cells exactly when n + f >= 2, although each member that is not faulty backs one cell |
| `LatticeThreshold.ConflictExists` | savitri-consensus/src/types/lattice.rs:276-285 | if names come with their keys: for every configured size with threshold q, whenever 2q <= n + f there are two runs of one committee of n, with a key for each member, that certify different cells |
| `LatticeThreshold.ConflictIff` | savitri-consensus/src/lattice/aggregator.rs:246-309 | over all configured sizes, worlds, committees of n and pairs of runs with names tied to keys and one attestation per author and round: conflicting certificates are possible exactly when 2q <= n + f |
| `LatticeThreshold.SafeGroups` | savitri-consensus/src/types/lattice.rs:276-285 | with the size equal to n, at the fault count the group is meant to survive, such a rule would make exactly groups of 3f + 1 members safe |
| `LatticeThreshold.SafeByDefault` | savitri-consensus/src/lattice/aggregator.rs:102-110 | with the size that nodes configure: exactly when n + f is at most 5, and at that fault count exactly up to four members |
| `LatticeThreshold.RuntimeParts` | savitri-lightnode/src/lattice_runtime.rs:269-333 | for every configured size and every n above its threshold a group of n by the book, with keys of their own, in which two nodes certify different cells |
| `LatticeRuntime.Runtime.constructor` | savitri-lightnode/src/lattice_runtime.rs:194-208 | a node starts with an empty aggregator of the configured size, as every run of the group does |
| `LatticeRuntime.Runtime.ProcessCell` | savitri-lightnode/src/lattice_runtime.rs:269-333 | a cell of the group goes to the aggregator; exactly if it is accepted and not under the node's own name it is attested, locally and by a broadcast of the node's name, key and signature, certified slot or not |
| `LatticeRuntime.BroadcastIs` | savitri-lightnode/src/lattice_runtime.rs:269-333 | what is broadcast on a cell, and exactly when |
| `LatticeRuntime.NetIsObject` | savitri-lightnode/src/lattice_runtime.rs:269-333 | in every run of a group the sections of handling a cell give the node the state the object gets, and send exactly what the object puts out |
| `LatticeRuntime.NetProjects` | savitri-lightnode/src/lattice_runtime.rs:269-362 | in every run of a group each node is where an aggregator of its own gets by the cells, attestations and collections the node heeds |
| `LatticeRuntime.Runtime.ProcessAttestation` | savitri-lightnode/src/lattice_runtime.rs:338-362 | an attestation goes to the aggregator as it is |
| `LatticeRuntime.NetRunKeeps` | savitri-lightnode/src/lattice_runtime.rs:269-362 | in every interleaving of the locked sections of a group's handlers tables are sound, within the cap, and every attestation sent is one of a running member on an accepted cell of another author |
| `LatticeRuntime.NetIsBound` | savitri-lightnode/src/lattice_runtime.rs:693-729 | attestations sent by the runtime tie names to keys |
| `LatticeRuntime.CertifiableIff` | savitri-lightnode/src/lattice_runtime.rs:323-331 | some run certifies a cell exactly when it is acceptable and the running members other than its author reach the threshold |
| `LatticeRuntime.SilentIff` | savitri-lightnode/src/lattice_runtime.rs:323-331 | an honest member's cell with m others silent: exactly when the threshold is at most n - 1 - m |
| `LatticeRuntime.SilentFaultsIff` | savitri-consensus/src/types/lattice.rs:276-285 | with the size equal to n and m the fault count the threshold is meant for: exactly when n is not 3f + 1 |
| `LatticeRuntime.SilentByDefault` | savitri-lightnode/src/p2p/network/mod.rs:535-540 | with the size that nodes configure: exactly when three others run, so at that fault count exactly from five members on |
| `LatticeRuntime.PartIff` | savitri-lightnode/src/lattice_runtime.rs:269-362 | two nodes of a group by the book can certify different cells exactly when two run, some author has two accepted cells of a round, and the other running members reach the threshold |
| `LatticeRuntime.TwinsDecide` | savitri-lightnode/src/lattice_runtime.rs:269-362 | with all members running, more than the threshold: exactly when some author has two accepted cells of a round |
| `LatticeRuntime.ReplaceIff` | savitri-lightnode/src/lattice_runtime.rs:269-362 | one node of a group by the book can certify a cell and later another in its place exactly when some author has two accepted cells of a round and the other running members reach the threshold |
| `LatticePublisher.PublishCell` | savitri-lightnode/src/lattice_runtime.rs:463-497 | the cell of a tick: certified cells of the round before as parents, the first 16 by author, in byte order, and a signature of the draft |
| `LatticePublisher.CitedIff` | savitri-lightnode/src/lattice_runtime.rs:470-480 | a certified cell is among the parents exactly when it is of the round before and fewer than 16 authors of that round come before its author by name |
| `LatticePublisher.PublishedAccepted` | savitri-lightnode/src/lattice_runtime.rs:486-510 | every node accepts what a member publishes |
| `LatticePublisher.RepublishIff` | savitri-lightnode/src/lattice_runtime.rs:463-497 | two ticks of a member in one round give two different cells exactly when the parents they find differ |
| `LatticePublisher.LateCertificateMakesTwins` | savitri-lightnode/src/lattice_runtime.rs:470-480 | so does any certificate in between, if there were fewer than 16 before |
| `LatticePublisher.RepublishParts` | savitri-lightnode/src/lattice_runtime.rs:269-540 | in a group without faults, all running and more than the threshold, such ticks can make nodes certify different cells exactly when the parents differ |
| `LatticePublisher.OwnTicksPart` | savitri-lightnode/src/lattice_runtime.rs:269-540 | in such a group there is a run in which only cells arrive that their authors published on the tables they had, and two nodes certify different cells of one member |
| `LatticePublisher.OwnTicksHappen` | savitri-lightnode/src/lattice_runtime.rs:269-540 | such a group and run for every configured size and every number of members above its threshold |
| `LineageCommit.FindById` | savitri-consensus/src/lattice/commit.rs:184-206 | the scan by falling round finds a certified cell with the identifier exactly when there is one, and panics exactly when the high-water round is the largest |
| `LineageCommit.WalkCausalHistory` | savitri-consensus/src/lattice/commit.rs:143-179 | the breadth-first walk ends, also on cyclic parent links, and returns the certified cells reachable from the start by chains of parents, each once, by round and author, or panics as the scan does |
| `LineageCommit.CountFollowers` | savitri-consensus/src/lattice/commit.rs:112-115 | the number of certified cells of the next round that name the anchor; the largest round panics |
| `LineageCommit.TryCommit` | savitri-consensus/src/lattice/commit.rs:94-134 | the decision with all three outcomes and the two panics, with saturating rounds; what each answer means is in the next four rows |
| `LineageCommit.CommittedIff` | savitri-consensus/src/lattice/commit.rs:94-134 | an attempt commits exactly when the pivot's cell of round 2 * index is certified, at least 2f + 1 certified cells of the next round name it, and neither round is the largest; the cycle names the index, group, pivot and that cell |
| `LineageCommit.AnchorMissingIff` | savitri-consensus/src/lattice/commit.rs:94-108 | it reports a missing anchor exactly when that cell is not certified |
| `LineageCommit.BelowQuorumIff` | savitri-consensus/src/lattice/commit.rs:111-122 | it reports too few followers exactly when the cell is certified and fewer name it, with both numbers |
| `LineageCommit.PanicsIff` | savitri-consensus/src/lattice/commit.rs:94-134 | it panics exactly when the anchor is certified and its followers would be of the largest round, or a quorum follows it and a cell of the largest round has been seen |
| `LineageCommit.LineageHolds` | savitri-consensus/src/lattice/commit.rs:143-179 | a lineage lists an identifier exactly when a certified cell reachable by parents has it |
| `LineageCommit.LineageOrder` | savitri-consensus/src/lattice/commit.rs:137-179 | and lists them by rising round and, within a round, by author |
| `LineageCommit.LineageIsCausalIff` | savitri-consensus/src/lattice/commit.rs:137-179 | a certified parent of a committed cell is committed before it exactly when it precedes it by round and author |
| `AgreementInputs.LaterParentComesAfter` | savitri-consensus/src/lattice/commit.rs:137-179 | a run of a node that certifies a cell naming one of a later round, and commits it before that one |
| `LineageCommit.SameLineageIff` | savitri-consensus/src/lattice/commit.rs:143-179 | two nodes list the same cells for a pivot cell exactly when each has certified the very cells the other lists |
| `AgreementInputs.MissingParentParts` | savitri-consensus/src/lattice/commit.rs:143-179 | runs of two nodes, one without a parent, that give different lineages of one cell |
| `LineageCommit.CompleteHolds` | savitri-consensus/src/lattice/commit.rs:143-179 | a node that misses no parent holds the very cells another node lists for a pivot cell both hold |
| `LineageCommit.GcKeepsLineageIff` | savitri-consensus/src/lattice/aggregator.rs:321-350 | collection leaves a lineage as it is exactly when all its cells lie in the retention window |
| `LineageCommit.GcKeepsWindow` | savitri-consensus/src/lattice/aggregator.rs:321-350 | if parents come from the round before, collection moves the floor of a table up to the window and leaves the table complete above it |
| `LineageCommit.WindowedFrom` | savitri-consensus/src/lattice/commit.rs:143-179 | two tables that are complete above their floors have the same cells behind a pivot cell both hold, from the higher floor on |
| `LineageCommit.WindowedIff` | savitri-consensus/src/lattice/commit.rs:143-179 | they list the same lineage exactly when the histories coincide below that floor |
| `LineageCommit.SweptIff` | savitri-consensus/src/lattice/commit.rs:143-179 | if the second table holds nothing below its floor: exactly when no cell of the first history lies below it |
| `LaterCommits.AnchorInLaterHistory` | savitri-consensus/src/lattice/commit.rs:111-122 | if a pivot cell has q followers, later cells name p parents of the round before, and q + p > n, every cell from two rounds later on reaches it |
| `LaterCommits.LaterCommitExtends` | savitri-consensus/src/lattice/commit.rs:111-134 | then a later pivot's lineage holds the whole lineage of the earlier one |
| `LaterCommits.LaterEntryExtends` | savitri-lightnode/src/lattice_runtime.rs:553-651 | so of two entries of one log of any run the later one's lineage holds the earlier one's, if the later table still holds what the earlier one was decided on, later cells name p parents, and q + p > n for the quorum q a commit takes |
| `LaterCommits.SkipIff` | savitri-consensus/src/lattice/commit.rs:111-134 | after some run of a node, for any configured size, a later cell skips a pivot cell with q followers though all of n members name p parents exactly when q + p <= n |
| `LaterCommits.SkipByDefault` | savitri-consensus/src/lattice/aggregator.rs:102-110 | with the size that nodes configure: exactly when p + 3 <= n, and at the cap of 16 parents from 19 members on |
| `LaterCommits.QuorumsSkipIff` | savitri-consensus/src/types/lattice.rs:276-285 | with the size equal to n and a quorum of parents: exactly in groups of 2, 3 or 6 |
| `LaterCommits.ParentlessCommitsItself` | savitri-consensus/src/lattice/commit.rs:143-179 | a cell without parents commits itself alone |
| `LaterCommits.CapBelowQuorum` | savitri-lightnode/src/lattice_runtime.rs:470-480 | the publisher's cap of 16 parents is below the quorum exactly from a configured size of 25 on |
| `CommitPoller.Poller.Poll` | savitri-lightnode/src/lattice_runtime.rs:571-651 | one tick, with the pivot elected from the ranking it reads, extends the log as `AfterTick` says, and a panic ends the task; which cycles it tries and which commit is in the next rows |
| `CommitPoller.TriesIff` | savitri-lightnode/src/lattice_runtime.rs:571-585 | a tick of a round tries cycle 0, and cycle k > 0 exactly from round 2k + 2 on |
| `CommitPoller.CommitsIff` | savitri-lightnode/src/lattice_runtime.rs:585-626 | a tried cycle commits exactly when someone is ranked and the last ranked peer's cell of round 2 * index is certified and followed by a quorum, short of the largest rounds |
| `CommitPoller.TickReaches` | savitri-lightnode/src/lattice_runtime.rs:571-651 | after a tick the log goes beyond cycle k exactly when it did before, or the round allows k and every cycle up to it commits |
| `CommitPoller.TickIs` | savitri-lightnode/src/lattice_runtime.rs:571-651 | a tick adds the decisions of exactly the next cycles up to the first that is too far ahead or does not commit, and ends the task exactly when that one panics |
| `CommitPoller.LogShape` | savitri-lightnode/src/lattice_runtime.rs:553-651 | in every run, whatever the clock does, entry i is the decision for cycle i |
| `CommitPoller.LogGrows` | savitri-lightnode/src/lattice_runtime.rs:553-651 | the log of a run extends the log of every prefix of the run |
| `CommitPoller.EntryFrom` | savitri-lightnode/src/lattice_runtime.rs:553-651 | every entry of a log was committed by some tick of the run |
| `CommitPoller.StoppedForGood` | savitri-lightnode/src/lattice_runtime.rs:553-651 | after a panic nothing is committed any more |
| `CommitPoller.BlockedAt` | savitri-lightnode/src/lattice_runtime.rs:627-649 | a cycle that never commits keeps all later ones out |
| `CommitPoller.GoesOnIff` | savitri-lightnode/src/lattice_runtime.rs:553-651 | in every run and after every tick: something more is committed later exactly when the task still runs and some later tick tries the next cycle and commits it, before any has panicked over it |
| `CommitPoller.StartsIff` | savitri-lightnode/src/lattice_runtime.rs:553-585 | a run commits anything exactly when some tick commits cycle 0 before any has panicked over it; never, if no tick finds a cell of round 0 by its pivot |
| `AgreementInputs.PanicEnds` | savitri-lightnode/src/lattice_runtime.rs:585-626 | a run of a node on which a tick commits; after one more cell, of the largest round, the tick ends the task and nothing is committed in any continuation |
| `CommitPoller.EntriesAgree` | savitri-lightnode/src/lattice_runtime.rs:585-626 | two nodes' entries for a cycle are equal exactly when group and pivot were the same and each node held the very cells the other committed |
| `CommitPoller.LogPairIff` | savitri-lightnode/src/lattice_runtime.rs:553-651 | one log is a prefix of the other exactly when that held at every common cycle |
| `CommitPoller.LogsComparableIff` | savitri-lightnode/src/lattice_runtime.rs:553-651 | the same for all runs of two nodes |
| `CommitPoller.SafeLogsIff` | savitri-lightnode/src/lattice_runtime.rs:553-651 | if certificates of one author and round cannot differ, some cell for each author and round is enough |
| `CommitPoller.SafePivots` | savitri-lightnode/src/lattice_runtime.rs:553-651 | and one pivot has one cell |
| `AgreementInputs.TwinsPart` | savitri-lightnode/src/lattice_runtime.rs:553-651 | runs of two nodes that elect one pivot and hold a cell for every author and round the other commits, one of them a twin, and whose logs are not comparable |
| `CommitPoller.SteadyElections` | savitri-lightnode/src/p2p/network/mod.rs:545-605 | groups and pivots are the same while one peer stays ranked last in one group on both nodes |
| `AgreementInputs.PivotsPart` | savitri-lightnode/src/p2p/network/mod.rs:545-605 | two nodes with one table and rankings that differ in the last peer, whose logs are not comparable |
| `CommitPoller.WindowedEntriesIff` | savitri-lightnode/src/lattice_runtime.rs:585-626 | two entries of a cycle, decided on tables that have dropped old cells, are equal exactly when group, pivot and its cell were the same and the histories coincide below the higher floor; above it they then always do |
| `CommitPoller.WindowedLogsIff` | savitri-lightnode/src/lattice_runtime.rs:553-690 | for all runs of two nodes, whatever they have collected: one log is a prefix of the other exactly when this held at every common cycle |
| `CommitPoller.SweptLogsIff` | savitri-lightnode/src/lattice_runtime.rs:553-690 | if tables hold nothing below their floors: exactly when at every common cycle group, pivot and its cell were the same and no committed cell lies between the two floors |
| `CommitPoller.LogsPrefixComparable` | savitri-lightnode/src/lattice_runtime.rs:553-651 | nodes that miss no parent at all write prefix-comparable logs exactly when groups, pivots and their cells were the same at common cycles |
| `AgreementInputs.SafeGroupCommits` | savitri-lightnode/src/lattice_runtime.rs:585-626 | a committee and a run with a committed cycle that meet all premises of the results on logs |
| `Pivot.DealSlots` | savitri-consensus/src/lattice/pivot.rs:119-141 | the dealing loop fills exactly the given number of slots, so there is nothing to pad |
| `Pivot.Shuffle` | savitri-consensus/src/lattice/pivot.rs:143-161 | each position from the last down takes the element at the drawn position; whatever is drawn, each peer occurs as often as before |
| `Pivot.ShuffledFrom` | savitri-consensus/src/lattice/pivot.rs:143-161 | positions already done stay, and the next one takes the element at the drawn position |
| `Pivot.AnyArrangement` | savitri-consensus/src/lattice/pivot.rs:143-161 | some draws give a schedule exactly when it is an arrangement of the deal |
| `Pivot.BuildSchedule` | savitri-consensus/src/lattice/pivot.rs:114-164 | the schedule is the shuffled deal, of exactly the given length |
| `Pivot.PivotForCycle` | savitri-consensus/src/lattice/pivot.rs:91-102 | the pivot of every cycle is the last ranked peer, and there is none without peers |
| `Pivot.FairShare` | savitri-consensus/src/lattice/pivot.rs:129-138 | for any number of slots a peer's share is less than one slot away from its exact proportion |
| `Pivot.OneSlotGoesLast` | savitri-consensus/src/lattice/pivot.rs:72-141 | with one slot it goes to the last ranked peer, whatever the scores |
| `Pivot.SlotsOfPeer` | savitri-consensus/src/lattice/pivot.rs:129-138 | how many slots each peer has in the schedule |
| `IntraGroupElection.Tally` | savitri-lightnode/src/p2p_intra_group.rs:493-497 | the counter map holds, for each candidate with votes, the number of its voters |
| `IntraGroupElection.MaxByCount` | savitri-lightnode/src/p2p_intra_group.rs:499-500 | some candidate with the highest count, any of them on a tie |
| `IntraGroupElection.CheckCompletion` | savitri-lightnode/src/p2p_intra_group.rs:488-524 | the election completes, with a leading candidate, exactly when a leading candidate has the threshold |
| `IntraGroupElection.IntraGroup.HandleElection` | savitri-lightnode/src/p2p_intra_group.rs:365-415 | the entry is created once, and a candidate that parses is added; every live entry stays the last state of a run since its creation |
| `IntraGroupElection.IntraGroup.HandleVote` | savitri-lightnode/src/p2p_intra_group.rs:429-458 | a vote replaces the voter's earlier one, is ignored after completion or without an entry, and touches no other group; live entries stay last states of runs |
| `IntraGroupElection.IntraGroup.DropStale` | savitri-lightnode/src/p2p_intra_group.rs:212-217 | exactly the elections without a winner that began less than a minute ago, and not after now, live on unchanged, as last states of runs since their creation |
| `IntraGroupElection.RunKeeps` | savitri-lightnode/src/p2p_intra_group.rs:365-524 | in every run recorded votes were cast and a winner has a quorum of cast votes |
| `IntraGroupElection.RecordedVotes` | savitri-lightnode/src/p2p_intra_group.rs:429-458 | until it is decided an election holds exactly the last vote of every voter |
| `IntraGroupElection.KnownCandidates` | savitri-lightnode/src/p2p_intra_group.rs:365-415 | it knows the candidates known at the start and those announced in the run |
| `IntraGroupElection.DecidedIff` | savitri-lightnode/src/p2p_intra_group.rs:488-524 | a vote decides an open election exactly when then some candidate has at least two thirds as many votes as there are known candidates, and the winner has the most |
| `IntraGroupElection.WinnerStays` | savitri-lightnode/src/p2p_intra_group.rs:429-524 | a declared winner stays for the rest of the run |
| `IntraGroupElection.WinnersAgree` | savitri-lightnode/src/p2p_intra_group.rs:429-524 | nodes that count against all n members, fewer than n/3 of them faulty, declare the same winner, for every message and iteration order |
| `IntraGroupElection.PartialKnowledgeIff` | savitri-lightnode/src/p2p_intra_group.rs:488-524 | over all pairs of runs among n voters with f faulty ones, counted against at least c and d known candidates: different winners are possible exactly when both thresholds, at least one vote each, are at most n and together at most n + f |
| `IntraGroupElection.UninformedDisagree` | savitri-lightnode/src/p2p_intra_group.rs:501-507 | two fault-free runs with one known candidate each and different winners |
| `Certificates.Receiver.Receive` | savitri-lightnode/src/p2p_certificate.rs:205-237 | an uninterrupted receipt is its two sections in a row: an unknown certificate becomes pending |
| `Certificates.Receiver.Validate` | savitri-lightnode/src/p2p_certificate.rs:126-404 | likewise for a validation: a pending certificate is validated exactly with two thirds of the committee listed and 64 signature bytes, and otherwise rejected for the first of these that fails |
| `Certificates.ValidatedIff` | savitri-lightnode/src/p2p_certificate.rs:276-404 | the same for the sections, with what is recorded |
| `Certificates.Receiver.Finalize` | savitri-lightnode/src/p2p_certificate.rs:418-458 | likewise for a finalization; the answer is true exactly when it takes effect |
| `Certificates.Receiver.Clean` | savitri-lightnode/src/p2p_certificate.rs:168-197 | what the cleanup task keeps, with wrap-around, pending certificates judged by height |
| `Certificates.InterruptedReceive` | savitri-lightnode/src/p2p_certificate.rs:205-237 | whatever other calls and cleanups do between its sections, a receipt that passed its check enters its certificate as pending, in place of any that came in between |
| `Certificates.InterruptedValidate` | savitri-lightnode/src/p2p_certificate.rs:126-404 | a validation judges the certificate that was pending when it began |
| `Certificates.InterruptedFinalize` | savitri-lightnode/src/p2p_certificate.rs:418-458 | a finalization finalizes what was validated when it began, unless another has meanwhile |
| `Certificates.StepKeeps` | savitri-lightnode/src/p2p_certificate.rs:121-458 | each locked section keeps: what is held was received, what is validated had a quorum of voters, what is finalized is logged once; finalized identifiers stay |
| `Certificates.RunKeeps` | savitri-lightnode/src/p2p_certificate.rs:121-458 | the same for every interleaving of sections of any calls, across cleanups |
| `Certificates.ForkIff` | savitri-lightnode/src/p2p_certificate.rs:276-458 | over all pairs of runs of nodes configured for a committee size, with certificates of distinct voters among n members of whom at most f sign two hashes at a height: different hashes can be finalized at one height exactly when the threshold is at most n and twice the threshold at most n + f |
| `Certificates.FinalizedAgree` | savitri-lightnode/src/p2p_certificate.rs:276-458 | so never, if the size is the number of members and fewer than a third of them sign twice |
| `Certificates.OneVoterFinalizes` | savitri-lightnode/src/p2p_certificate.rs:289-300 | one voter, listed as often as the threshold asks, finalizes any block |
| `Certificates.SettledIff` | savitri-lightnode/src/p2p_certificate.rs:216-237 | a step makes a finalized certificate pending exactly when it is late: the second section of a receipt whose certificate was finalized since the first |
| `Certificates.SettledThroughoutIff` | savitri-lightnode/src/p2p_certificate.rs:205-458 | a run, of any interleaving, never has a finalized certificate pending exactly when no receipt in it is late |
| `Certificates.AtomicReceiveSettles` | savitri-lightnode/src/p2p_certificate.rs:205-237 | receipts without interruption never do |
| `Certificates.Overtaken` | savitri-lightnode/src/p2p_certificate.rs:205-237 | an interleaving that does |
| `GroupDirectory.GroupManager.ProcessAnnouncement` | savitri-lightnode/src/p2p_group_manager.rs:94-143 | a new group is entered, an old one changed only by a higher epoch; the index mirrors the members |
| `GroupDirectory.AnnouncedIs` | savitri-lightnode/src/p2p_group_manager.rs:94-143 | an announcement of a new group or a higher epoch takes effect as it is, and any other changes nothing |
| `GroupDirectory.GroupManager.Join` | savitri-lightnode/src/p2p_group_manager.rs:162-186 | membership grows by the peer; the index mirrors the members |
| `GroupDirectory.JoinedIs` | savitri-lightnode/src/p2p_group_manager.rs:162-186 | joining adds one membership of a known group and nothing else |
| `GroupDirectory.GroupManager.Leave` | savitri-lightnode/src/p2p_group_manager.rs:188-219 | membership shrinks, an empty group goes; the index mirrors the members |
| `GroupDirectory.LeftIs` | savitri-lightnode/src/p2p_group_manager.rs:188-219 | leaving takes one away, and the group with the last |
| `GroupDirectory.JoinLeave` | savitri-lightnode/src/p2p_group_manager.rs:162-219 | whoever joins and leaves again changes no membership |
| `GroupDirectory.GroupManager.ElectLeader` | savitri-lightnode/src/p2p_group_manager.rs:221-267 | the leader is a member of smallest hash below the largest value, if there is one, and then the epoch rises |
| `GroupDirectory.GroupManager.Maintain` | savitri-lightnode/src/p2p_group_manager.rs:269-310 | exactly the groups idle for more than 300 seconds go; the index mirrors the members |
| `GroupDirectory.SweptIff` | savitri-lightnode/src/p2p_group_manager.rs:269-310 | a sweep keeps a group exactly if it was active in the last 300 seconds, and as it is |
| `GroupDirectory.UpdateIndex` | savitri-lightnode/src/p2p_group_manager.rs:312-329 | the group is listed for exactly the given members, other listings stay |
| `GroupDirectory.OrderFreeIff` | savitri-lightnode/src/p2p_group_manager.rs:229-241 | every iteration order elects the same leader exactly when no two members share the smallest hash |
| `GroupDirectory.ShowsLatest` | savitri-lightnode/src/p2p_group_manager.rs:94-143 | after any deliveries a group exists exactly if announced, and shows an announcement of its highest epoch |
| `GroupDirectory.ConvergentIff` | savitri-lightnode/src/p2p_group_manager.rs:94-143 | every order and repetition of deliveries gives the same directory exactly when the announcements of each group's highest epoch agree |
| `GroupDirectory.EqualEpochsPart` | savitri-lightnode/src/p2p_group_manager.rs:94-143 | two announcements of one epoch that do not converge |
| `GroupDirectory.ElectionIsAnnouncement` | savitri-lightnode/src/p2p_group_manager.rs:221-267 | a local election does what an announcement of the next epoch with the same members would |
| `GroupDirectory.SinceIs` | savitri-lightnode/src/p2p_group_manager.rs:94-310 | after any announcements and sweeps a group is as if only what came since it was last dropped had been delivered |
| `GroupDirectory.ShowsFirst` | savitri-lightnode/src/p2p_group_manager.rs:94-143 | a known group shows the first announcement delivered of its highest epoch |
| `GroupDirectory.SeeAlikeIff` | savitri-lightnode/src/p2p_group_manager.rs:94-310 | with sweeps and elections in the runs, two nodes see a group alike exactly when what each heard first of the highest epoch, since it last dropped the group, says the same |
| `GroupDirectory.ElectionsPart` | savitri-lightnode/src/p2p_group_manager.rs:94-267 | two announcements of one epoch, heard in different order, after which they do not |
| `GroupDirectory.SweepRevives` | savitri-lightnode/src/p2p_group_manager.rs:269-310 | a sweep after which an older announcement brings back an older epoch |
| `GroupDirectory.IndexConverges` | savitri-lightnode/src/p2p_group_manager.rs:312-329 | equal directories answer equally for every peer |
| `Availability.SlotKeeps` | savitri-lightnode/src/availability.rs:393-432 | a slot keeps the counters in agreement with the bitmap, saturation included |
| `Availability.ReplayRefines` | savitri-lightnode/src/availability.rs:393-432 | for every history the counters are the number of ones, the trailing and the longest run of misses |
| `Availability.Monitor.Heartbeat` | savitri-lightnode/src/availability.rs:305-322 | the peer counts as seen in this slot, with a fresh entry if it is new; a timed answer to a pending ping enters the local peer too |
| `Availability.Monitor.SendPing` | savitri-lightnode/src/availability.rs:337-347 | the eviction loop ends with at most 256 pending pings, evicts only from the old end of the queue and keeps a new ping |
| `Availability.Monitor.ProcessSlot` | savitri-lightnode/src/availability.rs:393-432 | every known or seen peer's counters take the slot, the local peer always as seen |
| `Availability.SlotsAre` | savitri-lightnode/src/availability.rs:393-432 | for every epoch exactly the peers seen so far have an entry, and its bitmap tells in which slots since the first they were seen |
| `Availability.Monitor.FinalizeEpoch` | savitri-lightnode/src/availability.rs:462-654 | entries are reset, all or up to the local one, and the claimed slots are the ones of the bitmap |
| `Availability.Monitor.Tick` | savitri-lightnode/src/availability.rs:361-387 | slot counting and the epoch boundary; counters agree with bitmaps after every tick |
| `Slashing.SlashingManager.ReportMisbehavior` | savitri-consensus/src/slashing.rs:81-220 | the transition and result of a report for one validator, the others unchanged |
| `Slashing.AnswerIff` | savitri-consensus/src/slashing.rs:81-139 | exactly when each answer comes |
| `Slashing.AcceptedIs` | savitri-consensus/src/slashing.rs:140-220 | what an accepted report records, its penalty for each misbehavior, and exactly when it removes or jails the validator |
| `Slashing.SlashingManager.ProcessJailExpiry` | savitri-consensus/src/slashing.rs:223-242 | lists exactly the validators whose jail term has run out, each once |
| `Slashing.SlashingManager.UnjailValidator` | savitri-consensus/src/slashing.rs:246-277 | the transition and result of an unjailing, also for an unknown validator |
| `Slashing.UnjailIs` | savitri-consensus/src/slashing.rs:246-277 | an unjailing ends exactly the terms that have run out and changes nothing else |
| `Slashing.AcceptedIff` | savitri-consensus/src/slashing.rs:94-139 | exactly when a report is accepted after a chronological history, and that a refused one changes nothing |
| `Slashing.RunKeeps` | savitri-consensus/src/slashing.rs:81-277 | in every chronological history slashes keep cooldown and jail distance, never exceed the maximum and remove the validator exactly on reaching it |
| `Slashing.AnyOrderKeeps` | savitri-consensus/src/slashing.rs:81-277 | counts, removal and a positive cooldown hold even when epochs arrive out of order |
| `Slashing.JailsStays` | savitri-consensus/src/slashing.rs:195-217 | once a slash jails, every later one short of removal jails |
| `Slashing.RemovalTakes` | savitri-consensus/src/slashing.rs:81-277 | in every chronological history the k-th slash comes no earlier than `Earliest`, so at least k - 1 cooldowns after a first slash past epoch 0 |
| `Slashing.FastestAccepted` | savitri-consensus/src/slashing.rs:81-220 | that bound is attained, for every k up to the maximum |
| `Slashing.DefaultTimeline` | savitri-consensus/src/types/slashing.rs:62-85 | with the default settings every removal takes 30 epochs from a first slash past epoch 0, or 20 from one at epoch 0 |
| `Slashing.DefaultFastest` | savitri-consensus/src/types/slashing.rs:62-85 | both are attained by accepted reports, and three reports at epoch 0 are all accepted |
| `Fees.HalvingEngine.BlocksUntilHalving` | Savitri-contracts/src/fee.rs:573-577 | advancing that far, and no less, reaches the next halving |
| `Fees.HalvingEngine.AdvanceEpoch` | Savitri-contracts/src/fee.rs:558-565 | one epoch on, at a reward that is not higher |
| `Fees.RewardsFall` | Savitri-contracts/src/fee.rs:547-550 | rewards never increase |
| `Fees.RewardIs` | Savitri-contracts/src/fee.rs:547-550 | the reward is the initial one divided by 2 for each completed interval, at most 63 times, and rounded down |
| `Fees.PeriodsBounded` | Savitri-contracts/src/fee.rs:547-550 | after k periods at most 2 * interval * (initial - reward of period k) is issued |
| `Fees.IssuanceBounded` | Savitri-contracts/src/fee.rs:547-550 | over any number of epochs at most 2 * interval * initial is issued |
| `Fees.IssuanceKeepsPaying` | Savitri-contracts/src/fee.rs:547-550 | from 2^63 on every epoch pays at least one unit |
| `Fees.BoundedIff` | Savitri-contracts/src/fee.rs:547-550 | total issuance is finite exactly when the initial reward is below 2^63 |
| `Treasury.Treasury.Deposit` | Savitri-contracts/src/fee.rs:151-159 | saturating sums; while deposits fit, collected = balance + burned + withdrawn is kept |
| `Treasury.Treasury.Withdraw` | Savitri-contracts/src/fee.rs:162-177 | succeeds exactly when covered, keeps the accounting, and changes nothing on failure |
| `Treasury.Treasury.Spend` | Savitri-contracts/src/fee.rs:183-200 | succeeds exactly up to a twentieth of the balance, keeps the accounting |
| `Treasury.Treasury.Burn` | Savitri-contracts/src/fee.rs:203-219 | succeeds exactly when covered, keeps the accounting, and changes nothing on failure |
| `Treasury.FeeDistributor.Distribute` | Savitri-contracts/src/fee.rs:261-288 | fails exactly when the treasury cannot cover the burn, and then changes nothing |
| `Treasury.SplitExactIff` | Savitri-contracts/src/fee.rs:305-332 | every total is split without gain or loss, even where a product wraps around, exactly when the rates sum to at most 10000 |
| `Treasury.SharesAre` | Savitri-contracts/src/fee.rs:305-332 | each share is its own rate's part of the total, modulo 2^128 and rounded down, and the proposer gets what is left, if anything |
| `Treasury.SpendsLeave` | Savitri-contracts/src/fee.rs:183-200 | n spendings leave at least (19/20)^n of the balance |
| `Treasury.SpendsFloor` | Savitri-contracts/src/fee.rs:183-200 | spendings never take a balance of 19 or more below 19 and never touch one below 20 |
| `Proposals.CanonicalParents` | savitri-lightnode/src/proposer.rs:38-58 | the loop builds the canonical parent list |
| `Proposals.CanonicalShape` | savitri-lightnode/src/proposer.rs:38-58 | it starts with the primary, repeats nothing and holds exactly the primary and the normalized others |
| `Proposals.CanonicalOrder` | savitri-lightnode/src/proposer.rs:38-58 | the others come in the order in which they are first mentioned |
| `Proposals.RepeatsIgnored` | savitri-lightnode/src/proposer.rs:51-58 | a parent already there, however spelled, changes nothing wherever it is inserted |
| `Proposals.PaddingIgnored` | savitri-lightnode/src/proposer.rs:38-58 | zeros appended to a parent up to 64 bytes change nothing wherever it stands |
| `Proposals.CanonicalIdempotent` | savitri-lightnode/src/proposer.rs:38-58 | canonical lists are fixed points |
| `Proposals.ProposalSignableBytes` | savitri-lightnode/src/proposer.rs:37-67 | the bytes built field by field are `SignableBytes` |
| `Proposals.SignedLayout` | savitri-lightnode/src/proposer.rs:37-67 | where every signed field stands in these bytes, numbers in little-endian order |
| `Proposals.SignableInjective` | savitri-lightnode/src/proposer.rs:37-67 | two proposals sign equal bytes exactly when they agree on all that the signature covers |
| `ProposerElection.StableSort` | savitri-lightnode/src/proposer.rs:384-384 | a permutation by falling score that leaves equal scores in their order |
| `ProposerElection.RunElection` | savitri-lightnode/src/proposer.rs:366-413 | the winner is the first candidate of highest score in the list with the local node last |
| `ProposerElection.ElectsItselfIff` | savitri-lightnode/src/proposer.rs:366-413 | a node elects itself exactly when it is strictly ahead of every entry of its table, or when an entry under its own key comes first there and is not behind it |
| `ProposerElection.TieElectsNobody` | savitri-lightnode/src/proposer.rs:366-413 | two nodes of equal score of which none elects itself |
| `ProposerElection.ProposesIff` | savitri-lightnode/src/proposer.rs:366-413 | among nodes with consistent tables a node elects itself exactly when it alone has the top score |
| `ProposerElection.AtMostOneProposer` | savitri-lightnode/src/proposer.rs:366-413 | so never two do |
| `WeightedSelection.Select` | savitri-consensus/src/lib.rs:372-398 | the index whose share of the running sum holds the target; the final fallback is never reached |
| `WeightedSelection.ChosenUnique` | savitri-consensus/src/lib.rs:388-397 | each target chooses one index |
| `WeightedSelection.Proportional` | savitri-consensus/src/lib.rs:388-397 | over all targets each proposer is chosen exactly as often as its weight |
| `GradientScoring.CoordinateWiseMedian` | savitri-core/src/fl_robust.rs:142-158 | the loops compute the lower median of every coordinate |
| `GradientScoring.MedianSplits` | savitri-core/src/fl_robust.rs:142-158 | at least half of the values lie on either side of the lower median |
| `GradientScoring.BaselineRobust` | savitri-core/src/fl_robust.rs:142-158 | with fewer than half of the survivors adversarial, every coordinate of the baseline lies between two honest values |
| `GradientScoring.CauchySchwarz` | savitri-core/src/fl_robust.rs:133-139 | for `dot` and the sum of squares, in any dimension |
| `GradientScoring.RawScoreInRange` | savitri-core/src/fl_robust.rs:54-129 | before the clamp every branch gives a score between 0 and 1000; what the scores mean is in the rows below |
| `GradientScoring.ScoresInRange` | savitri-core/src/fl_robust.rs:46-131 | one score per client in order, within 0 and 1000, nothing for stopped gradients, inclusion exactly from the threshold on |
| `GradientScoring.PassesIff` | savitri-core/src/fl_robust.rs:54-70 | a gradient passes the gates exactly when it has the dimension, is finite, and its squares sum up to at most 100 |
| `GradientScoring.CosineScore` | savitri-core/src/fl_robust.rs:119-123 | where gradient and baseline point somewhere the score is 500 * (cosine + 1), to within half a unit |
| `GradientScoring.DirectionScores` | savitri-core/src/fl_robust.rs:119-123 | the direction of the baseline scores 1000, the opposite one 0, and a right angle 500 |
| `GradientScoring.MultipleScores` | savitri-core/src/fl_robust.rs:119-123 | so a positive multiple of the baseline scores 1000 and a negative one 0 |
| `GradientScoring.CloserScoresNoLess` | savitri-core/src/fl_robust.rs:119-123 | a smaller angle to the baseline never scores less |
| `GradientScoring.IncludedIff` | savitri-core/src/fl_robust.rs:119-128 | a gradient is included exactly when its cosine with the baseline is at least -0.601 |
| `GradientScoring.EdgeScores` | savitri-core/src/fl_robust.rs:91-118 | a lone survivor scores 1000, a zero gradient 500 |
| `GradientScoring.ZeroBaselineScore` | savitri-core/src/fl_robust.rs:114-116 | against a zero baseline the score is 1000 less 100 times the norm, to within half a unit |
| `GradientScoring.LongerScoresNoMore` | savitri-core/src/fl_robust.rs:114-116 | so there a longer gradient never scores more |
| `GradientScoring.OrderIrrelevant` | savitri-core/src/fl_robust.rs:46-131 | permuting the clients permutes the scores |
| `GradientScoring.StoppedIrrelevant` | savitri-core/src/fl_robust.rs:46-131 | what stopped clients send, and how many there are, changes no other score |

## Left out

- Networking, channels, tasks, events, logs, metrics and statistics: only the state changes are modelled. Methods that hold one lock throughout are atomic steps; the certificate receiver is modelled section by section.
- Signatures and hash functions: abstract functions of key, signature and cell. That identifiers stand for contents is the premise `Faithful`.
- LatticeAggregator.CertificatesAgree: takes as premises, over the attestations delivered, that names come with their keys and that members attest one cell per author and round. The aggregator checks neither; the runtime keeps the first and not the second. `LatticeThreshold.LooseIff` and `LatticeRuntime.PartIff` say what holds without them.
- LaterCommits.AnchorInLaterHistory: takes as a premise that later cells name p parents from the round before, which nothing checks on receipt; `LaterCommits.SkipIff` says what p it takes. It also takes every author in the table to be one of the n members; a node accepts cells by group and signature alone.
- LaterCommits.LaterCommitExtends: takes the same premises.
- LaterCommits.LaterEntryExtends: takes the same premises of the table of the later entry, and that it still holds what the earlier one was decided on, which `LatticeAggregator.SlotStaysIff` and collections may end.
- LineageCommit.GcKeepsWindow: takes as a premise that parents come from the round before, as the publisher takes them; nothing checks this on receipt.
- LineageCommit.WindowedFrom: takes as a premise that parents come from earlier rounds, and so do the windowed and swept results built on it. `LineageCommit.SameLineageIff` needs none of these.
- LineageCommit.CompleteHolds: is about tables that miss no parent, and LineageCommit.SweptIff about tables without cells below their floor; `LineageCommit.SameLineageIff` covers all others.
- Changing the group size of a running aggregator (`set_group_size`), which nothing calls.
- CommitPoller.Poller.Poll: takes the ranking of a tick as read; how the group provider ranks members is not modelled.
- GroupDirectory.SeeAlikeIff: leaves joins and leaves out of the runs; they change members without a new epoch.
- LatticeAggregator.Aggregator.Attest: keeps a certificate's attestations as a map from signer to attestation, where the source sorts them into a list.
- Fees.HalvingEngine.BlocksUntilHalving: does not model overflow of 64-bit epochs, nor an interval of zero, which makes the source divide by zero.
- Slashing.SlashingManager.ReportMisbehavior: does not model overflow of 64-bit epochs, timestamps, nor the mirror into the observation store.
- Pivot.Shuffle: leaves the draws of the seeded generator abstract.
- Certificates.Receiver.Validate: leaves out the length test of voter keys, which the types make always true.
- GradientScoring.CoordinateWiseMedian: sorts sequences by insertion, where the source calls the library's sort on one buffer; finite floats are real numbers, and the norm is any function whose square is the sum of squares.
- ProposerElection.StableSort: sorts by insertion on sequences, where the source calls the library's stable sort in place.
- Availability.Monitor.FinalizeEpoch: leaves out scores, latency samples and the broadcast; whether its retry path ends the method early is a parameter.
- Availability.Monitor.Heartbeat: leaves out the latency samples themselves.
- Score penalties, latency medians, fee calculation, header parent checks and other members whose contracts would only repeat a formula.
- The Snappy, Zstandard and LZ4 libraries; the codec is the fallback built without them.
