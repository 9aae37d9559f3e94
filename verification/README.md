# Counter-Terrorist: a model of its core, with proofs

A Dafny model of the parts of the orchestrator and its agents whose correctness is
hardest to see from the code, with proofs over all inputs, all runs and all
interleavings. `dafny verify dfyconfig.toml` checks the whole project.

- **Secret sharing** (`Bytes`, `Gf256`, `Polynomials`, `Shamir`). Bytes are eight
  bits; the product of two bytes is the carry-less product modulo 0x11d. The loop
  that fills the EXP and LOG tables is proved to enumerate all 255 nonzero bytes,
  so table multiplication and division are a field. Over any field of
  characteristic two, Lagrange interpolation at zero recovers the constant term,
  which gives the round trip and, through uniqueness of interpolation, that any k - 1
  shares of a split are those of exactly one split of every other secret.
- **Shared-memory ring** (`Ring`, `RingProtocol`, `RingMemory`). The producer and
  the consumer are interleaved byte write by byte write and load by load, with the
  head each side has loaded kept as a snapshot. The ring refines a queue, and every
  round of the consumer passes the next message unless an empty one blocks it.
  `RingMemory` is the ring on a real array: a push there is the whole push of the
  protocol, and pull and commit find and drop the oldest message of the queue.
- **Obfuscation** (`Morph`): vector and scalar XOR compute one mask.
- **Canonical text** (`CanonicalJson`, `JsonParser`): unique decodability of the
  serializer, and a JSON parser, written from the grammar, that reads its texts back.
- **Merkle tree** (`Merkle`): the incremental tree against the batch builder, the
  builder against a definition from the top, proofs and their verifier.
- **Audit ledger** (`Audit`, `AuditVerifier`, `Timeline`, `AuditStore`,
  `AuditRetention`, `AuditPipeline`, `MerkleBatching`): hashing, the reverse verifier,
  the repository in the order of its (time, identifier) keys, synchronisation,
  retention interleaved with saves, the append path with failures at every await, and
  the Merkle batches. What is appended and what is stored are told apart throughout:
  the chain is a list in the order of saving, the ledger is filed by keys.
- **Protocols and structures** (`BoundedMap`, `RateLimit`, `Redactor`, `CausalGraph`).

Digests, TPM, clocks, identifiers and random bytes are parameters. A property that
needs a collision-free digest or a TPM whose signatures it accepts itself says so in
its `requires`. Asynchronous code is a state machine whose steps are the stretches
between awaits; a run is a sequence of states joined by steps, and a theorem about
runs holds at every index.

Where a promise does not hold of the code as written, the code is kept, and a lemma
gives the exact condition:

- an empty ring accepts an n-byte message at every position exactly when
  2(4+n)+4 <= capacity (`EmptyAcceptsEverywhere`);
- a commit with messages outstanding passes the next one exactly when it is not an empty
  message behind a skip marker (`CommitExactly`); for every capacity such a state is
  reachable (`StuckReachable`), and it then lasts in every continuation
  (`StuckForever`);
- a value with an array `[undefined]` inside has the text of another value
  (`HoleCollides`), and such values are the only ones (`CanonicalInjective`);
- `addLeaf` keeps the builder's tree exactly when the first leaf is not the word
  EMPTY (`AddLeaf`), and a proof verifies against the reported root exactly when the
  root hash is not empty (`ProveAndVerify`);
- a failure after an event was buffered queues the event again
  (`LateFailureRepeats`); drafts and events correspond one to one exactly when that
  never happened (`NothingLost`), and nothing is lost in any case (`AtLeastOnce`);
- callers may stamp their own events, and within a millisecond random identifiers
  decide: the ledgers of all runs that save a chain of events, with retention at any
  time, verify exactly when the keys ascend along the chain (`RunsVerifyExactly`,
  `OrderExactly`, `SavedVerifiesExactly`); stamps 5 and 1 are rejected
  (`CallerStampsBreak`, `FallingDraftsRejected`), and so are falling identifiers of one
  millisecond (`IdentifiersBreak`);
- a synchronised ledger verifies for every limit exactly when each stored linked
  CHECKPOINT is signed and, in the order of the keys, each event is followed by a
  truncation, by what was adopted right after it, or is a checkpoint itself
  (`SyncedLedgersVerify`); with ascending keys only the signatures count
  (`SyncedInOrder`), without checkpoints only the order does (`PlainSyncExactly`). An
  unsigned linked checkpoint, a falling stamp and a replayed truncation are each adopted
  and then rejected (`UnsignedCheckpointRejected`, `FallingStampsRejected`,
  `ReplayedTruncationRejected`), while truncations alone may come in any order
  (`TruncationsInAnyOrder`);
- a worker that fails with more than 5000 drafts queued never starts again
  (`DeadForever`), and such a state is reachable (`DeadReachable`); otherwise it starts
  with the next accepted draft (`RestartsExactly`);
- from the 256th share on every share is the secret (`LargeIndexReveals`);
- one root stands for one list of leaves of a given length (`RootBinds`), but an odd list
  shares its root with the one that has its last leaf twice (`OddLastRepeats`);
- a map of capacity zero holds one entry (`BoundedIffPositive`, `RunBound`);
- the persisted counter reaches the count after a flush exactly when no write used up
  its attempts (`FlushDrains`), since `retry` reports exhaustion as a value; a run in
  which that happens is `LostAfterFlush`;
- a secret is safe whatever comes with it exactly when it does not overlap the mark
  (`SafeExactly`): it is not inside the mark or around it, and shares no end with it
  (`OverlapKinds`);
- one record identifier stands for one pid, time and system call where pids and calls are
  written without a dash (`IdExactly`); with a dash in a call it need not (`DashCollides`);
- a file record without a path loses edges, and exactly those (`EdgeExactly`,
  `MissedExample`).

## Model

| member | source | states |
|---|---|---|
| Gf256.NoShortPeriod | src/orchestrator/core/utils/threshold.ts:11-16 | no power of 2 below the 255th returns to 1: 0x11d is primitive |
| Gf256.PowInjective | src/orchestrator/core/utils/threshold.ts:11-16 | the table loop visits 255 different bytes |
| Gf256.LogExists | src/orchestrator/core/utils/threshold.ts:11-16 | every nonzero byte is visited, so every LOG entry is written |
| Gf256.MulPowPow | src/orchestrator/core/utils/threshold.ts:22-24 | the field product of two powers of 2 adds the exponents, as the table lookup does |
| Gf256.MulComm | src/orchestrator/core/utils/threshold.ts:22-24 | multiplication commutes |
| Gf256.MulAssoc | src/orchestrator/core/utils/threshold.ts:22-24 | multiplication is associative |
| Gf256.MulXor | src/orchestrator/core/utils/threshold.ts:22-24 | multiplication distributes over exclusive or |
| Gf256.Div | src/orchestrator/core/utils/threshold.ts:26-29 | for a nonzero divisor there is a quotient: times the divisor it gives the dividend |
| Polynomials.Unique | src/orchestrator/core/utils/threshold.ts:42-55 | k coefficients are determined by the values at k distinct points |
| Polynomials.Interpolate | src/orchestrator/core/utils/threshold.ts:42-55 | any values at k distinct points are those of some k coefficients |
| Polynomials.UniqueFit | src/orchestrator/core/utils/threshold.ts:42-55 | with the constant term prescribed and k-1 nonzero points, exactly one polynomial fits |
| Polynomials.WeightsSum | src/orchestrator/core/utils/threshold.ts:65-78 | the basis values at zero of any distinct points add up to one |
| Polynomials.Lagrange | src/orchestrator/core/utils/threshold.ts:63-80 | the weighted sum of the values of a polynomial at enough distinct points is its constant term |
| Polynomials.EvalIsTermSum | src/orchestrator/core/utils/threshold.ts:49-52 | the loop from the highest coefficient down computes the sum of coefficient i times x to the power i |
| Shamir.Shifted9 | src/orchestrator/core/utils/threshold.ts:14-15 | the nine-bit shift and conditional subtraction of 0x11d is doubling in the field and fits a byte |
| Shamir.FillPowers | src/orchestrator/core/utils/threshold.ts:9-16 | after the loop EXP[j] is the j-th power of 2 and LOG is its inverse |
| Shamir.ExtendPowers | src/orchestrator/core/utils/threshold.ts:17-19 | all 512 EXP entries are the powers of 2 |
| Shamir.Tables.constructor | src/orchestrator/core/utils/threshold.ts:6-20 | the tables are valid after initialisation |
| Shamir.Tables.Multiply | src/orchestrator/core/utils/threshold.ts:22-24 | the lookup, zero cases included, is the carry-less product modulo 0x11d |
| Shamir.Tables.Divide | src/orchestrator/core/utils/threshold.ts:26-29 | it throws exactly on zero, and otherwise the result times the divisor is the dividend |
| Shamir.GfIsField | src/orchestrator/core/utils/threshold.ts:9-29 | bytes with exclusive or and this product satisfy every field law |
| Shamir.Horner | src/orchestrator/core/utils/threshold.ts:48-52 | the inner loop evaluates the polynomial at the share index, and beyond 255, where the tables have no entry, leaves the first coefficient |
| Shamir.FillColumn | src/orchestrator/core/utils/threshold.ts:47-54 | one byte position is filled in every share and nothing else changes |
| Shamir.SplitSecret | src/orchestrator/core/utils/threshold.ts:36-57 | for all n and k: share j has index j+1 and byte i the value there of the polynomial with constant term secret[i] and the drawn coefficients |
| Shamir.SharesAre | src/orchestrator/core/utils/threshold.ts:42-54 | byte i of share x is the sum of the secret byte, the first drawn byte times x, the second times x squared, and so on |
| Shamir.LargeIndexReveals | src/orchestrator/core/utils/threshold.ts:47-54 | every share with an index of 256 or more is the secret itself |
| Shamir.TimesFactor | src/orchestrator/core/utils/threshold.ts:72-74 | one factor of the basis, with division by zero exactly on equal indices |
| Shamir.BasisAt | src/orchestrator/core/utils/threshold.ts:66-76 | the loop ends although its guard does not mention m, throws exactly when another share repeats the index, and otherwise computes the Lagrange basis at zero |
| Shamir.CombineByte | src/orchestrator/core/utils/threshold.ts:64-78 | one byte is recovered exactly when the indices are distinct, as the Lagrange sum |
| Shamir.ReconstructSecret | src/orchestrator/core/utils/threshold.ts:59-82 | which error occurs, exactly when, and every byte of the result as the Lagrange sum of its column |
| Shamir.Recovery | src/orchestrator/core/utils/threshold.ts:36-82 | the Lagrange sum over any k or more distinct shares of a split is the secret byte |
| Shamir.RoundTrip | src/orchestrator/core/utils/threshold.ts:36-82 | splitting and reconstructing from any k or more distinct shares returns the secret, for all coefficients and n <= 255 |
| Shamir.Secrecy | src/orchestrator/core/utils/threshold.ts:42-55 | for any k-1 distinct nonzero indices with any bytes, every secret byte is the constant term of exactly one fitting polynomial |
| Shamir.SplitHides | src/orchestrator/core/utils/threshold.ts:36-57 | for every secret, any k-1 positions and any bytes there, exactly one choice of the drawn bytes gives a split with those shares |
| Shamir.FewSharesSayNothing | src/orchestrator/core/utils/threshold.ts:36-57 | any k-1 shares of a split are those of exactly one split of every other secret, and for the same secret that is the split itself |
| Ring.LeRoundTrip | src/agents/cts_ipc/src/lib.rs:95-106 | a little-endian length is read back |
| Ring.LeOctet | src/agents/cts_ipc/src/lib.rs:95-106 | octet i of a length is its i-th digit to the base 256, lowest first |
| Ring.ReadFirst | src/agents/cts_sec/src/lib.rs:245-306 | at the start of an encoded region the first message is read in full and the rest encodes the others |
| Ring.PlanMeaning | src/agents/cts_ipc/src/lib.rs:60-110 | exactly when `push` writes straight on, starts over behind a marker or refuses, with the u32 arithmetic resolved |
| Ring.ValidatedCapacity | src/agents/cts_sec/src/lib.rs:228-235 | an accepted capacity is positive, fits u32 and lies inside the mapping |
| Ring.Pull | src/agents/cts_sec/src/lib.rs:245-306 | on arbitrary header and data the result is nothing or a non-empty slice inside the mapping and the declared capacity |
| Ring.SliceAt | src/agents/cts_sec/src/lib.rs:289-306 | a length gives no slice exactly when it is zero, does not fit or overflows |
| Ring.CommitTail | src/agents/cts_sec/src/lib.rs:314-362 | on arbitrary contents a changed tail is within the declared capacity and the mapping; an empty ring keeps its tail |
| Ring.PullAnything | src/agents/cts_sec/src/lib.rs:245-306 | on arbitrary contents, exactly when a pull gives a slice and which one, with the overflow checks resolved |
| Ring.CommitAnything | src/agents/cts_sec/src/lib.rs:314-362 | on arbitrary contents, exactly when a commit moves the tail and where to |
| RingProtocol.LayoutFrame | src/agents/cts_ipc/src/lib.rs:91-106 | a write in the free region leaves every outstanding message intact |
| RingProtocol.PushWriteKeeps | src/agents/cts_ipc/src/lib.rs:91-106 | each written octet keeps the invariant, so uncommitted bytes are never overwritten |
| RingProtocol.PushPublishKeeps | src/agents/cts_ipc/src/lib.rs:97-107 | publishing the head appends exactly the written message to the queue |
| RingProtocol.PullMeaning | src/agents/cts_sec/src/lib.rs:245-306 | with any head loaded earlier, a pull returns the oldest message, except when there is none or it is empty |
| RingProtocol.CommitMeaning | src/agents/cts_sec/src/lib.rs:314-362 | the tail a commit stores is the one behind the oldest message, in each layout |
| RingProtocol.StepKeeps | src/agents/cts_ipc/src/lib.rs:60-110 | every step keeps the invariant and is an append, a removal of the oldest message or nothing |
| RingProtocol.RunInvariant | src/agents/cts_ipc/src/lib.rs:60-110 | every reachable state has the layout of a queue |
| RingProtocol.Delivery | src/agents/cts_sec/src/lib.rs:245-362 | in every interleaving the passed messages are the first accepted ones, a held slice has the bytes of the next one, and head and tail stay at most capacity - 4 |
| RingProtocol.CommitPassesHeld | src/agents/cts_sec/src/lib.rs:314-362 | a commit after a pull passes exactly the message held, whatever the producer does meanwhile |
| RingProtocol.InRange | src/agents/cts_ipc/src/lib.rs:91-106 | in a reachable state no index of either side is out of range |
| RingProtocol.EmptyAccepts | src/agents/cts_ipc/src/lib.rs:85-101 | where head and tail meet, exactly which messages are accepted |
| RingProtocol.EmptyAcceptsEverywhere | src/agents/cts_ipc/src/lib.rs:85-101 | a message is accepted at every such place if and only if 2(4+n)+4 <= capacity |
| RingProtocol.PullExactly | src/agents/cts_sec/src/lib.rs:245-306 | over every run a pull ends with a slice exactly when it loaded another head and the next accepted message is not empty |
| RingProtocol.CommitExactly | src/agents/cts_sec/src/lib.rs:314-362 | over every run a commit that loaded another head passes exactly the next message, and keeps the tail exactly when that is empty and behind the marker |
| RingProtocol.RoundPasses | src/agents/cts_sec/src/lib.rs:314-362 | from the load to the store of a commit, with any producer steps between, the next message is passed if there was one and the ring is not stuck |
| RingProtocol.Progress | src/agents/cts_sec/src/lib.rs:314-362 | if no pushed message is empty, every round with messages outstanding passes one more |
| RingProtocol.AllDelivered | src/agents/cts_sec/src/lib.rs:245-362 | after as many rounds as there were messages outstanding, everything accepted by then has been passed, in order |
| RingProtocol.StuckForever | src/agents/cts_sec/src/lib.rs:286-296 | once the oldest message is an empty one behind the marker, at every later point of every run the tail and the passed messages are the same and nothing is held |
| RingProtocol.StuckReachable | src/agents/cts_ipc/src/lib.rs:85-101 | for every capacity such a state is reachable |
| RingProtocol.PushPath | src/agents/cts_ipc/src/lib.rs:60-110 | a whole push is its start, its writes one by one, and the publication of the head |
| RingMemory.SharedRing.Attach | src/agents/cts_ipc/src/lib.rs:39-58 | refused exactly below 32 bytes; otherwise the declared capacity is published and is the one the consumer accepts |
| RingMemory.SharedRing.Push | src/agents/cts_ipc/src/lib.rs:60-110 | the whole new head and data, or no change when refused; the new memory is that of the whole push of the protocol |
| RingMemory.SharedRing.WriteStraight | src/agents/cts_ipc/src/lib.rs:105-106 | two copies equal the octet-by-octet writes of a straight push |
| RingMemory.SharedRing.WriteAround | src/agents/cts_ipc/src/lib.rs:91-96 | marker and message equal the octet-by-octet writes of a push that starts over |
| RingMemory.SharedRing.PullSlice | src/agents/cts_sec/src/lib.rs:245-306 | on any contents null or a non-empty slice inside the mapping; on a queue the bytes of the oldest message, exactly when it is not empty |
| RingMemory.SharedRing.Commit | src/agents/cts_sec/src/lib.rs:314-362 | on any contents the tail stays or lies within the declared capacity and the mapping; on a queue it moves behind the oldest message and the rest is the queue without it, except when stuck |
| Morph.MorphedTwice | src/agents/cts_sec/src/lib.rs:88-91 | masking twice with one key restores the data, for every length of data and key |
| Morph.Obfuscate | src/agents/cts_ipc/src/lib.rs:217-224 | the agents' loop masks byte i with key[i mod key length]; an empty key changes nothing |
| Morph.XorVectors | src/agents/cts_sec/src/lib.rs:96-130 | whole vectors and a remainder give the same mask as the byte loop |
| Morph.FastMorph | src/agents/cts_sec/src/lib.rs:61-92 | whichever path the processor and the key length select, the result is the rolling mask |
| Morph.RoundTrip | src/agents/cts_ipc/src/lib.rs:217-224 | what an agent obfuscates, the orchestrator restores |
| CanonicalJson.SortKeysSorted | src/orchestrator/core/crypto_utils.ts:31 | sorting yields the same keys in strictly ascending order |
| CanonicalJson.BelowMeans | src/orchestrator/core/crypto_utils.ts:31 | the order of the keys: a proper prefix comes first, otherwise the lower character where two keys first differ |
| CanonicalJson.QuoteUnique | src/orchestrator/core/crypto_utils.ts:20 | a quoted string followed by anything determines the string and the rest |
| CanonicalJson.NumberUnique | src/orchestrator/core/crypto_utils.ts:20 | number tokens end where the surrounding grammar says |
| CanonicalJson.Unique | src/orchestrator/core/crypto_utils.ts:11-38 | the text of a value and what follows it determine the value up to member order, and the rest |
| CanonicalJson.TextDetermines | src/orchestrator/core/crypto_utils.ts:11-38 | equal texts if and only if equal up to member order, without the limits |
| CanonicalJson.StringifyMeaning | src/orchestrator/core/crypto_utils.ts:11-38 | the recursive function prints the text within the limits and throws exactly outside them |
| CanonicalJson.ErrorMeans | src/orchestrator/core/crypto_utils.ts:15-35 | the error thrown names a limit that some value inside passes: depth 10, 100 items or 100 members |
| CanonicalJson.LimitsExactly | src/orchestrator/core/crypto_utils.ts:12-35 | a value is within the limits if and only if nowhere in it a depth or breadth is passed |
| CanonicalJson.NestingLimit | src/orchestrator/core/crypto_utils.ts:12-17 | arrays nested in each other are serialized exactly up to depth ten |
| CanonicalJson.CanonicalInjective | src/orchestrator/core/crypto_utils.ts:11-38 | within the limits and without `[undefined]`, the outputs of two values agree if and only if the values agree up to member order |
| CanonicalJson.HoleCollides | src/orchestrator/core/crypto_utils.ts:24-29 | every value with `[undefined]` inside has the output of a different value |
| JsonParser.ValueRead | src/orchestrator/core/crypto_utils.ts:11-38 | a JSON parser reads the text of any value without undefined, in front of whatever may follow, as that value with sorted members, and stops where it ends |
| JsonParser.CanonicalRoundTrip | src/orchestrator/core/crypto_utils.ts:11-38 | the output is a JSON text that is read back as the same value up to member order, with ascending keys in every object |
| Merkle.LevelsShape | src/orchestrator/core/merkle.ts:69-81 | the builder's levels halve down to one node, each the pairing of the one below |
| Merkle.LevelsUnique | src/orchestrator/core/merkle.ts:69-81 | levels of that shape are the builder's levels of their leaves |
| Merkle.RootFromTop | src/orchestrator/core/merkle.ts:63-82 | the builder's tree has the least height with a place for every leaf, and its root is the one defined from the top, left half before right half and an empty right half replaced by the left |
| Merkle.LevelGrows | src/orchestrator/core/merkle.ts:32-46 | changing or adding the last node changes or adds just the last node one level up |
| Merkle.ClimbStep | src/orchestrator/core/merkle.ts:32-46 | one round of the incremental loop repairs one more level |
| Merkle.ClimbEnd | src/orchestrator/core/merkle.ts:48-54 | at the top one or two nodes are left, and the new root level completes the tree |
| Merkle.MerkleTree.constructor | src/orchestrator/core/merkle.ts:11-14 | a new tree is the builder's tree of its leaves |
| Merkle.MerkleTree.BuildTree | src/orchestrator/core/merkle.ts:63-82 | the loops compute the levels, and the placeholder for no leaves |
| Merkle.MerkleTree.PairUp | src/orchestrator/core/merkle.ts:73-78 | one level from the one below, an odd last node paired with itself |
| Merkle.MerkleTree.AddLeaf | src/orchestrator/core/merkle.ts:19-57 | the tree equals the builder's tree of the longer list exactly when there was no leaf or the first is not EMPTY |
| Merkle.MerkleTree.Climb | src/orchestrator/core/merkle.ts:28-54 | the incremental loop and the new root level rebuild every level |
| Merkle.MerkleTree.AddLeaves | src/orchestrator/core/merkle.ts:19-57 | any sequence of additions on any starting tree ends at the builder's tree of the full list |
| Merkle.MerkleTree.GetProof | src/orchestrator/core/merkle.ts:99-119 | the loop collects the sibling on every level, the node itself at an odd end |
| Merkle.ProofFolds | src/orchestrator/core/merkle.ts:99-139 | folding a proof over its leaf gives the root |
| Merkle.Verify | src/orchestrator/core/merkle.ts:124-139 | the loop accepts exactly when the fold is the root |
| Merkle.ProveAndVerify | src/orchestrator/core/merkle.ts:91-139 | a proof verifies against the reported root exactly when the root hash is not empty |
| Merkle.FoldUnique | src/orchestrator/core/merkle.ts:124-139 | with a collision-free pair hash a proof of the tree's height that folds to the root has the leaf at its index and is the tree's own proof |
| Merkle.AcceptedIffProved | src/orchestrator/core/merkle.ts:99-139 | such a proof is accepted if and only if leaf and proof are the tree's |
| Merkle.RootBinds | src/orchestrator/core/merkle.ts:63-94 | with a collision-free pair hash two lists of one length have one root if and only if they are one list |
| Merkle.OddLastRepeats | src/orchestrator/core/merkle.ts:76 | an odd list longer than one has the root of the list with its last leaf twice |
| Merkle.GetMerkleProof | src/orchestrator/domain/analysis/audit_verifier.ts:104-115 | absent exactly when the hash is not among the events; otherwise leaf, index of its oldest occurrence, the root of the tree of all hashes oldest first, and the proof of that tree, of its height, which folds to the root |
| Audit.InputMembers | src/orchestrator/domain/analysis/audit.ts:764-770 | the hash input has ten members, and under each of the ten names that component of the event |
| Audit.HashDeterminesFields | src/orchestrator/core/crypto_utils.ts:43-49 | with a collision-free digest, two events have one hash if and only if they agree on each of the ten components, the free-form ones up to member order |
| AuditVerifier.VerifyChain | src/orchestrator/domain/analysis/audit_verifier.ts:36-99 | valid exactly when every event and every link is right; otherwise the first bad event, and for it exactly when a mismatch, a tampered or an unsigned checkpoint is reported or the serializer throws; what is left is a broken link |
| AuditVerifier.AcceptedForEveryLimit | src/orchestrator/domain/analysis/audit_verifier.ts:36-99 | all limits accept if and only if each stored event is right and links back |
| AuditVerifier.ComputeHashDetermines | src/orchestrator/domain/analysis/audit_verifier.ts:70-76 | the verifier's hash is the same for two events if and only if their hashed fields are |
| AuditVerifier.NewestHashPins | src/orchestrator/domain/analysis/audit_verifier.ts:46-96 | two accepted stretches of one length and newest hash, without checkpoints or truncated links, agree on each of the ten hashed components of every event |
| AuditVerifier.AlterationSeen | src/orchestrator/domain/analysis/audit_verifier.ts:70-85 | an accepted stream with one ordinary event altered and its hash kept is accepted if and only if none of the ten hashed components changed |
| AuditVerifier.ForgedCheckpointSeen | src/orchestrator/domain/analysis/audit_verifier.ts:52-61 | a checkpoint whose signature the module rejects is never accepted, truncation or not |
| AuditVerifier.ChainConcat | src/orchestrator/domain/analysis/audit.ts:757-784 | chains compose at their ends |
| AuditStore.CheckpointAccepted | src/orchestrator/domain/analysis/audit.ts:959-983 | the retention checkpoint passes the verifier, with the signing TPM and without one |
| AuditStore.CheckpointTruncates | src/orchestrator/domain/analysis/audit.ts:959-983 | the checkpoint carries the moment of the purge, the signature of its hash, the truncation mark, and time and hash of the boundary event |
| AuditStore.Store.FindBoundary | src/orchestrator/domain/analysis/audit.ts:946-957 | the scan finds the last of the leading expired events within 10000, and one exists exactly when the oldest is expired |
| AuditStore.Store.PurgeExpired | src/orchestrator/domain/analysis/audit.ts:938-1005 | the new ledger for every point of failure: unchanged, or the checkpoint filed by its key and all, some or none of the expired events deleted; the keys still ascend, and after a full purge nothing is expired |
| AuditStore.PurgeLeaves | src/orchestrator/domain/analysis/audit.ts:985-986 | after a finished purge exactly the checkpoint and the events that are not expired are stored, except one under the key of the checkpoint; after a stopped one at least those |
| AuditStore.Store.SyncEvents | src/orchestrator/domain/analysis/audit.ts:618-709 | the heads and ledgers between the events: each event up to the first that throws is filed by its key and becomes the head exactly when it is adoptable at the head it meets, and otherwise changes nothing; together these are the adopted events |
| AuditStore.CatchesUp | src/orchestrator/domain/analysis/audit.ts:618-709 | a node at any point of a peer's chain that is sent the chain from there or from before skips what it knows and adopts exactly the rest |
| AuditStore.Store.Consider | src/orchestrator/domain/analysis/audit.ts:619-704 | the checks in their order adopt an event exactly when it is hashed right and linked to the head, or a verified truncation |
| AuditStore.SyncKeeps | src/orchestrator/domain/analysis/audit.ts:618-709 | after a batch, each adopted event has its recomputed hash and links to the head of that moment or is a TRUNCATED CHECKPOINT with a verified signature |
| AuditStore.SyncedAllOk | src/orchestrator/domain/analysis/audit.ts:618-709 | the same after any sequence of batches from the empty ledger |
| AuditStore.SyncedLedgersVerify | src/orchestrator/domain/analysis/audit.ts:618-709 | the stored ledger passes the verifier for every limit if and only if its linked checkpoints are signed and in key order every event may follow the one before |
| AuditStore.SyncedInOrder | src/orchestrator/domain/analysis/audit.ts:618-709 | when the keys ascend along the adopted events they are stored as adopted, and the ledger passes if and only if the linked checkpoints are signed |
| AuditStore.PlainSyncExactly | src/orchestrator/domain/analysis/audit.ts:618-709 | without checkpoints and with distinct keys the ledger passes if and only if the keys ascend along the adopted events |
| AuditStore.StoredNext | src/orchestrator/domain/analysis/audit.ts:618-709 | one call after the other makes the ledger of all batches |
| AuditStore.SignedBatchesVerify | src/orchestrator/domain/analysis/audit.ts:618-709 | if the keys ascend along the incoming batches and their linked checkpoints are signed, the ledger passes the verifier for every limit |
| AuditStore.UnsignedCheckpointRejected | src/orchestrator/domain/analysis/audit.ts:694-707 | any unsigned checkpoint linked to the start with its right hash is adopted and then rejected |
| AuditStore.FallingStampsRejected | src/orchestrator/domain/analysis/audit.ts:694-707 | an event stamped before the one it links to is adopted, stored in front of it, and the ledger is rejected |
| AuditStore.ReplayedTruncationRejected | src/orchestrator/domain/analysis/audit.ts:668-707 | a verified truncation sent twice with an event linked to it each time is adopted, overwrites itself, and the ledger is rejected |
| AuditStore.TruncationsInAnyOrder | src/orchestrator/domain/analysis/audit.ts:668-707 | two verified truncations in falling key order are stored and accepted |
| AuditStore.SameKeyMeans | src/orchestrator/infrastructure/persistence/repositories/timeline_repository.ts:8-20 | two events have one key exactly when they have one time and one identifier |
| AuditStore.KeyLaws | src/orchestrator/infrastructure/persistence/repositories/timeline_repository.ts:8-20 | the keys are a strict order |
| Timeline.FileMembers | src/orchestrator/infrastructure/persistence/repositories/timeline_repository.ts:8-20 | a save stores the entry and keeps what has another key |
| Timeline.FileAscending | src/orchestrator/infrastructure/persistence/repositories/timeline_repository.ts:8-20 | and the entries stay in the order of their keys |
| Timeline.FileInOrder | src/orchestrator/infrastructure/persistence/repositories/timeline_repository.ts:21-50 | entries that come in the order of their keys are stored as they come |
| AuditStore.SurvivorsSuffix | src/orchestrator/infrastructure/persistence/repositories/timeline_repository.ts:74-98 | a deletion, stopped after any number, takes expired entries from the front |
| AuditStore.NoneExpired | src/orchestrator/infrastructure/persistence/repositories/timeline_repository.ts:74-98 | a finished deletion leaves no expired entry |
| AuditStore.SurvivorsExactly | src/orchestrator/infrastructure/persistence/repositories/timeline_repository.ts:74-98 | a finished deletion leaves exactly the entries that are not expired |
| AuditStore.KeptInOrder | src/orchestrator/domain/analysis/audit_verifier.ts:46-96 | whatever is kept of a chain and in whatever order, it verifies only as a stretch of the chain |
| AuditStore.FiledExactly | src/orchestrator/infrastructure/persistence/repositories/timeline_repository.ts:21-50 | a saved chain verifies if and only if what is stored is an end piece of it |
| AuditStore.OrderExactly | src/orchestrator/infrastructure/persistence/repositories/timeline_repository.ts:21-50 | under distinct keys: if and only if the keys ascend along the chain |
| AuditRetention.PurgeIsSteps | src/orchestrator/domain/analysis/audit.ts:985-986 | a purge that saves its checkpoint is a checkpoint step and a deletion step, between which others may come |
| AuditRetention.SaveKeeps | src/orchestrator/domain/analysis/audit.ts:871-887 | a batch whose keys ascend from the saved events, filed among checkpoints with any keys, leaves no gap in the stored chain |
| AuditRetention.CheckpointKeeps | src/orchestrator/domain/analysis/audit.ts:959-985 | neither does a checkpoint with any key, even over a stored event |
| AuditRetention.DeleteKeeps | src/orchestrator/domain/analysis/audit.ts:986 | nor a deletion, stopped after any number of events |
| AuditRetention.RunInvariant | src/orchestrator/domain/analysis/audit.ts:938-1005 | in every run of saves, checkpoints and deletions: from any stored event on, every saved one is stored or has a checkpoint over it |
| AuditRetention.LocalLedgersVerify | src/orchestrator/domain/analysis/audit.ts:938-1005 | every ledger of such a run passes the verifier for every limit, if the keys ascend along the saved events |
| AuditRetention.RunsVerifyExactly | src/orchestrator/domain/analysis/audit.ts:938-1005 | all runs that save a chain verify if and only if the keys ascend along it |
| AuditRetention.CallerStampsBreak | src/orchestrator/domain/analysis/audit.ts:760 | two events saved with the stamps 5 and 1 are rejected |
| AuditRetention.IdentifiersBreak | src/orchestrator/domain/analysis/audit.ts:759 | two events of one millisecond with falling identifiers are rejected |
| AuditPipeline.ComputeHashIgnoresSeal | src/orchestrator/domain/analysis/audit.ts:764-770 | the hash does not depend on the hash and signature fields it is stored beside |
| AuditPipeline.StepKeeps | src/orchestrator/domain/analysis/audit.ts:717-887 | every step, failing or not, keeps the invariant of queue, batch, chain, buffer and flush |
| AuditPipeline.RunInvariant | src/orchestrator/domain/analysis/audit.ts:717-887 | the invariant holds throughout every run |
| AuditPipeline.LogExactly | src/orchestrator/domain/analysis/audit.ts:717-742 | exactly which drafts are queued: not those of the audit itself, not above 5000 waiting, and in restricted mode only four kinds; the others change nothing |
| AuditPipeline.PickedEvent | src/orchestrator/domain/analysis/audit.ts:757-770 | the event made of the next draft has its fields, the given identifier, its own timestamp or else the present one, and the head as predecessor |
| AuditPipeline.SealedEvent | src/orchestrator/domain/analysis/audit.ts:770-800 | the signed event is buffered last, becomes the head, has its own hash and the old head as predecessor, and adds a leaf exactly when it is no Merkle commit |
| AuditPipeline.RestrictedRuns | src/orchestrator/domain/analysis/audit.ts:722-725 | a run in restricted mode records only critical events, threats, successes and Merkle commits |
| AuditPipeline.NothingLost | src/orchestrator/domain/analysis/audit.ts:717-887 | saved, in-flight and buffered events are a hash chain ending at lastHash; with the waiting drafts they are the accepted ones in order, if and only if no failure came after buffering |
| AuditPipeline.LateFailureRepeats | src/orchestrator/domain/analysis/audit.ts:787-844 | for every draft there is a run in which it is both recorded and queued again |
| AuditPipeline.SavedBatchContinues | src/orchestrator/domain/analysis/audit.ts:871-887 | each saved batch continues the saved chain |
| AuditPipeline.FlushIsSave | src/orchestrator/domain/analysis/audit.ts:871-887 | each successful flush is a save step of the ledger that retention works on |
| AuditPipeline.SavedVerifies | src/orchestrator/domain/analysis/audit.ts:717-887 | in every run, with any failures: if the keys ascend along the saved events, they are stored in order and pass the verifier for every limit |
| AuditPipeline.SavedVerifiesExactly | src/orchestrator/domain/analysis/audit.ts:717-887 | and only if they do, under distinct keys and hashes |
| AuditPipeline.FallingDraftsRejected | src/orchestrator/domain/analysis/audit.ts:760 | any two drafts stamped in falling order are saved by some run whose ledger is rejected |
| AuditPipeline.RestartsExactly | src/orchestrator/domain/analysis/audit.ts:728-742 | a stopped worker starts exactly when a draft is accepted |
| AuditPipeline.DeadForever | src/orchestrator/domain/analysis/audit.ts:728-742 | a worker stopped with more than 5000 drafts queued stays so at every later point of every run: nothing is accepted or recorded |
| AuditPipeline.DeadReachable | src/orchestrator/domain/analysis/audit.ts:748-850 | for every draft such a state is reachable |
| AuditPipeline.AtLeastOnce | src/orchestrator/domain/analysis/audit.ts:717-887 | in every run, with any failures, each accepted draft is recorded or waiting, in order |
| MerkleBatching.StepConserves | src/orchestrator/domain/analysis/audit.ts:406-471 | each step of appends and overlapping or failing commits keeps the count of every hash |
| MerkleBatching.RunConserves | src/orchestrator/domain/analysis/audit.ts:406-471 | in every run each hash is in exactly one of a handed batch, a batch in flight and the pending list |
| MerkleBatching.RunOrdered | src/orchestrator/domain/analysis/audit.ts:425-431 | without a TPM check the batches keep the order of the events |
| MerkleBatching.OverlapReorders | src/orchestrator/domain/analysis/audit.ts:406-423 | with the check there is a run that hands batches over out of order |
| BoundedMap.RunByRecency | src/orchestrator/core/utils/collections.ts:13-60 | after any run the list is ordered by the last use of each key and holds the last value set |
| BoundedMap.EvictsLeastRecentlyUsed | src/orchestrator/core/utils/collections.ts:21-23 | an eviction removes the key whose last use is the oldest |
| BoundedMap.ApplyLookup | src/orchestrator/core/utils/collections.ts:13-60 | what each operation makes of the value of every key: no other key changes, except the last one when a new key comes into a full map |
| BoundedMap.PresentExactly | src/orchestrator/core/utils/collections.ts:13-60 | after any run a key is there if and only if it was set and since then neither deleted, cleared nor evicted as the one not used for longest |
| BoundedMap.RunBound | src/orchestrator/core/utils/collections.ts:13-60 | no run exceeds the capacity, or one entry at capacity zero |
| BoundedMap.BoundedIffPositive | src/orchestrator/core/utils/collections.ts:13-28 | the capacity bounds every run if and only if it is at least one |
| BoundedMap.BoundedMap.constructor | src/orchestrator/core/utils/collections.ts:6-11 | a new map is well formed and empty |
| BoundedMap.BoundedMap.AddToHead | src/orchestrator/core/utils/collections.ts:64-74 | the pointers form the list with the node in front |
| BoundedMap.BoundedMap.RemoveNode | src/orchestrator/core/utils/collections.ts:76-87 | the pointers form the list without the node, wherever it was |
| BoundedMap.BoundedMap.MoveToHead | src/orchestrator/core/utils/collections.ts:89-92 | the node is in front and the others keep their order |
| BoundedMap.BoundedMap.Evict | src/orchestrator/core/utils/collections.ts:94-99 | the last entry is gone from list and map |
| BoundedMap.BoundedMap.Set | src/orchestrator/core/utils/collections.ts:13-28 | refines the list operation: update and move, or evict at capacity and insert in front |
| BoundedMap.BoundedMap.Get | src/orchestrator/core/utils/collections.ts:30-37 | returns the value of the list and moves a found entry to the front |
| BoundedMap.BoundedMap.Has | src/orchestrator/core/utils/collections.ts:39-41 | agrees with the list |
| BoundedMap.BoundedMap.Delete | src/orchestrator/core/utils/collections.ts:43-50 | removes the entry and reports whether there was one |
| BoundedMap.BoundedMap.Clear | src/orchestrator/core/utils/collections.ts:56-60 | empties the list |
| BoundedMap.BoundedMap.CacheSize | src/orchestrator/core/utils/collections.ts:52-54 | the size is the length of the list |
| RateLimit.Retry | src/orchestrator/core/utils/resilience.ts:33-59 | bounded attempts, the first success, or failure as a value after all attempts failed |
| RateLimit.SyncKeyKeeps | src/orchestrator/domain/identity/rate_limit.ts:89-118 | a sync joins the write in flight or leaves nothing unpushed |
| RateLimit.RequestSyncs | src/orchestrator/domain/identity/rate_limit.ts:164-186 | from half the limit on a request is pushed or has a write in flight, and before that none writes |
| RateLimit.StepKeeps | src/orchestrator/domain/identity/rate_limit.ts:58-196 | every step of requests, writes, refusals and flushes keeps the invariant |
| RateLimit.RunInvariant | src/orchestrator/domain/identity/rate_limit.ts:58-196 | the invariant holds throughout every run |
| RateLimit.NeverOvercounts | src/orchestrator/domain/identity/rate_limit.ts:89-148 | at most one write is unsettled, the persisted counter never exceeds the count, and persisted, pending and lost add up to what was pushed |
| RateLimit.FlushDrains | src/orchestrator/domain/identity/rate_limit.ts:58-81 | after a flush that finished without traffic or an exception since it began, persisted equals count if and only if no delta was lost to exhausted attempts |
| RateLimit.ExhaustedLoses | src/orchestrator/domain/identity/rate_limit.ts:101-111 | from any reachable state three refusals of a write lose its delta, without the rollback |
| RateLimit.LostAfterFlush | src/orchestrator/domain/identity/rate_limit.ts:58-148 | a reachable state with a finished flush, count one and nothing persisted |
| Redactor.ReplaceKeepsOut | src/orchestrator/core/utils/security.ts:34-39 | replacing one secret removes it and brings in no other that does not overlap the mark, inside or across marks |
| Redactor.NoSecretLeft | src/orchestrator/core/utils/security.ts:31-41 | for every text, every list of secrets and every place in it, a secret that does not overlap the mark is not in the output |
| Redactor.CleanTextKept | src/orchestrator/core/utils/security.ts:31-41 | a text without secrets is unchanged |
| Redactor.Cut | src/orchestrator/core/utils/security.ts:36-38 | every text is cut into what lies between the matches of a secret, taken from the left |
| Redactor.ReplacePieces | src/orchestrator/core/utils/security.ts:36-38 | replacement keeps every such piece and puts one mark for each match |
| Redactor.MarkReveals | src/orchestrator/core/utils/security.ts:34-39 | a secret that is part of the mark is in every output in which some secret was replaced, if the later ones do not overlap the mark |
| Redactor.MarkOutlasts | src/orchestrator/core/utils/security.ts:34-39 | a mark outlasts the replacement of secrets that do not overlap it |
| Redactor.OverlapReappears | src/orchestrator/core/utils/security.ts:34-39 | however a secret overlaps the mark, a later secret standing where the mark would complete it brings it back |
| Redactor.SafeExactly | src/orchestrator/core/utils/security.ts:31-41 | a secret is in no output, for all texts and all secrets registered after it, if and only if it does not overlap the mark |
| Redactor.OverlapKinds | src/orchestrator/core/utils/security.ts:38 | the overlaps are: inside the mark, around it, ending into it, starting from it |
| Redactor.BareIsApart | src/orchestrator/core/utils/security.ts:22-24 | a registered secret without brackets that is not the word REDACTED does not overlap |
| Redactor.RegisteredAre | src/orchestrator/core/utils/security.ts:18-26 | a value is registered if and only if it has eight characters or more and belongs to one of the four keys |
| Redactor.SecretRedactor.constructor | src/orchestrator/core/utils/security.ts:8-12 | exactly the long enough values of the sensitive keys are registered |
| Redactor.SecretRedactor.UpdateSecrets | src/orchestrator/core/utils/security.ts:18-26 | adds exactly those values, each once, and forgets none |
| Redactor.SecretRedactor.Redact | src/orchestrator/core/utils/security.ts:31-41 | the loop is the sequence of replacements; no secret is left that does not overlap the mark, in particular none without brackets other than REDACTED; clean text is kept |
| CausalGraph.BuildNodes | src/orchestrator/domain/analysis/causal_graph_service.ts:58-71 | one node per identifier, made from the first record that has it |
| CausalGraph.IdExactly | src/orchestrator/domain/analysis/causal_graph_service.ts:136-138 | without dashes in pids and calls two records share an identifier if and only if they share pid, timestamp and system call |
| CausalGraph.DashCollides | src/orchestrator/domain/analysis/causal_graph_service.ts:136-138 | a dash in the call makes records of different times share an identifier |
| CausalGraph.BuildIndexes | src/orchestrator/domain/analysis/causal_graph_service.ts:73-94 | each index files exactly the nodes with the key |
| CausalGraph.Candidates | src/orchestrator/domain/analysis/causal_graph_service.ts:97-118 | the three lookups offer exactly the candidate children, each once |
| CausalGraph.EdgeExactly | src/orchestrator/domain/analysis/causal_graph_service.ts:96-157 | a pair gets an edge if and only if it is related and is not missed: a file without a path and a process with the same missing path that does not name it as parent |
| CausalGraph.EdgesAre | src/orchestrator/domain/analysis/causal_graph_service.ts:96-157 | the edges in terms of the records: unless the child is dated earlier, to a record that names the pid as parent, and from a record that is no network or file event to the network events of its pid |
| CausalGraph.PathIndexEmpty | src/orchestrator/domain/analysis/causal_graph_service.ts:89-118 | the path index never holds a node, so its lookup finds nothing |
| CausalGraph.CompleteExactly | src/orchestrator/domain/analysis/causal_graph_service.ts:96-157 | the edges are the related pairs if and only if no related pair is of that kind |
| CausalGraph.CompleteWithPaths | src/orchestrator/domain/analysis/causal_graph_service.ts:96-157 | with a path on every file record the edges are exactly the ordered pairs of distinct related nodes |
| CausalGraph.MissedExample | src/orchestrator/domain/analysis/causal_graph_service.ts:113-118 | a related pair that gets no edge |
| CausalGraph.CausalGraph.constructor | src/orchestrator/domain/analysis/causal_graph_service.ts:58-130 | child lists hold each found edge once, parent lists hold them in node order |
| CausalGraph.CausalGraph.Connect | src/orchestrator/domain/analysis/causal_graph_service.ts:96-128 | the outer loop connects every node |
| CausalGraph.CausalGraph.Link | src/orchestrator/domain/analysis/causal_graph_service.ts:120-127 | the inner loop adds the edges of one node to both lists |
| CausalGraph.ParentIdsMeaning | src/orchestrator/domain/analysis/causal_graph_service.ts:124-125 | a node is in the parent list exactly when it has an edge to the child |
| CausalGraph.ParentIdsOnce | src/orchestrator/domain/analysis/causal_graph_service.ts:124-125 | and it is there once |
| CausalGraph.Mirror | src/orchestrator/domain/analysis/causal_graph_service.ts:124-125 | child lists mirror parent lists |

## Left out

- Shamir.RoundTrip: n <= 255 and k >= 1, as the share format needs; the random coefficients are a parameter.
- Shamir.ReconstructSecret: requires byte indices, and every share to be at least as long as the first, since a missing table entry or byte reads as undefined in the source.
- Ring.PlanMeaning: capacity at most 2^31 and messages below 2^32 - 4 octets, so that u32 sums do not wrap; larger mappings are not created.
- RingMemory.SharedRing.Push: head and tail are taken as the protocol keeps them, at most capacity - 4; a corrupted header is covered on the consumer side only.
- RingMemory.SharedRing.Commit: what it says about a queue takes the declared capacity to be that of the mapping, as `Attach` publishes it.
- Memory ordering of the atomics: loads and stores are sequentially consistent here, where the source uses acquire and release.
- CanonicalJson.CanonicalInjective: number tokens are given as printed, so NaN and -0 are outside it; strings are sequences of characters, so lone surrogates and the sort order of astral characters are not modelled.
- Merkle.MerkleTree.AddLeaf: additions are sequential; two that overlap at an await are not modelled.
- Merkle.MerkleTree.AddLeaves: stops at a second leaf after a first one EMPTY, where `AddLeaf` states that the builder's tree is lost.
- AuditRetention.LocalLedgersVerify: requires the keys to ascend along the saved events, the exact condition above; timestamps that are no date, and the annotations stored under the same prefix, are not modelled.
- AuditPipeline.SavedVerifies: `saveMany` is all or nothing, where the repository commits chunks of 100; a chunk that was saved before a failure is overwritten with the same events when the flush is repeated.
- AuditRetention.RunsVerifyExactly: takes the hashes of the chain to be distinct and other than GENESIS and TRUNCATED, and the keys to be distinct, as random identifiers are; `FiledExactly` covers equal keys.
- AuditStore.SyncedLedgersVerify: takes equal hashes to be those of one event; synchronisation and local appends are separate runs, as both move the head.
- The checkpoint's own hash: the verifier does not recompute it, so it is a parameter; whether a peer would adopt a retention checkpoint is not claimed, because the two hash inputs differ in their keys.
- `startLedgerWatcher` and `healDevChainBoundary`: they move the head from outside the append path.
- JsonParser.CanonicalRoundTrip: values without undefined, since a text with the word undefined is no JSON; the parser takes a number token as a run of number characters, a superset of the grammar.
- AuditPipeline.RunInvariant: drafts of type CHECKPOINT are left out, as no caller logs one; the audit service is a state machine over its fields and not a class, since its methods are suspended at awaits; the sanitising of event data, the mirror to WORM storage and the broadcasts do not touch the modelled fields.
- RateLimit.FlushDrains: one key, one window and one node; a commit that takes effect but reports failure is not modelled.
- The allow decision of `checkLimit` and the window change: a comparison of the local count, which the model keeps, with the limit.
- Redactor.SecretRedactor.Redact: only strings; the traversal of objects in `redactObject` maps it over the leaves.
- BoundedMap.BoundedMap.Get: a stored undefined value is not distinguished from a missing one in the source; the model keeps them apart. The iterators are not modelled.
- CausalGraph.CausalGraph.constructor: the order inside a child list follows the indexes and is not specified; selecting the records of a root process comes before it and is not modelled; number and date conversions are parameters.
- Morph.FastMorph: a null key pointer is an empty key.
- `LedgerService`, governance, health, registry, correlation scores, feeds, the pcapng writer and the user interface: short properties or input and output.
