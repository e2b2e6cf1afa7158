# Obscura verification model

A Dafny model of the authenticated data structures of the Obscura rollup and of the on-chain
modules that rely on them, with proofs of what they promise.

| file | contents |
|---|---|
| `ByteStrings.dfy` | bytes, digests, u64 arithmetic, what a hash collision is |
| `MerkleTree.dfy` | one theory of binary Merkle trees: honest paths, soundness, binding |
| `CommitmentTree.dfy` | the incremental commitment tree, the full rebuild, the path verifier |
| `ShieldedPool.dfy` | the privacy module: specification steps and the class that implements them |
| `BridgeKeys.dfy`, `Bridge.dfy` | the bridge module and its string keys |
| `Rollup.dfy` | calls as transactions over both modules |
| `Runs.dfy` | what every run of calls keeps |
| `DigestOrder.dfy`, `Sanctions.dfy` | the sorted sanctions tree and its non-membership circuit |
| `Ssz.dfy` | SSZ roots and branches on the host and in the circuit |
| `Rlp.dfy`, `HexPrefix.dfy`, `Mpt.dfy` | RLP, hex-prefix paths and the Merkle-Patricia verifier |
| `NoteEncryption.dfy` | note cipher, MAC and byte formats |

## How it is modelled

- Hash functions are parameters, so each theorem holds for every function from byte strings to
  32-byte digests. Nothing is assumed injective. A soundness theorem concludes with its claim
  or with a collision, and the collision is the value of a named function of the inputs
  (`PathCollision`, `RootCollision`, `MptCollision`, `WitnessCollision`, ...): that some
  collision exists somewhere would be true of any hash function and say nothing.
- The two modules are classes with the source's fields. `Valid` ties the derived fields (root,
  cached subtrees, counters, root ring, string-keyed maps, withdrawal map) to a small abstract
  state, and each handler is proved against a step of that state. `Runs.dfy` reasons about
  sequences of steps of the combined system, and `Rollup.Replay` connects the two.
- Functions that several statements go through (node hashes, address hashes, leaf and note
  layouts, keystream, RLP headers) are each tied to bytes by a lemma that does not mention them
  (`...InBytes`, `...Exactly`).
- A call runs on a working copy of the state and is kept only if it succeeds, which is how the
  runtime reverts failed transactions.
- Proof verification, the current time and the ephemeral encryption secrets are inputs. The
  tree depth is a parameter; the deployed value is 20.
- u64 sums of amounts and event counts wrap as in a release build. The leaf index and the root
  counter are bounded by the tree's capacity and the withdrawal id by the number of claims, so
  these are plain naturals.
- In the circuit's RLP decoder a usize has 32 or 64 bits, lengths wrap, and a slice out of
  order or a loop that cannot advance is the outcome `Aborted`.

## Where code and documentation differ

The model follows the code.

- The comment at `crates/privacy/src/merkle.rs:45` calls the empty leaf SHA256 of 32 zero
  bytes; the code uses the 32 zero bytes themselves (`CommitmentTree.EmptyRoot`).
- `crates/privacy/src/lib.rs:411-412` reserves new sanctions roots for the designated oracle.
  Nothing ever stores an oracle, so every sender may post any root
  (`Runs.AnySenderPostsSanctionsRoot`); the promise holds exactly where a non-empty oracle is
  stored (`Runs.OnlyOraclePostsExactly`).
- `crates/privacy/src/lib.rs:307-308` wants the root of a transfer in the history. The zero root
  skips that check, and one nullifier may occur twice inside one transfer
  (`Runs.ZeroRootAndRepeatedNullifier`). `Runs.TransferAcceptedExactly` gives the exact
  condition; the disjointness of `Runs.NoDoubleSpend` is between different accepted calls.
- `decode_hp` takes every flag nibble from 2 to 15 for a leaf; the Yellow Paper, Appendix C,
  knows only 2 and 3. `HexPrefix.HpCanonical` says which inputs are canonical.
- The Merkle-Patricia verifier does not check the hash of a node under 32 bytes. For a value of
  30 bytes or more that does no harm (`Mpt.LongValueIsSafe`), and
  `crates/provers/sp1/guest-bridge/src/bin/eth_deposit.rs:111-132` passes only such values. For
  shorter ones `Mpt.ShortLeafReplacesValue` is a failure, and `Mpt.VerifierIsExact` the exact
  condition.

## Model

| member | source | states |
|---|---|---|
| MerkleTree.HonestPathAccepted | crates/privacy/src/merkle.rs:75-95 | completeness of the path verifier: the honest sibling path of every leaf leads to the root |
| MerkleTree.AcceptedPathIsHonest | crates/privacy/src/merkle.rs:75-95 | soundness: a path that reaches the root is the honest path, leaf and siblings, of the leaf at its index mod 2^depth, or the named search returns a collision |
| MerkleTree.RootBindsLeaves | crates/zk-bridge/src/beacon_api.rs:528-539 | equal roots over equally many leaves have equal leaves, or a named collision |
| MerkleTree.HashPairs | crates/zk-bridge/src/beacon_api.rs:483-487 | one pairing pass turns a level of the tree into the level above |
| MerkleTree.LevelSibling | crates/sanctions-oracle/src/lib.rs:123-131 | on a level-by-level walk up, the flipped index holds the honest sibling of every level |
| MerkleTree.FoldPath | crates/privacy/src/merkle.rs:81-92 | the verifier's loop computes the path root, whatever the index and the number of siblings |
| MerkleTree.PairRootInBytes | crates/privacy/src/merkle.rs:33-55 | every root in bytes: no leaf is 32 zero bytes, one leaf is itself, and a tree of 2^(d+1) leaves is the hash of its left half's root followed by its right half's; this fixes every root the pool and the SSZ code store |
| MerkleTree.TwoLeafRoot | crates/privacy/src/merkle.rs:33-40 | two leaves are hashed left, then right |
| CommitmentTree.ZeroValue | crates/privacy/src/merkle.rs:49-55 | `zero_value(l)` is the root of an all-padding subtree with 2^l leaves |
| CommitmentTree.EmptyRoot | crates/privacy/src/merkle.rs:57-60 | `empty_root` is the root of the tree over no commitments |
| CommitmentTree.Verify | crates/privacy/src/merkle.rs:77-94 | `verify` accepts exactly the proofs with one sibling a level whose path root is the stated root |
| CommitmentTree.VerifiedLeafIsCommitted | crates/privacy/src/merkle.rs:77-94 | a leaf verified against the root over n commitments is the commitment at `leaf_index` mod 2^depth, or the zero leaf past the end, or there is a named collision |
| CommitmentTree.VerifiesExactly | crates/privacy/src/merkle.rs:75-95 | against the root over n commitments `verify` accepts, for every u64 index, the honest path of the leaf at the index mod 2^depth and, named collisions apart, nothing else |
| CommitmentTree.ComputeInsert | crates/privacy/src/merkle.rs:106-131 | the loop and its update list compute the recursive insertion, for any cache |
| CommitmentTree.InsertRefinesRebuild | crates/privacy/src/merkle.rs:99-131 | from a cache satisfying the binary-counter invariant, the O(depth) insert returns the root of the full tree over all leaves and restores the invariant |
| CommitmentTree.InsertFilledAt | crates/privacy/src/merkle.rs:115-128 | which cache slots an insertion rewrites (the levels where the index bit is 0) and with which tree node |
| CommitmentTree.HeapHoldsTree | crates/privacy/src/merkle.rs:151-156 | in the heap layout, slot 2^(d-l) + j holds node j of level l |
| CommitmentTree.BuildHeap | crates/privacy/src/merkle.rs:138-156 | filling and hashing the array in place yields that heap |
| CommitmentTree.BuildProofPaths | crates/privacy/src/merkle.rs:133-171 | the full rebuild returns the honest sibling path of every leaf |
| CommitmentTree.RebuiltPathVerifies | crates/privacy/src/merkle.rs:137-171 | every rebuilt path passes `verify` against the root over the same list |
| ShieldedPool.Pool.constructor | crates/privacy/src/lib.rs:143-165 | genesis establishes the tree invariant for the empty list |
| ShieldedPool.CommitmentBindsNote | crates/privacy/src/types.rs:18-33 | two well-formed notes with one commitment are the same note, or their hash inputs collide |
| ShieldedPool.CommitmentInBytes | crates/privacy/src/types.rs:18-33 | a digest is a note's commitment exactly when the note has an amount and a 32-byte owner key and the digest is the hash of the amount in eight little-endian bytes, asset, owner and salt |
| ShieldedPool.Pool.InsertCommitment | crates/privacy/src/lib.rs:192-238 | inserts fail exactly when the tree is full; otherwise root, cached subtrees, counters and root ring describe the list with one leaf more |
| ShieldedPool.RingRecords | crates/privacy/src/lib.rs:228-232 | recording a root at slot count mod 100 keeps every root of the last 100 insertions at its slot |
| ShieldedPool.Pool.IsKnownRoot | crates/privacy/src/lib.rs:241-255 | true exactly for the roots after insertion k with max(1, n-99) <= k <= n |
| ShieldedPool.Pool.HandleShield | crates/privacy/src/lib.rs:259-297 | the fields after an accepted shield are those of the specification step; errors are the same in the same order |
| ShieldedPool.Pool.HandleTransfer | crates/privacy/src/lib.rs:301-409 | the same for transfers: all checks first, then nullifiers, outputs and counters |
| ShieldedPool.Pool.HandleUnshield | crates/privacy/src/lib.rs:437-476 | the same for unshield, with the saturating supply |
| ShieldedPool.Pool.HandleUpdateSanctionsRoot | crates/privacy/src/lib.rs:413-433 | the same for the sanctions root |
| BridgeKeys.DepositKeyInjective | crates/zk-bridge/src/module.rs:483-487 | the anti-replay key determines contract and deposit id |
| BridgeKeys.WithdrawalKeyInjective | crates/zk-bridge/src/module.rs:329 | the `wd_` key determines the deposit id |
| BridgeKeys.KeyFamiliesDisjoint | crates/zk-bridge/src/module.rs:238-330 | no deposit key is a withdrawal key |
| BridgeKeys.BlockKeyInjective | crates/zk-bridge/src/module.rs:433 | the finalized-block key determines the block hash |
| BridgeKeys.HexAt | crates/zk-bridge/src/module.rs:433 | hex text is two lower-case digits a byte, high half first |
| BridgeKeys.DecimalReads | crates/zk-bridge/src/module.rs:329 | a decimal number has no leading zero and reads back as the number |
| BridgeKeys.KeysInText | crates/zk-bridge/src/module.rs:485-487 | deposit, withdrawal and block keys as text: prefix, separator, hex and decimal parts |
| Bridge.MarkClaim | crates/zk-bridge/src/module.rs:266-268 | marking a claim in the shared string map adds exactly that id to the claimed set and leaves the withdrawn set alone |
| Bridge.MarkWithdrawal | crates/zk-bridge/src/module.rs:340-352 | marking a withdrawal adds exactly that id to the withdrawn set and leaves the claimed set alone |
| Bridge.RecordFinalized | crates/zk-bridge/src/module.rs:431-434 | the hex-keyed map of finalized blocks refines the map keyed by hash |
| Bridge.BridgedUsdcText | crates/zk-bridge/src/module.rs:279 | the bridged asset's id is the ASCII text bridged-usdc-obscura-network-v01 |
| Bridge.Bridge.HandleClaimDeposit | crates/zk-bridge/src/module.rs:210-311 | claims follow the specification step on bridge and pool together, with the same error order |
| Bridge.Bridge.HandleWithdrawBridge | crates/zk-bridge/src/module.rs:313-377 | withdrawals append one numbered record for the claimed amount |
| Bridge.Bridge.HandleUpdateHeliosHead | crates/zk-bridge/src/module.rs:379-459 | head updates follow the specification step |
| Rollup.Runtime.Execute | crates/stf/stf-declaration/src/lib.rs:42-45 | a call either takes its whole effect or, on any error, leaves every field of both modules as it was |
| Rollup.Replay | crates/stf/stf-declaration/src/lib.rs:34-45 | the states the runtime reaches from genesis are the states of runs |
| Runs.RunHasHistory | crates/privacy/src/lib.rs:259-476 | after every run, pool and bridge are what the list of accepted calls says: leaves in order, spent set, counters, claims, records, heads |
| Runs.CommitmentsAreInsertions | crates/privacy/src/lib.rs:268-272 | the commitments after any run are those of the accepted shields, transfer outputs and claims, in order and number, within capacity |
| Runs.DeployedPoolIsBounded | crates/privacy/src/merkle.rs:26-27 | at depth 20 the pool never holds more than 1,048,576 notes |
| Runs.NoDoubleSpend | crates/privacy/src/lib.rs:359-373 | nullifier sets of two accepted calls are disjoint in every run, and the spent set is the union of the accepted sets |
| Runs.RootStaysKnown | crates/privacy/src/lib.rs:225-255 | a root stays known through the next 99 insertions, whatever calls make them |
| Runs.RootIsForgotten | crates/privacy/src/lib.rs:225-255 | after 100 further insertions a root is known only through a named collision, or if all commitments up to some later root are the zero digest |
| Runs.EveryNoteIsSpendable | crates/privacy/src/merkle.rs:137-171 | in every reachable state each commitment's rebuilt path verifies against the current root, which the pool accepts through the next 99 insertions |
| Runs.TransferRootsAreCurrent | crates/privacy/src/lib.rs:307-354 | an accepted transfer names the zero root or one of the last 100 roots of the list, the sanctions root posted last when that is not zero, and a sanctions proof at most a day old when it carries a time |
| Runs.AnsweredByFirstFault | crates/zk-bridge/src/module.rs:210-430 | after any run, every call to either module is accepted exactly when nothing in the accepted calls before it speaks against it, and is otherwise refused for the first fault in the handler's order |
| Runs.ShieldAcceptedExactly | crates/privacy/src/lib.rs:259-297 | after any run, exactly the shields with an amount, a 32-byte owner key and room in the tree are accepted |
| Runs.TransferAcceptedExactly | crates/privacy/src/lib.rs:301-387 | after any run, the exact condition for accepting a transfer in terms of the calls before it: root zero or known, verdicts, sanctions root, freshness, nullifiers unspent as a set, room in the tree |
| Runs.UnshieldAcceptedExactly | crates/privacy/src/lib.rs:437-476 | after any run, exactly the unshields with a good proof and a nullifier no accepted call has spent are accepted |
| Runs.ClaimAcceptedExactly | crates/zk-bridge/src/module.rs:210-311 | after any run, exactly the claims are accepted that carry a good proof, an amount, a recipient and the configured contract, name a deposit no accepted claim has named and, once a slot is trusted, a block some accepted update has named, and find room in the tree |
| Runs.WithdrawAcceptedExactly | crates/zk-bridge/src/module.rs:313-377 | after any run, exactly the deposits claimed and not yet withdrawn can be withdrawn |
| Runs.HeliosAcceptedExactly | crates/zk-bridge/src/module.rs:379-459 | after any run, exactly the updates with a good proof that name the last root, a later slot and, once a slot is trusted, one within the gap are accepted |
| Runs.ZeroRootAndRepeatedNullifier | crates/privacy/src/lib.rs:309-368 | a concrete transfer accepted at genesis that names the zero root, which is not known, and one nullifier twice |
| Runs.AnySenderPostsSanctionsRoot | crates/privacy/src/lib.rs:413-435 | over every run no oracle is stored, so a new sanctions root is accepted from every sender and takes effect |
| Runs.OnlyOraclePostsExactly | crates/privacy/src/lib.rs:413-424 | in any state the promise that only the oracle may post a root holds if and only if a non-empty oracle is stored |
| Runs.ComplianceCounters | crates/privacy/src/lib.rs:389-398 | the counters are the number and total volume of accepted transfers, modulo 2^64 |
| Runs.SupplyIsConserved | crates/privacy/src/lib.rs:280-287 | over every run: supply + withdrawn + 2^64 * wraps = deposited + clipped, for every asset |
| Runs.SupplyCoversDeposits | crates/privacy/src/lib.rs:458-465 | the supply is at least deposits less withdrawals exactly when clipping makes up for every wrap-around; while no addition has wrapped it is, with equality exactly when no unshield was clipped; below 2^64 in deposits none wraps |
| Runs.BridgeIsSolvent | crates/zk-bridge/src/module.rs:286-287 | totals are the sums of claimed amounts and of records modulo 2^64; withdrawn never exceeds claimed; no withdrawn overflow unless the bridged total overflows |
| Runs.RecordsMatchClaims | crates/zk-bridge/src/module.rs:340-355 | records are numbered 0, 1, 2, ... for distinct claimed deposits, each for its claimed amount |
| Runs.NoReplay | crates/zk-bridge/src/module.rs:237-244 | no deposit is claimed by two accepted calls nor withdrawn by two |
| Runs.NoClaimedAmountIsUnreachable | crates/zk-bridge/src/module.rs:334-338 | the zero-amount check of a withdrawal never fires in a reachable state |
| Runs.HeadChain | crates/zk-bridge/src/module.rs:387-438 | accepted updates link root to root with increasing slots; s0 + k <= slot <= s0 + k * gap (upper bound when s0 > 0); finalized slots lie in (s0, slot]; the counter is k |
| Runs.ClaimNamesFinalizedBlock | crates/zk-bridge/src/module.rs:246-260 | while the trusted slot is positive, an accepted claim names the execution block of an earlier accepted update |
| DigestOrder.Trichotomy | crates/sanctions-oracle/src/lib.rs:89-91 | the byte-wise order on hashes is a strict total order |
| DigestOrder.LessAtFirstDifference | crates/sanctions-oracle/src/lib.rs:90 | the order of digests is decided by the first byte that differs |
| DigestOrder.SortCorrect | crates/sanctions-oracle/src/lib.rs:89-90 | sorting yields a sorted permutation |
| DigestOrder.DedupCorrect | crates/sanctions-oracle/src/lib.rs:91 | dedup of a sorted list is strictly sorted with the same members and the same first element |
| DigestOrder.PartitionPoint | crates/sanctions-oracle/src/lib.rs:148-149 | binary search finds the number of elements below a hash |
| Sanctions.LeavesAreSorted | crates/sanctions-oracle/src/lib.rs:85-96 | the padded leaf list is sorted, starts at the minimum, ends at the maximum, and holds exactly the address hashes and the sentinels |
| Sanctions.PaddingIsLeast | crates/sanctions-oracle/src/lib.rs:85-96 | the distinct hashes come first, strictly sorted, padded with the maximum to the least power of two |
| Sanctions.TreeRootInBytes | crates/sanctions-oracle/src/lib.rs:63-76 | leaf and node hashes in bytes: leaf and node tags, left half before right half, padding with the leaf of 32 bytes 255 |
| Sanctions.HashedIsListed | crates/sanctions-oracle/src/lib.rs:56-91 | the tree holds the hash of every listed address; the hash of any other address is in it only through a named collision or as a sentinel |
| Sanctions.Build | crates/sanctions-oracle/src/lib.rs:81-116 | `build` returns that list, the exact power-of-two depth and every level of the tree |
| Sanctions.TreeRoot | crates/sanctions-oracle/src/lib.rs:118-121 | `root` is the depth-d root over the leaves |
| Sanctions.InclusionProof | crates/sanctions-oracle/src/lib.rs:123-137 | `inclusion_proof` returns the honest path |
| Sanctions.InclusionProofVerifies | crates/sanctions-oracle/src/lib.rs:290-309 | every leaf's proof recomputes to the root, at every depth |
| Sanctions.VerifyMerkleProof | crates/provers/sp1/guest-privacy/src/bin/sanctions.rs:75-98 | the circuit's loop decides proof acceptance |
| Sanctions.NonMembershipWitness | crates/sanctions-oracle/src/lib.rs:141-176 | refuses every listed address, and any other only through a named collision or a sentinel; succeeds exactly when the address hash is not a leaf; the second error is unreachable; the circuit accepts the witness |
| Sanctions.IsSanctioned | crates/sanctions-oracle/src/lib.rs:178-182 | true for every listed address, and for any other only through a named collision or a sentinel; that is, exactly when no witness can be had |
| Sanctions.AcceptedProofOpensLeaf | crates/provers/sp1/guest-privacy/src/bin/sanctions.rs:77-98 | an accepted proof of any length opens the leaf at its index, or a named collision: tags keep leaves and nodes apart |
| Sanctions.AcceptedRecipientIsNotListed | crates/provers/sp1/guest-privacy/src/bin/sanctions.rs:100-148 | if the circuit accepts a witness against the root of a list, with any depth and indices, the recipient is not on the list, or the witness contains a named SHA-256 collision |
| Sanctions.CircuitIsExact | crates/provers/sp1/guest-privacy/src/bin/sanctions.rs:100-148 | against the root of a list the circuit accepts the honest witnesses around the recipient's hash (depth, neighbouring indices, leaves, paths) and, named collisions apart, no other |
| Ssz.MerkleRootVec | crates/zk-bridge/src/beacon_api.rs:528-539 | the host loop computes the depth-d root of 2^d leaves |
| Ssz.MerkleBranch | crates/zk-bridge/src/beacon_api.rs:469-492 | the host loop returns the honest sibling branch |
| Ssz.VerifyMerkleBranch | crates/provers/sp1/guest-helios/src/ssz.rs:129-150 | the circuit loop decides branch acceptance by the bits of the leaf index; past 64 levels the masked shift reads them over again |
| Ssz.LevelBitInIndex | crates/provers/sp1/guest-helios/src/ssz.rs:140-141 | the bit that decides a level is that of weight 2^(level mod 64) in the leaf index |
| Ssz.HostBranchIsAccepted | crates/zk-bridge/src/beacon_api.rs:473-539 | for every power-of-two array and index the host's branch passes the circuit's check against the host's root |
| Ssz.AcceptedLeafIsAtIndex | crates/provers/sp1/guest-helios/src/ssz.rs:111-150 | conversely an accepted leaf and branch are the honest ones at that index, or a named collision |
| Ssz.SszByteListRoot | crates/zk-bridge/src/beacon_api.rs:508-526 | padded chunks with the length mixed in, chunks past the buffer being dropped |
| Ssz.ByteListRootInBytes | crates/zk-bridge/src/beacon_api.rs:521-525 | the chunk root is hashed before the length leaf |
| Ssz.ChunkBytes | crates/zk-bridge/src/beacon_api.rs:513-520 | byte j of the data is byte j mod 32 of chunk j / 32, and the last chunk ends in zeros |
| Ssz.Uint64LeafInBytes | crates/zk-bridge/src/beacon_api.rs:629-633 | a u64 leaf is eight little-endian bytes and 24 zeros |
| Ssz.ByteListRootBinds | crates/zk-bridge/src/beacon_api.rs:508-526 | a list root binds contents and length together, or a named collision |
| Ssz.SszExecutionPayloadRoot | crates/zk-bridge/src/beacon_api.rs:401-467 | rejects exactly the malformed lengths; otherwise root and 32 leaves, leaves 17 to 31 zero |
| Ssz.PayloadLeafAt | crates/zk-bridge/src/beacon_api.rs:401-470 | the 17 fields at leaves 0 to 16, block hash at 12 |
| Ssz.PayloadRootBinds | crates/zk-bridge/src/beacon_api.rs:401-467 | headers with one payload root agree on all 17 fields, or a named collision in tree, bloom or extra data |
| Ssz.BuildExecWitness | crates/zk-bridge/src/beacon_api.rs:346-356 | every witness built proves the block hash at leaf 12, depth 5 |
| Ssz.ProvenBlockHashIsInHeader | crates/provers/sp1/guest-helios/src/bin/helios_step.rs:166-177 | a block hash proven against a header's payload root is that header's, or a named collision |
| Ssz.MerkleRoot8IsRoot | crates/provers/sp1/guest-helios/src/ssz.rs:56-68 | the circuit's fixed 8-leaf tree is the depth-3 tree |
| Ssz.HashTreeRootBeaconHeader | crates/provers/sp1/guest-helios/src/ssz.rs:42-54 | fills five leaves of eight and returns their depth-3 root |
| Ssz.HeaderRootInBytes | crates/provers/sp1/guest-helios/src/ssz.rs:42-71 | the header root hash by hash: slot and proposer in little endian, the three roots, three zero leaves |
| Ssz.BeaconRootBinds | crates/provers/sp1/guest-helios/src/ssz.rs:31-54 | a beacon root binds slot, proposer and three roots, or a named collision |
| Ssz.CommittedBlockHashIsInBlock | crates/provers/sp1/guest-helios/src/bin/helios_step.rs:150-185 | the committed outputs hang together: if the committed beacon root is that of a block, the committed block hash is the one in its execution payload, through header, body branch and payload branch, or there is a named collision |
| Ssz.BlockWitnessIsAccepted | crates/provers/sp1/guest-helios/src/bin/helios_step.rs:150-177 | for every block, the honest branches to body leaf 9 and payload leaf 12 pass both checks |
| Rlp.DecodeBeUsize | crates/provers/sp1/guest-bridge/src/mpt.rs:239-245 | the shift loop, with the truncation of a 32- or 64-bit usize |
| Rlp.BeUsizeIsNumber | crates/provers/sp1/guest-bridge/src/mpt.rs:239-245 | what it computes is the big-endian number modulo the usize range |
| Rlp.RlpDecodeList | crates/provers/sp1/guest-bridge/src/mpt.rs:153-191 | the decoder's loop computes the list decoding, including stalls and out-of-order slices |
| Rlp.ItemRoundTrip | crates/provers/sp1/guest-bridge/src/mpt.rs:193-237 | an encoded string or nested list decodes to its bytes and consumes its encoding, whatever follows |
| Rlp.ListRoundTrip | crates/provers/sp1/guest-bridge/src/mpt.rs:151-191 | decoding an encoded list returns the string payloads and raw nested encodings in order, trailing bytes ignored |
| Rlp.PiecesPartition | crates/provers/sp1/guest-bridge/src/mpt.rs:182-190 | on any input that decodes, the consumed pieces concatenate to the payload |
| Rlp.PieceDecodes | crates/provers/sp1/guest-bridge/src/mpt.rs:182-190 | each piece is non-empty and item i is what decoding reads where piece i begins |
| Rlp.ItemExactly | crates/provers/sp1/guest-bridge/src/mpt.rs:193-237 | on any input whose announced end does not wrap, decoding yields an item exactly when the encoding rules say it is there: a byte under 0x80, a string after a header, a list with its header; headers longer than need be are taken |
| Rlp.ListExactly | crates/provers/sp1/guest-bridge/src/mpt.rs:153-191 | the same for the outer list, followed by anything |
| Rlp.StuckExactlyOnOverflow | crates/provers/sp1/guest-bridge/src/mpt.rs:209-236 | decoding an item panics or fails to advance exactly when a string's announced end leaves the usize range, or a list's end wraps around to exactly zero, on every non-empty input |
| Rlp.LoopAbortsExactly | crates/provers/sp1/guest-bridge/src/mpt.rs:182-190 | the item loop never finishes exactly when, after some number of items, it stands at one it cannot get past |
| Rlp.ListAbortsExactly | crates/provers/sp1/guest-bridge/src/mpt.rs:153-191 | the list decoder panics or never returns exactly when the end announced by a complete outer header wraps around, or the loop over the payload does not finish |
| Rlp.LoopCanStall | crates/provers/sp1/guest-bridge/src/mpt.rs:182-190 | a concrete 32-bit input on which the loop makes no progress |
| HexPrefix.BytesToNibbles | crates/provers/sp1/guest-bridge/src/mpt.rs:141-149 | the loop lists high and low nibbles in order |
| HexPrefix.PairsAt | crates/provers/sp1/guest-bridge/src/mpt.rs:141-149 | nibbles 2i and 2i + 1 are the high and low half of byte i |
| HexPrefix.UnpairsOfPairs | crates/provers/sp1/guest-bridge/src/mpt.rs:141-149 | nibbles determine the bytes |
| HexPrefix.DecodeHpLoop | crates/provers/sp1/guest-bridge/src/mpt.rs:120-139 | the loop computes flag and path of any input, the empty one included |
| HexPrefix.HpInNibbles | crates/provers/sp1/guest-bridge/src/mpt.rs:120-139 | any input is a leaf from byte 0x20 on, and its path is its nibbles after the flag, or after flag and filler when the flag is even |
| HexPrefix.HpRoundTrip | crates/provers/sp1/guest-bridge/src/mpt.rs:120-139 | decoding a hex-prefix encoding returns node kind and path |
| HexPrefix.HpCanonical | crates/provers/sp1/guest-bridge/src/mpt.rs:120-139 | re-encoding gives the input back exactly when the flag is at most 3 and an even flag has a zero low nibble |
| HexPrefix.EncodingsOfPath | crates/provers/sp1/guest-bridge/src/mpt.rs:120-139 | whatever flag it carries, an encoding of a path has the length of the standard one and differs from it in the first byte at most |
| Mpt.VerifyMptProof | crates/provers/sp1/guest-bridge/src/mpt.rs:32-118 | the loop over proof nodes computes the recursive walk, with the short-node exception |
| Mpt.HonestProofExact | crates/provers/sp1/guest-bridge/src/mpt.rs:32-118 | the root-to-leaf path is accepted if and only if the trie holds the value at that path, an empty branch slot counting as the empty string, and every node on the way is named by its hash |
| Mpt.ChildInBytes | crates/provers/sp1/guest-bridge/src/mpt.rs:64-84 | what the verifier's 32-byte test relies on: a child appears in its parent as 0x80, as itself below 32 bytes, or as 0xa0 and its hash |
| Mpt.SlotIsLookup | crates/provers/sp1/guest-bridge/src/mpt.rs:60-64 | for values that are not empty, what the trie holds there is what it looks up |
| Mpt.AcceptedValueIsStored | crates/provers/sp1/guest-bridge/src/mpt.rs:43-115 | soundness for any proof: acceptance against a trie's root means the trie holds the value there along hash-named nodes, or the proof has a node under 32 bytes at a place where a leaf for the value can be that short, or there is a named Keccak collision |
| Mpt.ShortNodeCounts | crates/provers/sp1/guest-bridge/src/mpt.rs:45-104 | a node under 32 bytes, which the code does not check against its hash, leads to acceptance only where a leaf for the value and the rest of the key fits in 32 bytes, raw-list values included |
| Mpt.ShortcutIsAccepted | crates/provers/sp1/guest-bridge/src/mpt.rs:45-104 | and wherever such a place can be reached along the key, an accepted proof of the value exists, whatever the trie holds |
| Mpt.LongValueIsSafe | crates/provers/sp1/guest-bridge/src/mpt.rs:45-104 | for a value of 30 bytes or more, as both callers pass, no such place exists |
| Mpt.LongPathFillsNode | crates/provers/sp1/guest-bridge/src/mpt.rs:45-104 | nor is the start of a 64-nibble key such a place: a short first node is never accepted |
| Mpt.VerifierIsExact | crates/provers/sp1/guest-bridge/src/mpt.rs:25-118 | both directions for a 64-nibble key and any proof: acceptance means stored, or a short leaf reachable, or a named collision; the first two each yield an accepted proof; for values of 30 bytes or more only stored and the collision remain |
| Mpt.ShortLeafBelowExtension | crates/provers/sp1/guest-bridge/src/mpt.rs:45-104 | for every 64-nibble key and a trie whose root is an extension along its first k nibbles, the root and an unhashed short leaf for the rest are accepted for any value that fits |
| Mpt.ShortLeafReplacesValue | crates/provers/sp1/guest-bridge/src/mpt.rs:45-104 | a concrete failure for every key: the trie stores 32 zero bytes there, and a two-node proof is accepted for the value 5 |
| Mpt.WalkAbortsExactly | crates/provers/sp1/guest-bridge/src/mpt.rs:43-58 | the verifier panics or never returns exactly when some node it gets to and takes in makes the list decoder do so |
| Mpt.OnlyShortNodesAbort | crates/provers/sp1/guest-bridge/src/mpt.rs:43-58 | against the root of a trie only a node under 32 bytes can do that, or there is a named collision |
| NoteEncryption.XorExactly | crates/privacy/src/encryption.rs:293 | a byte is the exclusive or of two exactly when each of its eight bits is set where just one of theirs is |
| NoteEncryption.XorTwice | crates/privacy/src/encryption.rs:293 | and masking twice with one byte undoes it |
| NoteEncryption.StreamXorExactly | crates/privacy/src/encryption.rs:275-300 | the stream in bytes and bits: byte j is masked, bit by bit, with byte j mod 32 of the hash of ks, the key and the low byte of j / 32, and nothing else is the stream |
| NoteEncryption.StreamXorAt | crates/privacy/src/encryption.rs:275-300 | byte j is masked with byte j mod 32 of block (j / 32) mod 256 |
| NoteEncryption.StreamXorLoop | crates/privacy/src/encryption.rs:277-300 | the block loop with its wrapping one-byte counter computes that stream |
| NoteEncryption.StreamXorTwice | crates/privacy/src/encryption.rs:277-300 | applying the stream twice gives the data back, at every length |
| NoteEncryption.DecryptUndoesEncrypt | crates/privacy/src/encryption.rs:57-116 | decryption returns the plaintext, given that Diffie-Hellman commutes for the two secrets |
| NoteEncryption.EncryptExactly | crates/privacy/src/encryption.rs:57-82 | an encrypted note in bytes: ephemeral key, hash of mac, key and ciphertext, masked plaintext, under the hash of obscura-enc-v1, shared secret and ephemeral key; nothing else is one |
| NoteEncryption.DecryptExactly | crates/privacy/src/encryption.rs:91-116 | for every blob, key and plaintext: too short, MAC mismatch, or the unmasked ciphertext, each in exactly its case |
| NoteEncryption.TamperedCiphertextIsRejected | crates/privacy/src/encryption.rs:108-112 | two blobs with one header that both decrypt are equal, or their MAC inputs collide |
| NoteEncryption.ContentRoundTrip | crates/privacy/src/encryption.rs:133-156 | parsing undoes printing of a note, whatever follows |
| NoteEncryption.ContentPrintsBack | crates/privacy/src/encryption.rs:133-156 | printing undoes parsing on the first 136 bytes |
| NoteEncryption.ContentExactly | crates/privacy/src/encryption.rs:133-156 | which inputs parse to which note, byte by byte |
| NoteEncryption.NoteRoundTrip | crates/privacy/src/encryption.rs:223-252 | parsing undoes printing of the container exactly when both parts are under 65536 bytes |
| NoteEncryption.NoteExactly | crates/privacy/src/encryption.rs:223-252 | which inputs parse to which container: two-byte little-endian lengths ahead of each part, what follows ignored |
| NoteEncryption.AnyKeyOpensOrFails | crates/privacy/src/encryption.rs:93-116 | for any secret key, decrypting what was encrypted gives the plaintext or a MAC failure, or two named MAC inputs collide; nothing is assumed of the curve |
| NoteEncryption.AnyoneReadsNoteOrNothing | crates/privacy/src/encryption.rs:178-221 | for any secret key, `try_decrypt` of a created note gives that note or nothing, or two named MAC inputs collide |
| NoteEncryption.NoteReachesBothReaders | crates/privacy/src/encryption.rs:178-252 | created, printed, parsed and decrypted, a note is itself for recipient and for oracle; `try_decrypt` finds it for the recipient, and for the oracle too unless two named MAC inputs collide |

## Left out

- SHA-256, Keccak-256 and X25519 themselves: any functions, with Diffie-Hellman commutativity as a hypothesis where it is used.
- Verification of zero-knowledge proofs: a boolean in each message.
- Sanctions.NonMembershipWitness: lists shorter than 2^58 addresses, more than fit in memory.
- CommitmentTree.BuildProofPaths: at most 2^depth leaves; more would index past the source's array.
- DigestOrder.SortCorrect: the library sort is a function on lists, not an in-place algorithm; any sort gives the same list.
- Encrypted-note storage and events of the pool and bridge: no property depends on them.
- `update_config` of the bridge: no call message reaches it, so the configuration is fixed at genesis.
- Parsing of hex strings, JSON and decimal numbers: headers and configuration arrive decoded, and a configured address that does not parse is `None`.
- The finality branch, sync-committee count and signature of the Helios circuit: they need a beacon state or BLS.
- The compliance and unshield circuits: a single fold and a single hash.
- The account and storage value encodings around the Merkle-Patricia verifier, HTTP services, relayer, runtime wiring, SDK and user interface.
