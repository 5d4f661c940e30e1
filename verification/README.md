# Verification of the private payroll and shielded pool

A Dafny model of the parts of this repository that carry state or arithmetic, with proofs of what
they are for. The statements are for all inputs, all reachable states or all runs, except the
witnesses: concrete inputs that show where a property fails.

| module | what it models |
|---|---|
| `SparseTree`, `NonMembership`, `NonMembershipRuns` | the sparse Merkle tree contract: a map from keys to values kept only as `hash -> node` entries and a root; insert and delete rewrite one path and remove the superseded nodes |
| `Merkle`, `Spine`, `PoolTree`, `AspMembership`, `TreesAgree`, `SparseBuilder` | one mathematical tree and four algorithms for it: the dense code of the circuits crate, the pool's pair insert with its ring of 90 roots, the membership contract's single insert, and the sparse layered builder of the payroll run |
| `LinearAlgebra`, `Elimination`, `MatrixUtils`, `RoundConstants` | in-place Gaussian elimination over an arbitrary field, and the rewriting of the partial-round constants of Poseidon2, in its Rust and its Sage form |
| `Token`, `PoolStatement`, `Pool` | the shielded pool: signed amounts in the field, the public-input vector, roots, nullifiers and balances |
| `Payroll` | the payroll contract: periods, commitment records, nullifiers and escrow |
| `DecimalText`, `ChunkedBody`, `Trimming` | decimal text to base units and back; the chunked transfer decoder of the prover service |
| `Common` | options, results, powers of two, the BN254 modulus |

Contracts and the incremental trees are classes with the storage fields of the original, and loops
are loops; each method is proved against a specification function or a relation on the old state,
and the lemmas are about that specification. `m`, `inv` and the transposed matrix are arrays
changed in place.

How a few things are represented:

- The hash of the sparse tree is ideal: hashes are free terms, so a root *is* the tree it commits
  to. The other trees take an arbitrary compression function; only the binding lemmas assume it
  injective, and a lemma gives such a function. Injectivity over the finite field itself is never
  assumed. The sparse builder needs less, which a hash over a finite type can meet.
- A contract call that returns an error is rolled back by the host; the methods save and restore
  the state to the same effect. The proof verifiers are arbitrary predicates, the token is an
  explicit balance map, and authorization is a flag of the call.
- Numbers are unbounded; a width is written out where the code depends on it: 64-bit period
  numbers, 128-bit token amounts and balances, 256-bit signed amounts, 32-bit leaf indices, 64-bit
  offsets.
- A host panic, such as hashing a value outside the field or a transfer the token refuses, is an
  error of the call.
- The ghost fields `leaves`, `log` and `h` record what was accepted and have no effect on it.

What the proofs brought out, with the conditions proved:

- Deleting a key whose sibling leaf is promoted leaves unreachable entries behind; a store of
  exactly the live nodes stays one if and only if nothing is promoted (`DeleteLeaf`,
  `PromotionLeavesEntries`). The comment at `contracts/asp-non-membership/src/lib.rs:537` suggests
  that the whole old path is dropped; the model follows the code.
- Non-membership verification refuses the search's own proof if and only if it collides with a
  leaf that stores zero (`ProofFolds`, `ZeroValueBreaksCompleteness`).
- `mat_inverse` does not pivot: it fails on an invertible matrix unless every leading block is
  regular (`MatInverse`, `ExchangeNeedsPivoting`).
- With no nullifiers the public-input vector leaves the two policy roots unbound
  (`VectorDeterminesStatement`, `NoNullifierLeavesRootsFree`).
- A chunk size near 2^64 overflows the offset arithmetic, which the release profile turns into a
  panic (`PanicExactly`, `CutShortOutcome`, `SixteenFsPanic`); a guard that excludes it is
  `NoPanicWhenSizesFit`. A chunk extension that is not UTF-8 is refused although the RFC allows it
  (`DecodeEncode`, `ExtensionNotUtf8Refused`). The two bytes after the data of a chunk are skipped
  unread, so bodies that are no chunked encoding are accepted (`AcceptsExactly`,
  `AnySkippedBytes`, `OtherwiseNoEncoding`).
- One pool call may name the same nullifier twice: the check looks only at what earlier calls have
  spent. In total each nullifier is spent once if and only if no accepted call repeats one
  (`SpentOnceExactly`, `SameNullifierTwice`); ruling repeats out is left to the proof.
- A payroll withdrawal checks that the root and the commitment are known, but not that the
  commitment belongs to the period of that root, and a root that runs twice is found as its later
  period only. So a commitment can be paid as one of a period that does not list it, under another
  root or under its own; no proof can rule out the latter (`CommitmentOfAnotherPeriod`). The exact
  condition for one call is `WithdrawAndTell`, for all of them `TiedExactly`.
- The sparse builder never replaces a node that turns back into the default. It is right as long as
  none does (`LayersExactly`), which holds when only default children hash to a default node
  (`UniqueKeeps`); without that its root can be wrong (`StaleRoot`).
- A pair with one leaf outside the field is refused whole by the pool, while two single inserts take
  the other leaf; the two trees then part (`InsertIntoBoth`).

`dafny verify dfyconfig.toml` checks the whole project.

## Model

| member | source | states |
|---|---|---|
| SparseTree.BitsInjective | contracts/asp-non-membership/src/lib.rs:180-192 | Two field elements with the same 256-bit path are the same key, so two different keys always part inside the tree. |
| SparseTree.BitsAreBits | contracts/asp-non-membership/src/lib.rs:180-192 | Element `i` of the path of a key is set exactly if `key / 2^i` is odd. |
| SparseTree.ContentsOnPath | contracts/asp-non-membership/src/lib.rs:215-305 | In a canonical tree every key lies on its own bit path, and there are as many bindings as leaves. |
| SparseTree.SidesByBit | contracts/asp-non-membership/src/lib.rs:272-303 | At depth `d` exactly the keys with an even `key / 2^d` are in the left subtree and those with an odd one in the right. |
| SparseTree.CanonicalIsBuilt | contracts/asp-non-membership/src/lib.rs:386-607 | A canonical tree equals the tree built from its own map by an independent recursive definition. |
| SparseTree.BuildTreeIsCanonical | contracts/asp-non-membership/src/lib.rs:386-607 | Every map over the field has such a tree, it is canonical, and it holds exactly that map. |
| SparseTree.RootDeterminedByContents | contracts/asp-non-membership/src/lib.rs:386-607 | History independence: two canonical roots are equal if and only if their maps are equal. |
| SparseTree.KeyAtEnd | contracts/asp-non-membership/src/lib.rs:272-303 | A key is in the tree if and only if it is at the end of its own path, with the same value. |
| SparseTree.ReplaceAtEnd | contracts/asp-non-membership/src/lib.rs:418-466 | Replacing what hangs at the end of a path keeps the canonical shape and changes exactly that part of the map. |
| SparseTree.LiveOfClimb | contracts/asp-non-membership/src/lib.rs:418-466 | The live nodes of a path are its inner nodes, its end and its siblings. |
| SparseTree.PathNodesUnshared | contracts/asp-non-membership/src/lib.rs:434-451 | No inner node of a path occurs at its end or off the path: dropping the old path drops no node that is still in use. |
| SparseTree.InnerHoldsKey | contracts/asp-non-membership/src/lib.rs:453-465 | Every node written on a new path holds the key written at its end. |
| SparseTree.LeafSiblingNotEmpty | contracts/asp-non-membership/src/lib.rs:422-432 | The sibling of a leaf is never empty, so the loop turns `mixed` on at the first real level after an extension. |
| SparseTree.ForkCanonical | contracts/asp-non-membership/src/lib.rs:388-407 | Extending the common prefix with empty siblings and then the old leaf gives a canonical subtree with exactly the two bindings. |
| SparseTree.CollapseDeletes | contracts/asp-non-membership/src/lib.rs:570-607 | Rebuilding from the first nonempty sibling gives a canonical tree with exactly the deleted binding gone. |
| SparseTree.LiveOfCollapse | contracts/asp-non-membership/src/lib.rs:589-606 | The live nodes after the rebuild are the written ones, the end and the siblings. |
| SparseTree.ParentNotRecomputed | contracts/asp-non-membership/src/lib.rs:545-567 | The parent of a promoted leaf is none of the hashes the delete loop recomputes, so it is never removed. |
| SparseTree.LastNode | contracts/asp-non-membership/src/lib.rs:545-563 | The last sibling of a stored key is not empty, lives in the tree, and with the key forms a canonical node. |
| NonMembership.FindIsLookup | contracts/asp-non-membership/src/lib.rs:215-305 | The search never fails on a canonical stored tree, finds the key exactly when the map binds it, with its value, and its siblings and end rebuild the root. |
| NonMembership.StoredAs | contracts/asp-non-membership/src/lib.rs:240-270 | A stored leaf is the entry of one, key and value, a stored node the entry of its left and right child. |
| NonMembership.Found | contracts/asp-non-membership/src/lib.rs:329-336 | The same at the root of any reachable state; a collision is always with another key. |
| NonMembership.SplitBits | contracts/asp-non-membership/src/lib.rs:180-192 | Bit `i` of the result is set exactly if `key / 2^i` is odd, for all 256 positions. |
| NonMembership.ExtendSiblings | contracts/asp-non-membership/src/lib.rs:386-411 | Extension stops before bit 256 and yields the found siblings, one empty sibling per shared bit, and the old leaf. |
| NonMembership.ForkFound | contracts/asp-non-membership/src/lib.rs:392-405 | Two different keys part within 256 bits, at the level where the loop stops. |
| NonMembership.RebuildAfterInsert | contracts/asp-non-membership/src/lib.rs:413-466 | The insert loop returns the hash of the new path; the store loses exactly the old path, gains exactly the new one, and stays content-addressed. |
| NonMembership.OldNodeNotWritten | contracts/asp-non-membership/src/lib.rs:434-465 | A node the insert loop removes is none of the nodes it has already written. |
| NonMembership.InsertReady | contracts/asp-non-membership/src/lib.rs:413-466 | Every valid state meets what the insert loop relies on. |
| NonMembership.InsertedTree | contracts/asp-non-membership/src/lib.rs:386-466 | The tree after an insert is canonical and holds exactly one binding more. |
| NonMembership.InsertedLive | contracts/asp-non-membership/src/lib.rs:413-466 | Its live nodes are the written ones and the stored ones off the old path, with equality when nothing was left over. |
| NonMembership.InsertResult | contracts/asp-non-membership/src/lib.rs:361-484 | An insert leads from a valid state to a valid state, and from a store of exactly the live nodes to one of exactly the live nodes. |
| NonMembership.LastSiblingStored | contracts/asp-non-membership/src/lib.rs:545-563 | The sibling lookup of a delete never misses and never meets a malformed node. |
| NonMembership.DeleteStart | contracts/asp-non-membership/src/lib.rs:537-567 | Promotion or emptying leaves, at the end of the shortened path, the old contents without the key. |
| NonMembership.DeletedTree | contracts/asp-non-membership/src/lib.rs:537-607 | The tree after a delete is canonical and holds exactly one binding less. |
| NonMembership.DeleteReady | contracts/asp-non-membership/src/lib.rs:570-607 | A hash the delete loop recomputes is none of the nodes it has written; removed nodes hold the key and live ones do not. |
| NonMembership.DeletedStore | contracts/asp-non-membership/src/lib.rs:537-610 | Every live node stays stored; a store without leftovers stays so if and only if no sibling was promoted. |
| NonMembership.RebuildAfterDelete | contracts/asp-non-membership/src/lib.rs:569-607 | The delete loop returns the collapsed hash; the store loses exactly the recomputed path and gains exactly the rebuilt one. |
| NonMembership.FoldProvesAbsence | contracts/asp-non-membership/src/lib.rs:688-712 | Any siblings and start value that fold to the root, with no access to the store, prove the key absent and are exactly what the search returns. |
| NonMembership.ProofFolds | contracts/asp-non-membership/src/lib.rs:688-712 | The proof of the search folds to the root if and only if it does not collide with a leaf that stores zero. |
| NonMembership.FoldSiblings | contracts/asp-non-membership/src/lib.rs:697-708 | The fold loop computes the hash of the path. |
| NonMembership.SameSiblings | contracts/asp-non-membership/src/lib.rs:668-680 | The comparison loop decides equality of the two sibling lists. |
| NonMembership.ASPNonMembership.constructor | contracts/asp-non-membership/src/lib.rs:104-112 | The empty tree is valid, stands for the empty map and has no leftovers. |
| NonMembership.ASPNonMembership.FindKey | contracts/asp-non-membership/src/lib.rs:329-336 | Never an error: found if and only if the map has the key, with its value. |
| NonMembership.ASPNonMembership.InsertLeaf | contracts/asp-non-membership/src/lib.rs:361-494 | The exact outcome for every call; success adds one binding and nothing else, any error leaves root and store unchanged, and a store without leftovers stays so. |
| NonMembership.ASPNonMembership.DeleteLeaf | contracts/asp-non-membership/src/lib.rs:518-620 | The exact outcome for every call; success removes one binding and nothing else, any error changes nothing, leftovers appear exactly on promotion. |
| NonMembership.ASPNonMembership.VerifyNonMembership | contracts/asp-non-membership/src/lib.rs:644-715 | `Ok(true)` for exactly one proof of an absent key, the one the search returns, unless that proof collides with a stored zero; `Ok(false)` exactly for present keys. |
| NonMembershipRuns.Run | contracts/asp-non-membership/src/lib.rs:361-620 | After any run of inserts and deletes the contract holds the map the same run gives and its root is that map's own tree; runs of inserts leave no leftover entry. |
| NonMembershipRuns.TwoHistories | contracts/asp-non-membership/src/lib.rs:361-620 | Two histories end with the same root if and only if they end with the same map. |
| NonMembershipRuns.InsertThenDelete | contracts/asp-non-membership/src/lib.rs:361-620 | Inserting a fresh key and deleting it restores the root. |
| NonMembershipRuns.InsertsCommute | contracts/asp-non-membership/src/lib.rs:361-494 | Inserts of different keys commute: in either order, accepted or refused, the two contracts end with the same root and the same map. |
| NonMembershipRuns.CollisionIsStored | contracts/asp-non-membership/src/lib.rs:258-266 | The colliding pair that the search reports is a binding of the map. |
| NonMembershipRuns.FindThenVerify | contracts/asp-non-membership/src/lib.rs:644-715 | With no zero value stored, the search's proof always verifies, so verification decides membership; `Ok(true)` always means absent. |
| NonMembershipRuns.ZeroValueBreaksCompleteness | contracts/asp-non-membership/src/lib.rs:690-695 | The condition is needed: a stored zero value and a key whose own search proof does not fold to the root. |
| NonMembershipRuns.DeletePromotes | contracts/asp-non-membership/src/lib.rs:545-554 | Deleting one of two keys that part at the first bit promotes the other. |
| NonMembershipRuns.PromotionLeavesEntries | contracts/asp-non-membership/src/lib.rs:545-607 | Leftovers are real: two inserts and a delete from the empty contract leave an entry that the root does not reach. |
| Merkle.NodeRight | circuits/src/core/merkle.rs:33-47 | Right of the last leaf there are only default subtrees. |
| Merkle.NodeLeft | circuits/src/core/merkle.rs:33-47 | Left of leaf `n` only the leaves before `n` matter. |
| Merkle.NodeBelow | circuits/src/core/merkle.rs:33-47 | A node depends only on the leaves below it, wherever they stand. |
| Merkle.RootOfHalves | circuits/src/core/merkle.rs:33-47 | The root of one leaf is the leaf; the root of a list is the hash of the roots of its halves, the left one first. |
| Merkle.NodeElsewhere | circuits/src/core/merkle.rs:33-47 | Changing one leaf changes only the nodes above it. |
| Merkle.NodeAgree | circuits/src/core/merkle.rs:33-47 | The tree depends on the padded leaves alone, so padding explicitly changes nothing. |
| Merkle.HashPairs | circuits/src/core/merkle.rs:40-43 | One level up: each node is the hash of its pair. |
| Merkle.MerkleRoot | circuits/src/core/merkle.rs:33-47 | For every power-of-two list the loop returns the root of the tree defined by recursion. |
| Merkle.MerkleProof | circuits/src/core/merkle.rs:62-94 | The path lists the true siblings, the encoded bits equal the index, and folding them gives the root. |
| Merkle.EncodeBits | circuits/src/core/merkle.rs:88-91 | Or-ing the shifted bits gives their binary value. |
| Merkle.BitsOfIndex | circuits/src/core/merkle.rs:78-91 | The path bits spell the index. |
| Merkle.ProofComplete | circuits/src/core/merkle.rs:62-94 | The siblings of a leaf fold, with its index, to the root. |
| Merkle.FoldInjective | circuits/src/core/merkle.rs:62-94 | Under a collision-free hash equal folds have equal leaves and equal paths. |
| Merkle.ProofBinding | circuits/src/core/merkle.rs:62-94 | Under a collision-free hash only the leaf at that index, and only its own path, fold to the root. |
| Merkle.NodeBinds | circuits/src/core/merkle.rs:33-47 | Under a collision-free hash the root fixes every leaf below it. |
| Spine.SpineStep | contracts/pool/src/merkle_with_history.rs:155-172 | One level of an insert: the stored left sibling, or the zero of the level, is the right other child. |
| Spine.SpineKept | contracts/pool/src/merkle_with_history.rs:155-172 | After an insert everything the next insert will read is stored and right. |
| Spine.PairAncestors | contracts/pool/src/merkle_with_history.rs:145-150 | A pair shares every node above it, and the next pair's path is the same or adjacent at every level. |
| Spine.ZeroTable | contracts/pool/src/merkle_with_history.rs:83-90 | `zero(i + 1) = h(zero(i), zero(i))`. |
| Spine.InsertPath | contracts/pool/src/merkle_with_history.rs:155-172 | The loop returns the node of the dense tree at the top of the path and stores exactly the nodes where the path turns left. |
| PoolTree.RingPushed | contracts/pool/src/merkle_with_history.rs:174-178 | Writing one slot keeps the latest 90 roots in the ring. |
| PoolTree.RingSlotRecent | contracts/pool/src/merkle_with_history.rs:221-235 | Each slot in use belongs to one of the latest 90 roots. |
| PoolTree.SearchRing | contracts/pool/src/merkle_with_history.rs:221-236 | The circular search stops after visiting each of the 90 slots once and finds the root if and only if some slot holds it. |
| PoolTree.RingSearchIsRecent | contracts/pool/src/merkle_with_history.rs:210-237 | Some slot holds the root if and only if it is one of the latest `min(n + 1, 90)` roots. |
| PoolTree.FullOrRoom | contracts/pool/src/merkle_with_history.rs:134-143 | A tree either is full or has room for a pair, and the indices of a pair fit 32 bits for every number of levels from 1 to 32. |
| PoolTree.InsertKeepsTree | contracts/pool/src/merkle_with_history.rs:122-192 | An accepted pair keeps subtrees, ring, root index and next index in step with the leaves. |
| PoolTree.MerkleTreeWithHistory.AppendPair | contracts/pool/src/merkle_with_history.rs:145-184 | Hashing the pair up its path, writing the next ring slot and advancing the index appends exactly the two leaves. |
| PoolTree.MerkleTreeWithHistory.Init | contracts/pool/src/merkle_with_history.rs:68-99 | The exact outcome, a second call included; on success the tree is the empty one. |
| PoolTree.MerkleTreeWithHistory.InsertTwoLeaves | contracts/pool/src/merkle_with_history.rs:122-192 | Refused exactly when uninitialized, full, or given a leaf outside the field, otherwise the two leaves are appended at the returned indices; the odd-index and conversion errors never occur. |
| PoolTree.MerkleTreeWithHistory.IsKnownRoot | contracts/pool/src/merkle_with_history.rs:210-237 | A root is known if and only if it is nonzero and one of the latest `min(n + 1, 90)` dense roots. |
| PoolTree.MerkleTreeWithHistory.GetLastRoot | contracts/pool/src/merkle_with_history.rs:250-259 | The newest root is the dense root of everything inserted. |
| AspMembership.NewLeaf | contracts/asp-membership/src/lib.rs:213-217 | A new leaf is the start of its own path, and the next path is the same or adjacent at every level. |
| AspMembership.InsertKeepsTree | contracts/asp-membership/src/lib.rs:203-250 | An accepted leaf keeps subtrees, root and next index in step with the leaves. |
| AspMembership.ASPMembership.constructor | contracts/asp-membership/src/lib.rs:84-110 | Initialized if and only if the number of levels is between 1 and 32; then the tree is empty. |
| AspMembership.ASPMembership.InsertLeaf | contracts/asp-membership/src/lib.rs:195-252 | The exact outcome, the host panic for a leaf outside the field included; success appends the leaf and the stored root is the dense root of all leaves, an error changes nothing. |
| TreesAgree.SameLeavesSameState | contracts/asp-membership/src/lib.rs:203-250 | A pool tree and a membership tree over the same leaves have the same root, next index and still-needed subtrees. |
| TreesAgree.InsertIntoBoth | contracts/pool/src/merkle_with_history.rs:122-192 | What a pair insert and two single inserts do to two trees over the same leaves, in full; they end alike if and only if the tree is full, both leaves are in the field, or no single insert goes through. |
| TreesAgree.SimulateRun | contracts/pool/src/merkle_with_history.rs:145-184 | One pair insert simulates two single inserts, for runs of any length, exactly as long as the two do the same: both take the same pairs and stay in the same state, up to the first pair on which they would part. |
| TreesAgree.RunAgainstDense | contracts/pool/src/merkle_with_history.rs:122-192 | From empty, pairs are accepted up to the first one outside the field and exactly `2^(levels-1)` of them otherwise; the newest root equals the dense code's root of the padded leaves. |
| SparseBuilder.StaysDefault | e2e-tests/src/bin/testnet_payroll_e2e.rs:423-426 | If only default children hash to a default node, adding a leaf turns no node back into the default. |
| SparseBuilder.LayerUpdated | e2e-tests/src/bin/testnet_payroll_e2e.rs:424-426 | Writing the new node, or skipping a default one, moves a layer from the old leaves to the new ones if and only if the node does not turn back into the default. |
| SparseBuilder.WalkWrites | e2e-tests/src/bin/testnet_payroll_e2e.rs:420-440 | Over layers that stand for the tree, the walk hashes the true nodes of the new path and writes those that are not default. |
| SparseBuilder.LayersExactly | e2e-tests/src/bin/testnet_payroll_e2e.rs:419-440 | The layers stand for the tree after every commitment if and only if no node turns back into the default. |
| SparseBuilder.UniqueKeeps | e2e-tests/src/bin/testnet_payroll_e2e.rs:423-426 | It holds for every list of commitments if only default children hash to a default node. |
| SparseBuilder.FiniteHashIsUnique | e2e-tests/src/bin/testnet_payroll_e2e.rs:472-475 | Unlike collision-freedom, that hypothesis can be met over a finite type, for any number of levels. |
| SparseBuilder.DefaultHashes | e2e-tests/src/bin/testnet_payroll_e2e.rs:408-412 | The default hash of every level. |
| SparseBuilder.AddLeaf | e2e-tests/src/bin/testnet_payroll_e2e.rs:420-440 | The loop writes what the recursive walk writes, for any hash and any layers. |
| SparseBuilder.SlotPath | e2e-tests/src/bin/testnet_payroll_e2e.rs:444-453 | The path read off layers that stand for the tree lists the true siblings of the slot. |
| SparseBuilder.BuildTree | e2e-tests/src/bin/testnet_payroll_e2e.rs:407-457 | For any hash the root is read off the layers; if no node turns back into the default it is the root of the padded tree, and the path of every slot, padded slots included, folds to it. |
| SparseBuilder.SparseEqualsDense | e2e-tests/src/bin/testnet_payroll_e2e.rs:407-457 | Under the same condition the layered root equals the dense code's root of the commitments padded with the zero commitment. |
| SparseBuilder.StaleRoot | e2e-tests/src/bin/testnet_payroll_e2e.rs:424-442 | A result: with two commitments whose parent collides with the default, the builder keeps the parent of the first alone and returns a wrong root. |
| LinearAlgebra.MatMulAssoc | poseidon2/src/utils.rs:10-92 | Matrix products associate, for every size over every field. |
| LinearAlgebra.RowAddSpans | poseidon2/src/utils.rs:27-42 | Adding a multiple of one row to another keeps the row space. |
| LinearAlgebra.RowScaleSpans | poseidon2/src/utils.rs:44-54 | Scaling a row by a nonzero factor keeps the row space. |
| LinearAlgebra.LeftInverseIsInverse | poseidon2/src/utils.rs:57-76 | A left inverse whose rows span everything is a two-sided inverse. |
| LinearAlgebra.InverseUnique | poseidon2/src/utils.rs:10-92 | A matrix has at most one inverse. |
| Elimination.RowAddProduct | poseidon2/src/utils.rs:27-41 | A row addition on `inv` is the same row addition on `inv * A`: `inv * A == m` is kept. |
| Elimination.RowScaleProduct | poseidon2/src/utils.rs:44-54 | The same for scaling a row. |
| Elimination.ForwardStep | poseidon2/src/utils.rs:22-42 | Subtracting row `j` clears column `j` of the current row and keeps everything else the phase relies on. |
| Elimination.PivotRegular | poseidon2/src/utils.rs:44-44 | A nonzero pivot makes the next leading block regular. |
| Elimination.PivotSingular | poseidon2/src/utils.rs:44-44 | A zero pivot exhibits a singular leading block. |
| Elimination.ForwardNormalise | poseidon2/src/utils.rs:43-54 | Scaling to a unit pivot finishes the row. |
| Elimination.BackwardStep | poseidon2/src/utils.rs:57-75 | One back substitution clears one more column of the product. |
| Elimination.BackwardEnd | poseidon2/src/utils.rs:57-76 | After the last row `inv` is a two-sided inverse. |
| MatrixUtils.SubtractLower | poseidon2/src/utils.rs:22-42 | The inner loop with its two zero short cuts is an exact row addition on both arrays. |
| MatrixUtils.NormaliseRow | poseidon2/src/utils.rs:43-54 | The three-way loop is an exact scaling of the row on both arrays. |
| MatrixUtils.SubtractUpper | poseidon2/src/utils.rs:59-75 | The inner loop is an exact row addition on `inv`; only a debug build touches `m`. |
| MatrixUtils.ForwardRow | poseidon2/src/utils.rs:21-55 | One row of phase one: it succeeds and advances the phase, or some leading block is singular. |
| MatrixUtils.ForwardPhase | poseidon2/src/utils.rs:20-55 | Phase one succeeds if and only if every leading block of the input is regular. |
| MatrixUtils.BackwardPhase | poseidon2/src/utils.rs:57-89 | Phase two ends with the inverse, in both builds; the debug assertions on `m` hold. |
| MatrixUtils.MatInverse | poseidon2/src/utils.rs:10-92 | The result exists if and only if every leading block is regular, and is then a two-sided inverse. |
| MatrixUtils.DebugMakesNoDifference | poseidon2/src/utils.rs:65-70 | Debug and release builds fail on the same inputs, those with a singular leading block, and return the same inverse. |
| MatrixUtils.MatTranspose | poseidon2/src/utils.rs:94-105 | Row and column are exchanged, for every rectangular matrix. |
| MatrixUtils.ExchangeNeedsPivoting | poseidon2/src/utils.rs:43-44 | A result: over every field the invertible exchange matrix has a singular leading block, so the inversion fails on it. |
| MatrixUtils.GF2IsField | poseidon2/src/utils.rs:10-10 | The field laws are satisfiable: the two-element field meets them. |
| RoundConstants.MatVecMul | poseidon2/src/poseidon2/poseidon2_params.rs:73-85 | The double loop computes the matrix-vector product. |
| RoundConstants.MatVecInverse | poseidon2/src/poseidon2/poseidon2_params.rs:55-60 | Multiplying by the inverse and then by the matrix changes nothing. |
| RoundConstants.OneRound | poseidon2/src/poseidon2/poseidon2_params.rs:59-66 | One round: what the cheap form adds after the S-box becomes the constants of the next round. |
| RoundConstants.RoundsPreserved | poseidon2/src/poseidon2/poseidon2_params.rs:48-71 | Meaning preserved: for every state size, number of rounds, S-box, invertible matrix and state, the rewritten rounds compute the same state. |
| RoundConstants.AddRest | poseidon2/src/poseidon2/poseidon2_params.rs:62-65 | The inner loop adds everything but the first cell. |
| RoundConstants.FoldConstants | poseidon2/src/poseidon2/poseidon2_params.rs:57-70 | The backward loop stores exactly the recursively defined rewritten constants. |
| RoundConstants.EquivalentRoundConstants | poseidon2/src/poseidon2/poseidon2_params.rs:48-71 | The result exists if and only if the matrix can be inverted by elimination, and is the rewriting of the partial-round constants. |
| RoundConstants.RunRounds | poseidon2/poseidon2_rust_params.sage.py:605-612 | Each reference round multiplies by `M` the state plus constants whose first cell alone went through `f`; the ghost list of states says so cell by cell. |
| RoundConstants.RunCheapRounds | poseidon2/src/poseidon2/poseidon2_params.rs:48-71 | Each rewritten round does the same with one constant added to the first cell, after all of the first vector. |
| RoundConstants.IdentityRun | poseidon2/poseidon2_rust_params.sage.py:605-612 | With the identity matrix and zero constants, `n` rounds apply `f` to the first cell `n` times and leave the others alone. |
| RoundConstants.RunBoth | poseidon2/src/poseidon2/poseidon2_params.rs:48-71 | Run on the same state, both forms give the reference result. |
| RoundConstants.BothForms | poseidon2/src/poseidon2/poseidon2_params.rs:48-71 | End to end: inverting, rewriting and running both forms gives the reference rounds twice. |
| RoundConstants.RowTimesTranspose | poseidon2/poseidon2_rust_params.sage.py:539-539 | A row vector times the transpose is the matrix times the column vector. |
| RoundConstants.InverseOfTranspose | poseidon2/poseidon2_rust_params.sage.py:530-539 | The inverse of the transpose is the transpose of the inverse. |
| RoundConstants.SageLoop | poseidon2/poseidon2_rust_params.sage.py:538-541 | The Sage loop on the rows of the partial rounds stores the same rewritten constants, padded with zeros. |
| RoundConstants.InRowsAt | poseidon2/poseidon2_rust_params.sage.py:528 | Row `i`, column `j` of the constants laid out in rows of `t` is entry `i * t + j` of the flat list. |
| RoundConstants.SageEquivalentConstants | poseidon2/poseidon2_rust_params.sage.py:527-543 | On the whole flat list: the rows of the full rounds stay as they are, those of the partial rounds are rewritten; with no partial round nothing changes. |
| RoundConstants.RustMatchesSage | poseidon2/poseidon2_rust_params.sage.py:527-543 | The Sage function and the Rust function compute the same constants, both the rewritten ones for the inverse matrix: the same first vector and, for every later partial round, the same first cell. |
| DecimalText.MatchExact | app/js/ui/transactions.js:63-67 | The matcher accepts exactly the texts made of sign, digits, point and digits, and the parts are unique. |
| DecimalText.ParseParts | app/js/ui/transactions.js:58-97 | Parsing depends only on those parts. |
| DecimalText.AcceptedValue | app/js/ui/transactions.js:69-96 | An accepted text is worth the decimal it denotes times `10^7`, with its sign; exactly which parts are refused. |
| DecimalText.AcceptedExactly | app/js/ui/transactions.js:58-97 | Acceptance if and only if the text is blank, worth zero, or a decimal with a digit, at most seven decimals and an allowed sign. |
| DecimalText.SpaceAround | app/js/ui/transactions.js:58-61 | White space around a text changes nothing, and what is parsed is the text without the white space at its ends. |
| DecimalText.RefusedExactly | app/js/ui/transactions.js:63-79 | Which of the refusals a text gets, in terms of its parts. |
| DecimalText.PrintMatches | app/js/ui/transactions.js:105-116 | The printed text is a decimal whose parts stand for the amount. |
| DecimalText.PrintThenParse | app/js/ui/transactions.js:105-116 | Round trip: for every amount, parsing the printed text gives it back; a negative one is refused exactly where negatives are not allowed. |
| DecimalText.PartsPrinted | app/js/ui/transactions.js:105-116 | The printer gives back the parts of any decimal without superfluous zeros, for any number of decimals. |
| DecimalText.PrintIsNormalForm | app/js/ui/transactions.js:58-116 | An accepted text is printed back unchanged if and only if it has no plus sign, no minus zero, no superfluous leading or trailing zeros, no bare point and no white space. |
| ChunkedBody.CrlfAfterLine | e2e-tests/src/bin/payroll_prover_service.rs:158-162 | The search finds the end of the size line, not a later pair. |
| ChunkedBody.SizeLineRead | e2e-tests/src/bin/payroll_prover_service.rs:163-166 | A well-formed size line, blanks and extension included, is read as its size, or refused exactly when it is not UTF-8. |
| ChunkedBody.SizeLineExactly | e2e-tests/src/bin/payroll_prover_service.rs:163-166 | A line is read as `n` if and only if it is UTF-8 and is white space, an optional plus sign, hexadecimal digits worth `n` below 2^64, white space, and nothing or a semicolon and anything. |
| ChunkedBody.Utf8Exactly | e2e-tests/src/bin/payroll_prover_service.rs:163-164 | The UTF-8 decoder gives a list of code points if and only if they are scalar values and the bytes are their encoding. |
| ChunkedBody.HexConcat | e2e-tests/src/bin/payroll_prover_service.rs:166 | Hexadecimal numerals are positional. |
| ChunkedBody.OneHexDigit | e2e-tests/src/bin/payroll_prover_service.rs:166 | Digits are 0 to 9 and either case of A to F, with their values. |
| ChunkedBody.DecodeLoop | e2e-tests/src/bin/payroll_prover_service.rs:153-180 | The loop stays in bounds, stops on every input, and equals the recursive decoder. |
| ChunkedBody.DecodeChunkedBody | e2e-tests/src/bin/payroll_prover_service.rs:153-180 | The same for the actual size-line reader. |
| ChunkedBody.OutcomeIsData | e2e-tests/src/bin/payroll_prover_service.rs:153-180 | Chunk by chunk, the outcome is the concatenated data or the refusal. |
| ChunkedBody.DecodeEncode | e2e-tests/src/bin/payroll_prover_service.rs:153-180 | Decoding inverts the encoding of RFC 9112, section 7.1, for arbitrary data bytes, if and only if every size line is UTF-8. |
| ChunkedBody.ExtensionNotUtf8Refused | e2e-tests/src/bin/payroll_prover_service.rs:163-164 | The refusal is real: a well-formed last chunk with a stray byte in its extension is not decoded. |
| ChunkedBody.ChunkIsPiece | e2e-tests/src/bin/payroll_prover_service.rs:158-176 | The chunks of RFC 9112, section 7.1, with UTF-8 size lines are among those the two statements below quantify over. |
| ChunkedBody.CutShortOutcome | e2e-tests/src/bin/payroll_prover_service.rs:166-176 | A body that ends inside a chunk panics if and only if the position of the data, the announced size and two more reach 2^64, and is reported truncated otherwise. |
| ChunkedBody.PanicExactly | e2e-tests/src/bin/payroll_prover_service.rs:172-176 | The offset arithmetic overflows if and only if the body is a list of chunks, a size line for which the position of its data, its size and two more reach 2^64, and anything after that. |
| ChunkedBody.NoPanicWhenSizesFit | e2e-tests/src/bin/payroll_prover_service.rs:166-176 | A guard for the caller: where no position of the body starts a size line of 2^63 - 1 or more, the decoder does not panic. |
| ChunkedBody.AcceptsExactly | e2e-tests/src/bin/payroll_prover_service.rs:153-180 | A body is accepted if and only if it is a list of chunks, each followed by any two bytes, then a size line announcing nothing, then anything; the result is the data of the chunks. |
| ChunkedBody.AnySkippedBytes | e2e-tests/src/bin/payroll_prover_service.rs:172-176 | A result: after a chunk of one byte, any two bytes do. |
| ChunkedBody.OtherwiseNoEncoding | e2e-tests/src/bin/payroll_prover_service.rs:172-176 | Unless those two bytes are CR LF, such a body is not a chunked encoding of anything. |
| ChunkedBody.SixteenFsPanic | e2e-tests/src/bin/payroll_prover_service.rs:166-172 | A result: a line of sixteen hexadecimal F digits is such a body. |
| PoolStatement.AmountEncoded | contracts/pool/src/pool.rs:274-332 | Accepted exactly for `|x| < 2^248`; the value is the canonical residue of `x`, and it is decoded exactly. |
| PoolStatement.AmountInjective | contracts/pool/src/pool.rs:312-332 | Two amounts with the same encoding are equal. |
| PoolStatement.AmountDecoded | contracts/pool/src/pool.rs:312-332 | A residue near either end of the field encodes what it decodes to. |
| PoolStatement.AmountImage | contracts/pool/src/pool.rs:312-332 | Exactly which field elements are public amounts. |
| PoolStatement.ValidatePublicInputs | contracts/pool/src/pool.rs:379-391 | Accepts if and only if every field of the statement is below the modulus. |
| PoolStatement.BuildPublicInputs | contracts/pool/src/pool.rs:412-444 | The vector is 5 + 3n long, every position in it is the declared field of the statement, in particular each of the n copies of either root, and all of it is canonical. |
| PoolStatement.VectorDeterminesStatement | contracts/pool/src/pool.rs:412-444 | Two vectors are equal if and only if the statements are, for any number of nullifiers; the policy roots count once there is a nullifier. |
| PoolStatement.NoNullifierLeavesRootsFree | contracts/pool/src/pool.rs:433-444 | A result: with no nullifier the vector does not bind the two policy roots. |
| Token.TransferMoves | contracts/pool/src/pool.rs:515-522 | A transfer moves the amount between the two balances and touches no other; a transfer to oneself moves nothing. |
| Token.TransferAccepted | contracts/pool/src/pool.rs:515-522 | A transfer is accepted if and only if the payer has the amount and the payee stays within 128 bits. |
| Token.TransferMovesAll | contracts/pool/src/pool.rs:515-522 | The same movement stated for every address at once. |
| Token.TransferConserves | contracts/pool/src/pool.rs:515-522 | The sum of all balances is the same before and after. |
| Pool.MarkAllSpends | contracts/pool/src/pool.rs:587-591 | Marking a list spends exactly its nullifiers and unspends none. |
| Pool.LogExtended | contracts/pool/src/pool.rs:554-591 | An accepted call keeps the spent set equal to the recorded nullifiers and keeps calls free of double spends. |
| Pool.SpentOnceExactly | contracts/pool/src/pool.rs:554-591 | Over any valid record each nullifier is spent at most once in total if and only if no accepted call names one twice. |
| Pool.SameNullifierTwice | contracts/pool/src/pool.rs:554-591 | A result: a call that names one nullifier twice is accepted by the contract when the verifier accepts its proof. |
| Pool.OnlyFreshAccepted | contracts/pool/src/pool.rs:554-591 | As the record grows, spent nullifiers stay spent and every later accepted call spends fresh ones only. |
| Pool.BalanceExtended | contracts/pool/src/pool.rs:512-603 | Conservation over one call. |
| Pool.SettledExactly | contracts/pool/src/pool.rs:512-603 | Deposit and withdrawal go through if and only if the limit, the 128-bit bounds and the balances allow it, and then every address has its old balance minus what it paid plus what it received. |
| Pool.SettledConserves | contracts/pool/src/pool.rs:512-603 | No accepted call changes the total token supply. |
| Pool.DeltaIsExtAmount | contracts/pool/src/pool.rs:501-628 | With senders and recipients other than the pool, the balance moves by the sum of the accepted external amounts. |
| Pool.PoolContract.constructor | contracts/pool/src/pool.rs:237-269 | Deployment succeeds if and only if the number of levels is between 1 and 32; then the state is valid and empty. |
| Pool.PoolContract.AnySpent | contracts/pool/src/pool.rs:554-559 | The loop decides whether some input nullifier is spent. |
| Pool.PoolContract.CheckProof | contracts/pool/src/pool.rs:550-585 | Accepts if and only if all checks hold, and otherwise reports the first one that fails. |
| Pool.PoolContract.MarkSpent | contracts/pool/src/pool.rs:355-360 | The loop marks the whole list. |
| Pool.PoolContract.InternalTransact | contracts/pool/src/pool.rs:549-628 | Succeeds if and only if the proof is accepted, the withdrawal can be paid and the tree has room; then every balance, the spent set and the leaves are stated; otherwise which error comes first. |
| Pool.PoolContract.DepositAndTransact | contracts/pool/src/pool.rs:509-525 | The deposit and the transaction together: both or neither, with the same exact condition and effect. |
| Pool.PoolContract.ProofBindsData | contracts/pool/src/pool.rs:560-571 | An accepted proof names the reduced digest of its external data, so one proof accepted with two external data has digests congruent modulo the field and equal amounts. |
| Pool.PoolContract.Transact | contracts/pool/src/pool.rs:501-525 | Succeeds if and only if the sender signed, the proof is accepted, the tokens can be moved and the tree has room; then the balance of every address, the spent set, the leaves and the unchanged token supply are stated; every failure leaves the whole state unchanged. |
| Pool.Run | contracts/pool/src/pool.rs:501-628 | Over any run the record and the spent set only grow, only fresh nullifiers are accepted, leaves are twice the accepted calls, and the balance is the initial one plus the recorded movements. |
| Pool.SecondSpendRejected | contracts/pool/src/pool.rs:554-559 | In any state, a nullifier accepted in one call is rejected in every later one, with no effect. |
| Payroll.FrToU64 | contracts/payroll/src/payroll.rs:736-744 | Succeeds if and only if the element fits 64 bits, with its value. |
| Payroll.RecordAllKeys | contracts/payroll/src/payroll.rs:457-478 | Storing the items adds exactly their identifiers. |
| Payroll.StoreRecords | contracts/payroll/src/payroll.rs:455-478 | The loop succeeds if and only if the identifiers are distinct and none is recorded yet; then each identifier is stored with its own CID, every earlier record is as it was, and the identifiers are listed in order. |
| Payroll.RecordAllStores | contracts/payroll/src/payroll.rs:457-478 | Storing fresh items leaves each one readable with exactly its CID and changes no other record. |
| Payroll.RecordsAdded | contracts/payroll/src/payroll.rs:455-481 | The commitment lists stay duplicate-free, pairwise disjoint and together exactly the stored records. |
| Payroll.PaymentAdded | contracts/payroll/src/payroll.rs:627-640 | Each spent nullifier stands for exactly one payment. |
| Payroll.FundingAdded | contracts/payroll/src/payroll.rs:512-535 | Funding keeps the escrow equation of every token. |
| Payroll.PayoutAdded | contracts/payroll/src/payroll.rs:647-663 | A payout keeps the escrow equation of every token. |
| Payroll.RunKeepsBooks | contracts/payroll/src/payroll.rs:438-486 | A run keeps periods, lists, records and roots consistent: periods are exactly `1..current`, a root maps to its latest period. |
| Payroll.RunKeepsInvariant | contracts/payroll/src/payroll.rs:367-547 | A successful run keeps the whole invariant. |
| Payroll.WithdrawKeepsInvariant | contracts/payroll/src/payroll.rs:576-675 | A successful withdrawal keeps the whole invariant. |
| Payroll.RunKeepsBacked | contracts/payroll/src/payroll.rs:379-442 | Every period was funded with an accepted proof of exactly its root, total and number. |
| Payroll.WithdrawKeepsBacked | contracts/payroll/src/payroll.rs:592-640 | Every payment was made for a recorded commitment, under a known root, with an accepted proof of exactly its nullifier and amount. |
| Payroll.EscrowIsTotalsMinusPaid | contracts/payroll/src/payroll.rs:367-675 | With one token, and an administrator and recipients other than the contract, escrow is the sum of period totals minus the salaries paid. |
| Payroll.PayrollContract.constructor | contracts/payroll/src/payroll.rs:204-228 | The initial state satisfies the invariant. |
| Payroll.PaidExactly | contracts/payroll/src/payroll.rs:525-534 | A payment in the configured token goes through if and only if the payer has it and the payee stays within 128 bits; then every balance of every token is stated. |
| Payroll.AfterRunEffect | contracts/payroll/src/payroll.rs:438-535 | The storage after a run, field by field and record by record, in terms of the storage before. |
| Payroll.AfterWithdrawEffect | contracts/payroll/src/payroll.rs:637-663 | The storage after a withdrawal, field by field, in terms of the storage before. |
| Payroll.PayrollContract.CheckRun | contracts/payroll/src/payroll.rs:373-436 | Passes if and only if the caller is the administrator, the proof is accepted and the root, total and period are right; what each error means, and which comes first. |
| Payroll.PayrollContract.RunPayroll | contracts/payroll/src/payroll.rs:367-547 | Exactly when a run succeeds and which error comes first otherwise; on success the new period, the root, the list and CID of every commitment, the earlier records and every token balance are stated; any error changes nothing and the invariant is kept. |
| Payroll.PayrollContract.CheckWithdraw | contracts/payroll/src/payroll.rs:582-635 | Passes if and only if the recipient signed, the proof is accepted, root and commitment are known and the nullifier is fresh; what each error means, and which comes first. |
| Payroll.PayrollContract.MarkAndTransfer | contracts/payroll/src/payroll.rs:637-663 | Marks the nullifier and transfers the salary, or changes nothing. |
| Payroll.PayrollContract.PayOut | contracts/payroll/src/payroll.rs:637-663 | The exact outcome of the payment and the whole new state; a failing payment does not leave the nullifier spent. |
| Payroll.PayrollContract.Withdraw | contracts/payroll/src/payroll.rs:576-675 | Exactly when a withdrawal succeeds and which error comes first otherwise; on success exactly one nullifier is spent and every token balance is stated; any error changes nothing and the invariant is kept. |
| Payroll.Run | contracts/payroll/src/payroll.rs:204-675 | Any sequence of calls, authorized or not, keeps the invariant and the backing of every period and payment, and the history only grows. |
| Payroll.CommitmentOfAnotherPeriod | contracts/payroll/src/payroll.rs:610-635 | A result: a commitment of period 1 is paid as one of period 2, either under another root, or, with no root changed, under its own. |
| Payroll.WithdrawAndTell | contracts/payroll/src/payroll.rs:610-625 | An accepted withdrawal pays across periods if and only if, before the call, the period found for its root did not list its commitment. |
| Payroll.ListsAllExactly | contracts/payroll/src/payroll.rs:610-625 | Every commitment is listed by the period found for a root if and only if no other period lists any. |
| Payroll.TiedExactly | contracts/payroll/src/payroll.rs:610-625 | Known root and recorded commitment imply listing, for all of them, if and only if every known root is found as the one period that lists anything. |
| Payroll.RanExactly | contracts/payroll/src/payroll.rs:449-453 | Every commitment was recorded under a given root if and only if all periods that list anything ran with it. |
| Payroll.ListedOrEarlier | contracts/payroll/src/payroll.rs:449-453 | The two notions differ only for commitments of an earlier period of the same root, which the later run has replaced. |

## Left out

- Poseidon2 itself, its round tables, the precomputed zero constants, Keccak and XDR: the hash is a
  parameter or a free term, and the zero table is `zero(i + 1) = h(zero(i), zero(i))`.
- Groth16 verification, curve points and circuits: a verifier is an arbitrary predicate; nothing is
  claimed about hidden salaries or notes.
- TTL extension, events, the internals of authorization, auditor view keys, address updates,
  getters, and the public-key registry: one-branch facts.
- `insert_leaf` of the sparse tree trims a local list of siblings at the end
  (`contracts/asp-non-membership/src/lib.rs:468-480`); nothing reads it afterwards.
- NonMembershipRuns.Run: runs consist of authorized calls; an unauthorized one changes nothing, by
  the contracts of the two methods.
- Pool.LogExtended: the absence of double spends is across calls; for repeats within one call see
  `Pool.SpentOnceExactly`.
- Pool.PoolContract.InternalTransact: a failing call may leave marks and balances behind; it is
  `Transact` that restores them, as the host does.
- RoundConstants.EquivalentRoundConstants: at least one partial round and constants of the shape of
  the matrix, where the original underflows or indexes out of bounds.
- RoundConstants.SageEquivalentConstants: a flat list with one constant per cell and round, and any
  inverse of the transpose that Sage computes.
- The token is an asset contract that this repository does not contain. It is modelled with 128-bit
  balances, traps on an insufficient balance and on overflow of the recipient's, and nothing else:
  no allowances, freezing or fees.
- The payroll setters (`contracts/payroll/src/payroll.rs:233-276` and `551-560`) are part of the
  runs; what each sets is a one-branch fact.
- SparseBuilder.BuildTree: at most `2^levels` employees, the size of the tree.
- The trees keep their maps, and the round constants their vectors, as values that are reassigned;
  only the matrix code works on arrays in place.
- Bitwise or, shifts and `& 1` appear as arithmetic on clear bits, division by two and remainder.
- `Bn254Fr::from_bytes` is the identity on canonical values.
- Everything around the two decimal functions and the chunk decoder: user interface, sockets, JSON
  and HTTP handling, the command-line tools and the Sage script's parameter search.
