# Revocable anchors

A Dafny model of the `revocable_anchors` pallet: its structural hashing, its Merkle membership
proofs, and the storage the chain keeps, together with proofs about all of them.

An anchor is a document root posted under an `admins` root, which stands for a set of accounts.
Anyone can create an anchor. An account that proves membership in `admins`, with at most 16 proof
elements, can revoke the anchor for good or suspend a leaf until some time. A call either fails
with an error and changes nothing, or succeeds and changes one entry of storage.

## How it is modelled

- `Digests.dfy`: bytes, and the streaming `Digest` object. The hash function is a parameter of
  every statement: a total function from byte strings to 32 bytes. It is never assumed injective.
  `CollisionFree(h, s)` says that the finite set `s` holds no two inputs with one digest, and `s` is
  always a set of byte strings that the tree or the verification in question actually hashes. A
  statement with that hypothesis is the same as: the conclusion holds, or two different members of
  `s` have one digest. `MerkleTrees.Extract` finds such a pair for a forged tree proof.
- `Hasher.dfy`, `HasherShapes.dfy`: hashable values, the bytes they stream, and the exact condition
  under which a type hashes unambiguously.
- `Merkle.dfy`, `MerkleTrees.dfy`, `MerkleCounting.dfy`: the verifier, trees and the prover,
  soundness with an extractor, completeness, binding, and the Kraft inequality behind the
  documented limit on revokers. Random choices are a stream of coin flips or of leaves, so the
  statements hold for every outcome.
- `Anchors.dfy`: the checks and writes of the three calls as functions of storage, and `Effect`,
  what an authorised call does to its one entry. `Pallet.dfy` is the object with its two maps,
  proved against these; its `Valid()` says that its storage is the run of the calls it has
  received, so every statement about runs holds in every reachable state.
- `Runs.dfy`: runs over any sequence of calls. `NonInterference.dfy`, `LifeCycles.dfy`,
  `StorageLattice.dfy`: what runs keep apart, which calls on one entry succeed, and storage as a
  join-semilattice. `Authorisation.dfy`: runs joined with Merkle proofs. `Cardinality.dfy`: sizes of
  finite sets.

Two remarks on the documentation in the source. The comment at `mod.rs` line 74 says that a
suspension is active until `current_time() < suspension_end`; the code, and the model, use
`now <= suspension_end`. The comment at lines 92-93 says that an anchor under the all-zero root is
irrevocable. The pallet does not treat that root specially: the claim depends on the hash function.
`ZeroRootIsNotSpecial` gives a hash function under which it fails, `RevocableIff` says exactly when
a root can be acted under, and `IrrevocableWithoutPreimage` proves the claim from the absence of
32- and 64-byte preimages.

## Model

| member | source | states |
|---|---|---|
| Digests.Digest.Input | vasaplatsen/runtime/src/revocable_anchors/hasher.rs:63-67 | input is appended to what the digest has seen |
| Digests.Digest.Result | vasaplatsen/runtime/src/revocable_anchors/hasher.rs:94-96 | the result is the algorithm applied to everything seen |
| Hasher.HashInto | vasaplatsen/runtime/src/revocable_anchors/hasher.rs:11-67 | hashing a nested value appends exactly its flattened bytes to whatever came before |
| Hasher.HashItemsInto | vasaplatsen/runtime/src/revocable_anchors/hasher.rs:11-17 | the loop over items appends their flattenings in order |
| Hasher.FromPreimage | vasaplatsen/runtime/src/revocable_anchors/hasher.rs:88-97 | a fresh hasher fed with a value yields the algorithm on exactly its flattened bytes |
| Hasher.HashSeesBytesOnly | vasaplatsen/runtime/src/revocable_anchors/hasher.rs:88-97 | values with the same flattening have the same hash, whatever their structure |
| Hasher.PlugFlattens | vasaplatsen/runtime/src/revocable_anchors/hasher.rs:11-67 | items in a list at any depth contribute their own bytes, between those around them |
| Hasher.RegroupingIsInvisible | vasaplatsen/runtime/src/revocable_anchors/merkle.rs:254-267 | nesting neighbours in a tuple, slice or array, at any depth, never changes the digest |
| Hasher.WrappersAreInvisible | vasaplatsen/runtime/src/revocable_anchors/hasher.rs:33-37 | a reference, and the wrapper of a hash, hash like what they hold, at any depth |
| HasherShapes.InjectiveIffParsable | vasaplatsen/runtime/src/revocable_anchors/hasher.rs:11-104 | for every hashable type: values are determined by their bytes if and only if there is at most one slice, with fixed-width elements, repeated in no array or slice |
| HasherShapes.Ambiguity | vasaplatsen/runtime/src/revocable_anchors/hasher.rs:11-61 | every other type has two different values with one flattening, constructed explicitly |
| HasherShapes.DecodableIff | vasaplatsen/runtime/src/revocable_anchors/hasher.rs:11-67 | an unambiguous type has a value for exactly the byte strings of length base + k * step |
| HasherShapes.EqualDigests | vasaplatsen/runtime/src/revocable_anchors/hasher.rs:69-104 | equal digests of such a type mean equal values or a collision of their flattenings |
| HasherShapes.AdjacentSlicesMerge | vasaplatsen/runtime/src/revocable_anchors/merkle.rs:272 | two adjacent references to byte slices hash like one to their concatenation, for all contents |
| HasherShapes.QuartersMerge | vasaplatsen/runtime/src/revocable_anchors/merkle.rs:260-267 | four arrays of eight bytes hash like one of 32, for all contents |
| HasherShapes.BytesHaveShapes | vasaplatsen/runtime/src/revocable_anchors/hasher.rs:11-31 | byte slices and 32-byte outputs have their types, whatever they hold |
| HasherShapes.NodeShapes | vasaplatsen/runtime/src/revocable_anchors/merkle.rs:46-63 | every leaf hash and every pair, by reference or by value, has an unambiguous type of fixed width 32 or 64 |
| Merkle.MergeHashesPair | vasaplatsen/runtime/src/revocable_anchors/merkle.rs:39-52 | merging hashes the pair with the sibling on its own side |
| Merkle.NodeHashesLeaf | vasaplatsen/runtime/src/revocable_anchors/merkle.rs:63-64 | the fold starts from the leaf hash hashed once more |
| Merkle.NodeIsTopDigest | vasaplatsen/runtime/src/revocable_anchors/merkle.rs:54-66 | the left fold from the leaf equals reading the proof from the root end |
| Merkle.TraceIsFoldSteps | vasaplatsen/runtime/src/revocable_anchors/merkle.rs:63-64 | the byte strings a verification hashes: the leaf hash, then each element joined with the node so far |
| Merkle.Binding | vasaplatsen/runtime/src/revocable_anchors/merkle.rs:39-66 | two accepted proofs of one root, one's directions a prefix of the other's, are the same proof of the same leaf, barring a collision |
| Merkle.OpenableIff | vasaplatsen/runtime/src/revocable_anchors/merkle.rs:54-66 | exactly when any root can be opened, by a leaf of a given set, with at most n elements |
| Merkle.NothingOpens | vasaplatsen/runtime/src/revocable_anchors/merkle.rs:16-18 | a root without 32- or 64-byte preimage accepts no proof of any length |
| MerkleTrees.RootHashIsStructural | vasaplatsen/runtime/src/revocable_anchors/merkle.rs:110-122 | a tree's root is the structural hash of a leaf hash or of the pair of subtree roots |
| MerkleTrees.TreePreimagesAre | vasaplatsen/runtime/src/revocable_anchors/merkle.rs:110-122 | the byte strings a root hash is computed from are those of the subtrees' top nodes |
| MerkleTrees.LeafSetIs | vasaplatsen/runtime/src/revocable_anchors/merkle.rs:92-95 | the leaves are what paths from the root reach |
| MerkleTrees.Rp | vasaplatsen/runtime/src/revocable_anchors/merkle.rs:129-149 | pushes the siblings of the drawn path, root first, after what the vector holds, and returns the leaf there |
| MerkleTrees.RandomProof | vasaplatsen/runtime/src/revocable_anchors/merkle.rs:124-154 | the reversed vector is the proof of the drawn leaf, as long as its depth, and the verifier accepts it |
| MerkleTrees.EveryPathIsDrawn | vasaplatsen/runtime/src/revocable_anchors/merkle.rs:140-146 | every root-to-leaf path is drawn by some coin flips |
| MerkleTrees.ProofAtVerifies | vasaplatsen/runtime/src/revocable_anchors/merkle.rs:198-204 | completeness: the proof of every leaf position is accepted and hashes nothing the tree did not |
| MerkleTrees.Soundness | vasaplatsen/runtime/src/revocable_anchors/merkle.rs:54-66 | an accepted proof is the tree's own proof for that leaf, or the extractor returns a collision between the tree's and the verifier's preimages |
| MerkleTrees.NoFalseAlarm | vasaplatsen/runtime/src/revocable_anchors/merkle.rs:124-154 | the extractor returns nothing for the tree's own proofs |
| MerkleTrees.VerifyIff | vasaplatsen/runtime/src/revocable_anchors/merkle.rs:54-66 | without a collision the verifier accepts exactly the tree's own proofs, of any length |
| MerkleTrees.MembershipIff | vasaplatsen/runtime/src/revocable_anchors/merkle.rs:54-66 | a leaf hash has an accepted proof of at most n elements exactly when it occurs at depth at most n, barring a collision |
| MerkleTrees.HashLeavesAt | vasaplatsen/runtime/src/revocable_anchors/merkle.rs:180-190 | hashing all leaves keeps membership and position, barring a collision |
| MerkleTrees.GeneratedTree | vasaplatsen/runtime/src/revocable_anchors/merkle.rs:98-108 | a generated tree has 2^(depth+1)-1 nodes and 2^depth leaves, the drawn values in order |
| MerkleTrees.PerfectDepth | vasaplatsen/runtime/src/revocable_anchors/merkle.rs:98-108 | every leaf of a perfect tree lies at exactly its depth |
| MerkleTrees.PerfectReach | vasaplatsen/runtime/src/revocable_anchors/mod.rs:117 | a leaf of a perfect tree is within a proof limit if and only if the tree's depth is |
| MerkleCounting.Kraft | vasaplatsen/runtime/src/revocable_anchors/mod.rs:21-27 | for any root, the accepted (leaf, proof) pairs weigh at most 2^n in total, each 2^(n - length), barring a collision |
| MerkleCounting.AuthorisedSetBound | vasaplatsen/runtime/src/revocable_anchors/mod.rs:21-24 | for any root, at most 2^n leaf hashes have accepted proofs of at most n elements, barring a collision |
| MerkleCounting.AllOpeningsAre | vasaplatsen/runtime/src/revocable_anchors/merkle.rs:124-154 | a tree's openings are exactly its leaf positions with their own proofs |
| MerkleCounting.TreeMeetsBound | vasaplatsen/runtime/src/revocable_anchors/mod.rs:21-24 | every tree's own openings are accepted and weigh exactly 2^n |
| MerkleCounting.HeightIsDeepest | vasaplatsen/runtime/src/revocable_anchors/merkle.rs:92-95 | a tree's height bounds its proofs and is reached by one |
| MerkleCounting.PerfectTreeAttains | vasaplatsen/runtime/src/revocable_anchors/mod.rs:24 | a perfect tree with distinct leaves authorises 2^depth leaf hashes |
| MerkleCounting.BoundIsAttained | vasaplatsen/runtime/src/revocable_anchors/mod.rs:24-27 | for every hash function the limit is attained, up to depth 16 |
| Anchors.HashAccountId | vasaplatsen/runtime/src/revocable_anchors/mod.rs:163-169 | an account is streamed as a byte slice and hashed once |
| Anchors.CellStep | vasaplatsen/runtime/src/revocable_anchors/mod.rs:94-159 | a call changes only the entry it names: the first creation stays, revocation absorbs, the later end wins; it succeeds exactly when authorised and a change |
| Anchors.ErrorsExplained | vasaplatsen/runtime/src/revocable_anchors/mod.rs:99-156 | which error each failing call returns, and in which order the reasons are considered |
| Anchors.OutcomeIsLocal | vasaplatsen/runtime/src/revocable_anchors/mod.rs:100-155 | the result depends on the call's own entry only |
| Anchors.LeqIsPartialOrder | vasaplatsen/runtime/src/revocable_anchors/mod.rs:59-83 | the order on storage is a partial order |
| Anchors.CallsClimb | vasaplatsen/runtime/src/revocable_anchors/mod.rs:94-159 | entries are never removed, block numbers never change, revocation is final, ends never drop; a call returns Ok exactly when storage changed |
| StorageLattice.JoinIsLeastUpperBound | vasaplatsen/runtime/src/revocable_anchors/mod.rs:59-83 | any two storages have a least upper bound in that order |
| StorageLattice.CallsJoin | vasaplatsen/runtime/src/revocable_anchors/mod.rs:94-159 | an authorised call joins the storage with its one entry, except that creating an existing anchor changes nothing |
| StorageLattice.RunsJoin | vasaplatsen/runtime/src/revocable_anchors/mod.rs:110-159 | a run of revocations and suspensions joins any storage with what the run leaves from nothing |
| Anchors.PastSuspensionIsInvisible | vasaplatsen/runtime/src/revocable_anchors/mod.rs:130-131 | a suspension until a past time changes no query about later times |
| Anchors.CallsCommute | vasaplatsen/runtime/src/revocable_anchors/mod.rs:94-159 | two calls of one block leave the same storage in either order |
| Runs.RunsClimb | vasaplatsen/runtime/src/revocable_anchors/mod.rs:59-83 | every run climbs the order on storage |
| Runs.OrderInBlocksIsIrrelevant | vasaplatsen/runtime/src/revocable_anchors/mod.rs:94-159 | from any storage, whole runs with the same calls in each block leave the same storage, whatever the order inside the blocks |
| Runs.BlockOrderIsIrrelevant | vasaplatsen/runtime/src/revocable_anchors/mod.rs:94-159 | permuting the calls of one block gives the same final storage |
| Runs.ResultsDependOnOrder | vasaplatsen/runtime/src/revocable_anchors/mod.rs:340-349 | but for every hash function some pair of calls has results that depend on their order |
| Runs.AnchorsReadHistory | vasaplatsen/runtime/src/revocable_anchors/mod.rs:94-128 | an anchor is revoked iff an authorised revocation was ever submitted, else carries the block of its first signed creation, else is absent |
| Runs.BlocksArePast | vasaplatsen/runtime/src/revocable_anchors/mod.rs:102-105 | a stored block number never exceeds the current block |
| Runs.SuspensionsReadHistory | vasaplatsen/runtime/src/revocable_anchors/mod.rs:137-159 | a suspension is the maximum end over all authorised suspensions submitted, else absent |
| Runs.SuspendedIff | vasaplatsen/runtime/src/revocable_anchors/mod.rs:180-192 | a leaf is suspended at a time iff an authorised suspension submitted reaches it |
| Runs.SuspensionPersists | vasaplatsen/runtime/src/revocable_anchors/mod.rs:69-77 | a suspension covers all earlier times and never lapses as the run goes on; the largest end covers every time |
| NonInterference.KeptPositions | vasaplatsen/runtime/src/revocable_anchors/mod.rs:61-81 | the positions of the calls on chosen entries, in order |
| NonInterference.DeletionIsInvisible | vasaplatsen/runtime/src/revocable_anchors/mod.rs:61-81 | deleting all calls on other entries changes neither the kept entries nor the result of any kept call |
| NonInterference.AdminSetsAreIndependent | vasaplatsen/runtime/src/revocable_anchors/mod.rs:61-81 | deleting all calls under other admin sets changes neither the lookups nor the results under one |
| NonInterference.AnchorsIgnoreSuspensions | vasaplatsen/runtime/src/revocable_anchors/mod.rs:133 | deleting all suspensions changes no anchor and no result of the other calls |
| NonInterference.SuspensionsIgnoreAnchors | vasaplatsen/runtime/src/revocable_anchors/mod.rs:133 | deleting all creations and revocations changes no suspension and no result of one |
| LifeCycles.NothingIsUndone | vasaplatsen/runtime/src/revocable_anchors/mod.rs:59-83 | no run removes an entry, changes a block number except by revocation, undoes a revocation or shortens a suspension |
| LifeCycles.AnchorSuccessOrder | vasaplatsen/runtime/src/revocable_anchors/mod.rs:94-128 | of two successful calls on one anchor the first is its creation and the second its revocation |
| LifeCycles.AnchorSuccessBound | vasaplatsen/runtime/src/revocable_anchors/mod.rs:94-128 | at most two calls on an anchor succeed in any run |
| LifeCycles.AnchorLifeCycle | vasaplatsen/runtime/src/revocable_anchors/mod.rs:94-128 | the entry tells whether no call, a creation only, or a revocation has succeeded |
| LifeCycles.SuspensionSuccessOrder | vasaplatsen/runtime/src/revocable_anchors/mod.rs:147-157 | of two successful suspensions of one leaf the later reaches strictly further |
| LifeCycles.LeafLifeCycle | vasaplatsen/runtime/src/revocable_anchors/mod.rs:147-157 | the stored end is that of the furthest successful suspension, absent if none succeeded |
| LifeCycles.SuspensionSuccessBound | vasaplatsen/runtime/src/revocable_anchors/mod.rs:147-157 | at most one success per end up to the stored one, 2^64 over any run |
| Authorisation.SuspendedIffAccepted | vasaplatsen/runtime/src/revocable_anchors/mod.rs:180-192 | a leaf is suspended at a time iff a suspension the run accepted reaches it |
| Authorisation.RevocationByMemberOrCollision | vasaplatsen/runtime/src/revocable_anchors/mod.rs:89-90 | over all runs and hash functions, a revoked anchor under a tree's root traces to a signed call; the extractor clears its sender as a leaf at depth at most 16 or returns a collision between the tree and that call's proof |
| Authorisation.SuspensionByMemberOrCollision | vasaplatsen/runtime/src/revocable_anchors/mod.rs:135-136 | the same for a stored suspension and its exact end |
| Authorisation.RevocationIsByMember | vasaplatsen/runtime/src/revocable_anchors/mod.rs:89-90 | over all runs, a revoked anchor under a tree's root was revoked by a signed call of an account whose hash is a leaf at depth at most 16, barring a collision |
| Authorisation.SuspensionIsByMember | vasaplatsen/runtime/src/revocable_anchors/mod.rs:135-136 | a stored suspension was issued by such an account with exactly that end, barring a collision |
| Authorisation.AcceptedByListedAccount | vasaplatsen/runtime/src/lib.rs:240-245 | with the tree built over hashed accounts, the sender of every accepted call is one of these accounts, barring a collision |
| Authorisation.MembersCanAct | vasaplatsen/runtime/src/revocable_anchors/mod.rs:110-159 | a member's own proof is accepted in every state, unless the entry already says so |
| Authorisation.AuthorisedIff | vasaplatsen/runtime/src/revocable_anchors/mod.rs:116-125 | an account passes both checks with some proof exactly when its hash occurs at depth at most 16, barring a collision |
| Authorisation.CallPreimagesAre | vasaplatsen/runtime/src/revocable_anchors/mod.rs:116-125 | what checking one caller hashes: the account, its hash, then each proof element joined with the node so far |
| Authorisation.ActorsAre | vasaplatsen/runtime/src/revocable_anchors/mod.rs:110-159 | the accounts counted are exactly the signers of accepted revocations and suspensions |
| Authorisation.MaxRevokers | vasaplatsen/runtime/src/revocable_anchors/mod.rs:21-24 | whatever the admins root, no run lets more than 2^16 accounts revoke or suspend under it, barring a collision |
| Authorisation.MaxRevokersAttained | vasaplatsen/runtime/src/revocable_anchors/mod.rs:24-27 | for every hash function, in some run 2^16 accounts act under one admins root |
| Authorisation.RevocableIff | vasaplatsen/runtime/src/revocable_anchors/mod.rs:89-93 | exactly when some run revokes an anchor, or suspends a leaf, under a root |
| Authorisation.IrrevocableWithoutPreimage | vasaplatsen/runtime/src/revocable_anchors/mod.rs:92-93 | a root without node preimages is never acted under in any run |
| Authorisation.ZeroRootIsNotSpecial | vasaplatsen/runtime/src/revocable_anchors/mod.rs:92-93 | under some hash function an anchor under the all-zero root is revoked |
| Pallet.Module.CreateAnchor | vasaplatsen/runtime/src/revocable_anchors/mod.rs:94-107 | the object's result, storage and history after the call; Ok exactly when storage changed |
| Pallet.Module.RevokeAnchor | vasaplatsen/runtime/src/revocable_anchors/mod.rs:110-128 | the object's result, storage and history after the call; Ok exactly when storage changed |
| Pallet.Module.SuspendLeaf | vasaplatsen/runtime/src/revocable_anchors/mod.rs:137-159 | the object's result, storage and history after the call; Ok exactly when storage changed |
| Pallet.Module.LookupAnchor | vasaplatsen/runtime/src/revocable_anchors/mod.rs:173-178 | in every reachable object the stored state reads as the history says, with no block number in the future |
| Pallet.Module.LeafSuspendedBy | vasaplatsen/runtime/src/revocable_anchors/mod.rs:183-192 | in every reachable object the query holds iff some authorised suspension received reaches the time |

## Left out

- The internals of Blake2s and SHA-256: the hash function is an arbitrary total function with 32-byte results.
- Output sizes other than 32 bytes: the runtime fixes `[u8; 32]`.
- The type tags of `MerkleRoot` and `Hashed`, `FromAlt`, and derived SCALE encodings: they carry no data.
- Account ids other than the runtime's 32 bytes, as in the test runtime, which hashes eight bytes.
- The 32-bit width of block numbers: the pallet only stores them, so they are naturals here.
- The bound on the depth of generated trees in a debug assertion: the statements hold for every depth.
- Storage hashing, fees, events, sudo and the other modules of the runtime: library configuration.
- Exact error strings: an enumeration stands for them.
- The node, its command line, the chain specification and the infrastructure scripts: only shallow properties.
