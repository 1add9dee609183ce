# A sparse Merkle tree with history, verified

This project models `SmtLib` and `BinarySearchSmtRoots` from `contracts/src/iden3-shims/SmtLib.sol`: a tree of
hash-addressed nodes in which every `addLeaf` makes a new version, a log of the roots of all versions, and proofs of
membership and non-membership against any version, chosen by root, time or block.

The main result is that the whole mutable state is a function of the log of successful writes. After any run of
`initialize`, `setMaxDepth`, `addLeaf` and passing time, with reverted calls in between, in which no node was stored
under hash 0 (see below),

- entry `k` of the root log is the hash of the canonical tree of the map that the first `k` writes leave behind,
- the store holds the nodes of those trees and no others, each under its own hash,
- the inverse index lists, for each root, exactly its positions in the log.

Everything else follows: the root depends on the map alone, `addLeaf` has one of four outcomes decided by the map, the
depth and the hashes, every version answers every query for ever, and looking back in time finds the last write.

## How it is built

| file | content |
|---|---|
| `Words.dfy` | 256-bit words, their bits, and congruence modulo a power of two |
| `Outcomes.dfy` | results and reverts |
| `NodeStore.dfy` | nodes, hashing, the append-only store and `_addNode` |
| `CanonicalTree.dfy` | the abstract trees: one for each map |
| `LeafInsertion.dfy` | `_addLeaf` and `_pushLeaf`, and why they build the canonical tree of the updated map |
| `MembershipProof.dfy` | the walk of `getProofByRoot`, and what a proof says |
| `RootLog.dfy` | root entries, the inverse index, and the search that the binary search refines |
| `BinarySearchSmtRoots.dfy` | the binary search loop |
| `SmtState.dfy` | all operations on the data as functions, and runs of calls under a moving clock |
| `Invariant.dfy` | the invariant of all runs |
| `Reachability.dfy` | reachable states and how runs compose |
| `Updates.dfy` | outcomes of `addLeaf`, canonical roots, version identity, growth, many writes |
| `History.dfy` | the inverse index, lookups by time and block, proofs of all versions, time travel |
| `StoreSoundness.dfy` | the store as an acyclic graph, and what slot 0 has to do with it |
| `AnyHash.dfy` | the exact walk of a proof and the exact effect of an insertion on every store, whatever the hashes |
| `SmtLib.dfy` | the library as a class with updated fields, proved against the functions and the theorems |

An operation appears twice on purpose: as a function on values, total on all states, about which the theorems are
proved, and as a method of the class `Smt` that updates storage as the contract does, whose contract equates it with
the function and adds what it means for the map.

## The hash functions

Both Poseidon contracts are arbitrary functions (`Hasher`). Nothing is assumed about collisions: `_addNode` compares
contents and aborts, and the theorems show that this is enough to tell versions apart.

One hypothesis remains, and it is about a run and not about the functions: slot 0 of the store is still EMPTY at the end
(`ReachedClean`). The contract uses hash 0 for an EMPTY child and never checks that no node hashes to 0. Anyone can check
it with `getNode(0)`. `NeverZeroRunsAreClean` derives it from a hasher that never returns 0. It is exact:
`EmptyVersionNeedsEmptySlot` shows that the empty first version still reads as empty if and only if slot 0 is EMPTY, and
`TimesBeforeWritesNeedEmptySlot` shows that all questions about a time before the first write are answered in the
negative under the same condition. `ZeroHashRewritesThePast` is a run without it in which a value answers for a time
before it was written. The rows below about roots, versions and proofs of versions are for such clean runs
unless they mention slot 0.

The log, the inverse index, the lookups by time and block and the growth bound need no hypothesis. Nor do the exact walk
of a proof (`ProofIsTheWalk`) and the exact effect of `addLeaf` on the stored nodes (`AddLeafEndsAsWalked`). Of the store, the
following holds after every run: each node is under its own hash, each non-zero child is stored, and non-zero links close
no cycle (`NonZeroLinksFall`). Links with child 0 are different, because both walks of the library read slot 0 like any
other. In a clean run they end there. Otherwise the store is free of cycles if and only if nothing below slot 0 links
back to it (`StoreIsAcyclic`), and `ZeroHashClosesACycle` is a run in which slot 0 becomes its own child.

## Where the code says more or less than its comments

- `getProofByTime` and `getProofByBlock` are not guarded by `onlyInitialized`. The comment that an entry is always found
  (SmtLib.sol:612) is true of initialized trees only: for a time or block that is not in the future, the assert after it
  fails if and only if the tree is not initialized (`EntryNotFoundIffUninitialized`).
- `setMaxDepth` is not guarded either. One call on a fresh tree can raise the depth to 256, after which `initialize`,
  which must raise it again, fails for ever (`OneCallLocksOut`). A tree that is not initialized can still become so if
  and only if its depth is below 256 (`InitializableBelowCap`).
- The `value` of a proof is documented as the value of the leaf; when another leaf is found in its place the code also
  stores that leaf's value there (SmtLib.sol:256), and so does the model.
- The two reverts with the message "Max depth reached" are kept apart (`DescentTooDeep`, `PushTooDeep`), which lets
  `AddLeafOutcome` say that the first never happens.

## Model

| member | source | states |
|---|---|---|
| `LeafInsertion.AddLeafAtBuilds` | contracts/src/iden3-shims/SmtLib.sol:453-502 | Inserting into a stored canonical tree of `m` has one exact result in every case: a depth revert if another index of `m` shares all bits down to the maximum depth, a mismatch revert if two of the old and new nodes collide, and otherwise a store that grew by exactly the nodes of the canonical tree of `m[i := v]`, whose hash is returned. |
| `LeafInsertion.AddLeafAtMiddle` | contracts/src/iden3-shims/SmtLib.sol:473-499 | The MIDDLE case of that refinement: the half of the map on the path is updated, the other half is untouched. |
| `LeafInsertion.AddLeafAtLeaf` | contracts/src/iden3-shims/SmtLib.sol:467-472 | The LEAF case: a leaf with the same index is replaced, a different one is pushed down, and both give the canonical tree of the updated map. |
| `LeafInsertion.PushLeafBuilds` | contracts/src/iden3-shims/SmtLib.sol:504-554 | Pushing two leaves apart builds the canonical tree of the two entries, or fails exactly if their indices share every bit that is left. |
| `LeafInsertion.UpdateFits` | contracts/src/iden3-shims/SmtLib.sol:504-532 | An update leaves the indices separable within the depth exactly when it does not clash with an index already there. |
| `LeafInsertion.AddLeafAtGrows` | contracts/src/iden3-shims/SmtLib.sol:453-572 | Whatever the store holds, a successful insertion keeps every slot and writes at most one node per level. |
| `NodeStore.AddNodeWrites` | contracts/src/iden3-shims/SmtLib.sol:556-572 | Adding a node to a sound store adds exactly that node and keeps the store sound, or aborts exactly when its hash belongs to a different node. |
| `NodeStore.SoundStoresWithSameNodesAreEqual` | contracts/src/iden3-shims/SmtLib.sol:556-583 | A store that keeps each node under its own hash is determined by the set of its nodes. |
| `CanonicalTree.CanonIsWellShaped` | contracts/src/iden3-shims/SmtLib.sol:35-46 | The canonical tree of a map holds exactly that map, its leaves lie on the path of their own bits, every middle node has two leaves or more beneath it, and nothing is deeper than the maximum depth allows. |
| `CanonicalTree.CanonIsTheOnlyTree` | contracts/src/iden3-shims/SmtLib.sol:20-24 | For every map over 256-bit indices the canonical tree is the only tree of that shape with those contents. |
| `CanonicalTree.RootHashIsCanonicalHash` | contracts/src/iden3-shims/SmtLib.sol:574-583 | The root of the canonical tree hashes to a recursive digest of the map, written with the two Poseidon functions alone: 0 for no entry, `poseidon3(index, value, 1)` for one, and otherwise `poseidon2` of the two halves. |
| `CanonicalTree.SameHashSameTree` | contracts/src/iden3-shims/SmtLib.sol:556-583 | Within one store a hash stands for one tree, with no assumption on collisions. |
| `Words.AgreeIsCongruence` | contracts/src/iden3-shims/SmtLib.sol:517-518 | Two indices agree on their low n bits exactly when they are congruent modulo 2^n. |
| `Words.BitIsQuotientParity` | contracts/src/iden3-shims/SmtLib.sol:476 | The bit at position d is the parity of the quotient by 2^d. |
| `Words.WordsWithSameBitsAreEqual` | contracts/src/iden3-shims/SmtLib.sol:20-24 | Two 256-bit indices that agree on all 256 bits are equal. |
| `Invariant.RunKeepsInv` | contracts/src/iden3-shims/SmtLib.sol:47-58 | After every run the times and positions in the log are what the log of successful writes determines; so are the roots and the store, and the indices fit the depth, as long as slot 0 is EMPTY. |
| `Invariant.StepKeepsInv` | contracts/src/iden3-shims/SmtLib.sol:145-158 | Every call, reverted or not, keeps that invariant, with the log extended by the write that succeeded. |
| `Invariant.AddLeafKeepsTrees` | contracts/src/iden3-shims/SmtLib.sol:145-158 | A successful `addLeaf` that leaves slot 0 EMPTY keeps all older versions, adds the version of the updated map, and stores exactly its nodes in addition. |
| `Invariant.SetMaxDepthKeeps` | contracts/src/iden3-shims/SmtLib.sol:411-416 | Raising the depth keeps the invariant, so it changes neither versions nor roots. |
| `Reachability.RunKeepsNodes` | contracts/src/iden3-shims/SmtLib.sol:556-572 | Over any further calls nothing leaves the store, the log is only extended, and the depth never falls. |
| `Reachability.NeverZeroRunsAreClean` | contracts/src/iden3-shims/SmtLib.sol:574-583 | If no leaf or middle node hashes to 0, no run ever writes slot 0. |
| `Updates.AddLeafOutcome` | contracts/src/iden3-shims/SmtLib.sol:145-158 | `addLeaf` has exactly four outcomes: not initialized; too deep, if and only if another index of the map is congruent modulo 2^maxDepth; mismatch, if and only if Poseidon gives two of the old and new nodes one digest; or the map updated at the index, an entry with the canonical digest of the updated map, and all else unchanged. The guard of line 459 never fires. |
| `Updates.FullDepthNeverRefuses` | contracts/src/iden3-shims/SmtLib.sol:459-461 | With a maximum depth of 256 no write is refused for depth. |
| `Updates.RootIsCanonical` | contracts/src/iden3-shims/SmtLib.sol:304-306 | The current root is that canonical digest of the current map. |
| `Updates.HistoryIndependence` | contracts/src/iden3-shims/SmtLib.sol:9-10 | Two histories that end in the same map end in the same root, whatever the order, the overwrites and the depth changes. |
| `Updates.VersionIdentity` | contracts/src/iden3-shims/SmtLib.sol:9-10 | Two entries of one history have the same root if and only if their versions are the same map. |
| `Updates.VersionsAreWellShaped` | contracts/src/iden3-shims/SmtLib.sol:35-46 | Every version in the history has the promised shape at the present depth and holds exactly its map. |
| `Updates.RewriteAddsNothing` | contracts/src/iden3-shims/SmtLib.sol:556-572 | Writing a pair that is already there succeeds, adds no node, repeats the root and adds one entry. |
| `Updates.GrowthIsBounded` | contracts/src/iden3-shims/SmtLib.sol:453-572 | After n writes the store has at most n(maxDepth + 1) nodes and the log n + 1 entries, and one more write adds at most maxDepth + 1 nodes. |
| `Updates.WritesSucceedWhenSpread` | contracts/src/iden3-shims/SmtLib.sol:512-514 | A run of writes in which no nodes collide goes through if and only if no two of the indices, old and new, are congruent modulo 2^maxDepth. |
| `Updates.OrderDoesNotMatter` | contracts/src/iden3-shims/SmtLib.sol:512-514 | Hence whether all writes go through depends on the set of indices, not on order or repetition. |
| `MembershipProof.GetProofProves` | contracts/src/iden3-shims/SmtLib.sol:218-272 | On every stored version the walk ends at an EMPTY or LEAF node without leaving the sibling array, and the proof is right: existence exactly for the indices of the map with their values; otherwise the auxiliary leaf is the only one congruent modulo 2^d, or there is none; d is one past the last non-zero sibling; and hashing upwards gives the root. |
| `MembershipProof.PathStopsWhenAlone` | contracts/src/iden3-shims/SmtLib.sol:243-270 | The walk stops at the first depth where at most one entry is left on the path of the index. |
| `MembershipProof.LastSiblingIsNotEmpty` | contracts/src/iden3-shims/SmtLib.sol:259-266 | The last sibling collected is never 0, so the depth of a proof can be read off its siblings. |
| `MembershipProof.PathFoldsUp` | contracts/src/iden3-shims/SmtLib.sol:574-583 | Hashing upwards from the terminal node through the siblings gives the root hash. |
| `RootLog.LatestSplitsTheLog` | contracts/src/iden3-shims/SmtLib.sol:687-689 | In a sorted log the entries made at or before a value are exactly those up to the one found. |
| `RootLog.InfoDescribesEntry` | contracts/src/iden3-shims/SmtLib.sol:585-603 | The info of an entry reports that entry and the next one, or three zeros in place of a next one. |
| `RootLog.PositionsAreExact` | contracts/src/iden3-shims/SmtLib.sol:50 | The positions of a root are its occurrences, each once, in increasing order. |
| `BinarySearchSmtRoots.BinarySearchUint256` | contracts/src/iden3-shims/SmtLib.sol:649-690 | On a log sorted by the field, duplicates included, the loop ends with the greatest index whose field is at most the value, and reports not found exactly when there is none. |
| `History.IndexesInvertTheLog` | contracts/src/iden3-shims/SmtLib.sol:403-405 | In every reachable state the index of a root lists exactly its positions in increasing order, and `rootExists` holds exactly for roots in the log. |
| `History.RootInfoIsOfLastOccurrence` | contracts/src/iden3-shims/SmtLib.sol:346-353 | `getRootInfo` describes the last occurrence of a root, with its successor or zeros. |
| `History.LogIsSorted` | contracts/src/iden3-shims/SmtLib.sol:437-442 | The log starts at zero and stays sorted by time and by block, never ahead of the clock. |
| `History.LookupFindsCurrentEntry` | contracts/src/iden3-shims/SmtLib.sol:605-616 | On an initialized tree the assert never fails, the entry found was current (made by then and not replaced until after), and the info returned describes it. |
| `History.EntryNotFoundIffUninitialized` | contracts/src/iden3-shims/SmtLib.sol:605-616 | In every reachable state, and for every time or block, the lookup and the proof fail at the assert if and only if the tree is not initialized and the time is not in the future. |
| `History.FreshTreeFindsNoEntry` | contracts/src/iden3-shims/SmtLib.sol:605-616 | On a tree just deployed every lookup that is not about the future fails at that assert. |
| `History.RootZeroOccursOnce` | contracts/src/iden3-shims/SmtLib.sol:440 | Root 0 is the first entry of the history and no other. |
| `History.InfosChain` | contracts/src/iden3-shims/SmtLib.sol:585-603 | Consecutive infos chain on root, time and block; the info without a successor is that of the current entry, and reports no time or block of replacement. |
| `History.UnknownRootsAreRefused` | contracts/src/iden3-shims/SmtLib.sol:135-138 | In every reachable state a proof or an info for a root is refused with "Root does not exist" if and only if the root is not in the log. |
| `History.ProofOfEveryVersion` | contracts/src/iden3-shims/SmtLib.sol:218-272 | Every root in the log can be asked about every index, and the answer proves the map of its version. |
| `History.ProofsPersist` | contracts/src/iden3-shims/SmtLib.sol:218-272 | A proof against a root in the history is given again after any further calls, only padded with zeros when the depth grew. |
| `History.TimeTravel` | contracts/src/iden3-shims/SmtLib.sol:280-302 | Asking about a time or block reports existence exactly if the index had been written by then, with the value of the last such write, writes in the same block included, and the proof is against the canonical digest of the map of that moment. |
| `History.ProofByTimeIsByRoot` | contracts/src/iden3-shims/SmtLib.sol:280-302 | On any hasher, a question about a time or block has the answer of `getProofByRoot` for the root that was current then. |
| `AnyHash.DescentIsTheWalk` | contracts/src/iden3-shims/SmtLib.sol:240-270 | On every store the proof loop follows the links chosen by the index bits, collects the siblings, and ends at the first EMPTY or LEAF node, or fails exactly if it is at a MIDDLE node at the maximum depth. |
| `AnyHash.ProofIsTheWalk` | contracts/src/iden3-shims/SmtLib.sol:218-272 | After any run, on any hasher, a proof against a root in the log reports exactly that walk, field by field. |
| `AnyHash.AddLeafAtEndsAsWalked` | contracts/src/iden3-shims/SmtLib.sol:453-554 | On every store of nodes under their own hashes, an insertion is refused for depth exactly where the walk to its index says so, and otherwise writes exactly the path from the new leaf up past the siblings of the walk, prolonged until the old leaf becomes a sibling, or aborts exactly on a collision. |
| `AnyHash.AddLeafAtReadsBack` | contracts/src/iden3-shims/SmtLib.sol:453-554 | On every store, the walk from the hash that an insertion returns ends at the leaf written. |
| `AnyHash.AddLeafEndsAsWalked` | contracts/src/iden3-shims/SmtLib.sol:145-158 | After any run, on any hasher, `addLeaf` on an initialized tree ends as the walk from the current root says, and a proof against the new root has the value written. |
| `StoreSoundness.StoreIsAcyclic` | contracts/src/iden3-shims/SmtLib.sol:504-583 | After any run, some rank falls along every link the walks follow, those to slot 0 included, if and only if slot 0 is EMPTY or no node below it links back to 0. |
| `StoreSoundness.NonZeroLinksFall` | contracts/src/iden3-shims/SmtLib.sol:504-583 | After any run, whatever the hashes, each node is under its own hash, its non-zero children are present, and some rank falls along every non-zero link. |
| `StoreSoundness.ZeroHashClosesACycle` | contracts/src/iden3-shims/SmtLib.sol:243-270 | A run in which the node in slot 0 becomes its own right child: no rank falls along that link, and a proof against root 0 runs off the sibling array. |
| `StoreSoundness.RankIsBoundedByDepth` | contracts/src/iden3-shims/SmtLib.sol:504-583 | In a clean run the rank can be the height of the tree below a node, which the maximum depth bounds. |
| `LeafInsertion.AddLeafAtLinks` | contracts/src/iden3-shims/SmtLib.sol:453-554 | Inserting keeps three things: nodes are under their own hashes, non-zero children are stored, and non-zero links close no cycle (links with child 0 are not covered). |
| `Reachability.RunKeepsLinks` | contracts/src/iden3-shims/SmtLib.sol:556-572 | So does every run from deployment, on every hasher, again for non-zero links only. |
| `StoreSoundness.EmptyVersionNeedsEmptySlot` | contracts/src/iden3-shims/SmtLib.sol:440-441 | The empty first version still denies every index if and only if slot 0 of the store is EMPTY. |
| `StoreSoundness.ZeroHashRewritesThePast` | contracts/src/iden3-shims/SmtLib.sol:582 | A run with a hasher that maps leaves to 0, in which a value written at time 10 answers at time 0. |
| `StoreSoundness.TimesBeforeWritesNeedEmptySlot` | contracts/src/iden3-shims/SmtLib.sol:280-302 | All questions about a time or block before the first write are answered in the negative if and only if slot 0 is EMPTY. |
| `StoreSoundness.InitializableBelowCap` | contracts/src/iden3-shims/SmtLib.sol:411-442 | A reachable tree is initialized, now or after some further calls, if and only if it is already or its depth is below 256. |
| `StoreSoundness.OneCallLocksOut` | contracts/src/iden3-shims/SmtLib.sol:411-416 | The single call `setMaxDepth(256)` on a fresh tree reaches a state that no further calls initialize. |
| `StoreSoundness.CapBeforeInitializeLocksOut` | contracts/src/iden3-shims/SmtLib.sol:411-442 | From depth 256 without initialization no run initializes the tree or logs a write. |
| `SmtLib.Smt.constructor` | contracts/src/iden3-shims/SmtLib.sol:47-58 | The zeroed struct is where every run starts, at the given time and block. |
| `SmtLib.Smt.Initialize` | contracts/src/iden3-shims/SmtLib.sol:437-442 | Succeeds exactly on an uninitialized tree with a greater depth within the cap, and then leaves that depth, the empty map and the entry of root 0 at time 0; a revert leaves everything as it was and names the first requirement that fails. |
| `SmtLib.Smt.SetMaxDepth` | contracts/src/iden3-shims/SmtLib.sol:411-416 | Succeeds exactly for a greater depth within the cap, and then changes the depth and nothing else; a revert names the first requirement that fails. |
| `SmtLib.Smt.AddLeaf` | contracts/src/iden3-shims/SmtLib.sol:145-158 | Updates the map at the index or changes nothing, with the outcome decided by the old map, the depth and collisions; and on any hasher writes the path that the walk to the index prescribes. |
| `SmtLib.Smt.InsertLeaf` | contracts/src/iden3-shims/SmtLib.sol:145-158 | The call itself has the specified effect, and a revert anywhere in it leaves all storage as it was. |
| `SmtLib.Smt.AddLeafAt` | contracts/src/iden3-shims/SmtLib.sol:453-502 | The recursive method that writes storage computes the specified store and hash, or reverts for the specified reason. |
| `SmtLib.Smt.PushLeaf` | contracts/src/iden3-shims/SmtLib.sol:504-554 | The same for pushing two leaves apart. |
| `SmtLib.Smt.AddNode` | contracts/src/iden3-shims/SmtLib.sol:556-572 | The same for one node; and from a sound store it succeeds exactly if the node collides with none, and then adds that node and no other. |
| `SmtLib.Smt.AddEntry` | contracts/src/iden3-shims/SmtLib.sol:618-629 | Appends the entry and its position, changes nothing else, and keeps the inverse index equal to the positions in the log. |
| `SmtLib.Smt.GetRoot` | contracts/src/iden3-shims/SmtLib.sol:304-306 | Returns the root of the last entry, which is the canonical digest of the current map, exactly on an initialized tree. |
| `SmtLib.Smt.CollectProof` | contracts/src/iden3-shims/SmtLib.sol:223-271 | The loop that fills the sibling array returns the specified proof or revert, on any storage, and refuses exactly the roots without a position. |
| `SmtLib.Smt.GetProofByRoot` | contracts/src/iden3-shims/SmtLib.sol:218-272 | Refuses exactly the roots that are not in the log, and answers for every other with a proof for the map of each version that has this root. |
| `SmtLib.Smt.GetProof` | contracts/src/iden3-shims/SmtLib.sol:208-210 | Answers with a proof for the current map against its canonical digest. |
| `SmtLib.Smt.GetProofByTime` | contracts/src/iden3-shims/SmtLib.sol:280-287 | Reports existence exactly if the index had been written by that time, with the last value written, by a proof against the root that was current then, the canonical digest of the map of that moment; fails at the assert exactly on an uninitialized tree. |
| `SmtLib.Smt.GetProofByBlock` | contracts/src/iden3-shims/SmtLib.sol:295-302 | The same by block number. |
| `SmtLib.Smt.GetRootInfoByTime` | contracts/src/iden3-shims/SmtLib.sol:313-325 | Reverts for the future, fails at the assert exactly on an uninitialized tree, and otherwise describes the entry that was current at that time and its successor. |
| `SmtLib.Smt.GetRootInfoByBlock` | contracts/src/iden3-shims/SmtLib.sol:332-339 | The same by block number. |
| `SmtLib.Smt.GetRootInfoByTimestampOrBlock` | contracts/src/iden3-shims/SmtLib.sol:605-616 | The binary search describes the entry that was current at the value, as a backward scan of the log would, and fails exactly if all entries are later. |
| `SmtLib.Smt.GetRootInfo` | contracts/src/iden3-shims/SmtLib.sol:346-353 | Describes the last occurrence of a root and its successor, and reverts exactly for roots that are not in the log. |

## Left out

- `getRootHistory` and `getRootInfoListByRoot`: their page bounds come from `ArrayUtils`, which is not part of this model.
- `setHasher`, `IHasher` and `PoseidonHasher`: the registered hasher is discarded and never called.
- The Poseidon bytecode: the two hash functions are arbitrary total functions on 256-bit words.
- `getRootHistoryLength`, `getNode`, `getMaxDepth`, `isInitialized` and `getRootInfoListLengthByRoot`: they return a field.
- Machine width of positions, times and depths: indices, values and hashes are 256-bit words, the other numbers are unbounded, so the sum of the binary search's bounds cannot overflow; in the contract it could only with 2^255 entries.
- The flat node struct with a type tag: nodes are a datatype whose three cases carry only the fields that case uses, the others being 0 in the source.
- Storage gaps, memory copies, gas and library linkage.
- The revert of a call undoes its writes by restoring the node mapping, in place of the transaction rollback of the chain.
- The Go application, scripts and deployment files of the repository, which configure external modules.
