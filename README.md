# LegoLog core, modelled in Dafny

LegoLog is a transparency log for key material. Every partition keeps a
*base tree*, a persistent binary prefix tree with one version per
verification period. It also keeps one *update tree* per update epoch,
which is an ordinary prefix tree. The root hash of each update tree is
appended to an *update log*, a chronological Merkle tree. The
aggregated-history variant also keeps a *history forest*: an append-only
forest of perfect Merkle trees over the base tree's frozen root hashes.
Clients check membership proofs (a copath plus the leaf's values) and
non-membership proofs (a conflicting node plus its copath) against the
roots a digest reports. Log consistency is checked with the
consistency proof of section 2.1.2 of RFC 6962.

This project models the core of the repository in Dafny. It covers these
files of `core/`:

- the prefix tree and its copy routines;
- the persistent prefix tree;
- the chronological tree;
- the history forest and its nodes;
- the set tree;
- the two partitions and their proof checks.

Hashing, the leaf-hash functions and signature verification are
uninterpreted functions, passed in as a record (`Crypto.Primitives`).
Every theorem holds for every choice of them.

Pointer graphs become arenas, maps from identities to node records,
held in classes whose methods update them in place. Each arena is tied to
a functional trie (`TrieSpec.Node`) that states what the structure means.
The operations are proved against that trie:

- insertion, which adds one value to one key and leaves every other key
  alone;
- lookup;
- membership and non-membership proofs, whose round trips are proved
  (`TrieWalk.MembershipRoundTrip`, `TrieWalk.NonMembershipRoundTrip`);
- RFC 6962 consistency, whose generated proofs the verifier accepts for
  every pair of sizes (`Consistency.ConsistencyRoundTrip`);
- the forest's roots, one per set bit of its size, with `GetOldDigest`
  equal to the digest of the forest at that size;
- copies, which are indistinguishable from their source;
- the partitions' state machine;
- what each validator accepts on an honest proof.

Module by module:

| file | module | models |
|---|---|---|
| wrappers.dfy | Wrappers | Option and Result |
| bits.dfy | Bits | bit strings, ConvertBitsToBytes, getBit, shifts |
| crypto.dfy | Crypto | hash primitives, makePrefixFromKey |
| trie_spec.dfy | TrieSpec | the functional trie, PrefixAppend, splitCompressedNode |
| trie_walk.dfy | TrieWalk | getLeaf's walk, proofs and their round trips |
| copath.dfy | Copath | getPrefix, getRootHash, computeRootHash(Non)Membership |
| trie_arena.dfy, trie_query.dfy | TrieArena, TrieQuery | the arena of prefixTree nodes, its shape and hash invariants |
| prefix_tree.dfy | PrefixTrees | prefixTree (core/prefix_tree.go) |
| copy_utils.dfy | PrefixCopy | copyFast and the deep copies (core/prefix_tree_copy_utils.go) |
| persistent_store.dfy, persistent_query.dfy, persistent_tree.dfy | PersistentStore, PersistentQuery, PersistentTrees | persistentPrefixTree as written (core/persistent_prefix_tree.go) |
| versioned_trie.dfy | VersionedTries | the persistent prefix tree as its design intends, on values |
| chron.dfy, consistency.dfy | ChronTrees, Consistency | ChronTree and RFC 6962 consistency (core/chron_node.go) |
| forest_bits.dfy, history.dfy | ForestBits, HistoryForests | HistoryForest and its nodes (core/history_forest.go, core/history_node.go) |
| set_tree.dfy | SetTrees | SetTree (core/set_tree.go) |
| proof_checks.dfy | LegologProofs | validateExistenceProof, validateNonExistenceProof, validateNonMembershipProof |
| epoch_trees.dfy | EpochTrees | the update tree built by IncrementUpdateEpoch |
| partition.dfy | Partitions | Partition (core/partition.go) |
| partition_agghist.dfy | AggHistPartitions | AggHistPartition (core/partition_agghist.go) |
| verifiers.dfy | Verifiers | ValidatePKProof and ValidateMKProof of both partitions |

## Model

| member | source | states |
|---|---|---|
| Bits.GetBit | core/prefix_tree.go:87-89 | the bit at index i is 0 or 1; BitsOfAt ties the whole expansion to it |
| Bits.BitsOfAt | core/prefix_tree.go:70-85 | the expansion has 8 entries per byte, and entry i is getBit(input, i) |
| Bits.ConvertBitsToBytes | core/prefix_tree.go:70-85 | the loop's result is the bit expansion: eight 0/1 bytes per input byte, most significant first |
| Crypto.KeyPrefix | core/prefix_tree.go:63-65 | makePrefixFromKey is the bit expansion of the key's hash: a bit string of 8 * DigestLen entries |
| Copath.GetPrefixSnoc | core/prefix_tree.go:283-289 | an entry added on top of the copath (nearer the root) puts its label in front: getPrefix reads the labels from the root down |
| Copath.GetRootHash | core/prefix_tree.go:292-318 | with no copath entries, the end node's hash; with entries, a non-nil digest of DigestLen bytes (the round-trip lemmas of TrieWalk say which) |
| Copath.ComputeRootHashMembership | core/prefix_tree.go:324-329 | nil exactly when the copath labels followed by the leaf label do not spell the key |
| Copath.ComputeRootHashNonMembership | core/prefix_tree.go:331-350 | nil exactly when the copath labels are not a prefix of the key, or the next key bit is not the first bit of the end label, or the end node exists and its whole label matches the rest of the key |
| TrieSpec.AddChild | core/prefix_tree.go:110 | a new child goes into the slot its label's first bit selects; the other slot is kept |
| TrieSpec.Split | core/prefix_tree.go:240-253 | the split node is a node labelled prefix[..j] whose only child is the old node, relabelled prefix[j..] |
| TrieSpec.SplitWF | core/prefix_tree.go:240-253 | the split node with the new leaf beside the old node is a well-formed inner node labelled with the common part |
| TrieSpec.SplitLookupOther | core/prefix_tree.go:121-124 | splitting for key k with the new leaf beside the node changes no lookup other than k's |
| TrieSpec.SplitLookupNew | core/prefix_tree.go:121-124 | after the split, k holds exactly the new value, and the old node did not hold k |
| TrieSpec.InsertBelow | core/prefix_tree.go:91-133 | PrefixAppend on the trie: an inner node with the same identity and label, and the slot the key does not enter unchanged (InsertLookupSame and InsertLookupOther give the lookups) |
| TrieSpec.InsertWF | core/prefix_tree.go:91-133 | PrefixAppend keeps labels bit strings, children in their slots and inner nodes binary |
| TrieSpec.InsertLookupSame | core/prefix_tree.go:91-133 | after PrefixAppend(k, kh), k holds its old values followed by kh |
| TrieSpec.InsertLookupOther | core/prefix_tree.go:91-133 | PrefixAppend(k, kh) leaves every other key's lookup unchanged |
| TrieSpec.InsertIds | core/prefix_tree.go:110-123 | the new tree keeps every node identity and adds at most the two new ones |
| TrieSpec.InsertDistinct | core/prefix_tree.go:110-123 | fresh identities keep the nodes of the tree distinct |
| TrieSpec.UniformCanInsert | core/prefix_tree.go:104-128 | when all keys have one length, PrefixAppend of a key of that length never indexes past the key (no panic) |
| TrieSpec.InsertUniform | core/prefix_tree.go:91-133 | PrefixAppend of a key of the common length keeps all keys of one length |
| TrieWalk.WalkReached | core/prefix_tree.go:135-156 | a walk that uses up the key has a path whose labels spell the key |
| TrieWalk.WalkNoChild | core/prefix_tree.go:135-156 | a walk stopped at a missing child spells a proper prefix of the key, and the next byte's slot is empty |
| TrieWalk.WalkDiverges | core/prefix_tree.go:135-156 | a walk stopped at a diverging label: the path above spells a proper prefix, and the last label leaves the key |
| TrieWalk.WalkLookup | core/prefix_tree.go:135-156 | getLeaf finds the key's values exactly when the walk is used up on a leaf, both directions |
| TrieWalk.UniformWalk | core/prefix_tree.go:135-156 | with keys of one length, no walk step panics, and a missing child can only be one of the root's |
| TrieWalk.CopathFold | core/prefix_tree.go:218-238 | folding a node's copath from its hash and label gives the tree's hash |
| TrieWalk.MembershipProofOf | core/prefix_tree.go:158-172 | a proof exists exactly when the key is present, and it carries the key's values |
| TrieWalk.NonMembershipProofOf | core/prefix_tree.go:174-216 | none exactly when the walk uses up the key on a node, so none for a present key |
| TrieWalk.MembershipRoundTrip | core/prefix_tree.go:158-172 | the membership proof of a present key recomputes the tree's hash from the key and the values |
| TrieWalk.NonMembershipRoundTrip | core/prefix_tree.go:174-216 | the non-membership proof of an absent key recomputes the tree's hash from the key |
| TrieWalk.NonMembershipCompute | core/prefix_tree.go:331-350 | a proof for a diverging node passes every check of computeRootHashNonMembership |
| TrieWalk.InsertAlong | core/prefix_tree.go:104-128 | once the labels along a path spell the first i key bytes, appending at the root is appending below that node |
| TrieQuery.WalkAtStep | core/prefix_tree.go:135-156 | one step of getLeaf: down to the child of the next key byte, stopping when the key is used up |
| TrieQuery.ConflictWalk | core/prefix_tree.go:199-213 | the consumed key bytes plus the conflicting child's whole label lead the walk to that child (conflictingPrefix) |
| TrieQuery.ClimbEntry | core/prefix_tree.go:218-238 | one round of buildCopathFromNode: the parent's record gives the next copath entry, and the climb goes on from the parent |
| TrieArena.ClimbStep | core/prefix_tree.go:255-267 | rehashing the bottom of the stale path leaves only the path above it stale |
| TrieArena.ComputedHashOK | core/prefix_tree.go:255-267 | with its children's hashes stored, updateHash computes the node's trie hash |
| PrefixTrees.Replay | core/prefix_tree.go:371-390 | replaying a history of appends from an empty tree gives a root node: the root identity and an empty label |
| PrefixTrees.ReplayAppend | core/prefix_tree.go:371-390 | one more append extends the replay by one insertion |
| PrefixTrees.AppendToTree | core/prefix_tree.go:91-133 | after PrefixAppend the tree stays well formed with distinct identities |
| PrefixTrees.AppendLookups | core/prefix_tree.go:91-133 | after PrefixAppend the key holds its old values and then the new one, and no other key changes |
| PrefixTrees.PrefixTree.constructor | core/prefix_tree.go:47-61 | an empty root, not complete, no appends |
| PrefixTrees.PrefixTree.GetHash | core/prefix_tree.go:269-271 | the root's stored hash: nil before the first append, the trie's hash after |
| PrefixTrees.PrefixTree.Complete | core/prefix_tree.go:273-275 | the tree is marked complete and stays valid, so PrefixAppend refuses from then on |
| PrefixTrees.PrefixTree.SplitCompressedNode | core/prefix_tree.go:240-253 | the node's label is cut at index: a new record takes the first part, and the old node keeps the rest, below it |
| PrefixTrees.PrefixTree.UpdateHash | core/prefix_tree.go:122 | one node's hash is recomputed from its label and values, or from its label and its children's hashes |
| PrefixTrees.PrefixTree.AddValue | core/prefix_tree.go:129-130 | the value is appended to the leaf's values; nothing else changes |
| PrefixTrees.PrefixTree.UpdateHashesFromLeaf | core/prefix_tree.go:255-267 | rehashes from the leaf to the root; if only the path to the leaf was stale, every stored hash is then up to date |
| PrefixTrees.PrefixTree.FindAppendPoint | core/prefix_tree.go:102-128 | PrefixAppend's walk stops at a missing child, at a label that leaves the key, or with the key used up |
| PrefixTrees.MatchLabel | core/prefix_tree.go:115-127 | the count of label bytes that agree with the key from position i; the key is read only while those bytes agree |
| PrefixTrees.MatchBound | core/prefix_tree.go:115-127 | where a child's label and the key part ways, the key goes on, so the loop stays in bounds |
| PrefixTrees.PrefixTree.AppendMissing | core/prefix_tree.go:109-113 | at a missing child, a new leaf holding the rest of the key fills the empty slot |
| PrefixTrees.PrefixTree.AppendSplit | core/prefix_tree.go:120-125 | at a label that leaves the key after j bytes, the split happens with the new leaf beside the node |
| PrefixTrees.PrefixTree.AppendToLeaf | core/prefix_tree.go:129-132 | where the key ends at a leaf, the leaf gets the value |
| PrefixTrees.PrefixTree.PrefixAppend | core/prefix_tree.go:91-133 | a complete tree refuses with an error and no change; otherwise the append is recorded, the trie becomes InsertBelow of the key and value, and every hash is up to date |
| PrefixTrees.PrefixTree.GetLeaf | core/prefix_tree.go:135-156 | the node where the walk is used up, or none at a missing child or a diverging label |
| PrefixTrees.PrefixTree.BuildCopathFromNode | core/prefix_tree.go:218-238 | the copath of the starting node: for every ancestor, its label and the hash of its other child |
| PrefixTrees.PrefixTree.GenerateMembershipProof | core/prefix_tree.go:158-172 | equal to MembershipProofOf the trie, so the membership round trip applies to it |
| PrefixTrees.PrefixTree.GenerateNonMembershipProof | core/prefix_tree.go:174-216 | equal to NonMembershipProofOf the trie, so the non-membership round trip applies to it |
| PrefixTrees.EmptySlotProof | core/prefix_tree.go:185-198 | the proof at an empty slot is one of the root's, and it stands in for that slot |
| PrefixTrees.DivergingProof | core/prefix_tree.go:199-213 | the proof at a diverging label names that node, its hash and its copath |
| PrefixTrees.PrefixTree.HasValue | core/prefix_tree.go:392-403 | true exactly when the key is present and one of its values has the given hash |
| PrefixTrees.PrefixTree.Copy | core/prefix_tree.go:371-390 | a new tree that replays the recorded appends: same trie, appends and root hash, not complete |
| PrefixTrees.PrefixTree.CopyFast | core/prefix_tree_copy_utils.go:3-42 | a new tree whose records are fresh copies of this tree's: same trie, lookups and hashes, same appends |
| PrefixCopy.CopiedSame | core/prefix_tree_copy_utils.go:3-42 | a copy is well formed exactly when its source is, answers every lookup the same way, and has the same hash |
| PrefixCopy.CopiedHashed | core/prefix_tree_copy_utils.go:3-42 | a copy of a tree whose stored hashes are up to date stores up-to-date hashes too |
| PrefixCopy.DeepCopyInternalNode | core/prefix_tree_copy_utils.go:44-90 | nil for nil; otherwise fresh records for the node and everything below it, numbered from next, a copy of the source subtree |
| PrefixCopy.CloneLeafNode | core/prefix_tree_copy_utils.go:215-224 | a new leaf record with the leaf's label, hash and values under parent; nothing else in the arena changes |
| PrefixCopy.DeepCopyInternalNodeIterative | core/prefix_tree_copy_utils.go:92-213 | the parent-pointer walk copy of a child of the root produces a copy of that subtree hung under the new root |
| PrefixCopy.CopyStep | core/prefix_tree_copy_utils.go:118-210 | one iteration of the loop keeps the walk invariant and lowers the measure (the loop ends) |
| PrefixCopy.CopyTree | core/prefix_tree_copy_utils.go:3-42 | copyFast on the arenas: a new root with the source root's label and hash, and both children copied under it |
| PrefixCopy.RootCopied | core/prefix_tree_copy_utils.go:3-42 | the two copied children under the new root make a copy of the source tree |
| PersistentStore.ViewWF | core/persistent_prefix_tree.go:100-173 | the trie reachable from any record is well formed; it is a root exactly when its label is empty |
| PersistentStore.ViewEpochs | core/persistent_prefix_tree.go:87-92 | every record reachable from an epoch's root is no newer than that epoch |
| PersistentStore.ViewKept | core/persistent_prefix_tree.go:24-56 | persistence: the snapshot of a record older than the current epoch is unchanged by a step |
| PersistentStore.SnapshotKept | core/persistent_prefix_tree.go:87-92 | a past epoch's root keeps its snapshot, its stored hash, and whether the hashes below it are stored |
| PersistentStore.PastKept | core/persistent_prefix_tree.go:79-92 | SnapshotKept for every past epoch's root at once |
| PersistentStore.FreshHashOK | core/persistent_prefix_tree.go:284-306 | with its children's hashes stored, updateHash computes the hash of the record's snapshot |
| PersistentStore.Versioning | core/persistent_prefix_tree.go:24-56 | makeNextMetadata's writes add exactly the new version's record to the store (VersioningLinked says they are one step) |
| PersistentStore.VersioningLinked | core/persistent_prefix_tree.go:24-56 | makeNextMetadata's writes keep the store linked, and they are one step of the tree |
| PersistentStore.SplitLeafStep | core/persistent_prefix_tree.go:142-161 | the split case of Insert is one step: the leaf with the rest of the key goes into topHalf's empty slot |
| PersistentTrees.PersistentPrefixTree.constructor | core/persistent_prefix_tree.go:69-77 | an empty root at epoch 0, size 0 |
| PersistentTrees.PersistentPrefixTree.GetRootAtEpoch | core/persistent_prefix_tree.go:87-92 | the current root for the current epoch, the frozen root otherwise; a root record no newer than the epoch |
| PersistentTrees.PersistentPrefixTree.GetHash | core/persistent_prefix_tree.go:79-81 | the root's stored hash, which is the trie's hash once the hashes below it are stored |
| PersistentTrees.PersistentPrefixTree.NextEpoch | core/persistent_prefix_tree.go:355-360 | the current root and size are frozen, and the new epoch starts from them; len(roots) equals currEpoch |
| PersistentTrees.PersistentPrefixTree.MakeNextMetadata | core/persistent_prefix_tree.go:24-56 | a new version of an old record for the current epoch; its parent, versioned first when old, takes it in the slot of its first bit |
| PersistentTrees.PersistentPrefixTree.UpdateChild | core/persistent_prefix_tree.go:251-267 | the child goes into a slot of the node, or of a new version when the node is old; past epochs are kept |
| PersistentTrees.PersistentPrefixTree.UpdateHash | core/persistent_prefix_tree.go:284-306 | the record's hash is recomputed; when it differs from the stored one, it goes into the record, or into a new version when old |
| PersistentTrees.PersistentPrefixTree.UpdateHashesFromLeaf | core/persistent_prefix_tree.go:269-282 | one step that keeps past epochs; the current root stays a root record; after the first insert under an old, empty root, the current root is either childless or a version carrying the old hash (see FirstInsertLost) |
| PersistentTrees.PersistentPrefixTree.SplitNode | core/persistent_prefix_tree.go:175-249 | topHalf takes the first idx bits and hangs from node's parent; botHalf takes the rest, node's values and its children or their versions |
| PersistentTrees.PersistentPrefixTree.AddValue | core/persistent_prefix_tree.go:165-171 | the value goes to the end of the leaf's values, in a new version when the leaf is old |
| PersistentTrees.PersistentPrefixTree.AttachLeaf | core/persistent_prefix_tree.go:114-133 | a new leaf with the rest of the key hangs under the root, in a new version of the root when it is old |
| PersistentTrees.PersistentPrefixTree.SplitInsert | core/persistent_prefix_tree.go:136-161 | splitNode cuts the label where it differs from the key, and the new leaf goes into topHalf's other slot |
| PersistentTrees.PersistentPrefixTree.Place | core/persistent_prefix_tree.go:100-171 | Insert before rehashing: past epochs are kept and the store stays valid; a new leaf is added exactly when the key was absent |
| PersistentTrees.PersistentPrefixTree.Insert | core/persistent_prefix_tree.go:100-173 | past epochs keep their tries and hashes; the size grows by one exactly when a new leaf is made |
| PersistentTrees.PersistentPrefixTree.LeafAt | core/persistent_prefix_tree.go:420-453 | the record where the epoch's walk is used up, or none |
| PersistentTrees.PersistentPrefixTree.LookupPath | core/persistent_prefix_tree.go:316-353 | the records below the root on the key's walk; an error for a future epoch or for a key the walk does not use up |
| PersistentTrees.PersistentPrefixTree.GetLeaf | core/persistent_prefix_tree.go:308-314 | the last record of LookupPath, or none when it fails |
| PersistentTrees.PersistentPrefixTree.GetPath | core/persistent_prefix_tree.go:573-601 | the records from the epoch's root down to the leaf, following the labels of the prefix |
| PersistentTrees.PersistentPrefixTree.BuildCopathFromNodeFromRoot | core/persistent_prefix_tree.go:603-630 | the copath of the path's last node in the epoch's trie, lowest entry first |
| PersistentTrees.PersistentPrefixTree.BuildCopathFromMissingNode | core/persistent_prefix_tree.go:542-571 | for an empty root slot: the root's entry with the hash of its other child |
| PersistentTrees.PersistentPrefixTree.GenerateMembershipProof | core/persistent_prefix_tree.go:455-469 | for an epoch whose hashes are stored, MembershipProofOf that epoch's trie |
| PersistentTrees.PersistentPrefixTree.GenerateNonMembershipProof | core/persistent_prefix_tree.go:471-540 | for an epoch whose hashes are stored, NonMembershipProofOf that epoch's trie |
| PersistentQuery.InsertWalk | core/persistent_prefix_tree.go:104-164 | Insert's walk from a root stops at an empty slot, inside a diverging label at its bit j, or with the key used up |
| PersistentQuery.CommonRun | core/persistent_prefix_tree.go:136-163 | the length of the longest run on which the label agrees with the key from position i |
| PersistentQuery.FullKeyWalk | core/persistent_prefix_tree.go:308-353 | for a full-length key, the walks from a root never panic |
| VersionedTries.RootHash | core/persistent_prefix_tree.go:79-81 | getHash's value: when non-nil it is the trie's hash; nil only for a root that holds no key |
| VersionedTries.VersionedTrie.constructor | core/persistent_prefix_tree.go:69-77 | an empty root at epoch 0 of size 0 |
| VersionedTries.VersionedTrie.GetHash | core/persistent_prefix_tree.go:79-92 | the root hash of the epoch: when non-nil, that epoch's trie hash; nil only when the trie holds no key |
| VersionedTries.VersionedTrie.NextEpoch | core/persistent_prefix_tree.go:355-360 | the current trie, hash and size are frozen; every past epoch keeps its trie and hash |
| VersionedTries.VersionedTrie.Insert | core/persistent_prefix_tree.go:100-173 | the key gains the value in the current trie; other keys are unchanged; the root hash is the new trie's; size grows by one exactly when the key was absent |
| VersionedTries.InsertFacts | core/persistent_prefix_tree.go:100-173 | inserting a full-length key keeps all keys of one length and changes that key alone |
| VersionedTries.EpochRoundTrip | core/persistent_prefix_tree.go:455-540 | at every epoch, the current one included: a present key's proof folds to getHash, and an absent key's proof passes against it |
| ChronTrees.Split | core/chron_node.go:265-268 | k < n <= 2k: the split point of section 2.1 of RFC 6962 (SplitLogUnique pins it to the power of two) |
| ChronTrees.SplitLogUnique | core/chron_node.go:265-268 | SplitLog is the only s with 2^s < n <= 2^(s+1) |
| ChronTrees.ShapeSplit | core/chron_node.go:183-246 | a tree of n leaves as Append shapes it has depth CeilLog2(n), and its left subtree holds the split of n |
| ChronTrees.GrowLogTree | core/chron_node.go:183-198 | a new root over a full tree and the new leaf keeps the log's tree shaped and hashed, with the leaf last |
| ChronTrees.GrowLogState | core/chron_node.go:183-246 | Append on a non-empty log keeps its state: over a full tree a new root one level up and twice the room, otherwise a push |
| ChronTrees.LogStateGap | core/chron_node.go:200-223 | a log that is neither empty nor full has a gap on the right spine, so Append pushes and never takes the `curr == c.root` branch |
| ChronTrees.ShapeModels | core/chron_node.go:56-65 | a shaped tree whose hashes are its children's has the Merkle Tree Hash of its leaves |
| ChronTrees.GenProofIsSubProof | core/chron_node.go:254-277 | on a shaped, hashed tree, generateConsistencyProof is SUBPROOF of section 2.1.2 of RFC 6962 |
| ChronTrees.ChronTree.constructor | core/chron_node.go:150-158 | no nodes, room for one |
| ChronTrees.ChronTree.GetRootHash | core/chron_node.go:160-165 | Hash() of nothing for the empty log, the Merkle Tree Hash of the leaves otherwise |
| ChronTrees.ChronTree.Append | core/chron_node.go:167-246 | a leaf hashed from the content and position is appended; the room doubles exactly when a full tree grows |
| ChronTrees.ChronTree.AppendLeaf | core/chron_node.go:183-246 | Append on a non-empty log: the leaf is last and the room doubles exactly when the tree was full |
| ChronTrees.ChronTree.GenerateConsistencyProof | core/chron_node.go:248-277 | empty for old size 0; otherwise SUBPROOF(m, leaves, true) |
| ChronTrees.VerifyConsistencyProof | core/chron_node.go:279-330 | the loops compute the verdict of the fold, and the proof hashes as the call leaves them |
| ChronTrees.DropOnes | core/chron_node.go:303-306 | the first loop shifts fn and sn right while fn is odd: StripOnes |
| ChronTrees.FoldLoop | core/chron_node.go:311-327 | the loop over the proof hashes ends in the fold's state, or fails where sn reaches 0 early |
| Consistency.ConsistencyRoundTrip | core/chron_node.go:279-330 | for every 0 <= m <= n, the proof generated for m is accepted against the roots of the first m leaves and of all n |
| Consistency.RoundTripProper | core/chron_node.go:279-330 | the round trip when the old size is strictly between 0 and the new size |
| Consistency.SubProofComplete | core/chron_node.go:258-263 | the generated proof lacks the old root exactly when m is a power of two; the verifier prepends it then |
| Consistency.FoldProofIsFoldAll | core/chron_node.go:311-327 | the verifier's loop over the generated proof is the recursive fold over the tree |
| ForestBits.RootsCount | core/history_forest.go:31-37 | there is one root per set bit of the size |
| ForestBits.RootsDecreasing | core/history_forest.go:31-37 | the roots are ordered by strictly decreasing height |
| ForestBits.RootsTile | core/history_forest.go:31-37 | the roots tile the leaves: each tree starts where the previous ends, and the last ends at the size |
| ForestBits.Carry | core/history_forest.go:25-37 | appending leaf s pops the TrailingOnes(s) smallest roots and pushes their merged tree |
| ForestBits.OldRootsAreRoots | core/history_forest.go:135-155 | the high-to-low loop of getOldRoots finds the same roots as the forest of that size |
| HistoryForests.DigestOf | core/history_forest.go:213-224 | the size, and one hash per root of a forest of that size |
| HistoryForests.NewestOf | core/history_node.go:111-118 | one entry per root of a forest of that many leaves (NewestAppended says which leaf each is) |
| HistoryForests.NewestAppended | core/history_node.go:111-118 | each root's newest leaf is an appended one |
| HistoryForests.MismatchFrom | core/history_forest.go:97-105 | the first position from k on where the old root's hash differs from the requested one, and all before agree |
| HistoryForests.FindMismatch | core/history_forest.go:97-105 | the loop finds MismatchFrom from 0 |
| HistoryForests.HistoryForest.constructor | core/history_forest.go:261-281 | the root and the path of left children down to the first leaf; no leaves |
| HistoryForests.HistoryForest.CompleteLeaf | core/history_node.go:34-39 | the leaf takes the appended hash and period; nothing else changes |
| HistoryForests.HistoryForest.Complete | core/history_node.go:111-118 | the node becomes its completed form over its two children (Completed); nothing else changes |
| HistoryForests.HistoryForest.CreateRightChild | core/history_node.go:121-133 | a fresh incomplete child at shift 2 * shift + 1, stored on the parent |
| HistoryForests.HistoryForest.CreateLeftChild | core/history_node.go:135-146 | a fresh incomplete child at shift 2 * shift, stored on the parent |
| HistoryForests.HistoryForest.Pop | core/history_forest.go:242-249 | the last root is dropped and returned |
| HistoryForests.HistoryForest.AddRoot | core/history_forest.go:252-254 | the node becomes the last root |
| HistoryForests.HistoryForest.Append | core/history_forest.go:21-54 | a full forest is unchanged; otherwise the leaf is appended, the size grows by one, and the forest invariant (roots of the new size) holds |
| HistoryForests.HistoryForest.MergeCompleted | core/history_forest.go:29-37 | the merge loop stops at the carries of s and leaves the roots of s less its TrailingOnes(s) smallest |
| HistoryForests.HistoryForest.CreatePath | core/history_forest.go:43-53 | a right child under the new root's parent, then left children down to leaf s + 1 |
| HistoryForests.HistoryForest.RootsPopcount | core/history_forest.go:21-54 | len(Roots) == popcount(Size), and every root holds the perfect-tree hash of its leaves |
| HistoryForests.HistoryForest.RootsNewest | core/history_node.go:111-118 | every root carries the hash and period of the newest leaf under it |
| HistoryForests.HistoryForest.OldRootsPresent | core/history_forest.go:135-155 | for a size the forest has passed, the old roots are those of that size, and they exist |
| HistoryForests.HistoryForest.GetNodeFromIndex | core/history_forest.go:168-183 | walking down from the root, turning toward the index, reaches the node of that index |
| HistoryForests.HistoryForest.GetNode | core/history_forest.go:185-192 | the node at depth and shift |
| HistoryForests.HistoryForest.GetLeafNode | core/history_forest.go:195-210 | the leaf at the low depth bits of pos; a completed leaf holds that leaf's hash |
| HistoryForests.HistoryForest.GetOldRoots | core/history_forest.go:135-155 | the roots of the forest when it held oldSize leaves |
| HistoryForests.HistoryForest.GetDigest | core/history_forest.go:213-224 | the digest of the forest over its leaves |
| HistoryForests.HistoryForest.GetOldDigest | core/history_forest.go:228-239 | for oldSize <= Size, the digest of the forest over the first oldSize leaves; GetOldDigest(Size) == GetDigest() |
| HistoryForests.HistoryForest.ExtensionPath | core/history_forest.go:110-128 | the siblings and newest-leaf hashes met on the climb from the node to the target depth |
| HistoryForests.HistoryForest.GenerateExtensionProof | core/history_forest.go:91-108 | the extension path from the last old root up to the first mismatching root's depth; empty between equal sizes |
| SetTrees.KeyValuesOf | core/set_tree.go:32-37 | every input's value is among its key's values, and every value of a key comes from an input with that key |
| SetTrees.ComputeFrontier | core/set_tree.go:48-80 | nothing at maxDepth; every key found strictly extends prefixSoFar (RootFrontier says which keys) |
| SetTrees.RootFrontier | core/set_tree.go:38 | at the root, computeFrontier from depth 1 finds exactly the root's empty slots, and none when keys are one bit long |
| SetTrees.FrontierStep | core/set_tree.go:39-44 | appending a frontier key fills its slot and leaves the others empty |
| SetTrees.LeafRecord | core/set_tree.go:128-131 | the record getLeaf returns is a leaf exactly when the key is present, and then it holds the key's values |
| SetTrees.SetTree.HasKey | core/set_tree.go:109-112 | true exactly when the walk of the cut key is used up on a node, so always when the cut key is present |
| SetTrees.SetTree.GetLeaf | core/set_tree.go:128-131 | getLeaf on the key cut to prefixLen |
| SetTrees.SetTree.HasValue | core/set_tree.go:114-126 | true exactly when the cut key is present and one of its values has the given hash |
| SetTrees.SetTree.ProveExistence | core/set_tree.go:82-85 | MembershipProofOf the key cut to prefixLen |
| SetTrees.SetTree.ProveNonExistence | core/set_tree.go:87-107 | MembershipProofOf the bits the loop collects (Probe) |
| SetTrees.CollectBits | core/set_tree.go:92-104 | the loop collects one key bit per step down until a node without children: Probe |
| SetTrees.NewSetTree | core/set_tree.go:19-46 | the keys, cut to the first prefix's length, hold exactly their inputs' value hashes; then one frontier leaf per empty root slot; err is nil |
| SetTrees.AppendKeys | core/set_tree.go:32-37 | after the first loop, every key of the common length looks up exactly the values its inputs give it |
| SetTrees.AppendFrontier | core/set_tree.go:39-44 | the frontier keys are appended as their own value hashes at position 0; keys of other lengths are unchanged |
| SetTrees.FrontierKeepsKeys | core/set_tree.go:39-44 | the frontier leaves leave the lookups of the input keys alone |
| SetTrees.SetTreeHoldsInputs | core/set_tree.go:19-46 | the tree holds every input key, cut to the common length, with the input's value hash among its values |
| LegologProofs.ValidateExistenceProof | core/partition.go:369-408 | the loop over the leaf values comes to ExistenceVerdict; ExistenceEntryAccepted states when an honest entry passes |
| LegologProofs.ValidateNonExistenceProof | core/partition.go:423-454 | an entry claiming a value is refused; an accepted entry has a membership proof whose frontier is a prefix of the key, with that frontier at position 0 as its only value |
| LegologProofs.ValidateNonMembershipProof | core/partition_agghist.go:362-371 | a nil root accepts; an accepted entry against a root has a checkable proof whose non-membership fold equals the root |
| LegologProofs.TrieEntry | core/partition.go:243-325 | the entry GenerateExistenceProof builds for one trie: a membership proof with the values when getLeaf finds the key, a non-membership proof otherwise |
| LegologProofs.ExistenceEntryAccepted | core/partition.go:369-408 | an entry from a trie holding the key is accepted against the trie's hash exactly when the value's leaf hash is among the key's values and the signature verifies |
| LegologProofs.ExistenceEntryOfAbsentKeyPanics | core/partition.go:369-373 | an entry from a trie without the key makes validateExistenceProof panic: it has no membership proof |
| LegologProofs.NonMembershipEntryAccepted | core/partition_agghist.go:362-371 | an entry from a trie without the key passes validateNonMembershipProof against the trie's hash |
| LegologProofs.FrontierEntryAccepted | core/partition.go:423-454 | a set-tree frontier leaf's membership proof passes validateNonExistenceProof |
| EpochTrees.BuildUpdateTree | core/partition.go:335-338 | the update tree has each buffered key with its value hash at position 0, in buffer order |
| EpochTrees.UpdateStepAt | core/partition.go:336-338 | appending update i adds its value to its key's lookup and leaves every other key alone |
| EpochTrees.MissingKeys | core/partition.go:341-348 | the buffered keys getLeaf does not find |
| EpochTrees.NothingMissing | core/partition.go:341-348 | the update tree holds every buffered key, so the "should not happen" branch is never taken |
| Partitions.NextPos | core/partition.go:193 | pos += 1 on a uint32: one more, modulo 2^32 |
| Partitions.ChainRecords | core/partition.go:350-352 | an update log holds one record per update trie, numbered by update epoch, with that trie's root hash |
| Partitions.LogCommits | core/partition.go:140-160 | the log root GetDigest reports is the Merkle Tree Hash of one record per update tree, committing to their root hashes |
| Partitions.RootsCover | core/partition.go:140-160 | the reported update roots fit the update tries: a nil root is that of a trie without keys |
| Partitions.NextUpdate | core/partition.go:327-353 | the update tree built from the buffer, its root hash, and both lists and logs extended by one epoch |
| Partitions.RootHashes | core/partition.go:147-150 | each update tree's root hash, in order |
| Partitions.ExistenceProofFor | core/partition.go:243-325 | the base tree's entry, then one entry per update tree, each TrieEntry of its trie |
| Partitions.UpdateEntry | core/partition.go:300-318 | the entry built from one update PrefixTree object with getLeaf and the membership or non-membership proof builder is the entry of the trie that object holds |
| Partitions.ObjectEntries | core/partition.go:299-319 | the loop over the update PrefixTree objects yields, in order, exactly the entries TrieEntries gives for the tries those objects hold, the same as the value-level UpdateEntries |
| Partitions.Partition.constructor | core/partition.go:112-138 | an empty base tree with epochs 0 and 1 frozen, empty logs and buffer, and a hash chain from the two nil roots |
| Partitions.Partition.Append | core/partition.go:179-233 | the key joins the buffer with its leaf hash; the base tree's current trie gains the value at pos; other keys and past epochs are unchanged; pos wraps at 2^32 |
| Partitions.Partition.IncrementUpdateEpoch | core/partition.go:327-353 | a new update trie holding the buffer joins both lists, both logs record its root under the new epoch, and the buffer is cleared |
| Partitions.Partition.IncrementVerificationPeriod | core/partition.go:355-367 | the base tree freezes its epoch; the verification log and trees become the query ones; from period 2 on the hash chain absorbs both roots and the epoch |
| Partitions.Partition.GetDigest | core/partition.go:140-160 | the base tree's last two frozen root hashes and earlier size, the query log's root and size, the update roots, the epoch and the chain |
| Partitions.Partition.GetUpdateEpochConsistencyProof | core/partition.go:166-177 | an empty proof when the log is too short; otherwise the log's consistency proof from the old size |
| Partitions.Partition.GenerateExistenceProof | core/partition.go:243-325 | the entry of the base tree's epoch two before the verification period, then one per query update tree |
| AggHistPartitions.Frozen | core/partition_agghist.go:86-111 | one forest leaf per frozen epoch (FrozenNext and FrozenNewest say which) |
| AggHistPartitions.FrozenNext | core/partition_agghist.go:86-111 | one more period adds the epoch two periods back, unless the forest is full |
| AggHistPartitions.FrozenNewest | core/partition_agghist.go:113-227 | each forest root's newest leaf is one of the frozen epochs, with its own hash |
| AggHistPartitions.ForestPairing | core/partition_agghist.go:113-227 | the root hashes GetDigest reports are those of the tries GenerateExistenceProof reads |
| AggHistPartitions.QueryCovers | core/partition_agghist.go:203-227 | the reported update roots fit the query tries they start with |
| AggHistPartitions.NewestHashes | core/partition_agghist.go:218-221 | each forest root's newest leaf hash, in order |
| AggHistPartitions.BaseEntries | core/partition_agghist.go:125-150 | the entry of the base tree's trie at each forest root's period, in order |
| AggHistPartitions.AggHistPartition.constructor | core/partition_agghist.go:35-48 | an empty base tree, a forest of the configured depth, empty logs and buffers, period and epoch 0 |
| AggHistPartitions.AggHistPartition.Append | core/partition_agghist.go:50-60 | the update joins both buffers; the base tree's current trie gains the value at position 0; other keys and past epochs are unchanged |
| AggHistPartitions.AggHistPartition.IncrementUpdateEpoch | core/partition_agghist.go:62-84 | a new update trie of the buffered updates joins both lists, both logs record its root, and the buffer is cleared |
| AggHistPartitions.AggHistPartition.IncrementVerificationPeriod | core/partition_agghist.go:86-111 | the period advances, the base tree freezes, the forest gains epoch v - 2 unless full, and the verify side moves to the query side |
| AggHistPartitions.AggHistPartition.Freeze | core/partition_agghist.go:91-93 | the forest's leaves go from the frozen epochs of v - 1 periods to those of v |
| AggHistPartitions.AggHistPartition.GetDigest | core/partition_agghist.go:203-227 | the newest leaf hash of every forest root, the verify log's root, and the roots of the query and verify update trees |
| AggHistPartitions.AggHistPartition.GenerateExistenceProof | core/partition_agghist.go:113-201 | one entry per forest root from the base tree's trie at that root's period, then one per query update trie |
| Verifiers.PKVerdict | core/partition.go:456-504 | Accepted implies the last membership entry passes validateExistenceProof against the root at its index |
| Verifiers.ValidatePKProof | core/partition.go:456-504 | the loop's verdict is PKVerdict |
| Verifiers.MKFrom | core/partition.go:519-537 | Accepted only when some entry from i on is a membership entry |
| Verifiers.MKVerdict | core/partition.go:506-538 | Accepted only when some update entry is a membership entry |
| Verifiers.ValidateMKProof | core/partition.go:506-538 | the verdict is MKVerdict |
| Verifiers.MKLoop | core/partition.go:519-537 | the loop's verdict is MKFrom from entry 0 |
| Verifiers.AggUpdateFrom | core/partition_agghist.go:268-293 | Accepted only when a latest membership entry was handed on or some entry from i on is a membership entry |
| Verifiers.AggBaseLoop | core/partition_agghist.go:243-265 | the base-tree loop stops with the check's outcome or hands on the latest membership entry |
| Verifiers.AggValidatePKProof | core/partition_agghist.go:236-293 | the verdict of the base-tree loop, then the update loop |
| Verifiers.AggValidatePKProofMonitoring | core/partition_agghist.go:295-360 | the base-tree loop, then a membership entry must have been seen |
| Verifiers.AggMKUpdateFrom | core/partition_agghist.go:387-411 | Accepted only when a membership entry was already proved or some entry from i on is one |
| Verifiers.AggValidateMKProof | core/partition_agghist.go:374-412 | the base-tree loop, then the update-log loop |
| Verifiers.AggBaseFrom | core/partition_agghist.go:243-265 | the base-tree loop from entry i on: Accepted only when a latest membership entry was handed in, a base entry from i on is a membership entry, or (outside monitoring) an update entry is one |
| Verifiers.AggBaseOrdered | core/partition_agghist.go:262-264 | an accepting base-tree loop sees no non-membership entry after a membership entry: the membership entries form a suffix |
| Verifiers.AggPKVerdict | core/partition_agghist.go:236-293 | AggHistVerifier.ValidatePKProof accepts only when some base or update entry is a membership entry, and the base membership entries form a suffix |
| Verifiers.AggMonitoringVerdict | core/partition_agghist.go:295-360 | ValidatePKProofMonitoring accepts only when some base entry is a membership entry, and the base membership entries form a suffix |
| Verifiers.AggMKBaseFrom | core/partition_agghist.go:376-411 | ValidateMKProof from base entry i on: Accepted only when no base entry from i on is a membership entry and some update entry is one |
| Verifiers.AggMKVerdict | core/partition_agghist.go:374-412 | AggHistVerifier.ValidateMKProof as written: Accepted only when no base entry is a membership entry and some update entry is one |
| Verifiers.AggMKBaseLoop | core/partition_agghist.go:376-385 | any base membership entry refuses; every non-membership entry must pass |
| Verifiers.AggMKUpdateLoop | core/partition_agghist.go:387-411 | the loop's verdict is AggMKUpdateFrom from entry 0 |
| Verifiers.FirstHolderFrom | core/partition.go:519-537 | the first trie from index i on holding the key: it holds it and none between i and it does |
| Verifiers.LastHolderFrom | core/partition_agghist.go:268-293 | the last trie from index i on holding the key: it holds it and none after it does |
| Verifiers.HonestMember | core/partition.go:369-408 | an honest membership entry, checked against its trie's hash, never panics and comes to the honest verdict |
| Verifiers.HonestNonMember | core/partition_agghist.go:362-371 | an honest non-membership entry passes against its trie's hash or a nil root |
| Verifiers.LastMembershipOfTries | core/partition.go:478-491 | the last membership entry of an honest list is that of the last trie holding the key |
| Verifiers.PKHonest | core/partition.go:456-504 | as written, on an honest proof: the last update trie holding the key decides; with none, a base membership panics |
| Verifiers.MKHonest | core/partition.go:506-538 | as written, on an honest proof: refused with no update tries; the first update trie decides when it holds the master key; when it does not, that first entry has no membership proof and its check panics |
| Verifiers.AggUpdateHonest | core/partition_agghist.go:268-293 | on honest entries, the last update trie from i on holding the key decides, else the latest base entry |
| Verifiers.AggPKHonest | core/partition_agghist.go:236-293 | on an honest proof over base trees that keep a key once present: the last tree holding the key decides |
| Verifiers.LatestVerdict | core/partition_agghist.go:236-293 | what the AggHist PK check should answer on an honest proof: never a panic, and Accepted only when the signature verifies and some update or base tree holds the key |
| Verifiers.AggMonitoringHonest | core/partition_agghist.go:295-360 | accepted exactly when some base tree holds the key, whatever the value |
| Verifiers.AggMKBaseHonest | core/partition_agghist.go:376-385 | refused when a base tree holds the master key, otherwise handed on to the update loop |
| Verifiers.CheckedAggMKHonest | core/partition_agghist.go:374-412 | as intended: accepted exactly when no base tree holds the master key and exactly one update trie does, with a passing entry |
| SetTrees.ProbeMissesCompressedNode | core/set_tree.go:87-107 | as written: for keys 000, 111, 001 the loop proves 01 for the absent key 011, a key the tree does not hold, so no proof exists; an absence proof does |
| SetTrees.AbsenceComplete | core/set_tree.go:87-107 | as intended: every absent key has an absence proof |
| SetTrees.AbsenceSound | core/set_tree.go:87-107 | as intended: an absence proof is a frontier leaf that is a proper prefix of the key, or a gap, and either recomputes the tree's hash |
| SetTrees.NewSetTreeChecked | core/set_tree.go:19-46 | as intended: an error exactly when the lengths differ, and otherwise a tree whose keys hold exactly their inputs' value hashes |
| LegologProofs.NilRootAcceptsUnboundProof | core/partition.go:369-408 | as written: an empty membership proof with the expected leaf hash is accepted against a nil root; the checked verdict refuses it |
| LegologProofs.CheckedExistenceVerdict | core/partition.go:369-408 | as intended: accepted only when the proof spells the key, the expected leaf hash is among the values and the signature verifies |
| LegologProofs.CheckedExistenceEntryAccepted | core/partition.go:369-408 | as intended: an honest entry is accepted exactly when the leaf hash is among the key's values and the signature verifies |
| Verifiers.BaseOnlyMembershipPanics | core/partition.go:456-504 | as written: a key only in the base tree makes validatePKProof read UpdateSetRoots[-1]; the checked verdict accepts it |
| Verifiers.CheckedPKVerdict | core/partition.go:456-504 | as intended: accepted only on an update membership entry or a passing base entry; with an update membership entry, the same verdict as written |
| Verifiers.CheckedPKHonest | core/partition.go:456-504 | as intended, on an honest proof: the last update trie holding the key decides, else the base tree does |
| Verifiers.MKAfterNonMemberPanics | core/partition.go:529-533 | as written: a master key added in the second update epoch makes validateMKProof panic; the checked verdict accepts it |
| Verifiers.CheckedMKVerdict | core/partition.go:506-538 | as intended: Accepted only when some update entry is a membership entry |
| Verifiers.CheckedMKHonest | core/partition.go:506-538 | as intended, on an honest proof: the first update trie holding the master key decides; with none, refused |
| Verifiers.CheckedAggMKVerdict | core/partition_agghist.go:374-412 | AggHistVerifier.ValidateMKProof as intended (non-membership update entries checked with validateNonMembershipProof): Accepted only when no base entry is a membership entry and some update entry is one |
| Verifiers.AggMKAfterNonMemberPanics | core/partition_agghist.go:400-404 | as written: a master key added in the second update epoch makes the aggregated check panic; the checked verdict accepts it |
| PersistentTrees.FirstInsertLost | core/persistent_prefix_tree.go:100-173 | as written: after NextEpoch, the first Insert leaves the key missing from the current trie or its hash nil |
| VersionedTries.FirstInsertKept | core/persistent_prefix_tree.go:100-173 | as intended: the same sequence leaves the key with its value in the current trie and the trie's hash as the epoch's hash |

## Left out

- The String helpers, fmt printing and timing calls are left out. They produce no state and no verdict. persistentPrefixTree.getSize (core/persistent_prefix_tree.go:83-85) is modelled as the GetSize functions of PersistentTrees.PersistentPrefixTree and VersionedTries.VersionedTrie.
- Partition.ProveNonexistence is commented out (core/partition.go:542-578, under a "TODO: fix" note) and is not modelled. As a side note, its body reads `m.getOldRoots` and `m.GenerateExtensionProof`, but no `m` is in scope.
- The commented-out HistoryForest.GenerateExistenceProof (core/history_forest.go:56-88) is not modelled.
- AggHistPartition.GetUpdateEpochConsistencyProof (core/partition_agghist.go:229-231) is not modelled. It returns nil and has no behaviour to state.
- crypto.Hash, ComputeLeafNodeHash, ComputeContentHash and VerifyBlob are uninterpreted functions (`Crypto.Primitives`).
  - The hash is taken to return a fixed-length digest (`Crypto.HashFn`, DigestLen bytes).
  - No collision resistance is assumed, so no result depends on it.
- Crypto.ZeroDigest serves only as the witness that the digest type is inhabited.
- LegologProofs.SignedValue: the Go formats int(pos) of a uint64 position, so a pos of 2^63 or more prints as a negative number; the model prints pos as a natural and does not capture that wrap.
- uint32 and uint64 widths are modelled as unbounded naturals, except where they are written out:
  - PrefixAppend's pos, ChronTree numNodes, maxNodes, oldSize and requestedSize, sizesAtEpoch, Digest.Size, verificationPeriod and the epochs are all `nat`.
  - A log of 2^32 entries, where maxNodes doubling would wrap, is not modelled.
  - Written out: Partition.pos wraps at 2^32 (`Partitions.NextPos`), the history forest's capacity `1 << depth` is zero from depth 32 on (`HistoryForests.Cap`), and sn in VerifyConsistencyProof wraps when the new size is 0.
- The node helpers getChild, getSibling, addChild, newInteriorNode and leafHash live in files outside this model (prefix_node.go and similar). They are modelled from their use:
  - a child's slot is chosen by the first bit of its label (`TrieSpec.Child`, `TrieSpec.AddChild`);
  - a node's hash is Hash(label, left, right) or the leaf hash of its label and values (`TrieSpec.HashOf`).
- Go panics are preconditions. Each of the following states what the caller must avoid:
  - PrefixTrees.PrefixTree.PrefixAppend requires `CanInsert` (a key longer than the labels it passes).
  - Copath.GetRootHash requires `RootHashDefined`.
  - PrefixTrees.PrefixTree.GenerateMembershipProof and GenerateNonMembershipProof require `MembershipSafe` / `NonMembershipSafe`.
  - HistoryForests.HistoryForest.Append requires `depth >= 1 || Full()`, because the type assertion at core/history_forest.go:25 panics at depth 0.
  - AggHistPartitions.AggHistPartition.IncrementVerificationPeriod requires `verificationPeriod == 0 || baseTreeForest.depth >= 1`: with a forest of depth 0, the second call reaches that same panic. NewAggHistPartition accepts any depth, and so does the constructor.
  - HistoryForests.HistoryForest.GenerateExtensionProof requires `ExtensionDefined`, because of the roots[i] read at core/history_forest.go:98.
  - SetTrees.NewSetTree requires `|valHashes| >= |prefixes|`, non-empty prefixes and `Cuttable`, because of the valHashes[i] and prefixes[i][:prefixLen] reads at core/set_tree.go:24-33.
  - SetTrees.SetTree.ProveNonExistence requires `Probe(...).Some?`, because a nil child is read at core/set_tree.go:95.
  - Partitions.Partition.GetDigest requires a non-empty query log, because the log's root is read without a nil check.
  - PrefixTrees.PrefixTree.GetLeaf and HasValue require `WalkSafe(tree, prefix)`, because the slice prefix[i:i+len(partialPrefix)] at core/prefix_tree.go:148 panics when a label runs past the key.
  - PersistentTrees.PersistentPrefixTree.LeafAt, LookupPath, GetLeaf, GetPath, BuildCopathFromNodeFromRoot and ProbeForConflict (the conflict search of GenerateNonMembershipProof) require `WalkSafe` on the epoch's trie, for the same slice in their walks (core/persistent_prefix_tree.go).
  - PersistentTrees.PersistentPrefixTree.GetLeaf also requires a non-empty key when the epoch is not in the future, because ret[len(ret)-1] is read only then.
  - PersistentTrees.PersistentPrefixTree.Insert requires `|prefix| == K && IsBits(prefix)`: every key of one tree has the same length K. The partitions only insert 256-bit identifier hashes (core/partition.go:191, core/partition_agghist.go:58), but Go itself accepts keys of different lengths in one tree, as core/persistent_prefix_tree_test.go:17-25 does with keys of 3, 2 and 3 bits. Trees with mixed key lengths are not modelled.
  - VersionedTries.VersionedTrie.Insert requires `|prefix| == 8 * DigestLen && IsBits(prefix)`, a 256-bit identifier hash, for the same reason.
  - SetTrees.Cuttable's `IsBits` conjunct is not a Go panic: the model's tries take keys as bit strings (one byte per bit), while Go sends any non-zero byte to the right child. Keys with other byte values are not modelled.
- Nil pointers are modelled only at the entry level: a nil MembershipProof or NonMembershipProof is `None` in `LegologProofs.ProofEntry`, and the checks return `Panics` where the Go dereferences it. A nil entry in a proof's lists (a nil *MembershipOrNonmembershipProof) or a nil node inside a copath is not modelled; the model's proofs hold values there.
- PrefixTrees.PrefixTree.BuildCopathFromNode returns the prefix hashes as a new sequence. The Go prepends them in place to proof.PrefixHashes.
- ChronTrees.VerifyConsistencyProof returns the prefixed proof hashes as a result. The Go prepends the old root to the caller's proof in place.
- ChronTrees.ChronTree.GenerateConsistencyProof requires requestedSize to be the log's size and oldSize <= requestedSize.
  - Every caller passes that.
  - For other sizes the Go walks the current root as if it held requestedSize leaves. That result is not stated.
- SetTrees.ComputeFrontier ignores Go slice aliasing. `append(prefixSoFar, frontierBit)` can share a backing array with the next `append(prefixSoFar, bit)` (core/set_tree.go:58-61). This is harmless in the model's use, where computeFrontier starts at the root, whose label is empty.
- The update trees and update logs of the partitions are held as values: the trie of each tree and the records of each log.
  - Their objects are modelled in PrefixTrees and ChronTrees, whose contracts tie the values to the objects (getHash to `RootHash`, GetRootHash to MTH of the leaves).
  - Partitions.Partition.GenerateExistenceProof builds its update entries from the held tries. Partitions.ObjectEntries runs the same loop over PrefixTree objects through Partitions.UpdateEntry and yields the same entries; the partition itself does not hold those objects.
  - Aliasing of the same prefixTree between the query and verification lists is therefore not modelled.
- The partitions' base tree is VersionedTries.VersionedTrie, the persistent tree with its Insert corrected (see Findings). The as-written persistent tree is modelled in PersistentTrees.
- VersionedTries.VersionedTrie models versions as a sequence of tries rather than as records versioned in place. The in-place versioning is PersistentTrees.PersistentPrefixTree.
- AggHistPartitions.AggHistPartition.IncrementUpdateEpoch requires and keeps `Logs()`, the invariant of the logs and update lists. It does not restate the whole `Valid()`: the base tree and the forest are outside its modifies clause and are unchanged.
- Verifiers.AggPKHonest and Verifiers.AggMonitoringHonest require `Kept`: a key, once in a base tree, stays in every later one. The append-only base tree gives this, but the lemmas do not derive it from the partition.
- PersistentTrees.PersistentPrefixTree.Insert does not state the current epoch's trie or hash. As written, the first insert after NextEpoch can lose the key or leave the root's hash nil (see Findings). The present-key path at an older epoch (core/persistent_prefix_tree.go:165-172) appends to the new version's values but rehashes from the old leaf, so it can plausibly leave the root's hash stale too; no lemma exhibits that case. The corrected VersionedTries.VersionedTrie.Insert states both.

## Findings

| source | as written | input that shows it | evidently intended | confidence | as-written member | corrected member |
|---|---|---|---|---|---|---|
| core/set_tree.go:87-107 | ProveNonExistence steps one bit per node and ignores compressed labels | keys {000, 111, 001}: 011 is not in the set, but the loop passes over the compressed node labelled 00 and proves a prefix the tree does not hold | a frontier leaf whose key is a prefix of the absent key, with its membership proof | not executed | SetTrees.ProbeMissesCompressedNode | SetTrees.AbsenceComplete, SetTrees.AbsenceSound |
| core/set_tree.go:19-46 | the unequal-length error is overwritten by the first PrefixAppend's result | prefixes of length 2 and valHashes of length 3: err is nil | unequal lengths give an error and no tree | not executed | SetTrees.NewSetTree | SetTrees.NewSetTreeChecked |
| core/partition.go:369-408 | the computed root is compared with bytes.Equal, which accepts nil against nil | an entry whose membership proof is empty and whose values hold the expected leaf hash, checked against a nil reported root (an update tree with no appends) | the proof must spell the key before the root is compared | not executed | LegologProofs.NilRootAcceptsUnboundProof | LegologProofs.CheckedExistenceVerdict, LegologProofs.CheckedExistenceEntryAccepted |
| core/partition.go:456-504 | when only the base-tree entry is a membership, latestIndex stays -1 and UpdateSetRoots[-1] is read | a key appended before the last verification period and not since | the base-tree entry is checked against the base tree's reported root | not executed | Verifiers.BaseOnlyMembershipPanics | Verifiers.CheckedPKVerdict, Verifiers.CheckedPKHonest |
| core/partition.go:529-533 | a non-membership update entry goes to validateNonExistenceProof, which reads its nil membership proof | a master key registered in the second update epoch of the period: the first update entry is a non-membership | those entries are checked with validateNonMembershipProof | not executed | Verifiers.MKAfterNonMemberPanics | Verifiers.CheckedMKVerdict, Verifiers.CheckedMKHonest |
| core/partition_agghist.go:400-404 | the same validateNonExistenceProof call on non-membership update entries | a master key registered in the second update epoch of the period | those entries are checked with validateNonMembershipProof | not executed | Verifiers.AggMKAfterNonMemberPanics | Verifiers.CheckedAggMKVerdict, Verifiers.CheckedAggMKHonest |
| core/persistent_prefix_tree.go:100-173 | the new leaf's parent stays the old node while updateLeftChild/updateRightChild versions it, so updateHashesFromLeaf rehashes the old version | the first Insert into a fresh tree after NextEpoch: either the key is not in the current trie, or the current root's hash is nil | the leaf hangs from the new version, and the climb starts from the leaf's newest version | not executed | PersistentTrees.FirstInsertLost | VersionedTries.VersionedTrie.Insert, VersionedTries.FirstInsertKept, VersionedTries.EpochRoundTrip |
