# Spendability PIR, verified

This project models the private-retrieval server and client for the Ironwood shielded pool and proves
what they promise a wallet: ask for one database row, privately, and get a correct Merkle witness or a
correct spent/unspent answer.

Five parts and their composition are modelled, each in the form the Rust code has:

- **Commitment tree and witness** (`Merkle`, `CommitmentTree`, `TreeHistory`, `TreeDb`, `Reconstruct`,
  `WitnessService`, `WindowLimit`). The server's append/rollback leaf log with its cache of subshard roots, the PIR
  rows and the broadcast, and the client that rebuilds a 32-level path in three tiers. Everything is
  proved against one flat definition, `Merkle.NodeAt`: node `i` at height `k` over a leaf list whose
  missing positions are empty subtrees. This is the note commitment tree and path check of sections 3.8
  and 4.9 of the Zcash Protocol Specification.
- **Windowed bootstrap** (`Bootstrap`, `WindowCoverage`). Starting at a shard boundary with prefetched roots
  and the spillover of the completing block, and which positions are then served.
- **Chain follower** (`Pipeline`, `Follower`, `FollowerAgreement`, `FollowerHistory`). Range validation,
  batched sync and the reorg-tracking loop, against a chain server that is an arbitrary list of answers: it
  may contradict itself between any two calls.
- **Nullifier table** (`NullifierTable`, `NullifierCapacity`, `NullifierHistory`, `NullifierInsert`,
  `NullifierDb`, `NullifierLookup`) and the event loop that keeps it in step with the tree, from the shared
  historical sync on (`StartUp`, `Lockstep`, `LockstepDb`).
- **Formats and framing** (`Codec`, `TreeSnapshot`, `TreeSnapshotDb`, `NullifierSnapshot`,
  `NullifierSnapshotDb`, `Protocol`, `Session`, `Endpoints`). Both snapshot formats, message
  fragmentation and reassembly, and the client/server session as a state machine.

`ChainData`, `ChainPool`, `EndToEnd`, `Acceptance` and `DeepReorg` join them. `EndToEnd.FromStartToWallet`
starts with what an honest chain server answers at start-up, prepares the windowed tree, syncs both stores,
follows any legal run of later events, and ends at the wallet: "spent" holds exactly when one of the newest
blocks of the chain, as many as the table holds, carries the nullifier, and every witness in the window is
the true path under the true root of the commitments of that chain, at the height of its last block. What a
block carries is stated in the bytes of its Ironwood actions. `Acceptance.HonestServerNeverStops` removes the
"if it succeeds": with honest sizes and room in every bucket, start-up and every event go through.

Three promises of the code hold only up to a limit. Each limit is stated exactly, with an input beyond it:

- The published cap ends after 16 window shards. A client of a fuller tree gets the path and root of the
  first 16 (`WitnessService.HonestWitness`); this root is the tree root exactly when nothing but empty
  leaves follows, hash collisions aside (`WindowLimit.PublishedRootIff`, `WindowLimit.SeventeenthShardIsMissed`).
- A bootstrapped window cannot undo the block that completed its last skipped shard
  (`ChainPool.WindowRollbackIff`, `DeepReorg.StartedWindowRollbackIff`, `DeepReorg.CompletingBlockIsRefused`).
- Inserting a block into the nullifier table keeps its bookkeeping sound only for blocks that are new, or
  held without nullifiers (`NullifierInsert.InsertKeepsSoundIff`, `NullifierInsert.ReinsertionBreaks`).

What stays abstract: the node hash, the empty leaf and the canonicality test are the fields of
`Merkle.Hasher`; the only thing assumed of them (`Merkle.Sane`) is that the empty leaf is canonical and
that hashing canonical values gives a canonical value. The snapshot checksum is an arbitrary function
parameter. The chain server is a list of answers, private retrieval is row selection (the repository's
own stub engine), and the frame size is a parameter.

The source's mutable objects are classes (`CommitmentTreeDb`, `HashTableDb`, `MessageDecoder`), proved
against functions on their contents; the lemmas are about those functions. A precondition on a main result
is a condition of the code, not of the proof: at most 2^32 published leaves (the depth of the tree), a
shard-aligned offset, non-zero nullifiers, hashes that identify blocks.

Where code and documentation differ, the code is followed: the comment at
`crates/client/src/reconstruct.rs:19-20` says the root is checked against the anchor, the body only
computes it. `WitnessService.HonestWitness` and `WitnessService.CoherentDataGivesCapRoot` state what that
computed root is; no rejection is claimed.

## Model

| member | source | states |
|---|---|---|
| Acceptance.HonestServerNeverStops | crates/server/src/server.rs:91-206 | from an honest source, with honest block sizes and room in every bucket, the server starts, handles every followed event, and then tells the wallet the truth: nothing is assumed to succeed |
| EndToEnd.FromStartToWallet | crates/server/src/server.rs:91-206 | from an honest start-up through any followed run: the lookup says spent exactly when one of the newest blocks of the chain has an Ironwood action with these nullifier bytes, and every in-window witness is the true path under the true root of the published commitments of that chain, at the height of its last block |
| EndToEnd.WalletLearnsTheTruth | crates/server/src/server.rs:157-206 | the same from any stores that mirror a chain and a tree that holds its commitments, after any handled run of follower events |
| EndToEnd.PreparedHoldsPool | crates/server/src/witness/server.rs:131-254 | with an honest chain server preparing the tree succeeds, and the tree then holds the commitments of all blocks below the height it continues from |
| EndToEnd.SyncHoldsPool | crates/server/src/server.rs:291-318 | every prefix of the shared sync leaves the tree holding the commitments of all blocks it has seen, and no honest block is refused by it |
| EndToEnd.StartEndsInStep | crates/server/src/server.rs:226-328 | after start-up with an honest source both stores mirror the whole chain and the tree holds its commitments; a failure is never the tree size check |
| Acceptance.HonestStartSucceeds | crates/server/src/server.rs:226-328 | with an honest source and room in every bucket the start-up succeeds |
| Acceptance.HonestRunIsHandled | crates/server/src/server.rs:157-198 | with honest block sizes and room in every bucket every event of a legal run within reach of the log is handled |
| Acceptance.AppliedIff | crates/server/src/server.rs:330-372 | one block is taken if and only if, for each store asked for, all nullifiers have 32 bytes and every bucket has room beside the live ones, all commitments have 32 bytes and are canonical, and the reported size less them is the tree size; otherwise the error names the first of these that fails, and where |
| Acceptance.AppliedEffect | crates/server/src/server.rs:330-372 | a taken block adds its nullifier bytes as the newest held block and its commitment bytes as the newest leaves |
| WindowCoverage.StartServesNewestShards | crates/server/src/witness/server.rs:131-224 | right after the start-up every position in the newest completed shards and in the shard being filled is served, as many shards as the clamped limit says |
| ChainData.ExtractNullifiersIff | crates/server/src/ingest/ironwood.rs:39-55 | the nullifiers of a block are the nullifier bytes of its Ironwood actions, one each, in block order; the Orchard actions play no part |
| ChainData.ExtractCommitmentsIff | crates/server/src/ingest/commitment.rs:27-62 | the commitments of a block are the commitment bytes of its Ironwood actions, one each, in block order, all canonical |
| ChainData.ActionAt | crates/server/src/ingest/ironwood.rs:40-44 | action k of transaction t stands after all actions of the earlier transactions |
| ChainData.NullifiersReadIff | crates/server/src/ingest/ironwood.rs:45-54 | a block can be read exactly when every nullifier has 32 bytes; otherwise the first that has not is reported with its length |
| ChainData.CommitmentsReadIff | crates/server/src/ingest/commitment.rs:27-75 | a block can be read exactly when every commitment has 32 bytes and is canonical; otherwise the first that is not is reported |
| ChainPool.LeafOfAction | crates/witness/src/tree.rs:195-212 | the leaves of a chain are the commitment bytes of its actions, block after block |
| EndToEnd.StartPassesTipCheckIff | crates/server/src/server.rs:107-112 | a started server passes the tip comparison if and only if eviction has left the table a block |
| EndToEnd.RunHoldsPool | crates/server/src/server.rs:170-197 | through appends and reorgs the tree stays a correct window onto exactly the surviving chain's commitments |
| ChainPool.AppendHoldsPool | crates/server/src/server.rs:343-372 | an accepted block adds exactly its commitments to the pool the tree holds |
| ChainPool.RollbackHoldsPool | crates/witness/src/tree.rs:215-236 | a rollback to a logged height leaves the pool of the shortened chain |
| ChainPool.RollbackIff | crates/witness/src/tree.rs:215-236 | for every rollback target: the tree holds the pool of the shortened chain, and accepts its next honest block, if and only if the target is not below the first logged block or the pool then ends where the window starts; otherwise the block is refused with the size mismatch |
| ChainPool.WindowRollbackIff | crates/witness/src/tree.rs:215-236 | for a window that starts with its completing block: if and only if the rollback goes no lower than that block |
| DeepReorg.StartedWindowRollbackIff | crates/server/src/server.rs:170-179 | the same for a server that started from an honest source, in terms of the height its log starts at |
| DeepReorg.SeededDeepRollback | crates/server/src/witness/server.rs:149-201 | a freshly seeded window rolled back below its completing block keeps its offset, is larger than the pool, and refuses the next honest block |
| DeepReorg.CompletingBlockIsRefused | crates/server/src/witness/server.rs:149-201 | a concrete two-block chain on which this happens |
| Geometry.DecomposeRoundTrip | crates/witness/src/types.rs:84-89 | splitting a position can be undone if and only if the position is below 2^48 |
| Geometry.RecomposeRoundTrip | crates/witness/src/types.rs:84-89 | every shard, subshard and leaf index comes back from its own position |
| Geometry.RowIndexInjective | crates/witness/src/types.rs:92-94 | different subshards of a window never share a row |
| Merkle.HashUpKeepsNodes | crates/client/src/reconstruct.rs:90-100 | one level of pairwise hashing with empty padding keeps every higher node of the tree |
| Merkle.NodeBeyondEnd | crates/witness/src/tree.rs:458-459 | a subtree beyond the populated prefix has the precomputed empty root |
| Merkle.EmptyRootIsPadding | crates/witness/src/tree.rs:477-489 | the empty root of a height is the root over empty leaves, however many of them are written out |
| Merkle.PartNodes | crates/client/src/reconstruct.rs:33-57 | nodes hashed from an aligned part of one height are nodes of the whole tree: tiers compose |
| Merkle.FoldWholeTier | crates/client/src/reconstruct.rs:106-120 | folding a node through a tier's siblings arrives at the tier's top, whatever lies above |
| CommitmentTree.CompleteRootIsNode | crates/witness/src/tree.rs:419-435 | pairing up a full list of 2^k nodes gives the flat tree's node |
| CommitmentTree.SparseRootIsNode | crates/witness/src/tree.rs:444-465 | the sparse recursion with its skipped halves gives the flat tree's node |
| CommitmentTree.SparseTier | crates/client/src/reconstruct.rs:71-103 | sparse siblings equal those of the list padded with empty subtrees, and folding through them gives the sparse recursive root |
| CommitmentTree.SubshardIsSlot | crates/witness/src/tree.rs:246-285 | global shard addressing and local slot addressing name the same leaves and the same frontier |
| CommitmentTree.SlotIsNode | crates/witness/src/tree.rs:270-285 | every subshard root, computed or skipped as empty, is the pool's node at height 8 |
| CommitmentTree.ShardRootIsNode | crates/witness/src/tree.rs:291-311 | every shard root, prefetched or computed, is the pool's node at height 16 |
| CommitmentTree.TreeRootIsMerkleRoot | crates/witness/src/tree.rs:316-322 | the tree root is the plain depth-32 Merkle root of the padded leaves, for any leaf count up to 2^32 |
| CommitmentTree.FullTreeRepresents | crates/witness/src/tree.rs:84-93 | a tree without prefetched shards is a correct window onto its own leaves, so the root results need no assumption for it |
| CommitmentTree.RowOfDatabase | crates/witness/src/tree.rs:355-386 | slicing the built database at a slot's row gives exactly that slot's padded leaves |
| CommitmentTree.LeafOfDatabase | crates/witness/src/tree.rs:355-386 | cell k of the built database is leaf k of the window, and the empty leaf beyond the last one |
| TreeHistory.RunIsReplayOfSurvivors | crates/witness/src/tree.rs:195-236 | after any run of appends and rollbacks the tree equals a replay of the surviving blocks alone, and its log accounts for every leaf |
| TreeHistory.RollbackKeepsCounted | crates/witness/src/tree.rs:225-226 | the saturating subtraction never saturates when the log accounts for the leaves |
| TreeHistory.RollbackRuleHoldsIff | crates/witness/src/tree.rs:214-224 | popping from the end removes exactly the blocks above the target, for every target, if and only if heights never decrease in the log |
| TreeDb.PrecomputeEmptyRoots | crates/witness/src/tree.rs:477-489 | entry k is the root of an empty subtree of height k, for k = 0..32 |
| TreeDb.CompleteSubtreeRoot | crates/witness/src/tree.rs:419-435 | the pairing loop computes the complete root and never hashes a non-canonical value |
| TreeDb.CommitmentTreeDb.WithOffset | crates/witness/src/tree.rs:100-113 | an empty tree at an offset with a cold, sound cache |
| TreeDb.CommitmentTreeDb.AppendCommitments | crates/witness/src/tree.rs:195-212 | adds exactly the block, clears exactly the touched slots, keeps every other cached root correct |
| TreeDb.CommitmentTreeDb.RollbackTo | crates/witness/src/tree.rs:215-236 | removes exactly the blocks above the height and keeps the remaining cached roots correct |
| TreeDb.CommitmentTreeDb.BuildPirDbAndBroadcast | crates/witness/src/tree.rs:332-401 | database and broadcast are functions of the contents, whatever the cache held; afterwards every passed populated slot is filled with its fresh root |
| Reconstruct.ParseLeaves | crates/client/src/reconstruct.rs:137-159 | succeeds exactly on rows of 256 canonical leaves and returns them |
| Reconstruct.ExtractSiblings | crates/client/src/reconstruct.rs:71-103 | writes the sibling of every ancestor in its tier and touches nothing else |
| Reconstruct.ComputeRootFromPath | crates/client/src/reconstruct.rs:106-120 | the loop computes the root of the path check |
| Reconstruct.ReconstructWitness | crates/client/src/reconstruct.rs:21-67 | succeeds exactly on valid broadcast and row; the siblings are the three tiers and the root is their fold |
| PirStub.AnswerIsRow | crates/server/src/pir_stub.rs:36-54 | a query for a stored row is answered with exactly that row |
| PirStub.AnswerByRow | crates/server/src/pir_stub.rs:36-54 | the first four bytes of a query name the row, lowest first, whatever follows; a row that is not stored is refused |
| WitnessService.GetWitnesses | crates/client/src/witness.rs:165-211 | succeeds exactly when every position can be served, gives each position its own answer, queries every needed row once and no other; otherwise the error is that of the first position that cannot |
| WitnessService.HonestServed | crates/client/src/witness.rs:174-191 | an honest server serves a position exactly when its shard is in the window |
| WitnessService.HonestWitness | crates/client/src/reconstruct.rs:21-67 | with an honest server of any size a position is served exactly when its shard is in the window; every sibling is then the true sibling subtree root and the anchor root the depth-32 Merkle root of the published pool, which up to 16 window shards is the whole pool and the tree root |
| WitnessService.OnlyTheWindowIsPublished | crates/witness/src/tree.rs:332-401 | broadcast and database of a fuller tree are those of the tree cut after 16 window shards |
| WindowLimit.PublishedRootIff | crates/witness/src/tree.rs:332-401 | the clients' root is the tree root if and only if only empty leaves lie beyond the published pool, unless the node hash collides on nodes of this pool |
| WindowLimit.SeventeenthShardIsMissed | crates/witness/src/tree.rs:363-392 | a concrete tree with 17 local shards whose clients are all served and all compute another root |
| WitnessService.CoherentDataGivesCapRoot | crates/client/src/reconstruct.rs:33-66 | whoever sent the data: if the row hashes to its subshard root and these to the cap entry, the computed anchor root is the cap's root |
| Bootstrap.RetainUpTo | crates/server/src/witness/server.rs:141-141 | the in-place filter keeps exactly the shards completed by the target height, in order |
| Bootstrap.PrepareTree | crates/server/src/witness/server.rs:131-224 | builds the tree of the plan or fails with the plan's error, never leaving an invalid tree |
| Bootstrap.PreparedWindowIsWidest | crates/server/src/witness/server.rs:137-152 | with n listed shards completed by the target and room for L, the limit clamped to 1..16: exactly L - 1 completed shards lie in the window when n is at least L, and nothing is skipped otherwise |
| Bootstrap.PreparedOkIff | crates/server/src/witness/server.rs:149-201 | preparing succeeds exactly when nothing is skipped, or all skipped roots and the completing block are good |
| Bootstrap.PreparedErrorIs | crates/server/src/witness/server.rs:154-201 | the error names the first bad root, else what is wrong with the completing block, in the order of the checks |
| Bootstrap.PreparedTracks | crates/server/src/witness/server.rs:149-254 | from an honest server the prepared tree is a correct window: right leaves, offset and earlier roots |
| Bootstrap.BootstrapIsFullSync | crates/server/src/witness/server.rs:131-290 | at every later height the windowed tree has the size, shard roots, tree root and in-window leaves of a full sync, and its size check always passes |
| Pipeline.ValidateRange | crates/server/src/ingest/pipeline.rs:202-242 | the loop computes the verdict on a range, with the first error found |
| Pipeline.CheckBlocksIff | crates/server/src/ingest/pipeline.rs:212-233 | validation accepts exactly the linked runs of consecutive heights and returns their bytes unchanged |
| Pipeline.RangeErrorIsFault | crates/server/src/ingest/pipeline.rs:202-242 | a refused range names the first block that does not fit after the valid ones before it, and how; a valid one that ends elsewhere names how far it reaches |
| Pipeline.BatchEndIs | crates/server/src/ingest/pipeline.rs:73-74 | every batch but the last has exactly 10,000 heights |
| Pipeline.SyncBlocks | crates/server/src/ingest/pipeline.rs:60-85 | terminates for any range and consumes what the batches validate to |
| Pipeline.BatchedIsOneRange | crates/server/src/ingest/pipeline.rs:60-85 | a finished sync consumed exactly what one validation of the whole range returns |
| Pipeline.BatchedStopsBetweenBatches | crates/server/src/ingest/pipeline.rs:68-83 | a failed sync consumed a linked prefix made of whole validated batches |
| Follower.FollowRound | crates/server/src/ingest/pipeline.rs:122-171 | one pass of the loop against arbitrary answers |
| Follower.RoundIsLegal | crates/server/src/ingest/pipeline.rs:122-171 | whatever the server answers, a pass emits only legal events and keeps the history a suffix of the applied log |
| Follower.LegalRunKeepsLinked | crates/server/src/ingest/pipeline.rs:144-166 | the log built from legal events is contiguous in height and linked by previous hash |
| Follower.LegalRunPrefix | crates/server/src/ingest/pipeline.rs:144-166 | a run that stops early, at any event, is legal too |
| Follower.FollowBlocks | crates/server/src/ingest/pipeline.rs:88-172 | over every run the events are legal and no rollback reaches `reorg_window` blocks down; the history is the newest part of starting blocks plus log; the starting blocks are a full window, or all heights from 1 |
| Follower.StartedIff | crates/server/src/ingest/pipeline.rs:101-114 | a start succeeds exactly when the server sends, linked, the newest blocks up to the start height, a full window of them or all from height 1, the last with the start hash |
| FollowerHistory.HistoryOfEveryRun | crates/server/src/ingest/pipeline.rs:115-170 | over every run, against any answers, the history holds exactly the heights from the lowest that can be undone (the first tracked, or a window below the highest tip so far) to the tip, and no rollback goes below it |
| FollowerHistory.FullUntilRollback | crates/server/src/ingest/pipeline.rs:116-119 | until the first rollback the history has the length of the window or of the tracked log, whichever is less |
| FollowerHistory.ForkInReachIsFollowed | crates/server/src/ingest/pipeline.rs:122-169 | a fork anywhere within that reach is followed: the pass rolls back exactly to it when the tip is above it, then emits the remote blocks up to the target |
| FollowerHistory.ShallowForkIsFollowed | crates/server/src/ingest/pipeline.rs:101-169 | right after a start, in particular every fork fewer than `reorg_window` blocks down |
| Follower.FollowFrom | crates/server/src/ingest/pipeline.rs:120-171 | the endless loop runs pass after pass and ends only with an error, having emitted exactly what the passes emit |
| FollowerAgreement.ForkIsHighestCommon | crates/server/src/ingest/pipeline.rs:135-142 | the fork search finds the highest height both chains share, if there is one |
| FollowerAgreement.RoundAgainstFixedChain | crates/server/src/ingest/pipeline.rs:122-169 | with the remote chain fixed for a pass: it reaches the target, every held entry is a remote block, and a reorg is emitted exactly when the old tip is above the target or off the chain, to the highest common height |
| FollowerAgreement.ForkTooDeep | crates/server/src/ingest/pipeline.rs:136-142 | with no common height the pass emits nothing and ends with the fork-too-deep error |
| NullifierTable.BucketBits | crates/nullifier/src/types.rs:18-20 | the bucket of a nullifier is its lowest 14 bits: the first byte and six bits of the second |
| NullifierTable.FittingBlockIsPlaced | crates/nullifier/src/table.rs:70-93 | after the capacity check every nullifier finds a free cell: the `expect` is never reached |
| NullifierTable.PlaceResult | crates/nullifier/src/table.rs:34-38 | placing changes free cells only, each once, into the bucket the nullifier's bytes select |
| NullifierHistory.InsertKeepsSound | crates/nullifier/src/table.rs:64-98 | a fresh block that fits keeps the table invariant and adds exactly itself |
| NullifierHistory.RollbackKeepsSound | crates/nullifier/src/table.rs:100-114 | rollback finds exactly the held hashes, removes exactly that block and keeps the invariant |
| NullifierHistory.RollbackUndoesInsert | crates/nullifier/src/table.rs:64-114 | rolling back an inserted block finds it and restores the blocks held before |
| NullifierHistory.EvictOldestKeepsSound | crates/nullifier/src/table.rs:116-121 | eviction removes the lowest block and fails only on an empty table |
| NullifierHistory.EvictToKeepsSound | crates/nullifier/src/table.rs:123-129 | evicting to a target keeps the invariant and leaves the newest blocks |
| NullifierHistory.NewestIsLongest | crates/nullifier/src/table.rs:123-129 | what is evicted is the shortest oldest prefix that meets the target |
| NullifierHistory.SlotsAreDistinct | crates/nullifier/src/table.rs:41-52 | recorded slots are pairwise distinct, within and across blocks, and each holds its block's nullifier |
| NullifierHistory.ContainsIff | crates/nullifier/src/table.rs:131-135 | a non-zero nullifier is found if and only if a live block carries it; the all-zero one is found if and only if its bucket has a free cell |
| NullifierHistory.EveryRunIsSound | crates/nullifier/src/table.rs:64-135 | in every reachable state the table invariant holds, the live blocks are exactly those a fold over the operations leaves, and a non-zero nullifier is found if and only if one of them carries it |
| NullifierCapacity.FitsIffLiveFits | crates/nullifier/src/table.rs:70-84 | the capacity check, which counts free cells, decides by the live nullifiers of each bucket alone: no cell is ever lost |
| NullifierInsert.InsertKeepsSoundIff | crates/nullifier/src/table.rs:64-98 | a fitting block leaves the table sound if and only if it brings no all-zero nullifier and is either new to both indexes or held already without nullifiers |
| NullifierInsert.ReinsertionBreaks | crates/nullifier/src/table.rs:64-98 | a concrete pair of insertions after which a cell is named by no record |
| NullifierDb.HashTableDb.constructor | crates/nullifier/src/table.rs:55-62 | an empty, sound table |
| NullifierDb.HashTableDb.InsertBlock | crates/nullifier/src/table.rs:64-98 | succeeds exactly when every bucket has room; on failure names an overflowing bucket and changes nothing |
| NullifierDb.HashTableDb.RollbackBlock | crates/nullifier/src/table.rs:100-114 | removes the block in place from cells, both indexes and the count |
| NullifierDb.HashTableDb.EvictOldestBlock | crates/nullifier/src/table.rs:116-121 | removes and reports the lowest block |
| NullifierDb.HashTableDb.EvictToTarget | crates/nullifier/src/table.rs:123-129 | leaves exactly the newest blocks within the target |
| NullifierDb.HashTableDb.Contains | crates/nullifier/src/table.rs:131-135 | answers whether a live block carries the nullifier |
| NullifierLookup.LookupIsContains | crates/client/src/nullifier.rs:183-187 | serialising, selecting row `hash_to_bucket(nf)` and scanning it in chunks answers the table's own membership, also for rows with trailing bytes |
| NullifierLookup.SpentIffCarriedInEveryRun | crates/client/src/nullifier.rs:91-102 | in every reachable table the query is answered and says spent exactly when a block the operations left carries the nullifier |
| Lockstep.PopAboveSucceeds | crates/server/src/server.rs:171-177 | the rollback loop ends without an error, having popped exactly the blocks above the height |
| Lockstep.StoresAgree | crates/server/src/server.rs:107-112 | mirrored stores agree on the hash of every height both hold, and on the tip unless the table is empty |
| Lockstep.AnchorIsTip | crates/server/src/server.rs:393-403 | the published anchor height is that of the chain's last block |
| Lockstep.StoresStayInLockstep | crates/server/src/server.rs:157-198 | over every legal run whose rollbacks stay within the tree's log both stores keep mirroring the one chain, heights, hashes and nullifiers; only a new block can fail |
| Lockstep.LiveCarriesIffChain | crates/nullifier/src/table.rs:131-135 | a mirroring table holds a nullifier exactly when one of the newest blocks of the chain, as many as it holds, has an Ironwood action with these bytes |
| Lockstep.EventsDecideHeld | crates/server/src/server.rs:170-198 | which blocks the table holds after a run is a function of the events alone: rollbacks drop the newest, evictions keep the newest within the target |
| Lockstep.FollowedStoresStayInLockstep | crates/server/src/server.rs:137-198 | fed by the follow loop, a tree whose log reaches the first tracked block is never rolled back too far |
| StartUp.SyncBringsUp | crates/server/src/server.rs:291-318 | every synced block goes to exactly the stores that have not seen it, and each store then mirrors the chain up to it, the table with its nullifiers |
| StartUp.SyncEndsInLockstep | crates/server/src/server.rs:246-328 | stores that mirror one chain up to different heights, one possibly empty, mirror all of it after the shared sync and its last eviction |
| StartUp.SyncedWithinTarget | crates/server/src/server.rs:297-321 | after every synced block, and at the end even without any, the table holds no more nullifiers than the target |
| StartUp.TipCheckIff | crates/server/src/server.rs:107-112 | mirroring stores pass the tip comparison if and only if the table holds a block |
| LockstepDb.ApplyBlock | crates/server/src/server.rs:330-372 | all checks come before the first change: a failing block leaves both stores and the cache untouched |
| LockstepDb.HandleEvent | crates/server/src/server.rs:170-198 | one event acts on both stores as specified and keeps both valid |
| LockstepDb.RunServer | crates/server/src/server.rs:157-206 | after every event both datasets are those of the stores, published for the height of the chain's last block; the loop stops only at a block that cannot be applied, and handles every event when all can be |
| TreeSnapshot.SnapshotRoundTripIff | crates/witness/src/snapshot.rs:27-194 | decoding an encoded tree gives it back if and only if its log accounts for its leaves and all hashes are canonical |
| TreeSnapshot.DecodedIsCounted | crates/witness/src/snapshot.rs:127-257 | any tree that decodes, from any bytes, has a log that accounts for its leaves and canonical hashes only |
| TreeSnapshot.DecodedIsChecked | crates/witness/src/snapshot.rs:83-125 | a file is decoded only if it ends in the checksum of the rest and begins with the magic number; otherwise the error says which |
| TreeSnapshot.EncodedIsLaidOut | crates/witness/src/snapshot.rs:27-80 | where every field of the file stands |
| TreeSnapshotDb.ToSnapshot | crates/witness/src/snapshot.rs:27-80 | the appending writer produces the format |
| TreeSnapshotDb.FromSnapshot | crates/witness/src/snapshot.rs:83-257 | the cursor reader returns the decoded tree, or the first error |
| TreeSnapshotDb.Restart | crates/witness/src/snapshot.rs:27-194 | saving and loading a valid tree gives a valid tree with the same contents and cache |
| TreeSnapshotDb.RunEverything | crates/witness/src/tree.rs:195-401 | over any interleaving of append, rollback, build and reload every build answers what a cold build would |
| NullifierSnapshot.SnapshotRoundTrip | crates/nullifier/src/snapshot.rs:10-159 | every sound table comes back with cells, both indexes and count |
| NullifierSnapshot.DecodeOfEncode | crates/nullifier/src/snapshot.rs:44-159 | what comes back for any table within the field widths: the cells, and indexes rebuilt from the records |
| NullifierSnapshot.DecodedIsChecked | crates/nullifier/src/snapshot.rs:44-105 | a file is decoded only if it ends in the checksum of the rest and begins with the magic number and the version; otherwise the error names the first of these that is wrong |
| NullifierSnapshot.EncodedIsLaidOut | crates/nullifier/src/snapshot.rs:10-42 | where every field of the file stands |
| NullifierSnapshotDb.ToSnapshot | crates/nullifier/src/snapshot.rs:10-42 | the nested writer produces the format |
| NullifierSnapshotDb.FromSnapshot | crates/nullifier/src/snapshot.rs:44-159 | the nested cursor reader returns the decoded table, or the first error |
| NullifierSnapshotDb.Restart | crates/nullifier/src/snapshot.rs:10-159 | saving and loading a valid table gives the same valid table |
| Protocol.MessageDecoder.Push | crates/protocol/src/p2p.rs:142-167 | completes a message exactly on its last frame; a refused frame changes nothing; never holds more than the limit |
| Protocol.Frames | crates/client/src/p2p.rs:337-356 | chunking and clearing the last flag gives the message's frames, one empty frame for an empty payload |
| Protocol.PatchedIsFragments | crates/server/src/p2p.rs:120-139 | flagging every chunk "more" and patching the last one is the recursive definition of the frames |
| Protocol.OneMessageIff | crates/protocol/src/p2p.rs:160-166 | a message survives framing if and only if it is at most 8 MiB, and is otherwise refused as too large |
| Protocol.RefusedIff | crates/protocol/src/p2p.rs:142-166 | a frame is refused exactly for its flags, an unknown type, a type other than that of the message begun, or the size limit |
| Protocol.AnyChunksDecode | crates/protocol/src/p2p.rs:138-168 | however a message is cut into frames, its chunks put together are what arrives |
| Protocol.FragmentAt | crates/client/src/p2p.rs:337-356 | frame i carries chunk i of the payload, full unless it is the last, and only the last has no "more" flag |
| Protocol.ResponseIsEightUp | crates/protocol/src/p2p.rs:84-98 | requests are the numbers 0 to 7, and each has the response eight numbers up |
| Protocol.StreamRoundTrip | crates/protocol/src/p2p.rs:138-168 | the concatenated frames of any messages within the limit decode to exactly those messages, in order, and leave the decoder empty |
| Protocol.NeverOverLimit | crates/protocol/src/p2p.rs:160-165 | no stream, honest or not, makes the decoder hold or emit more than the limit |
| Session.StepKeepsSound | crates/client/src/p2p.rs:257-335 | every step of worker, server, timeout or disconnect keeps the session invariant |
| Session.AcceptableIff | crates/server/src/p2p.rs:170-205 | all eight requests are answered, those other than the two queries only without a payload |
| Session.JudgeIff | crates/client/src/p2p.rs:319-334 | a caller gets success exactly for the response kind of its request, the remote error for a readable error response, and a fatal error for anything else |
| Session.EveryRunIsFaithful | crates/server/src/p2p.rs:254-292 | over every interleaving each delivered success is the server's answer to that same request, in order, and the streams and the server's decoder are empty whenever the worker takes a request |
| Endpoints.Exchange | crates/client/src/p2p.rs:298-335 | sends exactly the request's frames and judges the first complete response |
| Endpoints.RunWorker | crates/client/src/p2p.rs:257-296 | on any incoming stream: one exchange after the other until the first fatal outcome |
| Endpoints.WorkerJudgesDecoded | crates/client/src/p2p.rs:257-335 | on any stream the i-th caller gets the verdict on the i-th message the stream decodes to, or a fatal error if there is none; the worker stops exactly at the first fatal outcome and has sent the frames of the requests it took |
| Endpoints.HonestWorker | crates/client/src/p2p.rs:257-335 | against one honest answer per request every request is sent and each caller gets the verdict on its own answer |
| Endpoints.ServePeer | crates/server/src/p2p.rs:254-292 | on any incoming stream: reassembles, answers and frames until a frame or request is refused |
| Endpoints.PeerAnswersDecoded | crates/server/src/p2p.rs:254-292 | on any stream the server answers exactly the acceptable messages it decodes to, in order, up to the first refusal, and keeps the connection open exactly when nothing was refused |
| Endpoints.HonestPeer | crates/server/src/p2p.rs:254-292 | acceptable requests within the limit are all answered, in order, with the connection open |
| Endpoints.HonestSession | crates/server/src/p2p.rs:170-222 | the frames of the served answers, read by the worker, deliver to each request its own answer |
| Endpoints.WholeSession | crates/server/src/p2p.rs:170-222 | client and server composed deliver to each request its own answer |

## Left out

- Real PIR encryption (YPIR, SimplePIR), Sinsemilla and xxHash64 are library code; row selection and abstract functions stand in for them.
- A decoded witness row longer than 8,192 bytes: the end-to-end witness theorem uses the exact row of the stub engine; the parser and the conditional theorem take rows of any length.
- 64-bit wrap-around of heights, offsets and counts: heights and sizes are unbounded numbers; the widths appear where they are observable (positions, the shard cast, the 32-bit commitment count, snapshot fields, query indexes).
- The shard counters are cast to 32 bits in the source; for at most 2^32 leaves the casts change nothing.
- Debug assertions (`is_power_of_two`) are preconditions of the member that has them.
- A consumer that stops between two events ends the follow loop there; `Follower.LegalRunPrefix` covers such prefixes, the error value itself is not modelled.
- The chain server is a finite list of answers, so a run of the follow loop ends when the list does; every finite prefix of an endless run is covered. Sleeping and polling are left out.
- Answers with hash collisions: the agreement with a fixed remote chain and the lockstep results assume that one hash does not name two blocks of the chains involved.
- EndToEnd.FromStartToWallet: rollbacks stay within the tree's log, which the follow loop's window guarantees once the log reaches its first tracked block; below it a bootstrapped server stops exactly as `DeepReorg.StartedWindowRollbackIff` says. A tree restored from a snapshot instead of prepared is covered by `EndToEnd.WalletLearnsTheTruth`, from the state it was saved in.
- NullifierDb.HashTableDb.InsertBlock: which of several overflowing buckets is reported is left open, as the source iterates a hash map.
- Snapshot decoders ignore trailing payload bytes; only encode-then-decode and facts about every decoded value are claimed. Reason texts are reduced to an error kind, and a size overflow counts as truncation.
- NullifierSnapshotDb.FromSnapshot: a crafted file with valid checksum can describe an unsound table (no slot bounds are checked); the result is valid only for files written from a valid table.
- The counts `apply_block` returns for logging.
- The snapshot interval, files, renames and dataset markers.
- The request queue in front of the worker, its own timeout and generation replacement: a request that reaches the worker is modelled, a caller that gave up changes nothing.
- JSON payloads and metadata: response payloads are bytes, readability of an error payload is a parameter.
- Network, version and pool equality checks, health and HTTP routes, logging and progress reporting.
