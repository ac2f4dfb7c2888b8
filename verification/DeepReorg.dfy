/** Reorgs below the first logged block of a window. */
module DeepReorg {
  import opened Prelude
  import opened Geometry
  import opened Merkle
  import opened CommitmentTree
  import opened TreeHistory
  import opened ChainData
  import opened Bootstrap
  import Pipeline
  import opened Follower
  import opened Lockstep
  import opened ChainPool
  import opened EndToEnd
  import opened WindowLimit

  /** For a started server with a bootstrapped window, the next honest block after a rollback is accepted if
      and only if the rollback went no lower than the block that completed the last skipped shard. */
  lemma StartedWindowRollbackIff(h: Hasher, st: Start, s: Stores, to: nat, b: ChainBlock)
    requires Sane(h) && HonestStart(h, st) && PreparedInRange(h, st) && PreparedTree(h, st).value.0.blocks != []
    requires SyncBoth(h, st) == Ok(s) && HonestNext(h, KeepUpTo(st.src.blocks, to), b)
    ensures ApplyToTree(h, RolledBack(s.tree, to), b).Ok? <==> FirstLogged(h, st) <= to
  {
    StartEndsInStep(h, st);
    StartKeepsCompletingBlock(h, st);
    StartedRollbackIff(h, s, st.src.blocks, to, b);
  }

  lemma StartedRollbackIff(h: Hasher, s: Stores, chain: seq<ChainBlock>, to: nat, b: ChainBlock)
    requires InStep(h, s, chain) && StartsWithCompletingBlock(h, s.tree, chain) && HonestNext(h, KeepUpTo(chain, to), b)
    ensures ApplyToTree(h, RolledBack(s.tree, to), b).Ok? <==> s.tree.blocks[0].height <= to
  {
    WindowRollbackIff(h, s.tree, chain, to, b);
  }

  /** What such a rollback leaves: the bare window, larger than the pool of the shortened chain, so that the
      next honest block is refused for its size. */
  lemma SeededDeepRollback(
    h: Hasher, prefetched: seq<Hash>, ws: nat, k: nat, m: nat, blocks: seq<ChainBlock>, chain: seq<Block>, base: nat)
    requires HonestChain(h, blocks, chain, base) && m < k < |chain| && Completes(chain, k, ws * SHARD_LEAVES)
    ensures var c := RolledBack(Seeded(prefetched, ws, chain[k], |Pool(chain, k + 1)|), base + m);
      && c.blocks == [] && TreeSize(c) == ws * SHARD_LEAVES > |Pool(chain, m + 1)|
      && ApplyToTree(h, c, blocks[m + 1])
         == Err(TreeSizeMismatch(base + m + 1, |Pool(chain, m + 1)|, ws * SHARD_LEAVES))
  {
    var c := Seeded(prefetched, ws, chain[k], |Pool(chain, k + 1)|);
    assert HonestAt(h, blocks, chain, base, k) && HonestAt(h, blocks, chain, base, m + 1);
    SeededIsCounted(prefetched, ws, chain, k);
    NoneKept(c.blocks, base + m);
    PoolGrows(chain, m + 1, k);
  }

  // ── A failing input ────────────────────────────────────────────────

  /** One action per leaf, in order. */
  function ActionsFor(leaves: seq<Hash>): seq<CompactAction> {
    if leaves == [] then [] else [CompactAction(QUIET.bytes, leaves[0].bytes)] + ActionsFor(leaves[1..])
  }

  lemma {:induction false} ActionsCarry(height: nat, leaves: seq<Hash>)
    ensures CommitmentsOf(Marker(), height, ActionsFor(leaves)) == Ok(leaves)
  {
    if leaves != [] {
      ActionsCarry(height, leaves[1..]);
      assert ActionsFor(leaves)[1..] == ActionsFor(leaves[1..]);
      assert [leaves[0]] + leaves[1..] == leaves;
    }
  }

  /** A block with these commitments, after which the pool has `size` leaves. */
  function BlockFor(height: nat, leaves: seq<Hash>, size: nat): ChainBlock {
    var txs := [CompactTx([], ActionsFor(leaves))];
    ValidatedBlock(CompactBlock(height, QUIET.bytes, QUIET.bytes, txs, Some(size)), QUIET, QUIET)
  }

  lemma BlockForCarries(height: nat, leaves: seq<Hash>, size: nat)
    requires size < TREE_CAPACITY
    ensures Carries(Marker(), BlockFor(height, leaves, size), Block(height, QUIET, leaves), size)
  {
    var txs := [CompactTx([], ActionsFor(leaves))];
    assert txs[1..] == [] && ActionsFor(leaves) + [] == ActionsFor(leaves);
    assert Actions(txs) == ActionsFor(leaves);
    ActionsCarry(height, leaves);
  }

  /** An empty block, then one that completes the first shard. */
  function TwoBlocks(): seq<Block> {
    [Block(0, QUIET, []), Block(1, QUIET, QuietLeaves(SHARD_LEAVES))]
  }

  lemma TwoBlocksPool()
    ensures Pool(TwoBlocks(), 0) == [] && Pool(TwoBlocks(), 1) == [] && Pool(TwoBlocks(), 2) == QuietLeaves(SHARD_LEAVES)
  {
    assert Pool(TwoBlocks(), 1) == [] + [];
    assert Pool(TwoBlocks(), 2) == [] + QuietLeaves(SHARD_LEAVES);
  }

  /** The failing input: a window that skips the first shard, rolled back to the empty block before it, has
      65,536 leaves where the chain has none, and refuses the very block it was seeded with. */
  lemma CompletingBlockIsRefused(root: Hash)
    ensures var c := Seeded([root], 1, TwoBlocks()[1], SHARD_LEAVES);
      ApplyToTree(Marker(), RolledBack(c, 0), BlockFor(1, QuietLeaves(SHARD_LEAVES), SHARD_LEAVES))
      == Err(TreeSizeMismatch(1, 0, SHARD_LEAVES))
  {
    var blocks := [BlockFor(0, [], 0), BlockFor(1, QuietLeaves(SHARD_LEAVES), SHARD_LEAVES)];
    TwoBlocksPool();
    BlockForCarries(0, [], 0);
    BlockForCarries(1, QuietLeaves(SHARD_LEAVES), SHARD_LEAVES);
    TwoBlocksAreHonest(blocks);
    SeededDeepRollback(Marker(), [root], 1, 1, 0, blocks, TwoBlocks(), 0);
  }

  lemma TwoBlocksAreHonest(blocks: seq<ChainBlock>)
    requires |blocks| == 2
    requires Carries(Marker(), blocks[0], TwoBlocks()[0], |Pool(TwoBlocks(), 1)|)
    requires Carries(Marker(), blocks[1], TwoBlocks()[1], |Pool(TwoBlocks(), 2)|)
    ensures HonestChain(Marker(), blocks, TwoBlocks(), 0)
  {
    forall i: nat | i < 2
      ensures HonestAt(Marker(), blocks, TwoBlocks(), 0, i)
    {
    }
  }
}
