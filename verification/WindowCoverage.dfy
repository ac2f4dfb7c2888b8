/** Which positions a freshly started server serves. */
module WindowCoverage {
  import opened Prelude
  import opened Geometry
  import opened Merkle
  import opened CommitmentTree
  import opened ChainData
  import opened Bootstrap
  import opened Follower
  import opened Reconstruct
  import opened WitnessService
  import opened Lockstep
  import opened StartUp
  import opened ChainPool
  import opened EndToEnd

  /** The position lies in the shard being filled or in one of the `size - 1` shards completed before it. */
  predicate InNewestShards(position: nat, completed: nat, size: nat) {
    completed <= position / SHARD_LEAVES + (size - 1) && position / SHARD_LEAVES <= completed
  }

  /** Of a tree with the widest window, the newest shards are served as far as they are populated. */
  lemma NewestShardsAreServed(
    h: Hasher, c: Contents, all: seq<Hash>, anchor: nat, completed: nat, size: nat, position: nat, w: PirWitness)
    requires Sane(h) && CanonicalContents(h, c) && Represents(h, c, all) && TreeSize(Published(c)) <= TREE_CAPACITY
    requires 1 <= size <= L0_MAX_SHARDS && StartsWindow(c, completed, size)
    requires position < |all| && InNewestShards(position, completed, size)
    ensures Served(h, BroadcastOf(h, c, anchor), HonestServer(h, c), position)
  {
    HonestWitness(h, c, all, anchor, position, w);
    PublishedCounts(c);
  }

  /** Right after the start-up every position of the newest completed shards and of the shard being filled is
      served, as many of them as the window size says. */
  lemma StartServesNewestShards(
    h: Hasher, st: Start, s: Stores, size: nat, position: nat, w: PirWitness)
    requires Sane(h) && HonestStart(h, st) && PreparedInRange(h, st) && SyncBoth(h, st) == Ok(s)
    requires IsWindowSize(size, st.limit) && TreeSize(Published(s.tree)) <= TREE_CAPACITY
    requires position < |LeavesOf(h, st.src.blocks)|
    requires InNewestShards(position, |CompletedBy(st.src.roots, st.tip)|, size)
    ensures Served(h, BroadcastOf(h, s.tree, TipHeight(st.src.blocks)), HonestServer(h, s.tree), position)
  {
    StartEndsInStep(h, st);
    PreparedWindowIsWidest(h, st.src.roots, st.tip, st.limit, st.src.base, st.src.completing, size);
    NewestShardsAreServed(h, s.tree, LeavesOf(h, st.src.blocks), TipHeight(st.src.blocks),
      |CompletedBy(st.src.roots, st.tip)|, size, position, w);
  }
}
