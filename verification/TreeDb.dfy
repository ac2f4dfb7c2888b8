/** The server's commitment tree: an append/rollback leaf log with a cache of subshard roots. Every method
    is proved against the value-level contents; the cache never shows. */
module TreeDb {
  import opened Prelude
  import opened Geometry
  import opened Merkle
  import opened CommitmentTree
  import opened TreeHistory

  // ── Hash loops ─────────────────────────────────────────────────────

  /** Empty subtree roots for levels 0 to 32. */
  method PrecomputeEmptyRoots(h: Hasher) returns (roots: seq<Hash>)
    requires Sane(h)
    ensures |roots| == TREE_DEPTH + 1
    ensures forall level :: 0 <= level <= TREE_DEPTH ==> roots[level] == EmptyRoot(h, level)
  {
    roots := [h.emptyLeaf];
    var current := h.emptyLeaf;
    for level := 0 to TREE_DEPTH
      invariant |roots| == level + 1 && current == EmptyRoot(h, level)
      invariant forall l :: 0 <= l <= level ==> roots[l] == EmptyRoot(h, l)
    {
      EmptyRootCanonical(h, level);
      current := HashCombine(h, level, current, current);
      roots := roots + [current];
    }
  }

  /** Root of a complete subtree of canonical nodes; no combine meets a non-canonical value. */
  method CompleteSubtreeRoot(h: Hasher, leaves: seq<Hash>, baseLevel: nat) returns (root: Hash)
    requires Sane(h) && AllCanonical(h, leaves)
    requires IsPowerOfTwo(|leaves|)
    ensures root == CompleteRoot(h, leaves, baseLevel)
  {
    if |leaves| == 1 {
      return leaves[0];
    }
    var current, level := leaves, baseLevel;
    while |current| > 1
      invariant IsPowerOfTwo(|current|) && AllCanonical(h, current)
      invariant CompleteRoot(h, current, level) == CompleteRoot(h, leaves, baseLevel)
      decreases |current|
    {
      var next := CombinePairs(h, current, level);
      HashUpCanonical(h, current, level);
      current, level := next, level + 1;
    }
    root := current[0];
  }

  method CombinePairs(h: Hasher, current: seq<Hash>, level: nat) returns (next: seq<Hash>)
    requires Sane(h) && AllCanonical(h, current) && |current| % 2 == 0
    ensures next == HashUp(h, current, level) && 2 * |next| == |current|
  {
    next := [];
    var rest := current;
    while rest != []
      invariant AllCanonical(h, rest) && |rest| % 2 == 0
      invariant HashUp(h, current, level) == next + HashUp(h, rest, level)
      decreases |rest|
    {
      next := next + [HashCombine(h, level, rest[0], rest[1])];
      rest := rest[2..];
    }
  }

  // ── The cache ──────────────────────────────────────────────────────

  /** Every filled slot holds the freshly computed root of a populated subshard. */
  ghost predicate CacheSound(h: Hasher, leaves: seq<Hash>, cache: seq<Option<Hash>>) {
    && |cache| == L0_DB_ROWS
    && forall slot :: 0 <= slot < L0_DB_ROWS && cache[slot].Some? ==>
         SlotPopulated(leaves, slot) && cache[slot].value == SlotRoot(h, leaves, slot)
  }

  /** Slot `slot` after a build has passed it: filled when the subshard has leaves. */
  function FillSlot(h: Hasher, leaves: seq<Hash>, cache: seq<Option<Hash>>, slot: nat): (filled: seq<Option<Hash>>)
    ensures |filled| == |cache|
  {
    if slot < |cache| && SlotPopulated(leaves, slot) then cache[slot := Some(SlotRoot(h, leaves, slot))] else cache
  }

  function FillSlots(h: Hasher, leaves: seq<Hash>, cache: seq<Option<Hash>>, n: nat): (filled: seq<Option<Hash>>)
    ensures |filled| == |cache|
  {
    if n == 0 then cache else FillSlot(h, leaves, FillSlots(h, leaves, cache, n - 1), n - 1)
  }

  lemma PaddedAgrees(h: Hasher, a: seq<Hash>, b: seq<Hash>, start: nat, n: nat)
    requires start + n <= |a| && start + n <= |b|
    requires a[start..start + n] == b[start..start + n]
    ensures Padded(h, a, start, n) == Padded(h, b, start, n)
  {
    var p, q := Padded(h, a, start, n), Padded(h, b, start, n);
    forall i | 0 <= i < n
      ensures p[i] == q[i]
    {
      PaddedAt(h, a, start, n, i);
      PaddedAt(h, b, start, n, i);
      assert a[start..start + n][i] == b[start..start + n][i];
    }
  }

  lemma SlotRootAgrees(h: Hasher, a: seq<Hash>, b: seq<Hash>, slot: nat)
    requires (slot + 1) * SUBSHARD_LEAVES <= |a| && (slot + 1) * SUBSHARD_LEAVES <= |b|
    requires a <= b || b <= a
    ensures SlotRoot(h, a, slot) == SlotRoot(h, b, slot)
  {
    PaddedAgrees(h, a, b, slot * SUBSHARD_LEAVES, SUBSHARD_LEAVES);
  }

  lemma PaddedCanonical(h: Hasher, leaves: seq<Hash>, start: nat, n: nat)
    requires Sane(h) && AllCanonical(h, leaves)
    ensures AllCanonical(h, Padded(h, leaves, start, n))
  {
    EmptyRootCanonical(h, 0);
    forall i | 0 <= i < n
      ensures h.canonical(Padded(h, leaves, start, n)[i])
    {
      PaddedAt(h, leaves, start, n, i);
    }
  }

  lemma {:induction false} CompleteRootCanonical(h: Hasher, nodes: seq<Hash>, level: nat)
    requires Sane(h) && AllCanonical(h, nodes) && |nodes| > 0
    ensures h.canonical(CompleteRoot(h, nodes, level))
    decreases |nodes|
  {
    if |nodes| > 1 {
      HashUpCanonical(h, nodes, level);
      CompleteRootCanonical(h, HashUp(h, nodes, level), level + 1);
    }
  }

  lemma {:induction false} SlotNodesCanonical(h: Hasher, leaves: seq<Hash>, first: nat, n: nat)
    requires Sane(h) && AllCanonical(h, leaves)
    ensures AllCanonical(h, SlotNodes(h, leaves, first, n))
  {
    if n > 0 {
      SlotNodesCanonical(h, leaves, first, n - 1);
      EmptyRootCanonical(h, SUBSHARD_HEIGHT);
      PaddedCanonical(h, leaves, (first + n - 1) * SUBSHARD_LEAVES, SUBSHARD_LEAVES);
      CompleteRootCanonical(h, SlotLeaves(h, leaves, first + n - 1), 0);
    }
  }

  /** What the pass over one shard has gathered after some subshards. */
  datatype ShardPass = ShardPass(db: seq<byte>, roots: seq<Hash>)

  ghost function ShardPassOf(h: Hasher, leaves: seq<Hash>, first: nat, n: nat): ShardPass {
    ShardPass(Rows(h, leaves, first + n), SlotNodes(h, leaves, first, n))
  }

  lemma ShardPassStep(h: Hasher, leaves: seq<Hash>, first: nat, n: nat, cache: seq<Option<Hash>>)
    requires |cache| == L0_DB_ROWS && first + n < L0_DB_ROWS
    ensures ShardPassOf(h, leaves, first, n + 1) == ShardPass(
      ShardPassOf(h, leaves, first, n).db + Flatten(SlotLeaves(h, leaves, first + n)),
      ShardPassOf(h, leaves, first, n).roots + [SlotNode(h, leaves, first + n)])
    ensures FillSlots(h, leaves, cache, first + (n + 1)) == FillSlot(h, leaves, FillSlots(h, leaves, cache, first + n), first + n)
  {
  }

  /** What the window pass has gathered after some shards. */
  datatype Pass = Pass(db: seq<byte>, capRoots: seq<Hash>, windowRoots: seq<ShardSubRoots>)

  ghost function PassOf(h: Hasher, c: Contents, n: nat): Pass {
    Pass(Rows(h, c.leaves, n * SUBSHARDS_PER_SHARD), ShardRootsTo(h, c, WindowStart(c) + n), WindowRootsTo(h, c, n))
  }

  lemma PassStep(h: Hasher, c: Contents, i: nat)
    ensures var roots := SlotNodes(h, c.leaves, i * SUBSHARDS_PER_SHARD, SUBSHARDS_PER_SHARD);
      PassOf(h, c, i + 1) == Pass(
        Rows(h, c.leaves, (i + 1) * SUBSHARDS_PER_SHARD),
        PassOf(h, c, i).capRoots + [CompleteRoot(h, roots, SUBSHARD_HEIGHT)],
        PassOf(h, c, i).windowRoots + [ShardSubRoots(roots)])
  {
    assert SlotNodes(h, c.leaves, i * SUBSHARDS_PER_SHARD, SUBSHARDS_PER_SHARD) == SubshardRoots(h, c, WindowStart(c) + i);
    assert WindowStart(c) + (i + 1) == (WindowStart(c) + i) + 1;
  }

  class CommitmentTreeDb {
    const hasher: Hasher
    var leaves: seq<Hash>
    var blocks: seq<BlockRecord>
    var emptyRoots: seq<Hash>
    var leafOffset: nat
    var prefetchedShardRoots: seq<Hash>
    var ssRootCache: array<Option<Hash>>

    ghost function View(): Contents
      reads this
    {
      Contents(leaves, blocks, leafOffset, prefetchedShardRoots)
    }

    ghost predicate Valid()
      reads this, ssRootCache
    {
      && Sane(hasher)
      && CanonicalContents(hasher, View())
      && |emptyRoots| == TREE_DEPTH + 1
      && (forall level :: 0 <= level <= TREE_DEPTH ==> emptyRoots[level] == EmptyRoot(hasher, level))
      && ssRootCache.Length == L0_DB_ROWS
      && CacheSound(hasher, leaves, ssRootCache[..])
    }

    constructor WithOffset(h: Hasher, leafOffset: nat, prefetched: seq<Hash>)
      requires Sane(h) && AllCanonical(h, prefetched)
      ensures Valid() && fresh(ssRootCache) && hasher == h
      ensures View() == Fresh(leafOffset, prefetched)
      ensures forall slot :: 0 <= slot < L0_DB_ROWS ==> ssRootCache[slot] == None
    {
      hasher := h;
      leaves := [];
      blocks := [];
      this.leafOffset := leafOffset;
      prefetchedShardRoots := prefetched;
      var roots := PrecomputeEmptyRoots(h);
      emptyRoots := roots;
      ssRootCache := new Option<Hash>[L0_DB_ROWS](i => None);
    }

    method AppendCommitments(height: nat, hash: Hash, commitments: seq<Hash>)
      requires Valid() && AllCanonical(hasher, commitments)
      modifies this`leaves, this`blocks, ssRootCache
      ensures Valid()
      ensures View() == Appended(old(View()), height, hash, commitments)
      ensures forall slot :: 0 <= slot < L0_DB_ROWS ==>
        ssRootCache[slot] == if commitments != [] && old(|leaves|) / SUBSHARD_LEAVES <= slot <= (|leaves| - 1) / SUBSHARD_LEAVES
        then None else old(ssRootCache[slot])
    {
      if commitments != [] {
        var oldLocalLen := |leaves|;
        leaves := leaves + commitments;
        var newLocalLen := |leaves|;
        var firstDirty := oldLocalLen / SUBSHARD_LEAVES;
        var lastDirty := (newLocalLen - 1) / SUBSHARD_LEAVES;
        var slot := firstDirty;
        while slot <= Min(lastDirty, L0_DB_ROWS - 1)
          invariant firstDirty <= slot
          invariant forall k :: 0 <= k < L0_DB_ROWS ==>
            ssRootCache[k] == if firstDirty <= k < slot && k <= lastDirty then None else old(ssRootCache[k])
          modifies ssRootCache
          decreases L0_DB_ROWS - slot
        {
          ssRootCache[slot] := None;
          slot := slot + 1;
        }
        forall k | 0 <= k < L0_DB_ROWS && ssRootCache[k].Some?
          ensures SlotPopulated(leaves, k) && ssRootCache[k].value == SlotRoot(hasher, leaves, k)
        {
          assert old(ssRootCache[..])[k] == ssRootCache[k];
          assert k < firstDirty;
          SlotRootAgrees(hasher, old(leaves), leaves, k);
        }
      }
      blocks := blocks + [BlockRecord(height, hash, |commitments| % U32_LIMIT)];
    }

    method RollbackTo(targetHeight: nat)
      requires Valid()
      modifies this`leaves, this`blocks, ssRootCache
      ensures Valid()
      ensures View() == RolledBack(old(View()), targetHeight)
      ensures forall slot :: 0 <= slot < L0_DB_ROWS ==>
        ssRootCache[slot] == if slot < (|leaves| - 1) / SUBSHARD_LEAVES then old(ssRootCache[slot]) else None
    {
      ghost var c := View();
      var toRemove: nat := 0;
      while blocks != [] && blocks[|blocks| - 1].height > targetHeight
        invariant blocks <= c.blocks && Kept(blocks, targetHeight) == Kept(c.blocks, targetHeight)
        invariant toRemove == CommitmentCount(c.blocks) - CommitmentCount(blocks)
        modifies this`blocks
        decreases |blocks|
      {
        toRemove := toRemove + blocks[|blocks| - 1].numCommitments;
        blocks := blocks[..|blocks| - 1];
      }
      var newLen := SaturatingSub(|leaves|, toRemove);
      leaves := leaves[..newLen];
      var frontierSlot := if newLen == 0 then 0 else (newLen - 1) / SUBSHARD_LEAVES;
      var slot := frontierSlot;
      while slot < L0_DB_ROWS
        invariant frontierSlot <= slot
        invariant forall k :: 0 <= k < L0_DB_ROWS ==>
          ssRootCache[k] == if frontierSlot <= k < slot then None else old(ssRootCache[k])
        modifies ssRootCache
        decreases L0_DB_ROWS - slot
      {
        ssRootCache[slot] := None;
        slot := slot + 1;
      }
      forall k | 0 <= k < L0_DB_ROWS && ssRootCache[k].Some?
        ensures SlotPopulated(leaves, k) && ssRootCache[k].value == SlotRoot(hasher, leaves, k)
      {
        assert old(ssRootCache[..])[k] == ssRootCache[k];
        SlotRootAgrees(hasher, old(leaves), leaves, k);
      }
    }

    /** Subshard `ss` of window shard `i`: its leaves and its root, from the cache when the slot is filled. */
    method SubshardOf(i: nat, ss: nat) returns (subshard: seq<Hash>, root: Hash)
      requires Valid() && Aligned(View()) && i < L0_MAX_SHARDS && ss < SUBSHARDS_PER_SHARD
      modifies ssRootCache
      ensures Valid() && View() == old(View())
      ensures subshard == SlotLeaves(hasher, leaves, i * SUBSHARDS_PER_SHARD + ss)
      ensures root == SlotNode(hasher, leaves, i * SUBSHARDS_PER_SHARD + ss)
      ensures ssRootCache[..] == FillSlot(hasher, leaves, old(ssRootCache[..]), i * SUBSHARDS_PER_SHARD + ss)
    {
      var c := Contents(leaves, blocks, leafOffset, prefetchedShardRoots);
      var shard := WindowStart(c) + i;
      var cacheSlot := i * SUBSHARDS_PER_SHARD + ss;
      SubshardIsSlot(hasher, c, shard, ss);
      subshard := SubshardLeaves(hasher, c, shard, ss);
      assert ssRootCache[..][cacheSlot] == ssRootCache[cacheSlot];
      if shard * SHARD_LEAVES + ss * SUBSHARD_LEAVES >= TreeSize(c) {
        root := emptyRoots[SUBSHARD_HEIGHT];
      } else if ssRootCache[cacheSlot].Some? {
        root := ssRootCache[cacheSlot].value;
      } else {
        PaddedCanonical(hasher, leaves, cacheSlot * SUBSHARD_LEAVES, SUBSHARD_LEAVES);
        SubshardIsPowerOfTwo();
        root := CompleteSubtreeRoot(hasher, subshard, 0);
        ssRootCache[cacheSlot] := Some(root);
      }
    }

    /** All subshards of window shard `i`, written to the database in row order. */
    method SubshardsOf(i: nat, before: seq<byte>, ghost cache: seq<Option<Hash>>) returns (pass: ShardPass)
      requires Valid() && Aligned(View()) && i < L0_MAX_SHARDS
      requires ssRootCache[..] == FillSlots(hasher, leaves, cache, i * SUBSHARDS_PER_SHARD)
      requires before == Rows(hasher, leaves, i * SUBSHARDS_PER_SHARD)
      modifies ssRootCache
      ensures Valid() && View() == old(View())
      ensures pass == ShardPassOf(hasher, leaves, i * SUBSHARDS_PER_SHARD, SUBSHARDS_PER_SHARD)
      ensures ssRootCache[..] == FillSlots(hasher, leaves, cache, (i + 1) * SUBSHARDS_PER_SHARD)
    {
      ghost var c, first := View(), i * SUBSHARDS_PER_SHARD;
      pass := ShardPass(before, []);
      var ss := 0;
      while ss < SUBSHARDS_PER_SHARD
        invariant ss <= SUBSHARDS_PER_SHARD
        invariant Valid() && View() == c
        invariant pass == ShardPassOf(hasher, leaves, first, ss)
        invariant ssRootCache[..] == FillSlots(hasher, leaves, cache, first + ss)
        modifies ssRootCache
      {
        ShardPassStep(hasher, leaves, first, ss, cache);
        var subshard, root := SubshardOf(i, ss);
        pass := ShardPass(pass.db + Flatten(subshard), pass.roots + [root]);
        ss := ss + 1;
      }
    }

    /** Window shard `i`: its rows, its subshard roots and the root above them. */
    method ShardOf(i: nat, before: seq<byte>, ghost cache: seq<Option<Hash>>)
      returns (db: seq<byte>, ssRoots: seq<Hash>, shardRoot: Hash)
      requires Valid() && Aligned(View()) && i < L0_MAX_SHARDS
      requires ssRootCache[..] == FillSlots(hasher, leaves, cache, i * SUBSHARDS_PER_SHARD)
      requires before == Rows(hasher, leaves, i * SUBSHARDS_PER_SHARD)
      modifies ssRootCache
      ensures Valid() && View() == old(View())
      ensures db == Rows(hasher, leaves, (i + 1) * SUBSHARDS_PER_SHARD)
      ensures ssRoots == SlotNodes(hasher, leaves, i * SUBSHARDS_PER_SHARD, SUBSHARDS_PER_SHARD)
      ensures shardRoot == CompleteRoot(hasher, ssRoots, SUBSHARD_HEIGHT)
      ensures ssRootCache[..] == FillSlots(hasher, leaves, cache, (i + 1) * SUBSHARDS_PER_SHARD)
    {
      var pass := SubshardsOf(i, before, cache);
      db, ssRoots := pass.db, pass.roots;
      SlotNodesCanonical(hasher, leaves, i * SUBSHARDS_PER_SHARD, SUBSHARDS_PER_SHARD);
      SubshardIsPowerOfTwo();
      shardRoot := CompleteSubtreeRoot(hasher, ssRoots, SUBSHARD_HEIGHT);
    }

    /** The cap roots of the shards before the window. */
    method PrefetchedCap() returns (capRoots: seq<Hash>)
      requires Valid()
      ensures capRoots == ShardRootsTo(hasher, View(), WindowStart(View()))
    {
      var windowStart := leafOffset / SHARD_LEAVES;
      capRoots := [];
      for i := 0 to windowStart
        invariant capRoots == ShardRootsTo(hasher, View(), i)
      {
        capRoots := capRoots + [if i < |prefetchedShardRoots| then prefetchedShardRoots[i] else emptyRoots[SHARD_HEIGHT]];
      }
    }

    /** The window pass: every shard's rows, its subshard roots and its place in the cap. */
    method WindowShards(windowCount: nat, prefetchedCap: seq<Hash>) returns (pass: Pass)
      requires Valid() && Aligned(View()) && windowCount <= L0_MAX_SHARDS
      requires prefetchedCap == ShardRootsTo(hasher, View(), WindowStart(View()))
      modifies ssRootCache
      ensures Valid() && View() == old(View())
      ensures pass == PassOf(hasher, View(), windowCount)
      ensures ssRootCache[..] == FillSlots(hasher, leaves, old(ssRootCache[..]), windowCount * SUBSHARDS_PER_SHARD)
    {
      ghost var c, cache := View(), ssRootCache[..];
      pass := Pass([], prefetchedCap, []);
      var i := 0;
      while i < windowCount
        invariant i <= windowCount
        invariant Valid() && View() == c
        invariant pass == PassOf(hasher, c, i)
        invariant ssRootCache[..] == FillSlots(hasher, leaves, cache, i * SUBSHARDS_PER_SHARD)
        modifies ssRootCache
      {
        var db, ssRoots, shardRoot := ShardOf(i, pass.db, cache);
        PassStep(hasher, c, i);
        pass := Pass(db, pass.capRoots + [shardRoot], pass.windowRoots + [ShardSubRoots(ssRoots)]);
        i := i + 1;
      }
    }

    /** The PIR database and the broadcast, in one pass over the window. */
    method BuildPirDbAndBroadcast(anchorHeight: nat) returns (db: seq<byte>, broadcast: Broadcast)
      requires Valid() && Aligned(View())
      modifies ssRootCache
      ensures Valid() && View() == old(View())
      ensures db == Database(hasher, View())
      ensures broadcast == BroadcastOf(hasher, View(), anchorHeight)
      ensures ssRootCache[..] ==
        FillSlots(hasher, leaves, old(ssRootCache[..]), WindowShardCount(View()) * SUBSHARDS_PER_SHARD)
    {
      var c := Contents(leaves, blocks, leafOffset, prefetchedShardRoots);
      var windowStart, windowCount := WindowStart(c), WindowShardCount(c);
      var cap := PrefetchedCap();
      var pass := WindowShards(windowCount, cap);
      db := pass.db + Zeros(L0_DB_BYTES - |pass.db|);
      broadcast := Broadcast(pass.capRoots, pass.windowRoots, windowStart, windowCount, anchorHeight);
    }
  }
}
