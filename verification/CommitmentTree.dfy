/** The commitment tree's contents and answers as values. */
module CommitmentTree {
  import opened Prelude
  import opened Geometry
  import opened Merkle

  datatype BlockRecord = BlockRecord(height: nat, hash: Hash, numCommitments: nat)

  /** Everything but the cache: local leaves, block log, window offset and
      the roots of the shards before the window. */
  datatype Contents = Contents(
    leaves: seq<Hash>,
    blocks: seq<BlockRecord>,
    leafOffset: nat,
    prefetched: seq<Hash>)

  datatype ShardSubRoots = ShardSubRoots(roots: seq<Hash>)

  datatype Broadcast = Broadcast(
    capRoots: seq<Hash>,
    subshardRoots: seq<ShardSubRoots>,
    windowStart: nat,
    windowCount: nat,
    anchorHeight: nat)

  // ── Counters ───────────────────────────────────────────────────────

  function TreeSize(c: Contents): nat {
    c.leafOffset + |c.leaves|
  }

  function PopulatedShards(c: Contents): nat {
    if TreeSize(c) == 0 then 0 else (TreeSize(c) - 1) / SHARD_LEAVES + 1
  }

  function WindowStart(c: Contents): nat {
    c.leafOffset / SHARD_LEAVES
  }

  function LocalShardCount(c: Contents): nat {
    if c.leaves == [] then 0 else (TreeSize(c) - 1) / SHARD_LEAVES - WindowStart(c) + 1
  }

  function WindowShardCount(c: Contents): nat {
    Min(LocalShardCount(c), L0_MAX_SHARDS)
  }

  predicate Aligned(c: Contents) {
    c.leafOffset % SHARD_LEAVES == 0
  }

  predicate CanonicalContents(h: Hasher, c: Contents) {
    AllCanonical(h, c.leaves) && AllCanonical(h, c.prefetched)
  }

  // ── Roots ──────────────────────────────────────────────────────────

  predicate IsPowerOfTwo(n: nat) {
    n == 1 || (n > 1 && n % 2 == 0 && IsPowerOfTwo(n / 2))
  }

  /** Root of a complete subtree: pair up until one node is left. */
  function CompleteRoot(h: Hasher, nodes: seq<Hash>, level: nat): Hash
    requires |nodes| > 0
    decreases |nodes|
  {
    if |nodes| == 1 then nodes[0] else CompleteRoot(h, HashUp(h, nodes, level), level + 1)
  }

  function TrailingZeros(n: nat): nat
    requires n > 0
  {
    if n % 2 == 1 then 0 else 1 + TrailingZeros(n / 2)
  }

  /** Root over `size` positions from `offset`, skipping halves beyond the end.
      Called with powers of two only. */
  function SparseRoot(h: Hasher, nodes: seq<Hash>, offset: nat, size: nat, base: nat): Hash
    decreases size, nodes
  {
    if size <= 1 then Get(h, nodes, base, offset)
    else
      var half := size / 2;
      var level := base + TrailingZeros(half);
      var left := SparseRoot(h, nodes, offset, half, base);
      var right := if offset + half >= |nodes| then EmptyRoot(h, level)
                   else SparseRoot(h, nodes, offset + half, half, base);
      h.combine(level, left, right)
  }

  /** `n` entries from `start`, positions beyond the list being empty leaves. */
  function Padded(h: Hasher, leaves: seq<Hash>, start: nat, n: nat): (window: seq<Hash>)
    ensures |window| == n
    decreases n, leaves
  {
    if n == 0 then [] else Padded(h, leaves, start, n - 1) + [Get(h, leaves, 0, start + n - 1)]
  }

  lemma {:induction false} PaddedAt(h: Hasher, leaves: seq<Hash>, start: nat, n: nat, i: nat)
    requires i < n
    ensures Padded(h, leaves, start, n)[i] == Get(h, leaves, 0, start + i)
    decreases n
  {
    if i < n - 1 {
      PaddedAt(h, leaves, start, n - 1, i);
    }
  }

  /** The 256 leaves of a window subshard, addressed by shard and subshard as the queries do. */
  function SubshardLeaves(h: Hasher, c: Contents, shard: nat, ss: nat): (leaves: seq<Hash>)
    requires c.leafOffset <= shard * SHARD_LEAVES
    ensures |leaves| == SUBSHARD_LEAVES
  {
    Padded(h, c.leaves, shard * SHARD_LEAVES + ss * SUBSHARD_LEAVES - c.leafOffset, SUBSHARD_LEAVES)
  }

  /** The same leaves addressed by local slot: window rows are numbered from the first local leaf. */
  function SlotLeaves(h: Hasher, leaves: seq<Hash>, slot: nat): (window: seq<Hash>)
    ensures |window| == SUBSHARD_LEAVES
  {
    Padded(h, leaves, slot * SUBSHARD_LEAVES, SUBSHARD_LEAVES)
  }

  /** Freshly computed root of a slot. */
  function SlotRoot(h: Hasher, leaves: seq<Hash>, slot: nat): Hash {
    CompleteRoot(h, SlotLeaves(h, leaves, slot), 0)
  }

  predicate SlotPopulated(leaves: seq<Hash>, slot: nat) {
    slot * SUBSHARD_LEAVES < |leaves|
  }

  /** The root a query reports: a slot beyond the frontier is not hashed at all. */
  function SlotNode(h: Hasher, leaves: seq<Hash>, slot: nat): Hash {
    if SlotPopulated(leaves, slot) then SlotRoot(h, leaves, slot) else EmptyRoot(h, SUBSHARD_HEIGHT)
  }

  function SlotNodes(h: Hasher, leaves: seq<Hash>, first: nat, n: nat): (roots: seq<Hash>)
    ensures |roots| == n
    decreases n, leaves
  {
    if n == 0 then [] else SlotNodes(h, leaves, first, n - 1) + [SlotNode(h, leaves, first + n - 1)]
  }

  lemma {:induction false} SlotNodesAt(h: Hasher, leaves: seq<Hash>, first: nat, n: nat, i: nat)
    requires i < n
    ensures SlotNodes(h, leaves, first, n)[i] == SlotNode(h, leaves, first + i)
    decreases n
  {
    if i < n - 1 {
      SlotNodesAt(h, leaves, first, n - 1, i);
    }
  }

  /** The slot of the first subshard of a window shard. */
  function FirstSlot(c: Contents, shard: nat): nat
    requires WindowStart(c) <= shard
  {
    (shard - WindowStart(c)) * SUBSHARDS_PER_SHARD
  }

  function SubshardRoots(h: Hasher, c: Contents, shard: nat): (roots: seq<Hash>)
    requires WindowStart(c) <= shard
    ensures |roots| == SUBSHARDS_PER_SHARD
  {
    SlotNodes(h, c.leaves, FirstSlot(c, shard), SUBSHARDS_PER_SHARD)
  }

  /** With an aligned offset both addresses name the same leaves, and the two
      "beyond the frontier" tests agree. */
  lemma SubshardIsSlot(h: Hasher, c: Contents, shard: nat, ss: nat)
    requires Aligned(c) && WindowStart(c) <= shard
    ensures SubshardLeaves(h, c, shard, ss) == SlotLeaves(h, c.leaves, FirstSlot(c, shard) + ss)
    ensures shard * SHARD_LEAVES + ss * SUBSHARD_LEAVES >= TreeSize(c)
       <==> !SlotPopulated(c.leaves, FirstSlot(c, shard) + ss)
  {
  }

  function PrefetchedRoot(h: Hasher, c: Contents, shard: nat): Hash {
    if shard < |c.prefetched| then c.prefetched[shard] else EmptyRoot(h, SHARD_HEIGHT)
  }

  function ShardRoot(h: Hasher, c: Contents, shard: nat): Hash
  {
    if shard < WindowStart(c) then PrefetchedRoot(h, c, shard)
    else CompleteRoot(h, SubshardRoots(h, c, shard), SUBSHARD_HEIGHT)
  }

  function ShardRoots(h: Hasher, c: Contents): seq<Hash>
  {
    ShardRootsTo(h, c, PopulatedShards(c))
  }

  function ShardRootsTo(h: Hasher, c: Contents, n: nat): (roots: seq<Hash>)
    ensures |roots| == n
    decreases n, c
  {
    if n == 0 then [] else ShardRootsTo(h, c, n - 1) + [ShardRoot(h, c, n - 1)]
  }

  lemma {:induction false} ShardRootsAt(h: Hasher, c: Contents, n: nat, i: nat)
    requires i < n
    ensures ShardRootsTo(h, c, n)[i] == ShardRoot(h, c, i)
    decreases n
  {
    if i < n - 1 {
      ShardRootsAt(h, c, n - 1, i);
    }
  }

  function TreeRoot(h: Hasher, c: Contents): Hash
  {
    if TreeSize(c) == 0 then EmptyRoot(h, TREE_DEPTH)
    else SparseRoot(h, ShardRoots(h, c), 0, MAX_SHARDS, SHARD_HEIGHT)
  }

  // ── Database and broadcast ─────────────────────────────────────────

  /** Row `slot` of the database: the bytes of the slot's 256 leaves. */
  function Row(h: Hasher, leaves: seq<Hash>, slot: nat): (row: seq<byte>)
    ensures |row| == SUBSHARD_ROW_BYTES
  {
    Flatten(SlotLeaves(h, leaves, slot))
  }

  function Rows(h: Hasher, leaves: seq<Hash>, n: nat): (bytes: seq<byte>)
    ensures |bytes| == n * SUBSHARD_ROW_BYTES
    decreases n, leaves
  {
    if n == 0 then [] else Rows(h, leaves, n - 1) + Row(h, leaves, n - 1)
  }

  /** The populated window rows, then zero rows up to the fixed size. */
  function Database(h: Hasher, c: Contents): (bytes: seq<byte>)
    ensures |bytes| == L0_DB_BYTES
  {
    var rows := Rows(h, c.leaves, WindowShardCount(c) * SUBSHARDS_PER_SHARD);
    rows + Zeros(L0_DB_BYTES - |rows|)
  }

  function BroadcastOf(h: Hasher, c: Contents, anchorHeight: nat): Broadcast
  {
    var start, count := WindowStart(c), WindowShardCount(c);
    Broadcast(ShardRootsTo(h, c, start + count), WindowRootsTo(h, c, count), start, count, anchorHeight)
  }

  function WindowRootsTo(h: Hasher, c: Contents, n: nat): (roots: seq<ShardSubRoots>)
    ensures |roots| == n
    decreases n, c
  {
    if n == 0 then [] else WindowRootsTo(h, c, n - 1) + [ShardSubRoots(SubshardRoots(h, c, WindowStart(c) + n - 1))]
  }

  lemma {:induction false} WindowRootsAt(h: Hasher, c: Contents, n: nat, i: nat)
    requires i < n
    ensures WindowRootsTo(h, c, n)[i].roots == SubshardRoots(h, c, WindowStart(c) + i)
    decreases n
  {
    if i < n - 1 {
      WindowRootsAt(h, c, n - 1, i);
    }
  }

  // ── Powers of two ──────────────────────────────────────────────────

  lemma {:induction false} PowerFacts(k: nat)
    ensures IsPowerOfTwo(Pow2(k))
    ensures TrailingZeros(Pow2(k)) == k
  {
    if k > 0 {
      PowerFacts(k - 1);
      assert Pow2(k) / 2 == Pow2(k - 1);
    }
  }

  lemma PowerValues()
    ensures Pow2(8) == 256 && Pow2(16) == 65536
  {
    assert Pow2(4) == 2 * (2 * (2 * (2 * Pow2(0))));
    assert Pow2(8) == 2 * (2 * (2 * (2 * Pow2(4))));
    assert Pow2(12) == 2 * (2 * (2 * (2 * Pow2(8))));
    assert Pow2(16) == 2 * (2 * (2 * (2 * Pow2(12))));
  }

  lemma SubshardIsPowerOfTwo()
    ensures IsPowerOfTwo(SUBSHARD_LEAVES)
  {
    PowerValues();
    PowerFacts(8);
  }

  // ── The fast forms are the flat tree ───────────────────────────────

  lemma {:induction false} CompleteRootIsNode(h: Hasher, nodes: seq<Hash>, base: nat, k: nat)
    requires |nodes| == Pow2(k)
    ensures CompleteRoot(h, nodes, base) == NodeAt(h, nodes, base, k, 0)
    decreases k
  {
    if k > 0 {
      CompleteRootStep(h, nodes, base, k);
      CompleteRootIsNode(h, HashUp(h, nodes, base), base + 1, k - 1);
      HashUpKeepsNodes(h, nodes, base, k - 1, 0);
    }
  }

  lemma CompleteRootStep(h: Hasher, nodes: seq<Hash>, base: nat, k: nat)
    requires k > 0 && |nodes| == Pow2(k)
    ensures |HashUp(h, nodes, base)| == Pow2(k - 1)
    ensures CompleteRoot(h, nodes, base) == CompleteRoot(h, HashUp(h, nodes, base), base + 1)
  {
  }

  lemma {:induction false} SparseRootIsNode(
    h: Hasher, nodes: seq<Hash>, offset: nat, size: nat, base: nat, k: nat, i: nat)
    requires size == Pow2(k) && offset == i * size
    ensures SparseRoot(h, nodes, offset, size, base) == NodeAt(h, nodes, base, k, i)
    decreases k
  {
    if k > 0 {
      var half := Pow2(k - 1);
      SpanSplit(k, i);
      SparseRootIsNode(h, nodes, offset, half, base, k - 1, 2 * i);
      if offset + half >= |nodes| {
        NodeBeyondEnd(h, nodes, base, k - 1, 2 * i + 1);
      } else {
        SparseRootIsNode(h, nodes, offset + half, half, base, k - 1, 2 * i + 1);
      }
      SparseRootStep(h, nodes, offset, size, half, base, k - 1);
    }
  }

  lemma SparseRootStep(h: Hasher, nodes: seq<Hash>, offset: nat, size: nat, half: nat, base: nat, k: nat)
    requires half == Pow2(k) && size == 2 * half
    ensures SparseRoot(h, nodes, offset, size, base) == h.combine(base + k,
      SparseRoot(h, nodes, offset, half, base),
      if offset + half >= |nodes| then EmptyRoot(h, base + k) else SparseRoot(h, nodes, offset + half, half, base))
  {
    PowerFacts(k);
    assert size / 2 == half;
  }

  /** `all` is the full leaf list of the pool, and `c` is a correct window onto it. */
  ghost predicate Represents(h: Hasher, c: Contents, all: seq<Hash>) {
    && Aligned(c)
    && |all| == TreeSize(c)
    && all[c.leafOffset..] == c.leaves
    && forall i: nat :: i < WindowStart(c) ==> PrefetchedRoot(h, c, i) == NodeAt(h, all, 0, SHARD_HEIGHT, i)
  }

  /** A tree without prefetched shards is a correct window onto its own leaves. */
  lemma FullTreeRepresents(h: Hasher, c: Contents)
    requires c.leafOffset == 0
    ensures Represents(h, c, c.leaves)
  {
  }

  lemma EarlierRootsStay(h: Hasher, c: Contents, a: seq<Hash>, b: seq<Hash>, i: nat)
    requires Aligned(c) && i < WindowStart(c) && (a <= b || b <= a) && c.leafOffset <= |a| && c.leafOffset <= |b|
    ensures NodeAt(h, a, 0, SHARD_HEIGHT, i) == NodeAt(h, b, 0, SHARD_HEIGHT, i)
  {
    PowerValues();
    assert (i + 1) * SHARD_LEAVES <= c.leafOffset;
    if a <= b {
      NodeIsStable(h, a, b, SHARD_HEIGHT, i);
    } else {
      NodeIsStable(h, b, a, SHARD_HEIGHT, i);
    }
  }

  /** Leaves added to or taken off the end of the window leave a correct window. */
  lemma WindowMoves(h: Hasher, c: Contents, c': Contents, a: seq<Hash>, b: seq<Hash>)
    requires Represents(h, c, a) && (a <= b || b <= a) && c.leafOffset <= |b|
    requires c'.leafOffset == c.leafOffset && c'.prefetched == c.prefetched && c'.leaves == b[c.leafOffset..]
    ensures Represents(h, c', b)
  {
    forall i: nat | i < WindowStart(c')
      ensures PrefetchedRoot(h, c', i) == NodeAt(h, b, 0, SHARD_HEIGHT, i)
    {
      EarlierRootsStay(h, c, a, b, i);
    }
  }

  /** The leaves handed to the hash are the pool's leaves under that subshard node. */
  lemma SlotIsPart(h: Hasher, c: Contents, all: seq<Hash>, slot: nat)
    requires Represents(h, c, all)
    ensures IsPart(h, SlotLeaves(h, c.leaves, slot), 0, all, c.leafOffset + slot * SUBSHARD_LEAVES, SUBSHARD_LEAVES)
  {
    var leaves := SlotLeaves(h, c.leaves, slot);
    var local := slot * SUBSHARD_LEAVES;
    var first := c.leafOffset + local;
    forall d: nat | d < SUBSHARD_LEAVES
      ensures Get(h, leaves, 0, d) == NodeAt(h, all, 0, 0, first + d)
    {
      PaddedAt(h, c.leaves, local, SUBSHARD_LEAVES, d);
      if first + d < |all| {
        assert all[c.leafOffset..][local + d] == all[first + d];
      }
    }
  }

  lemma SlotIsNode(h: Hasher, c: Contents, all: seq<Hash>, slot: nat)
    requires Represents(h, c, all)
    ensures var i := WindowStart(c) * SUBSHARDS_PER_SHARD + slot;
      && SlotRoot(h, c.leaves, slot) == NodeAt(h, all, 0, SUBSHARD_HEIGHT, i)
      && SlotNode(h, c.leaves, slot) == NodeAt(h, all, 0, SUBSHARD_HEIGHT, i)
  {
    var i := WindowStart(c) * SUBSHARDS_PER_SHARD + slot;
    PowerValues();
    SlotIsPart(h, c, all, slot);
    CompleteRootIsNode(h, SlotLeaves(h, c.leaves, slot), 0, SUBSHARD_HEIGHT);
    PartRoot(h, SlotLeaves(h, c.leaves, slot), 0, all, i, SUBSHARD_HEIGHT);
    if !SlotPopulated(c.leaves, slot) {
      NodeBeyondEnd(h, all, 0, SUBSHARD_HEIGHT, i);
    }
  }

  lemma SubshardRootsArePart(h: Hasher, c: Contents, all: seq<Hash>, shard: nat)
    requires Represents(h, c, all) && WindowStart(c) <= shard
    ensures IsPart(h, SubshardRoots(h, c, shard), SUBSHARD_HEIGHT, all, shard * SUBSHARDS_PER_SHARD, SUBSHARDS_PER_SHARD)
  {
    var roots := SubshardRoots(h, c, shard);
    var first := shard * SUBSHARDS_PER_SHARD;
    forall d: nat | d < SUBSHARDS_PER_SHARD
      ensures Get(h, roots, SUBSHARD_HEIGHT, d) == NodeAt(h, all, 0, SUBSHARD_HEIGHT, first + d)
    {
      SlotNodesAt(h, c.leaves, FirstSlot(c, shard), SUBSHARDS_PER_SHARD, d);
      SlotIsNode(h, c, all, FirstSlot(c, shard) + d);
    }
  }

  lemma ShardRootIsNode(h: Hasher, c: Contents, all: seq<Hash>, shard: nat)
    requires Represents(h, c, all)
    ensures ShardRoot(h, c, shard) == NodeAt(h, all, 0, SHARD_HEIGHT, shard)
  {
    if shard >= WindowStart(c) {
      var roots := SubshardRoots(h, c, shard);
      PowerValues();
      SubshardRootsArePart(h, c, all, shard);
      CompleteRootIsNode(h, roots, SUBSHARD_HEIGHT, SUBSHARD_HEIGHT);
      PartRoot(h, roots, SUBSHARD_HEIGHT, all, shard, SUBSHARD_HEIGHT);
    }
  }

  /** The populated shard roots are the tree's nodes of height 16. */
  lemma ShardRootsArePart(h: Hasher, c: Contents, all: seq<Hash>)
    requires Represents(h, c, all)
    ensures IsPart(h, ShardRoots(h, c), SHARD_HEIGHT, all, 0, MAX_SHARDS)
  {
    var roots := ShardRoots(h, c);
    forall i: nat | i < MAX_SHARDS
      ensures Get(h, roots, SHARD_HEIGHT, i) == NodeAt(h, all, 0, SHARD_HEIGHT, 0 + i)
    {
      if i < PopulatedShards(c) {
        ShardRootsAt(h, c, PopulatedShards(c), i);
        ShardRootIsNode(h, c, all, i);
      } else {
        PowerValues();
        NodeBeyondEnd(h, all, 0, SHARD_HEIGHT, i);
      }
    }
  }

  /** The server's three-tier root is the plain depth-32 Merkle root. */
  lemma TreeRootIsMerkleRoot(h: Hasher, c: Contents, all: seq<Hash>)
    requires Represents(h, c, all)
    ensures TreeRoot(h, c) == NodeAt(h, all, 0, TREE_DEPTH, 0)
  {
    var roots := ShardRoots(h, c);
    if TreeSize(c) == 0 {
      NodeBeyondEnd(h, all, 0, TREE_DEPTH, 0);
    } else {
      ShardRootsArePart(h, c, all);
      PowerValues();
      PartRoot(h, roots, SHARD_HEIGHT, all, 0, SHARD_HEIGHT);
      SparseRootIsNode(h, roots, 0, MAX_SHARDS, SHARD_HEIGHT, SHARD_HEIGHT, 0);
    }
  }

  // ── Padding ────────────────────────────────────────────────────────

  /** A node list filled up with empty subtrees of its own height. */
  function PadTo(h: Hasher, nodes: seq<Hash>, base: nat, n: nat): (padded: seq<Hash>)
    ensures |padded| == if |nodes| < n then n else |nodes|
    ensures nodes <= padded
    decreases n, nodes
  {
    if n <= |nodes| then nodes else PadTo(h, nodes, base, n - 1) + [EmptyRoot(h, base)]
  }

  lemma {:induction false} PadToGet(h: Hasher, nodes: seq<Hash>, base: nat, n: nat, i: nat)
    ensures Get(h, PadTo(h, nodes, base, n), base, i) == Get(h, nodes, base, i)
    decreases n
  {
    if |nodes| < n {
      PadToGet(h, nodes, base, n - 1, i);
    }
  }

  lemma {:induction false} PaddingKeepsNodes(h: Hasher, nodes: seq<Hash>, base: nat, n: nat, k: nat, i: nat)
    ensures NodeAt(h, PadTo(h, nodes, base, n), base, k, i) == NodeAt(h, nodes, base, k, i)
    decreases k
  {
    if k == 0 {
      PadToGet(h, nodes, base, n, i);
    } else {
      PaddingKeepsNodes(h, nodes, base, n, k - 1, 2 * i);
      PaddingKeepsNodes(h, nodes, base, n, k - 1, 2 * i + 1);
    }
  }

  /** A sparse tier at any height: its siblings are those of the list padded to 2^k, and folding node
      `index` through them gives the sparse recursive root. */
  lemma SparseTier(h: Hasher, nodes: seq<Hash>, base: nat, k: nat, index: nat, siblings: seq<Hash>)
    requires |nodes| <= Pow2(k) && index < Pow2(k) && |siblings| == k && TierPath(h, nodes, base, index, k, siblings)
    ensures TierPath(h, PadTo(h, nodes, base, Pow2(k)), base, index, k, siblings)
    ensures FoldPath(h, Get(h, nodes, base, index), index, base, siblings) == SparseRoot(h, nodes, 0, Pow2(k), base)
  {
    forall l: nat | l < k
      ensures siblings[l] == TierSibling(h, PadTo(h, nodes, base, Pow2(k)), base, index, l)
    {
      PaddingKeepsNodes(h, nodes, base, Pow2(k), l, SiblingIndex(Ancestor(index, l)));
    }
    FoldWholeTier(h, nodes, base, index, 0, k, siblings, index);
    SparseRootIsNode(h, nodes, 0, Pow2(k), base, k, 0);
  }

  // ── Slicing the database ───────────────────────────────────────────

  lemma {:induction false} RowInRows(h: Hasher, leaves: seq<Hash>, n: nat, slot: nat)
    requires slot < n
    ensures Rows(h, leaves, n)[slot * SUBSHARD_ROW_BYTES..slot * SUBSHARD_ROW_BYTES + SUBSHARD_ROW_BYTES] == Row(h, leaves, slot)
    decreases n
  {
    var a, b := slot * SUBSHARD_ROW_BYTES, slot * SUBSHARD_ROW_BYTES + SUBSHARD_ROW_BYTES;
    var before := Rows(h, leaves, n - 1);
    if slot < n - 1 {
      RowInRows(h, leaves, n - 1, slot);
      assert Rows(h, leaves, n)[a..b] == before[a..b];
    } else {
      assert |before| == a;
    }
  }

  lemma RowOfDatabase(h: Hasher, c: Contents, slot: nat)
    requires slot < WindowShardCount(c) * SUBSHARDS_PER_SHARD
    ensures (slot + 1) * SUBSHARD_ROW_BYTES <= L0_DB_BYTES
    ensures Database(h, c)[slot * SUBSHARD_ROW_BYTES..slot * SUBSHARD_ROW_BYTES + SUBSHARD_ROW_BYTES] == Row(h, c.leaves, slot)
  {
    var n := WindowShardCount(c) * SUBSHARDS_PER_SHARD;
    var a, b := slot * SUBSHARD_ROW_BYTES, slot * SUBSHARD_ROW_BYTES + SUBSHARD_ROW_BYTES;
    var rows := Rows(h, c.leaves, n);
    RowInRows(h, c.leaves, n, slot);
    assert Database(h, c)[a..b] == rows[a..b];
  }

  /** Cell `k` of the database is leaf `k` of the window, and the empty leaf beyond the last one. */
  lemma LeafOfDatabase(h: Hasher, c: Contents, k: nat)
    requires k < WindowShardCount(c) * SHARD_LEAVES
    ensures 32 * k + 32 <= L0_DB_BYTES
    ensures Database(h, c)[32 * k..32 * k + 32] == (if k < |c.leaves| then c.leaves[k] else h.emptyLeaf).bytes
  {
    var slot, i := k / SUBSHARD_LEAVES, k % SUBSHARD_LEAVES;
    RowOfDatabase(h, c, slot);
    LeafOfRow(h, c.leaves, slot, i);
    CellOfRow(Database(h, c), slot * SUBSHARD_ROW_BYTES, 32 * i, 32 * k);
  }

  lemma CellOfRow(bytes: seq<byte>, row: nat, cell: nat, at: nat)
    requires row + cell == at && cell + 32 <= SUBSHARD_ROW_BYTES && row + SUBSHARD_ROW_BYTES <= |bytes|
    ensures bytes[row..row + SUBSHARD_ROW_BYTES][cell..cell + 32] == bytes[at..at + 32]
  {
    var whole := bytes[row..row + SUBSHARD_ROW_BYTES];
    var a, b := whole[cell..cell + 32], bytes[at..at + 32];
    forall i | 0 <= i < 32 ensures a[i] == b[i] {
      assert whole[cell + i] == bytes[row + (cell + i)];
    }
  }

  lemma LeafOfRow(h: Hasher, leaves: seq<Hash>, slot: nat, i: nat)
    requires i < SUBSHARD_LEAVES
    ensures var k := slot * SUBSHARD_LEAVES + i;
      Row(h, leaves, slot)[32 * i..32 * i + 32] == (if k < |leaves| then leaves[k] else h.emptyLeaf).bytes
  {
    FlattenAt(SlotLeaves(h, leaves, slot), i);
    assert EmptyRoot(h, 0) == h.emptyLeaf;
    PaddedAt(h, leaves, slot * SUBSHARD_LEAVES, SUBSHARD_LEAVES, i);
  }
}
