/** What a client gets once the window is over-full. */
module WindowLimit {
  import opened Prelude
  import opened Geometry
  import opened Merkle
  import opened CommitmentTree
  import opened TreeHistory
  import opened Reconstruct
  import opened WitnessService

  // ── Two leaf lists under one root ──────────────────────────────────

  /** The two nodes below `m` at height `l + 1` are not the same in both trees. */
  ghost predicate ChildrenDiffer(h: Hasher, a: seq<Hash>, b: seq<Hash>, l: nat, m: nat) {
    NodeAt(h, a, 0, l, 2 * m) != NodeAt(h, b, 0, l, 2 * m) || NodeAt(h, a, 0, l, 2 * m + 1) != NodeAt(h, b, 0, l, 2 * m + 1)
  }

  lemma AncestorBelow(j: nat, l: nat)
    ensures Ancestor(j, l) == 2 * Ancestor(j, l + 1) || Ancestor(j, l) == 2 * Ancestor(j, l + 1) + 1
  {
  }

  /** Two lists that differ at a leaf but agree at an ancestor of it show a hash collision on the way. */
  lemma {:induction false} DifferentLeavesCollide(h: Hasher, a: seq<Hash>, b: seq<Hash>, k: nat, j: nat) returns (l: nat)
    requires Get(h, a, 0, j) != Get(h, b, 0, j)
    requires NodeAt(h, a, 0, k, Ancestor(j, k)) == NodeAt(h, b, 0, k, Ancestor(j, k))
    ensures l < k && ChildrenDiffer(h, a, b, l, Ancestor(j, l + 1))
    ensures NodeAt(h, a, 0, l + 1, Ancestor(j, l + 1)) == NodeAt(h, b, 0, l + 1, Ancestor(j, l + 1))
    decreases k
  {
    if k == 0 {
      assert false;
    } else if NodeAt(h, a, 0, k - 1, Ancestor(j, k - 1)) == NodeAt(h, b, 0, k - 1, Ancestor(j, k - 1)) {
      l := DifferentLeavesCollide(h, a, b, k - 1, j);
    } else {
      l := k - 1;
      AncestorBelow(j, l);
    }
  }

  lemma {:induction false} SameLeavesSameNodes(h: Hasher, a: seq<Hash>, b: seq<Hash>, k: nat, i: nat)
    requires forall j: nat :: Get(h, a, 0, j) == Get(h, b, 0, j)
    ensures NodeAt(h, a, 0, k, i) == NodeAt(h, b, 0, k, i)
  {
    if k > 0 {
      SameLeavesSameNodes(h, a, b, k - 1, 2 * i);
      SameLeavesSameNodes(h, a, b, k - 1, 2 * i + 1);
    }
  }

  lemma TopAncestor(j: nat)
    requires j < TREE_CAPACITY
    ensures Ancestor(j, TREE_DEPTH) == 0
  {
    PowerValues();
    assert Pow2(20) == 2 * (2 * (2 * (2 * Pow2(16))));
    assert Pow2(24) == 2 * (2 * (2 * (2 * Pow2(20))));
    assert Pow2(28) == 2 * (2 * (2 * (2 * Pow2(24))));
    assert Pow2(32) == 2 * (2 * (2 * (2 * Pow2(28))));
    AncestorInside(0, TREE_DEPTH, j, TREE_DEPTH);
  }

  /** Every leaf beyond the published ones is the empty leaf. */
  ghost predicate NothingBeyond(h: Hasher, c: Contents, all: seq<Hash>) {
    forall j :: |PublishedPool(c, all)| <= j < |all| ==> all[j] == h.emptyLeaf
  }

  /** The node hash maps two different pairs of this pool's nodes to one value. */
  ghost predicate CollisionInPool(h: Hasher, c: Contents, all: seq<Hash>) {
    exists l: nat, m: nat ::
      && ChildrenDiffer(h, PublishedPool(c, all), all, l, m)
      && NodeAt(h, PublishedPool(c, all), 0, l + 1, m) == NodeAt(h, all, 0, l + 1, m)
  }

  /** The client's root is the server's tree root when nothing but empty leaves lies beyond the published
      pool, in particular up to 16 window shards, and otherwise only through a hash collision. */
  lemma PublishedRootIff(h: Hasher, c: Contents, all: seq<Hash>)
    requires Represents(h, c, all) && TreeSize(c) <= TREE_CAPACITY
    ensures LocalShardCount(c) <= L0_MAX_SHARDS ==> NothingBeyond(h, c, all)
    ensures NothingBeyond(h, c, all) ==> NodeAt(h, PublishedPool(c, all), 0, TREE_DEPTH, 0) == TreeRoot(h, c)
    ensures !CollisionInPool(h, c, all) ==>
      (NodeAt(h, PublishedPool(c, all), 0, TREE_DEPTH, 0) == TreeRoot(h, c) <==> NothingBeyond(h, c, all))
  {
    var part := PublishedPool(c, all);
    TreeRootIsMerkleRoot(h, c, all);
    PublishedCounts(c);
    if NothingBeyond(h, c, all) {
      SameLeavesSameNodes(h, part, all, TREE_DEPTH, 0);
    } else if NodeAt(h, part, 0, TREE_DEPTH, 0) == TreeRoot(h, c) {
      var j :| |part| <= j < |all| && all[j] != h.emptyLeaf;
      TopAncestor(j);
      var l := DifferentLeavesCollide(h, part, all, TREE_DEPTH, j);
      assert ChildrenDiffer(h, part, all, l, Ancestor(j, l + 1));
    }
  }

  // ── Seventeen shards ───────────────────────────────────────────────

  function Ones(n: nat): (ones: seq<byte>)
    ensures |ones| == n && forall i :: 0 <= i < n ==> ones[i] == 1
    decreases n, 0
  {
    if n == 0 then [] else Ones(n - 1) + [1]
  }

  const QUIET: Hash := Hash(Zeros(32))
  const MARK: Hash := Hash(Ones(32))

  /** A node hash that only tells whether something is marked below. */
  function Marker(): Hasher {
    Hasher((level: nat, l: Hash, r: Hash) => if l == QUIET && r == QUIET then QUIET else MARK, QUIET, (x: Hash) => true)
  }

  function QuietLeaves(n: nat): (leaves: seq<Hash>)
    ensures |leaves| == n && forall i :: 0 <= i < n ==> leaves[i] == QUIET
    decreases n, 0
  {
    if n == 0 then [] else QuietLeaves(n - 1) + [QUIET]
  }

  /** An empty tree after one block that fills sixteen shards and marks one leaf of the seventeenth. */
  function SeventeenShards(): (c: Contents)
    ensures c.leaves == QuietLeaves(WINDOW_LEAVES) + [MARK]
  {
    Appended(Fresh(0, []), 0, QUIET, QuietLeaves(WINDOW_LEAVES) + [MARK])
  }

  lemma {:induction false} QuietBelow(leaves: seq<Hash>, k: nat, i: nat)
    requires forall j :: 0 <= j < |leaves| ==> leaves[j] == QUIET
    ensures NodeAt(Marker(), leaves, 0, k, i) == QUIET
  {
    if k > 0 {
      QuietBelow(leaves, k - 1, 2 * i);
      QuietBelow(leaves, k - 1, 2 * i + 1);
    }
  }

  lemma {:induction false} MarkedAbove(leaves: seq<Hash>, j: nat, k: nat)
    requires j < |leaves| && leaves[j] == MARK
    ensures NodeAt(Marker(), leaves, 0, k, Ancestor(j, k)) == MARK
    decreases k
  {
    assert QUIET.bytes[0] == 0 && MARK.bytes[0] == 1;
    if k > 0 {
      MarkedAbove(leaves, j, k - 1);
      AncestorBelow(j, k - 1);
    }
  }

  lemma SeventeenCounts()
    ensures LocalShardCount(SeventeenShards()) == 17 && TreeSize(SeventeenShards()) == WINDOW_LEAVES + 1
    ensures PublishedPool(SeventeenShards(), SeventeenShards().leaves) == QuietLeaves(WINDOW_LEAVES)
    ensures SeventeenShards().leaves[WINDOW_LEAVES] == MARK
  {
  }

  lemma SeventeenRoots()
    ensures NodeAt(Marker(), QuietLeaves(WINDOW_LEAVES), 0, TREE_DEPTH, 0) == QUIET != MARK
    ensures NodeAt(Marker(), SeventeenShards().leaves, 0, TREE_DEPTH, 0) == MARK
  {
    SeventeenCounts();
    assert QUIET.bytes[0] == 0 && MARK.bytes[0] == 1;
    QuietBelow(QuietLeaves(WINDOW_LEAVES), TREE_DEPTH, 0);
    TopAncestor(WINDOW_LEAVES);
    MarkedAbove(SeventeenShards().leaves, WINDOW_LEAVES, TREE_DEPTH);
  }

  lemma EverythingIsCanonical(c: Contents)
    ensures Sane(Marker()) && CanonicalContents(Marker(), c)
  {
  }

  /** Where the published pool has another root than the whole one, every client's root is wrong. */
  lemma ClientsMissTheRoot(
    h: Hasher, c: Contents, all: seq<Hash>, part: seq<Hash>, anchor: nat, position: nat, w: PirWitness)
    requires Sane(h) && CanonicalContents(h, c) && Represents(h, c, all) && TreeSize(c) <= TREE_CAPACITY
    requires part == PublishedPool(c, all) && NodeAt(h, part, 0, TREE_DEPTH, 0) != NodeAt(h, all, 0, TREE_DEPTH, 0)
    ensures Answered(h, c, anchor, position, w) ==> w.anchorRoot != TreeRoot(h, c)
    ensures position < c.leafOffset + WINDOW_LEAVES && c.leafOffset <= position && LocalShardCount(c) > L0_MAX_SHARDS ==>
      Served(h, BroadcastOf(h, c, anchor), HonestServer(h, c), position)
  {
    TreeRootIsMerkleRoot(h, c, all);
    HonestWitness(h, c, all, anchor, position, w);
  }

  /** The input: `Marker` and `SeventeenShards`. */
  lemma SeventeenInput() returns (h: Hasher, c: Contents, part: seq<Hash>)
    ensures Sane(h) && CanonicalContents(h, c) && Represents(h, c, c.leaves) && TreeSize(c) <= TREE_CAPACITY
    ensures c == Appended(Fresh(0, []), 0, QUIET, c.leaves) && c.leafOffset == 0
    ensures LocalShardCount(c) == 17 && part == PublishedPool(c, c.leaves)
    ensures NodeAt(h, part, 0, TREE_DEPTH, 0) != NodeAt(h, c.leaves, 0, TREE_DEPTH, 0)
  {
    h, c, part := Marker(), SeventeenShards(), QuietLeaves(WINDOW_LEAVES);
    SeventeenCounts();
    SeventeenRoots();
    EverythingIsCanonical(c);
    FullTreeRepresents(h, c);
  }

  /** Every position of a window that begins at zero is served, and none is answered under the tree root. */
  ghost predicate MissesTheRoot(h: Hasher, c: Contents, anchor: nat, position: nat, w: PirWitness) {
    && (position < WINDOW_LEAVES ==> Served(h, BroadcastOf(h, c, anchor), HonestServer(h, c), position))
    && (Answered(h, c, anchor, position, w) ==> w.anchorRoot != TreeRoot(h, c))
  }

  lemma {:induction false} OverfullMissesTheRoot(
    h: Hasher, c: Contents, part: seq<Hash>, anchor: nat, position: nat, w: PirWitness)
    requires Sane(h) && CanonicalContents(h, c) && Represents(h, c, c.leaves) && TreeSize(c) <= TREE_CAPACITY
    requires c.leafOffset == 0 && LocalShardCount(c) > L0_MAX_SHARDS && part == PublishedPool(c, c.leaves)
    requires NodeAt(h, part, 0, TREE_DEPTH, 0) != NodeAt(h, c.leaves, 0, TREE_DEPTH, 0)
    ensures MissesTheRoot(h, c, anchor, position, w)
  {
    ClientsMissTheRoot(h, c, c.leaves, part, anchor, position, w);
  }

  /** A failing input: once one append has begun a seventeenth local shard, every position of the window is
      served, and none is answered under the tree root. */
  lemma {:induction false} SeventeenthShardIsMissed(anchor: nat, position: nat, w: PirWitness)
    returns (h: Hasher, c: Contents)
    ensures Sane(h) && CanonicalContents(h, c) && c == Appended(Fresh(0, []), 0, QUIET, c.leaves)
    ensures Represents(h, c, c.leaves) && LocalShardCount(c) == 17
    ensures MissesTheRoot(h, c, anchor, position, w)
  {
    var part;
    h, c, part := SeventeenInput();
    OverfullMissesTheRoot(h, c, part, anchor, position, w);
  }
}
