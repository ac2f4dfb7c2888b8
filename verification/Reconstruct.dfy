/** The client: from one database row and the broadcast to a 32-level authentication path. */
module Reconstruct {
  import opened Prelude
  import opened Geometry
  import opened Merkle
  import opened CommitmentTree

  datatype PirWitness = PirWitness(position: nat, siblings: seq<Hash>, anchorHeight: nat, anchorRoot: Hash)

  datatype WitnessError =
    | InvalidParams
    | QueryFailed
    | PositionOutsideWindow(position: nat, windowStart: nat, windowEnd: nat)

  // ── Parsing and validation ─────────────────────────────────────────

  function HashAt(row: seq<byte>, i: nat): Hash
    requires 32 * i + 32 <= |row|
  {
    Hash(row[32 * i..32 * i + 32])
  }

  function HashesOf(row: seq<byte>, n: nat): (hashes: seq<Hash>)
    requires 32 * n <= |row|
    ensures |hashes| == n
    decreases n, row
  {
    if n == 0 then [] else HashesOf(row, n - 1) + [HashAt(row, n - 1)]
  }

  lemma {:induction false} HashesAt(row: seq<byte>, n: nat, i: nat)
    requires 32 * n <= |row| && i < n
    ensures HashesOf(row, n)[i] == HashAt(row, i)
    decreases n
  {
    if i < n - 1 {
      HashesAt(row, n - 1, i);
    }
  }

  /** Reading back the bytes of a list of hashes gives the list. */
  lemma {:induction false} HashesOfFlatten(hashes: seq<Hash>, row: seq<byte>, n: nat)
    requires n <= |hashes| && row == Flatten(hashes)
    ensures HashesOf(row, n) == hashes[..n]
    decreases n
  {
    if n > 0 {
      HashesOfFlatten(hashes, row, n - 1);
      FlattenAt(hashes, n - 1);
      assert hashes[..n] == hashes[..n - 1] + [hashes[n - 1]];
    }
  }

  predicate RowParses(h: Hasher, row: seq<byte>) {
    |row| >= SUBSHARD_ROW_BYTES && AllCanonical(h, HashesOf(row, SUBSHARD_LEAVES))
  }

  method ParseLeaves(h: Hasher, decodedRow: seq<byte>) returns (r: Result<seq<Hash>, WitnessError>)
    ensures r.Ok? <==> RowParses(h, decodedRow)
    ensures r.Ok? ==> r.value == HashesOf(decodedRow, SUBSHARD_LEAVES)
    ensures r.Err? ==> r.error == QueryFailed
  {
    if |decodedRow| < SUBSHARD_ROW_BYTES {
      return Err(QueryFailed);
    }
    var leaves := [];
    var i := 0;
    while i < SUBSHARD_LEAVES
      invariant i <= SUBSHARD_LEAVES
      invariant leaves == HashesOf(decodedRow, i) && AllCanonical(h, leaves)
    {
      var hash := HashAt(decodedRow, i);
      if !h.canonical(hash) {
        HashesAt(decodedRow, SUBSHARD_LEAVES, i);
        return Err(QueryFailed);
      }
      leaves := leaves + [hash];
      i := i + 1;
    }
    return Ok(leaves);
  }

  predicate BroadcastValid(h: Hasher, shard: nat, b: Broadcast) {
    && b.windowStart <= shard
    && shard - b.windowStart < |b.subshardRoots|
    && var roots := b.subshardRoots[shard - b.windowStart].roots;
    && |roots| == SUBSHARDS_PER_SHARD
    && |b.capRoots| <= MAX_SHARDS
    && shard < MAX_SHARDS
    && AllCanonical(h, roots)
    && AllCanonical(h, b.capRoots)
  }

  // ── Sibling extraction ─────────────────────────────────────────────

  /** `nodes` hashed up `l` levels from height `base`. */
  function Lifted(h: Hasher, nodes: seq<Hash>, base: nat, l: nat): seq<Hash>
    decreases l, nodes
  {
    if l == 0 then nodes else HashUp(h, Lifted(h, nodes, base, l - 1), base + l - 1)
  }

  lemma {:induction false} LiftedNodes(h: Hasher, nodes: seq<Hash>, base: nat, l: nat, k: nat, i: nat)
    ensures NodeAt(h, Lifted(h, nodes, base, l), base + l, k, i) == NodeAt(h, nodes, base, l + k, i)
    decreases l
  {
    if l > 0 {
      HashUpKeepsNodes(h, Lifted(h, nodes, base, l - 1), base + l - 1, k, i);
      LiftedNodes(h, nodes, base, l - 1, k + 1, i);
    }
  }

  method CombineChunks(h: Hasher, nodes: seq<Hash>, level: nat) returns (next: seq<Hash>)
    requires Sane(h) && AllCanonical(h, nodes)
    ensures next == HashUp(h, nodes, level) && AllCanonical(h, next)
  {
    next := [];
    var rest := nodes;
    EmptyRootCanonical(h, level);
    while rest != []
      invariant AllCanonical(h, rest)
      invariant HashUp(h, nodes, level) == next + HashUp(h, rest, level)
      decreases |rest|
    {
      var left := rest[0];
      var right := if |rest| > 1 then rest[1] else EmptyRoot(h, level);
      next := next + [HashCombine(h, level, left, right)];
      rest := if |rest| > 1 then rest[2..] else [];
    }
    HashUpCanonical(h, nodes, level);
  }

  /** One level of a tier: the sibling at this level and the nodes of the next. */
  method NextLevel(
    h: Hasher, currentNodes: seq<Hash>, siblingIdx: nat, treeLevel: nat, ghost nodes: seq<Hash>, ghost baseLevel: nat,
    ghost index: nat, ghost levelOffset: nat)
    returns (sibling: Hash, next: seq<Hash>)
    requires Sane(h) && AllCanonical(h, currentNodes) && treeLevel == baseLevel + levelOffset
    requires currentNodes == Lifted(h, nodes, baseLevel, levelOffset)
    requires siblingIdx == SiblingIndex(Ancestor(index, levelOffset))
    ensures sibling == TierSibling(h, nodes, baseLevel, index, levelOffset)
    ensures next == Lifted(h, nodes, baseLevel, levelOffset + 1) && AllCanonical(h, next)
  {
    LiftedNodes(h, nodes, baseLevel, levelOffset, 0, siblingIdx);
    sibling := if siblingIdx < |currentNodes| then currentNodes[siblingIdx] else EmptyRoot(h, treeLevel);
    next := CombineChunks(h, currentNodes, treeLevel);
  }

  /** Writes the siblings of one tier; nodes beyond the list count as empty subtrees. */
  method ExtractSiblings(
    h: Hasher, nodes: seq<Hash>, index: nat, numLevels: nat, baseLevel: nat, siblings: array<Hash>)
    requires Sane(h) && AllCanonical(h, nodes)
    requires baseLevel + numLevels <= siblings.Length
    modifies siblings
    ensures forall l :: 0 <= l < numLevels ==> siblings[baseLevel + l] == TierSibling(h, nodes, baseLevel, index, l)
    ensures forall j :: 0 <= j < siblings.Length && !(baseLevel <= j < baseLevel + numLevels) ==> siblings[j] == old(siblings[j])
  {
    var currentNodes, idx := nodes, index;
    for levelOffset := 0 to numLevels
      invariant currentNodes == Lifted(h, nodes, baseLevel, levelOffset) && AllCanonical(h, currentNodes)
      invariant idx == Ancestor(index, levelOffset)
      invariant forall l :: 0 <= l < levelOffset ==> siblings[baseLevel + l] == TierSibling(h, nodes, baseLevel, index, l)
      invariant forall j :: 0 <= j < siblings.Length && !(baseLevel <= j < baseLevel + levelOffset) ==> siblings[j] == old(siblings[j])
    {
      var sibling, next := NextLevel(
        h, currentNodes, SiblingIndex(idx), baseLevel + levelOffset, nodes, baseLevel, index, levelOffset);
      siblings[baseLevel + levelOffset] := sibling;
      currentNodes, idx := next, idx / 2;
    }
  }

  method ComputeRootFromPath(h: Hasher, position: nat, leaf: Hash, siblings: array<Hash>) returns (root: Hash)
    requires Sane(h) && h.canonical(leaf) && AllCanonical(h, siblings[..])
    ensures root == FoldPath(h, leaf, position, 0, siblings[..])
  {
    var pos := position;
    root := leaf;
    for level := 0 to siblings.Length
      invariant h.canonical(root)
      invariant FoldPath(h, root, pos, level, siblings[level..]) == FoldPath(h, leaf, position, 0, siblings[..])
    {
      var sibling := siblings[level];
      assert h.canonical(siblings[..][level]);
      assert siblings[level..][0] == sibling && siblings[level..][1..] == siblings[level + 1..];
      root := if pos % 2 == 0 then HashCombine(h, level, root, sibling) else HashCombine(h, level, sibling, root);
      pos := pos / 2;
    }
    assert siblings[siblings.Length..] == [];
  }

  // ── The whole reconstruction ───────────────────────────────────────

  /** The path read off three node lists: 8 levels from the row, 8 from the
      subshard roots, 16 from the cap. */
  ghost predicate ThreeTiers(
    h: Hasher, siblings: seq<Hash>, a: Address, leaves: seq<Hash>, ssRoots: seq<Hash>, cap: seq<Hash>) {
    && |siblings| == TREE_DEPTH
    && TierPath(h, leaves, 0, a.leaf, SUBSHARD_HEIGHT, siblings)
    && TierPath(h, ssRoots, SUBSHARD_HEIGHT, a.subshard, SUBSHARD_HEIGHT, siblings[SUBSHARD_HEIGHT..])
    && TierPath(h, cap, SHARD_HEIGHT, a.shard, SHARD_HEIGHT, siblings[SHARD_HEIGHT..])
  }

  /** `w` is what the client makes of this row and this broadcast. */
  ghost predicate Reconstructs(h: Hasher, w: PirWitness, position: nat, a: Address, row: seq<byte>, b: Broadcast)
    requires RowParses(h, row) && BroadcastValid(h, a.shard, b) && a.leaf < SUBSHARD_LEAVES
  {
    var leaves := HashesOf(row, SUBSHARD_LEAVES);
    && w.position == position
    && w.anchorHeight == b.anchorHeight
    && ThreeTiers(h, w.siblings, a, leaves, b.subshardRoots[a.shard - b.windowStart].roots, b.capRoots)
    && w.anchorRoot == FoldPath(h, leaves[a.leaf], position, 0, w.siblings)
  }

  method ReconstructWitness(h: Hasher, position: nat, a: Address, decodedRow: seq<byte>, b: Broadcast)
    returns (r: Result<PirWitness, WitnessError>)
    requires Sane(h) && a.leaf < SUBSHARD_LEAVES && a.subshard < SUBSHARDS_PER_SHARD
    ensures r.Ok? <==> BroadcastValid(h, a.shard, b) && RowParses(h, decodedRow)
    ensures r.Ok? ==> Reconstructs(h, r.value, position, a, decodedRow, b)
    ensures r.Err? ==> r.error == if BroadcastValid(h, a.shard, b) then QueryFailed else InvalidParams
  {
    if !BroadcastValid(h, a.shard, b) {
      return Err(InvalidParams);
    }
    var siblings := new Hash[TREE_DEPTH](i => Hash(seq(32, j => 0)));
    var parsed := ParseLeaves(h, decodedRow);
    if parsed.Err? {
      return Err(parsed.error);
    }
    var leaves := parsed.value;
    var ssRoots := b.subshardRoots[a.shard - b.windowStart].roots;
    ExtractSiblings(h, leaves, a.leaf, SUBSHARD_HEIGHT, 0, siblings);
    ExtractSiblings(h, ssRoots, a.subshard, SUBSHARD_HEIGHT, SUBSHARD_HEIGHT, siblings);
    ExtractSiblings(h, b.capRoots, a.shard, SHARD_HEIGHT, SHARD_HEIGHT, siblings);
    TiersCanonical(h, siblings[..], a, leaves, ssRoots, b.capRoots);
    var anchorRoot := ComputeRootFromPath(h, position, leaves[a.leaf], siblings);
    return Ok(PirWitness(position, siblings[..], b.anchorHeight, anchorRoot));
  }

  lemma TierCanonical(h: Hasher, nodes: seq<Hash>, base: nat, index: nat, K: nat, siblings: seq<Hash>)
    requires Sane(h) && AllCanonical(h, nodes) && TierPath(h, nodes, base, index, K, siblings)
    ensures AllCanonical(h, siblings[..K])
  {
    forall l | 0 <= l < K
      ensures h.canonical(siblings[l])
    {
      NodeCanonical(h, nodes, base, l, SiblingIndex(Ancestor(index, l)));
      assert siblings[l] == TierSibling(h, nodes, base, index, l);
    }
  }

  lemma TiersCanonical(
    h: Hasher, siblings: seq<Hash>, a: Address, leaves: seq<Hash>, ssRoots: seq<Hash>, cap: seq<Hash>)
    requires Sane(h) && AllCanonical(h, leaves) && AllCanonical(h, ssRoots) && AllCanonical(h, cap)
    requires ThreeTiers(h, siblings, a, leaves, ssRoots, cap)
    ensures AllCanonical(h, siblings)
  {
    TierCanonical(h, leaves, 0, a.leaf, 8, siblings);
    TierCanonical(h, ssRoots, 8, a.subshard, 8, siblings[8..]);
    TierCanonical(h, cap, 16, a.shard, 16, siblings[16..]);
    assert siblings == siblings[..8] + siblings[8..][..8] + siblings[16..][..16];
  }
}
