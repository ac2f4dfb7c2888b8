/** Starting a tree at a shard boundary instead of replaying the whole pool. */
module Bootstrap {
  import opened Prelude
  import opened Geometry
  import opened Merkle
  import opened CommitmentTree
  import opened TreeHistory
  import opened TreeDb
  import opened ChainData

  datatype SubtreeRoot = SubtreeRoot(rootHash: seq<byte>, completingHeight: nat)

  datatype BootError =
    | InvalidSubtreeRoot(index: nat)
    | MissingCompletingBlock(height: nat)
    | WrongCompletingBlockHeight(actual: nat, expected: nat)
    | InvalidBlockHash(height: nat)
    | Parse(error: ParseError)
    | TreeSizeMismatch(height: nat, expected: nat, actual: nat)

  // ── Planning and seeding the window ────────────────────────────────

  /** The completed shards known at the target height. */
  function Retained(roots: seq<SubtreeRoot>, target: nat): seq<SubtreeRoot> {
    if roots == [] then []
    else if roots[0].completingHeight <= target then [roots[0]] + Retained(roots[1..], target)
    else Retained(roots[1..], target)
  }

  function Clamp(n: nat, lo: nat, hi: nat): nat {
    if n < lo then lo else if n > hi then hi else n
  }

  /** First shard of the window, when there are enough completed shards to skip some. */
  function WindowPlan(completed: nat, limit: nat): Option<nat> {
    var limit := Clamp(limit, 1, L0_MAX_SHARDS);
    if completed >= limit then Some(completed - (limit - 1)) else None
  }

  function ParseRoots(h: Hasher, roots: seq<SubtreeRoot>): (r: Result<seq<Hash>, BootError>)
    ensures r.Ok? ==> |r.value| == |roots| && AllCanonical(h, r.value)
  {
    if roots == [] then Ok([])
    else
      var n := |roots| - 1;
      match ParseRoots(h, roots[..n])
      case Err(e) => Err(e)
      case Ok(rest) =>
        if |roots[n].rootHash| == 32 && h.canonical(Hash(roots[n].rootHash)) then Ok(rest + [Hash(roots[n].rootHash)])
        else Err(InvalidSubtreeRoot(n))
  }

  /** The commitments of a block that lie beyond the window's first leaf. */
  function Spillover(commitments: seq<Hash>, endTreeSize: nat, leafOffset: nat): seq<Hash> {
    if endTreeSize <= leafOffset then []
    else commitments[SaturatingSub(|commitments|, endTreeSize - leafOffset)..]
  }

  function CompletingBlockSpillover(h: Hasher, block: CompactBlock, leafOffset: nat): Result<seq<Hash>, BootError> {
    match ExtractCommitments(h, block)
    case Err(e) => Err(Parse(e))
    case Ok(all) =>
      var endTreeSize := match block.treeSize case Some(n) => n case None => 0;
      Ok(Spillover(all, endTreeSize, leafOffset))
  }

  /** What is left in the tree, and the next height to sync, after a bootstrap. `completingBlocks`
      answers the request for the block that completed the last skipped shard. */
  function Prepared(
    h: Hasher, roots: seq<SubtreeRoot>, target: nat, limit: nat, floor: nat, completingBlocks: seq<CompactBlock>)
    : Result<(Contents, nat), BootError>
  {
    var kept := Retained(roots, target);
    match WindowPlan(|kept|, limit)
    case None => Ok((Fresh(0, []), floor))
    case Some(windowStart) =>
      var leafOffset := windowStart * SHARD_LEAVES;
      match ParseRoots(h, kept[..windowStart])
      case Err(e) => Err(e)
      case Ok(prefetched) =>
        var height := kept[windowStart - 1].completingHeight;
        if completingBlocks == [] then Err(MissingCompletingBlock(height))
        else if completingBlocks[0].height != height then
          Err(WrongCompletingBlockHeight(completingBlocks[0].height, height))
        else
          match CompletingBlockSpillover(h, completingBlocks[0], leafOffset)
          case Err(e) => Err(e)
          case Ok(spillover) =>
            if |completingBlocks[0].hash| != 32 then Err(InvalidBlockHash(height))
            else Ok((
              Appended(Fresh(leafOffset, prefetched), height, Hash(completingBlocks[0].hash), spillover),
              height + 1))
  }

  method RetainUpTo(roots: seq<SubtreeRoot>, target: nat) returns (kept: seq<SubtreeRoot>)
    ensures kept == Retained(roots, target)
  {
    kept := [];
    var rest := roots;
    while rest != []
      invariant Retained(roots, target) == kept + Retained(rest, target)
      decreases |rest|
    {
      if rest[0].completingHeight <= target {
        kept := kept + [rest[0]];
      }
      rest := rest[1..];
    }
  }

  method PrepareTree(
    h: Hasher, roots: seq<SubtreeRoot>, target: nat, limit: nat, floor: nat, completingBlocks: seq<CompactBlock>)
    returns (r: Result<(CommitmentTreeDb, nat), BootError>)
    requires Sane(h)
    ensures r.Ok? <==> Prepared(h, roots, target, limit, floor, completingBlocks).Ok?
    ensures r.Err? ==> Prepared(h, roots, target, limit, floor, completingBlocks) == Err(r.error)
    ensures r.Ok? ==>
      && fresh(r.value.0) && r.value.0.Valid() && r.value.0.hasher == h
      && Prepared(h, roots, target, limit, floor, completingBlocks).value == (r.value.0.View(), r.value.1)
  {
    var kept := RetainUpTo(roots, target);
    var plan := WindowPlan(|kept|, limit);
    if plan.None? {
      var full := new CommitmentTreeDb.WithOffset(h, 0, []);
      return Ok((full, floor));
    }
    var windowStart := plan.value;
    var leafOffset := windowStart * SHARD_LEAVES;
    var prefetched := ParseRoots(h, kept[..windowStart]);
    if prefetched.Err? {
      return Err(prefetched.error);
    }
    var height := kept[windowStart - 1].completingHeight;
    var tree := new CommitmentTreeDb.WithOffset(h, leafOffset, prefetched.value);
    if completingBlocks == [] {
      return Err(MissingCompletingBlock(height));
    }
    var block := completingBlocks[0];
    if block.height != height {
      return Err(WrongCompletingBlockHeight(block.height, height));
    }
    var spillover := CompletingBlockSpillover(h, block, leafOffset);
    if spillover.Err? {
      return Err(spillover.error);
    }
    if |block.hash| != 32 {
      return Err(InvalidBlockHash(height));
    }
    tree.AppendCommitments(height, Hash(block.hash), spillover.value);
    return Ok((tree, height + 1));
  }

  // ── Which window is chosen ─────────────────────────────────────────

  /** The listed shards that are complete at the target height. */
  function CompletedBy(roots: seq<SubtreeRoot>, target: nat): set<nat> {
    set j: nat | j < |roots| && roots[j].completingHeight <= target
  }

  lemma {:induction false} RetainedSnoc(front: seq<SubtreeRoot>, last: SubtreeRoot, target: nat)
    ensures Retained(front + [last], target)
      == if last.completingHeight <= target then Retained(front, target) + [last] else Retained(front, target)
  {
    if front == [] {
      assert front + [last] == [last] && [last][1..] == [];
    } else {
      RetainedSnoc(front[1..], last, target);
      assert (front + [last])[1..] == front[1..] + [last];
    }
  }

  lemma {:induction false} RetainedAreCompleted(roots: seq<SubtreeRoot>, target: nat)
    ensures |Retained(roots, target)| == |CompletedBy(roots, target)|
    decreases |roots|
  {
    if roots != [] {
      var n := |roots| - 1;
      RetainedAreCompleted(roots[..n], target);
      RetainedSnoc(roots[..n], roots[n], target);
      assert roots == roots[..n] + [roots[n]];
      CompletedSnoc(roots, target, n);
    } else {
      assert CompletedBy(roots, target) == {};
    }
  }

  lemma CompletedSnoc(roots: seq<SubtreeRoot>, target: nat, n: nat)
    requires |roots| == n + 1
    ensures n !in CompletedBy(roots[..n], target)
    ensures CompletedBy(roots, target) ==
      CompletedBy(roots[..n], target) + (if roots[n].completingHeight <= target then {n} else {})
  {
  }

  /** The shards a window keeps, at least one and at most what a database holds. */
  predicate IsWindowSize(size: nat, limit: nat) {
    1 <= size <= L0_MAX_SHARDS && (limit < 1 ==> size == 1) && (limit > L0_MAX_SHARDS ==> size == L0_MAX_SHARDS)
    && (1 <= limit <= L0_MAX_SHARDS ==> size == limit)
  }

  /** With `completed` shards and room for `size`, the window is the newest `size - 1` completed shards and
      the one being filled; with fewer completed shards nothing is skipped. */
  predicate StartsWindow(c: Contents, completed: nat, size: nat) {
    && c.leafOffset % SHARD_LEAVES == 0
    && var first := c.leafOffset / SHARD_LEAVES;
    && (if completed >= size then first + (size - 1) == completed else first == 0)
  }

  /** Whatever the chain server answered, a prepared tree has the widest window that fits. */
  lemma PreparedWindowIsWidest(
    h: Hasher, roots: seq<SubtreeRoot>, target: nat, limit: nat, floor: nat, completingBlocks: seq<CompactBlock>, size: nat)
    requires Prepared(h, roots, target, limit, floor, completingBlocks).Ok? && IsWindowSize(size, limit)
    ensures var (c, from) := Prepared(h, roots, target, limit, floor, completingBlocks).value;
      && StartsWindow(c, |CompletedBy(roots, target)|, size)
      && (|CompletedBy(roots, target)| < size ==> c == Fresh(0, []) && from == floor)
  {
    RetainedAreCompleted(roots, target);
  }

  /** The first answer is a block of that height that can be read and has a 32-byte hash. */
  ghost predicate GoodCompletingBlock(h: Hasher, completingBlocks: seq<CompactBlock>, height: nat) {
    && completingBlocks != []
    && completingBlocks[0].height == height
    && GoodCommitments(h, completingBlocks[0])
    && |completingBlocks[0].hash| == 32
  }

  predicate GoodRoot(h: Hasher, root: SubtreeRoot) {
    |root.rootHash| == 32 && h.canonical(Hash(root.rootHash))
  }

  lemma {:induction false} RootsParseIff(h: Hasher, roots: seq<SubtreeRoot>, i: nat)
    ensures ParseRoots(h, roots).Ok? <==> forall j :: 0 <= j < |roots| ==> GoodRoot(h, roots[j])
    ensures i < |roots| && !GoodRoot(h, roots[i]) && (forall j :: 0 <= j < i ==> GoodRoot(h, roots[j])) ==>
      ParseRoots(h, roots) == Err(InvalidSubtreeRoot(i))
    decreases |roots|
  {
    if roots != [] {
      RootsParseIff(h, roots[..|roots| - 1], i);
      assert forall j :: 0 <= j < |roots| - 1 ==> roots[..|roots| - 1][j] == roots[j];
    }
  }

  /** The chain server's answers are good enough for a window that skips `ws` of the completed shards. */
  ghost predicate GoodAnswers(h: Hasher, kept: seq<SubtreeRoot>, ws: nat, completingBlocks: seq<CompactBlock>)
    requires 0 < ws <= |kept|
  {
    && (forall j :: 0 <= j < ws ==> GoodRoot(h, kept[j]))
    && GoodCompletingBlock(h, completingBlocks, kept[ws - 1].completingHeight)
  }

  /** Exactly when preparing succeeds: nothing is skipped, or all skipped roots and the block that completed
      the last of them are good. */
  lemma PreparedOkIff(
    h: Hasher, roots: seq<SubtreeRoot>, target: nat, limit: nat, floor: nat, completingBlocks: seq<CompactBlock>, size: nat)
    requires IsWindowSize(size, limit)
    ensures var kept := Retained(roots, target);
      Prepared(h, roots, target, limit, floor, completingBlocks).Ok?
      <==> |kept| < size || GoodAnswers(h, kept, |kept| - (size - 1), completingBlocks)
  {
    var kept := Retained(roots, target);
    if |kept| >= size {
      var ws := |kept| - (size - 1);
      RootsError(h, kept, ws);
      if completingBlocks != [] {
        CommitmentsReadIff(h, completingBlocks[0]);
      }
    }
  }

  /** Which error is reported: the first bad root, else what is wrong with the completing block. */
  ghost predicate PlanError(
    h: Hasher, kept: seq<SubtreeRoot>, ws: nat, completingBlocks: seq<CompactBlock>, error: BootError)
    requires 0 < ws <= |kept|
  {
    var height := kept[ws - 1].completingHeight;
    if exists j :: 0 <= j < ws && !GoodRoot(h, kept[j]) then
      error.InvalidSubtreeRoot? && error.index < ws && !GoodRoot(h, kept[error.index])
      && forall j :: 0 <= j < error.index ==> GoodRoot(h, kept[j])
    else if completingBlocks == [] then error == MissingCompletingBlock(height)
    else if completingBlocks[0].height != height then
      error == WrongCompletingBlockHeight(completingBlocks[0].height, height)
    else if !GoodCommitments(h, completingBlocks[0]) then
      error.Parse? && RefusesCommitment(h, completingBlocks[0], error.error)
    else error == InvalidBlockHash(height)
  }

  lemma PreparedErrorIs(
    h: Hasher, roots: seq<SubtreeRoot>, target: nat, limit: nat, floor: nat, completingBlocks: seq<CompactBlock>, size: nat)
    requires IsWindowSize(size, limit) && Prepared(h, roots, target, limit, floor, completingBlocks).Err?
    ensures var kept := Retained(roots, target);
      |kept| >= size &&
      PlanError(h, kept, |kept| - (size - 1), completingBlocks,
                Prepared(h, roots, target, limit, floor, completingBlocks).error)
  {
    var kept := Retained(roots, target);
    PreparedOkIff(h, roots, target, limit, floor, completingBlocks, size);
    var ws := |kept| - (size - 1);
    RootsError(h, kept, ws);
    if completingBlocks != [] {
      CommitmentsReadIff(h, completingBlocks[0]);
    }
  }

  lemma {:induction false} FirstBadRoot(h: Hasher, roots: seq<SubtreeRoot>, i: nat) returns (first: nat)
    requires i < |roots| && !GoodRoot(h, roots[i])
    ensures first < |roots| && !GoodRoot(h, roots[first]) && forall j :: 0 <= j < first ==> GoodRoot(h, roots[j])
    decreases i
  {
    first := i;
    if j :| 0 <= j < i && !GoodRoot(h, roots[j]) {
      first := FirstBadRoot(h, roots, j);
    }
  }

  lemma RootsError(h: Hasher, kept: seq<SubtreeRoot>, ws: nat)
    requires ws <= |kept|
    ensures ParseRoots(h, kept[..ws]).Ok? <==> forall j :: 0 <= j < ws ==> GoodRoot(h, kept[j])
    ensures ParseRoots(h, kept[..ws]).Err? ==>
      var e := ParseRoots(h, kept[..ws]).error;
      e.InvalidSubtreeRoot? && e.index < ws && !GoodRoot(h, kept[e.index])
      && forall j :: 0 <= j < e.index ==> GoodRoot(h, kept[j])
  {
    RootsParseIff(h, kept[..ws], 0);
    if ParseRoots(h, kept[..ws]).Err? {
      var i :| 0 <= i < ws && !GoodRoot(h, kept[..ws][i]);
      var first := FirstBadRoot(h, kept[..ws], i);
      RootsParseIff(h, kept[..ws], first);
      forall j | 0 <= j < first ensures GoodRoot(h, kept[j]) {
        assert kept[..ws][j] == kept[j];
      }
    }
  }

  // ── Feeding blocks ─────────────────────────────────────────────────

  /** One synced block: parse, check the tree's size against the block's prior size, append. */
  function ApplyToTree(h: Hasher, c: Contents, b: ValidatedBlock): Result<Contents, BootError> {
    match ExtractCommitments(h, b.block)
    case Err(e) => Err(Parse(e))
    case Ok(commitments) =>
      match PriorTreeSize(b.block, |commitments|)
      case Err(e) => Err(Parse(e))
      case Ok(prior) =>
        if TreeSize(c) != prior then Err(TreeSizeMismatch(b.block.height, prior, TreeSize(c)))
        else Ok(Appended(c, b.block.height, b.hash, commitments))
  }

  /** The tree after blocks `m` up to `n` of the list. */
  function Feed(h: Hasher, c: Contents, blocks: seq<ValidatedBlock>, m: nat, n: nat): Result<Contents, BootError>
    requires m <= n <= |blocks|
    decreases n, blocks
  {
    if m == n then Ok(c)
    else
      match Feed(h, c, blocks, m, n - 1)
      case Err(e) => Err(e)
      case Ok(before) => ApplyToTree(h, before, blocks[n - 1])
  }

  // ── The honest chain ───────────────────────────────────────────────

  /** All leaves of the pool after the first `n` blocks of the chain. */
  function Pool(chain: seq<Block>, n: nat): seq<Hash>
    requires n <= |chain|
    decreases n, chain
  {
    if n == 0 then [] else Pool(chain, n - 1) + chain[n - 1].commitments
  }

  /** A compact block that faithfully carries a chain block, `size` being the pool's size after it. */
  ghost predicate Carries(h: Hasher, v: ValidatedBlock, b: Block, size: nat) {
    && v.block.height == b.height
    && v.block.hash == b.hash.bytes && v.hash == b.hash
    && ExtractCommitments(h, v.block) == Ok(b.commitments)
    && v.block.treeSize == Some(size) && size < TREE_CAPACITY
  }

  /** The server's blocks are those of the chain, consecutive from the pool's activation height. */
  ghost predicate HonestChain(h: Hasher, blocks: seq<ValidatedBlock>, chain: seq<Block>, base: nat) {
    && |blocks| == |chain|
    && forall i: nat :: i < |chain| ==> HonestAt(h, blocks, chain, base, i)
  }

  ghost predicate HonestAt(h: Hasher, blocks: seq<ValidatedBlock>, chain: seq<Block>, base: nat, i: nat)
    requires |blocks| == |chain| && i < |chain|
  {
    && chain[i].height == base + i
    && Carries(h, blocks[i], chain[i], |Pool(chain, i + 1)|)
    && AllCanonical(h, chain[i].commitments)
  }

  /** `roots[j]` is the root of the j-th completed shard, with the height of the block holding its last leaf. */
  ghost predicate CorrectRoots(h: Hasher, roots: seq<SubtreeRoot>, chain: seq<Block>, base: nat) {
    forall j: nat :: j < |roots| ==> CorrectRoot(h, roots[j], j, chain, base)
  }

  ghost predicate CorrectRoot(h: Hasher, root: SubtreeRoot, j: nat, chain: seq<Block>, base: nat) {
    && root.rootHash == NodeAt(h, Pool(chain, |chain|), 0, SHARD_HEIGHT, j).bytes
    && base <= root.completingHeight < base + |chain|
    && Completes(chain, root.completingHeight - base, (j + 1) * SHARD_LEAVES)
  }

  /** Block `k` is the one that brings the pool to `size` leaves. */
  ghost predicate Completes(chain: seq<Block>, k: nat, size: nat)
    requires k < |chain|
  {
    |Pool(chain, k)| < size <= |Pool(chain, k + 1)|
  }

  lemma {:induction false} PoolGrows(chain: seq<Block>, m: nat, n: nat)
    requires m <= n <= |chain|
    ensures Pool(chain, m) <= Pool(chain, n)
    decreases n
  {
    if m < n {
      PoolGrows(chain, m, n - 1);
    }
  }

  /** A tree of the right size always passes the prior-size check of an honest block. */
  lemma HonestApply(h: Hasher, c: Contents, v: ValidatedBlock, b: Block, size: nat)
    requires Carries(h, v, b, size) && size == TreeSize(c) + |b.commitments|
    ensures ApplyToTree(h, c, v) == Ok(Appended(c, b.height, b.hash, b.commitments))
  {
  }

  /** The window onto the pool after `n` blocks: right leaves, right offset, right earlier roots. */
  ghost predicate Tracks(h: Hasher, c: Contents, chain: seq<Block>, n: nat)
    requires n <= |chain|
  {
    && Aligned(c)
    && c.leafOffset <= |Pool(chain, n)| && c.leaves == Pool(chain, n)[c.leafOffset..]
    && forall i: nat :: i < WindowStart(c) ==>
         PrefetchedRoot(h, c, i) == NodeAt(h, Pool(chain, |chain|), 0, SHARD_HEIGHT, i)
  }

  lemma TracksMeansRepresents(h: Hasher, c: Contents, chain: seq<Block>, n: nat)
    requires n <= |chain| && Tracks(h, c, chain, n)
    ensures Represents(h, c, Pool(chain, n))
  {
    var all, final := Pool(chain, n), Pool(chain, |chain|);
    PoolGrows(chain, n, |chain|);
    PowerValues();
    forall i: nat | i < WindowStart(c)
      ensures PrefetchedRoot(h, c, i) == NodeAt(h, all, 0, SHARD_HEIGHT, i)
    {
      NodeIsStable(h, all, final, SHARD_HEIGHT, i);
    }
  }

  lemma TracksStep(h: Hasher, c: Contents, blocks: seq<ValidatedBlock>, chain: seq<Block>, base: nat, n: nat)
    requires HonestChain(h, blocks, chain, base) && n < |chain| && Tracks(h, c, chain, n)
    ensures ApplyToTree(h, c, blocks[n]) == Ok(Appended(c, chain[n].height, chain[n].hash, chain[n].commitments))
    ensures Tracks(h, Appended(c, chain[n].height, chain[n].hash, chain[n].commitments), chain, n + 1)
  {
    assert HonestAt(h, blocks, chain, base, n);
    HonestApply(h, c, blocks[n], chain[n], |Pool(chain, n + 1)|);
    AppendTracks(h, c, chain, n);
  }

  lemma AppendTracks(h: Hasher, c: Contents, chain: seq<Block>, n: nat)
    requires n < |chain| && Tracks(h, c, chain, n)
    ensures Tracks(h, Appended(c, chain[n].height, chain[n].hash, chain[n].commitments), chain, n + 1)
  {
  }

  /** Feeding honest blocks never fails, and the tree keeps tracking the pool. */
  lemma {:induction false} FeedTracks(
    h: Hasher, c: Contents, blocks: seq<ValidatedBlock>, chain: seq<Block>, base: nat, m: nat, n: nat)
    requires HonestChain(h, blocks, chain, base) && m <= n <= |chain| && Tracks(h, c, chain, m)
    ensures Feed(h, c, blocks, m, n).Ok?
    ensures var c' := Feed(h, c, blocks, m, n).value;
      Tracks(h, c', chain, n) && c'.leafOffset == c.leafOffset
    decreases n
  {
    if m < n {
      FeedTracks(h, c, blocks, chain, base, m, n - 1);
      TracksStep(h, Feed(h, c, blocks, m, n - 1).value, blocks, chain, base, n - 1);
    }
  }

  // ── The bootstrapped tree tracks the pool ──────────────────────────

  /** Shards are completed in order. */
  lemma CompletedInOrder(chain: seq<Block>, k: nat, size: nat, k': nat, size': nat)
    requires k < |chain| && k' < |chain| && size <= size'
    requires Completes(chain, k, size) && Completes(chain, k', size')
    ensures k <= k'
  {
    if k' < k {
      PoolGrows(chain, k' + 1, k);
    }
  }

  /** Dropping the shards completed after the target keeps a prefix of the list. */
  lemma {:induction false} RetainedIsPrefix(roots: seq<SubtreeRoot>, target: nat)
    requires forall i, j :: 0 <= i <= j < |roots| ==> roots[i].completingHeight <= roots[j].completingHeight
    ensures |Retained(roots, target)| <= |roots| && Retained(roots, target) == roots[..|Retained(roots, target)|]
  {
    if roots != [] {
      RetainedIsPrefix(roots[1..], target);
      if roots[0].completingHeight > target {
        NoneRetained(roots[1..], target);
      }
    }
  }

  lemma {:induction false} NoneRetained(roots: seq<SubtreeRoot>, target: nat)
    requires forall i :: 0 <= i < |roots| ==> roots[i].completingHeight > target
    ensures Retained(roots, target) == []
  {
    if roots != [] {
      NoneRetained(roots[1..], target);
    }
  }

  lemma {:induction false} PoolCanonical(h: Hasher, blocks: seq<ValidatedBlock>, chain: seq<Block>, base: nat, n: nat)
    requires HonestChain(h, blocks, chain, base) && n <= |chain|
    ensures AllCanonical(h, Pool(chain, n))
    decreases n
  {
    if n > 0 {
      PoolCanonical(h, blocks, chain, base, n - 1);
      assert HonestAt(h, blocks, chain, base, n - 1);
    }
  }

  ghost predicate AreShardRoots(h: Hasher, hashes: seq<Hash>, all: seq<Hash>) {
    forall j: nat :: j < |hashes| ==> hashes[j] == NodeAt(h, all, 0, SHARD_HEIGHT, j)
  }

  lemma {:induction false} CorrectRootsParse(h: Hasher, roots: seq<SubtreeRoot>, all: seq<Hash>, n: nat)
    requires Sane(h) && AllCanonical(h, all) && n <= |roots|
    requires forall j: nat :: j < |roots| ==> roots[j].rootHash == NodeAt(h, all, 0, SHARD_HEIGHT, j).bytes
    ensures ParseRoots(h, roots[..n]).Ok? && AreShardRoots(h, ParseRoots(h, roots[..n]).value, all)
    decreases n
  {
    if n > 0 {
      CorrectRootsParse(h, roots, all, n - 1);
      assert roots[..n][..n - 1] == roots[..n - 1];
      NodeCanonical(h, all, 0, SHARD_HEIGHT, n - 1);
      assert roots[..n][n - 1].rootHash == NodeAt(h, all, 0, SHARD_HEIGHT, n - 1).bytes;
    }
  }

  /** The kept suffix of the completing block is the pool from the window's first leaf on. */
  lemma SpilloverIsPoolSuffix(chain: seq<Block>, k: nat, leafOffset: nat)
    requires k < |chain| && Completes(chain, k, leafOffset)
    ensures Spillover(chain[k].commitments, |Pool(chain, k + 1)|, leafOffset) == Pool(chain, k + 1)[leafOffset..]
  {
  }

  /** The server's answers about the skipped shards are those of the honest chain. */
  ghost predicate HonestAnswers(
    h: Hasher, roots: seq<SubtreeRoot>, target: nat, limit: nat, floor: nat, completingBlocks: seq<CompactBlock>,
    blocks: seq<ValidatedBlock>, chain: seq<Block>, base: nat)
  {
    && HonestChain(h, blocks, chain, base)
    && CorrectRoots(h, roots, chain, base)
    && floor == base
    && var kept := Retained(roots, target);
    && (WindowPlan(|kept|, limit).Some? ==>
         var height := kept[WindowPlan(|kept|, limit).value - 1].completingHeight;
         && base <= height < base + |blocks|
         && |completingBlocks| > 0
         && completingBlocks[0] == blocks[height - base].block)
  }

  lemma RetainedIsCorrect(h: Hasher, roots: seq<SubtreeRoot>, target: nat, chain: seq<Block>, base: nat)
    requires CorrectRoots(h, roots, chain, base)
    ensures CorrectRoots(h, Retained(roots, target), chain, base)
  {
    forall i, j | 0 <= i <= j < |roots|
      ensures roots[i].completingHeight <= roots[j].completingHeight
    {
      assert CorrectRoot(h, roots[i], i, chain, base) && CorrectRoot(h, roots[j], j, chain, base);
      CompletedInOrder(chain, roots[i].completingHeight - base, (i + 1) * SHARD_LEAVES,
        roots[j].completingHeight - base, (j + 1) * SHARD_LEAVES);
    }
    RetainedIsPrefix(roots, target);
    var kept := Retained(roots, target);
    forall j: nat | j < |kept|
      ensures CorrectRoot(h, kept[j], j, chain, base)
    {
      assert CorrectRoot(h, roots[j], j, chain, base) && kept[j] == roots[j];
    }
  }

  /** What a bootstrap seeds the window with. */
  function Seeded(prefetched: seq<Hash>, ws: nat, b: Block, endTreeSize: nat): Contents {
    Appended(Fresh(ws * SHARD_LEAVES, prefetched), b.height, b.hash, Spillover(b.commitments, endTreeSize, ws * SHARD_LEAVES))
  }

  /** A window seeded with the first `ws` shard roots and the spillover of the block that completed them. */
  lemma {:induction false} WindowTracks(h: Hasher, prefetched: seq<Hash>, ws: nat, chain: seq<Block>, k: nat)
    requires |prefetched| == ws && AreShardRoots(h, prefetched, Pool(chain, |chain|))
    requires k < |chain| && Completes(chain, k, ws * SHARD_LEAVES)
    ensures Tracks(h, Seeded(prefetched, ws, chain[k], |Pool(chain, k + 1)|), chain, k + 1)
  {
    SpilloverIsPoolSuffix(chain, k, ws * SHARD_LEAVES);
  }

  lemma RootsParse(h: Hasher, roots: seq<SubtreeRoot>, ws: nat, blocks: seq<ValidatedBlock>, chain: seq<Block>, base: nat)
    requires Sane(h) && HonestChain(h, blocks, chain, base) && CorrectRoots(h, roots, chain, base) && ws <= |roots|
    ensures ParseRoots(h, roots[..ws]).Ok?
    ensures AreShardRoots(h, ParseRoots(h, roots[..ws]).value, Pool(chain, |chain|))
  {
    var all := Pool(chain, |chain|);
    forall j: nat | j < |roots|
      ensures roots[j].rootHash == NodeAt(h, all, 0, SHARD_HEIGHT, j).bytes
    {
      assert CorrectRoot(h, roots[j], j, chain, base);
    }
    PoolCanonical(h, blocks, chain, base, |chain|);
    CorrectRootsParse(h, roots, all, ws);
  }

  /** Preparing a window from a block that carries its chain block. */
  lemma PreparedWindow(
    h: Hasher, roots: seq<SubtreeRoot>, target: nat, limit: nat, floor: nat, completingBlocks: seq<CompactBlock>,
    v: ValidatedBlock, b: Block, size: nat)
    requires var kept := Retained(roots, target);
      && WindowPlan(|kept|, limit).Some?
      && var ws := WindowPlan(|kept|, limit).value;
      && kept[ws - 1].completingHeight == b.height
      && ParseRoots(h, kept[..ws]).Ok?
    requires |completingBlocks| > 0 && completingBlocks[0] == v.block && Carries(h, v, b, size)
    ensures var kept := Retained(roots, target);
      var ws := WindowPlan(|kept|, limit).value;
      Prepared(h, roots, target, limit, floor, completingBlocks)
      == Ok((Seeded(ParseRoots(h, kept[..ws]).value, ws, b, size), b.height + 1))
  {
  }

  /** The block that completes the last skipped shard is where its height says, and the roots parse. */
  lemma SkippedShards(
    h: Hasher, roots: seq<SubtreeRoot>, target: nat, ws: nat, k: nat, blocks: seq<ValidatedBlock>, chain: seq<Block>, base: nat)
    requires Sane(h) && HonestChain(h, blocks, chain, base) && CorrectRoots(h, roots, chain, base)
    requires 0 < ws <= |Retained(roots, target)| && Retained(roots, target)[ws - 1].completingHeight == base + k
    requires k < |chain|
    ensures Carries(h, blocks[k], chain[k], |Pool(chain, k + 1)|) && chain[k].height == base + k
    ensures Completes(chain, k, ws * SHARD_LEAVES)
    ensures ParseRoots(h, Retained(roots, target)[..ws]).Ok?
    ensures Tracks(h, Seeded(ParseRoots(h, Retained(roots, target)[..ws]).value, ws, chain[k], |Pool(chain, k + 1)|), chain, k + 1)
  {
    var kept := Retained(roots, target);
    RetainedIsCorrect(h, roots, target, chain, base);
    RootsParse(h, kept, ws, blocks, chain, base);
    assert HonestAt(h, blocks, chain, base, k);
    assert CorrectRoot(h, kept[ws - 1], ws - 1, chain, base);
    WindowTracks(h, ParseRoots(h, kept[..ws]).value, ws, chain, k);
  }

  lemma PreparedTracks(
    h: Hasher, roots: seq<SubtreeRoot>, target: nat, limit: nat, floor: nat, completingBlocks: seq<CompactBlock>,
    blocks: seq<ValidatedBlock>, chain: seq<Block>, base: nat)
    requires Sane(h) && HonestAnswers(h, roots, target, limit, floor, completingBlocks, blocks, chain, base)
    ensures Prepared(h, roots, target, limit, floor, completingBlocks).Ok?
    ensures var (c, from) := Prepared(h, roots, target, limit, floor, completingBlocks).value;
      && base <= from <= base + |chain|
      && Tracks(h, c, chain, from - base)
  {
    var kept := Retained(roots, target);
    var plan := WindowPlan(|kept|, limit);
    if plan.Some? {
      var ws := plan.value;
      var k := kept[ws - 1].completingHeight - base;
      SkippedShards(h, roots, target, ws, k, blocks, chain, base);
      PreparedWindow(h, roots, target, limit, floor, completingBlocks, blocks[k], chain[k], |Pool(chain, k + 1)|);
    } else {
      FreshTracks(h, chain);
    }
  }

  lemma FreshTracks(h: Hasher, chain: seq<Block>)
    ensures Tracks(h, Fresh(0, []), chain, 0)
  {
  }

  lemma PaddedShift(h: Hasher, all: seq<Hash>, offset: nat, start: nat, n: nat)
    requires offset <= |all| && offset <= start
    ensures Padded(h, all[offset..], start - offset, n) == Padded(h, all, start, n)
  {
    var a, b := Padded(h, all[offset..], start - offset, n), Padded(h, all, start, n);
    forall i | 0 <= i < n
      ensures a[i] == b[i]
    {
      PaddedAt(h, all[offset..], start - offset, n, i);
      PaddedAt(h, all, start, n, i);
    }
  }

  /** Two windows onto the same pool answer every query alike. */
  lemma SamePoolSameRoots(h: Hasher, c: Contents, d: Contents, all: seq<Hash>)
    requires Represents(h, c, all) && Represents(h, d, all)
    ensures TreeSize(c) == TreeSize(d)
    ensures ShardRoots(h, c) == ShardRoots(h, d)
    ensures TreeRoot(h, c) == TreeRoot(h, d) == NodeAt(h, all, 0, TREE_DEPTH, 0)
  {
    forall i | 0 <= i < PopulatedShards(c)
      ensures ShardRoots(h, c)[i] == ShardRoots(h, d)[i]
    {
      ShardRootsAt(h, c, PopulatedShards(c), i);
      ShardRootsAt(h, d, PopulatedShards(c), i);
      ShardRootIsNode(h, c, all, i);
      ShardRootIsNode(h, d, all, i);
    }
    TreeRootIsMerkleRoot(h, c, all);
    TreeRootIsMerkleRoot(h, d, all);
  }

  lemma SamePoolSameRow(h: Hasher, c: Contents, d: Contents, all: seq<Hash>, shard: nat, ss: nat)
    requires Represents(h, c, all) && Represents(h, d, all)
    requires c.leafOffset <= shard * SHARD_LEAVES && d.leafOffset <= shard * SHARD_LEAVES
    ensures SubshardLeaves(h, c, shard, ss) == SubshardLeaves(h, d, shard, ss)
  {
    var start := shard * SHARD_LEAVES + ss * SUBSHARD_LEAVES;
    PaddedShift(h, all, c.leafOffset, start, SUBSHARD_LEAVES);
    PaddedShift(h, all, d.leafOffset, start, SUBSHARD_LEAVES);
  }

  /** Two trees that track the same chain at the same height are indistinguishable. */
  ghost predicate SameAnswers(h: Hasher, windowed: Contents, full: Contents, all: seq<Hash>) {
    && full.leafOffset == 0 && full.leaves == all
    && TreeSize(windowed) == TreeSize(full)
    && ShardRoots(h, windowed) == ShardRoots(h, full)
    && TreeRoot(h, windowed) == TreeRoot(h, full) == NodeAt(h, all, 0, TREE_DEPTH, 0)
    && forall shard: nat, ss: nat :: windowed.leafOffset <= shard * SHARD_LEAVES ==>
         SubshardLeaves(h, windowed, shard, ss) == SubshardLeaves(h, full, shard, ss)
  }

  lemma TracksMeansSameAnswers(h: Hasher, windowed: Contents, full: Contents, chain: seq<Block>, n: nat)
    requires n <= |chain| && Tracks(h, windowed, chain, n) && Tracks(h, full, chain, n) && full.leafOffset == 0
    ensures SameAnswers(h, windowed, full, Pool(chain, n))
  {
    TracksMeansRepresents(h, windowed, chain, n);
    TracksMeansRepresents(h, full, chain, n);
    SamePoolSameRoots(h, windowed, full, Pool(chain, n));
    forall shard: nat, ss: nat | windowed.leafOffset <= shard * SHARD_LEAVES
      ensures SubshardLeaves(h, windowed, shard, ss) == SubshardLeaves(h, full, shard, ss)
    {
      SamePoolSameRow(h, windowed, full, Pool(chain, n), shard, ss);
    }
  }

  lemma SyncedAlike(
    h: Hasher, start: Contents, blocks: seq<ValidatedBlock>, chain: seq<Block>, base: nat, m: nat, n: nat)
    requires HonestChain(h, blocks, chain, base) && m <= n <= |chain| && Tracks(h, start, chain, m)
    ensures Feed(h, Fresh(0, []), blocks, 0, n).Ok? && Feed(h, start, blocks, m, n).Ok?
    ensures SameAnswers(h, Feed(h, start, blocks, m, n).value, Feed(h, Fresh(0, []), blocks, 0, n).value, Pool(chain, n))
  {
    FreshTracks(h, chain);
    FeedTracks(h, Fresh(0, []), blocks, chain, base, 0, n);
    FeedTracks(h, start, blocks, chain, base, m, n);
    TracksMeansSameAnswers(h, Feed(h, start, blocks, m, n).value, Feed(h, Fresh(0, []), blocks, 0, n).value, chain, n);
  }

  /** THE RESULT. A tree bootstrapped from an honest server and fed the blocks that follow is, at every
      later height, indistinguishable from a full sync of the same chain, and never fails its size check. */
  lemma BootstrapIsFullSync(
    h: Hasher, roots: seq<SubtreeRoot>, target: nat, limit: nat, floor: nat, completingBlocks: seq<CompactBlock>,
    blocks: seq<ValidatedBlock>, chain: seq<Block>, base: nat, n: nat)
    requires Sane(h) && HonestAnswers(h, roots, target, limit, floor, completingBlocks, blocks, chain, base)
    requires n <= |chain|
    ensures Feed(h, Fresh(0, []), blocks, 0, n).Ok?
    ensures Prepared(h, roots, target, limit, floor, completingBlocks).Ok?
    ensures var (start, from) := Prepared(h, roots, target, limit, floor, completingBlocks).value;
      base <= from && (from <= base + n ==>
        && Feed(h, start, blocks, from - base, n).Ok?
        && SameAnswers(h, Feed(h, start, blocks, from - base, n).value, Feed(h, Fresh(0, []), blocks, 0, n).value, Pool(chain, n)))
  {
    PreparedTracks(h, roots, target, limit, floor, completingBlocks, blocks, chain, base);
    var (start, from) := Prepared(h, roots, target, limit, floor, completingBlocks).value;
    if from <= base + n {
      SyncedAlike(h, start, blocks, chain, base, from - base, n);
    } else {
      FreshTracks(h, chain);
      FeedTracks(h, Fresh(0, []), blocks, chain, base, 0, n);
    }
  }
}
