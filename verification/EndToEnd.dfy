/** What a wallet learns from the served datasets. */
module EndToEnd {
  import opened Prelude
  import opened Geometry
  import opened Merkle
  import opened CommitmentTree
  import opened TreeHistory
  import opened ChainData
  import opened Bootstrap
  import Pipeline
  import opened Follower
  import opened Reconstruct
  import opened PirStub
  import opened WitnessService
  import opened NullifierTable
  import opened NullifierHistory
  import NullifierLookup
  import opened Lockstep
  import opened StartUp
  import opened ChainPool

  // ── Starting up ────────────────────────────────────────────────────

  /** The pool of an honest chain is what its blocks carry. */
  lemma {:induction false} PoolIsLeaves(
    h: Hasher, blocks: seq<ChainBlock>, chain: seq<Block>, base: nat, n: nat)
    requires HonestChain(h, blocks, chain, base) && n <= |chain|
    ensures Pool(chain, n) == LeavesOf(h, blocks[..n])
    decreases n
  {
    if n > 0 {
      PoolIsLeaves(h, blocks, chain, base, n - 1);
      assert HonestAt(h, blocks, chain, base, n - 1);
      assert blocks[..n][..n - 1] == blocks[..n - 1];
    }
  }

  /** Every block of an honest chain is an honest successor of the blocks before it. */
  lemma HonestBlockIsNext(h: Hasher, blocks: seq<ChainBlock>, chain: seq<Block>, base: nat, n: nat)
    requires HonestChain(h, blocks, chain, base) && n < |chain|
    ensures HonestNext(h, blocks[..n], blocks[n]) && |Commitments(h, blocks[n])| < U32_LIMIT
  {
    assert HonestAt(h, blocks, chain, base, n);
    PoolIsLeaves(h, blocks, chain, base, n);
  }

  /** The state a tree starts from, having seen `n` blocks of the chain. */
  ghost predicate Prepares(h: Hasher, c: Contents, blocks: seq<ChainBlock>, n: nat)
    requires n <= |blocks|
  {
    && HoldsPool(h, c, blocks[..n])
    && LogMirrors(c.blocks, blocks[..n])
    && |c.blocks| <= 1
    && (if c.blocks == [] then n == 0 && c == Fresh(0, []) else StartsWithCompletingBlock(h, c, blocks[..n]))
  }

  lemma OneBlockPrepares(h: Hasher, c: Contents, blocks: seq<ChainBlock>, k: nat)
    requires k < |blocks| && |c.blocks| == 1
    requires c.blocks[0].height == Pipeline.Height(blocks[k]) && c.blocks[0].hash == blocks[k].hash
    requires Counted(c) && CanonicalContents(h, c) && Represents(h, c, LeavesOf(h, blocks[..k + 1]))
    requires |LeavesOf(h, blocks[..k])| < c.leafOffset <= |LeavesOf(h, blocks[..k + 1])|
    ensures Prepares(h, c, blocks, k + 1)
  {
    OneBlockMirrors(c, blocks, k);
    OneBlockHolds(h, c, blocks, k);
  }

  lemma OneBlockMirrors(c: Contents, blocks: seq<ChainBlock>, k: nat)
    requires k < |blocks| && |c.blocks| == 1
    requires c.blocks[0].height == Pipeline.Height(blocks[k]) && c.blocks[0].hash == blocks[k].hash
    ensures LogMirrors(c.blocks, blocks[..k + 1])
  {
  }

  lemma OneBlockHolds(h: Hasher, c: Contents, blocks: seq<ChainBlock>, k: nat)
    requires k < |blocks| && |c.blocks| == 1
    requires Counted(c) && CanonicalContents(h, c) && Represents(h, c, LeavesOf(h, blocks[..k + 1]))
    requires |LeavesOf(h, blocks[..k])| < c.leafOffset <= |LeavesOf(h, blocks[..k + 1])|
    ensures HoldsPool(h, c, blocks[..k + 1]) && StartsWithCompletingBlock(h, c, blocks[..k + 1])
  {
    var seen := blocks[..k + 1];
    assert seen[..k] == blocks[..k] && seen[..k + 1] == seen;
  }

  lemma SeededIsCounted(prefetched: seq<Hash>, ws: nat, chain: seq<Block>, k: nat)
    requires k < |chain| && |Pool(chain, k + 1)| < TREE_CAPACITY
    ensures Counted(Seeded(prefetched, ws, chain[k], |Pool(chain, k + 1)|))
  {
    AppendKeepsCounted(Fresh(ws * SHARD_LEAVES, prefetched), chain[k].height, chain[k].hash,
      Spillover(chain[k].commitments, |Pool(chain, k + 1)|, ws * SHARD_LEAVES));
  }

  lemma SeededIsCanonical(
    h: Hasher, prefetched: seq<Hash>, ws: nat, k: nat, blocks: seq<ChainBlock>, chain: seq<Block>, base: nat)
    requires HonestChain(h, blocks, chain, base) && k < |chain| && Completes(chain, k, ws * SHARD_LEAVES)
    requires AllCanonical(h, prefetched)
    ensures CanonicalContents(h, Seeded(prefetched, ws, chain[k], |Pool(chain, k + 1)|))
  {
    SpilloverIsPoolSuffix(chain, k, ws * SHARD_LEAVES);
    PoolCanonical(h, blocks, chain, base, k + 1);
  }

  lemma SeededPrepares(
    h: Hasher, prefetched: seq<Hash>, ws: nat, k: nat, blocks: seq<ChainBlock>, chain: seq<Block>, base: nat)
    requires HonestChain(h, blocks, chain, base) && k < |chain| && Completes(chain, k, ws * SHARD_LEAVES)
    requires AllCanonical(h, prefetched)
    requires Bootstrap.Tracks(h, Seeded(prefetched, ws, chain[k], |Pool(chain, k + 1)|), chain, k + 1)
    ensures Prepares(h, Seeded(prefetched, ws, chain[k], |Pool(chain, k + 1)|), blocks, k + 1)
  {
    TracksMeansRepresents(h, Seeded(prefetched, ws, chain[k], |Pool(chain, k + 1)|), chain, k + 1);
    PoolIsLeaves(h, blocks, chain, base, k + 1);
    PoolIsLeaves(h, blocks, chain, base, k);
    assert HonestAt(h, blocks, chain, base, k);
    SeededIsCounted(prefetched, ws, chain, k);
    SeededIsCanonical(h, prefetched, ws, k, blocks, chain, base);
    OneBlockPrepares(h, Seeded(prefetched, ws, chain[k], |Pool(chain, k + 1)|), blocks, k);
  }

  /** What an honest server makes of a plan that skips shards. */
  lemma {:induction false} PreparedIsSeeded(
    h: Hasher, roots: seq<SubtreeRoot>, tip: nat, limit: nat, floor: nat, completingBlocks: seq<CompactBlock>,
    blocks: seq<ChainBlock>, chain: seq<Block>, base: nat)
    returns (prefetched: seq<Hash>, ws: nat, k: nat)
    requires Sane(h) && HonestAnswers(h, roots, tip, limit, floor, completingBlocks, blocks, chain, base)
    requires WindowPlan(|Retained(roots, tip)|, limit).Some?
    ensures k < |chain| && Completes(chain, k, ws * SHARD_LEAVES) && AllCanonical(h, prefetched)
    ensures Bootstrap.Tracks(h, Seeded(prefetched, ws, chain[k], |Pool(chain, k + 1)|), chain, k + 1)
    ensures Prepared(h, roots, tip, limit, floor, completingBlocks)
      == Ok((Seeded(prefetched, ws, chain[k], |Pool(chain, k + 1)|), base + k + 1))
  {
    var kept := Retained(roots, tip);
    ws := WindowPlan(|kept|, limit).value;
    k := kept[ws - 1].completingHeight - base;
    SkippedShards(h, roots, tip, ws, k, blocks, chain, base);
    PreparedWindow(h, roots, tip, limit, floor, completingBlocks, blocks[k], chain[k], |Pool(chain, k + 1)|);
    prefetched := ParseRoots(h, kept[..ws]).value;
  }

  /** Preparing succeeded, and the tree holds the pool of all blocks below the height it continues from. */
  ghost predicate PreparesFor(h: Hasher, r: Result<(Contents, nat), BootError>, blocks: seq<ChainBlock>, base: nat) {
    && r.Ok? && base <= r.value.1 <= base + |blocks|
    && Prepares(h, r.value.0, blocks, r.value.1 - base)
  }

  /** From an honest server, the prepared tree holds the pool up to the block it continues from. */
  lemma PreparedHoldsPool(
    h: Hasher, roots: seq<SubtreeRoot>, tip: nat, limit: nat, floor: nat, completingBlocks: seq<CompactBlock>,
    blocks: seq<ChainBlock>, chain: seq<Block>, base: nat)
    requires Sane(h) && HonestAnswers(h, roots, tip, limit, floor, completingBlocks, blocks, chain, base)
    ensures PreparesFor(h, Prepared(h, roots, tip, limit, floor, completingBlocks), blocks, base)
  {
    if WindowPlan(|Retained(roots, tip)|, limit).Some? {
      var prefetched, ws, k := PreparedIsSeeded(h, roots, tip, limit, floor, completingBlocks, blocks, chain, base);
      SeededPrepares(h, prefetched, ws, k, blocks, chain, base);
    } else {
      FreshPrepares(h, blocks);
    }
  }

  lemma FreshPrepares(h: Hasher, blocks: seq<ChainBlock>)
    ensures Prepares(h, Fresh(0, []), blocks, 0)
  {
    assert blocks[..0] == [];
  }

  // ── The historical sync ────────────────────────────────────────────

  ghost predicate SmallChain(h: Hasher, chain: seq<ChainBlock>) {
    forall i :: 0 <= i < |chain| ==> |Commitments(h, chain[i])| < U32_LIMIT
  }

  /** Every block of the chain is an honest successor of the blocks before it. */
  ghost predicate HonestSizes(h: Hasher, chain: seq<ChainBlock>) {
    forall i: nat :: i < |chain| ==> HonestNext(h, chain[..i], chain[i])
  }

  /** What one sync step does to the tree. */
  lemma StepTree(h: Hasher, s: Stores, b: ChainBlock, nfFrom: nat, witFrom: nat, target: nat)
    ensures var r := SyncStep(h, s, b, nfFrom, witFrom, target);
      if Pipeline.Height(b) < witFrom then
        if r.Ok? then r.value.tree == s.tree else !r.error.TreeRefused?
      else if r.Ok? then ApplyToTree(h, s.tree, b).Ok? && ApplyToTree(h, s.tree, b).value == r.value.tree
      else r.error.TreeRefused? ==> ApplyToTree(h, s.tree, b).Err?
    ensures var r := SyncStep(h, s, b, nfFrom, witFrom, target);
      r.Ok? ==> r.value.tree.leafOffset == s.tree.leafOffset
  {
  }

  lemma StepHoldsPool(h: Hasher, c: Contents, front: seq<ChainBlock>, b: ChainBlock, chain: seq<ChainBlock>)
    requires chain == front + [b] && HoldsPool(h, c, front) && |Commitments(h, b)| < U32_LIMIT && ApplyToTree(h, c, b).Ok?
    ensures HoldsPool(h, ApplyToTree(h, c, b).value, chain)
    ensures |ApplyToTree(h, c, b).value.blocks| == |c.blocks| + 1
  {
    AppendHoldsPool(h, c, front, b);
  }

  /** The tree has seen these blocks, with its window where it was and so many blocks logged. */
  ghost predicate TreeAt(h: Hasher, c: Contents, seen: seq<ChainBlock>, offset: nat, logged: nat) {
    HoldsPool(h, c, seen) && c.leafOffset == offset && |c.blocks| == logged
  }

  /** What the sync has made of the tree, or why it stopped. */
  ghost predicate TreeSynced(
    h: Hasher, r: Result<Stores, ServerError>, seen: seq<ChainBlock>, offset: nat, logged: nat, honest: bool)
  {
    if r.Ok? then TreeAt(h, r.value.tree, seen, offset, logged) else honest ==> !r.error.TreeRefused?
  }

  ghost predicate ConsecutiveHeights(chain: seq<ChainBlock>) {
    forall i :: 0 <= i < |chain| ==> Pipeline.Height(chain[i]) == Pipeline.Height(chain[0]) + i
  }

  /** The blocks a tree has seen after sync step `n`, when it had seen the first `b`. */
  function SeenAfter(chain: seq<ChainBlock>, b: nat, n: nat): seq<ChainBlock>
    requires b <= |chain| && n <= |chain|
  {
    chain[..Max(b, n)]
  }

  /** What the tree's part of a sync step needs to know about its block. */
  ghost predicate NextForTree(h: Hasher, chain: seq<ChainBlock>, b: nat, m: nat, witFrom: nat, honest: bool)
    requires m < |chain|
  {
    && |Commitments(h, chain[m])| < U32_LIMIT
    && (honest ==> HonestNext(h, chain[..m], chain[m]))
    && (witFrom <= Pipeline.Height(chain[m]) <==> b <= m)
  }

  lemma {:induction false} NothingSynced(h: Hasher, s: Stores, chain: seq<ChainBlock>, b: nat, n: nat, honest: bool)
    requires n <= b <= |chain| && HoldsPool(h, s.tree, chain[..b])
    ensures SyncedTree(h, Ok(s), chain, b, n, s.tree, honest)
  {
  }

  /** What the sync up to block `n` has made of a tree that had seen `b` blocks. */
  ghost predicate SyncedTree(
    h: Hasher, r: Result<Stores, ServerError>, chain: seq<ChainBlock>, b: nat, n: nat, c: Contents, honest: bool)
    requires b <= |chain| && n <= |chain|
  {
    TreeSynced(h, r, SeenAfter(chain, b, n), c.leafOffset, |c.blocks| + Max(b, n) - b, honest)
  }

  lemma {:induction false} SyncNextKeepsPool(
    h: Hasher, before: Result<Stores, ServerError>, chain: seq<ChainBlock>, b: nat, m: nat, n: nat, c: Contents,
    honest: bool, nfFrom: nat, witFrom: nat, target: nat)
    requires m + 1 == n <= |chain| && b <= |chain| && NextForTree(h, chain, b, m, witFrom, honest)
    requires SyncedTree(h, before, chain, b, m, c, honest)
    ensures SyncedTree(h, SyncNext(h, before, chain[m], nfFrom, witFrom, target), chain, b, n, c, honest)
  {
    if before.Ok? {
      SyncStepKeepsPool(h, before.value, chain, b, m, n, c.leafOffset, |c.blocks|, honest, nfFrom, witFrom, target);
    }
  }

  lemma HonestForTree(h: Hasher, chain: seq<ChainBlock>, b: nat, m: nat, witFrom: nat)
    requires ConsecutiveHeights(chain) && SmallChain(h, chain)
    requires m < |chain| && witFrom == Pipeline.Height(chain[0]) + b
    ensures NextForTree(h, chain, b, m, witFrom, HonestSizes(h, chain))
  {
  }

  /** Synced from where it stood, the tree holds the pool of all blocks seen, and no honest block is refused. */
  lemma {:induction false} SyncHoldsPool(
    h: Hasher, s: Stores, chain: seq<ChainBlock>, b: nat, from: nat, n: nat, nfFrom: nat, witFrom: nat, target: nat)
    requires chain != [] && ConsecutiveHeights(chain) && SmallChain(h, chain)
    requires from <= b <= |chain| && from <= n <= |chain| && witFrom == Pipeline.Height(chain[0]) + b
    requires HoldsPool(h, s.tree, chain[..b])
    ensures SyncedTree(h, Synced(h, s, chain, from, n, nfFrom, witFrom, target), chain, b, n, s.tree, HonestSizes(h, chain))
  {
    var honest := HonestSizes(h, chain);
    var holds := (m: nat, r: Result<Stores, ServerError>) => m <= |chain| && SyncedTree(h, r, chain, b, m, s.tree, honest);
    NothingSynced(h, s, chain, b, from, honest);
    forall m: nat, r: Result<Stores, ServerError> | from <= m < n && holds(m, r)
      ensures holds(m + 1, SyncNext(h, r, chain[m], nfFrom, witFrom, target))
    {
      HonestForTree(h, chain, b, m, witFrom);
      SyncNextKeepsPool(h, r, chain, b, m, m + 1, s.tree, honest, nfFrom, witFrom, target);
    }
    SyncInduction(h, s, chain, from, n, nfFrom, witFrom, target, holds);
  }

  lemma {:induction false} SyncStepKeepsPool(
    h: Hasher, s: Stores, chain: seq<ChainBlock>, b: nat, m: nat, n: nat, offset: nat, logged: nat, honest: bool,
    nfFrom: nat, witFrom: nat, target: nat)
    requires m + 1 == n <= |chain| && b <= |chain| && NextForTree(h, chain, b, m, witFrom, honest)
    requires TreeAt(h, s.tree, SeenAfter(chain, b, m), offset, logged + Max(b, m) - b)
    ensures TreeSynced(h, SyncStep(h, s, chain[m], nfFrom, witFrom, target), SeenAfter(chain, b, n), offset,
                       logged + Max(b, n) - b, honest)
  {
    if n > b {
      NextSeen(chain, b, m, n);
      SyncGrowsTree(h, s, SeenAfter(chain, b, m), chain[m], SeenAfter(chain, b, n), offset, logged + m - b, honest,
        nfFrom, witFrom, target);
    } else {
      SyncSkipsTree(h, s, chain[m], SeenAfter(chain, b, m), offset, logged, honest, nfFrom, witFrom, target);
    }
  }

  lemma NextSeen(chain: seq<ChainBlock>, b: nat, m: nat, n: nat)
    requires b <= m && m + 1 == n <= |chain|
    ensures SeenAfter(chain, b, m) == chain[..m] && SeenAfter(chain, b, n) == SeenAfter(chain, b, m) + [chain[m]]
  {
  }

  lemma {:induction false} SyncSkipsTree(
    h: Hasher, s: Stores, b: ChainBlock, seen: seq<ChainBlock>, offset: nat, logged: nat, honest: bool, nfFrom: nat,
    witFrom: nat, target: nat)
    requires TreeAt(h, s.tree, seen, offset, logged) && Pipeline.Height(b) < witFrom
    ensures TreeSynced(h, SyncStep(h, s, b, nfFrom, witFrom, target), seen, offset, logged, honest)
  {
    StepTree(h, s, b, nfFrom, witFrom, target);
  }

  lemma {:induction false} SyncGrowsTree(
    h: Hasher, s: Stores, front: seq<ChainBlock>, b: ChainBlock, seen: seq<ChainBlock>, offset: nat, logged: nat,
    honest: bool, nfFrom: nat, witFrom: nat, target: nat)
    requires seen == front + [b] && TreeAt(h, s.tree, front, offset, logged) && |Commitments(h, b)| < U32_LIMIT
    requires Pipeline.Height(b) >= witFrom && (honest ==> HonestNext(h, front, b))
    ensures TreeSynced(h, SyncStep(h, s, b, nfFrom, witFrom, target), seen, offset, logged + 1, honest)
  {
    StepTree(h, s, b, nfFrom, witFrom, target);
    if honest {
      HonestNextIff(h, s.tree, front, b);
    }
    if ApplyToTree(h, s.tree, b).Ok? {
      StepHoldsPool(h, s.tree, front, b, seen);
    }
  }

  // ── Over a run ─────────────────────────────────────────────────────

  ghost predicate SmallBlocks(h: Hasher, events: seq<Pipeline.BlockEvent>) {
    forall i :: 0 <= i < |events| && events[i].NewBlock? ==> |Commitments(h, events[i].block)| < U32_LIMIT
  }

  lemma HandleHoldsPool(h: Hasher, s: Stores, chain: seq<ChainBlock>, e: Pipeline.BlockEvent, target: nat)
    requires HoldsPool(h, s.tree, chain) && TreeMirrors(s.tree.blocks, chain) && Handle(h, s, e, target).Ok?
    requires e.NewBlock? ==> |Commitments(h, e.block)| < U32_LIMIT
    requires e.Reorg? ==> s.tree.blocks[0].height <= e.rollbackTo
    ensures HoldsPool(h, Handle(h, s, e, target).value.tree, Apply(chain, e))
  {
    match e
    case NewBlock(b) =>
      HandleNewBlock(h, s, b, target);
      AppendHoldsPool(h, s.tree, chain, b);
    case Reorg(to) =>
      RollbackHoldsPool(h, s.tree, chain, to);
  }

  /** Through appends and reorgs the tree holds the pool of the chain as it then is. */
  lemma {:induction false} RunHoldsPool(
    h: Hasher, s: Stores, chain: seq<ChainBlock>, events: seq<Pipeline.BlockEvent>, window: nat, target: nat)
    requires Mirrors(s, chain) && LegalRun(chain, events, window) && UsualRun(chain, events)
    requires RollbacksReach(events, s.tree.blocks[0].height) && SmallBlocks(h, events)
    requires HoldsPool(h, s.tree, chain) && HandleAll(h, s, events, target).Ok?
    ensures HoldsPool(h, HandleAll(h, s, events, target).value.tree, ApplyAll(chain, events))
    decreases |events|
  {
    if events != [] {
      var n := |events| - 1;
      RunHoldsPool(h, s, chain, events[..n], window, target);
      StoresStayInLockstep(h, s, chain, events[..n], window, target);
      HandleHoldsPool(h, HandleAll(h, s, events[..n], target).value, ApplyAll(chain, events[..n]), events[n], target);
    }
  }

  // ── What the wallet learns ─────────────────────────────────────────

  /** The private lookup of a nullifier says "spent" exactly when one of the blocks the table covers, the
      newest ones of the chain, carries it. */
  ghost predicate TruthfulSpent(t: Table, chain: seq<ChainBlock>, nf: Hash, extra: seq<byte>)
    requires |Live(t)| <= |chain|
  {
    var answer := AnswerQuery(NullifierLookup.Served(t), RowQuery(HashToBucket(nf)));
    answer.Ok? && (NullifierLookup.BucketContains(answer.value + extra, nf) <==> CarriedByNewest(chain, |Live(t)|, nf))
  }

  /** Both answers are true of the chain: the nullifiers of its newest blocks, and for every position in
      the window the path and root of its published pool, which is all of it up to 16 window shards, at the
      anchor height of its last block. */
  ghost predicate TruthfulAnswers(
    h: Hasher, s: Stores, chain: seq<ChainBlock>, nf: Hash, extra: seq<byte>, position: nat, w: PirWitness)
    requires |Live(s.table)| <= |chain|
  {
    && TruthfulSpent(s.table, chain, nf, extra)
    && Truthful(h, s.tree, PublishedPool(s.tree, LeavesOf(h, chain)), TipHeight(chain), position, w)
    && (LocalShardCount(s.tree) <= L0_MAX_SHARDS ==> PublishedPool(s.tree, LeavesOf(h, chain)) == LeavesOf(h, chain))
  }

  lemma AnswersAreTruthful(
    h: Hasher, s: Stores, chain: seq<ChainBlock>, nf: Hash, extra: seq<byte>, position: nat, w: PirWitness)
    requires Sane(h) && Mirrors(s, chain) && HoldsPool(h, s.tree, chain)
    requires TreeSize(Published(s.tree)) <= TREE_CAPACITY && nf != EMPTY
    ensures TruthfulAnswers(h, s, chain, nf, extra, position, w)
  {
    NullifierLookup.SpentIffCarried(s.table, nf, extra);
    LiveCarriesIffChain(Live(s.table), chain, nf);
    HonestWitness(h, s.tree, LeavesOf(h, chain), TipHeight(chain), position, w);
  }

  /** THE RESULT. From stores that mirror a chain and a tree that holds its pool, after any run of follower
      events the server handled, a wallet asking the rebuilt datasets learns the truth about the chain as it
      then is. */
  lemma WalletLearnsTheTruth(
    h: Hasher, s: Stores, chain: seq<ChainBlock>, events: seq<Pipeline.BlockEvent>, window: nat, target: nat, nf: Hash,
    extra: seq<byte>, position: nat, w: PirWitness)
    requires Sane(h) && Mirrors(s, chain) && HoldsPool(h, s.tree, chain)
    requires LegalRun(chain, events, window) && UsualRun(chain, events) && SmallBlocks(h, events)
    requires RollbacksReach(events, s.tree.blocks[0].height)
    requires HandleAll(h, s, events, target).Ok? && nf != EMPTY
    requires TreeSize(Published(HandleAll(h, s, events, target).value.tree)) <= TREE_CAPACITY
    ensures var now := HandleAll(h, s, events, target).value;
      Mirrors(now, ApplyAll(chain, events)) && TruthfulAnswers(h, now, ApplyAll(chain, events), nf, extra, position, w)
  {
    StoresStayInLockstep(h, s, chain, events, window, target);
    RunHoldsPool(h, s, chain, events, window, target);
    AnswersAreTruthful(h, HandleAll(h, s, events, target).value, ApplyAll(chain, events), nf, extra, position, w);
  }

  // ── From start-up to the wallet ────────────────────────────────────

  /** What the chain server tells about a pool: its completed shards, the block that completed the last
      skipped one, and its blocks from the pool's first height on, `chain` being what they carry. */
  datatype Source = Source(
    roots: seq<SubtreeRoot>, completing: seq<CompactBlock>, blocks: seq<ChainBlock>, chain: seq<Block>, base: nat)

  /** A start of the server: where it syncs to, its window, and a table that has seen `seen` blocks. */
  datatype Start = Start(src: Source, tip: nat, limit: nat, table: Table, seen: nat, target: nat)

  /** Where the sync begins and what each store still needs: index of the first synced block, first height
      for the table, first height for the tree. */
  datatype Resume = Resume(from: nat, nfFrom: nat, witFrom: nat)

  /** The chain server's answers for this start are those of its chain. */
  ghost predicate HonestSource(h: Hasher, st: Start) {
    HonestAnswers(h, st.src.roots, st.tip, st.limit, st.src.base, st.src.completing, st.src.blocks, st.src.chain, st.src.base)
  }

  ghost predicate HonestStart(h: Hasher, st: Start) {
    && HonestSource(h, st)
    && UsualChain(st.src.blocks)
    && st.seen <= |st.src.blocks|
    && Sound(st.table) && LiveMirrors(Live(st.table), st.src.blocks[..st.seen])
  }

  /** The prepared tree and the height it continues from. */
  function PreparedTree(h: Hasher, st: Start): Result<(Contents, nat), BootError> {
    Prepared(h, st.src.roots, st.tip, st.limit, st.src.base, st.src.completing)
  }

  predicate PreparedInRange(h: Hasher, st: Start) {
    && PreparedTree(h, st).Ok?
    && st.src.base <= PreparedTree(h, st).value.1 <= st.src.base + |st.src.blocks|
    && st.seen <= |st.src.blocks|
  }

  /** How many blocks the prepared tree has seen. */
  function SeenByTree(h: Hasher, st: Start): nat
    requires PreparedInRange(h, st)
  {
    PreparedTree(h, st).value.1 - st.src.base
  }

  /** The lower of the two first heights decides where the sync begins. */
  function ResumeAt(h: Hasher, st: Start): Resume
    requires PreparedInRange(h, st)
  {
    var witFrom := PreparedTree(h, st).value.1;
    Resume(Min(st.seen, SeenByTree(h, st)), st.src.base + st.seen, witFrom)
  }

  ghost function SyncFrom(h: Hasher, s: Stores, chain: seq<ChainBlock>, at: Resume, target: nat): Result<Stores, ServerError>
    requires at.from <= |chain|
  {
    SyncedAll(h, s, chain, at.from, at.nfFrom, at.witFrom, target)
  }

  /** Preparing the tree and syncing it together with the table. */
  ghost function SyncBoth(h: Hasher, st: Start): Result<Stores, ServerError>
    requires PreparedInRange(h, st)
  {
    SyncFrom(h, Stores(st.table, PreparedTree(h, st).value.0), st.src.blocks, ResumeAt(h, st), st.target)
  }

  /** Height of the first block in the tree's log after the sync. */
  function FirstLogged(h: Hasher, st: Start): int
    requires PreparedTree(h, st).Ok?
  {
    PreparedTree(h, st).value.1 - |PreparedTree(h, st).value.0.blocks|
  }

  /** Both stores mirror the chain, and the tree holds its pool. */
  ghost predicate InStep(h: Hasher, s: Stores, chain: seq<ChainBlock>) {
    Mirrors(s, chain) && HoldsPool(h, s.tree, chain)
  }

  /** A sync either ends in step or fails for another reason than the tree's size. */
  ghost predicate EndsInStep(h: Hasher, r: Result<Stores, ServerError>, chain: seq<ChainBlock>) {
    if r.Ok? then InStep(h, r.value, chain) else !r.error.TreeRefused?
  }

  lemma LogStart(h: Hasher, r: Result<Stores, ServerError>, chain: seq<ChainBlock>, offset: nat, logged: nat, b: nat)
    requires chain != [] && Pipeline.Linked(chain) && logged <= b <= |chain|
    requires TreeSynced(h, r, SeenAfter(chain, b, |chain|), offset, logged + |chain| - b, true)
    requires r.Ok? ==> Mirrors(r.value, chain)
    ensures EndsInStep(h, r, chain)
    ensures r.Ok? ==> r.value.tree.blocks[0].height == Pipeline.Height(chain[0]) + b - logged
    ensures r.Ok? ==> r.value.tree.leafOffset == offset && |r.value.tree.blocks| == logged + |chain| - b
  {
    assert chain[..|chain|] == chain;
  }

  lemma PreparedIsSeen(h: Hasher, s: Stores, chain: seq<ChainBlock>, a: nat, b: nat)
    requires a <= |chain| && b <= |chain| && Prepares(h, s.tree, chain, b)
    requires Sound(s.table) && LiveMirrors(Live(s.table), chain[..a])
    ensures Seen(s, chain, a, b) && HoldsPool(h, s.tree, chain[..b])
    ensures |s.tree.blocks| <= b && (s.tree.blocks == [] ==> b == 0)
  {
  }

  /** Stores and chain before the sync. */
  ghost predicate Ready(h: Hasher, s: Stores, chain: seq<ChainBlock>, a: nat, b: nat, at: Resume) {
    && UsualChain(chain) && SmallChain(h, chain) && HonestSizes(h, chain)
    && a <= |chain| && b <= |chain| && Seen(s, chain, a, b) && HoldsPool(h, s.tree, chain[..b])
    && |s.tree.blocks| <= b && (s.tree.blocks == [] ==> b == 0)
    && at.from == Min(a, b) && at.nfFrom == Pipeline.Height(chain[0]) + a && at.witFrom == Pipeline.Height(chain[0]) + b
  }

  lemma AllSyncedHoldsPool(h: Hasher, s: Stores, chain: seq<ChainBlock>, b: nat, at: Resume, target: nat)
    requires chain != [] && ConsecutiveHeights(chain) && SmallChain(h, chain) && HonestSizes(h, chain)
    requires at.from <= b <= |chain| && at.witFrom == Pipeline.Height(chain[0]) + b && HoldsPool(h, s.tree, chain[..b])
    ensures SyncedTree(h, SyncFrom(h, s, chain, at, target), chain, b, |chain|, s.tree, true)
  {
    SyncHoldsPool(h, s, chain, b, at.from, |chain|, at.nfFrom, at.witFrom, target);
  }

  lemma ReadyEndsInStep(h: Hasher, s: Stores, chain: seq<ChainBlock>, a: nat, b: nat, at: Resume, target: nat)
    requires Ready(h, s, chain, a, b, at)
    ensures EndsInStep(h, SyncFrom(h, s, chain, at, target), chain)
    ensures SyncFrom(h, s, chain, at, target).Ok? ==>
      && SyncFrom(h, s, chain, at, target).value.tree.blocks[0].height == at.witFrom - |s.tree.blocks|
      && SyncFrom(h, s, chain, at, target).value.tree.leafOffset == s.tree.leafOffset
      && |SyncFrom(h, s, chain, at, target).value.tree.blocks| == |s.tree.blocks| + |chain| - b
  {
    SyncEndsInLockstep(h, s, chain, a, b, at.from, at.nfFrom, at.witFrom, target);
    AllSyncedHoldsPool(h, s, chain, b, at, target);
    LogStart(h, SyncFrom(h, s, chain, at, target), chain, s.tree.leafOffset, |s.tree.blocks|, b);
  }

  lemma {:induction false} StartIsPrepared(h: Hasher, st: Start)
    requires Sane(h) && HonestSource(h, st) && st.seen <= |st.src.blocks|
    ensures PreparedInRange(h, st)
    ensures Prepares(h, PreparedTree(h, st).value.0, st.src.blocks, SeenByTree(h, st))
  {
    PreparedHoldsPool(h, st.src.roots, st.tip, st.limit, st.src.base, st.src.completing, st.src.blocks, st.src.chain,
      st.src.base);
  }

  lemma StartIsHonest(h: Hasher, st: Start)
    requires HonestStart(h, st)
    ensures SmallChain(h, st.src.blocks) && HonestSizes(h, st.src.blocks)
    ensures Pipeline.Height(st.src.blocks[0]) == st.src.base
  {
    forall n: nat | n < |st.src.blocks|
      ensures HonestNext(h, st.src.blocks[..n], st.src.blocks[n]) && |Commitments(h, st.src.blocks[n])| < U32_LIMIT
    {
      HonestBlockIsNext(h, st.src.blocks, st.src.chain, st.src.base, n);
    }
    assert HonestAt(h, st.src.blocks, st.src.chain, st.src.base, 0);
  }

  lemma StartIsReady(h: Hasher, st: Start)
    requires Sane(h) && HonestStart(h, st)
    ensures PreparedInRange(h, st)
    ensures Ready(h, Stores(st.table, PreparedTree(h, st).value.0), st.src.blocks, st.seen,
                  SeenByTree(h, st), ResumeAt(h, st))
  {
    StartIsPrepared(h, st);
    StartIsHonest(h, st);
    PreparedIsSeen(h, Stores(st.table, PreparedTree(h, st).value.0), st.src.blocks, st.seen, SeenByTree(h, st));
  }

  /** After the start-up with an honest source both stores are in step with the whole chain, and the tree
      was never the reason for a failure. */
  lemma StartEndsInStep(h: Hasher, st: Start)
    requires Sane(h) && HonestStart(h, st)
    ensures PreparedInRange(h, st)
    ensures EndsInStep(h, SyncBoth(h, st), st.src.blocks)
    ensures SyncBoth(h, st).Ok? ==>
      && SyncBoth(h, st).value.tree.blocks[0].height == FirstLogged(h, st)
      && SyncBoth(h, st).value.tree.leafOffset == PreparedTree(h, st).value.0.leafOffset
  {
    StartIsReady(h, st);
    ReadyEndsInStep(h, Stores(st.table, PreparedTree(h, st).value.0), st.src.blocks, st.seen,
      SeenByTree(h, st), ResumeAt(h, st), st.target);
  }

  lemma FirstBlockStays(h: Hasher, c: Contents, c': Contents, chain: seq<ChainBlock>, b: nat)
    requires b <= |chain| && StartsWithCompletingBlock(h, c, chain[..b])
    requires c'.leafOffset == c.leafOffset && |c'.blocks| == |c.blocks| + |chain| - b
    ensures StartsWithCompletingBlock(h, c', chain)
  {
    assert chain[..b][..b - |c.blocks|] == chain[..|chain| - |c'.blocks|];
  }

  lemma ReadyKeepsFirstBlock(h: Hasher, s: Stores, chain: seq<ChainBlock>, a: nat, b: nat, at: Resume, target: nat)
    requires Ready(h, s, chain, a, b, at) && StartsWithCompletingBlock(h, s.tree, chain[..b])
    ensures SyncFrom(h, s, chain, at, target).Ok? ==>
      StartsWithCompletingBlock(h, SyncFrom(h, s, chain, at, target).value.tree, chain)
  {
    ReadyEndsInStep(h, s, chain, a, b, at, target);
    if SyncFrom(h, s, chain, at, target).Ok? {
      FirstBlockStays(h, s.tree, SyncFrom(h, s, chain, at, target).value.tree, chain, b);
    }
  }

  lemma ReadyStartKeepsFirstBlock(h: Hasher, st: Start)
    requires PreparedInRange(h, st) && PreparedTree(h, st).value.0.blocks != []
    requires Ready(h, Stores(st.table, PreparedTree(h, st).value.0), st.src.blocks, st.seen,
                   SeenByTree(h, st), ResumeAt(h, st))
    requires StartsWithCompletingBlock(h, PreparedTree(h, st).value.0, st.src.blocks[..SeenByTree(h, st)])
    ensures SyncBoth(h, st).Ok? ==> StartsWithCompletingBlock(h, SyncBoth(h, st).value.tree, st.src.blocks)
  {
    ReadyKeepsFirstBlock(h, Stores(st.table, PreparedTree(h, st).value.0), st.src.blocks, st.seen,
      SeenByTree(h, st), ResumeAt(h, st), st.target);
  }

  /** A tree that was prepared as a window still starts with the block that completed the last skipped shard. */
  lemma StartKeepsCompletingBlock(h: Hasher, st: Start)
    requires Sane(h) && HonestStart(h, st)
    ensures PreparedInRange(h, st)
    ensures SyncBoth(h, st).Ok? && PreparedTree(h, st).value.0.blocks != [] ==>
      StartsWithCompletingBlock(h, SyncBoth(h, st).value.tree, st.src.blocks)
  {
    StartIsPrepared(h, st);
    StartIsReady(h, st);
    if PreparedTree(h, st).value.0.blocks != [] {
      ReadyStartKeepsFirstBlock(h, st);
    }
  }

  /** The tip check after the sync passes exactly when eviction has left the table a block. */
  lemma StartPassesTipCheckIff(h: Hasher, st: Start)
    requires Sane(h) && HonestStart(h, st)
    ensures PreparedInRange(h, st)
    ensures SyncBoth(h, st).Ok? ==> (TipsMatch(SyncBoth(h, st).value) <==> Live(SyncBoth(h, st).value.table) != [])
  {
    StartEndsInStep(h, st);
    if SyncBoth(h, st).Ok? {
      TipCheckIff(SyncBoth(h, st).value, st.src.blocks);
    }
  }

  /** The follower's events may be applied: legal, usual, and never below the tree's first logged block. */
  ghost predicate FollowedFrom(
    st: Start, first: int, older: seq<ChainBlock>, recent: seq<ChainBlock>, events: seq<Pipeline.BlockEvent>, window: nat)
  {
    && st.src.blocks == older + recent && recent != [] && Pipeline.Linked(recent)
    && first <= Pipeline.Height(recent[0])
    && LegalRun(recent, events, window) && UsualRun(st.src.blocks, events)
  }

  /** THE RESULT, end to end. Prepare and sync from an honest source, then follow: whatever the chain server
      answers afterwards, as long as the tree's log reaches back to the first tracked block, a wallet asking
      the datasets learns the truth about the chain as it then is. */
  lemma FromStartToWallet(
    h: Hasher, st: Start, s: Stores, older: seq<ChainBlock>, recent: seq<ChainBlock>, events: seq<Pipeline.BlockEvent>,
    window: nat, nf: Hash, extra: seq<byte>, position: nat, w: PirWitness)
    requires Sane(h) && HonestStart(h, st) && PreparedInRange(h, st) && SyncBoth(h, st) == Ok(s)
    requires FollowedFrom(st, FirstLogged(h, st), older, recent, events, window) && SmallBlocks(h, events)
    requires HandleAll(h, s, events, st.target).Ok? && nf != EMPTY
    requires TreeSize(Published(HandleAll(h, s, events, st.target).value.tree)) <= TREE_CAPACITY
    ensures var now, chain := HandleAll(h, s, events, st.target).value, older + ApplyAll(recent, events);
      Mirrors(now, chain) && TruthfulAnswers(h, now, chain, nf, extra, position, w)
  {
    StartEndsInStep(h, st);
    OlderBlocksStay(older, recent, events, window);
    LegalRunReaches(recent, events, window);
    FollowedWalletLearns(h, s, older, recent, events, window, st.target, nf, extra, position, w);
  }

  lemma FollowedWalletLearns(
    h: Hasher, s: Stores, older: seq<ChainBlock>, recent: seq<ChainBlock>, events: seq<Pipeline.BlockEvent>,
    window: nat, target: nat, nf: Hash, extra: seq<byte>, position: nat, w: PirWitness)
    requires Sane(h) && Mirrors(s, older + recent) && HoldsPool(h, s.tree, older + recent) && recent != []
    requires LeavesOlder(older, recent, events, window) && RollbacksReach(events, Pipeline.Height(recent[0]))
    requires s.tree.blocks[0].height <= Pipeline.Height(recent[0])
    requires UsualRun(older + recent, events) && SmallBlocks(h, events)
    requires HandleAll(h, s, events, target).Ok? && nf != EMPTY
    requires TreeSize(Published(HandleAll(h, s, events, target).value.tree)) <= TREE_CAPACITY
    ensures var now, chain := HandleAll(h, s, events, target).value, older + ApplyAll(recent, events);
      Mirrors(now, chain) && TruthfulAnswers(h, now, chain, nf, extra, position, w)
  {
    WalletLearnsTheTruth(h, s, older + recent, events, window, target, nf, extra, position, w);
  }
}
