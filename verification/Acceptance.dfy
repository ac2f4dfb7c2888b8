/** When the server takes a block, and why it refuses one. */
module Acceptance {
  import opened Prelude
  import opened Geometry
  import opened Merkle
  import opened CommitmentTree
  import opened TreeHistory
  import opened ChainData
  import opened Bootstrap
  import Pipeline
  import opened Follower
  import opened NullifierTable
  import opened NullifierCapacity
  import opened NullifierHistory
  import opened Lockstep
  import opened StartUp
  import opened ChainPool
  import opened EndToEnd
  import Reconstruct
  import WitnessService

  // ── One block ──────────────────────────────────────────────────────

  /** How much of a block's action count the size check subtracts. */
  function Own(block: CompactBlock): nat {
    Min(ActionCount(block.txs), U32_LIMIT - 1)
  }

  /** Every nullifier has 32 bytes, and no bucket gets more than it can hold beside the live ones. */
  ghost predicate TableTakes(live: seq<LiveBlock>, b: ChainBlock) {
    && GoodNullifiers(b.block)
    && forall nfs :: AreNullifiers(b.block.txs, nfs) ==> LiveFits(live, nfs)
  }

  /** Every commitment has 32 bytes and is canonical, and the reported size less them is the tree's. */
  ghost predicate TreeTakes(h: Hasher, c: Contents, b: ChainBlock) {
    GoodCommitments(h, b.block) && b.block.treeSize == Some(TreeSize(c) + Own(b.block))
  }

  /** Why the tree refuses a block: the first bad commitment, a missing or impossible size, or another size. */
  ghost predicate TreeRefuses(h: Hasher, c: Contents, b: ChainBlock, reason: BootError) {
    if !GoodCommitments(h, b.block) then reason.Parse? && RefusesCommitment(h, b.block, reason.error)
    else if b.block.treeSize == None then reason == Parse(MissingTreeSize(Pipeline.Height(b)))
    else if b.block.treeSize.value < Own(b.block) then
      reason == Parse(InvalidTreeSize(Pipeline.Height(b), b.block.treeSize.value, ActionCount(b.block.txs)))
    else reason == TreeSizeMismatch(Pipeline.Height(b), b.block.treeSize.value - Own(b.block), TreeSize(c))
  }

  /** Why the server refuses a block, in the order of its checks. */
  ghost predicate Refuses(h: Hasher, s: Stores, b: ChainBlock, useTable: bool, useTree: bool, error: ServerError) {
    if useTable && !GoodNullifiers(b.block) then error.BadBlock? && RefusesNullifier(b.block, error.error)
    else if useTree && !TreeTakes(h, s.tree, b) then error.TreeRefused? && TreeRefuses(h, s.tree, b, error.reason)
    else error == TableFull
  }

  lemma CommitmentCount(h: Hasher, block: CompactBlock)
    requires ExtractCommitments(h, block).Ok?
    ensures |ExtractCommitments(h, block).value| == ActionCount(block.txs)
  {
    ExtractCommitmentsIff(h, block, ExtractCommitments(h, block).value);
  }

  lemma TreeTakesIff(h: Hasher, c: Contents, b: ChainBlock)
    ensures ApplyToTree(h, c, b).Ok? <==> TreeTakes(h, c, b)
    ensures ApplyToTree(h, c, b).Err? ==> TreeRefuses(h, c, b, ApplyToTree(h, c, b).error)
  {
    CommitmentsReadIff(h, b.block);
    if ExtractCommitments(h, b.block).Ok? {
      CommitmentCount(h, b.block);
    }
  }

  lemma TableTakesIff(t: Table, b: ChainBlock)
    requires Sound(t)
    ensures TableTakes(Live(t), b) <==>
      ExtractNullifiers(b.block).Ok? && HasRoom(t, ExtractNullifiers(b.block).value)
  {
    NullifiersReadIff(b.block);
    if ExtractNullifiers(b.block).Ok? {
      var nfs := ExtractNullifiers(b.block).value;
      ExtractNullifiersIff(b.block, nfs);
      FitsIffLiveFits(t, nfs);
      forall other | AreNullifiers(b.block.txs, other)
        ensures other == nfs
      {
        ExtractNullifiersIff(b.block, other);
      }
    }
  }

  /** THE RESULT for one block: the stores that are asked for take it if and only if it is well-formed, fits
      the tree's size and fits every bucket; and the error names the first of these that fails. */
  lemma AppliedIff(h: Hasher, s: Stores, b: ChainBlock, useTable: bool, useTree: bool)
    requires Sound(s.table)
    ensures Applied(h, s, b, useTable, useTree).Ok? <==>
      (useTable ==> TableTakes(Live(s.table), b)) && (useTree ==> TreeTakes(h, s.tree, b))
    ensures Applied(h, s, b, useTable, useTree).Err? ==>
      Refuses(h, s, b, useTable, useTree, Applied(h, s, b, useTable, useTree).error)
  {
    NullifiersReadIff(b.block);
    TableTakesIff(s.table, b);
    TreeTakesIff(h, s.tree, b);
  }

  /** What a taken block does: its nullifiers are held on top, its commitments are appended. */
  lemma AppliedEffect(h: Hasher, s: Stores, b: ChainBlock, useTable: bool, useTree: bool, nfs: seq<Hash>, cmxs: seq<Hash>)
    requires Sound(s.table) && Applied(h, s, b, useTable, useTree).Ok?
    requires AreNullifiers(b.block.txs, nfs) && Insertable(Live(s.table), Pipeline.Height(b), b.hash, nfs)
    requires AreCommitments(h, b.block.txs, cmxs)
    ensures var s' := Applied(h, s, b, useTable, useTree).value;
      && Live(s'.table) ==
           (if useTable then PutBlock(Live(s.table), LiveBlock(Pipeline.Height(b), b.hash, nfs)) else Live(s.table))
      && s'.tree.leaves == (if useTree then s.tree.leaves + cmxs else s.tree.leaves)
  {
    ExtractNullifiersIff(b.block, nfs);
    ExtractCommitmentsIff(h, b.block, cmxs);
    if useTable {
      InsertKeepsSound(s.table, Pipeline.Height(b), b.hash, nfs);
    }
  }

  // ── Runs of follower events ────────────────────────────────────────

  /** Every new block is an honest successor of the chain so far. */
  ghost predicate HonestRun(h: Hasher, chain: seq<ChainBlock>, events: seq<Pipeline.BlockEvent>)
    decreases |events|
  {
    events == [] ||
    (var n := |events| - 1;
     && HonestRun(h, chain, events[..n])
     && (events[n].NewBlock? ==> HonestNext(h, ApplyAll(chain, events[..n]), events[n].block)))
  }

  /** Every new block finds room beside the blocks held when it comes. */
  ghost predicate RoomForRun(live: seq<LiveBlock>, events: seq<Pipeline.BlockEvent>, target: nat)
    decreases |events|
  {
    events == [] ||
    (var n := |events| - 1;
     && RoomForRun(live, events[..n], target)
     && (events[n].NewBlock? ==> TableTakes(HeldAfterAll(live, events[..n], target), events[n].block)))
  }

  lemma BlockIsTaken(h: Hasher, s: Stores, chain: seq<ChainBlock>, b: ChainBlock, target: nat)
    requires Sound(s.table) && HoldsPool(h, s.tree, chain) && HonestNext(h, chain, b) && TableTakes(Live(s.table), b)
    ensures Handle(h, s, Pipeline.NewBlock(b), target).Ok?
  {
    HonestNextIff(h, s.tree, chain, b);
    TreeTakesIff(h, s.tree, b);
    AppliedIff(h, s, b, true, true);
  }

  lemma EventIsHandled(
    h: Hasher, s: Stores, chain: seq<ChainBlock>, e: Pipeline.BlockEvent, target: nat)
    requires Mirrors(s, chain) && HoldsPool(h, s.tree, chain)
    requires e.NewBlock? ==> HonestNext(h, chain, e.block) && TableTakes(Live(s.table), e.block)
    ensures Handle(h, s, e, target).Ok?
  {
    match e
    case NewBlock(b) => BlockIsTaken(h, s, chain, b, target);
    case Reorg(to) => PopAboveSucceeds(s.table, to);
  }

  /** THE RESULT for runs: with honest sizes and room in every bucket the server handles every event. */
  lemma {:induction false} HonestRunIsHandled(
    h: Hasher, s: Stores, chain: seq<ChainBlock>, events: seq<Pipeline.BlockEvent>, window: nat, target: nat)
    requires Mirrors(s, chain) && HoldsPool(h, s.tree, chain)
    requires LegalRun(chain, events, window) && UsualRun(chain, events) && EndToEnd.SmallBlocks(h, events)
    requires RollbacksReach(events, s.tree.blocks[0].height)
    requires HonestRun(h, chain, events) && RoomForRun(Live(s.table), events, target)
    ensures HandleAll(h, s, events, target).Ok?
    decreases |events|
  {
    if events != [] {
      var n := |events| - 1;
      HonestRunIsHandled(h, s, chain, events[..n], window, target);
      StoresStayInLockstep(h, s, chain, events[..n], window, target);
      RunHoldsPool(h, s, chain, events[..n], window, target);
      EventsDecideHeld(h, s, chain, events[..n], window, target);
      EventIsHandled(h, HandleAll(h, s, events[..n], target).value, ApplyAll(chain, events[..n]), events[n], target);
    }
  }

  // ── The historical sync ────────────────────────────────────────────

  /** The blocks held after sync step `n`, when the table had seen the first `a` blocks. */
  ghost function HeldSynced(live: seq<LiveBlock>, chain: seq<ChainBlock>, from: nat, n: nat, a: nat, target: nat)
    : seq<LiveBlock>
    requires from <= n <= |chain|
    decreases n
  {
    if n == from then live
    else
      var before := HeldSynced(live, chain, from, n - 1, a, target);
      if n > a then HeldAfter(before, Pipeline.NewBlock(chain[n - 1]), target) else Newest(before, target)
  }

  /** Every block the table has not seen finds room when it comes. */
  ghost predicate RoomForSync(live: seq<LiveBlock>, chain: seq<ChainBlock>, from: nat, n: nat, a: nat, target: nat)
    requires from <= n <= |chain|
    decreases n
  {
    n == from ||
    (RoomForSync(live, chain, from, n - 1, a, target) &&
     (n > a ==> TableTakes(HeldSynced(live, chain, from, n - 1, a, target), chain[n - 1])))
  }

  /** Sync step `n` went through, and the table holds the blocks it should. */
  ghost predicate SyncedTo(r: Result<Stores, ServerError>, live: seq<LiveBlock>) {
    r.Ok? && Live(r.value.table) == live
  }

  lemma TableTakesNext(
    h: Hasher, s: Stores, chain: seq<ChainBlock>, n: nat, b: ChainBlock, useTree: bool, target: nat)
    requires UsualChain(chain) && n < |chain| && b == chain[n]
    requires Sound(s.table) && LiveMirrors(Live(s.table), chain[..n]) && Applied(h, s, b, true, useTree).Ok?
    ensures Live(Evicted(Applied(h, s, b, true, useTree).value, target).table)
      == HeldAfter(Live(s.table), Pipeline.NewBlock(b), target)
  {
    var nfs := ExtractNullifiers(b.block).value;
    FirstOrNext(Live(s.table), chain, n, nfs);
    InsertKeepsSound(s.table, Pipeline.Height(b), b.hash, nfs);
    if n > 0 {
      NextIsLast(Live(s.table), chain[..n], b, nfs);
    }
    EvictToKeepsSound(Step(s.table, InsertBlock(Pipeline.Height(b), b.hash, nfs)), target);
  }

  /** The table's part of one sync step, named by whether it has seen the block. */
  lemma StepTakes(
    h: Hasher, s: Stores, chain: seq<ChainBlock>, a: nat, n: nat, nfFrom: nat, witFrom: nat, target: nat)
    requires UsualChain(chain) && 0 < n <= |chain| && a <= |chain| && nfFrom == Pipeline.Height(chain[0]) + a
    requires Sound(s.table) && (n > a ==> TableTakes(Live(s.table), chain[n - 1]))
    ensures SyncStep(h, s, chain[n - 1], nfFrom, witFrom, target).Err? ==>
      SyncStep(h, s, chain[n - 1], nfFrom, witFrom, target).error.TreeRefused?
  {
    AppliedIff(h, s, chain[n - 1], n > a, Pipeline.Height(chain[n - 1]) >= witFrom);
  }

  lemma StepHolds(
    h: Hasher, s: Stores, chain: seq<ChainBlock>, a: nat, n: nat, nfFrom: nat, witFrom: nat, target: nat)
    requires UsualChain(chain) && 0 < n <= |chain| && a <= |chain| && nfFrom == Pipeline.Height(chain[0]) + a
    requires Sound(s.table) && LiveMirrors(Live(s.table), chain[..Max(a, n - 1)])
    requires SyncStep(h, s, chain[n - 1], nfFrom, witFrom, target).Ok?
    ensures Live(SyncStep(h, s, chain[n - 1], nfFrom, witFrom, target).value.table) ==
      if n > a then HeldAfter(Live(s.table), Pipeline.NewBlock(chain[n - 1]), target) else Newest(Live(s.table), target)
  {
    if n > a {
      TableTakesNext(h, s, chain, n - 1, chain[n - 1], Pipeline.Height(chain[n - 1]) >= witFrom, target);
    } else {
      EvictToKeepsSound(s.table, target);
    }
  }

  lemma SeenBefore(h: Hasher, s: Stores, chain: seq<ChainBlock>, a: nat, b: nat, at: Resume, m: nat, target: nat)
    requires Ready(h, s, chain, a, b, at) && at.from <= m <= |chain|
    ensures var before := Synced(h, s, chain, at.from, m, at.nfFrom, at.witFrom, target);
      before.Ok? ==> Sound(before.value.table) && LiveMirrors(Live(before.value.table), chain[..Max(a, m)])
  {
    SyncBringsUp(h, s, chain, a, b, at.from, m, at.nfFrom, at.witFrom, target);
  }

  /** An honest block is never refused by the tree. */
  lemma TreeNeverRefuses(h: Hasher, s: Stores, chain: seq<ChainBlock>, a: nat, b: nat, at: Resume, n: nat, target: nat)
    requires Ready(h, s, chain, a, b, at) && at.from <= n <= |chain|
    ensures var r := Synced(h, s, chain, at.from, n, at.nfFrom, at.witFrom, target);
      r.Err? ==> !r.error.TreeRefused?
  {
    SyncHoldsPool(h, s, chain, b, at.from, n, at.nfFrom, at.witFrom, target);
  }

  lemma StepIsHandled(
    h: Hasher, before: Stores, chain: seq<ChainBlock>, a: nat, n: nat, m: nat, nfFrom: nat, witFrom: nat, target: nat)
    requires UsualChain(chain) && m + 1 == n <= |chain| && a <= |chain| && nfFrom == Pipeline.Height(chain[0]) + a
    requires Sound(before.table) && LiveMirrors(Live(before.table), chain[..Max(a, m)])
    requires n > a ==> TableTakes(Live(before.table), chain[m])
    requires var r := SyncStep(h, before, chain[m], nfFrom, witFrom, target); r.Err? ==> !r.error.TreeRefused?
    ensures SyncedTo(SyncStep(h, before, chain[m], nfFrom, witFrom, target),
      if n > a then HeldAfter(Live(before.table), Pipeline.NewBlock(chain[m]), target) else Newest(Live(before.table), target))
  {
    StepTakes(h, before, chain, a, n, nfFrom, witFrom, target);
    StepHolds(h, before, chain, a, n, nfFrom, witFrom, target);
  }

  lemma StepNeverRefused(h: Hasher, s: Stores, chain: seq<ChainBlock>, at: Resume, m: nat, n: nat, target: nat)
    requires at.from <= m && m + 1 == n <= |chain|
    requires var r := Synced(h, s, chain, at.from, n, at.nfFrom, at.witFrom, target); r.Err? ==> !r.error.TreeRefused?
    ensures var before := Synced(h, s, chain, at.from, m, at.nfFrom, at.witFrom, target);
      before.Ok? ==>
        var r := SyncStep(h, before.value, chain[m], at.nfFrom, at.witFrom, target);
        r.Err? ==> !r.error.TreeRefused?
  {
  }

  /** One block of the sync goes through if it finds room, and the table then holds what it should. */
  ghost predicate GoesThrough(
    h: Hasher, before: Stores, b: ChainBlock, unseen: bool, at: Resume, target: nat)
  {
    (unseen ==> TableTakes(Live(before.table), b)) ==>
      SyncedTo(SyncStep(h, before, b, at.nfFrom, at.witFrom, target),
               if unseen then HeldAfter(Live(before.table), Pipeline.NewBlock(b), target)
               else Newest(Live(before.table), target))
  }

  ghost predicate StepGoesThrough(
    h: Hasher, s: Stores, chain: seq<ChainBlock>, a: nat, at: Resume, m: nat, target: nat)
    requires at.from <= m < |chain|
  {
    var before := Synced(h, s, chain, at.from, m, at.nfFrom, at.witFrom, target);
    before.Ok? ==> GoesThrough(h, before.value, chain[m], m >= a, at, target)
  }

  lemma EachStep(
    h: Hasher, s: Stores, chain: seq<ChainBlock>, a: nat, b: nat, at: Resume, m: nat, n: nat, target: nat)
    requires Ready(h, s, chain, a, b, at) && at.from <= m && m + 1 == n <= |chain|
    ensures StepGoesThrough(h, s, chain, a, at, m, target)
  {
    var before := Synced(h, s, chain, at.from, m, at.nfFrom, at.witFrom, target);
    SeenBefore(h, s, chain, a, b, at, m, target);
    TreeNeverRefuses(h, s, chain, a, b, at, n, target);
    StepNeverRefused(h, s, chain, at, m, n, target);
    if before.Ok? && (m >= a ==> TableTakes(Live(before.value.table), chain[m])) {
      StepIsHandled(h, before.value, chain, a, n, m, at.nfFrom, at.witFrom, target);
    }
  }

  lemma {:induction false} SyncIsHandled(
    h: Hasher, s: Stores, chain: seq<ChainBlock>, a: nat, at: Resume, n: nat, target: nat)
    requires at.from <= n <= |chain|
    requires forall m :: at.from <= m < n ==> StepGoesThrough(h, s, chain, a, at, m, target)
    requires RoomForSync(Live(s.table), chain, at.from, n, a, target)
    ensures SyncedTo(Synced(h, s, chain, at.from, n, at.nfFrom, at.witFrom, target),
                     HeldSynced(Live(s.table), chain, at.from, n, a, target))
    decreases n
  {
    if at.from < n {
      SyncIsHandled(h, s, chain, a, at, n - 1, target);
      assert StepGoesThrough(h, s, chain, a, at, n - 1, target);
    }
  }

  lemma ReadyIsHandled(h: Hasher, s: Stores, chain: seq<ChainBlock>, a: nat, b: nat, at: Resume, target: nat)
    requires Ready(h, s, chain, a, b, at) && RoomForSync(Live(s.table), chain, at.from, |chain|, a, target)
    ensures Synced(h, s, chain, at.from, |chain|, at.nfFrom, at.witFrom, target).Ok?
  {
    forall m | at.from <= m < |chain| ensures StepGoesThrough(h, s, chain, a, at, m, target) {
      EachStep(h, s, chain, a, b, at, m, m + 1, target);
    }
    SyncIsHandled(h, s, chain, a, at, |chain|, target);
  }

  /** Every block the table has not seen finds room during the start. */
  ghost predicate RoomForStart(h: Hasher, st: Start)
    requires PreparedInRange(h, st)
  {
    RoomForSync(Live(st.table), st.src.blocks, ResumeAt(h, st).from, |st.src.blocks|, st.seen, st.target)
  }

  /** THE RESULT for the start: from an honest source, with room in every bucket, the start-up succeeds. */
  lemma HonestStartSucceeds(h: Hasher, st: Start)
    requires Sane(h) && HonestStart(h, st) && (PreparedInRange(h, st) ==> RoomForStart(h, st))
    ensures PreparedInRange(h, st) && SyncBoth(h, st).Ok?
  {
    StartIsReady(h, st);
    ReadyIsHandled(h, Stores(st.table, PreparedTree(h, st).value.0), st.src.blocks, st.seen, SeenByTree(h, st),
      ResumeAt(h, st), st.target);
  }

  lemma FollowedIsHandled(
    h: Hasher, s: Stores, older: seq<ChainBlock>, recent: seq<ChainBlock>, events: seq<Pipeline.BlockEvent>, window: nat,
    target: nat)
    requires Mirrors(s, older + recent) && HoldsPool(h, s.tree, older + recent) && recent != []
    requires LeavesOlder(older, recent, events, window) && RollbacksReach(events, Pipeline.Height(recent[0]))
    requires s.tree.blocks[0].height <= Pipeline.Height(recent[0])
    requires UsualRun(older + recent, events) && EndToEnd.SmallBlocks(h, events)
    requires HonestRun(h, older + recent, events) && RoomForRun(Live(s.table), events, target)
    ensures HandleAll(h, s, events, target).Ok?
  {
    HonestRunIsHandled(h, s, older + recent, events, window, target);
  }

  /** THE RESULT, end to end and without a failure to assume away: an honest source, honest blocks and room
      in every bucket, and the server starts, handles every event, and tells the wallet the truth. */
  lemma HonestServerNeverStops(
    h: Hasher, st: Start, older: seq<ChainBlock>, recent: seq<ChainBlock>, events: seq<Pipeline.BlockEvent>,
    window: nat, nf: Hash, extra: seq<byte>, position: nat, w: Reconstruct.PirWitness)
    requires Sane(h) && HonestStart(h, st) && PreparedInRange(h, st) && RoomForStart(h, st)
    requires FollowedFrom(st, FirstLogged(h, st), older, recent, events, window) && EndToEnd.SmallBlocks(h, events)
    requires HonestRun(h, st.src.blocks, events) && nf != EMPTY
    requires SyncBoth(h, st).Ok? ==> RoomForRun(Live(SyncBoth(h, st).value.table), events, st.target)
    ensures SyncBoth(h, st).Ok? && HandleAll(h, SyncBoth(h, st).value, events, st.target).Ok?
    ensures var now, chain := HandleAll(h, SyncBoth(h, st).value, events, st.target).value, older + ApplyAll(recent, events);
      Mirrors(now, chain) &&
      (TreeSize(WitnessService.Published(now.tree)) <= TREE_CAPACITY ==>
         TruthfulAnswers(h, now, chain, nf, extra, position, w))
  {
    HonestStartSucceeds(h, st);
    var s := SyncBoth(h, st).value;
    StartEndsInStep(h, st);
    OlderBlocksStay(older, recent, events, window);
    LegalRunReaches(recent, events, window);
    FollowedIsHandled(h, s, older, recent, events, window, st.target);
    StoresStayInLockstep(h, s, older + recent, events, window, st.target);
    if TreeSize(WitnessService.Published(HandleAll(h, s, events, st.target).value.tree)) <= TREE_CAPACITY {
      FromStartToWallet(h, st, s, older, recent, events, window, nf, extra, position, w);
    }
  }
}
