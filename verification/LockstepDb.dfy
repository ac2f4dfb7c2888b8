/** The event loop of the combined server, changing both stores in place. Every method is proved against
    the value-level step of `Lockstep`, and a failing step leaves both stores as they were. */
module LockstepDb {
  import opened Prelude
  import opened Merkle
  import opened CommitmentTree
  import opened TreeHistory
  import opened TreeDb
  import opened ChainData
  import opened Bootstrap
  import Pipeline
  import opened Follower
  import opened NullifierTable
  import opened NullifierHistory
  import opened NullifierDb
  import opened NullifierLookup
  import opened Lockstep

  ghost function StoresOf(table: HashTableDb, tree: CommitmentTreeDb): Stores
    reads table, table.buckets, tree
  {
    Stores(table.View(), tree.View())
  }

  /** The commitments of a block the tree can take next. */
  method CheckForTree(block: ChainBlock, tree: CommitmentTreeDb) returns (r: Result<seq<Hash>, BootError>)
    ensures r.Err? ==> ApplyToTree(tree.hasher, tree.View(), block) == Err(r.error)
    ensures r.Ok? ==>
      && AllCanonical(tree.hasher, r.value)
      && ApplyToTree(tree.hasher, tree.View(), block)
      == Ok(Appended(tree.View(), Pipeline.Height(block), block.hash, r.value))
  {
    var commitments := ExtractCommitments(tree.hasher, block.block);
    if commitments.Err? {
      return Err(Parse(commitments.error));
    }
    var prior := PriorTreeSize(block.block, |commitments.value|);
    if prior.Err? {
      return Err(Parse(prior.error));
    }
    var size := tree.leafOffset + |tree.leaves|;
    if size != prior.value {
      return Err(TreeSizeMismatch(Pipeline.Height(block), prior.value, size));
    }
    r := Ok(commitments.value);
  }

  /** One block into the stores that are asked for; on failure neither changes. */
  method ApplyBlock(block: ChainBlock, table: HashTableDb, tree: CommitmentTreeDb, useTable: bool, useTree: bool)
    returns (r: Result<(), ServerError>)
    requires WellShaped(table.buckets[..]) && tree.Valid()
    modifies table, table.buckets, tree`leaves, tree`blocks, tree.ssRootCache
    ensures tree.Valid() && WellShaped(table.buckets[..])
    ensures r.Ok? ==> Applied(tree.hasher, old(StoresOf(table, tree)), block, useTable, useTree) == Ok(StoresOf(table, tree))
    ensures r.Err? ==> Applied(tree.hasher, old(StoresOf(table, tree)), block, useTable, useTree) == Err(r.error)
    ensures r.Err? ==> StoresOf(table, tree) == old(StoresOf(table, tree)) && tree.ssRootCache[..] == old(tree.ssRootCache[..])
  {
    var nullifiers := if useTable then ExtractNullifiers(block.block) else Ok([]);
    if nullifiers.Err? {
      return Err(BadBlock(nullifiers.error));
    }
    var commitments: Result<seq<Hash>, BootError> := Ok([]);
    if useTree {
      commitments := CheckForTree(block, tree);
      if commitments.Err? {
        return Err(TreeRefused(commitments.error));
      }
    }
    if useTable {
      var inserted := table.InsertBlock(Pipeline.Height(block), block.hash, nullifiers.value);
      if inserted.Err? {
        return Err(TableFull);
      }
    }
    if useTree {
      tree.AppendCommitments(Pipeline.Height(block), block.hash, commitments.value);
    }
    r := Ok(());
  }

  ghost predicate TipAbove(t: Table, to: nat) {
    TipOf(Live(t)).Some? && TipOf(Live(t)).value.0 > to
  }

  lemma PopNext(t: Table, to: nat)
    requires Sound(t) && TipAbove(t, to)
    ensures var (t', found) := RollbackOf(t, TipOf(Live(t)).value.1);
      found && PopAbove(t, to) == PopAbove(t', to) && |t'.heights| < |t.heights|
  {
    LiveOfAt(t.buckets, t.index, |t.index| - 1);
    PopOne(t);
  }

  lemma PopDone(t: Table, to: nat)
    requires Sound(t) && !TipAbove(t, to)
    ensures PopAbove(t, to) == (t, true)
  {
    if t.index != [] {
      LiveOfAt(t.buckets, t.index, |t.index| - 1);
    }
  }

  /** Takes blocks off the table's tip while they are above the target. */
  method RollTableBack(table: HashTableDb, to: nat) returns (found: bool)
    requires table.Valid()
    modifies table, table.buckets
    ensures table.Valid() && found && table.View() == PopAbove(old(table.View()), to).0
  {
    PopAboveSucceeds(table.View(), to);
    var tip := table.Latest();
    while tip.Some? && tip.value.0 > to
      modifies table, table.buckets
      invariant table.Valid() && tip == TipOf(Live(table.View()))
      invariant PopAbove(table.View(), to) == PopAbove(old(table.View()), to)
      decreases |table.heights|
    {
      PopNext(table.View(), to);
      var rolledBack := table.RollbackBlock(tip.value.1);
      if rolledBack.Err? {
        return false;
      }
      tip := table.Latest();
    }
    PopDone(table.View(), to);
    found := true;
  }

  /** One event of the loop. */
  method HandleEvent(
    e: Pipeline.BlockEvent, table: HashTableDb, tree: CommitmentTreeDb, target: nat, ghost chain: seq<ChainBlock>,
    ghost window: nat)
    returns (r: Result<(), ServerError>)
    requires table.Valid() && tree.Valid() && Mirrors(StoresOf(table, tree), chain) && Legal(chain, e, window)
    requires e.NewBlock? ==> Usual(chain, e.block)
    requires e.Reorg? ==> tree.blocks[0].height <= e.rollbackTo
    modifies table, table.buckets, tree`leaves, tree`blocks, tree.ssRootCache
    ensures table.Valid() && tree.Valid()
    ensures r.Ok? ==> Handle(tree.hasher, old(StoresOf(table, tree)), e, target) == Ok(StoresOf(table, tree))
    ensures r.Err? ==> Handle(tree.hasher, old(StoresOf(table, tree)), e, target) == Err(r.error)
    ensures r.Err? ==> StoresOf(table, tree) == old(StoresOf(table, tree))
  {
    match e
    case Reorg(to) =>
      PopAboveSucceeds(table.View(), to);
      var found := RollTableBack(table, to);
      tree.RollbackTo(to);
      r := Ok(());
    case NewBlock(b) =>
      r := AddBlock(b, table, tree, target, chain);
  }

  method AddBlock(b: ChainBlock, table: HashTableDb, tree: CommitmentTreeDb, target: nat, ghost chain: seq<ChainBlock>)
    returns (r: Result<(), ServerError>)
    requires table.Valid() && tree.Valid() && Mirrors(StoresOf(table, tree), chain)
    requires Pipeline.Height(b) == Pipeline.Height(chain[|chain| - 1]) + 1 && Usual(chain, b)
    modifies table, table.buckets, tree`leaves, tree`blocks, tree.ssRootCache
    ensures table.Valid() && tree.Valid()
    ensures r.Ok? ==>
      Handle(tree.hasher, old(StoresOf(table, tree)), Pipeline.NewBlock(b), target) == Ok(StoresOf(table, tree))
    ensures r.Err? ==> Handle(tree.hasher, old(StoresOf(table, tree)), Pipeline.NewBlock(b), target) == Err(r.error)
    ensures r.Err? ==> StoresOf(table, tree) == old(StoresOf(table, tree))
  {
    ghost var t := table.View();
    r := ApplyBlock(b, table, tree, true, true);
    if r.Ok? {
      InsertedIsSound(t, chain, b);
      table.EvictToTarget(target);
    }
  }

  lemma InsertedIsSound(t: Table, chain: seq<ChainBlock>, b: ChainBlock)
    requires Sound(t) && chain != [] && Pipeline.Linked(chain) && LiveMirrors(Live(t), chain)
    requires Pipeline.Height(b) == Pipeline.Height(chain[|chain| - 1]) + 1 && Usual(chain, b)
    requires ExtractNullifiers(b.block).Ok? && HasRoom(t, ExtractNullifiers(b.block).value)
    ensures Sound(Step(t, InsertBlock(Pipeline.Height(b), b.hash, ExtractNullifiers(b.block).value)))
  {
    NextIsInsertable(Live(t), chain, b, ExtractNullifiers(b.block).value);
    InsertKeepsSound(t, Pipeline.Height(b), b.hash, ExtractNullifiers(b.block).value);
  }

  /** What both stores serve after an event. */
  datatype Datasets = Datasets(nullifierRows: seq<byte>, witnessRows: seq<byte>, broadcast: Broadcast)

  /** The datasets are those of the stores, published for an anchor height. */
  ghost predicate ServesStores(d: Datasets, table: HashTableDb, tree: CommitmentTreeDb, anchor: nat)
    reads table, table.buckets, tree
  {
    && d.nullifierRows == ToPirBytes(table.buckets[..])
    && d.witnessRows == Database(tree.hasher, tree.View())
    && d.broadcast == BroadcastOf(tree.hasher, tree.View(), anchor) && d.broadcast.anchorHeight == anchor
  }

  method RebuildBoth(table: HashTableDb, tree: CommitmentTreeDb) returns (d: Datasets)
    requires tree.Valid() && Aligned(tree.View())
    modifies tree.ssRootCache
    ensures tree.Valid() && ServesStores(d, table, tree, AnchorHeight(tree.View()))
  {
    var anchorHeight := if tree.blocks == [] then 0 else tree.blocks[|tree.blocks| - 1].height;
    var rows, broadcast := tree.BuildPirDbAndBroadcast(anchorHeight);
    d := Datasets(ToPirBytes(table.buckets[..]), rows, broadcast);
  }

  lemma {:induction false} UsualRunPrefix(chain: seq<ChainBlock>, events: seq<Pipeline.BlockEvent>, n: nat)
    requires UsualRun(chain, events) && n <= |events|
    ensures UsualRun(chain, events[..n])
    decreases |events|
  {
    if n < |events| {
      UsualRunPrefix(chain, events[..|events| - 1], n);
      assert events[..|events| - 1][..n] == events[..n];
    } else {
      assert events[..n] == events;
    }
  }

  /** A run of follower events the stores can be held to. */
  ghost predicate LockstepRun(s: Stores, chain: seq<ChainBlock>, events: seq<Pipeline.BlockEvent>, window: nat) {
    && Mirrors(s, chain) && LegalRun(chain, events, window) && UsualRun(chain, events)
    && RollbacksReach(events, s.tree.blocks[0].height)
  }

  /** `now` is where the first `n` events lead, and it mirrors the chain they describe. */
  ghost predicate Reached(
    h: Hasher, s: Stores, chain: seq<ChainBlock>, events: seq<Pipeline.BlockEvent>, target: nat, n: nat, now: Stores)
    requires n <= |events|
  {
    HandleAll(h, s, events[..n], target) == Ok(now) && Mirrors(now, ApplyAll(chain, events[..n]))
  }

  /** Event `i` of a run, as the chain built so far sees it. */
  lemma NextIsUsual(s: Stores, chain: seq<ChainBlock>, events: seq<Pipeline.BlockEvent>, window: nat, i: nat)
    requires LockstepRun(s, chain, events, window) && i < |events|
    ensures Legal(ApplyAll(chain, events[..i]), events[i], window)
    ensures events[i].NewBlock? ==> Usual(ApplyAll(chain, events[..i]), events[i].block)
    ensures LegalRun(chain, events[..i], window) && UsualRun(chain, events[..i])
  {
    assert events[..i + 1][..i] == events[..i];
    LegalRunPrefix(chain, events, window, i + 1);
    UsualRunPrefix(chain, events, i + 1);
  }

  lemma FirstLoggedStays(
    h: Hasher, s: Stores, chain: seq<ChainBlock>, events: seq<Pipeline.BlockEvent>, window: nat, target: nat, i: nat,
    before: Stores)
    requires LockstepRun(s, chain, events, window) && i <= |events|
    requires LegalRun(chain, events[..i], window) && UsualRun(chain, events[..i])
    requires Reached(h, s, chain, events, target, i, before)
    ensures before.tree.blocks != [] && before.tree.blocks[0] == s.tree.blocks[0]
  {
    StoresStayInLockstep(h, s, chain, events[..i], window, target);
  }

  /** What event `i` of a run may rely on. */
  lemma NextEvent(
    h: Hasher, s: Stores, chain: seq<ChainBlock>, events: seq<Pipeline.BlockEvent>, window: nat, target: nat, i: nat,
    before: Stores)
    requires LockstepRun(s, chain, events, window) && i < |events|
    requires Reached(h, s, chain, events, target, i, before)
    ensures Legal(ApplyAll(chain, events[..i]), events[i], window)
    ensures events[i].NewBlock? ==> Usual(ApplyAll(chain, events[..i]), events[i].block)
    ensures events[i].Reorg? ==>
      before.tree.blocks[0].height <= events[i].rollbackTo && Handle(h, before, events[i], target).Ok?
  {
    NextIsUsual(s, chain, events, window, i);
    FirstLoggedStays(h, s, chain, events, window, target, i, before);
    if events[i].Reorg? {
      ReorgKeepsMirrors(h, before, ApplyAll(chain, events[..i]), events[i].rollbackTo, target);
    }
  }

  lemma ReachedNext(
    h: Hasher, s: Stores, chain: seq<ChainBlock>, events: seq<Pipeline.BlockEvent>, window: nat, target: nat, i: nat,
    before: Stores, after: Stores)
    requires LockstepRun(s, chain, events, window) && i < |events|
    requires Reached(h, s, chain, events, target, i, before)
    requires Handle(h, before, events[i], target) == Ok(after)
    ensures Reached(h, s, chain, events, target, i + 1, after)
    ensures AnchorHeight(after.tree) == TipHeight(ApplyAll(chain, events[..i + 1]))
  {
    assert events[..i + 1][..i] == events[..i];
    LegalRunPrefix(chain, events, window, i + 1);
    UsualRunPrefix(chain, events, i + 1);
    StoresStayInLockstep(h, s, chain, events[..i + 1], window, target);
    AnchorIsTip(after, ApplyAll(chain, events[..i + 1]));
  }

  lemma {:induction false} HandledPrefix(
    h: Hasher, s: Stores, events: seq<Pipeline.BlockEvent>, target: nat, n: nat)
    requires n <= |events| && HandleAll(h, s, events, target).Ok?
    ensures HandleAll(h, s, events[..n], target).Ok?
    decreases |events|
  {
    if n < |events| {
      HandledPrefix(h, s, events[..|events| - 1], target, n);
      assert events[..|events| - 1][..n] == events[..n];
    } else {
      assert events[..n] == events;
    }
  }

  lemma NotAllHandled(h: Hasher, s: Stores, events: seq<Pipeline.BlockEvent>, target: nat, n: nat, before: Stores)
    requires n < |events| && HandleAll(h, s, events[..n], target) == Ok(before) && Handle(h, before, events[n], target).Err?
    ensures HandleAll(h, s, events, target).Err?
  {
    assert events[..n + 1][..n] == events[..n];
    if HandleAll(h, s, events, target).Ok? {
      HandledPrefix(h, s, events, target, n + 1);
    }
  }

  /** One event, then both datasets anew. */
  method ServeEvent(
    e: Pipeline.BlockEvent, table: HashTableDb, tree: CommitmentTreeDb, target: nat, ghost chain: seq<ChainBlock>,
    ghost window: nat)
    returns (r: Result<Datasets, ServerError>)
    requires table.Valid() && tree.Valid() && Aligned(tree.View()) && Mirrors(StoresOf(table, tree), chain)
    requires Legal(chain, e, window)
    requires e.NewBlock? ==> Usual(chain, e.block)
    requires e.Reorg? ==> tree.blocks[0].height <= e.rollbackTo
    modifies table, table.buckets, tree`leaves, tree`blocks, tree.ssRootCache
    ensures table.Valid() && tree.Valid()
    ensures r.Ok? ==>
      && Handle(tree.hasher, old(StoresOf(table, tree)), e, target) == Ok(StoresOf(table, tree))
      && ServesStores(r.value, table, tree, AnchorHeight(tree.View()))
    ensures r.Err? ==>
      && Handle(tree.hasher, old(StoresOf(table, tree)), e, target) == Err(r.error)
      && StoresOf(table, tree) == old(StoresOf(table, tree))
  {
    var handled := HandleEvent(e, table, tree, target, chain, window);
    if handled.Err? {
      return Err(handled.error);
    }
    var rebuilt := RebuildBoth(table, tree);
    r := Ok(rebuilt);
  }

  /** The event loop: after every event both datasets are rebuilt from the stores. It stops at the first
      block it cannot apply, with the stores as they were before that block. */
  method RunServer(
    events: seq<Pipeline.BlockEvent>, table: HashTableDb, tree: CommitmentTreeDb, target: nat,
    ghost chain: seq<ChainBlock>, ghost window: nat)
    returns (served: Option<Datasets>, handled: nat)
    requires table.Valid() && tree.Valid() && Aligned(tree.View())
    requires LockstepRun(StoresOf(table, tree), chain, events, window)
    modifies table, table.buckets, tree`leaves, tree`blocks, tree.ssRootCache
    ensures table.Valid() && tree.Valid() && handled <= |events|
    ensures Reached(tree.hasher, old(StoresOf(table, tree)), chain, events, target, handled, StoresOf(table, tree))
    ensures handled < |events| ==>
      && events[handled].NewBlock?
      && Handle(tree.hasher, StoresOf(table, tree), events[handled], target).Err?
    ensures HandleAll(tree.hasher, old(StoresOf(table, tree)), events, target).Ok? ==> handled == |events|
    ensures served.Some? <==> handled > 0
    ensures served.Some? ==> ServesStores(served.value, table, tree, TipHeight(ApplyAll(chain, events[..handled])))
  {
    ghost var s, h := StoresOf(table, tree), tree.hasher;
    served, handled := None, 0;
    assert events[..0] == [];
    while handled < |events|
      modifies table, table.buckets, tree`leaves, tree`blocks, tree.ssRootCache
      invariant handled <= |events|
      invariant table.Valid() && tree.Valid()
      invariant Reached(h, s, chain, events, target, handled, StoresOf(table, tree))
      invariant served.Some? <==> handled > 0
      invariant served.Some? ==> ServesStores(served.value, table, tree, TipHeight(ApplyAll(chain, events[..handled])))
    {
      ghost var before := StoresOf(table, tree);
      NextEvent(h, s, chain, events, window, target, handled, before);
      var r := ServeEvent(events[handled], table, tree, target, ApplyAll(chain, events[..handled]), window);
      if r.Err? {
        NotAllHandled(h, s, events, target, handled, before);
        return;
      }
      ReachedNext(h, s, chain, events, window, target, handled, before, StoresOf(table, tree));
      served, handled := Some(r.value), handled + 1;
    }
  }
}
