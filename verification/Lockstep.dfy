/** The consumer of follower events: one nullifier table and one commitment tree kept in step. */
module Lockstep {
  import opened Prelude
  import opened Merkle
  import opened CommitmentTree
  import opened TreeHistory
  import opened ChainData
  import opened Bootstrap
  import Pipeline
  import opened Follower
  import opened NullifierTable
  import opened NullifierHistory

  type ChainBlock = ValidatedBlock

  datatype Stores = Stores(table: Table, tree: Contents)

  datatype ServerError = BadBlock(error: ParseError) | TreeRefused(reason: BootError) | TableFull | LostBlock

  ghost predicate HasRoom(t: Table, nfs: seq<Hash>) {
    WellShaped(t.buckets) && Fits(t.buckets, nfs)
  }

  /** One block into both stores, or into the one that is behind: every check comes before the first change. */
  ghost function Applied(h: Hasher, s: Stores, b: ChainBlock, useTable: bool, useTree: bool): Result<Stores, ServerError> {
    match if useTable then ExtractNullifiers(b.block) else Ok([])
    case Err(e) => Err(BadBlock(e))
    case Ok(nfs) =>
      match if useTree then ApplyToTree(h, s.tree, b) else Ok(s.tree)
      case Err(e) => Err(TreeRefused(e))
      case Ok(tree) =>
        if useTable && !HasRoom(s.table, nfs) then Err(TableFull)
        else Ok(Stores(if useTable then Step(s.table, InsertBlock(Pipeline.Height(b), b.hash, nfs)) else s.table, tree))
  }

  /** Rolling the table back block by block from its tip; false when a block could not be found. */
  function PopAbove(t: Table, to: nat): (Table, bool)
    decreases |t.heights|
  {
    if t.index == [] || t.index[|t.index| - 1].height <= to then (t, true)
    else
      var (t', found) := RollbackOf(t, t.index[|t.index| - 1].hash);
      if found then PopAbove(t', to) else (t', false)
  }

  ghost function Handle(h: Hasher, s: Stores, e: Pipeline.BlockEvent, target: nat): Result<Stores, ServerError> {
    match e
    case Reorg(to) =>
      var (table, found) := PopAbove(s.table, to);
      if found then Ok(Stores(table, RolledBack(s.tree, to))) else Err(LostBlock)
    case NewBlock(b) =>
      match Applied(h, s, b, true, true)
      case Err(error) => Err(error)
      case Ok(s') => Ok(s'.(table := EvictToOf(s'.table, target)))
  }

  ghost function HandleAll(h: Hasher, s: Stores, events: seq<Pipeline.BlockEvent>, target: nat): Result<Stores, ServerError>
    decreases |events|
  {
    if events == [] then Ok(s)
    else
      match HandleAll(h, s, events[..|events| - 1], target)
      case Err(error) => Err(error)
      case Ok(s') => Handle(h, s', events[|events| - 1], target)
  }

  /** The anchor height the server publishes: that of the newest logged block. */
  function AnchorHeight(c: Contents): nat {
    if c.blocks == [] then 0 else c.blocks[|c.blocks| - 1].height
  }

  // ── Agreement of the stores ────────────────────────────────────────

  /** The tree's log is the newest part of the chain. */
  ghost predicate TreeMirrors(blocks: seq<CommitmentTree.BlockRecord>, chain: seq<ChainBlock>) {
    && 0 < |blocks| <= |chain|
    && forall i :: 0 <= i < |blocks| ==>
         var b := chain[|chain| - |blocks| + i];
         blocks[i].height == Pipeline.Height(b) && blocks[i].hash == b.hash
  }

  /** A live block is a block of the chain with all its nullifiers. */
  predicate IsLiveBlock(block: LiveBlock, b: ChainBlock) {
    && block.height == Pipeline.Height(b) && block.hash == b.hash
    && ExtractNullifiers(b.block) == Ok(block.nullifiers)
  }

  /** The table's blocks are the newest part of the chain, possibly none of it. */
  ghost predicate LiveMirrors(live: seq<LiveBlock>, chain: seq<ChainBlock>) {
    && |live| <= |chain|
    && forall i :: 0 <= i < |live| ==> IsLiveBlock(live[i], chain[|chain| - |live| + i])
  }

  ghost predicate Mirrors(s: Stores, chain: seq<ChainBlock>) {
    && chain != [] && Pipeline.Linked(chain)
    && TreeMirrors(s.tree.blocks, chain)
    && LiveMirrors(Live(s.table), chain)
    && Sound(s.table)
  }

  /** What mirroring one chain means for the two stores themselves. */
  lemma StoresAgree(s: Stores, chain: seq<ChainBlock>)
    requires Mirrors(s, chain)
    ensures forall i, k :: 0 <= i < |s.tree.blocks| && 0 <= k < |Live(s.table)| ==>
      s.tree.blocks[i].height == Live(s.table)[k].height ==> s.tree.blocks[i].hash == Live(s.table)[k].hash
    ensures Live(s.table) != [] ==>
      var tip, top := s.tree.blocks[|s.tree.blocks| - 1], Live(s.table)[|Live(s.table)| - 1];
      top.height == tip.height && top.hash == tip.hash
  {
  }

  /** The anchor height the server publishes is that of the chain's last block. */
  lemma AnchorIsTip(s: Stores, chain: seq<ChainBlock>)
    requires Mirrors(s, chain)
    ensures AnchorHeight(s.tree) == TipHeight(chain)
  {
  }

  /** One of the block's transactions has an Ironwood action with these nullifier bytes. */
  ghost predicate CarriesNullifier(b: ChainBlock, nf: Hash) {
    exists t: nat, k: nat :: HasAction(b.block.txs, t, k) && b.block.txs[t].ironwoodActions[k].nullifier == nf.bytes
  }

  /** A block that could be read carries exactly the nullifiers read from it. */
  lemma ReadIffCarried(b: ChainBlock, nfs: seq<Hash>, nf: Hash)
    requires ExtractNullifiers(b.block) == Ok(nfs)
    ensures nf in nfs <==> CarriesNullifier(b, nf)
  {
    var txs := b.block.txs;
    ExtractNullifiersIff(b.block, nfs);
    if nf in nfs {
      var i :| 0 <= i < |nfs| && nfs[i] == nf;
      ActionsCount(txs);
      var t, k := ActionOf(txs, i);
      assert nfs[Position(txs, t, k)].bytes == txs[t].ironwoodActions[k].nullifier;
    }
    if CarriesNullifier(b, nf) {
      var t: nat, k: nat :| HasAction(txs, t, k) && txs[t].ironwoodActions[k].nullifier == nf.bytes;
      assert nfs[Position(txs, t, k)] == nf;
    }
  }

  /** One of the newest `n` blocks of the chain carries the nullifier. */
  ghost predicate CarriedByNewest(chain: seq<ChainBlock>, n: nat, nf: Hash)
    requires n <= |chain|
  {
    exists i :: |chain| - n <= i < |chain| && CarriesNullifier(chain[i], nf)
  }

  /** What the table's blocks carry is what the newest blocks of the chain carry. */
  lemma LiveCarriesIffChain(live: seq<LiveBlock>, chain: seq<ChainBlock>, nf: Hash)
    requires LiveMirrors(live, chain)
    ensures Carried(live, nf) <==> CarriedByNewest(chain, |live|, nf)
  {
    var first := |chain| - |live|;
    if Carried(live, nf) {
      var k :| 0 <= k < |live| && nf in live[k].nullifiers;
      assert IsLiveBlock(live[k], chain[first + k]);
      ReadIffCarried(chain[first + k], live[k].nullifiers, nf);
    }
    if CarriedByNewest(chain, |live|, nf) {
      var i :| first <= i < |chain| && CarriesNullifier(chain[i], nf);
      assert IsLiveBlock(live[i - first], chain[first + (i - first)]);
      ReadIffCarried(chain[i], live[i - first].nullifiers, nf);
    }
  }

  // ── Rolling back ───────────────────────────────────────────────────

  function DropLive(live: seq<LiveBlock>, to: nat): seq<LiveBlock>
    decreases |live|
  {
    if live != [] && live[|live| - 1].height > to then DropLive(live[..|live| - 1], to) else live
  }

  lemma {:induction false} WithoutLast(live: seq<LiveBlock>, hash: Hash)
    requires live != [] && live[|live| - 1].hash == hash
    requires forall k :: 0 <= k < |live| - 1 ==> live[k].hash != hash
    ensures WithoutHash(live, hash) == live[..|live| - 1]
  {
    WithoutAbsent(live[..|live| - 1], hash);
  }

  lemma PopOne(t: Table)
    requires Sound(t) && t.index != []
    ensures var (t', found) := RollbackOf(t, t.index[|t.index| - 1].hash);
      found && Sound(t') && Live(t') == Live(t)[..|t.index| - 1]
  {
    var n := |t.index| - 1;
    RollbackKeepsSound(t, t.index[n].hash);
    LiveOfAt(t.buckets, t.index, n);
    assert Live(t)[n].hash == t.index[n].hash;
    forall k | 0 <= k < n
      ensures Live(t)[k].hash != t.index[n].hash
    {
      HashesDistinct(t, k, n);
    }
    WithoutLast(Live(t), t.index[n].hash);
  }

  /** The rollback loop ends without an error, having popped exactly the blocks above the target. */
  lemma {:induction false} PopAboveSucceeds(t: Table, to: nat)
    requires Sound(t)
    ensures PopAbove(t, to).1
    ensures Sound(PopAbove(t, to).0) && Live(PopAbove(t, to).0) == DropLive(Live(t), to)
    decreases |t.heights|
  {
    if t.index != [] {
      LiveOfAt(t.buckets, t.index, |t.index| - 1);
      if t.index[|t.index| - 1].height > to {
        PopOne(t);
        PopAboveSucceeds(RollbackOf(t, t.index[|t.index| - 1].hash).0, to);
      }
    }
  }

  lemma {:induction false} LiveDropsWithChain(live: seq<LiveBlock>, chain: seq<ChainBlock>, to: nat)
    requires LiveMirrors(live, chain)
    ensures LiveMirrors(DropLive(live, to), KeepUpTo(chain, to))
    decreases |chain|
  {
    if chain != [] && Pipeline.Height(chain[|chain| - 1]) > to {
      LiveDropsWithChain(if live == [] then [] else live[..|live| - 1], chain[..|chain| - 1], to);
    }
  }

  lemma {:induction false} TreeDropsWithChain(blocks: seq<CommitmentTree.BlockRecord>, chain: seq<ChainBlock>, to: nat)
    requires TreeMirrors(blocks, chain) && blocks[0].height <= to
    ensures TreeMirrors(Kept(blocks, to), KeepUpTo(chain, to)) && Kept(blocks, to)[0] == blocks[0]
    decreases |chain|
  {
    if Pipeline.Height(chain[|chain| - 1]) > to {
      TreeDropsWithChain(blocks[..|blocks| - 1], chain[..|chain| - 1], to);
    }
  }

  lemma ReorgKeepsMirrors(h: Hasher, s: Stores, chain: seq<ChainBlock>, to: nat, target: nat)
    requires Mirrors(s, chain) && s.tree.blocks[0].height <= to
    ensures var r := Handle(h, s, Pipeline.Reorg(to), target);
      r.Ok? && Mirrors(r.value, KeepUpTo(chain, to)) && r.value.tree.blocks[0] == s.tree.blocks[0]
  {
    PopAboveSucceeds(s.table, to);
    LiveDropsWithChain(Live(s.table), chain, to);
    TreeDropsWithChain(s.tree.blocks, chain, to);
  }

  // ── Growing ────────────────────────────────────────────────────────

  /** The block's hash is new to the chain and none of its nullifiers is the all-zero sentinel. */
  ghost predicate Usual(chain: seq<ChainBlock>, b: ChainBlock) {
    && (forall i :: 0 <= i < |chain| ==> chain[i].hash != b.hash)
    && (ExtractNullifiers(b.block).Ok? ==> EMPTY !in ExtractNullifiers(b.block).value)
  }

  lemma {:induction false} NewestMirrors(live: seq<LiveBlock>, chain: seq<ChainBlock>, target: nat)
    requires LiveMirrors(live, chain)
    ensures LiveMirrors(Newest(live, target), chain)
  {
    if live != [] {
      OldestGone(live, chain);
      NewestMirrors(live[1..], chain, target);
    }
  }

  lemma OldestGone(live: seq<LiveBlock>, chain: seq<ChainBlock>)
    requires live != [] && LiveMirrors(live, chain)
    ensures LiveMirrors(live[1..], chain)
  {
  }

  lemma NextIsInsertable(live: seq<LiveBlock>, chain: seq<ChainBlock>, b: ChainBlock, nfs: seq<Hash>)
    requires Pipeline.Linked(chain) && chain != [] && LiveMirrors(live, chain)
    requires Pipeline.Height(b) == Pipeline.Height(chain[|chain| - 1]) + 1
    requires EMPTY !in nfs && forall i :: 0 <= i < |chain| ==> chain[i].hash != b.hash
    ensures Insertable(live, Pipeline.Height(b), b.hash, nfs)
  {
  }

  lemma NextMirrors(live: seq<LiveBlock>, chain: seq<ChainBlock>, b: ChainBlock, nfs: seq<Hash>)
    requires Pipeline.Linked(chain) && chain != [] && LiveMirrors(live, chain)
    requires Pipeline.Height(b) == Pipeline.Height(chain[|chain| - 1]) + 1 && ExtractNullifiers(b.block) == Ok(nfs)
    ensures LiveMirrors(PutBlock(live, LiveBlock(Pipeline.Height(b), b.hash, nfs)), chain + [b])
  {
  }

  lemma TableGrows(t: Table, chain: seq<ChainBlock>, b: ChainBlock, nfs: seq<Hash>, target: nat)
    requires Sound(t) && LiveMirrors(PutBlock(Live(t), LiveBlock(Pipeline.Height(b), b.hash, nfs)), chain)
    requires Insertable(Live(t), Pipeline.Height(b), b.hash, nfs) && HasRoom(t, nfs)
    ensures var t' := EvictToOf(Step(t, InsertBlock(Pipeline.Height(b), b.hash, nfs)), target);
      Sound(t') && LiveMirrors(Live(t'), chain)
  {
    InsertKeepsSound(t, Pipeline.Height(b), b.hash, nfs);
    EvictToKeepsSound(Step(t, InsertBlock(Pipeline.Height(b), b.hash, nfs)), target);
    NewestMirrors(PutBlock(Live(t), LiveBlock(Pipeline.Height(b), b.hash, nfs)), chain, target);
  }

  lemma TreeGrows(h: Hasher, c: Contents, chain: seq<ChainBlock>, b: ChainBlock)
    requires TreeMirrors(c.blocks, chain) && ApplyToTree(h, c, b).Ok?
    ensures TreeMirrors(ApplyToTree(h, c, b).value.blocks, chain + [b])
    ensures ApplyToTree(h, c, b).value.blocks[0] == c.blocks[0]
  {
  }

  lemma NextIsLinked(chain: seq<ChainBlock>, b: ChainBlock, window: nat)
    requires chain != [] && Pipeline.Linked(chain) && Legal(chain, Pipeline.NewBlock(b), window)
    ensures Pipeline.Linked(chain + [b])
  {
  }

  /** What one applied block makes of the two stores. */
  lemma HandleNewBlock(h: Hasher, s: Stores, b: ChainBlock, target: nat)
    requires Handle(h, s, Pipeline.NewBlock(b), target).Ok?
    ensures ExtractNullifiers(b.block).Ok? && ApplyToTree(h, s.tree, b).Ok?
    ensures HasRoom(s.table, ExtractNullifiers(b.block).value)
    ensures Handle(h, s, Pipeline.NewBlock(b), target).value.tree == ApplyToTree(h, s.tree, b).value
    ensures Handle(h, s, Pipeline.NewBlock(b), target).value.table ==
      EvictToOf(Step(s.table, InsertBlock(Pipeline.Height(b), b.hash, ExtractNullifiers(b.block).value)), target)
  {
  }

  lemma NewBlockKeepsMirrors(h: Hasher, s: Stores, chain: seq<ChainBlock>, b: ChainBlock, window: nat, target: nat)
    requires Mirrors(s, chain) && Legal(chain, Pipeline.NewBlock(b), window) && Usual(chain, b)
    ensures var r := Handle(h, s, Pipeline.NewBlock(b), target);
      r.Ok? ==> Mirrors(r.value, chain + [b]) && r.value.tree.blocks[0] == s.tree.blocks[0]
  {
    var r := Handle(h, s, Pipeline.NewBlock(b), target);
    if r.Ok? {
      HandleNewBlock(h, s, b, target);
      var nfs := ExtractNullifiers(b.block).value;
      NextIsLinked(chain, b, window);
      NextIsInsertable(Live(s.table), chain, b, nfs);
      NextMirrors(Live(s.table), chain, b, nfs);
      TableGrows(s.table, chain + [b], b, nfs, target);
      TreeGrows(h, s.tree, chain, b);
    }
  }

  // ── Runs ───────────────────────────────────────────────────────────

  ghost predicate UsualRun(chain: seq<ChainBlock>, events: seq<Pipeline.BlockEvent>)
    decreases |events|
  {
    events == [] ||
    (var n := |events| - 1;
     UsualRun(chain, events[..n]) && (events[n].NewBlock? ==> Usual(ApplyAll(chain, events[..n]), events[n].block)))
  }

  ghost predicate RollbacksReach(events: seq<Pipeline.BlockEvent>, lowest: nat) {
    forall i :: 0 <= i < |events| && events[i].Reorg? ==> lowest <= events[i].rollbackTo
  }

  /** The first event at which the server gives up, if it does, is a block it cannot apply. */
  ghost predicate FailsOnBlock(h: Hasher, s: Stores, events: seq<Pipeline.BlockEvent>, target: nat) {
    exists n ::
      && 0 <= n < |events| && events[n].NewBlock?
      && HandleAll(h, s, events[..n], target).Ok?
      && Applied(h, HandleAll(h, s, events[..n], target).value, events[n].block, true, true).Err?
  }

  /** THE RESULT. Over any run of follower events whose rollbacks stay within the tree's log, the two
      stores keep mirroring the one chain the events describe; only a new block can fail. */
  lemma {:induction false} StoresStayInLockstep(
    h: Hasher, s: Stores, chain: seq<ChainBlock>, events: seq<Pipeline.BlockEvent>, window: nat, target: nat)
    requires Mirrors(s, chain) && LegalRun(chain, events, window) && UsualRun(chain, events)
    requires RollbacksReach(events, s.tree.blocks[0].height)
    ensures var r := HandleAll(h, s, events, target);
      if r.Ok? then Mirrors(r.value, ApplyAll(chain, events)) && r.value.tree.blocks[0] == s.tree.blocks[0]
      else FailsOnBlock(h, s, events, target)
    decreases |events|
  {
    if events != [] {
      var n := |events| - 1;
      StoresStayInLockstep(h, s, chain, events[..n], window, target);
      var before := HandleAll(h, s, events[..n], target);
      if before.Ok? {
        match events[n]
        case Reorg(to) => ReorgKeepsMirrors(h, before.value, ApplyAll(chain, events[..n]), to, target);
        case NewBlock(b) => NewBlockKeepsMirrors(h, before.value, ApplyAll(chain, events[..n]), b, window, target);
      } else {
        FailureIsFinal(h, s, events, target);
      }
    }
  }

  lemma FailureIsFinal(h: Hasher, s: Stores, events: seq<Pipeline.BlockEvent>, target: nat)
    requires events != [] && FailsOnBlock(h, s, events[..|events| - 1], target)
    ensures FailsOnBlock(h, s, events, target)
  {
    var front := events[..|events| - 1];
    var n :| 0 <= n < |front| && front[n].NewBlock?
      && HandleAll(h, s, front[..n], target).Ok?
      && Applied(h, HandleAll(h, s, front[..n], target).value, front[n].block, true, true).Err?;
    assert front[..n] == events[..n];
  }

  // ── The blocks held, from the events alone ─────────────────────────

  /** The held blocks after an event: the newest within the target after a block, those up to it after a rollback. */
  function HeldAfter(live: seq<LiveBlock>, e: Pipeline.BlockEvent, target: nat): seq<LiveBlock> {
    match e
    case Reorg(to) => DropLive(live, to)
    case NewBlock(b) =>
      var r := ExtractNullifiers(b.block);
      if r.Ok? then Newest(live + [LiveBlock(Pipeline.Height(b), b.hash, r.value)], target) else live
  }

  function HeldAfterAll(live: seq<LiveBlock>, events: seq<Pipeline.BlockEvent>, target: nat): seq<LiveBlock>
    decreases |events|
  {
    if events == [] then live else HeldAfter(HeldAfterAll(live, events[..|events| - 1], target), events[|events| - 1], target)
  }

  lemma EventDecidesHeld(h: Hasher, s: Stores, chain: seq<ChainBlock>, e: Pipeline.BlockEvent, window: nat, target: nat)
    requires Mirrors(s, chain) && Legal(chain, e, window) && (e.NewBlock? ==> Usual(chain, e.block))
    requires Handle(h, s, e, target).Ok?
    ensures Live(Handle(h, s, e, target).value.table) == HeldAfter(Live(s.table), e, target)
  {
    match e
    case Reorg(to) => PopAboveSucceeds(s.table, to);
    case NewBlock(b) =>
      HandleNewBlock(h, s, b, target);
      var nfs := ExtractNullifiers(b.block).value;
      NextIsInsertable(Live(s.table), chain, b, nfs);
      InsertKeepsSound(s.table, Pipeline.Height(b), b.hash, nfs);
      NextIsLast(Live(s.table), chain, b, nfs);
      EvictToKeepsSound(Step(s.table, InsertBlock(Pipeline.Height(b), b.hash, nfs)), target);
  }

  lemma NextIsLast(live: seq<LiveBlock>, chain: seq<ChainBlock>, b: ChainBlock, nfs: seq<Hash>)
    requires chain != [] && LiveMirrors(live, chain) && Pipeline.Height(b) == Pipeline.Height(chain[|chain| - 1]) + 1
    ensures PutBlock(live, LiveBlock(Pipeline.Height(b), b.hash, nfs)) == live + [LiveBlock(Pipeline.Height(b), b.hash, nfs)]
  {
  }

  /** The table's content is a function of the events: which blocks it holds never depends on its cells. */
  lemma {:induction false} EventsDecideHeld(
    h: Hasher, s: Stores, chain: seq<ChainBlock>, events: seq<Pipeline.BlockEvent>, window: nat, target: nat)
    requires Mirrors(s, chain) && LegalRun(chain, events, window) && UsualRun(chain, events)
    requires RollbacksReach(events, s.tree.blocks[0].height) && HandleAll(h, s, events, target).Ok?
    ensures Live(HandleAll(h, s, events, target).value.table) == HeldAfterAll(Live(s.table), events, target)
    decreases |events|
  {
    if events != [] {
      var n := |events| - 1;
      EventsDecideHeld(h, s, chain, events[..n], window, target);
      StoresStayInLockstep(h, s, chain, events[..n], window, target);
      EventDecidesHeld(h, HandleAll(h, s, events[..n], target).value, ApplyAll(chain, events[..n]), events[n], window, target);
    }
  }

  // ── With the follower ──────────────────────────────────────────────

  /** A run against a longer chain: legal, out of reach of the older blocks, and leaving them alone. */
  ghost predicate LeavesOlder(older: seq<ChainBlock>, recent: seq<ChainBlock>, events: seq<Pipeline.BlockEvent>, window: nat)
    requires recent != []
  {
    && ApplyAll(older + recent, events) == older + ApplyAll(recent, events)
    && LegalRun(older + recent, events, window)
  }

  lemma {:induction false} OlderBlocksStay(
    older: seq<ChainBlock>, recent: seq<ChainBlock>, events: seq<Pipeline.BlockEvent>, window: nat)
    requires recent != [] && Pipeline.Linked(older + recent) && Pipeline.Linked(recent) && LegalRun(recent, events, window)
    ensures LeavesOlder(older, recent, events, window)
    decreases |events|
  {
    if events != [] {
      var n := |events| - 1;
      OlderBlocksStay(older, recent, events[..n], window);
      LegalRunKeepsLinked(recent, events[..n], window);
      OlderBlocksStayOnce(older, recent, ApplyAll(recent, events[..n]), events[n], window);
      OlderBlocksStayNext(older, recent, events, n, window);
    }
  }

  lemma OlderBlocksStayNext(
    older: seq<ChainBlock>, recent: seq<ChainBlock>, events: seq<Pipeline.BlockEvent>, n: nat, window: nat)
    requires recent != [] && |events| == n + 1
    requires LeavesOlder(older, recent, events[..n], window)
    requires var now := ApplyAll(recent, events[..n]);
      && now != [] && now[0] == recent[0] && Legal(now, events[n], window)
      && Apply(older + now, events[n]) == older + Apply(now, events[n])
      && Legal(older + now, events[n], window)
    ensures LeavesOlder(older, recent, events, window)
  {
  }

  lemma ReachNext(events: seq<Pipeline.BlockEvent>, n: nat, lowest: nat)
    requires |events| == n + 1 && RollbacksReach(events[..n], lowest)
    requires events[n].Reorg? ==> lowest <= events[n].rollbackTo
    ensures RollbacksReach(events, lowest)
  {
    forall i | 0 <= i < n && events[i].Reorg?
      ensures lowest <= events[i].rollbackTo
    {
      assert events[..n][i] == events[i];
    }
  }

  /** No legal run rolls back below the block it started with. */
  lemma {:induction false} LegalRunReaches(recent: seq<ChainBlock>, events: seq<Pipeline.BlockEvent>, window: nat)
    requires recent != [] && Pipeline.Linked(recent) && LegalRun(recent, events, window)
    ensures RollbacksReach(events, Pipeline.Height(recent[0]))
    decreases |events|
  {
    if events != [] {
      var n := |events| - 1;
      LegalRunReaches(recent, events[..n], window);
      LegalRunKeepsLinked(recent, events[..n], window);
      ReachNext(events, n, Pipeline.Height(recent[0]));
    }
  }

  lemma {:induction false} KeepUpToKeepsOlder(older: seq<ChainBlock>, now: seq<ChainBlock>, to: nat)
    requires now != [] && Pipeline.Height(now[0]) <= to
    ensures KeepUpTo(older + now, to) == older + KeepUpTo(now, to)
    decreases |now|
  {
    if Pipeline.Height(now[|now| - 1]) > to {
      assert (older + now)[..|older + now| - 1] == older + now[..|now| - 1];
      KeepUpToKeepsOlder(older, now[..|now| - 1], to);
    }
  }

  lemma OlderBlocksStayOnce(
    older: seq<ChainBlock>, recent: seq<ChainBlock>, now: seq<ChainBlock>, e: Pipeline.BlockEvent, window: nat)
    requires recent != [] && Pipeline.Linked(older + recent)
    requires now != [] && now[0] == recent[0] && Legal(now, e, window)
    ensures Apply(older + now, e) == older + Apply(now, e)
    ensures Legal(older + now, e, window)
  {
    assert (older + now)[|older + now| - 1] == now[|now| - 1];
    match e
    case NewBlock(b) =>
      assert (older + now) + [b] == older + (now + [b]);
    case Reorg(to) =>
      KeepUpToKeepsOlder(older, now, to);
      assert (older + recent)[|older|] == recent[0];
      if older != [] {
        assert Pipeline.Height((older + recent)[0]) == Pipeline.Height(older[0]);
      }
  }

  /** A tree whose log reaches back to the follower's first tracked block can never be asked to roll
      back too far: fed by the follow loop, the stores always agree. */
  lemma FollowedStoresStayInLockstep(
    h: Hasher, s: Stores, older: seq<ChainBlock>, recent: seq<ChainBlock>, events: seq<Pipeline.BlockEvent>,
    window: nat, target: nat)
    requires recent != [] && Pipeline.Linked(recent) && LegalRun(recent, events, window)
    requires Mirrors(s, older + recent) && UsualRun(older + recent, events)
    requires s.tree.blocks[0].height <= Pipeline.Height(recent[0])
    ensures var r := HandleAll(h, s, events, target);
      if r.Ok? then Mirrors(r.value, older + ApplyAll(recent, events))
      else FailsOnBlock(h, s, events, target)
  {
    OlderBlocksStay(older, recent, events, window);
    LegalRunReaches(recent, events, window);
    StoresStayInLockstep(h, s, older + recent, events, window, target);
  }
}
