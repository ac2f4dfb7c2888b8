/** The pool behind the server's tree: the commitments of its chain. */
module ChainPool {
  import opened Prelude
  import opened Geometry
  import opened Merkle
  import opened CommitmentTree
  import opened TreeHistory
  import opened ChainData
  import opened Bootstrap
  import Pipeline
  import opened Follower
  import opened Lockstep
  import opened StartUp

  // ── The commitments of a chain ─────────────────────────────────────

  function Commitments(h: Hasher, b: ChainBlock): seq<Hash> {
    var r := ExtractCommitments(h, b.block);
    if r.Ok? then r.value else []
  }

  /** All leaves of the pool, in chain order. */
  function LeavesOf(h: Hasher, chain: seq<ChainBlock>): seq<Hash>
    decreases |chain|, h
  {
    if chain == [] then [] else LeavesOf(h, chain[..|chain| - 1]) + Commitments(h, chain[|chain| - 1])
  }

  lemma LeavesSnoc(h: Hasher, chain: seq<ChainBlock>, b: ChainBlock)
    ensures LeavesOf(h, chain + [b]) == LeavesOf(h, chain) + Commitments(h, b)
  {
    assert (chain + [b])[..|chain|] == chain;
  }

  lemma {:induction false} LeavesPrefix(h: Hasher, chain: seq<ChainBlock>, m: nat)
    requires m <= |chain|
    ensures LeavesOf(h, chain[..m]) <= LeavesOf(h, chain)
    decreases |chain|
  {
    if m < |chain| {
      LeavesPrefix(h, chain[..|chain| - 1], m);
      assert chain[..|chain| - 1][..m] == chain[..m];
    } else {
      assert chain[..m] == chain;
    }
  }

  /** Leaf after leaf, the pool is the commitment bytes of the chain's Ironwood actions. */
  lemma LeafOfAction(h: Hasher, front: seq<ChainBlock>, b: ChainBlock, later: seq<ChainBlock>, t: nat, k: nat)
    requires HasAction(b.block.txs, t, k) && ExtractCommitments(h, b.block).Ok?
    ensures IsLeaf(LeavesOf(h, front + [b] + later), |LeavesOf(h, front)| + Position(b.block.txs, t, k),
                   b.block.txs[t].ironwoodActions[k])
  {
    LeavesSnoc(h, front, b);
    LeavesOfFront(h, front + [b], later);
    LastLeaf(h, LeavesOf(h, front), LeavesOf(h, front + [b] + later), b, t, k);
  }

  lemma LeavesOfFront(h: Hasher, front: seq<ChainBlock>, later: seq<ChainBlock>)
    ensures LeavesOf(h, front) <= LeavesOf(h, front + later)
  {
    LeavesPrefix(h, front + later, |front|);
    assert (front + later)[..|front|] == front;
  }

  predicate IsLeaf(leaves: seq<Hash>, at: nat, action: CompactAction) {
    at < |leaves| && leaves[at].bytes == action.cmx
  }

  lemma LastLeaf(h: Hasher, before: seq<Hash>, all: seq<Hash>, b: ChainBlock, t: nat, k: nat)
    requires HasAction(b.block.txs, t, k) && ExtractCommitments(h, b.block).Ok? && before + Commitments(h, b) <= all
    ensures IsLeaf(all, |before| + Position(b.block.txs, t, k), b.block.txs[t].ironwoodActions[k])
  {
    ExtractCommitmentsIff(h, b.block, Commitments(h, b));
    assert Commitments(h, b)[Position(b.block.txs, t, k)] == all[|before| + Position(b.block.txs, t, k)];
  }

  // ── A tree that holds the pool of a chain ──────────────────────────

  /** How many blocks of the chain are in the tree once its first logged block is. */
  function FirstReach(c: Contents, chain: seq<ChainBlock>): nat
    requires |c.blocks| <= |chain|
  {
    if c.blocks == [] then |chain| else |chain| - |c.blocks| + 1
  }

  /** Every logged block but the first counts all its commitments (the first may hold a spillover). */
  ghost predicate LogCounts(h: Hasher, blocks: seq<CommitmentTree.BlockRecord>, chain: seq<ChainBlock>)
    decreases |blocks|
  {
    && |blocks| <= |chain|
    && (|blocks| <= 1 ||
        (var n, m := |blocks| - 1, |chain| - 1;
         blocks[n].numCommitments == |Commitments(h, chain[m])| && LogCounts(h, blocks[..n], chain[..m])))
  }

  /** The log accounts for every leaf of the tree. */
  ghost predicate LogFits(h: Hasher, c: Contents, chain: seq<ChainBlock>) {
    Counted(c) && LogCounts(h, c.blocks, chain)
  }

  /** The tree's leaves are a correct window onto the commitments of the whole chain. */
  ghost predicate HoldsLeaves(h: Hasher, c: Contents, chain: seq<ChainBlock>)
    requires |c.blocks| <= |chain|
  {
    && CanonicalContents(h, c)
    && Represents(h, c, LeavesOf(h, chain))
    && c.leafOffset <= |LeavesOf(h, chain[..FirstReach(c, chain)])|
  }

  ghost predicate HoldsPool(h: Hasher, c: Contents, chain: seq<ChainBlock>) {
    LogFits(h, c, chain) && HoldsLeaves(h, c, chain)
  }

  // ── Growing ────────────────────────────────────────────────────────

  lemma AppendFits(h: Hasher, c: Contents, chain: seq<ChainBlock>, b: ChainBlock)
    requires LogFits(h, c, chain) && |Commitments(h, b)| < U32_LIMIT
    ensures LogFits(h, Appended(c, Pipeline.Height(b), b.hash, Commitments(h, b)), chain + [b])
  {
    var c' := Appended(c, Pipeline.Height(b), b.hash, Commitments(h, b));
    assert c'.blocks[..|c.blocks|] == c.blocks && (chain + [b])[..|chain|] == chain;
    AppendKeepsCounted(c, Pipeline.Height(b), b.hash, Commitments(h, b));
  }

  lemma WholePrefix(chain: seq<ChainBlock>, n: nat)
    requires n == |chain|
    ensures chain[..n] == chain
  {
  }

  lemma AppendReach(h: Hasher, c: Contents, c': Contents, chain: seq<ChainBlock>, b: ChainBlock)
    requires |c.blocks| <= |chain| && |c'.blocks| == |c.blocks| + 1
    requires c.leafOffset <= |LeavesOf(h, chain[..FirstReach(c, chain)])|
    ensures c.leafOffset <= |LeavesOf(h, (chain + [b])[..FirstReach(c', chain + [b])])|
  {
    var m := FirstReach(c, chain);
    if c.blocks == [] {
      LeavesSnoc(h, chain, b);
      assert chain[..m] == chain;
      WholePrefix(chain + [b], FirstReach(c', chain + [b]));
    } else {
      assert FirstReach(c', chain + [b]) == m;
      assert (chain + [b])[..m] == chain[..m];
    }
  }

  /** Taking or leaving a suffix commutes with growing at the end. */
  lemma GrowSuffix(all: seq<Hash>, added: seq<Hash>, offset: nat)
    requires offset <= |all|
    ensures (all + added)[offset..] == all[offset..] + added
    ensures (all + added)[offset..][..|all| - offset] == all[offset..]
  {
  }

  lemma AppendLeaves(h: Hasher, c: Contents, c': Contents, chain: seq<ChainBlock>, b: ChainBlock)
    requires |c.blocks| <= |chain| && |c'.blocks| == |c.blocks| + 1 && HoldsLeaves(h, c, chain)
    requires c'.leafOffset == c.leafOffset && c'.prefetched == c.prefetched && c'.leaves == c.leaves + Commitments(h, b)
    requires CanonicalContents(h, c')
    ensures HoldsLeaves(h, c', chain + [b])
  {
    var all := LeavesOf(h, chain);
    AppendReach(h, c, c', chain, b);
    LeavesSnoc(h, chain, b);
    LeavesPrefix(h, chain, FirstReach(c, chain));
    GrowSuffix(all, Commitments(h, b), c.leafOffset);
    WindowMoves(h, c, c', all, all + Commitments(h, b));
  }

  /** Accepting the chain's next block keeps the pool. */
  lemma AppendHoldsPool(h: Hasher, c: Contents, chain: seq<ChainBlock>, b: ChainBlock)
    requires HoldsPool(h, c, chain) && ApplyToTree(h, c, b).Ok? && |Commitments(h, b)| < U32_LIMIT
    ensures HoldsPool(h, ApplyToTree(h, c, b).value, chain + [b])
  {
    AppendFits(h, c, chain, b);
    AppendLeaves(h, c, ApplyToTree(h, c, b).value, chain, b);
  }

  // ── Shrinking ──────────────────────────────────────────────────────

  /** The tree with its newest logged block taken off. */
  function WithoutNewest(c: Contents): Contents
    requires c.blocks != [] && c.blocks[|c.blocks| - 1].numCommitments <= |c.leaves|
  {
    c.(leaves := c.leaves[..|c.leaves| - c.blocks[|c.blocks| - 1].numCommitments], blocks := c.blocks[..|c.blocks| - 1])
  }

  lemma PopFits(h: Hasher, c: Contents, chain: seq<ChainBlock>)
    requires LogFits(h, c, chain) && |c.blocks| > 1
    ensures c.blocks[|c.blocks| - 1].numCommitments == |Commitments(h, chain[|chain| - 1])| <= |c.leaves|
    ensures LogFits(h, WithoutNewest(c), chain[..|chain| - 1])
  {
  }

  lemma PopLeaves(h: Hasher, c: Contents, chain: seq<ChainBlock>)
    requires |c.blocks| <= |chain| && HoldsLeaves(h, c, chain) && |c.blocks| > 1
    requires c.blocks[|c.blocks| - 1].numCommitments == |Commitments(h, chain[|chain| - 1])| <= |c.leaves|
    ensures HoldsLeaves(h, WithoutNewest(c), chain[..|chain| - 1])
  {
    var front, m := chain[..|chain| - 1], FirstReach(c, chain);
    assert front[..m] == chain[..m];
    LeavesPrefix(h, front, m);
    GrowSuffix(LeavesOf(h, front), Commitments(h, chain[|chain| - 1]), c.leafOffset);
    WindowMoves(h, c, WithoutNewest(c), LeavesOf(h, chain), LeavesOf(h, front));
  }

  lemma PopHoldsPool(h: Hasher, c: Contents, chain: seq<ChainBlock>)
    requires HoldsPool(h, c, chain) && |c.blocks| > 1
    ensures c.blocks[|c.blocks| - 1].numCommitments <= |c.leaves|
    ensures HoldsPool(h, WithoutNewest(c), chain[..|chain| - 1])
  {
    PopFits(h, c, chain);
    PopLeaves(h, c, chain);
  }

  lemma PopMirrors(blocks: seq<CommitmentTree.BlockRecord>, chain: seq<ChainBlock>, to: nat)
    requires TreeMirrors(blocks, chain) && blocks[0].height <= to < blocks[|blocks| - 1].height
    ensures |blocks| > 1 && TreeMirrors(blocks[..|blocks| - 1], chain[..|chain| - 1])
    ensures KeepUpTo(chain, to) == KeepUpTo(chain[..|chain| - 1], to)
  {
  }

  lemma RolledBackWithoutNewest(c: Contents, to: nat)
    requires c.blocks != [] && c.blocks[|c.blocks| - 1].numCommitments <= |c.leaves|
    requires c.blocks[|c.blocks| - 1].height > to
    ensures RolledBack(c, to) == RolledBack(WithoutNewest(c), to)
  {
    var c' := WithoutNewest(c);
    assert Kept(c.blocks, to) == Kept(c'.blocks, to);
    assert LeavesLeft(c, to) == LeavesLeft(c', to);
    assert c.leaves[..LeavesLeft(c, to)] == c'.leaves[..LeavesLeft(c', to)];
  }

  /** A tree and its chain with the newest block taken off, for a rollback that removes it. */
  lemma PopOnce(h: Hasher, c: Contents, chain: seq<ChainBlock>, to: nat) returns (c': Contents, chain': seq<ChainBlock>)
    requires HoldsPool(h, c, chain) && TreeMirrors(c.blocks, chain)
    requires c.blocks[0].height <= to < c.blocks[|c.blocks| - 1].height
    ensures HoldsPool(h, c', chain') && TreeMirrors(c'.blocks, chain')
    ensures c'.blocks[0] == c.blocks[0] && |c'.blocks| < |c.blocks|
    ensures RolledBack(c, to) == RolledBack(c', to) && KeepUpTo(chain, to) == KeepUpTo(chain', to)
  {
    PopMirrors(c.blocks, chain, to);
    PopHoldsPool(h, c, chain);
    RolledBackWithoutNewest(c, to);
    c', chain' := WithoutNewest(c), chain[..|chain| - 1];
  }

  lemma NothingToPop(c: Contents, chain: seq<ChainBlock>, to: nat)
    requires TreeMirrors(c.blocks, chain) && c.blocks[|c.blocks| - 1].height <= to
    ensures RolledBack(c, to) == c && KeepUpTo(chain, to) == chain
  {
  }

  /** Rolling back to a logged height removes exactly the leaves of the removed blocks. */
  lemma {:induction false} RollbackHoldsPool(h: Hasher, c: Contents, chain: seq<ChainBlock>, to: nat)
    requires HoldsPool(h, c, chain) && TreeMirrors(c.blocks, chain) && c.blocks[0].height <= to
    ensures HoldsPool(h, RolledBack(c, to), KeepUpTo(chain, to))
    decreases |c.blocks|
  {
    if c.blocks[|c.blocks| - 1].height > to {
      var c', chain' := PopOnce(h, c, chain, to);
      RollbackHoldsPool(h, c', chain', to);
    } else {
      NothingToPop(c, chain, to);
    }
  }

  // ── Rollbacks below the log ────────────────────────────────────────

  lemma {:induction false} NoneKept(blocks: seq<CommitmentTree.BlockRecord>, to: nat)
    requires forall i :: 0 <= i < |blocks| ==> blocks[i].height > to
    ensures Kept(blocks, to) == []
    decreases |blocks|
  {
    if blocks != [] {
      NoneKept(blocks[..|blocks| - 1], to);
    }
  }

  /** A rollback below the first logged block leaves the bare window, whatever was asked for. */
  lemma DeepRollbackEmpties(c: Contents, chain: seq<ChainBlock>, to: nat)
    requires Counted(c) && TreeMirrors(c.blocks, chain) && Pipeline.Linked(chain) && to < c.blocks[0].height
    ensures RolledBack(c, to) == c.(leaves := [], blocks := [])
  {
    NoneKept(c.blocks, to);
  }

  lemma {:induction false} KeptIsPrefix(chain: seq<ChainBlock>, to: nat, i: nat)
    requires Pipeline.Linked(chain) && i < |chain| && Pipeline.Height(chain[i]) > to
    ensures KeepUpTo(chain, to) <= chain[..i]
    decreases |chain|
  {
    if i < |chain| - 1 {
      KeptIsPrefix(chain[..|chain| - 1], to, i);
      assert chain[..|chain| - 1][..i] == chain[..i];
    }
  }

  /** An honest block after `chain`: it parses, and its prior size is the size of the pool. */
  ghost predicate HonestNext(h: Hasher, chain: seq<ChainBlock>, b: ChainBlock) {
    && ExtractCommitments(h, b.block).Ok?
    && PriorTreeSize(b.block, |Commitments(h, b)|) == Ok(|LeavesOf(h, chain)|)
  }

  /** An honest block is accepted exactly by trees of the pool's size. */
  lemma HonestNextIff(h: Hasher, c: Contents, chain: seq<ChainBlock>, b: ChainBlock)
    requires HonestNext(h, chain, b)
    ensures ApplyToTree(h, c, b) ==
      if TreeSize(c) == |LeavesOf(h, chain)| then Ok(Appended(c, Pipeline.Height(b), b.hash, Commitments(h, b)))
      else Err(TreeSizeMismatch(Pipeline.Height(b), |LeavesOf(h, chain)|, TreeSize(c)))
  {
  }

  /** The rollback stays within the log, or the pool then ends exactly where the window starts. */
  ghost predicate Undoable(h: Hasher, c: Contents, chain: seq<ChainBlock>, to: nat) {
    c.blocks != [] && (c.blocks[0].height <= to || |LeavesOf(h, KeepUpTo(chain, to))| == c.leafOffset)
  }

  /** The exact condition, for every rollback target: the tree holds the pool of the shortened chain, and
      accepts its next honest block, if and only if the rollback can be undone. */
  lemma RollbackIff(h: Hasher, c: Contents, chain: seq<ChainBlock>, to: nat, b: ChainBlock)
    requires HoldsPool(h, c, chain) && TreeMirrors(c.blocks, chain) && Pipeline.Linked(chain)
    requires HonestNext(h, KeepUpTo(chain, to), b)
    ensures HoldsPool(h, RolledBack(c, to), KeepUpTo(chain, to)) <==> Undoable(h, c, chain, to)
    ensures ApplyToTree(h, RolledBack(c, to), b).Ok? <==> Undoable(h, c, chain, to)
    ensures !Undoable(h, c, chain, to) ==>
      ApplyToTree(h, RolledBack(c, to), b)
      == Err(TreeSizeMismatch(Pipeline.Height(b), |LeavesOf(h, KeepUpTo(chain, to))|, c.leafOffset))
  {
    HonestNextIff(h, RolledBack(c, to), KeepUpTo(chain, to), b);
    if c.blocks[0].height <= to {
      RollbackHoldsPool(h, c, chain, to);
    } else {
      DeepRollbackEmpties(c, chain, to);
      if |LeavesOf(h, KeepUpTo(chain, to))| == c.leafOffset {
        BareWindowHoldsPool(h, c, chain, to);
      }
    }
  }

  lemma BareWindowHoldsPool(h: Hasher, c: Contents, chain: seq<ChainBlock>, to: nat)
    requires HoldsPool(h, c, chain) && |LeavesOf(h, KeepUpTo(chain, to))| == c.leafOffset
    ensures HoldsPool(h, c.(leaves := [], blocks := []), KeepUpTo(chain, to))
  {
    var kept := KeepUpTo(chain, to);
    LeavesPrefix(h, chain, |kept|);
    assert kept[..|kept|] == kept;
    WindowMoves(h, c, c.(leaves := [], blocks := []), LeavesOf(h, chain), LeavesOf(h, kept));
  }

  /** The first logged block brought the pool past the window's first leaf, as a window's completing block does. */
  ghost predicate StartsWithCompletingBlock(h: Hasher, c: Contents, chain: seq<ChainBlock>) {
    0 < |c.blocks| <= |chain| && |LeavesOf(h, chain[..|chain| - |c.blocks|])| < c.leafOffset
  }

  /** For a bootstrapped window: the next honest block is accepted if and only if the rollback went no
      lower than the first logged block. */
  lemma WindowRollbackIff(h: Hasher, c: Contents, chain: seq<ChainBlock>, to: nat, b: ChainBlock)
    requires HoldsPool(h, c, chain) && TreeMirrors(c.blocks, chain) && Pipeline.Linked(chain)
    requires StartsWithCompletingBlock(h, c, chain) && HonestNext(h, KeepUpTo(chain, to), b)
    ensures ApplyToTree(h, RolledBack(c, to), b).Ok? <==> c.blocks[0].height <= to
    ensures HoldsPool(h, RolledBack(c, to), KeepUpTo(chain, to)) <==> c.blocks[0].height <= to
  {
    RollbackIff(h, c, chain, to, b);
    if to < c.blocks[0].height {
      KeptPoolIsShort(h, c, chain, to);
    }
  }

  lemma KeptPoolIsShort(h: Hasher, c: Contents, chain: seq<ChainBlock>, to: nat)
    requires TreeMirrors(c.blocks, chain) && Pipeline.Linked(chain) && to < c.blocks[0].height
    requires StartsWithCompletingBlock(h, c, chain)
    ensures |LeavesOf(h, KeepUpTo(chain, to))| < c.leafOffset
  {
    var first, kept := |chain| - |c.blocks|, KeepUpTo(chain, to);
    KeptIsPrefix(chain, to, first);
    LeavesPrefix(h, chain[..first], |kept|);
    assert chain[..first][..|kept|] == kept;
  }
}
