/** Appending and rolling back blocks, and what a whole run of them leaves behind. */
module TreeHistory {
  import opened Prelude
  import opened Geometry
  import opened Merkle
  import opened CommitmentTree

  /** One block's record and leaves; the count is kept in 32 bits. */
  function Appended(c: Contents, height: nat, hash: Hash, commitments: seq<Hash>): Contents {
    c.(leaves := c.leaves + commitments,
       blocks := c.blocks + [BlockRecord(height, hash, |commitments| % U32_LIMIT)])
  }

  /** The block log after popping from the end while the height is above `target`. */
  function Kept(blocks: seq<BlockRecord>, target: nat): (kept: seq<BlockRecord>)
    ensures |kept| <= |blocks| && kept == blocks[..|kept|]
  {
    if blocks != [] && blocks[|blocks| - 1].height > target then Kept(blocks[..|blocks| - 1], target) else blocks
  }

  function CommitmentCount(blocks: seq<BlockRecord>): nat {
    if blocks == [] then 0
    else CommitmentCount(blocks[..|blocks| - 1]) + blocks[|blocks| - 1].numCommitments
  }

  /** Leaves of the popped blocks, taken off the end of the leaf list. */
  function LeavesLeft(c: Contents, target: nat): (n: nat)
    ensures n <= |c.leaves|
  {
    KeptCountBound(c.blocks, target);
    SaturatingSub(|c.leaves|, CommitmentCount(c.blocks) - CommitmentCount(Kept(c.blocks, target)))
  }

  function RolledBack(c: Contents, target: nat): Contents {
    c.(leaves := c.leaves[..LeavesLeft(c, target)], blocks := Kept(c.blocks, target))
  }

  lemma {:induction false} KeptCountBound(blocks: seq<BlockRecord>, target: nat)
    ensures CommitmentCount(Kept(blocks, target)) <= CommitmentCount(blocks)
    decreases |blocks|
  {
    if blocks != [] && blocks[|blocks| - 1].height > target {
      KeptCountBound(blocks[..|blocks| - 1], target);
    }
  }

  /** The log accounts for every stored leaf. */
  predicate Counted(c: Contents) {
    CommitmentCount(c.blocks) == |c.leaves|
  }

  lemma AppendKeepsCounted(c: Contents, height: nat, hash: Hash, commitments: seq<Hash>)
    requires Counted(c) && |commitments| < U32_LIMIT
    ensures Counted(Appended(c, height, hash, commitments))
  {
    var blocks := Appended(c, height, hash, commitments).blocks;
    assert blocks[..|blocks| - 1] == c.blocks;
  }

  /** The subtraction in a rollback is exact whenever the log accounts for the leaves. */
  lemma RollbackKeepsCounted(c: Contents, target: nat)
    requires Counted(c)
    ensures Counted(RolledBack(c, target))
    ensures LeavesLeft(c, target) == |c.leaves| - (CommitmentCount(c.blocks) - CommitmentCount(Kept(c.blocks, target)))
  {
    KeptCountBound(c.blocks, target);
  }

  // ── Runs ───────────────────────────────────────────────────────────

  datatype Block = Block(height: nat, hash: Hash, commitments: seq<Hash>)

  datatype Op = Append(block: Block) | Rollback(target: nat)

  function Fresh(leafOffset: nat, prefetched: seq<Hash>): Contents {
    Contents([], [], leafOffset, prefetched)
  }

  function Run(c: Contents, ops: seq<Op>): Contents
    decreases |ops|
  {
    if ops == [] then c
    else
      var before := Run(c, ops[..|ops| - 1]);
      match ops[|ops| - 1]
      case Append(b) => Appended(before, b.height, b.hash, b.commitments)
      case Rollback(target) => RolledBack(before, target)
  }

  /** The blocks a reader of the log alone would say are still there. */
  function Survivors(ops: seq<Op>): seq<Block>
    decreases |ops|
  {
    if ops == [] then []
    else
      var before := Survivors(ops[..|ops| - 1]);
      match ops[|ops| - 1]
      case Append(b) => before + [b]
      case Rollback(target) => DropAbove(before, target)
  }

  function DropAbove(blocks: seq<Block>, target: nat): (kept: seq<Block>)
    ensures |kept| <= |blocks| && kept == blocks[..|kept|]
  {
    if blocks != [] && blocks[|blocks| - 1].height > target then DropAbove(blocks[..|blocks| - 1], target) else blocks
  }

  function Replay(c: Contents, blocks: seq<Block>): Contents {
    if blocks == [] then c
    else
      var last := blocks[|blocks| - 1];
      Appended(Replay(c, blocks[..|blocks| - 1]), last.height, last.hash, last.commitments)
  }

  predicate SmallBlocks(blocks: seq<Block>) {
    forall i :: 0 <= i < |blocks| ==> |blocks[i].commitments| < U32_LIMIT
  }

  predicate SmallOps(ops: seq<Op>) {
    forall i :: 0 <= i < |ops| && ops[i].Append? ==> |ops[i].block.commitments| < U32_LIMIT
  }

  /** Rolling back a replay is replaying the blocks that are kept. */
  lemma {:induction false} RollbackOfReplay(start: Contents, blocks: seq<Block>, target: nat)
    requires start.blocks == [] && start.leaves == [] && SmallBlocks(blocks)
    ensures RolledBack(Replay(start, blocks), target) == Replay(start, DropAbove(blocks, target))
    ensures Counted(Replay(start, blocks))
    decreases |blocks|
  {
    var c := Replay(start, blocks);
    if blocks == [] {
    } else {
      var rest := blocks[..|blocks| - 1];
      var last := blocks[|blocks| - 1];
      var before := Replay(start, rest);
      RollbackOfReplay(start, rest, target);
      AppendKeepsCounted(before, last.height, last.hash, last.commitments);
      assert c.blocks[..|c.blocks| - 1] == before.blocks;
      RollbackKeepsCounted(c, target);
      if last.height > target {
        RollbackKeepsCounted(before, target);
        assert Kept(c.blocks, target) == Kept(before.blocks, target);
        assert c.leaves[..LeavesLeft(c, target)] == before.leaves[..LeavesLeft(before, target)];
      } else {
        assert RolledBack(c, target) == c;
      }
    }
  }

  /** After any run, the tree is the one rebuilt from the surviving blocks alone. */
  lemma {:induction false} RunIsReplayOfSurvivors(leafOffset: nat, prefetched: seq<Hash>, ops: seq<Op>)
    requires SmallOps(ops)
    ensures SmallBlocks(Survivors(ops))
    ensures Run(Fresh(leafOffset, prefetched), ops) == Replay(Fresh(leafOffset, prefetched), Survivors(ops))
    ensures Counted(Run(Fresh(leafOffset, prefetched), ops))
    decreases |ops|
  {
    var start := Fresh(leafOffset, prefetched);
    if ops != [] {
      var rest := ops[..|ops| - 1];
      RunIsReplayOfSurvivors(leafOffset, prefetched, rest);
      var before := Survivors(rest);
      match ops[|ops| - 1]
      case Append(b) =>
        assert (before + [b])[..|before|] == before;
        AppendKeepsCounted(Run(start, rest), b.height, b.hash, b.commitments);
      case Rollback(target) =>
        RollbackOfReplay(start, before, target);
        RollbackKeepsCounted(Run(start, rest), target);
    }
  }

  predicate NonDecreasing(blocks: seq<BlockRecord>) {
    forall i, j :: 0 <= i <= j < |blocks| ==> blocks[i].height <= blocks[j].height
  }

  function AtMost(blocks: seq<BlockRecord>, target: nat): seq<BlockRecord> {
    if blocks == [] then []
    else if blocks[0].height <= target then [blocks[0]] + AtMost(blocks[1..], target)
    else AtMost(blocks[1..], target)
  }

  lemma {:induction false} AtMostAppend(a: seq<BlockRecord>, b: BlockRecord, target: nat)
    ensures AtMost(a + [b], target) == AtMost(a, target) + if b.height <= target then [b] else []
  {
    if a == [] {
      assert [b][1..] == [];
    } else {
      assert (a + [b])[1..] == a[1..] + [b];
      AtMostAppend(a[1..], b, target);
    }
  }

  lemma {:induction false} AllAtMost(blocks: seq<BlockRecord>, target: nat)
    requires forall i :: 0 <= i < |blocks| ==> blocks[i].height <= target
    ensures AtMost(blocks, target) == blocks
  {
    if blocks != [] {
      AllAtMost(blocks[1..], target);
    }
  }

  lemma {:induction false} KeptIsAtMost(blocks: seq<BlockRecord>, target: nat)
    requires NonDecreasing(blocks)
    ensures Kept(blocks, target) == AtMost(blocks, target)
    decreases |blocks|
  {
    if blocks != [] {
      var rest, last := blocks[..|blocks| - 1], blocks[|blocks| - 1];
      assert blocks == rest + [last];
      AtMostAppend(rest, last, target);
      if last.height > target {
        KeptIsAtMost(rest, target);
      } else {
        AllAtMost(blocks, target);
      }
    }
  }

  lemma {:induction false} AtMostInside(blocks: seq<BlockRecord>, target: nat, i: nat)
    ensures i < |AtMost(blocks, target)| ==> AtMost(blocks, target)[i].height <= target
  {
    if blocks != [] {
      AtMostInside(blocks[1..], target, i);
      if i > 0 {
        AtMostInside(blocks[1..], target, i - 1);
      }
    }
  }

  lemma KeptDiffersWhenHeightsDrop(blocks: seq<BlockRecord>, i: nat, j: nat) returns (target: nat)
    requires i < j < |blocks| && blocks[i].height > blocks[j].height
    ensures Kept(blocks, target) != AtMost(blocks, target)
  {
    target := blocks[j].height;
    KeptReaches(blocks, target, j);
    AtMostInside(blocks, target, i);
  }

  lemma {:induction false} KeptReaches(blocks: seq<BlockRecord>, target: nat, j: nat)
    requires j < |blocks| && blocks[j].height <= target
    ensures j < |Kept(blocks, target)|
    decreases |blocks|
  {
    if blocks[|blocks| - 1].height > target {
      KeptReaches(blocks[..|blocks| - 1], target, j);
    }
  }

  /** Popping from the end is the documented rule, "remove every block above the target",
      for every target exactly when no height in the log goes down. */
  lemma RollbackRuleHoldsIff(blocks: seq<BlockRecord>)
    ensures NonDecreasing(blocks) <==> forall target: nat :: Kept(blocks, target) == AtMost(blocks, target)
  {
    if NonDecreasing(blocks) {
      forall target: nat
        ensures Kept(blocks, target) == AtMost(blocks, target)
      {
        KeptIsAtMost(blocks, target);
      }
    } else {
      var i, j :| 0 <= i <= j < |blocks| && blocks[i].height > blocks[j].height;
      var target := KeptDiffersWhenHeightsDrop(blocks, i, j);
    }
  }
}
