/** Compact blocks, and what both stores read out of them. */
module ChainData {
  import opened Prelude
  import opened Merkle

  datatype CompactAction = CompactAction(nullifier: seq<byte>, cmx: seq<byte>)

  /** A transaction's Orchard actions, which are not read here, and its Ironwood actions. */
  datatype CompactTx = CompactTx(actions: seq<CompactAction>, ironwoodActions: seq<CompactAction>)

  /** `treeSize` is the pool's cumulative commitment count after the block, when the server sent it. */
  datatype CompactBlock = CompactBlock(
    height: nat,
    hash: seq<byte>,
    prevHash: seq<byte>,
    txs: seq<CompactTx>,
    treeSize: Option<nat>)

  datatype ValidatedBlock = ValidatedBlock(block: CompactBlock, hash: Hash, prevHash: Hash)

  datatype ParseError =
    | InvalidField(height: nat, actual: nat)
    | NonCanonicalCommitment(height: nat)
    | MissingTreeSize(height: nat)
    | InvalidTreeSize(height: nat, treeSize: nat, commitments: nat)
    | InvalidNullifier(height: nat, actual: nat)

  /** All Ironwood actions of a block in order. */
  function Actions(txs: seq<CompactTx>): seq<CompactAction> {
    if txs == [] then [] else txs[0].ironwoodActions + Actions(txs[1..])
  }

  function Commitment(h: Hasher, height: nat, action: CompactAction): Result<Hash, ParseError> {
    if |action.cmx| != 32 then Err(InvalidField(height, |action.cmx|))
    else if h.canonical(Hash(action.cmx)) then Ok(Hash(action.cmx))
    else Err(NonCanonicalCommitment(height))
  }

  /** Collects until the first malformed action. */
  function CommitmentsOf(h: Hasher, height: nat, actions: seq<CompactAction>): (r: Result<seq<Hash>, ParseError>)
    ensures r.Ok? ==> |r.value| == |actions| && AllCanonical(h, r.value)
  {
    if actions == [] then Ok([])
    else
      match Commitment(h, height, actions[0])
      case Err(e) => Err(e)
      case Ok(first) =>
        match CommitmentsOf(h, height, actions[1..])
        case Err(e) => Err(e)
        case Ok(rest) => Ok([first] + rest)
  }

  function ExtractCommitments(h: Hasher, block: CompactBlock): Result<seq<Hash>, ParseError> {
    CommitmentsOf(h, block.height, Actions(block.txs))
  }

  function NullifiersOf(height: nat, actions: seq<CompactAction>): (r: Result<seq<Hash>, ParseError>)
    ensures r.Ok? ==> |r.value| == |actions|
  {
    if actions == [] then Ok([])
    else if |actions[0].nullifier| != 32 then Err(InvalidNullifier(height, |actions[0].nullifier|))
    else
      match NullifiersOf(height, actions[1..])
      case Err(e) => Err(e)
      case Ok(rest) => Ok([Hash(actions[0].nullifier)] + rest)
  }

  function ExtractNullifiers(block: CompactBlock): Result<seq<Hash>, ParseError> {
    NullifiersOf(block.height, Actions(block.txs))
  }

  /** The pool size before the block: the reported size less the block's own commitments. */
  function PriorTreeSize(block: CompactBlock, commitments: nat): Result<nat, ParseError> {
    match block.treeSize
    case None => Err(MissingTreeSize(block.height))
    case Some(size) =>
      var own := if commitments < U32_LIMIT then commitments else U32_LIMIT - 1;
      if own <= size then Ok(size - own) else Err(InvalidTreeSize(block.height, size, commitments))
  }

  // ── Where an action stands ─────────────────────────────────────────

  /** How many Ironwood actions some transactions have together. */
  function ActionCount(txs: seq<CompactTx>): nat
    decreases |txs|
  {
    if txs == [] then 0 else ActionCount(txs[..|txs| - 1]) + |txs[|txs| - 1].ironwoodActions|
  }

  /** Transaction `t` of the list has an Ironwood action `k`. */
  predicate HasAction(txs: seq<CompactTx>, t: nat, k: nat) {
    t < |txs| && k < |txs[t].ironwoodActions|
  }

  /** The position of that action in the block. */
  function Position(txs: seq<CompactTx>, t: nat, k: nat): nat
    requires t <= |txs|
  {
    ActionCount(txs[..t]) + k
  }

  lemma {:induction false} ActionsAppend(a: seq<CompactTx>, b: seq<CompactTx>)
    ensures Actions(a + b) == Actions(a) + Actions(b)
    decreases |a|
  {
    if a == [] {
      assert a + b == b;
    } else {
      ActionsAppend(a[1..], b);
      assert (a + b)[1..] == a[1..] + b;
    }
  }

  lemma ActionsSnoc(front: seq<CompactTx>, last: CompactTx)
    ensures Actions(front + [last]) == Actions(front) + last.ironwoodActions
  {
    ActionsAppend(front, [last]);
    assert [last][1..] == [];
  }

  lemma {:induction false} ActionsCount(txs: seq<CompactTx>)
    ensures |Actions(txs)| == ActionCount(txs)
    decreases |txs|
  {
    if txs != [] {
      var n := |txs| - 1;
      ActionsCount(txs[..n]);
      assert txs == txs[..n] + [txs[n]];
      ActionsSnoc(txs[..n], txs[n]);
    }
  }

  /** Action `k` of transaction `t` comes after all actions of the earlier transactions. */
  lemma {:induction false} ActionAt(txs: seq<CompactTx>, t: nat, k: nat)
    requires HasAction(txs, t, k)
    ensures Position(txs, t, k) < |Actions(txs)| && Actions(txs)[Position(txs, t, k)] == txs[t].ironwoodActions[k]
    decreases |txs|
  {
    var n := |txs| - 1;
    assert txs == txs[..n] + [txs[n]];
    ActionsSnoc(txs[..n], txs[n]);
    ActionsCount(txs[..n]);
    if t < n {
      ActionAt(txs[..n], t, k);
      assert txs[..n][..t] == txs[..t];
    }
  }

  /** Every position of the block belongs to an action of one of its transactions. */
  lemma {:induction false} ActionOf(txs: seq<CompactTx>, i: nat) returns (t: nat, k: nat)
    requires i < |Actions(txs)|
    ensures HasAction(txs, t, k) && Position(txs, t, k) == i && Actions(txs)[i] == txs[t].ironwoodActions[k]
    decreases |txs|
  {
    var n := |txs| - 1;
    assert txs == txs[..n] + [txs[n]];
    ActionsSnoc(txs[..n], txs[n]);
    ActionsCount(txs[..n]);
    if i < ActionCount(txs[..n]) {
      t, k := ActionOf(txs[..n], i);
      assert txs[..n][..t] == txs[..t];
    } else {
      t, k := n, i - ActionCount(txs[..n]);
    }
  }

  // ── What is read from an action ────────────────────────────────────

  /** One 32-byte nullifier for every Ironwood action of the block, in block order. */
  ghost predicate AreNullifiers(txs: seq<CompactTx>, nfs: seq<Hash>) {
    && |nfs| == ActionCount(txs)
    && forall t: nat, k: nat :: HasAction(txs, t, k) ==>
         Position(txs, t, k) < |nfs| && nfs[Position(txs, t, k)].bytes == txs[t].ironwoodActions[k].nullifier
  }

  /** One canonical commitment for every Ironwood action of the block, in block order. */
  ghost predicate AreCommitments(h: Hasher, txs: seq<CompactTx>, cmxs: seq<Hash>) {
    && |cmxs| == ActionCount(txs)
    && forall t: nat, k: nat :: HasAction(txs, t, k) ==>
         && Position(txs, t, k) < |cmxs| && h.canonical(cmxs[Position(txs, t, k)])
         && cmxs[Position(txs, t, k)].bytes == txs[t].ironwoodActions[k].cmx
  }

  ghost predicate NullifiersAt(actions: seq<CompactAction>, nfs: seq<Hash>) {
    |nfs| == |actions| && forall i :: 0 <= i < |actions| ==> nfs[i].bytes == actions[i].nullifier
  }

  ghost predicate CommitmentsAt(h: Hasher, actions: seq<CompactAction>, cmxs: seq<Hash>) {
    |cmxs| == |actions| && forall i :: 0 <= i < |actions| ==> h.canonical(cmxs[i]) && cmxs[i].bytes == actions[i].cmx
  }

  lemma {:induction false} NullifiersOfIff(height: nat, actions: seq<CompactAction>, nfs: seq<Hash>)
    ensures NullifiersOf(height, actions) == Ok(nfs) <==> NullifiersAt(actions, nfs)
    decreases |actions|
  {
    if actions != [] && nfs != [] {
      NullifiersOfIff(height, actions[1..], nfs[1..]);
      assert nfs == [nfs[0]] + nfs[1..];
      if NullifiersAt(actions[1..], nfs[1..]) && nfs[0].bytes == actions[0].nullifier {
        forall i | 0 < i < |actions| ensures nfs[i].bytes == actions[i].nullifier {
          assert nfs[1..][i - 1].bytes == actions[1..][i - 1].nullifier;
        }
      }
    }
  }

  lemma {:induction false} CommitmentsOfIff(h: Hasher, height: nat, actions: seq<CompactAction>, cmxs: seq<Hash>)
    ensures CommitmentsOf(h, height, actions) == Ok(cmxs) <==> CommitmentsAt(h, actions, cmxs)
    decreases |actions|
  {
    if actions != [] && cmxs != [] {
      CommitmentsOfIff(h, height, actions[1..], cmxs[1..]);
      assert cmxs == [cmxs[0]] + cmxs[1..];
      if CommitmentsAt(h, actions[1..], cmxs[1..]) && h.canonical(cmxs[0]) && cmxs[0].bytes == actions[0].cmx {
        forall i | 0 < i < |actions| ensures h.canonical(cmxs[i]) && cmxs[i].bytes == actions[i].cmx {
          assert cmxs[1..][i - 1].bytes == actions[1..][i - 1].cmx;
        }
      }
    }
  }

  lemma NullifiersByPosition(txs: seq<CompactTx>, nfs: seq<Hash>)
    ensures NullifiersAt(Actions(txs), nfs) <==> AreNullifiers(txs, nfs)
  {
    ActionsCount(txs);
    if NullifiersAt(Actions(txs), nfs) {
      forall t: nat, k: nat | HasAction(txs, t, k)
        ensures Position(txs, t, k) < |nfs| && nfs[Position(txs, t, k)].bytes == txs[t].ironwoodActions[k].nullifier
      {
        ActionAt(txs, t, k);
      }
    }
    if AreNullifiers(txs, nfs) {
      forall i | 0 <= i < |nfs| ensures nfs[i].bytes == Actions(txs)[i].nullifier {
        var t, k := ActionOf(txs, i);
      }
    }
  }

  lemma CommitmentsByPosition(h: Hasher, txs: seq<CompactTx>, cmxs: seq<Hash>)
    ensures CommitmentsAt(h, Actions(txs), cmxs) <==> AreCommitments(h, txs, cmxs)
  {
    ActionsCount(txs);
    if CommitmentsAt(h, Actions(txs), cmxs) {
      forall t: nat, k: nat | HasAction(txs, t, k)
        ensures && Position(txs, t, k) < |cmxs| && h.canonical(cmxs[Position(txs, t, k)])
                && cmxs[Position(txs, t, k)].bytes == txs[t].ironwoodActions[k].cmx
      {
        ActionAt(txs, t, k);
      }
    }
    if AreCommitments(h, txs, cmxs) {
      forall i | 0 <= i < |cmxs| ensures h.canonical(cmxs[i]) && cmxs[i].bytes == Actions(txs)[i].cmx {
        var t, k := ActionOf(txs, i);
      }
    }
  }

  /** What a block's nullifiers are: the nullifier bytes of its Ironwood actions, in block order. */
  lemma ExtractNullifiersIff(block: CompactBlock, nfs: seq<Hash>)
    ensures ExtractNullifiers(block) == Ok(nfs) <==> AreNullifiers(block.txs, nfs)
  {
    NullifiersOfIff(block.height, Actions(block.txs), nfs);
    NullifiersByPosition(block.txs, nfs);
  }

  /** What a block's commitments are: the commitment bytes of its Ironwood actions, in block order, all canonical. */
  lemma ExtractCommitmentsIff(h: Hasher, block: CompactBlock, cmxs: seq<Hash>)
    ensures ExtractCommitments(h, block) == Ok(cmxs) <==> AreCommitments(h, block.txs, cmxs)
  {
    CommitmentsOfIff(h, block.height, Actions(block.txs), cmxs);
    CommitmentsByPosition(h, block.txs, cmxs);
  }

  // ── When a block can be read ───────────────────────────────────────

  predicate GoodNullifier(action: CompactAction) {
    |action.nullifier| == 32
  }

  predicate GoodCommitment(h: Hasher, action: CompactAction) {
    |action.cmx| == 32 && h.canonical(Hash(action.cmx))
  }

  ghost predicate GoodNullifiers(block: CompactBlock) {
    forall t: nat, k: nat :: HasAction(block.txs, t, k) ==> GoodNullifier(block.txs[t].ironwoodActions[k])
  }

  ghost predicate GoodCommitments(h: Hasher, block: CompactBlock) {
    forall t: nat, k: nat :: HasAction(block.txs, t, k) ==> GoodCommitment(h, block.txs[t].ironwoodActions[k])
  }

  /** Action `k` of transaction `t` is the first one of the block that `good` refuses. */
  ghost predicate FirstBad(txs: seq<CompactTx>, good: CompactAction -> bool, t: nat, k: nat) {
    && HasAction(txs, t, k) && !good(txs[t].ironwoodActions[k])
    && forall t': nat, k': nat :: HasAction(txs, t', k') && Position(txs, t', k') < Position(txs, t, k) ==>
         good(txs[t'].ironwoodActions[k'])
  }

  /** Why a commitment field is refused. */
  function CommitmentError(height: nat, action: CompactAction): ParseError {
    if |action.cmx| == 32 then NonCanonicalCommitment(height) else InvalidField(height, |action.cmx|)
  }

  /** The error names the first nullifier of the block that has not 32 bytes. */
  ghost predicate RefusesNullifier(block: CompactBlock, e: ParseError) {
    exists t: nat, k: nat ::
      && FirstBad(block.txs, GoodNullifier, t, k)
      && e == InvalidNullifier(block.height, |block.txs[t].ironwoodActions[k].nullifier|)
  }

  /** The error is that of the first commitment of the block that has not 32 bytes or is not canonical. */
  ghost predicate RefusesCommitment(h: Hasher, block: CompactBlock, e: ParseError) {
    exists t: nat, k: nat ::
      && FirstBad(block.txs, a => GoodCommitment(h, a), t, k)
      && e == CommitmentError(block.height, block.txs[t].ironwoodActions[k])
  }

  /** The error of a list is that of its first bad action. */
  lemma {:induction false} FirstBadNullifier(height: nat, actions: seq<CompactAction>) returns (i: nat)
    requires NullifiersOf(height, actions).Err?
    ensures i < |actions| && !GoodNullifier(actions[i])
    ensures forall j :: 0 <= j < i ==> GoodNullifier(actions[j])
    ensures NullifiersOf(height, actions) == Err(InvalidNullifier(height, |actions[i].nullifier|))
    decreases |actions|
  {
    if GoodNullifier(actions[0]) {
      i := FirstBadNullifier(height, actions[1..]);
      i := i + 1;
    } else {
      i := 0;
    }
  }

  lemma {:induction false} FirstBadCommitment(h: Hasher, height: nat, actions: seq<CompactAction>) returns (i: nat)
    requires CommitmentsOf(h, height, actions).Err?
    ensures i < |actions| && !GoodCommitment(h, actions[i])
    ensures forall j :: 0 <= j < i ==> GoodCommitment(h, actions[j])
    ensures CommitmentsOf(h, height, actions) == Err(CommitmentError(height, actions[i]))
    decreases |actions|
  {
    if GoodCommitment(h, actions[0]) {
      i := FirstBadCommitment(h, height, actions[1..]);
      i := i + 1;
    } else {
      i := 0;
    }
  }

  lemma FirstBadByPosition(txs: seq<CompactTx>, good: CompactAction -> bool, i: nat) returns (t: nat, k: nat)
    requires i < |Actions(txs)| && !good(Actions(txs)[i])
    requires forall j :: 0 <= j < i ==> good(Actions(txs)[j])
    ensures FirstBad(txs, good, t, k) && txs[t].ironwoodActions[k] == Actions(txs)[i]
  {
    t, k := ActionOf(txs, i);
    forall t': nat, k': nat | HasAction(txs, t', k') && Position(txs, t', k') < Position(txs, t, k)
      ensures good(txs[t'].ironwoodActions[k'])
    {
      ActionAt(txs, t', k');
    }
  }

  /** A block's nullifiers can be read exactly when all have 32 bytes; otherwise the first that has not is reported. */
  lemma NullifiersReadIff(block: CompactBlock)
    ensures ExtractNullifiers(block).Ok? <==> GoodNullifiers(block)
    ensures ExtractNullifiers(block).Err? ==> RefusesNullifier(block, ExtractNullifiers(block).error)
  {
    if ExtractNullifiers(block).Ok? {
      var nfs := ExtractNullifiers(block).value;
      ExtractNullifiersIff(block, nfs);
      forall t: nat, k: nat | HasAction(block.txs, t, k)
        ensures GoodNullifier(block.txs[t].ironwoodActions[k])
      {
        assert nfs[Position(block.txs, t, k)].bytes == block.txs[t].ironwoodActions[k].nullifier;
      }
    } else {
      var i := FirstBadNullifier(block.height, Actions(block.txs));
      var t, k := FirstBadByPosition(block.txs, GoodNullifier, i);
    }
  }

  /** The same for commitments: 32 bytes and canonical. */
  lemma CommitmentsReadIff(h: Hasher, block: CompactBlock)
    ensures ExtractCommitments(h, block).Ok? <==> GoodCommitments(h, block)
    ensures ExtractCommitments(h, block).Err? ==> RefusesCommitment(h, block, ExtractCommitments(h, block).error)
  {
    if ExtractCommitments(h, block).Ok? {
      var cmxs := ExtractCommitments(h, block).value;
      ExtractCommitmentsIff(h, block, cmxs);
      forall t: nat, k: nat | HasAction(block.txs, t, k)
        ensures GoodCommitment(h, block.txs[t].ironwoodActions[k])
      {
        assert cmxs[Position(block.txs, t, k)].bytes == block.txs[t].ironwoodActions[k].cmx;
      }
    } else {
      var i := FirstBadCommitment(h, block.height, Actions(block.txs));
      var t, k := FirstBadByPosition(block.txs, a => GoodCommitment(h, a), i);
    }
  }
}
