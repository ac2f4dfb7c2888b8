/** What one pass of the follow loop achieves against one linked remote chain. */
module FollowerAgreement {
  import opened Prelude
  import opened ChainData
  import opened Pipeline
  import opened Follower

  /** The remote chain from height `base` on, as sent and as validated. */
  datatype Remote = Remote(base: nat, raws: seq<CompactBlock>, blocks: seq<ValidatedBlock>)

  /** The remote blocks are complete and linked: validating them returns them. */
  ghost predicate IsChain(remote: Remote) {
    |remote.raws| == |remote.blocks| && CheckBlocks(remote.raws, remote.base, None) == Ok(remote.blocks)
  }

  lemma ChainIsLinked(remote: Remote)
    requires IsChain(remote)
    ensures ValidRange(remote.blocks, remote.raws, remote.base, None)
  {
    CheckBlocksIff(remote.raws, remote.base, None, remote.blocks);
  }

  predicate Has(remote: Remote, height: nat) {
    remote.base <= height < remote.base + |remote.blocks|
  }

  function At(remote: Remote, height: nat): ValidatedBlock
    requires Has(remote, height)
  {
    remote.blocks[height - remote.base]
  }

  /** The remote blocks from height `from` through `to`. */
  function Slice(remote: Remote, from: nat, to: nat): seq<ValidatedBlock>
    requires remote.base <= from <= to + 1 <= remote.base + |remote.blocks|
  {
    remote.blocks[from - remote.base..to + 1 - remote.base]
  }

  ghost predicate SendsRange(answer: Answer, remote: Remote, from: nat, to: nat)
    requires IsChain(remote) && remote.base <= from <= to && Has(remote, to)
  {
    answer == Blocks(remote.raws[from - remote.base..to + 1 - remote.base])
  }

  /** The batches above the fork are answered from the same chain. */
  ghost predicate SendsBatches(calls: seq<Answer>, remote: Remote, next: nat, target: nat)
    requires IsChain(remote) && remote.base <= next && Has(remote, target)
    decreases 1 + target - next
  {
    next > target ||
    (calls != [] && SendsRange(calls[0], remote, next, BatchEnd(next, target))
     && SendsBatches(calls[1..], remote, BatchEnd(next, target) + 1, target))
  }

  /** A hash determines its block, across the local and the remote chain. */
  ghost predicate HashesIdentify(log: seq<ValidatedBlock>, remote: Remote) {
    forall i, j :: 0 <= i < |log| && 0 <= j < |remote.blocks| && log[i].hash == remote.blocks[j].hash ==>
      Height(log[i]) == Height(remote.blocks[j]) && log[i].prevHash == remote.blocks[j].prevHash
  }

  lemma RemoteLink(remote: Remote, height: nat)
    requires IsChain(remote) && remote.base < height && Has(remote, height)
    ensures At(remote, height).prevHash == At(remote, height - 1).hash
    ensures Height(At(remote, height)) == height
  {
    ChainIsLinked(remote);
  }

  lemma SliceIsLinked(remote: Remote, from: nat, to: nat)
    requires IsChain(remote) && remote.base <= from <= to && Has(remote, to)
    ensures var s := Slice(remote, from, to);
      Linked(s) && |s| == to + 1 - from && forall i :: 0 <= i < |s| ==> Height(s[i]) == from + i && s[i] == At(remote, from + i)
  {
    ChainIsLinked(remote);
  }

  lemma HonestFetch(calls: seq<Answer>, remote: Remote, from: nat, to: nat, prior: Option<Hash>)
    requires IsChain(remote) && remote.base <= from <= to && Has(remote, to)
    requires calls != [] && SendsRange(calls[0], remote, from, to)
    requires prior.Some? ==> At(remote, from).prevHash == prior.value
    ensures Fetched(calls, from, to, prior) == Ok(Slice(remote, from, to))
  {
    ChainIsLinked(remote);
    SliceIsLinked(remote, from, to);
    CheckBlocksIff(calls[0].blocks, from, prior, Slice(remote, from, to));
  }

  lemma {:induction false} PushAllAppend(history: seq<Entry>, window: nat, a: seq<ValidatedBlock>, b: seq<ValidatedBlock>)
    ensures PushAll(history, window, a + b) == PushAll(PushAll(history, window, a), window, b)
    ensures NewBlocks(a + b) == NewBlocks(a) + NewBlocks(b)
    decreases |b|
  {
    if b == [] {
      assert a + b == a;
    } else {
      var n := |b| - 1;
      assert (a + b)[..|a| + n] == a + b[..n];
      PushAllAppend(history, window, a, b[..n]);
    }
  }

  /** What an extension over remote blocks leaves behind. */
  ghost predicate ExtendedBy(r: Round, state: State, added: seq<ValidatedBlock>, window: nat) {
    && r.error.None?
    && r.events == NewBlocks(added)
    && r.state == state.(history := PushAll(state.history, window, added))
  }

  lemma ExtendedInTwo(
    calls: seq<Answer>, state: State, next: nat, target: nat, prior: Option<Hash>, window: nat,
    a: seq<ValidatedBlock>, b: seq<ValidatedBlock>, both: seq<ValidatedBlock>, end: nat, last: Option<Hash>)
    requires next <= target && end == BatchEnd(next, target) && Fetched(calls, next, end, prior) == Ok(a)
    requires both == a + b && last == LastHash(a)
    requires var state' := state.(history := PushAll(state.history, window, a));
      ExtendedBy(Extended(calls[1..], state', end + 1, target, last, window), state', b, window)
    ensures ExtendedBy(Extended(calls, state, next, target, prior, window), state, both, window)
  {
    PushAllAppend(state.history, window, a, b);
  }

  lemma SliceInTwo(remote: Remote, from: nat, mid: nat, to: nat)
    requires remote.base <= from <= mid <= to && Has(remote, to)
    ensures Slice(remote, from, to) == Slice(remote, from, mid) + Slice(remote, mid + 1, to)
    ensures LastHash(Slice(remote, from, mid)) == Some(At(remote, mid).hash)
  {
  }

  lemma NextBatch(calls: seq<Answer>, remote: Remote, next: nat, target: nat, prior: Option<Hash>)
    requires IsChain(remote) && remote.base < next <= target && Has(remote, target)
    requires SendsBatches(calls, remote, next, target) && prior == Some(At(remote, next - 1).hash)
    ensures calls != [] && Fetched(calls, next, BatchEnd(next, target), prior) == Ok(Slice(remote, next, BatchEnd(next, target)))
  {
    RemoteLink(remote, next);
    HonestFetch(calls, remote, next, BatchEnd(next, target), prior);
  }

  /** The extension from `next` emits exactly the remote blocks up to the target. */
  ghost predicate ExtendsHonestly(calls: seq<Answer>, state: State, next: nat, target: nat, window: nat, remote: Remote)
    requires remote.base < next <= target + 1 && Has(remote, target)
  {
    ExtendedBy(Extended(calls, state, next, target, Some(At(remote, next - 1).hash), window),
               state, Slice(remote, next, target), window)
  }

  lemma ExtendsByBatch(
    calls: seq<Answer>, state: State, next: nat, end: nat, target: nat, window: nat, remote: Remote)
    requires remote.base < next <= end <= target && Has(remote, target) && end == BatchEnd(next, target)
    requires IsChain(remote) && calls != [] && SendsBatches(calls, remote, next, target)
    requires ExtendsHonestly(calls[1..], Grow(state, Slice(remote, next, end), window), end + 1, target, window, remote)
    ensures ExtendsHonestly(calls, state, next, target, window, remote)
  {
    NextBatch(calls, remote, next, target, Some(At(remote, next - 1).hash));
    SliceInTwo(remote, next, end, target);
    ExtendedInTwo(calls, state, next, target, Some(At(remote, next - 1).hash), window,
      Slice(remote, next, end), Slice(remote, end + 1, target), Slice(remote, next, target), end, Some(At(remote, end).hash));
  }

  /** Extending against a fixed chain never fails and emits exactly the missing blocks. */
  lemma {:induction false} ExtendedHonestly(
    calls: seq<Answer>, state: State, next: nat, target: nat, window: nat, remote: Remote)
    requires IsChain(remote) && remote.base < next <= target + 1 && Has(remote, target)
    requires SendsBatches(calls, remote, next, target)
    ensures ExtendsHonestly(calls, state, next, target, window, remote)
    decreases 1 + target - next
  {
    if next <= target {
      var end := BatchEnd(next, target);
      ExtendedHonestly(calls[1..], Grow(state, Slice(remote, next, end), window), end + 1, target, window, remote);
      ExtendsByBatch(calls, state, next, end, target, window, remote);
    } else {
      ExtendedByNothing(calls, state, next, target, window, remote);
    }
  }

  lemma ExtendedByNothing(calls: seq<Answer>, state: State, next: nat, target: nat, window: nat, remote: Remote)
    requires remote.base < next == target + 1 && Has(remote, target)
    ensures ExtendsHonestly(calls, state, next, target, window, remote)
  {
    assert Slice(remote, next, target) == [];
  }

  // ── Agreement ──────────────────────────────────────────────────────

  /** The local chain and the remote chain have the same block hash at a height. */
  ghost predicate Agrees(log: seq<ValidatedBlock>, remote: Remote, height: nat)
    requires log != []
  {
    && Has(remote, height)
    && Height(log[0]) <= height < Height(log[0]) + |log|
    && log[height - Height(log[0])].hash == At(remote, height).hash
  }

  /** Agreement at a height spreads to every lower height both chains have. */
  lemma {:induction false} AgreementGoesDown(log: seq<ValidatedBlock>, remote: Remote, high: nat, low: nat)
    requires log != [] && Linked(log) && IsChain(remote) && HashesIdentify(log, remote)
    requires Agrees(log, remote, high) && low <= high && Height(log[0]) <= low && remote.base <= low
    ensures Agrees(log, remote, low)
    decreases high - low
  {
    if low < high {
      var i, j := high - Height(log[0]), high - remote.base;
      RemoteLink(remote, high);
      assert log[i].prevHash == remote.blocks[j].prevHash;
      assert log[i].prevHash == log[i - 1].hash;
      AgreementGoesDown(log, remote, high - 1, low);
    }
  }

  /** `height` is held by the history and carries the remote hash. */
  ghost predicate Common(history: seq<Entry>, remote: Remote, height: nat) {
    Has(remote, height) && HashAt(history, height) == Some(At(remote, height).hash)
  }

  /** `found` is the highest common height of a range, or says that there is none. */
  ghost predicate HighestCommon(history: seq<Entry>, remote: Remote, from: nat, to: nat, found: Option<nat>) {
    match found
    case Some(fork) => from <= fork <= to && Common(history, remote, fork)
      && forall height: nat :: fork < height <= to ==> !Common(history, remote, height)
    case None => forall height: nat :: from <= height <= to ==> !Common(history, remote, height)
  }

  /** The fork search finds the highest common height of the searched range, if there is one. */
  lemma ForkIsHighestCommon(history: seq<Entry>, remote: Remote, from: nat, to: nat)
    requires IsChain(remote) && remote.base <= from <= to && Has(remote, to)
    ensures HighestCommon(history, remote, from, to, FindFork(history, Slice(remote, from, to)))
  {
    var s := Slice(remote, from, to);
    SliceIsLinked(remote, from, to);
    if FindFork(history, s).Some? {
      ForkIsHeld(history, s);
      var fork := FindFork(history, s).value;
      forall height: nat | fork < height <= to
        ensures !Common(history, remote, height)
      {
        assert s[height - from] == At(remote, height);
      }
    } else {
      forall height: nat | from <= height <= to
        ensures !Common(history, remote, height)
      {
        NoForkMeansNone(history, s, height - from);
      }
    }
  }

  lemma {:induction false} NoForkMeansNone(history: seq<Entry>, overlap: seq<ValidatedBlock>, i: nat)
    requires FindFork(history, overlap).None? && i < |overlap|
    ensures HashAt(history, Height(overlap[i])) != Some(overlap[i].hash)
    decreases |overlap|
  {
    if i < |overlap| - 1 {
      NoForkMeansNone(history, overlap[..|overlap| - 1], i);
    }
  }

  /** What the pass does, given the highest common height it found. */
  ghost predicate ReachesTarget(
    state: State, r: Round, remote: Remote, fork: nat, target: nat)
    requires IsChain(remote) && remote.base <= fork <= target && Has(remote, target)
  {
    && r.error.None? && r.state.current == target
    && r.events == (if fork < state.current then [Reorg(fork)] else []) + NewBlocks(Slice(remote, fork + 1, target))
    && AllRemote(r.state.history, remote)
  }

  predicate IsRemote(entry: Entry, remote: Remote) {
    Has(remote, entry.height) && entry.hash == At(remote, entry.height).hash
  }

  /** Every entry of a history is a block of the remote chain. */
  ghost predicate AllRemote(history: seq<Entry>, remote: Remote) {
    forall i :: 0 <= i < |history| ==> IsRemote(history[i], remote)
  }

  lemma CommonAgrees(log: seq<ValidatedBlock>, history: seq<Entry>, window: nat, remote: Remote, fork: nat)
    requires IsSuffix(log, history, window) && history != [] && Common(history, remote, fork)
    ensures Agrees(log, remote, fork)
  {
    HashAtIndex(history, history[0].height, fork);
  }

  lemma EntryIsRemote(log: seq<ValidatedBlock>, history: seq<Entry>, window: nat, remote: Remote, fork: nat, i: nat)
    requires IsSuffix(log, history, window) && i < |history|
    requires IsChain(remote) && HashesIdentify(log, remote) && Agrees(log, remote, fork)
    requires remote.base <= history[i].height <= fork
    ensures IsRemote(history[i], remote)
  {
    AgreementGoesDown(log, remote, fork, history[i].height);
  }

  lemma {:induction false} KeptHeight(history: seq<Entry>, fork: nat, i: nat)
    requires i < |TrimAbove(history, fork)|
    requires forall j, k :: 0 <= j < k < |history| ==> history[j].height < history[k].height
    ensures i < |history| && TrimAbove(history, fork)[i] == history[i] && history[i].height <= fork
    decreases |history|
  {
    if history != [] && history[|history| - 1].height > fork {
      KeptHeight(history[..|history| - 1], fork, i);
    }
  }

  /** Below a common height the whole kept history is remote. */
  lemma TrimmedIsRemote(log: seq<ValidatedBlock>, history: seq<Entry>, fork: nat, window: nat, remote: Remote)
    requires IsSuffix(log, history, window) && history != []
    requires IsChain(remote) && HashesIdentify(log, remote)
    requires remote.base <= history[0].height && Common(history, remote, fork)
    ensures AllRemote(TrimAbove(history, fork), remote)
  {
    CommonAgrees(log, history, window, remote, fork);
    forall i | 0 <= i < |TrimAbove(history, fork)|
      ensures IsRemote(TrimAbove(history, fork)[i], remote)
    {
      KeptHeight(history, fork, i);
      EntryIsRemote(log, history, window, remote, fork, i);
    }
  }

  lemma TrimmedHoldsFork(log: seq<ValidatedBlock>, history: seq<Entry>, fork: nat, window: nat)
    requires IsSuffix(log, history, window) && history != []
    requires history[0].height <= fork <= Height(log[|log| - 1])
    ensures HashAt(TrimAbove(history, fork), fork) == HashAt(history, fork)
  {
    var oldest, kept := history[0].height, TrimAbove(history, fork);
    TrimIndex(history, oldest, fork);
    HashAtIndex(history, oldest, fork);
    HashAtIndex(kept, oldest, fork);
  }

  /** The history the pass grows from: trimmed when the tip is above the fork, whole when it is the tip. */
  lemma RolledIsTrimmed(log: seq<ValidatedBlock>, state: State, fork: nat, window: nat)
    requires Tracks(log, state, window) && state.history != [] && state.history[0].height <= fork <= state.current
    ensures (if fork < state.current then TrimAbove(state.history, fork) else state.history) == TrimAbove(state.history, fork)
  {
  }

  /** Growing from a common height whose lower history is remote. */
  lemma GrownHonestly(calls: seq<Answer>, rolled: State, fork: nat, target: nat, window: nat, remote: Remote)
    requires IsChain(remote) && remote.base <= fork <= target && Has(remote, target)
    requires AllRemote(rolled.history, remote) && HashAt(rolled.history, fork) == Some(At(remote, fork).hash)
    requires SendsBatches(calls, remote, fork + 1, target)
    ensures ExtendedBy(Grown(calls, rolled, fork, target, window), rolled, Slice(remote, fork + 1, target), window)
    ensures AllRemote(Grown(calls, rolled, fork, target, window).state.history, remote)
  {
    PushedEntriesAgree(rolled.history, window, remote, fork, target);
    ExtendedHonestly(calls, rolled, fork + 1, target, window, remote);
  }

  lemma FromForkIsGrown(
    log: seq<ValidatedBlock>, calls: seq<Answer>, state: State, fork: nat, target: nat, window: nat, remote: Remote)
    requires IsChain(remote) && remote.base <= fork <= target && Has(remote, target)
    requires Tracks(log, state, window) && state.history != [] && state.history[0].height <= fork <= state.current
    requires var grown := Grown(calls, state.(history := TrimAbove(state.history, fork)), fork, target, window);
      grown.error.None? && grown.events == NewBlocks(Slice(remote, fork + 1, target)) && AllRemote(grown.state.history, remote)
    ensures ReachesTarget(state, FromFork(calls, state, fork, target, window), remote, fork, target)
  {
    RolledIsTrimmed(log, state, fork, window);
  }

  lemma FromForkHonestly(
    log: seq<ValidatedBlock>, calls: seq<Answer>, state: State, fork: nat, target: nat, window: nat, remote: Remote)
    requires Tracks(log, state, window) && state.history != []
    requires IsChain(remote) && HashesIdentify(log, remote)
    requires remote.base <= state.history[0].height <= fork <= Min(state.current, target) && Has(remote, target)
    requires Common(state.history, remote, fork) && SendsBatches(calls, remote, fork + 1, target)
    ensures ReachesTarget(state, FromFork(calls, state, fork, target, window), remote, fork, target)
  {
    TrimmedIsRemote(log, state.history, fork, window, remote);
    TrimmedHoldsFork(log, state.history, fork, window);
    GrownHonestly(calls, state.(history := TrimAbove(state.history, fork)), fork, target, window, remote);
    FromForkIsGrown(log, calls, state, fork, target, window, remote);
  }

  lemma {:induction false} PushedEntriesAgree(kept: seq<Entry>, window: nat, remote: Remote, fork: nat, target: nat)
    requires IsChain(remote) && remote.base <= fork <= target && Has(remote, target)
    requires AllRemote(kept, remote)
    ensures AllRemote(PushAll(kept, window, Slice(remote, fork + 1, target)), remote)
    decreases target
  {
    if fork < target {
      PushedEntriesAgree(kept, window, remote, fork, target - 1);
      RemoteLink(remote, target);
      var s := Slice(remote, fork + 1, target);
      assert s[..|s| - 1] == Slice(remote, fork + 1, target - 1);
    }
  }

  /** The answers of one pass: the tip, the overlap, and the batches above the fork, all of one chain. */
  ghost predicate FixedDuringPass(
    calls: seq<Answer>, state: State, depth: nat, remote: Remote, tip: nat, found: Option<nat>) {
    var target := SaturatingSub(tip, depth);
    var overlapEnd := Min(state.current, target);
    && IsChain(remote) && Has(remote, target)
    && remote.base <= Oldest(state) <= overlapEnd
    && |calls| >= 2 && calls[0] == Tip(tip) && SendsRange(calls[1], remote, Oldest(state), overlapEnd)
    && HighestCommon(state.history, remote, Oldest(state), overlapEnd, found)
    && (found.Some? ==> SendsBatches(calls[2..], remote, found.value + 1, target))
  }

  lemma PassFromFork(calls: seq<Answer>, state: State, depth: nat, window: nat, remote: Remote, tip: nat, found: Option<nat>)
    requires FixedDuringPass(calls, state, depth, remote, tip, found)
    ensures RoundOf(calls, state, depth, window) ==
      match found
      case None => Round(calls[2..], state, [], Some(ReorgBeyondWindow(state.current, window)))
      case Some(fork) => FromFork(calls[2..], state, fork, SaturatingSub(tip, depth), window)
  {
    var overlapEnd, oldest := Min(state.current, SaturatingSub(tip, depth)), Oldest(state);
    HonestFetch(calls[1..], remote, oldest, overlapEnd, None);
    ForkIsHighestCommon(state.history, remote, oldest, overlapEnd);
    assert FindFork(state.history, Slice(remote, oldest, overlapEnd)) == found;
  }

  /** A rollback happens exactly when the old tip is above the target or off the remote chain. */
  lemma RollsBackIff(log: seq<ValidatedBlock>, state: State, window: nat, remote: Remote, target: nat, fork: nat)
    requires Tracks(log, state, window) && window > 0 && Has(remote, target) && remote.base <= Oldest(state)
    requires HighestCommon(state.history, remote, Oldest(state), Min(state.current, target), Some(fork))
    ensures fork < state.current <==>
      state.current > target || At(remote, state.current).hash != log[|log| - 1].hash
  {
    TipHash(log, state.history, window);
    if fork < state.current <= target {
      assert !Common(state.history, remote, state.current);
    }
  }

  lemma PassReaches(
    calls: seq<Answer>, state: State, depth: nat, window: nat, remote: Remote, tip: nat, fork: nat, target: nat)
    requires FixedDuringPass(calls, state, depth, remote, tip, Some(fork)) && target == SaturatingSub(tip, depth)
    requires ReachesTarget(state, FromFork(calls[2..], state, fork, target, window), remote, fork, target)
    ensures ReachesTarget(state, RoundOf(calls, state, depth, window), remote, fork, target)
  {
    var r := RoundOf(calls, state, depth, window);
    PassFromFork(calls, state, depth, window, remote, tip, Some(fork));
    assert r == FromFork(calls[2..], state, fork, target, window);
  }

  /** THE RESULT. With the remote chain fixed for one pass: if some held height is common, the pass
      succeeds, rolls back exactly when the old tip is above the target or off the chain, does so to the
      highest common height, emits the missing blocks, and every held entry is a remote block. */
  lemma RoundAgainstFixedChain(
    log: seq<ValidatedBlock>, calls: seq<Answer>, state: State, depth: nat, window: nat, remote: Remote, tip: nat, fork: nat)
    requires Tracks(log, state, window) && window > 0
    requires FixedDuringPass(calls, state, depth, remote, tip, Some(fork)) && HashesIdentify(log, remote)
    ensures ReachesTarget(state, RoundOf(calls, state, depth, window), remote, fork, SaturatingSub(tip, depth))
    ensures fork < state.current <==>
      state.current > SaturatingSub(tip, depth) || At(remote, state.current).hash != log[|log| - 1].hash
  {
    FromForkHonestly(log, calls[2..], state, fork, SaturatingSub(tip, depth), window, remote);
    PassReaches(calls, state, depth, window, remote, tip, fork, SaturatingSub(tip, depth));
    RollsBackIff(log, state, window, remote, SaturatingSub(tip, depth), fork);
  }

  /** If no held height is common, the loop ends with the fork-too-deep error and emits nothing. */
  lemma ForkTooDeep(
    log: seq<ValidatedBlock>, calls: seq<Answer>, state: State, depth: nat, window: nat, remote: Remote, tip: nat)
    requires Tracks(log, state, window) && window > 0
    requires FixedDuringPass(calls, state, depth, remote, tip, None)
    ensures RoundOf(calls, state, depth, window) == Round(calls[2..], state, [], Some(ReorgBeyondWindow(state.current, window)))
  {
    PassFromFork(calls, state, depth, window, remote, tip, None);
  }
}
