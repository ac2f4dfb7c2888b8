/** Syncing and following a chain server whose answers may change between any two calls. */
module Pipeline {
  import opened Prelude
  import opened ChainData

  const BATCH_SIZE: nat := 10000

  datatype PipelineError =
    | Client
    | InvalidHash(height: nat, actual: nat)
    | UnexpectedHeight(expected: nat, actual: nat)
    | IncompleteRange(expected: nat, actual: nat)
    | BrokenLink(height: nat)
    | ReorgBeyondWindow(height: nat, depth: nat)

  /** One answer of the chain server; the client's calls take them in order. A call with no
      answer left, or with an answer of the wrong kind, is a failed call. */
  datatype Answer = Tip(height: nat) | Blocks(blocks: seq<CompactBlock>) | Failed

  datatype BlockEvent = NewBlock(block: ValidatedBlock) | Reorg(rollbackTo: nat)

  function Height(b: ValidatedBlock): nat {
    b.block.height
  }

  // ── Range validation ───────────────────────────────────────────────

  function Prepend<E>(front: seq<ValidatedBlock>, r: Result<seq<ValidatedBlock>, E>): Result<seq<ValidatedBlock>, E> {
    match r
    case Ok(rest) => Ok(front + rest)
    case Err(e) => Err(e)
  }

  lemma PrependNil<E>(r: Result<seq<ValidatedBlock>, E>)
    ensures Prepend([], r) == r
  {
    if r.Ok? {
      assert [] + r.value == r.value;
    }
  }

  lemma PrependTwice<E>(a: seq<ValidatedBlock>, b: seq<ValidatedBlock>, r: Result<seq<ValidatedBlock>, E>)
    ensures Prepend(a, Prepend(b, r)) == Prepend(a + b, r)
  {
    if r.Ok? {
      assert a + (b + r.value) == (a + b) + r.value;
    }
  }

  /** One block in its place: height, hash lengths, link. */
  function CheckBlock(b: CompactBlock, expected: nat, prior: Option<Hash>): Result<ValidatedBlock, PipelineError> {
    if b.height != expected then Err(UnexpectedHeight(expected, b.height))
    else if |b.hash| != 32 then Err(InvalidHash(b.height, |b.hash|))
    else if |b.prevHash| != 32 then Err(InvalidHash(b.height, |b.prevHash|))
    else if prior.Some? && prior.value != Hash(b.prevHash) then Err(BrokenLink(b.height))
    else Ok(ValidatedBlock(b, Hash(b.hash), Hash(b.prevHash)))
  }

  function CheckBlocks(blocks: seq<CompactBlock>, expected: nat, prior: Option<Hash>)
    : Result<seq<ValidatedBlock>, PipelineError>
    decreases |blocks|
  {
    if blocks == [] then Ok([])
    else
      match CheckBlock(blocks[0], expected, prior)
      case Err(e) => Err(e)
      case Ok(v) => Prepend([v], CheckBlocks(blocks[1..], expected + 1, Some(v.hash)))
  }

  function RangeOf(blocks: seq<CompactBlock>, start: nat, end: nat, prior: Option<Hash>)
    : Result<seq<ValidatedBlock>, PipelineError>
  {
    match CheckBlocks(blocks, start, prior)
    case Err(e) => Err(e)
    case Ok(v) =>
      if start + |v| != end + 1 then Err(IncompleteRange(end, if start + |v| == 0 then 0 else start + |v| - 1)) else Ok(v)
  }

  method ValidateRange(blocks: seq<CompactBlock>, start: nat, end: nat, expectedPrev: Option<Hash>)
    returns (r: Result<seq<ValidatedBlock>, PipelineError>)
    ensures r == RangeOf(blocks, start, end, expectedPrev)
  {
    var validated: seq<ValidatedBlock> := [];
    var expectedHeight, priorHash, rest := start, expectedPrev, blocks;
    PrependNil(CheckBlocks(blocks, start, expectedPrev));
    while rest != []
      invariant expectedHeight == start + |validated|
      invariant CheckBlocks(blocks, start, expectedPrev) == Prepend(validated, CheckBlocks(rest, expectedHeight, priorHash))
      decreases |rest|
    {
      var checked := CheckBlock(rest[0], expectedHeight, priorHash);
      if checked.Err? {
        return Err(checked.error);
      }
      PrependTwice(validated, [checked.value], CheckBlocks(rest[1..], expectedHeight + 1, Some(checked.value.hash)));
      validated := validated + [checked.value];
      priorHash := Some(checked.value.hash);
      expectedHeight := expectedHeight + 1;
      rest := rest[1..];
    }
    assert validated + [] == validated;
    if expectedHeight != end + 1 {
      return Err(IncompleteRange(end, if expectedHeight == 0 then 0 else expectedHeight - 1));
    }
    return Ok(validated);
  }

  /** Consecutive heights, each block naming its predecessor's hash. */
  ghost predicate Linked(log: seq<ValidatedBlock>) {
    && (forall i :: 0 <= i < |log| ==> Height(log[i]) == Height(log[0]) + i)
    && (forall i :: 0 < i < |log| ==> log[i].prevHash == log[i - 1].hash)
  }

  /** The validated form carries the very bytes that were fetched. */
  ghost predicate SameBlocks(vs: seq<ValidatedBlock>, blocks: seq<CompactBlock>) {
    && |vs| == |blocks|
    && forall i :: 0 <= i < |vs| ==>
         vs[i].block == blocks[i] && vs[i].hash.bytes == blocks[i].hash && vs[i].prevHash.bytes == blocks[i].prevHash
  }

  ghost predicate ValidRange(vs: seq<ValidatedBlock>, blocks: seq<CompactBlock>, start: nat, prior: Option<Hash>) {
    && SameBlocks(vs, blocks)
    && Linked(vs)
    && (vs != [] ==> Height(vs[0]) == start && (prior.Some? ==> vs[0].prevHash == prior.value))
  }

  /** Validation accepts exactly the complete linked ranges, and returns them unchanged. */
  lemma {:induction false} CheckBlocksIff(
    blocks: seq<CompactBlock>, start: nat, prior: Option<Hash>, vs: seq<ValidatedBlock>)
    ensures CheckBlocks(blocks, start, prior) == Ok(vs) <==> ValidRange(vs, blocks, start, prior)
    decreases |blocks|
  {
    if blocks != [] && vs != [] {
      CheckBlocksIff(blocks[1..], start + 1, Some(vs[0].hash), vs[1..]);
      CheckBlocksCons(blocks, start, prior, vs);
      ValidRangeCons(blocks, start, prior, vs);
    }
  }

  lemma CheckBlocksCons(blocks: seq<CompactBlock>, start: nat, prior: Option<Hash>, vs: seq<ValidatedBlock>)
    requires blocks != [] && vs != []
    ensures CheckBlocks(blocks, start, prior) == Ok(vs) <==>
      && CheckBlock(blocks[0], start, prior) == Ok(vs[0])
      && CheckBlocks(blocks[1..], start + 1, Some(vs[0].hash)) == Ok(vs[1..])
  {
    assert vs == [vs[0]] + vs[1..];
    var first := CheckBlock(blocks[0], start, prior);
    if first.Ok? {
      var rest := CheckBlocks(blocks[1..], start + 1, Some(first.value.hash));
      if rest.Ok? {
        assert ([first.value] + rest.value)[0] == first.value && ([first.value] + rest.value)[1..] == rest.value;
      }
    }
  }

  lemma ValidRangeCons(blocks: seq<CompactBlock>, start: nat, prior: Option<Hash>, vs: seq<ValidatedBlock>)
    requires blocks != [] && vs != []
    ensures ValidRange(vs, blocks, start, prior) <==>
      && CheckBlock(blocks[0], start, prior) == Ok(vs[0])
      && ValidRange(vs[1..], blocks[1..], start + 1, Some(vs[0].hash))
  {
    if ValidRange(vs, blocks, start, prior) {
      LinkedTail(vs);
    } else if ValidRange(vs[1..], blocks[1..], start + 1, Some(vs[0].hash)) && CheckBlock(blocks[0], start, prior) == Ok(vs[0]) {
      LinkedCons(vs);
      SameBlocksCons(vs, blocks);
    }
  }

  lemma SameBlocksCons(vs: seq<ValidatedBlock>, blocks: seq<CompactBlock>)
    requires vs != [] && blocks != [] && SameBlocks(vs[1..], blocks[1..])
    requires vs[0].block == blocks[0] && vs[0].hash.bytes == blocks[0].hash && vs[0].prevHash.bytes == blocks[0].prevHash
    ensures SameBlocks(vs, blocks)
  {
    forall i | 0 < i < |vs|
      ensures vs[i].block == blocks[i] && vs[i].hash.bytes == blocks[i].hash && vs[i].prevHash.bytes == blocks[i].prevHash
    {
      assert vs[1..][i - 1] == vs[i] && blocks[1..][i - 1] == blocks[i];
    }
  }

  lemma LinkedCons(vs: seq<ValidatedBlock>)
    requires vs != [] && Linked(vs[1..])
    requires |vs| > 1 ==> Height(vs[1]) == Height(vs[0]) + 1 && vs[1].prevHash == vs[0].hash
    ensures Linked(vs)
  {
    forall i | 0 < i < |vs|
      ensures Height(vs[i]) == Height(vs[0]) + i && vs[i].prevHash == vs[i - 1].hash
    {
      assert vs[1..][i - 1] == vs[i];
      if i > 1 {
        assert vs[1..][i - 2] == vs[i - 1];
      }
    }
  }

  lemma LinkedTail(vs: seq<ValidatedBlock>)
    requires vs != [] && Linked(vs)
    ensures Linked(vs[1..])
  {
  }

  /** What is wrong with a block where one with this height and this predecessor is expected: its height,
      else a hash of the wrong length, else the link. */
  ghost predicate IsFault(b: CompactBlock, expected: nat, prior: Option<Hash>, e: PipelineError) {
    if b.height != expected then e == UnexpectedHeight(expected, b.height)
    else if |b.hash| != 32 then e == InvalidHash(expected, |b.hash|)
    else if |b.prevHash| != 32 then e == InvalidHash(expected, |b.prevHash|)
    else prior.Some? && b.prevHash != prior.value.bytes && e == BrokenLink(expected)
  }

  /** The hash the block after some validated ones must name. */
  function PriorOf(validated: seq<ValidatedBlock>, prior: Option<Hash>): Option<Hash> {
    if validated == [] then prior else LastHash(validated)
  }

  /** A refused range names the first block that does not fit after the valid ones before it. */
  lemma {:induction false} FirstFault(blocks: seq<CompactBlock>, start: nat, prior: Option<Hash>)
    returns (i: nat, front: seq<ValidatedBlock>)
    requires CheckBlocks(blocks, start, prior).Err?
    ensures i < |blocks| && |front| == i && ValidRange(front, blocks[..i], start, prior)
    ensures IsFault(blocks[i], start + i, PriorOf(front, prior), CheckBlocks(blocks, start, prior).error)
    decreases |blocks|
  {
    var first := CheckBlock(blocks[0], start, prior);
    if first.Err? {
      i, front := 0, [];
    } else {
      var rest;
      i, rest := FirstFault(blocks[1..], start + 1, Some(first.value.hash));
      i, front := i + 1, [first.value] + rest;
      assert blocks[..i][1..] == blocks[1..][..i - 1] && front[1..] == rest;
      ValidRangeCons(blocks[..i], start, prior, front);
    }
  }

  /** The error of a range: the first fault, or how far the complete blocks reach. */
  ghost predicate RangeFault(blocks: seq<CompactBlock>, start: nat, end: nat, prior: Option<Hash>, e: PipelineError) {
    || (exists i: nat, front :: i < |blocks| && ValidRange(front, blocks[..i], start, prior)
          && IsFault(blocks[i], start + i, PriorOf(front, prior), e))
    || ((exists front :: ValidRange(front, blocks, start, prior))
        && start + |blocks| != end + 1 && e == IncompleteRange(end, SaturatingSub(start + |blocks|, 1)))
  }

  lemma RangeErrorIsFault(blocks: seq<CompactBlock>, start: nat, end: nat, prior: Option<Hash>)
    requires RangeOf(blocks, start, end, prior).Err?
    ensures RangeFault(blocks, start, end, prior, RangeOf(blocks, start, end, prior).error)
  {
    var checked := CheckBlocks(blocks, start, prior);
    if checked.Err? {
      var i, front := FirstFault(blocks, start, prior);
    } else {
      CheckBlocksIff(blocks, start, prior, checked.value);
    }
  }

  // ── Batched sync ───────────────────────────────────────────────────

  function LastHash(blocks: seq<ValidatedBlock>): Option<Hash> {
    if blocks == [] then None else Some(blocks[|blocks| - 1].hash)
  }

  function Fetched(calls: seq<Answer>, start: nat, end: nat, prior: Option<Hash>): Result<seq<ValidatedBlock>, PipelineError> {
    if calls != [] && calls[0].Blocks? then RangeOf(calls[0].blocks, start, end, prior) else Err(Client)
  }

  function Rest(calls: seq<Answer>): seq<Answer> {
    if calls == [] then [] else calls[1..]
  }

  method FetchValidated(calls: seq<Answer>, start: nat, end: nat, expectedPrev: Option<Hash>)
    returns (r: Result<seq<ValidatedBlock>, PipelineError>, rest: seq<Answer>)
    ensures r == Fetched(calls, start, end, expectedPrev) && rest == Rest(calls)
  {
    rest := Rest(calls);
    if calls == [] || !calls[0].Blocks? {
      return Err(Client), rest;
    }
    r := ValidateRange(calls[0].blocks, start, end, expectedPrev);
  }

  function BatchEnd(current: nat, to: nat): nat {
    Min(current + BATCH_SIZE - 1, to)
  }

  /** A batch is full, or the last one. */
  lemma BatchEndIs(current: nat, to: nat)
    requires current <= to
    ensures current <= BatchEnd(current, to) <= to
    ensures BatchEnd(current, to) == to || BatchEnd(current, to) + 1 == current + BATCH_SIZE
    ensures BatchEnd(current, to) < current + BATCH_SIZE
  {
  }

  datatype Synced = Synced(consumed: seq<ValidatedBlock>, error: Option<PipelineError>)

  /** What a batched sync consumes, and the error that stopped it. */
  function Batched(calls: seq<Answer>, current: nat, to: nat, prior: Option<Hash>): Synced
    decreases 1 + to - current
  {
    if current > to then Synced([], None)
    else
      match Fetched(calls, current, BatchEnd(current, to), prior)
      case Err(e) => Synced([], Some(e))
      case Ok(blocks) =>
        var more := Batched(Rest(calls), BatchEnd(current, to) + 1, to, LastHash(blocks));
        After(blocks, more)
  }

  /** A sync that had consumed blocks before. */
  function After(front: seq<ValidatedBlock>, r: Synced): Synced {
    Synced(front + r.consumed, r.error)
  }

  lemma AfterTwice(a: seq<ValidatedBlock>, b: seq<ValidatedBlock>, r: Synced)
    ensures After(a, After(b, r)) == After(a + b, r)
    ensures After([], r) == r
  {
    assert a + (b + r.consumed) == (a + b) + r.consumed;
    assert [] + r.consumed == r.consumed;
  }

  /** Every batch is fully validated before any block of it is consumed. */
  method SyncBlocks(calls: seq<Answer>, from: nat, to: nat) returns (r: Synced)
    ensures r == Batched(calls, from, to, None)
  {
    var current, expectedPrev: Option<Hash>, answers := from, None, calls;
    var consumed: seq<ValidatedBlock> := [];
    AfterTwice([], [], Batched(calls, from, to, None));
    while current <= to
      invariant from <= current
      invariant Batched(calls, from, to, None) == After(consumed, Batched(answers, current, to, expectedPrev))
      decreases 1 + to - current
    {
      var end := BatchEnd(current, to);
      var fetched;
      fetched, answers := FetchValidated(answers, current, end, expectedPrev);
      if fetched.Err? {
        return After(consumed, Synced([], Some(fetched.error)));
      }
      expectedPrev, current := LastHash(fetched.value), end + 1;
      AfterTwice(consumed, fetched.value, Batched(answers, current, to, expectedPrev));
      consumed := consumed + fetched.value;
    }
    return After(consumed, Synced([], None));
  }

  /** All blocks of the first `n` answers, in order. */
  function AnsweredBlocks(calls: seq<Answer>, n: nat): seq<CompactBlock>
    requires n <= |calls|
    decreases n, calls
  {
    if n == 0 then []
    else (if calls[0].Blocks? then calls[0].blocks else []) + AnsweredBlocks(calls[1..], n - 1)
  }

  lemma {:induction false} CheckBlocksAppend(a: seq<CompactBlock>, b: seq<CompactBlock>, start: nat, prior: Option<Hash>)
    requires CheckBlocks(a, start, prior).Ok?
    ensures var va := CheckBlocks(a, start, prior).value;
      && |va| == |a|
      && CheckBlocks(a + b, start, prior)
         == Prepend(va, CheckBlocks(b, start + |a|, if a == [] then prior else LastHash(va)))
    decreases |a|
  {
    if a == [] {
      assert a + b == b;
      PrependNil(CheckBlocks(b, start, prior));
    } else {
      var v := CheckBlock(a[0], start, prior).value;
      assert (a + b)[1..] == a[1..] + b;
      CheckBlocksAppend(a[1..], b, start + 1, Some(v.hash));
      var rest := CheckBlocks(a[1..], start + 1, Some(v.hash)).value;
      PrependTwice([v], rest, CheckBlocks(b, start + |a|, LastHash([v] + rest)));
    }
  }

  function BatchCount(current: nat, to: nat): nat
    decreases 1 + to - current
  {
    if current > to then 0 else 1 + BatchCount(BatchEnd(current, to) + 1, to)
  }

  /** A validated batch followed by a validated range is a validated range. */
  lemma RangeAppend(
    a: seq<CompactBlock>, b: seq<CompactBlock>, current: nat, mid: nat, to: nat, prior: Option<Hash>,
    va: seq<ValidatedBlock>, vb: seq<ValidatedBlock>)
    requires a != [] && RangeOf(a, current, mid, prior) == Ok(va)
    requires RangeOf(b, mid + 1, to, LastHash(va)) == Ok(vb)
    ensures RangeOf(a + b, current, to, prior) == Ok(va + vb)
  {
    CheckBlocksAppend(a, b, current, prior);
  }

  lemma NextAnswered(calls: seq<Answer>, n: nat)
    requires n < |calls| && calls[0].Blocks?
    ensures AnsweredBlocks(calls, n + 1) == calls[0].blocks + AnsweredBlocks(calls[1..], n)
    ensures AnsweredBlocks(calls, 1) == calls[0].blocks
  {
    assert AnsweredBlocks(calls[1..], 0) == [];
  }

  /** A finished sync consumed exactly what one validation of the whole range would return. */
  lemma {:induction false} BatchedIsOneRange(calls: seq<Answer>, current: nat, to: nat, prior: Option<Hash>)
    requires current <= to && Batched(calls, current, to, prior).error.None?
    ensures BatchCount(current, to) <= |calls|
    ensures RangeOf(AnsweredBlocks(calls, BatchCount(current, to)), current, to, prior)
         == Ok(Batched(calls, current, to, prior).consumed)
    decreases 1 + to - current
  {
    var end := BatchEnd(current, to);
    var blocks := Fetched(calls, current, end, prior).value;
    FetchedLength(calls, current, end, prior);
    if end == to {
      NextAnswered(calls, 0);
      assert blocks + [] == blocks;
    } else {
      var n, more := BatchCount(end + 1, to), Batched(calls[1..], end + 1, to, LastHash(blocks));
      BatchedIsOneRange(calls[1..], end + 1, to, LastHash(blocks));
      NextAnswered(calls, n);
      RangeAppend(calls[0].blocks, AnsweredBlocks(calls[1..], n), current, end, to, prior, blocks, more.consumed);
    }
  }

  /** What was consumed is what the first `n` answers validate to, and the next fetch fails. */
  ghost predicate StopsAfter(calls: seq<Answer>, current: nat, to: nat, prior: Option<Hash>, r: Synced, n: nat) {
    && |r.consumed| == n * BATCH_SIZE && n <= |calls| && current + |r.consumed| <= to
    && CheckBlocks(AnsweredBlocks(calls, n), current, prior) == Ok(r.consumed)
    && r.error.Some?
    && Fetched(calls[n..], current + |r.consumed|, BatchEnd(current + |r.consumed|, to),
         if n == 0 then prior else LastHash(r.consumed)) == Err(r.error.value)
  }

  lemma FetchedLength(calls: seq<Answer>, start: nat, end: nat, prior: Option<Hash>)
    requires Fetched(calls, start, end, prior).Ok? && start <= end
    ensures var blocks := Fetched(calls, start, end, prior).value;
      && calls != [] && calls[0].Blocks?
      && CheckBlocks(calls[0].blocks, start, prior) == Ok(blocks)
      && |calls[0].blocks| == |blocks| == end + 1 - start
  {
    CheckBlocksAppend(calls[0].blocks, [], start, prior);
  }

  lemma StopsLater(
    calls: seq<Answer>, current: nat, to: nat, prior: Option<Hash>, blocks: seq<ValidatedBlock>, more: Synced, n: nat)
    requires Fetched(calls, current, current + BATCH_SIZE - 1, prior) == Ok(blocks)
    requires StopsAfter(calls[1..], current + BATCH_SIZE, to, LastHash(blocks), more, n)
    ensures StopsAfter(calls, current, to, prior, After(blocks, more), n + 1)
  {
    FetchedLength(calls, current, current + BATCH_SIZE - 1, prior);
    CheckBlocksAppend(calls[0].blocks, AnsweredBlocks(calls[1..], n), current, prior);
    assert calls[1..][n..] == calls[n + 1..];
    assert LastHash(blocks + more.consumed) == if n == 0 then LastHash(blocks) else LastHash(more.consumed);
  }

  lemma StopsNow(calls: seq<Answer>, current: nat, to: nat, prior: Option<Hash>, e: PipelineError)
    requires current <= to && Fetched(calls, current, BatchEnd(current, to), prior) == Err(e)
    ensures StopsAfter(calls, current, to, prior, Synced([], Some(e)), 0)
  {
    assert calls[0..] == calls;
  }

  lemma FailedLater(calls: seq<Answer>, current: nat, to: nat, prior: Option<Hash>, blocks: seq<ValidatedBlock>)
    requires Batched(calls, current, to, prior).error.Some? && Fetched(calls, current, BatchEnd(current, to), prior) == Ok(blocks)
    ensures calls != [] && BatchEnd(current, to) == current + BATCH_SIZE - 1 < to
    ensures Batched(calls, current, to, prior) == After(blocks, Batched(calls[1..], current + BATCH_SIZE, to, LastHash(blocks)))
  {
  }

  /** A sync stopped by a failed fetch or validation consumed whole validated batches only. */
  lemma {:induction false} BatchedStopsBetweenBatches(calls: seq<Answer>, current: nat, to: nat, prior: Option<Hash>)
    returns (n: nat)
    requires Batched(calls, current, to, prior).error.Some?
    ensures StopsAfter(calls, current, to, prior, Batched(calls, current, to, prior), n)
    decreases 1 + to - current
  {
    match Fetched(calls, current, BatchEnd(current, to), prior) {
      case Err(e) =>
        StopsNow(calls, current, to, prior, e);
        n := 0;
      case Ok(blocks) =>
        FailedLater(calls, current, to, prior, blocks);
        var m := BatchedStopsBetweenBatches(calls[1..], current + BATCH_SIZE, to, LastHash(blocks));
        StopsLater(calls, current, to, prior, blocks, Batched(calls[1..], current + BATCH_SIZE, to, LastHash(blocks)), m);
        n := m + 1;
    }
  }
}
