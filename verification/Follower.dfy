/** The reorg-tracking follow loop: bounded history, arbitrary server answers. */
module Follower {
  import opened Prelude
  import opened ChainData
  import opened Pipeline

  datatype Entry = Entry(height: nat, hash: Hash)

  /** The loop's variables between two iterations. */
  datatype State = State(history: seq<Entry>, current: nat)

  /** One iteration: the answers left, the variables, the emitted events, the error that ended the loop. */
  datatype Round = Round(calls: seq<Answer>, state: State, events: seq<BlockEvent>, error: Option<PipelineError>)

  // ── History ────────────────────────────────────────────────────────

  function HashAt(history: seq<Entry>, height: nat): Option<Hash> {
    if history == [] then None
    else if history[0].height == height then Some(history[0].hash)
    else HashAt(history[1..], height)
  }

  function Push(history: seq<Entry>, maxDepth: nat, height: nat, hash: Hash): seq<Entry> {
    var pushed := history + [Entry(height, hash)];
    if |pushed| > maxDepth then pushed[1..] else pushed
  }

  function PushAll(history: seq<Entry>, maxDepth: nat, blocks: seq<ValidatedBlock>): seq<Entry>
    decreases |blocks|
  {
    if blocks == [] then history
    else
      var n := |blocks| - 1;
      Push(PushAll(history, maxDepth, blocks[..n]), maxDepth, Height(blocks[n]), blocks[n].hash)
  }

  function TrimAbove(history: seq<Entry>, fork: nat): (kept: seq<Entry>)
    ensures |kept| <= |history| && kept == history[..|kept|]
  {
    if history != [] && history[|history| - 1].height > fork then TrimAbove(history[..|history| - 1], fork) else history
  }

  /** The highest fetched block whose hash the history also holds at that height. */
  function FindFork(history: seq<Entry>, overlap: seq<ValidatedBlock>): Option<nat>
    decreases |overlap|
  {
    if overlap == [] then None
    else
      var last := overlap[|overlap| - 1];
      if HashAt(history, Height(last)) == Some(last.hash) then Some(Height(last))
      else FindFork(history, overlap[..|overlap| - 1])
  }

  function NewBlocks(blocks: seq<ValidatedBlock>): (events: seq<BlockEvent>)
    ensures |events| == |blocks|
  {
    if blocks == [] then [] else NewBlocks(blocks[..|blocks| - 1]) + [NewBlock(blocks[|blocks| - 1])]
  }

  // ── One iteration ──────────────────────────────────────────────────

  /** A round with earlier events put before its own. */
  function After(events: seq<BlockEvent>, r: Round): Round {
    r.(events := events + r.events)
  }

  /** The variables after one more batch. */
  function Grow(state: State, blocks: seq<ValidatedBlock>, window: nat): State {
    state.(history := PushAll(state.history, window, blocks))
  }

  /** Fetching and emitting the blocks above the fork, batch by batch. */
  function Extended(calls: seq<Answer>, state: State, next: nat, target: nat, prior: Option<Hash>, window: nat): (r: Round)
    ensures |r.calls| <= |calls|
    decreases 1 + target - next
  {
    if next > target then Round(calls, state, [], None)
    else
      match Fetched(calls, next, BatchEnd(next, target), prior)
      case Err(e) => Round(Rest(calls), state, [], Some(e))
      case Ok(blocks) =>
        var end := BatchEnd(next, target);
        After(NewBlocks(blocks), Extended(Rest(calls), Grow(state, blocks, window), end + 1, target, LastHash(blocks), window))
  }

  /** The growing half of an iteration, on top of what was emitted before. */
  function Grown(calls: seq<Answer>, rolled: State, fork: nat, target: nat, window: nat): Round {
    if fork < target then Extended(calls, rolled, fork + 1, target, HashAt(rolled.history, fork), window)
    else Round(calls, rolled, [], None)
  }

  /** From a known fork: roll back if the tip is above it, then extend to the target. */
  function FromFork(calls: seq<Answer>, state: State, fork: nat, target: nat, window: nat): Round {
    var reorg := fork < state.current;
    var rolled := if reorg then state.(history := TrimAbove(state.history, fork)) else state;
    var before := if reorg then [Reorg(fork)] else [];
    var grown := Grown(calls, rolled, fork, target, window);
    grown.(events := before + grown.events,
           state := if grown.error.None? then grown.state.(current := target) else grown.state)
  }

  function Oldest(state: State): nat {
    if state.history == [] then state.current else state.history[0].height
  }

  function RoundOf(calls: seq<Answer>, state: State, depth: nat, window: nat): Round {
    if calls == [] || !calls[0].Tip? then Round(Rest(calls), state, [], Some(Client))
    else
      var target := SaturatingSub(calls[0].height, depth);
      var overlapEnd := Min(state.current, target);
      if overlapEnd < Oldest(state) then Round(calls[1..], state, [], Some(ReorgBeyondWindow(state.current, window)))
      else
        match Fetched(calls[1..], Oldest(state), overlapEnd, None)
        case Err(e) => Round(Rest(calls[1..]), state, [], Some(e))
        case Ok(overlap) =>
          match FindFork(state.history, overlap)
          case None => Round(Rest(calls[1..]), state, [], Some(ReorgBeyondWindow(state.current, window)))
          case Some(fork) => FromFork(Rest(calls[1..]), state, fork, target, window)
  }

  // ── The local chain ────────────────────────────────────────────────

  function KeepUpTo(log: seq<ValidatedBlock>, height: nat): (kept: seq<ValidatedBlock>)
    ensures |kept| <= |log| && kept == log[..|kept|]
  {
    if log != [] && Height(log[|log| - 1]) > height then KeepUpTo(log[..|log| - 1], height) else log
  }

  function TipHeight(log: seq<ValidatedBlock>): nat {
    if log == [] then 0 else Height(log[|log| - 1])
  }

  /** What a consumer's chain is after an event. */
  function Apply(log: seq<ValidatedBlock>, e: BlockEvent): seq<ValidatedBlock> {
    match e
    case NewBlock(b) => log + [b]
    case Reorg(to) => KeepUpTo(log, to)
  }

  function ApplyAll(log: seq<ValidatedBlock>, events: seq<BlockEvent>): seq<ValidatedBlock>
    decreases |events|
  {
    if events == [] then log else Apply(ApplyAll(log, events[..|events| - 1]), events[|events| - 1])
  }

  /** A new block extends the tip; a rollback goes to a held height, fewer than `window` blocks down. */
  ghost predicate Legal(log: seq<ValidatedBlock>, e: BlockEvent, window: nat) {
    && log != []
    && var tip := log[|log| - 1];
    match e
    case NewBlock(b) => Height(b) == Height(tip) + 1 && b.prevHash == tip.hash
    case Reorg(to) => Height(log[0]) <= to < Height(tip) && Height(tip) - to < window
  }

  ghost predicate LegalRun(log: seq<ValidatedBlock>, events: seq<BlockEvent>, window: nat)
    decreases |events|
  {
    events == [] ||
    (var n := |events| - 1;
     LegalRun(log, events[..n], window) && Legal(ApplyAll(log, events[..n]), events[n], window))
  }

  /** The history is the newest part of the log, non-empty when the window is, at most the window long. */
  ghost predicate Tracks(log: seq<ValidatedBlock>, state: State, window: nat) {
    && IsSuffix(log, state.history, window)
    && state.current == Height(log[|log| - 1])
  }

  /** The history repeats the newest entries of the log. */
  ghost predicate Repeats(log: seq<ValidatedBlock>, history: seq<Entry>) {
    && |history| <= |log|
    && forall i :: 0 <= i < |history| ==>
         history[i] == Entry(Height(log[|log| - |history| + i]), log[|log| - |history| + i].hash)
  }

  ghost predicate IsSuffix(log: seq<ValidatedBlock>, history: seq<Entry>, window: nat) {
    && log != [] && Linked(log)
    && Bounded(history, window) && Repeats(log, history)
  }

  // ── Steps keep the log linked and the history a suffix ─────────────

  /** The history is at most the window long, and not empty unless the window is. */
  ghost predicate Bounded(history: seq<Entry>, window: nat) {
    |history| <= window && (window > 0 ==> history != [])
  }

  lemma LinkedOneMore(log: seq<ValidatedBlock>, b: ValidatedBlock)
    requires Linked(log) && IsNext(log, b)
    ensures Linked(log + [b])
  {
  }

  lemma RepeatsOneMore(log: seq<ValidatedBlock>, history: seq<Entry>, b: ValidatedBlock)
    requires Repeats(log, history)
    ensures Repeats(log + [b], history + [Entry(Height(b), b.hash)])
  {
    var log', pushed := log + [b], history + [Entry(Height(b), b.hash)];
    var shift := |log| - |history|;
    forall i | 0 <= i < |pushed| ensures pushed[i] == Entry(Height(log'[shift + i]), log'[shift + i].hash) {
      assert i < |history| ==> pushed[i] == history[i] && log'[shift + i] == log[shift + i];
    }
  }

  lemma RepeatsWithoutFirst(log: seq<ValidatedBlock>, history: seq<Entry>)
    requires Repeats(log, history) && history != []
    ensures Repeats(log, history[1..])
  {
    var shift := |log| - |history| + 1;
    forall i | 0 <= i < |history| - 1 ensures history[1..][i] == Entry(Height(log[shift + i]), log[shift + i].hash) {
      assert history[1..][i] == history[i + 1];
    }
  }

  lemma PushRepeats(log: seq<ValidatedBlock>, history: seq<Entry>, window: nat, b: ValidatedBlock)
    requires Repeats(log, history) && Bounded(history, window)
    ensures Repeats(log + [b], Push(history, window, Height(b), b.hash))
    ensures Bounded(Push(history, window, Height(b), b.hash), window)
  {
    RepeatsOneMore(log, history, b);
    if |history| == window {
      RepeatsWithoutFirst(log + [b], history + [Entry(Height(b), b.hash)]);
    }
  }

  lemma PushKeepsSuffix(log: seq<ValidatedBlock>, history: seq<Entry>, window: nat, b: ValidatedBlock)
    requires IsSuffix(log, history, window) && IsNext(log, b)
    ensures IsSuffix(log + [b], Push(history, window, Height(b), b.hash), window)
  {
    LinkedOneMore(log, b);
    PushRepeats(log, history, window, b);
  }

  lemma {:induction false} KeepIndex(log: seq<ValidatedBlock>, height: nat)
    requires log != [] && Linked(log) && Height(log[0]) <= height <= Height(log[|log| - 1])
    ensures |KeepUpTo(log, height)| == height - Height(log[0]) + 1
    decreases |log|
  {
    if Height(log[|log| - 1]) > height {
      KeepIndex(log[..|log| - 1], height);
    }
  }

  lemma {:induction false} TrimIndex(history: seq<Entry>, first: nat, fork: nat)
    requires forall i :: 0 <= i < |history| ==> history[i].height == first + i
    requires history != [] && first <= fork < first + |history|
    ensures |TrimAbove(history, fork)| == fork - first + 1
    decreases |history|
  {
    if history[|history| - 1].height > fork {
      TrimIndex(history[..|history| - 1], first, fork);
    }
  }

  lemma TrimKeepsSuffix(log: seq<ValidatedBlock>, history: seq<Entry>, window: nat, fork: nat)
    requires IsSuffix(log, history, window) && history != []
    requires history[0].height <= fork <= Height(log[|log| - 1])
    ensures IsSuffix(KeepUpTo(log, fork), TrimAbove(history, fork), window)
    ensures Height(KeepUpTo(log, fork)[|KeepUpTo(log, fork)| - 1]) == fork
  {
    KeepIndex(log, fork);
    TrimIndex(history, history[0].height, fork);
  }

  lemma {:induction false} HashAtIndex(history: seq<Entry>, first: nat, height: nat)
    requires forall i :: 0 <= i < |history| ==> history[i].height == first + i
    ensures HashAt(history, height) ==
      if first <= height < first + |history| then Some(history[height - first].hash) else None
    decreases |history|
  {
    if history != [] && history[0].height != height {
      HashAtIndex(history[1..], first + 1, height);
    }
  }

  lemma {:induction false} ForkIsHeld(history: seq<Entry>, overlap: seq<ValidatedBlock>)
    requires FindFork(history, overlap).Some?
    ensures var fork := FindFork(history, overlap).value;
      exists i :: 0 <= i < |overlap| && Height(overlap[i]) == fork && HashAt(history, fork) == Some(overlap[i].hash)
        && forall j :: i < j < |overlap| ==> HashAt(history, Height(overlap[j])) != Some(overlap[j].hash)
    decreases |overlap|
  {
    var n := |overlap| - 1;
    if HashAt(history, Height(overlap[n])) != Some(overlap[n].hash) {
      ForkIsHeld(history, overlap[..n]);
    }
  }

  // ── Runs ───────────────────────────────────────────────────────────

  lemma {:induction false} ApplyAllAppend(log: seq<ValidatedBlock>, a: seq<BlockEvent>, b: seq<BlockEvent>)
    ensures ApplyAll(log, a + b) == ApplyAll(ApplyAll(log, a), b)
    decreases |b|
  {
    if b == [] {
      assert a + b == a;
    } else {
      var n := |b| - 1;
      assert (a + b)[..|a| + n] == a + b[..n];
      ApplyAllAppend(log, a, b[..n]);
    }
  }

  lemma {:induction false} LegalRunAppend(log: seq<ValidatedBlock>, a: seq<BlockEvent>, b: seq<BlockEvent>, window: nat)
    requires LegalRun(log, a, window) && LegalRun(ApplyAll(log, a), b, window)
    ensures LegalRun(log, a + b, window)
    decreases |b|
  {
    if b == [] {
      assert a + b == a;
    } else {
      var n := |b| - 1;
      assert (a + b)[..|a| + n] == a + b[..n];
      LegalRunAppend(log, a, b[..n], window);
      ApplyAllAppend(log, a, b[..n]);
    }
  }

  /** A run that may stop early is legal too. */
  lemma {:induction false} LegalRunPrefix(log: seq<ValidatedBlock>, events: seq<BlockEvent>, window: nat, n: nat)
    requires LegalRun(log, events, window) && n <= |events|
    ensures LegalRun(log, events[..n], window)
    decreases |events|
  {
    if n < |events| {
      LegalRunPrefix(log, events[..|events| - 1], window, n);
      assert events[..|events| - 1][..n] == events[..n];
    } else {
      assert events[..n] == events;
    }
  }

  /** Whatever the server answers, the chain a consumer builds stays contiguous and linked. */
  lemma {:induction false} LegalRunKeepsLinked(log: seq<ValidatedBlock>, events: seq<BlockEvent>, window: nat)
    requires log != [] && Linked(log) && LegalRun(log, events, window)
    ensures ApplyAll(log, events) != [] && Linked(ApplyAll(log, events))
    ensures ApplyAll(log, events)[0] == log[0]
    decreases |events|
  {
    if events != [] {
      var n := |events| - 1;
      LegalRunKeepsLinked(log, events[..n], window);
      var before := ApplyAll(log, events[..n]);
      if events[n].Reorg? {
        KeepIndex(before, events[n].rollbackTo);
      }
    }
  }

  ghost predicate IsNext(log: seq<ValidatedBlock>, b: ValidatedBlock) {
    log != [] && Height(b) == Height(log[|log| - 1]) + 1 && b.prevHash == log[|log| - 1].hash
  }

  /** The blocks continue the log, one after the other. */
  ghost predicate Continues(log: seq<ValidatedBlock>, blocks: seq<ValidatedBlock>)
    decreases |blocks|
  {
    blocks == [] ||
    (var n := |blocks| - 1;
     Continues(log, blocks[..n]) && IsNext(log + blocks[..n], blocks[n]))
  }

  lemma {:induction false} LinkedContinues(log: seq<ValidatedBlock>, blocks: seq<ValidatedBlock>)
    requires log != [] && Linked(blocks) && (blocks != [] ==> IsNext(log, blocks[0]))
    ensures Continues(log, blocks)
    decreases |blocks|
  {
    if blocks != [] {
      LinkedContinues(log, blocks[..|blocks| - 1]);
      NextBlockFollows(log, blocks, |blocks| - 1);
    }
  }

  lemma {:induction false} NewBlocksAreLegal(log: seq<ValidatedBlock>, blocks: seq<ValidatedBlock>, window: nat)
    requires Continues(log, blocks)
    ensures LegalRun(log, NewBlocks(blocks), window)
    ensures ApplyAll(log, NewBlocks(blocks)) == log + blocks
    decreases |blocks|
  {
    if blocks == [] {
      assert log + blocks == log;
    } else {
      var n := |blocks| - 1;
      NewBlocksAreLegal(log, blocks[..n], window);
      NewBlockIsLegal(log, NewBlocks(blocks[..n]), log + blocks[..n], blocks[n], window);
      assert (log + blocks[..n]) + [blocks[n]] == log + blocks;
    }
  }

  lemma {:induction false} PushAllRepeats(
    log: seq<ValidatedBlock>, history: seq<Entry>, blocks: seq<ValidatedBlock>, window: nat)
    requires Repeats(log, history) && Bounded(history, window)
    ensures Repeats(log + blocks, PushAll(history, window, blocks)) && Bounded(PushAll(history, window, blocks), window)
    decreases |blocks|
  {
    if blocks == [] {
      assert log + blocks == log;
    } else {
      var n := |blocks| - 1;
      PushAllRepeats(log, history, blocks[..n], window);
      PushRepeats(log + blocks[..n], PushAll(history, window, blocks[..n]), window, blocks[n]);
      assert (log + blocks[..n]) + [blocks[n]] == log + blocks;
    }
  }

  lemma {:induction false} ContinuedIsLinked(log: seq<ValidatedBlock>, blocks: seq<ValidatedBlock>)
    requires log != [] && Linked(log) && Continues(log, blocks)
    ensures Linked(log + blocks)
    decreases |blocks|
  {
    if blocks == [] {
      assert log + blocks == log;
    } else {
      var n := |blocks| - 1;
      ContinuedIsLinked(log, blocks[..n]);
      LinkedOneMore(log + blocks[..n], blocks[n]);
      assert (log + blocks[..n]) + [blocks[n]] == log + blocks;
    }
  }

  lemma PushAllKeepsSuffix(log: seq<ValidatedBlock>, history: seq<Entry>, blocks: seq<ValidatedBlock>, window: nat)
    requires IsSuffix(log, history, window) && Continues(log, blocks)
    ensures IsSuffix(log + blocks, PushAll(history, window, blocks), window)
  {
    PushAllRepeats(log, history, blocks, window);
    ContinuedIsLinked(log, blocks);
  }

  lemma NextBlockFollows(log: seq<ValidatedBlock>, blocks: seq<ValidatedBlock>, n: nat)
    requires Linked(blocks) && |blocks| == n + 1 && IsNext(log, blocks[0])
    ensures IsNext(log + blocks[..n], blocks[n])
  {
    if n == 0 {
      assert log + blocks[..n] == log;
    } else {
      assert (log + blocks[..n])[|log| + n - 1] == blocks[n - 1];
    }
  }

  lemma NewBlockIsLegal(
    log: seq<ValidatedBlock>, events: seq<BlockEvent>, after: seq<ValidatedBlock>, b: ValidatedBlock, window: nat)
    requires LegalRun(log, events, window) && ApplyAll(log, events) == after && IsNext(after, b)
    ensures Legal(after, NewBlock(b), window)
    ensures LegalRun(log, events + [NewBlock(b)], window) && ApplyAll(log, events + [NewBlock(b)]) == after + [b]
  {
    assert (events + [NewBlock(b)])[..|events|] == events;
  }

  lemma FetchedIsLinked(calls: seq<Answer>, start: nat, end: nat, prior: Option<Hash>)
    requires Fetched(calls, start, end, prior).Ok? && start <= end
    ensures var blocks := Fetched(calls, start, end, prior).value;
      && |blocks| == end + 1 - start && Linked(blocks) && Height(blocks[0]) == start
      && (prior.Some? ==> blocks[0].prevHash == prior.value)
  {
    FetchedLength(calls, start, end, prior);
    CheckBlocksIff(calls[0].blocks, start, prior, Fetched(calls, start, end, prior).value);
  }

  ghost predicate Extends(log: seq<ValidatedBlock>, r: Round, target: nat, window: nat) {
    && LegalRun(log, r.events, window)
    && IsSuffix(ApplyAll(log, r.events), r.state.history, window)
    && (r.error.None? ==> Height(ApplyAll(log, r.events)[|ApplyAll(log, r.events)| - 1]) == target)
  }

  lemma ExtendsAfter(
    log: seq<ValidatedBlock>, events: seq<BlockEvent>, log': seq<ValidatedBlock>, r: Round, target: nat, window: nat)
    requires LegalRun(log, events, window) && ApplyAll(log, events) == log' && Extends(log', r, target, window)
    ensures Extends(log, After(events, r), target, window)
  {
    LegalRunAppend(log, events, r.events, window);
    ApplyAllAppend(log, events, r.events);
  }

  /** The next batch continues the log from its tip. */
  ghost predicate AtTip(log: seq<ValidatedBlock>, history: seq<Entry>, next: nat, prior: Option<Hash>, window: nat) {
    IsSuffix(log, history, window) && Height(log[|log| - 1]) + 1 == next && prior == Some(log[|log| - 1].hash)
  }

  lemma BatchIsLegal(
    log: seq<ValidatedBlock>, calls: seq<Answer>, history: seq<Entry>, next: nat, end: nat, prior: Option<Hash>,
    window: nat, blocks: seq<ValidatedBlock>)
    requires AtTip(log, history, next, prior, window) && next <= end && Fetched(calls, next, end, prior) == Ok(blocks)
    ensures LegalRun(log, NewBlocks(blocks), window) && ApplyAll(log, NewBlocks(blocks)) == log + blocks
    ensures AtTip(log + blocks, PushAll(history, window, blocks), end + 1, LastHash(blocks), window)
  {
    FetchedIsLinked(calls, next, end, prior);
    LinkedContinues(log, blocks);
    NewBlocksAreLegal(log, blocks, window);
    PushAllKeepsSuffix(log, history, blocks, window);
  }

  lemma ExtendsByNothing(
    log: seq<ValidatedBlock>, calls: seq<Answer>, state: State, next: nat, target: nat, prior: Option<Hash>, window: nat,
    error: Option<PipelineError>)
    requires AtTip(log, state.history, next, prior, window) && (error.None? ==> next == target + 1)
    ensures Extends(log, Round(calls, state, [], error), target, window)
  {
  }

  lemma {:induction false} ExtendedIsLegal(
    log: seq<ValidatedBlock>, calls: seq<Answer>, state: State, next: nat, target: nat, prior: Option<Hash>, window: nat)
    requires AtTip(log, state.history, next, prior, window) && next <= target + 1
    ensures Extends(log, Extended(calls, state, next, target, prior, window), target, window)
    decreases 1 + target - next
  {
    if next > target {
      ExtendsByNothing(log, calls, state, next, target, prior, window, None);
    } else {
      var end := BatchEnd(next, target);
      var fetched := Fetched(calls, next, end, prior);
      if fetched.Err? {
        ExtendsByNothing(log, Rest(calls), state, next, target, prior, window, Some(fetched.error));
      } else {
        var blocks := fetched.value;
        BatchIsLegal(log, calls, state.history, next, end, prior, window, blocks);
        var state' := Grow(state, blocks, window);
        ExtendedIsLegal(log + blocks, Rest(calls), state', end + 1, target, LastHash(blocks), window);
        ExtendsAfter(log, NewBlocks(blocks), log + blocks,
          Extended(Rest(calls), state', end + 1, target, LastHash(blocks), window), target, window);
      }
    }
  }

  lemma RollbackIsLegal(log: seq<ValidatedBlock>, state: State, fork: nat, window: nat)
    requires Tracks(log, state, window) && state.history != [] && state.history[0].height <= fork < state.current
    ensures LegalRun(log, [Reorg(fork)], window) && ApplyAll(log, [Reorg(fork)]) == KeepUpTo(log, fork)
    ensures IsSuffix(KeepUpTo(log, fork), TrimAbove(state.history, fork), window)
    ensures Height(KeepUpTo(log, fork)[|KeepUpTo(log, fork)| - 1]) == fork
  {
    TrimKeepsSuffix(log, state.history, window, fork);
    OneEvent(log, Reorg(fork), window);
  }

  lemma OneEvent(log: seq<ValidatedBlock>, e: BlockEvent, window: nat)
    ensures LegalRun(log, [e], window) <==> Legal(log, e, window)
    ensures ApplyAll(log, [e]) == Apply(log, e)
  {
    var events := [e];
    assert events[..0] == [];
    assert LegalRun(log, events[..0], window) && ApplyAll(log, events[..0]) == log;
  }

  /** At a tracked tip the history knows the tip's hash. */
  lemma TipHash(log: seq<ValidatedBlock>, history: seq<Entry>, window: nat)
    requires IsSuffix(log, history, window) && history != []
    ensures HashAt(history, Height(log[|log| - 1])) == Some(log[|log| - 1].hash)
  {
    HashAtIndex(history, history[0].height, Height(log[|log| - 1]));
  }

  lemma GrownIsLegal(
    log: seq<ValidatedBlock>, before: seq<BlockEvent>, mid: seq<ValidatedBlock>, calls: seq<Answer>, rolled: State,
    fork: nat, target: nat, window: nat)
    requires LegalRun(log, before, window) && ApplyAll(log, before) == mid
    requires IsSuffix(mid, rolled.history, window) && rolled.history != []
    requires Height(mid[|mid| - 1]) == fork <= target
    ensures var g := Grown(calls, rolled, fork, target, window);
      Extends(log, g.(events := before + g.events), target, window)
  {
    var g := Grown(calls, rolled, fork, target, window);
    TipHash(mid, rolled.history, window);
    if fork < target {
      ExtendedIsLegal(mid, calls, rolled, fork + 1, target, HashAt(rolled.history, fork), window);
      LegalRunAppend(log, before, g.events, window);
      ApplyAllAppend(log, before, g.events);
    } else {
      assert before + [] == before;
    }
  }

  lemma FromForkIsLegal(log: seq<ValidatedBlock>, calls: seq<Answer>, state: State, fork: nat, target: nat, window: nat)
    requires Tracks(log, state, window) && state.history != []
    requires state.history[0].height <= fork <= Min(state.current, target)
    ensures Extends(log, FromFork(calls, state, fork, target, window), target, window)
  {
    if fork < state.current {
      RollbackIsLegal(log, state, fork, window);
      GrownIsLegal(log, [Reorg(fork)], KeepUpTo(log, fork), calls,
        state.(history := TrimAbove(state.history, fork)), fork, target, window);
    } else {
      GrownIsLegal(log, [], log, calls, state, fork, target, window);
    }
  }

  /** The invariant of the follow loop, for any answers. */
  lemma RoundIsLegal(log: seq<ValidatedBlock>, calls: seq<Answer>, state: State, depth: nat, window: nat)
    requires Tracks(log, state, window)
    ensures var r := RoundOf(calls, state, depth, window);
      && LegalRun(log, r.events, window)
      && IsSuffix(ApplyAll(log, r.events), r.state.history, window)
      && (r.error.None? ==> Tracks(ApplyAll(log, r.events), r.state, window))
  {
    if calls != [] && calls[0].Tip? {
      var target := SaturatingSub(calls[0].height, depth);
      var overlapEnd := Min(state.current, target);
      if overlapEnd >= Oldest(state) && Fetched(calls[1..], Oldest(state), overlapEnd, None).Ok? {
        var overlap := Fetched(calls[1..], Oldest(state), overlapEnd, None).value;
        if FindFork(state.history, overlap).Some? {
          var fork := FindFork(state.history, overlap).value;
          FetchedIsLinked(calls[1..], Oldest(state), overlapEnd, None);
          ForkIsHeld(state.history, overlap);
          FromForkIsLegal(log, Rest(calls[1..]), state, fork, target, window);
        }
      }
    }
  }

  // ── The loop itself ────────────────────────────────────────────────

  /** Pushes and emits one validated batch. */
  method Emit(history: seq<Entry>, window: nat, blocks: seq<ValidatedBlock>)
    returns (history': seq<Entry>, events: seq<BlockEvent>)
    ensures history' == PushAll(history, window, blocks) && events == NewBlocks(blocks)
  {
    history', events := history, [];
    for i := 0 to |blocks|
      invariant history' == PushAll(history, window, blocks[..i]) && events == NewBlocks(blocks[..i])
    {
      assert blocks[..i + 1][..i] == blocks[..i];
      history' := Push(history', window, Height(blocks[i]), blocks[i].hash);
      events := events + [NewBlock(blocks[i])];
    }
    assert blocks[..|blocks|] == blocks;
  }

  lemma AfterTwice(a: seq<BlockEvent>, b: seq<BlockEvent>, r: Round)
    ensures After(a, After(b, r)) == After(a + b, r)
    ensures After([], r) == r
  {
    assert a + (b + r.events) == (a + b) + r.events;
    assert [] + r.events == r.events;
  }

  lemma ExtensionStops(
    calls: seq<Answer>, state: State, next: nat, target: nat, prior: Option<Hash>, window: nat, error: PipelineError)
    requires next <= target && Fetched(calls, next, BatchEnd(next, target), prior) == Err(error)
    ensures Extended(calls, state, next, target, prior, window) == Round(Rest(calls), state, [], Some(error))
  {
  }

  lemma ExtensionGoesOn(
    calls: seq<Answer>, state: State, next: nat, target: nat, prior: Option<Hash>, window: nat, events: seq<BlockEvent>,
    end: nat, blocks: seq<ValidatedBlock>)
    requires next <= target && end == BatchEnd(next, target) && Fetched(calls, next, end, prior) == Ok(blocks)
    ensures After(events, Extended(calls, state, next, target, prior, window))
      == After(events + NewBlocks(blocks),
               Extended(Rest(calls), Grow(state, blocks, window), end + 1, target, LastHash(blocks), window))
  {
    AfterTwice(events, NewBlocks(blocks),
      Extended(Rest(calls), Grow(state, blocks, window), end + 1, target, LastHash(blocks), window));
  }

  method Extend(calls: seq<Answer>, state: State, next: nat, target: nat, prior: Option<Hash>, window: nat)
    returns (r: Round)
    ensures r == Extended(calls, state, next, target, prior, window)
  {
    var answers, s, from, expectedPrev := calls, state, next, prior;
    var events: seq<BlockEvent> := [];
    AfterTwice([], [], Extended(calls, state, next, target, prior, window));
    while from <= target
      invariant Extended(calls, state, next, target, prior, window)
             == After(events, Extended(answers, s, from, target, expectedPrev, window))
      decreases 1 + target - from
    {
      var end := BatchEnd(from, target);
      var fetched, rest := FetchValidated(answers, from, end, expectedPrev);
      if fetched.Err? {
        ExtensionStops(answers, s, from, target, expectedPrev, window, fetched.error);
        return After(events, Round(rest, s, [], Some(fetched.error)));
      }
      ExtensionGoesOn(answers, s, from, target, expectedPrev, window, events, end, fetched.value);
      var history, batch := Emit(s.history, window, fetched.value);
      answers, s, from, expectedPrev := rest, s.(history := history), end + 1, LastHash(fetched.value);
      events := events + batch;
    }
    return After(events, Round(answers, s, [], None));
  }

  /** From a known fork: pop, report, extend. */
  method RollAndExtend(calls: seq<Answer>, state: State, fork: nat, target: nat, window: nat) returns (r: Round)
    ensures r == FromFork(calls, state, fork, target, window)
  {
    var history := state.history;
    var events: seq<BlockEvent> := [];
    if fork < state.current {
      events := [Reorg(fork)];
      while history != [] && history[|history| - 1].height > fork
        invariant TrimAbove(history, fork) == TrimAbove(state.history, fork)
        decreases |history|
      {
        history := history[..|history| - 1];
      }
    }
    r := Round(calls, state.(history := history), [], None);
    if fork < target {
      r := Extend(calls, state.(history := history), fork + 1, target, HashAt(history, fork), window);
    }
    r := r.(events := events + r.events, state := if r.error.None? then r.state.(current := target) else r.state);
  }

  /** One pass of the loop: tip, overlap, fork, rollback, extension. */
  method FollowRound(calls: seq<Answer>, state: State, depth: nat, window: nat) returns (r: Round)
    ensures r == RoundOf(calls, state, depth, window)
  {
    if calls == [] || !calls[0].Tip? {
      return Round(Rest(calls), state, [], Some(Client));
    }
    var target := SaturatingSub(calls[0].height, depth);
    var overlapEnd := Min(state.current, target);
    var oldest := Oldest(state);
    if overlapEnd < oldest {
      return Round(calls[1..], state, [], Some(ReorgBeyondWindow(state.current, window)));
    }
    var overlap, rest := FetchValidated(calls[1..], oldest, overlapEnd, None);
    if overlap.Err? {
      return Round(rest, state, [], Some(overlap.error));
    }
    var found := FindFork(state.history, overlap.value);
    if found.None? {
      return Round(rest, state, [], Some(ReorgBeyondWindow(state.current, window)));
    }
    r := RollAndExtend(rest, state, found.value, target, window);
  }

  lemma RoundConsumesAnswers(calls: seq<Answer>, state: State, depth: nat, window: nat)
    requires RoundOf(calls, state, depth, window).error.None?
    ensures |RoundOf(calls, state, depth, window).calls| < |calls|
  {
  }

  /** All iterations until one ends in an error; a finite list of answers always runs out. */
  function Followed(calls: seq<Answer>, state: State, depth: nat, window: nat): (r: Round)
    ensures r.error.Some?
    decreases |calls|
  {
    var r := RoundOf(calls, state, depth, window);
    if r.error.Some? then r
    else
      RoundConsumesAnswers(calls, state, depth, window);
      After(r.events, Followed(r.calls, r.state, depth, window))
  }

  lemma NextRound(
    recent: seq<ValidatedBlock>, events: seq<BlockEvent>, calls: seq<Answer>, state: State, depth: nat, window: nat, r: Round)
    requires LegalRun(recent, events, window) && Tracks(ApplyAll(recent, events), state, window)
    requires r == RoundOf(calls, state, depth, window)
    ensures LegalRun(recent, events + r.events, window)
    ensures IsSuffix(ApplyAll(recent, events + r.events), r.state.history, window)
    ensures r.error.None? ==> Tracks(ApplyAll(recent, events + r.events), r.state, window) && |r.calls| < |calls|
  {
    RoundIsLegal(ApplyAll(recent, events), calls, state, depth, window);
    LegalRunAppend(recent, events, r.events, window);
    ApplyAllAppend(recent, events, r.events);
    if r.error.None? {
      RoundConsumesAnswers(calls, state, depth, window);
    }
  }

  lemma {:induction false} InitialSuffix(recent: seq<ValidatedBlock>, window: nat, n: nat)
    requires 0 < n <= |recent| && Linked(recent)
    ensures IsSuffix(recent[..n], PushAll([], window, recent[..n]), window)
    decreases n
  {
    assert recent[..n][..n - 1] == recent[..n - 1];
    if n > 1 {
      InitialSuffix(recent, window, n - 1);
      assert recent[..n] == recent[..n - 1] + [recent[n - 1]];
      PushKeepsSuffix(recent[..n - 1], PushAll([], window, recent[..n - 1]), window, recent[n - 1]);
    } else {
      assert PushAll([], window, recent[..0]) == [];
    }
  }

  function HistoryStart(startHeight: nat, window: nat): nat {
    if startHeight == 0 then 0
    else
      var back := SaturatingSub(startHeight, SaturatingSub(window, 1));
      if back < 1 then 1 else back
  }

  /** The history of the blocks tracked at the start. */
  method TrackAll(recent: seq<ValidatedBlock>, window: nat) returns (history: seq<Entry>)
    requires recent != [] && Linked(recent)
    ensures history == PushAll([], window, recent) && IsSuffix(recent, history, window)
  {
    history := [];
    for i := 0 to |recent|
      invariant history == PushAll([], window, recent[..i])
    {
      assert recent[..i + 1][..i] == recent[..i];
      history := Push(history, window, Height(recent[i]), recent[i].hash);
    }
    InitialSuffix(recent, window, |recent|);
    assert recent[..|recent|] == recent;
  }

  /** The loop proper, from tracked blocks until an error ends it. */
  method FollowFrom(calls: seq<Answer>, recent: seq<ValidatedBlock>, start: State, depth: nat, window: nat) returns (r: Round)
    requires Tracks(recent, start, window)
    ensures r == Followed(calls, start, depth, window)
    ensures LegalRun(recent, r.events, window) && IsSuffix(ApplyAll(recent, r.events), r.state.history, window)
  {
    var answers, state := calls, start;
    var events: seq<BlockEvent> := [];
    AfterTwice([], [], Followed(calls, start, depth, window));
    while true
      invariant LegalRun(recent, events, window)
      invariant Tracks(ApplyAll(recent, events), state, window)
      invariant Followed(calls, start, depth, window) == After(events, Followed(answers, state, depth, window))
      decreases |answers|
    {
      r := FollowRound(answers, state, depth, window);
      NextRound(recent, events, answers, state, depth, window, r);
      if r.error.Some? {
        return After(events, r);
      }
      AfterTwice(events, r.events, Followed(r.calls, r.state, depth, window));
      events := events + r.events;
      answers, state := r.calls, r.state;
    }
  }

  /** The blocks tracked at the start, if the server's range ends in the block the stores ended with. */
  function Started(calls: seq<Answer>, startHeight: nat, startHash: Hash, window: nat): Result<seq<ValidatedBlock>, PipelineError> {
    match Fetched(calls, HistoryStart(startHeight, window), startHeight, None)
    case Err(e) => Err(e)
    case Ok(blocks) => if LastHash(blocks) == Some(startHash) then Ok(blocks) else Err(ReorgBeyondWindow(startHeight, window))
  }

  /** How many blocks a start tracks: a full window, or all heights from 1 on when there are fewer. */
  ghost predicate TracksNewest(recent: seq<ValidatedBlock>, startHeight: nat, window: nat) {
    && recent != [] && Linked(recent) && Height(recent[|recent| - 1]) == startHeight
    && |recent| == if startHeight == 0 || window == 0 then 1 else Min(window, startHeight)
  }

  /** Exactly when a start succeeds, whatever the server sends: it sends the newest blocks up to the start
      height, linked, the last with the start hash. */
  lemma StartedIff(calls: seq<Answer>, startHeight: nat, startHash: Hash, window: nat, recent: seq<ValidatedBlock>)
    ensures Started(calls, startHeight, startHash, window) == Ok(recent) <==>
      && calls != [] && calls[0].Blocks? && SameBlocks(recent, calls[0].blocks)
      && TracksNewest(recent, startHeight, window)
      && recent[|recent| - 1].hash == startHash
  {
    if calls != [] && calls[0].Blocks? {
      CheckBlocksIff(calls[0].blocks, HistoryStart(startHeight, window), None, recent);
    }
  }

  /** Either the start fails, or the passes run from the blocks it fetched. */
  ghost predicate IsFollowRun(
    calls: seq<Answer>, startHeight: nat, startHash: Hash, depth: nat, window: nat, recent: seq<ValidatedBlock>, r: Round)
  {
    match Started(calls, startHeight, startHash, window)
    case Err(e) => recent == [] && r.events == [] && r.error == Some(e)
    case Ok(blocks) =>
      recent == blocks && r == Followed(Rest(calls), State(PushAll([], window, blocks), startHeight), depth, window)
  }

  /** The follow loop over a finite list of server answers (it has no other way to end than an error).
      `recent` are the blocks tracked at the start, the round holds everything emitted and the history
      at the end. */
  method FollowBlocks(calls: seq<Answer>, startHeight: nat, startHash: Hash, depth: nat, window: nat)
    returns (recent: seq<ValidatedBlock>, r: Round)
    ensures IsFollowRun(calls, startHeight, startHash, depth, window, recent, r)
    ensures recent != [] ==>
      && TracksNewest(recent, startHeight, window)
      && recent[|recent| - 1].hash == startHash
      && LegalRun(recent, r.events, window)
      && IsSuffix(ApplyAll(recent, r.events), r.state.history, window)
  {
    var historyStart := HistoryStart(startHeight, window);
    var first, answers := FetchValidated(calls, historyStart, startHeight, None);
    if first.Err? {
      return [], Round(answers, State([], startHeight), [], Some(first.error));
    }
    if LastHash(first.value) != Some(startHash) {
      return [], Round(answers, State([], startHeight), [], Some(ReorgBeyondWindow(startHeight, window)));
    }
    recent := first.value;
    StartedIff(calls, startHeight, startHash, window, recent);
    var history := TrackAll(recent, window);
    r := FollowFrom(answers, recent, State(history, startHeight), depth, window);
  }
}
