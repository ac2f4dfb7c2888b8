/** How far down the follow loop can undo a reorg. */
module FollowerHistory {
  import opened Prelude
  import opened ChainData
  import opened Pipeline
  import opened Follower
  import opened FollowerAgreement

  // ── The history is a function of the events ────────────────────────

  function HistoryAfter(history: seq<Entry>, window: nat, e: BlockEvent): seq<Entry> {
    match e
    case NewBlock(b) => Push(history, window, Height(b), b.hash)
    case Reorg(to) => TrimAbove(history, to)
  }

  function HistoryAfterAll(history: seq<Entry>, window: nat, events: seq<BlockEvent>): seq<Entry>
    decreases |events|
  {
    if events == [] then history
    else HistoryAfter(HistoryAfterAll(history, window, events[..|events| - 1]), window, events[|events| - 1])
  }

  lemma {:induction false} HistoryAppend(history: seq<Entry>, window: nat, a: seq<BlockEvent>, b: seq<BlockEvent>)
    ensures HistoryAfterAll(history, window, a + b) == HistoryAfterAll(HistoryAfterAll(history, window, a), window, b)
    decreases |b|
  {
    if b == [] {
      assert a + b == a;
    } else {
      var n := |b| - 1;
      assert (a + b)[..|a| + n] == a + b[..n];
      HistoryAppend(history, window, a, b[..n]);
    }
  }

  lemma {:induction false} PushedHistory(history: seq<Entry>, window: nat, blocks: seq<ValidatedBlock>)
    ensures HistoryAfterAll(history, window, NewBlocks(blocks)) == PushAll(history, window, blocks)
    decreases |blocks|
  {
    if blocks != [] {
      var n := |blocks| - 1;
      PushedHistory(history, window, blocks[..n]);
      assert NewBlocks(blocks)[..n] == NewBlocks(blocks[..n]);
    }
  }

  /** What a round leaves is what its events make of the history it began with. */
  ghost predicate ByEvents(before: State, r: Round, window: nat) {
    r.state.history == HistoryAfterAll(before.history, window, r.events)
  }

  lemma BatchByEvents(before: State, blocks: seq<ValidatedBlock>, later: Round, window: nat)
    requires ByEvents(Grow(before, blocks, window), later, window)
    ensures ByEvents(before, Follower.After(NewBlocks(blocks), later), window)
  {
    PushedHistory(before.history, window, blocks);
    HistoryAppend(before.history, window, NewBlocks(blocks), later.events);
  }

  lemma {:induction false} ExtendedHistory(
    calls: seq<Answer>, state: State, next: nat, target: nat, prior: Option<Hash>, window: nat)
    ensures ByEvents(state, Extended(calls, state, next, target, prior, window), window)
    decreases 1 + target - next
  {
    if next <= target && Fetched(calls, next, BatchEnd(next, target), prior).Ok? {
      var end := BatchEnd(next, target);
      var blocks := Fetched(calls, next, end, prior).value;
      ExtendedHistory(Rest(calls), Grow(state, blocks, window), end + 1, target, LastHash(blocks), window);
      BatchByEvents(state, blocks,
        Extended(Rest(calls), Grow(state, blocks, window), end + 1, target, LastHash(blocks), window), window);
    }
  }

  lemma FromForkHistory(calls: seq<Answer>, state: State, fork: nat, target: nat, window: nat)
    ensures ByEvents(state, FromFork(calls, state, fork, target, window), window)
  {
    var reorg := fork < state.current;
    var rolled := if reorg then state.(history := TrimAbove(state.history, fork)) else state;
    var before := if reorg then [Reorg(fork)] else [];
    if fork < target {
      ExtendedHistory(calls, rolled, fork + 1, target, HashAt(rolled.history, fork), window);
    }
    if reorg {
      assert before[..0] == [];
    }
    HistoryAppend(state.history, window, before, Grown(calls, rolled, fork, target, window).events);
  }

  lemma RoundHistory(calls: seq<Answer>, state: State, depth: nat, window: nat)
    ensures ByEvents(state, RoundOf(calls, state, depth, window), window)
  {
    if calls != [] && calls[0].Tip? {
      var target := SaturatingSub(calls[0].height, depth);
      var overlap := Fetched(calls[1..], Oldest(state), Min(state.current, target), None);
      if overlap.Ok? && FindFork(state.history, overlap.value).Some? {
        FromForkHistory(Rest(calls[1..]), state, FindFork(state.history, overlap.value).value, target, window);
      }
    }
  }

  /** Over all passes the history is what the emitted events make of the first one. */
  lemma {:induction false} FollowedHistory(calls: seq<Answer>, state: State, depth: nat, window: nat)
    ensures ByEvents(state, Followed(calls, state, depth, window), window)
    decreases |calls|
  {
    var first := RoundOf(calls, state, depth, window);
    RoundHistory(calls, state, depth, window);
    if first.error.None? {
      RoundConsumesAnswers(calls, state, depth, window);
      FollowedHistory(first.calls, first.state, depth, window);
      HistoryAppend(state.history, window, first.events, Followed(first.calls, first.state, depth, window).events);
    }
  }

  // ── How far down it reaches ────────────────────────────────────────

  /** The highest tip the log has had. */
  function HighestTip(log: seq<ValidatedBlock>, events: seq<BlockEvent>): nat
    decreases |events|
  {
    if events == [] then TipHeight(log) else Max(HighestTip(log, events[..|events| - 1]), TipHeight(ApplyAll(log, events)))
  }

  /** The lowest height that can still be undone: that of the first tracked block, or a full window below
      the highest tip so far. */
  function Lowest(recent: seq<ValidatedBlock>, events: seq<BlockEvent>, window: nat): int
    requires recent != []
  {
    Max(Height(recent[0]), HighestTip(recent, events) + 1 - window)
  }

  /** The history holds exactly the heights from `lowest` to the tip. */
  ghost predicate ReachesDownTo(log: seq<ValidatedBlock>, history: seq<Entry>, window: nat, lowest: int) {
    && IsSuffix(log, history, window) && history != []
    && history[0].height == lowest && |history| == TipHeight(log) + 1 - lowest
  }

  lemma {:induction false} WholeHistory(recent: seq<ValidatedBlock>, window: nat, n: nat)
    requires n <= |recent| <= window
    ensures |PushAll([], window, recent[..n])| == n
    decreases n
  {
    if n > 0 {
      WholeHistory(recent, window, n - 1);
      assert recent[..n][..n - 1] == recent[..n - 1];
    }
  }

  lemma StartReaches(recent: seq<ValidatedBlock>, window: nat)
    requires recent != [] && Linked(recent) && |recent| <= window
    ensures ReachesDownTo(recent, PushAll([], window, recent), window, Lowest(recent, [], window))
  {
    WholeHistory(recent, window, |recent|);
    InitialSuffix(recent, window, |recent|);
    assert recent[..|recent|] == recent;
  }

  lemma PushReaches(log: seq<ValidatedBlock>, history: seq<Entry>, window: nat, lowest: int, b: ValidatedBlock)
    requires ReachesDownTo(log, history, window, lowest) && IsNext(log, b) && window > 0
    ensures ReachesDownTo(log + [b], Push(history, window, Height(b), b.hash), window, Max(lowest, Height(b) + 1 - window))
  {
    PushKeepsSuffix(log, history, window, b);
  }

  lemma TrimReaches(log: seq<ValidatedBlock>, history: seq<Entry>, window: nat, lowest: int, fork: nat)
    requires ReachesDownTo(log, history, window, lowest) && lowest <= fork <= TipHeight(log)
    ensures ReachesDownTo(KeepUpTo(log, fork), TrimAbove(history, fork), window, lowest)
  {
    TrimKeepsSuffix(log, history, window, fork);
    TrimIndex(history, history[0].height, fork);
  }

  /** No rollback goes below what the history still holds. */
  ghost predicate StaysInReach(recent: seq<ValidatedBlock>, events: seq<BlockEvent>, window: nat)
    requires recent != []
    decreases |events|
  {
    events == [] ||
    (var n := |events| - 1;
     && StaysInReach(recent, events[..n], window)
     && (events[n].Reorg? ==> Lowest(recent, events[..n], window) <= events[n].rollbackTo))
  }

  lemma EventReaches(
    recent: seq<ValidatedBlock>, events: seq<BlockEvent>, n: nat, log: seq<ValidatedBlock>, history: seq<Entry>, window: nat)
    requires recent != [] && window > 0 && |events| == n + 1 && log == ApplyAll(recent, events[..n])
    requires ReachesDownTo(log, history, window, Lowest(recent, events[..n], window))
    requires Legal(log, events[n], window)
    requires events[n].Reorg? ==> Lowest(recent, events[..n], window) <= events[n].rollbackTo
    ensures ReachesDownTo(ApplyAll(recent, events), HistoryAfter(history, window, events[n]), window,
                          Lowest(recent, events, window))
  {
    match events[n]
    case NewBlock(b) => PushReaches(log, history, window, Lowest(recent, events[..n], window), b);
    case Reorg(to) =>
      TrimReaches(log, history, window, Lowest(recent, events[..n], window), to);
      TipBelow(recent, events[..n]);
  }

  lemma TipBelow(recent: seq<ValidatedBlock>, events: seq<BlockEvent>)
    ensures TipHeight(ApplyAll(recent, events)) <= HighestTip(recent, events)
  {
  }

  /** The history after a run reaches down to the first tracked block, or a full window below the highest tip. */
  lemma {:induction false} RunReaches(recent: seq<ValidatedBlock>, events: seq<BlockEvent>, window: nat)
    requires recent != [] && Linked(recent) && |recent| <= window
    requires LegalRun(recent, events, window) && StaysInReach(recent, events, window)
    ensures ReachesDownTo(ApplyAll(recent, events), HistoryAfterAll(PushAll([], window, recent), window, events), window,
                          Lowest(recent, events, window))
    decreases |events|
  {
    if events == [] {
      StartReaches(recent, window);
    } else {
      var n := |events| - 1;
      RunReaches(recent, events[..n], window);
      EventReaches(recent, events, n, ApplyAll(recent, events[..n]),
        HistoryAfterAll(PushAll([], window, recent), window, events[..n]), window);
    }
  }

  // ── What the loop emits stays in reach ─────────────────────────────

  ghost predicate OnlyBlocks(events: seq<BlockEvent>) {
    forall i :: 0 <= i < |events| ==> events[i].NewBlock?
  }

  lemma {:induction false} NewBlocksAreOnlyBlocks(blocks: seq<ValidatedBlock>)
    ensures OnlyBlocks(NewBlocks(blocks))
    decreases |blocks|
  {
    if blocks != [] {
      NewBlocksAreOnlyBlocks(blocks[..|blocks| - 1]);
    }
  }

  lemma {:induction false} ExtendedAddsBlocks(
    calls: seq<Answer>, state: State, next: nat, target: nat, prior: Option<Hash>, window: nat)
    ensures OnlyBlocks(Extended(calls, state, next, target, prior, window).events)
    decreases 1 + target - next
  {
    if next <= target && Fetched(calls, next, BatchEnd(next, target), prior).Ok? {
      var end := BatchEnd(next, target);
      var blocks := Fetched(calls, next, end, prior).value;
      ExtendedAddsBlocks(Rest(calls), Grow(state, blocks, window), end + 1, target, LastHash(blocks), window);
      NewBlocksAreOnlyBlocks(blocks);
    }
  }

  /** A round emits at most one rollback, first, and to a height the history holds. */
  ghost predicate RollsBackFirst(events: seq<BlockEvent>, oldest: nat) {
    events != [] ==> OnlyBlocks(events[1..]) && (events[0].Reorg? ==> oldest <= events[0].rollbackTo)
  }

  lemma RoundRollsBackFirst(calls: seq<Answer>, state: State, depth: nat, window: nat)
    ensures RollsBackFirst(RoundOf(calls, state, depth, window).events, Oldest(state))
  {
    if calls != [] && calls[0].Tip? {
      var target := SaturatingSub(calls[0].height, depth);
      var end := Min(state.current, target);
      var fetched := Fetched(calls[1..], Oldest(state), end, None);
      if end >= Oldest(state) && fetched.Ok? && FindFork(state.history, fetched.value).Some? {
        var fork := FindFork(state.history, fetched.value).value;
        FetchedIsLinked(calls[1..], Oldest(state), end, None);
        ForkIsHeld(state.history, fetched.value);
        FromForkRollsBackFirst(Rest(calls[1..]), state, fork, target, window);
      }
    }
  }

  lemma ReorgComesFirst(before: seq<BlockEvent>, later: seq<BlockEvent>, oldest: nat)
    requires OnlyBlocks(later) && (before == [] || (|before| == 1 && before[0].Reorg? && oldest <= before[0].rollbackTo))
    ensures RollsBackFirst(before + later, oldest)
  {
    if before == [] {
      assert before + later == later;
    } else {
      assert (before + later)[1..] == later;
    }
  }

  lemma {:induction false} FromForkRollsBackFirst(calls: seq<Answer>, state: State, fork: nat, target: nat, window: nat)
    requires Oldest(state) <= fork
    ensures RollsBackFirst(FromFork(calls, state, fork, target, window).events, Oldest(state))
  {
    var rolled := if fork < state.current then state.(history := TrimAbove(state.history, fork)) else state;
    if fork < target {
      ExtendedAddsBlocks(calls, rolled, fork + 1, target, HashAt(rolled.history, fork), window);
    }
    ReorgComesFirst(if fork < state.current then [Reorg(fork)] else [], Grown(calls, rolled, fork, target, window).events,
      Oldest(state));
  }

  lemma {:induction false} BlocksStayInReach(
    recent: seq<ValidatedBlock>, before: seq<BlockEvent>, events: seq<BlockEvent>, window: nat)
    requires recent != [] && StaysInReach(recent, before, window) && OnlyBlocks(events)
    ensures StaysInReach(recent, before + events, window)
    decreases |events|
  {
    if events == [] {
      assert before + events == before;
    } else {
      var n := |events| - 1;
      BlocksStayInReach(recent, before, events[..n], window);
      assert (before + events)[..|before| + n] == before + events[..n];
    }
  }

  lemma RoundStaysInReach(
    recent: seq<ValidatedBlock>, before: seq<BlockEvent>, events: seq<BlockEvent>, window: nat, oldest: nat)
    requires recent != [] && StaysInReach(recent, before, window) && RollsBackFirst(events, oldest)
    requires oldest == Lowest(recent, before, window)
    ensures StaysInReach(recent, before + events, window)
  {
    if events == [] {
      assert before + events == before;
    } else {
      assert (before + [events[0]])[..|before|] == before;
      BlocksStayInReach(recent, before + [events[0]], events[1..], window);
      assert (before + [events[0]]) + events[1..] == before + events;
    }
  }

  /** Where a run stands between two passes. */
  ghost predicate Standing(recent: seq<ValidatedBlock>, events: seq<BlockEvent>, history: seq<Entry>, window: nat)
    requires recent != []
  {
    && LegalRun(recent, events, window) && StaysInReach(recent, events, window)
    && history == HistoryAfterAll(PushAll([], window, recent), window, events)
  }

  /** The same with the loop's variables, so that another pass can run. */
  ghost predicate Ongoing(recent: seq<ValidatedBlock>, events: seq<BlockEvent>, state: State, window: nat)
    requires recent != []
  {
    && Standing(recent, events, state.history, window)
    && Linked(recent) && |recent| <= window && Tracks(ApplyAll(recent, events), state, window)
  }

  lemma NextRoundStands(
    recent: seq<ValidatedBlock>, events: seq<BlockEvent>, calls: seq<Answer>, state: State, depth: nat, window: nat)
    requires recent != [] && Ongoing(recent, events, state, window)
    ensures var r := RoundOf(calls, state, depth, window);
      && Standing(recent, events + r.events, r.state.history, window)
      && (r.error.None? ==> Ongoing(recent, events + r.events, r.state, window))
  {
    var r := RoundOf(calls, state, depth, window);
    NextRound(recent, events, calls, state, depth, window, r);
    RunReaches(recent, events, window);
    RoundRollsBackFirst(calls, state, depth, window);
    RoundStaysInReach(recent, events, r.events, window, Oldest(state));
    RoundHistory(calls, state, depth, window);
    HistoryAppend(PushAll([], window, recent), window, events, r.events);
  }

  ghost predicate StandsAfter(recent: seq<ValidatedBlock>, events: seq<BlockEvent>, r: Round, window: nat)
    requires recent != []
  {
    Standing(recent, events + r.events, r.state.history, window)
  }

  lemma StandsTwice(recent: seq<ValidatedBlock>, events: seq<BlockEvent>, more: seq<BlockEvent>, later: Round, window: nat)
    requires recent != [] && StandsAfter(recent, events + more, later, window)
    ensures StandsAfter(recent, events, Follower.After(more, later), window)
  {
    assert (events + more) + later.events == events + (more + later.events);
  }

  lemma {:induction false} FollowedStands(
    recent: seq<ValidatedBlock>, events: seq<BlockEvent>, calls: seq<Answer>, state: State, depth: nat, window: nat)
    requires recent != [] && Ongoing(recent, events, state, window)
    ensures StandsAfter(recent, events, Followed(calls, state, depth, window), window)
    decreases |calls|
  {
    var first := RoundOf(calls, state, depth, window);
    NextRoundStands(recent, events, calls, state, depth, window);
    if first.error.None? {
      RoundConsumesAnswers(calls, state, depth, window);
      FollowedStands(recent, events + first.events, first.calls, first.state, depth, window);
      StandsTwice(recent, events, first.events, Followed(first.calls, first.state, depth, window), window);
    }
  }

  /** THE RESULT on the history. Over every run of the loop, against any answers, the history holds exactly
      the heights from the lowest that can be undone to the tip, and no rollback goes below it. */
  lemma HistoryOfEveryRun(
    calls: seq<Answer>, startHeight: nat, startHash: Hash, depth: nat, window: nat, recent: seq<ValidatedBlock>, r: Round)
    requires IsFollowRun(calls, startHeight, startHash, depth, window, recent, r) && recent != [] && window > 0
    ensures LegalRun(recent, r.events, window) && StaysInReach(recent, r.events, window)
    ensures ReachesDownTo(ApplyAll(recent, r.events), r.state.history, window, Lowest(recent, r.events, window))
  {
    StartedIff(calls, startHeight, startHash, window, recent);
    StartReaches(recent, window);
    var start := State(PushAll([], window, recent), startHeight);
    FollowedStands(recent, [], Rest(calls), start, depth, window);
    assert [] + r.events == r.events;
    RunReaches(recent, r.events, window);
  }

  /** Until the first rollback the history is full, or as long as the tracked log. */
  lemma {:induction false} NoRollbackNoLoss(recent: seq<ValidatedBlock>, events: seq<BlockEvent>, window: nat)
    requires recent != [] && Linked(recent) && LegalRun(recent, events, window) && OnlyBlocks(events)
    ensures HighestTip(recent, events) == TipHeight(ApplyAll(recent, events)) == TipHeight(recent) + |events|
    ensures |ApplyAll(recent, events)| == |recent| + |events|
    decreases |events|
  {
    if events != [] {
      NoRollbackNoLoss(recent, events[..|events| - 1], window);
    }
  }

  lemma FullUntilRollback(recent: seq<ValidatedBlock>, events: seq<BlockEvent>, history: seq<Entry>, window: nat)
    requires recent != [] && Linked(recent) && LegalRun(recent, events, window) && OnlyBlocks(events)
    requires ReachesDownTo(ApplyAll(recent, events), history, window, Lowest(recent, events, window))
    ensures |history| == Min(window, |ApplyAll(recent, events)|)
  {
    NoRollbackNoLoss(recent, events, window);
  }

  // ── A fork within reach is followed ────────────────────────────────

  /** The remote chain shares height `fork` with the log, and no higher one up to `end`. */
  ghost predicate ForksAt(log: seq<ValidatedBlock>, remote: Remote, fork: nat, end: nat)
    requires log != []
  {
    && fork <= end && Agrees(log, remote, fork)
    && forall height: nat :: fork < height <= end ==> !Agrees(log, remote, height)
  }

  lemma CommonIffAgrees(log: seq<ValidatedBlock>, history: seq<Entry>, window: nat, lowest: int, remote: Remote, height: nat)
    requires ReachesDownTo(log, history, window, lowest) && lowest <= height <= TipHeight(log)
    ensures Common(history, remote, height) <==> Agrees(log, remote, height)
  {
    HashAtIndex(history, history[0].height, height);
  }

  lemma ForkIsCommon(
    log: seq<ValidatedBlock>, history: seq<Entry>, window: nat, lowest: nat, remote: Remote, fork: nat, end: nat)
    requires ReachesDownTo(log, history, window, lowest) && end <= TipHeight(log)
    requires lowest <= fork && ForksAt(log, remote, fork, end)
    ensures HighestCommon(history, remote, lowest, end, Some(fork))
  {
    CommonIffAgrees(log, history, window, lowest, remote, fork);
    forall height: nat | fork < height <= end
      ensures !Common(history, remote, height)
    {
      CommonIffAgrees(log, history, window, lowest, remote, height);
    }
  }

  /** The answers of one pass from a fixed chain: its tip, the held heights, and the blocks above the fork. */
  ghost predicate AnswersPass(
    calls: seq<Answer>, remote: Remote, tip: nat, target: nat, lowest: nat, end: nat, fork: nat)
  {
    && IsChain(remote) && Has(remote, target) && remote.base <= lowest <= end <= target && fork <= target
    && |calls| >= 2 && calls[0] == Tip(tip) && SendsRange(calls[1], remote, lowest, end)
    && remote.base <= fork && SendsBatches(calls[2..], remote, fork + 1, target)
  }

  /** Any fork the history still reaches is followed: the pass succeeds, rolls back exactly to it when the
      tip is above it, and then emits the remote blocks up to the target. */
  lemma ForkInReachIsFollowed(
    log: seq<ValidatedBlock>, calls: seq<Answer>, state: State, depth: nat, window: nat, lowest: nat, remote: Remote,
    tip: nat, target: nat, fork: nat)
    requires Tracks(log, state, window) && ReachesDownTo(log, state.history, window, lowest) && window > 0
    requires target == SaturatingSub(tip, depth) && HashesIdentify(log, remote)
    requires lowest <= fork && ForksAt(log, remote, fork, Min(state.current, target))
    requires AnswersPass(calls, remote, tip, target, lowest, Min(state.current, target), fork)
    ensures ReachesTarget(state, RoundOf(calls, state, depth, window), remote, fork, target)
  {
    ForkIsCommon(log, state.history, window, lowest, remote, fork, Min(state.current, target));
    RoundAgainstFixedChain(log, calls, state, depth, window, remote, tip, fork);
  }

  /** After a start at a positive height, in particular every fork fewer than `window` blocks down. */
  lemma ShallowForkIsFollowed(
    calls: seq<Answer>, startHeight: nat, startHash: Hash, depth: nat, window: nat, recent: seq<ValidatedBlock>,
    remote: Remote, tip: nat, target: nat, lowest: nat, fork: nat)
    requires window > 0 && startHeight > 0 && Started(calls, startHeight, startHash, window) == Ok(recent)
    requires lowest == Max(1, startHeight + 1 - window) && lowest <= fork
    requires target == SaturatingSub(tip, depth) && HashesIdentify(recent, remote)
    requires recent != [] ==> ForksAt(recent, remote, fork, Min(startHeight, target))
    requires AnswersPass(Rest(calls), remote, tip, target, lowest, Min(startHeight, target), fork)
    ensures var start := State(PushAll([], window, recent), startHeight);
      ReachesTarget(start, RoundOf(Rest(calls), start, depth, window), remote, fork, target)
  {
    StartedIff(calls, startHeight, startHash, window, recent);
    StartReaches(recent, window);
    ForkInReachIsFollowed(recent, Rest(calls), State(PushAll([], window, recent), startHeight), depth, window, lowest,
      remote, tip, target, fork);
  }
}
