/** Server and client together: a wallet asks for positions and gets true Merkle paths. */
module WitnessService {
  import opened Prelude
  import opened Geometry
  import opened Merkle
  import opened CommitmentTree
  import opened TreeDb
  import opened Reconstruct
  import opened PirStub

  // ── The client's batch loop ────────────────────────────────────────

  predicate InWindow(b: Broadcast, shard: nat) {
    b.windowStart <= shard < b.windowStart + b.windowCount
  }

  function RowIndex(b: Broadcast, a: Address): nat
    requires InWindow(b, a.shard)
  {
    PhysicalRowIndex(a.shard, a.subshard, b.windowStart)
  }

  /** The server's answer lets the client finish for this position. */
  ghost predicate Served(h: Hasher, b: Broadcast, server: StubState, position: nat) {
    var a := DecomposePosition(position);
    && InWindow(b, a.shard)
    && AnswerQuery(server, RowQuery(RowIndex(b, a))).Ok?
    && BroadcastValid(h, a.shard, b)
    && RowParses(h, AnswerQuery(server, RowQuery(RowIndex(b, a))).value)
  }

  ghost predicate IsAnswer(h: Hasher, b: Broadcast, server: StubState, position: nat, w: PirWitness)
    requires Served(h, b, server, position)
  {
    var a := DecomposePosition(position);
    Reconstructs(h, w, position, a, AnswerQuery(server, RowQuery(RowIndex(b, a))).value, b)
  }

  /** Why a position is not served, in the order of the client's checks. */
  function RefusalOf(h: Hasher, b: Broadcast, server: StubState, position: nat): WitnessError {
    var a := DecomposePosition(position);
    if !InWindow(b, a.shard) then PositionOutsideWindow(position, b.windowStart, b.windowStart + b.windowCount)
    else if AnswerQuery(server, RowQuery(RowIndex(b, a))).Err? then QueryFailed
    else if !BroadcastValid(h, a.shard, b) then InvalidParams
    else QueryFailed
  }

  /** The error is that of the first position that is not served. */
  ghost predicate FirstRefusal(h: Hasher, b: Broadcast, server: StubState, positions: seq<nat>, error: WitnessError) {
    exists i: nat ::
      && i < |positions| && AllServed(h, b, server, positions[..i]) && !Served(h, b, server, positions[i])
      && error == RefusalOf(h, b, server, positions[i])
  }

  ghost predicate AllServed(h: Hasher, b: Broadcast, server: StubState, positions: seq<nat>)
    decreases |positions|
  {
    positions == [] ||
    (AllServed(h, b, server, positions[..|positions| - 1]) && Served(h, b, server, positions[|positions| - 1]))
  }

  /** One witness per position, in order, each the client's answer for it. */
  ghost predicate AreAnswers(h: Hasher, b: Broadcast, server: StubState, positions: seq<nat>, ws: seq<PirWitness>)
    decreases |positions|
  {
    && |ws| == |positions|
    && (positions == [] ||
        var n := |positions| - 1;
        && AreAnswers(h, b, server, positions[..n], ws[..n])
        && Served(h, b, server, positions[n])
        && IsAnswer(h, b, server, positions[n], ws[n]))
  }

  lemma OneMoreAnswer(
    h: Hasher, b: Broadcast, server: StubState, ps: seq<nat>, ws: seq<PirWitness>, p: nat, w: PirWitness)
    requires AreAnswers(h, b, server, ps, ws)
    requires Served(h, b, server, p) && IsAnswer(h, b, server, p, w)
    ensures AreAnswers(h, b, server, ps + [p], ws + [w])
  {
    assert (ps + [p])[..|ps|] == ps && (ws + [w])[..|ws|] == ws;
  }

  lemma {:induction false} AnswersAreServed(
    h: Hasher, b: Broadcast, server: StubState, ps: seq<nat>, ws: seq<PirWitness>)
    requires AreAnswers(h, b, server, ps, ws)
    ensures AllServed(h, b, server, ps)
    decreases |ps|
  {
    if ps != [] {
      AnswersAreServed(h, b, server, ps[..|ps| - 1], ws[..|ps| - 1]);
    }
  }

  lemma {:induction false} AllServedMeansEach(h: Hasher, b: Broadcast, server: StubState, ps: seq<nat>, i: nat)
    requires i < |ps| && AllServed(h, b, server, ps)
    ensures Served(h, b, server, ps[i])
    decreases |ps|
  {
    if i < |ps| - 1 {
      AllServedMeansEach(h, b, server, ps[..|ps| - 1], i);
    }
  }

  ghost predicate RowsCached(server: StubState, rows: map<nat, seq<byte>>) {
    forall row :: row in rows ==> AnswerQuery(server, RowQuery(row)) == Ok(rows[row])
  }

  /** One position, with the rows fetched so far: a cached row is used again, a missing one is queried. */
  method GetOne(
    h: Hasher, b: Broadcast, server: StubState, position: nat, rows: map<nat, seq<byte>>)
    returns (r: Result<PirWitness, WitnessError>, rows': map<nat, seq<byte>>, queried: Option<nat>)
    requires Sane(h) && RowsCached(server, rows)
    ensures RowsCached(server, rows')
    ensures r.Ok? <==> Served(h, b, server, position)
    ensures r.Ok? ==> IsAnswer(h, b, server, position, r.value)
    ensures r.Err? ==> r.error == RefusalOf(h, b, server, position)
    ensures r.Ok? ==> rows'.Keys == rows.Keys + {RowIndex(b, DecomposePosition(position))}
    ensures r.Ok? ==> rows'.Keys == rows.Keys + (if queried.Some? then {queried.value} else {})
    ensures queried.Some? ==> queried.value !in rows
  {
    var a := DecomposePosition(position);
    rows', queried := rows, None;
    AddressOf(position);
    if !InWindow(b, a.shard) {
      return Err(PositionOutsideWindow(position, b.windowStart, b.windowStart + b.windowCount)), rows', queried;
    }
    var rowIdx := RowIndex(b, a);
    if rowIdx !in rows {
      queried := Some(rowIdx);
      var answer := AnswerQuery(server, RowQuery(rowIdx));
      if answer.Err? {
        return Err(QueryFailed), rows', queried;
      }
      rows' := rows[rowIdx := answer.value];
    }
    r := ReconstructWitness(h, position, a, rows'[rowIdx], b);
  }

  /** No row is queried twice, and the queried rows are the cached ones. */
  ghost predicate QueriedOnce(queries: seq<nat>, rows: set<nat>) {
    && (forall i, j :: 0 <= i < j < |queries| ==> queries[i] != queries[j])
    && (forall row :: row in queries <==> row in rows)
  }

  lemma OneMoreQuery(queries: seq<nat>, rows: set<nat>, row: nat)
    requires QueriedOnce(queries, rows) && row !in rows
    ensures QueriedOnce(queries + [row], rows + {row})
  {
    forall i | 0 <= i < |queries|
      ensures queries[i] != row
    {
      assert queries[i] in queries;
    }
  }

  /** The rows that a list of positions needs. */
  function RowsNeeded(b: Broadcast, positions: seq<nat>): (rows: set<nat>)
    decreases |positions|
  {
    if positions == [] then {}
    else
      var a := DecomposePosition(positions[|positions| - 1]);
      RowsNeeded(b, positions[..|positions| - 1]) + (if InWindow(b, a.shard) then {RowIndex(b, a)} else {})
  }

  /** What the batch loop has gathered for some positions. */
  ghost predicate Gathered(
    h: Hasher, b: Broadcast, server: StubState, positions: seq<nat>, witnesses: seq<PirWitness>, rows: map<nat, seq<byte>>,
    queries: seq<nat>)
  {
    && AreAnswers(h, b, server, positions, witnesses)
    && RowsCached(server, rows)
    && rows.Keys == RowsNeeded(b, positions) && QueriedOnce(queries, rows.Keys)
  }

  lemma OneMorePosition(
    h: Hasher, b: Broadcast, server: StubState, positions: seq<nat>, witnesses: seq<PirWitness>, rows: map<nat, seq<byte>>,
    queries: seq<nat>, p: nat, w: PirWitness, rows': map<nat, seq<byte>>, queries': seq<nat>)
    requires Gathered(h, b, server, positions, witnesses, rows, queries)
    requires Served(h, b, server, p) && IsAnswer(h, b, server, p, w) && RowsCached(server, rows')
    requires rows'.Keys == rows.Keys + {RowIndex(b, DecomposePosition(p))} && QueriedOnce(queries', rows'.Keys)
    ensures Gathered(h, b, server, positions + [p], witnesses + [w], rows', queries')
  {
    OneMoreAnswer(h, b, server, positions, witnesses, p, w);
    assert (positions + [p])[..|positions|] == positions;
  }

  /** The queries after one more position. */
  method Noted(queries: seq<nat>, ghost rows: set<nat>, queried: Option<nat>) returns (queries': seq<nat>)
    requires QueriedOnce(queries, rows) && (queried.Some? ==> queried.value !in rows)
    ensures QueriedOnce(queries', rows + (if queried.Some? then {queried.value} else {}))
  {
    queries' := queries;
    if queried.Some? {
      OneMoreQuery(queries, rows, queried.value);
      queries' := queries + [queried.value];
    }
  }

  /** Witnesses for many positions. Every row is queried at most once, and on success exactly the rows
      the positions need are. */
  method GetWitnesses(h: Hasher, b: Broadcast, server: StubState, positions: seq<nat>)
    returns (r: Result<seq<PirWitness>, WitnessError>, queries: seq<nat>)
    requires Sane(h)
    ensures r.Ok? <==> b.windowStart + b.windowCount < U32_LIMIT && AllServed(h, b, server, positions)
    ensures r.Ok? ==> AreAnswers(h, b, server, positions, r.value)
    ensures r.Err? ==>
      if b.windowStart + b.windowCount >= U32_LIMIT then r.error == InvalidParams
      else FirstRefusal(h, b, server, positions, r.error)
    ensures r.Ok? ==> QueriedOnce(queries, RowsNeeded(b, positions))
    ensures forall i, j :: 0 <= i < j < |queries| ==> queries[i] != queries[j]
  {
    queries := [];
    if b.windowStart + b.windowCount >= U32_LIMIT {
      return Err(InvalidParams), queries;
    }
    var rows: map<nat, seq<byte>> := map[];
    var witnesses := [];
    for i := 0 to |positions|
      invariant Gathered(h, b, server, positions[..i], witnesses, rows, queries)
    {
      var w, rows', queried := GetOne(h, b, server, positions[i], rows);
      var queries' := Noted(queries, rows.Keys, queried);
      if w.Err? {
        AnswersAreServed(h, b, server, positions[..i], witnesses);
        if AllServed(h, b, server, positions) {
          AllServedMeansEach(h, b, server, positions, i);
        }
        return Err(w.error), queries';
      }
      OneMorePosition(h, b, server, positions[..i], witnesses, rows, queries, positions[i], w.value, rows', queries');
      assert positions[..i] + [positions[i]] == positions[..i + 1];
      witnesses, rows, queries := witnesses + [w.value], rows', queries';
    }
    assert positions[..|positions|] == positions;
    AnswersAreServed(h, b, server, positions, witnesses);
    return Ok(witnesses), queries;
  }

  // ── An honest server ───────────────────────────────────────────────

  function HonestServer(h: Hasher, c: Contents): StubState {
    Setup(Database(h, c), L0_DB_ROWS, SUBSHARD_ROW_BYTES * 8)
  }

  lemma HonestAnswer(h: Hasher, c: Contents, anchor: nat, a: Address)
    requires a.subshard < SUBSHARDS_PER_SHARD && InWindow(BroadcastOf(h, c, anchor), a.shard)
    ensures var slot := FirstSlot(c, a.shard) + a.subshard;
      AnswerQuery(HonestServer(h, c), RowQuery(RowIndex(BroadcastOf(h, c, anchor), a))) == Ok(Row(h, c.leaves, slot))
  {
    var slot := FirstSlot(c, a.shard) + a.subshard;
    var server := HonestServer(h, c);
    assert server.rowBytes == SUBSHARD_ROW_BYTES;
    RowOfDatabase(h, c, slot);
    AnswerIsRow(server, slot);
  }

  lemma HonestRowParses(h: Hasher, c: Contents, slot: nat)
    requires Sane(h) && AllCanonical(h, c.leaves)
    ensures HashesOf(Row(h, c.leaves, slot), SUBSHARD_LEAVES) == SlotLeaves(h, c.leaves, slot)
    ensures RowParses(h, Row(h, c.leaves, slot))
  {
    var leaves := SlotLeaves(h, c.leaves, slot);
    HashesOfFlatten(leaves, Row(h, c.leaves, slot), SUBSHARD_LEAVES);
    assert leaves[..SUBSHARD_LEAVES] == leaves;
    PaddedCanonical(h, c.leaves, slot * SUBSHARD_LEAVES, SUBSHARD_LEAVES);
  }

  lemma ShardRootsCanonical(h: Hasher, c: Contents, n: nat)
    requires Sane(h) && CanonicalContents(h, c)
    ensures AllCanonical(h, ShardRootsTo(h, c, n))
  {
    forall i | 0 <= i < n
      ensures h.canonical(ShardRootsTo(h, c, n)[i])
    {
      ShardRootsAt(h, c, n, i);
      if i < WindowStart(c) {
        EmptyRootCanonical(h, SHARD_HEIGHT);
      } else {
        SlotNodesCanonical(h, c.leaves, FirstSlot(c, i), SUBSHARDS_PER_SHARD);
        CompleteRootCanonical(h, SubshardRoots(h, c, i), SUBSHARD_HEIGHT);
      }
    }
  }

  lemma HonestBroadcastValid(h: Hasher, c: Contents, anchor: nat, shard: nat)
    requires Sane(h) && CanonicalContents(h, c) && Aligned(c) && TreeSize(c) <= TREE_CAPACITY
    requires InWindow(BroadcastOf(h, c, anchor), shard)
    ensures BroadcastValid(h, shard, BroadcastOf(h, c, anchor))
    ensures BroadcastOf(h, c, anchor).subshardRoots[shard - WindowStart(c)].roots == SubshardRoots(h, c, shard)
  {
    var b := BroadcastOf(h, c, anchor);
    WindowRootsAt(h, c, WindowShardCount(c), shard - WindowStart(c));
    SlotNodesCanonical(h, c.leaves, FirstSlot(c, shard), SUBSHARDS_PER_SHARD);
    ShardRootsCanonical(h, c, WindowStart(c) + WindowShardCount(c));
  }

  /** The three tiers of an honest row and broadcast are the true path of the position's leaf. */
  lemma HonestPath(h: Hasher, c: Contents, all: seq<Hash>, a: Address, siblings: seq<Hash>)
    requires Represents(h, c, all) && LocalShardCount(c) <= L0_MAX_SHARDS
    requires WindowStart(c) <= a.shard < MAX_SHARDS && a.subshard < SUBSHARDS_PER_SHARD && a.leaf < SUBSHARD_LEAVES
    requires ThreeTiers(h, siblings, a,
      SlotLeaves(h, c.leaves, FirstSlot(c, a.shard) + a.subshard), SubshardRoots(h, c, a.shard), ShardRoots(h, c))
    ensures IsPath(h, all, Recompose(a), siblings)
  {
    forall l: nat | l < TREE_DEPTH
      ensures siblings[l] == NodeAt(h, all, 0, l, SiblingIndex(Ancestor(Recompose(a), l)))
    {
      if l < 8 {
        HonestLowerSibling(h, c, all, a, siblings, l);
      } else {
        HonestUpperSibling(h, c, all, a, siblings, l);
      }
    }
  }

  lemma HonestLowerSibling(h: Hasher, c: Contents, all: seq<Hash>, a: Address, siblings: seq<Hash>, l: nat)
    requires Represents(h, c, all) && l < 8 <= |siblings|
    requires WindowStart(c) <= a.shard && a.subshard < SUBSHARDS_PER_SHARD && a.leaf < SUBSHARD_LEAVES
    requires TierPath(h, SlotLeaves(h, c.leaves, FirstSlot(c, a.shard) + a.subshard), 0, a.leaf, 8, siblings)
    ensures siblings[l] == NodeAt(h, all, 0, l, SiblingIndex(Ancestor(Recompose(a), l)))
  {
    var slot := FirstSlot(c, a.shard) + a.subshard;
    PowerValues();
    SlotIsPart(h, c, all, slot);
    TierSiblingOf(h, SlotLeaves(h, c.leaves, slot), 0, all, a.shard * SUBSHARDS_PER_SHARD + a.subshard, 8, a.leaf, l, siblings);
  }

  lemma HonestUpperSibling(h: Hasher, c: Contents, all: seq<Hash>, a: Address, siblings: seq<Hash>, l: nat)
    requires Represents(h, c, all) && 8 <= l < TREE_DEPTH == |siblings|
    requires WindowStart(c) <= a.shard < MAX_SHARDS && a.subshard < SUBSHARDS_PER_SHARD && a.leaf < SUBSHARD_LEAVES
    requires TierPath(h, SubshardRoots(h, c, a.shard), 8, a.subshard, 8, siblings[8..])
    requires TierPath(h, ShardRoots(h, c), 16, a.shard, 16, siblings[16..])
    ensures siblings[l] == NodeAt(h, all, 0, l, SiblingIndex(Ancestor(Recompose(a), l)))
  {
    UpperAncestor(a, l);
    if l < 16 {
      MiddleSibling(h, c, all, a.shard, a.subshard, siblings[8..], l - 8);
    } else {
      CapSibling(h, c, all, a.shard, siblings[16..], l - 16);
    }
  }

  lemma UpperAncestor(a: Address, l: nat)
    requires a.subshard < SUBSHARDS_PER_SHARD && a.leaf < SUBSHARD_LEAVES && 8 <= l
    ensures Ancestor(Recompose(a), l) ==
      if l < 16 then Ancestor(a.shard * SUBSHARDS_PER_SHARD + a.subshard, l - 8) else Ancestor(a.shard, l - 16)
  {
    AddressAncestors(a);
    if l < 16 {
      AncestorAdd(Recompose(a), 8, l - 8);
    } else {
      AncestorAdd(Recompose(a), 16, l - 16);
    }
  }

  lemma MiddleSibling(h: Hasher, c: Contents, all: seq<Hash>, shard: nat, ss: nat, siblings: seq<Hash>, l: nat)
    requires Represents(h, c, all) && WindowStart(c) <= shard && ss < SUBSHARDS_PER_SHARD && l < 8
    requires TierPath(h, SubshardRoots(h, c, shard), 8, ss, 8, siblings)
    ensures siblings[l] == NodeAt(h, all, 0, 8 + l, SiblingIndex(Ancestor(shard * SUBSHARDS_PER_SHARD + ss, l)))
  {
    PowerValues();
    SubshardRootsArePart(h, c, all, shard);
    TierSiblingOf(h, SubshardRoots(h, c, shard), 8, all, shard, 8, ss, l, siblings);
  }

  lemma CapSibling(h: Hasher, c: Contents, all: seq<Hash>, shard: nat, siblings: seq<Hash>, l: nat)
    requires Represents(h, c, all) && shard < MAX_SHARDS && l < 16
    requires TierPath(h, ShardRoots(h, c), 16, shard, 16, siblings)
    ensures siblings[l] == NodeAt(h, all, 0, 16 + l, SiblingIndex(Ancestor(shard, l)))
  {
    PowerValues();
    ShardRootsArePart(h, c, all);
    TierSiblingOf(h, ShardRoots(h, c), 16, all, 0, 16, shard, l, siblings);
  }

  lemma TierSiblingOf(
    h: Hasher, part: seq<Hash>, base: nat, all: seq<Hash>, q: nat, K: nat, idx: nat, l: nat, siblings: seq<Hash>)
    requires IsPart(h, part, base, all, q * Pow2(K), Pow2(K)) && TierPath(h, part, base, idx, K, siblings)
    requires l < K && idx < Pow2(K)
    ensures siblings[l] == NodeAt(h, all, 0, base + l, SiblingIndex(Ancestor(q * Pow2(K) + idx, l)))
  {
    PartSibling(h, part, base, all, q, K, idx, l);
    assert siblings[l] == TierSibling(h, part, base, idx, l);
  }

  lemma AddressAncestors(a: Address)
    requires a.subshard < SUBSHARDS_PER_SHARD && a.leaf < SUBSHARD_LEAVES
    ensures Ancestor(Recompose(a), 8) == a.shard * SUBSHARDS_PER_SHARD + a.subshard
    ensures Ancestor(Recompose(a), 16) == a.shard
  {
    PowerValues();
    AncestorIsQuotient(Recompose(a), 8);
    AncestorIsQuotient(Recompose(a), 16);
  }

  /** The data checks out, and each tier hashes to the entry above it. */
  ghost predicate Coherent(h: Hasher, a: Address, row: seq<byte>, b: Broadcast) {
    && a.leaf < SUBSHARD_LEAVES && a.subshard < SUBSHARDS_PER_SHARD
    && RowParses(h, row) && BroadcastValid(h, a.shard, b)
    && var ssRoots := b.subshardRoots[a.shard - b.windowStart].roots;
    && CompleteRoot(h, HashesOf(row, SUBSHARD_LEAVES), 0) == ssRoots[a.subshard]
    && CompleteRoot(h, ssRoots, SUBSHARD_HEIGHT) == Get(h, b.capRoots, SHARD_HEIGHT, a.shard)
  }

  /** If the row hashes to its subshard root, and the subshard roots to their cap entry, then the
      computed anchor root is the root of the cap, whoever supplied the data. */
  lemma CoherentDataGivesCapRoot(
    h: Hasher, position: nat, row: seq<byte>, b: Broadcast, w: PirWitness)
    requires Coherent(h, DecomposePosition(position), row, b)
    requires Reconstructs(h, w, position, DecomposePosition(position), row, b)
    ensures w.anchorRoot == SparseRoot(h, b.capRoots, 0, MAX_SHARDS, SHARD_HEIGHT)
  {
    var a := DecomposePosition(position);
    var leaves, ssRoots := HashesOf(row, SUBSHARD_LEAVES), b.subshardRoots[a.shard - b.windowStart].roots;
    PositionTurns(position);
    ThreeRoots(h, leaves, ssRoots, b.capRoots);
    ThreeFolds(h, a, leaves, ssRoots, b.capRoots, w.siblings,
      position, position / 256, position / 65536, position / 65536 / 65536);
  }

  lemma ThreeRoots(h: Hasher, leaves: seq<Hash>, ssRoots: seq<Hash>, cap: seq<Hash>)
    requires |leaves| == SUBSHARD_LEAVES && |ssRoots| == SUBSHARDS_PER_SHARD
    ensures CompleteRoot(h, leaves, 0) == NodeAt(h, leaves, 0, 8, 0)
    ensures CompleteRoot(h, ssRoots, SUBSHARD_HEIGHT) == NodeAt(h, ssRoots, 8, 8, 0)
    ensures SparseRoot(h, cap, 0, MAX_SHARDS, SHARD_HEIGHT) == NodeAt(h, cap, 16, 16, 0)
  {
    PowerValues();
    CompleteRootIsNode(h, leaves, 0, 8);
    CompleteRootIsNode(h, ssRoots, 8, 8);
    SparseRootIsNode(h, cap, 0, MAX_SHARDS, 16, 16, 0);
  }

  lemma ThreeFolds(
    h: Hasher, a: Address, leaves: seq<Hash>, ssRoots: seq<Hash>, cap: seq<Hash>, s: seq<Hash>,
    position: nat, sub: nat, shard: nat, q: nat)
    requires ThreeTiers(h, s, a, leaves, ssRoots, cap)
    requires a.leaf < SUBSHARD_LEAVES == |leaves| && a.subshard < SUBSHARDS_PER_SHARD == |ssRoots| && a.shard < MAX_SHARDS
    requires position == sub * 256 + a.leaf && sub == shard * 256 + a.subshard && shard == q * 65536 + a.shard
    requires NodeAt(h, leaves, 0, 8, 0) == ssRoots[a.subshard]
    requires NodeAt(h, ssRoots, 8, 8, 0) == Get(h, cap, 16, a.shard)
    ensures FoldPath(h, leaves[a.leaf], position, 0, s) == NodeAt(h, cap, 16, 16, 0)
  {
    LowTierFold(h, leaves, 0, a.leaf, sub, s, position);
    LowTierFold(h, ssRoots, 8, a.subshard, shard, s[8..], sub);
    CapFold(h, cap, a.shard, q, s[16..], shard);
    assert s[8..][8..] == s[16..];
  }

  lemma LowTierFold(h: Hasher, part: seq<Hash>, base: nat, idx: nat, q: nat, siblings: seq<Hash>, turns: nat)
    requires TierPath(h, part, base, idx, 8, siblings) && idx < 256 == |part| && turns == q * 256 + idx
    ensures FoldPath(h, part[idx], turns, base, siblings) == FoldPath(h, NodeAt(h, part, base, 8, 0), q, base + 8, siblings[8..])
  {
    PowerValues();
    FoldWholeTier(h, part, base, idx, q, 8, siblings, turns);
  }

  lemma CapFold(h: Hasher, cap: seq<Hash>, idx: nat, q: nat, siblings: seq<Hash>, turns: nat)
    requires TierPath(h, cap, 16, idx, 16, siblings) && idx < 65536 && turns == q * 65536 + idx && |siblings| == 16
    ensures FoldPath(h, Get(h, cap, 16, idx), turns, 16, siblings) == NodeAt(h, cap, 16, 16, 0)
  {
    PowerValues();
    FoldWholeTier(h, cap, 16, idx, q, 16, siblings, turns);
    assert siblings[16..] == [];
  }

  /** The three parts of an address are the digits the path computation consumes. */
  lemma PositionTurns(position: nat)
    ensures position == position / 256 * 256 + DecomposePosition(position).leaf
    ensures position / 256 == position / 65536 * 256 + DecomposePosition(position).subshard
    ensures DecomposePosition(position).shard < MAX_SHARDS ==>
      position / 65536 == position / 65536 / 65536 * 65536 + DecomposePosition(position).shard
  {
    QuotientOfQuotient(position);
    var shard := position / 65536;
    assert shard % U32_LIMIT % 65536 == shard % 65536;
  }

  /** Every position in the window is served, and no other. */
  lemma HonestServed(h: Hasher, c: Contents, anchor: nat, position: nat)
    requires Sane(h) && CanonicalContents(h, c) && Aligned(c) && TreeSize(c) <= TREE_CAPACITY
    ensures Served(h, BroadcastOf(h, c, anchor), HonestServer(h, c), position)
       <==> InWindow(BroadcastOf(h, c, anchor), DecomposePosition(position).shard)
  {
    var a := DecomposePosition(position);
    AddressOf(position);
    if InWindow(BroadcastOf(h, c, anchor), a.shard) {
      HonestAnswer(h, c, anchor, a);
      HonestRowParses(h, c, FirstSlot(c, a.shard) + a.subshard);
      HonestBroadcastValid(h, c, anchor, a.shard);
    }
  }

  lemma WindowWitness(h: Hasher, c: Contents, all: seq<Hash>, anchor: nat, position: nat, w: PirWitness)
    requires Sane(h) && CanonicalContents(h, c) && Represents(h, c, all)
    requires TreeSize(c) <= TREE_CAPACITY && LocalShardCount(c) <= L0_MAX_SHARDS
    ensures Truthful(h, c, all, anchor, position, w)
    ensures Answered(h, c, anchor, position, w) ==> w.anchorRoot == TreeRoot(h, c)
  {
    var a := DecomposePosition(position);
    HonestServed(h, c, anchor, position);
    if Answered(h, c, anchor, position, w) {
      HonestTiers(h, c, anchor, position, w);
      HonestPath(h, c, all, a, w.siblings);
      AddressOf(position);
      HonestRoot(h, c, all, anchor, position, w);
    }
  }

  /** The honest server of a tree served the position, and `w` is the client's answer. */
  ghost predicate Answered(h: Hasher, c: Contents, anchor: nat, position: nat, w: PirWitness) {
    && Served(h, BroadcastOf(h, c, anchor), HonestServer(h, c), position)
    && IsAnswer(h, BroadcastOf(h, c, anchor), HonestServer(h, c), position, w)
  }

  /** A position is served exactly when its shard is in the window, and every answer is the true path of
      that position among `leaves`, under their depth-32 Merkle root. */
  ghost predicate Truthful(h: Hasher, c: Contents, leaves: seq<Hash>, anchor: nat, position: nat, w: PirWitness) {
    && (Served(h, BroadcastOf(h, c, anchor), HonestServer(h, c), position)
        <==> InWindow(BroadcastOf(h, c, anchor), DecomposePosition(position).shard))
    && (Answered(h, c, anchor, position, w) ==>
         && w.position == position && w.anchorHeight == anchor && |w.siblings| == TREE_DEPTH
         && IsPath(h, leaves, position % 0x1_0000_0000_0000, w.siblings)
         && w.anchorRoot == NodeAt(h, leaves, 0, TREE_DEPTH, 0))
  }

  // ── More shards than the window publishes ──────────────────────────

  const WINDOW_LEAVES: nat := L0_MAX_SHARDS * SHARD_LEAVES

  /** The tree as if it had stopped growing when its window was full. */
  function Published(c: Contents): Contents {
    if |c.leaves| <= WINDOW_LEAVES then c else c.(leaves := c.leaves[..WINDOW_LEAVES])
  }

  /** The part of the pool that database and broadcast cover. */
  function PublishedPool(c: Contents, all: seq<Hash>): seq<Hash> {
    if |all| <= c.leafOffset + WINDOW_LEAVES then all else all[..c.leafOffset + WINDOW_LEAVES]
  }

  lemma SlotUnaffected(h: Hasher, c: Contents, slot: nat)
    requires slot < L0_DB_ROWS
    ensures SlotLeaves(h, Published(c).leaves, slot) == SlotLeaves(h, c.leaves, slot)
    ensures SlotNode(h, Published(c).leaves, slot) == SlotNode(h, c.leaves, slot)
  {
    if |c.leaves| > WINDOW_LEAVES {
      PaddedAgrees(h, Published(c).leaves, c.leaves, slot * SUBSHARD_LEAVES, SUBSHARD_LEAVES);
    }
  }

  lemma {:induction false} RowsUnaffected(h: Hasher, c: Contents, n: nat)
    requires n <= L0_DB_ROWS
    ensures Rows(h, Published(c).leaves, n) == Rows(h, c.leaves, n)
  {
    if n > 0 {
      RowsUnaffected(h, c, n - 1);
      SlotUnaffected(h, c, n - 1);
    }
  }

  lemma {:induction false} SlotNodesUnaffected(h: Hasher, c: Contents, first: nat, n: nat)
    requires first + n <= L0_DB_ROWS
    ensures SlotNodes(h, Published(c).leaves, first, n) == SlotNodes(h, c.leaves, first, n)
    decreases n
  {
    if n > 0 {
      SlotNodesUnaffected(h, c, first, n - 1);
      SlotUnaffected(h, c, first + n - 1);
    }
  }

  lemma SubshardRootsUnaffected(h: Hasher, c: Contents, i: nat)
    requires i < L0_MAX_SHARDS
    ensures SubshardRoots(h, Published(c), WindowStart(c) + i) == SubshardRoots(h, c, WindowStart(c) + i)
  {
    SlotNodesUnaffected(h, c, i * SUBSHARDS_PER_SHARD, SUBSHARDS_PER_SHARD);
  }

  lemma {:induction false} CapUnaffected(h: Hasher, c: Contents, n: nat)
    requires n <= WindowStart(c) + L0_MAX_SHARDS
    ensures ShardRootsTo(h, Published(c), n) == ShardRootsTo(h, c, n)
    decreases n
  {
    if n > 0 {
      CapUnaffected(h, c, n - 1);
      if n - 1 >= WindowStart(c) {
        SubshardRootsUnaffected(h, c, n - 1 - WindowStart(c));
      }
    }
  }

  lemma {:induction false} WindowRootsUnaffected(h: Hasher, c: Contents, n: nat)
    requires n <= L0_MAX_SHARDS
    ensures WindowRootsTo(h, Published(c), n) == WindowRootsTo(h, c, n)
  {
    if n > 0 {
      WindowRootsUnaffected(h, c, n - 1);
      SubshardRootsUnaffected(h, c, n - 1);
    }
  }

  lemma PublishedCounts(c: Contents)
    requires Aligned(c)
    ensures WindowShardCount(Published(c)) == WindowShardCount(c) == LocalShardCount(Published(c))
    ensures LocalShardCount(c) <= L0_MAX_SHARDS <==> Published(c) == c
  {
  }

  /** Everything a client sees stops after 16 window shards. */
  lemma OnlyTheWindowIsPublished(h: Hasher, c: Contents, anchor: nat)
    requires Aligned(c)
    ensures BroadcastOf(h, Published(c), anchor) == BroadcastOf(h, c, anchor)
    ensures HonestServer(h, Published(c)) == HonestServer(h, c)
  {
    PublishedCounts(c);
    CapUnaffected(h, c, WindowStart(c) + WindowShardCount(c));
    WindowRootsUnaffected(h, c, WindowShardCount(c));
    RowsUnaffected(h, c, WindowShardCount(c) * SUBSHARDS_PER_SHARD);
  }

  lemma PublishedRepresents(h: Hasher, c: Contents, all: seq<Hash>)
    requires Represents(h, c, all)
    ensures Represents(h, Published(c), PublishedPool(c, all))
  {
    WindowMoves(h, c, Published(c), all, PublishedPool(c, all));
  }

  /** THE RESULT. With an honest server of any size: a position is served exactly when its shard is in the
      window; then every sibling is the true sibling subtree root and the anchor root the depth-32 Merkle
      root of the published pool, which is the whole pool up to 16 window shards. */
  lemma HonestWitness(h: Hasher, c: Contents, all: seq<Hash>, anchor: nat, position: nat, w: PirWitness)
    requires Sane(h) && CanonicalContents(h, c) && Represents(h, c, all)
    requires TreeSize(Published(c)) <= TREE_CAPACITY
    ensures Truthful(h, c, PublishedPool(c, all), anchor, position, w)
    ensures LocalShardCount(c) <= L0_MAX_SHARDS ==>
      PublishedPool(c, all) == all && (Answered(h, c, anchor, position, w) ==> w.anchorRoot == TreeRoot(h, c))
  {
    PublishedCounts(c);
    OnlyTheWindowIsPublished(h, c, anchor);
    PublishedRepresents(h, c, all);
    WindowWitness(h, Published(c), PublishedPool(c, all), anchor, position, w);
  }

  /** The client's three node lists are the server's row leaves, subshard roots and shard roots. */
  lemma HonestTiers(h: Hasher, c: Contents, anchor: nat, position: nat, w: PirWitness)
    requires Sane(h) && CanonicalContents(h, c) && Aligned(c)
    requires TreeSize(c) <= TREE_CAPACITY && LocalShardCount(c) <= L0_MAX_SHARDS
    requires Served(h, BroadcastOf(h, c, anchor), HonestServer(h, c), position)
    requires IsAnswer(h, BroadcastOf(h, c, anchor), HonestServer(h, c), position, w)
    ensures var a := DecomposePosition(position);
      && WindowStart(c) <= a.shard < MAX_SHARDS && a.subshard < SUBSHARDS_PER_SHARD && a.leaf < SUBSHARD_LEAVES
      && w.position == position && w.anchorHeight == anchor
      && ThreeTiers(h, w.siblings, a,
           SlotLeaves(h, c.leaves, FirstSlot(c, a.shard) + a.subshard), SubshardRoots(h, c, a.shard), ShardRoots(h, c))
  {
    var a := DecomposePosition(position);
    AddressOf(position);
    HonestAnswer(h, c, anchor, a);
    TiersOfAnswer(h, c, anchor, position, w);
  }

  lemma TiersOfAnswer(h: Hasher, c: Contents, anchor: nat, position: nat, w: PirWitness)
    requires Sane(h) && CanonicalContents(h, c) && Aligned(c)
    requires TreeSize(c) <= TREE_CAPACITY && LocalShardCount(c) <= L0_MAX_SHARDS
    requires var a, b := DecomposePosition(position), BroadcastOf(h, c, anchor);
      && InWindow(b, a.shard) && BroadcastValid(h, a.shard, b)
      && var row := Row(h, c.leaves, FirstSlot(c, a.shard) + a.subshard);
      && RowParses(h, row) && a.leaf < SUBSHARD_LEAVES && a.subshard < SUBSHARDS_PER_SHARD
      && Reconstructs(h, w, position, a, row, b)
    ensures var a := DecomposePosition(position);
      && w.position == position && w.anchorHeight == anchor
      && ThreeTiers(h, w.siblings, a,
           SlotLeaves(h, c.leaves, FirstSlot(c, a.shard) + a.subshard), SubshardRoots(h, c, a.shard), ShardRoots(h, c))
  {
    var a := DecomposePosition(position);
    HonestRowParses(h, c, FirstSlot(c, a.shard) + a.subshard);
    HonestBroadcastValid(h, c, anchor, a.shard);
    CapIsComplete(h, c, anchor);
  }

  lemma CapIsComplete(h: Hasher, c: Contents, anchor: nat)
    requires Aligned(c) && 0 < LocalShardCount(c) <= L0_MAX_SHARDS
    ensures BroadcastOf(h, c, anchor).capRoots == ShardRoots(h, c)
  {
  }

  /** Honest data is coherent: the row hashes to its subshard root, the subshard roots to their cap entry. */
  lemma HonestIsCoherent(h: Hasher, c: Contents, all: seq<Hash>, anchor: nat, a: Address)
    requires Sane(h) && CanonicalContents(h, c) && Represents(h, c, all)
    requires TreeSize(c) <= TREE_CAPACITY && 0 < LocalShardCount(c) <= L0_MAX_SHARDS
    requires InWindow(BroadcastOf(h, c, anchor), a.shard) && a.subshard < SUBSHARDS_PER_SHARD && a.leaf < SUBSHARD_LEAVES
    ensures Coherent(h, a, Row(h, c.leaves, FirstSlot(c, a.shard) + a.subshard), BroadcastOf(h, c, anchor))
  {
    HonestRowParses(h, c, FirstSlot(c, a.shard) + a.subshard);
    HonestBroadcastValid(h, c, anchor, a.shard);
    CapIsComplete(h, c, anchor);
    SubshardRootIsRowRoot(h, c, all, a.shard, a.subshard);
    ShardRootsAt(h, c, PopulatedShards(c), a.shard);
  }

  lemma HonestRoot(h: Hasher, c: Contents, all: seq<Hash>, anchor: nat, position: nat, w: PirWitness)
    requires Sane(h) && CanonicalContents(h, c) && Represents(h, c, all)
    requires TreeSize(c) <= TREE_CAPACITY && 0 < LocalShardCount(c) <= L0_MAX_SHARDS
    requires InWindow(BroadcastOf(h, c, anchor), DecomposePosition(position).shard)
    requires Served(h, BroadcastOf(h, c, anchor), HonestServer(h, c), position)
    requires IsAnswer(h, BroadcastOf(h, c, anchor), HonestServer(h, c), position, w)
    ensures w.anchorRoot == TreeRoot(h, c) == NodeAt(h, all, 0, TREE_DEPTH, 0)
  {
    var b, a := BroadcastOf(h, c, anchor), DecomposePosition(position);
    AddressOf(position);
    HonestAnswer(h, c, anchor, a);
    HonestIsCoherent(h, c, all, anchor, a);
    CoherentDataGivesCapRoot(h, position, Row(h, c.leaves, FirstSlot(c, a.shard) + a.subshard), b, w);
    CapIsComplete(h, c, anchor);
    TreeRootIsMerkleRoot(h, c, all);
  }

  lemma SubshardRootIsRowRoot(h: Hasher, c: Contents, all: seq<Hash>, shard: nat, ss: nat)
    requires Represents(h, c, all) && WindowStart(c) <= shard && ss < SUBSHARDS_PER_SHARD
    ensures SubshardRoots(h, c, shard)[ss] == SlotRoot(h, c.leaves, FirstSlot(c, shard) + ss)
  {
    SlotNodesAt(h, c.leaves, FirstSlot(c, shard), SUBSHARDS_PER_SHARD, ss);
    SlotIsNode(h, c, all, FirstSlot(c, shard) + ss);
  }
}
