/** Writing and reading tree snapshots in place, and runs that mix them with every other operation on
    the tree: append, rollback, build and reload in any order. */
module TreeSnapshotDb {
  import opened Prelude
  import opened Geometry
  import opened Merkle
  import opened CommitmentTree
  import opened TreeHistory
  import opened TreeDb
  import opened Codec
  import opened TreeSnapshot

  ghost function ImageOf(tree: CommitmentTreeDb): Image
    reads tree, tree.ssRootCache
  {
    Image(tree.View(), tree.ssRootCache[..])
  }

  // ── Writing ────────────────────────────────────────────────────────

  method WriteRecords(buf: seq<byte>, blocks: seq<BlockRecord>) returns (buf': seq<byte>)
    ensures buf' == buf + EncodeRecords(blocks)
  {
    buf' := buf;
    var i := 0;
    assert blocks[0..] == blocks;
    while i < |blocks|
      invariant i <= |blocks| && buf' + EncodeRecords(blocks[i..]) == buf + EncodeRecords(blocks)
    {
      var record, rest := EncodeRecord(blocks[i]), EncodeRecords(blocks[i + 1..]);
      assert blocks[i..][1..] == blocks[i + 1..];
      assert buf' + (record + rest) == (buf' + record) + rest;
      buf', i := buf' + record, i + 1;
    }
    assert buf' + [] == buf';
  }

  lemma {:induction false} EncodeEntriesAppend(entries: seq<CacheEntry>, e: CacheEntry)
    ensures EncodeEntries(entries + [e]) == EncodeEntries(entries) + EncodeEntry(e)
  {
    if entries == [] {
      assert [] + [e] == [e] && [e][1..] == [];
      assert EncodeEntry(e) + [] == EncodeEntry(e);
    } else {
      assert (entries + [e])[1..] == entries[1..] + [e];
      EncodeEntriesAppend(entries[1..], e);
    }
  }

  method WriteEntry(ghost start: seq<byte>, buf: seq<byte>, ghost entries: seq<CacheEntry>, e: CacheEntry)
    returns (buf': seq<byte>)
    requires buf == start + EncodeEntries(entries)
    ensures buf' == start + EncodeEntries(entries + [e])
  {
    buf' := buf + ToLe(e.slot, 4);
    buf' := buf' + e.root.bytes;
    EncodeEntriesAppend(entries, e);
  }

  lemma EntriesNext(cache: seq<Option<Hash>>, i: nat)
    requires i < |cache|
    ensures Entries(cache, i + 1) ==
      if cache[i].Some? then Entries(cache, i) + [CacheEntry(i, cache[i].value)] else Entries(cache, i)
  {
  }

  method CountFilled(cache: array<Option<Hash>>) returns (count: nat)
    ensures count == |Entries(cache[..], cache.Length)|
  {
    count := 0;
    for i := 0 to cache.Length
      invariant count == |Entries(cache[..], i)|
    {
      EntriesNext(cache[..], i);
      if cache[i].Some? {
        count := count + 1;
      }
    }
  }

  method WriteEntries(buf: seq<byte>, cache: array<Option<Hash>>) returns (buf': seq<byte>)
    ensures buf' == buf + EncodeEntries(Entries(cache[..], cache.Length))
  {
    buf' := buf;
    for i := 0 to cache.Length
      invariant buf' == buf + EncodeEntries(Entries(cache[..], i))
    {
      EntriesNext(cache[..], i);
      if cache[i].Some? {
        buf' := WriteEntry(buf, buf', Entries(cache[..], i), CacheEntry(i, cache[i].value));
      }
    }
  }

  /** The number of filled slots, then slot and root of each. */
  method WriteCache(buf: seq<byte>, cache: array<Option<Hash>>) returns (buf': seq<byte>)
    ensures buf' == buf + EncodeCache(cache[..])
  {
    var count := CountFilled(cache);
    buf' := WriteEntries(buf + ToLe(count, 8), cache);
    Associate(buf, ToLe(count, 8), EncodeEntries(Entries(cache[..], cache.Length)));
  }

  /** The serialised tree, appended piece by piece. */
  method ToSnapshot(sum: seq<byte> -> nat, tree: CommitmentTreeDb) returns (data: seq<byte>)
    ensures data == Encode(sum, ImageOf(tree))
  {
    var buf := ToLe(SNAPSHOT_MAGIC, 8) + ToLe(|tree.blocks|, 8);
    buf := buf + ToLe(tree.leafOffset, 8);
    buf := buf + ToLe(|tree.prefetchedShardRoots|, 8);
    buf := WriteHashes(buf, tree.prefetchedShardRoots);
    buf := WriteRecords(buf, tree.blocks);
    buf := WriteHashes(buf, tree.leaves);
    buf := WriteCache(buf, tree.ssRootCache);
    TreePiecesInOrder(
      ToLe(SNAPSHOT_MAGIC, 8), ToLe(|tree.blocks|, 8), ToLe(tree.leafOffset, 8), ToLe(|tree.prefetchedShardRoots|, 8),
      Flatten(tree.prefetchedShardRoots), EncodeRecords(tree.blocks), Flatten(tree.leaves),
      EncodeCache(tree.ssRootCache[..]));
    data := buf + ToLe(sum(buf) % U64_LIMIT, 8);
  }

  lemma TreePiecesInOrder(
    a: seq<byte>, b: seq<byte>, c: seq<byte>, d: seq<byte>, e: seq<byte>, f: seq<byte>, g: seq<byte>, i: seq<byte>)
    ensures a + b + c + d + e + f + g + i == a + ((b + (c + d)) + (e + (f + (g + i))))
  {
  }

  // ── Reading ────────────────────────────────────────────────────────

  method ReadRecords(input: seq<byte>, n: nat) returns (r: Taken<seq<BlockRecord>>, total: nat)
    ensures r == TakeRecords(input, n)
    ensures r.Taken? ==> total == CommitmentCount(r.value)
  {
    var blocks: seq<BlockRecord>, rest, i := [], input, 0;
    total := 0;
    PutTwice([], [], TakeRecords(input, n));
    while i < n
      invariant i <= n && TakeRecords(input, n) == Put(blocks, TakeRecords(rest, n - i))
      invariant total == CommitmentCount(blocks)
    {
      var b := TakeRecord(rest);
      if b.Short? {
        return Short, 0;
      }
      PutTwice(blocks, [b.value], TakeRecords(b.rest, n - i - 1));
      assert (blocks + [b.value])[..|blocks|] == blocks;
      total := total + b.value.numCommitments;
      blocks, rest, i := blocks + [b.value], b.rest, i + 1;
    }
    assert blocks + [] == blocks;
    r := Taken(blocks, rest);
  }

  method FillSlotOf(cache: array<Option<Hash>>, e: CacheEntry, ghost entries: seq<CacheEntry>)
    requires cache[..] == Filled(NoRoots(L0_DB_ROWS), entries)
    modifies cache
    ensures cache[..] == Filled(NoRoots(L0_DB_ROWS), entries + [e])
  {
    assert (entries + [e])[..|entries|] == entries;
    if e.slot < cache.Length {
      cache[e.slot] := Some(e.root);
    }
  }

  /** Reads the cached roots straight into their slots. */
  method ReadCache(input: seq<byte>, cache: array<Option<Hash>>) returns (ok: Result<(), SnapshotError>)
    requires cache[..] == NoRoots(L0_DB_ROWS)
    modifies cache
    ensures ok.Ok? ==> DecodeCache(input) == Ok(cache[..])
    ensures ok.Err? ==> DecodeCache(input) == Err(ok.error)
  {
    var count := TakeLe(input, 8);
    if count.Short? {
      return Err(UnexpectedEof);
    }
    ghost var entries: seq<CacheEntry> := [];
    var rest, i := count.rest, 0;
    PutTwice([], [], TakeEntries(rest, count.value));
    while i < count.value
      invariant i <= count.value
      invariant TakeEntries(count.rest, count.value) == Put(entries, TakeEntries(rest, count.value - i))
      invariant cache[..] == Filled(NoRoots(L0_DB_ROWS), entries)
    {
      var e := TakeEntry(rest);
      if e.Short? {
        return Err(CacheEntryTruncated);
      }
      PutTwice(entries, [e.value], TakeEntries(e.rest, count.value - i - 1));
      FillSlotOf(cache, e.value, entries);
      entries := entries + [e.value];
      rest, i := e.rest, i + 1;
    }
    assert entries + [] == entries;
    ok := Ok(());
  }

  /** The last decoding steps: the cache, then the canonicality of everything. */
  ghost function WithCache(h: Hasher, c: Contents, input: seq<byte>): Result<Image, SnapshotError> {
    match DecodeCache(input)
    case Err(e) => Err(e)
    case Ok(cache) => if CanonicalImage(h, Image(c, cache)) then Ok(Image(c, cache)) else Err(NonCanonicalHash)
  }

  /** Header, earlier shard roots, block log and leaves; what is left of the input is the cache. */
  method ReadContents(input: seq<byte>, ghost h: Hasher) returns (r: Result<(Contents, seq<byte>), SnapshotError>)
    ensures r.Err? ==> DecodeBody(h, input) == Err(r.error)
    ensures r.Ok? ==> DecodeBody(h, input) == WithCache(h, r.value.0, r.value.1)
  {
    var header := TakeHeader(input);
    if header.Short? {
      return Err(UnexpectedEof);
    }
    var prefetched := ReadHashes(header.rest, header.value.prefetchedCount);
    if prefetched.Short? {
      return Err(PrefetchedTruncated);
    }
    var blocks, total := ReadRecords(prefetched.rest, header.value.blockCount);
    if blocks.Short? {
      return Err(BlockRecordsTruncated);
    }
    var leaves := ReadHashes(blocks.rest, total);
    if leaves.Short? {
      return Err(LeafDataTruncated);
    }
    r := Ok((Contents(leaves.value, blocks.value, header.value.leafOffset, prefetched.value), leaves.rest));
  }

  /** Restores a tree. Only a cache that fits the leaves makes it a valid one. */
  method FromSnapshot(h: Hasher, sum: seq<byte> -> nat, data: seq<byte>) returns (r: Result<CommitmentTreeDb, SnapshotError>)
    requires Sane(h)
    ensures r.Err? ==> Decode(h, sum, data) == Err(r.error)
    ensures r.Ok? ==>
      && fresh(r.value) && fresh(r.value.ssRootCache) && r.value.hasher == h
      && Decode(h, sum, data) == Ok(ImageOf(r.value))
      && (CacheSound(h, r.value.leaves, r.value.ssRootCache[..]) ==> r.value.Valid())
  {
    var envelope := Open(sum, data, 16);
    if envelope.BadLength? {
      return Err(TooShort);
    } else if envelope.BadChecksum? {
      return Err(ChecksumMismatch);
    }
    var magic := TakeLe(envelope.bytes, 8);
    if magic.Short? {
      return Err(UnexpectedEof);
    } else if magic.value != SNAPSHOT_MAGIC {
      return Err(BadMagic(magic.value));
    }
    r := FromBody(h, magic.rest);
  }

  method FromBody(h: Hasher, body: seq<byte>) returns (r: Result<CommitmentTreeDb, SnapshotError>)
    requires Sane(h)
    ensures r.Err? ==> DecodeBody(h, body) == Err(r.error)
    ensures r.Ok? ==>
      && fresh(r.value) && fresh(r.value.ssRootCache) && r.value.hasher == h
      && DecodeBody(h, body) == Ok(ImageOf(r.value))
      && (CacheSound(h, r.value.leaves, r.value.ssRootCache[..]) ==> r.value.Valid())
  {
    var contents := ReadContents(body, h);
    if contents.Err? {
      return Err(contents.error);
    }
    var c := contents.value.0;
    var cache := new Option<Hash>[L0_DB_ROWS](_ => None);
    assert cache[..] == NoRoots(L0_DB_ROWS);
    var filled := ReadCache(contents.value.1, cache);
    if filled.Err? {
      return Err(filled.error);
    }
    if !CanonicalImage(h, Image(c, cache[..])) {
      return Err(NonCanonicalHash);
    }
    var tree := new CommitmentTreeDb.WithOffset(h, c.leafOffset, c.prefetched);
    tree.leaves := c.leaves;
    tree.blocks := c.blocks;
    tree.ssRootCache := cache;
    r := Ok(tree);
  }

  lemma SoundCacheIsCanonical(h: Hasher, leaves: seq<Hash>, cache: seq<Option<Hash>>)
    requires Sane(h) && AllCanonical(h, leaves) && CacheSound(h, leaves, cache)
    ensures CanonicalCache(h, cache)
  {
    forall k | 0 <= k < |cache| && cache[k].Some?
      ensures h.canonical(cache[k].value)
    {
      PaddedCanonical(h, leaves, k * SUBSHARD_LEAVES, SUBSHARD_LEAVES);
      CompleteRootCanonical(h, SlotLeaves(h, leaves, k), 0);
    }
  }

  /** Saving a tree and reading it back gives the same tree, cache included. */
  method Restart(sum: seq<byte> -> nat, tree: CommitmentTreeDb) returns (tree': CommitmentTreeDb)
    requires tree.Valid() && Counted(tree.View()) && WithinWidths(ImageOf(tree))
    ensures fresh(tree') && fresh(tree'.ssRootCache) && tree'.hasher == tree.hasher
    ensures tree'.Valid() && ImageOf(tree') == ImageOf(tree)
  {
    var data := ToSnapshot(sum, tree);
    SoundCacheIsCanonical(tree.hasher, tree.leaves, tree.ssRootCache[..]);
    SnapshotRoundTripIff(tree.hasher, sum, ImageOf(tree));
    var r := FromSnapshot(tree.hasher, sum, data);
    assert r.Ok?;
    tree' := r.value;
    assert tree'.leaves == tree.leaves;
  }

  // ── Runs of everything ─────────────────────────────────────────────

  datatype TreeOp = Change(op: Op) | Build(anchorHeight: nat) | Reload

  /** What an operation does to the contents: builds and reloads leave no trace. */
  function Changed(c: Contents, op: TreeOp): Contents {
    match op
    case Change(Append(b)) => Appended(c, b.height, b.hash, b.commitments)
    case Change(Rollback(target)) => RolledBack(c, target)
    case _ => c
  }

  function ContentsAfter(c: Contents, ops: seq<TreeOp>): Contents
    decreases |ops|
  {
    if ops == [] then c else Changed(ContentsAfter(c, ops[..|ops| - 1]), ops[|ops| - 1])
  }

  /** What a build answers: a function of the contents alone. */
  datatype Output = Output(db: seq<byte>, broadcast: Broadcast)

  ghost function OutputOf(h: Hasher, c: Contents, op: TreeOp): seq<Output> {
    if op.Build? then [Output(Database(h, c), BroadcastOf(h, c, op.anchorHeight))] else []
  }

  ghost function OutputsOf(h: Hasher, c: Contents, ops: seq<TreeOp>): seq<Output>
    decreases |ops|
  {
    if ops == [] then []
    else OutputsOf(h, c, ops[..|ops| - 1]) + OutputOf(h, ContentsAfter(c, ops[..|ops| - 1]), ops[|ops| - 1])
  }

  /** An appended block the source's types can hold. */
  predicate Representable(h: Hasher, op: TreeOp) {
    op.Change? && op.op.Append? ==>
      && op.op.block.height < U64_LIMIT && |op.op.block.commitments| < U32_LIMIT
      && AllCanonical(h, op.op.block.commitments)
  }

  ghost predicate SoundContents(h: Hasher, c: Contents, n: nat) {
    && Counted(c) && |c.blocks| <= n && CanonicalContents(h, c)
    && forall i :: 0 <= i < |c.blocks| ==> RecordFits(c.blocks[i])
  }

  lemma OpKeepsSoundContents(h: Hasher, c: Contents, op: TreeOp, n: nat)
    requires SoundContents(h, c, n) && Representable(h, op)
    ensures SoundContents(h, Changed(c, op), n + 1)
  {
    match op
    case Change(Append(b)) => AppendKeepsCounted(c, b.height, b.hash, b.commitments);
    case Change(Rollback(target)) => RollbackKeepsCounted(c, target);
    case _ =>
  }

  /** One operation on the tree in place; a reload continues with the restored tree. */
  method Perform(sum: seq<byte> -> nat, tree: CommitmentTreeDb, op: TreeOp) returns (tree': CommitmentTreeDb, out: seq<Output>)
    requires tree.Valid() && Aligned(tree.View()) && Representable(tree.hasher, op)
    requires op.Reload? ==> Counted(tree.View()) && WithinWidths(ImageOf(tree))
    modifies tree, tree.ssRootCache
    ensures tree'.Valid() && tree'.hasher == tree.hasher
    ensures tree' == tree || fresh(tree')
    ensures tree'.ssRootCache == old(tree.ssRootCache) || fresh(tree'.ssRootCache)
    ensures tree'.View() == Changed(old(tree.View()), op)
    ensures out == OutputOf(tree'.hasher, old(tree.View()), op)
  {
    tree', out := tree, [];
    match op
    case Change(Append(b)) =>
      tree.AppendCommitments(b.height, b.hash, b.commitments);
    case Change(Rollback(target)) =>
      tree.RollbackTo(target);
    case Build(anchorHeight) =>
      var db, broadcast := tree.BuildPirDbAndBroadcast(anchorHeight);
      out := [Output(db, broadcast)];
    case Reload =>
      tree' := Restart(sum, tree);
  }

  lemma FirstState(h: Hasher, leafOffset: nat, prefetched: seq<Hash>)
    requires AllCanonical(h, prefetched)
    ensures SoundContents(h, Fresh(leafOffset, prefetched), 0)
  {
  }

  lemma NextState(h: Hasher, start: Contents, ops: seq<TreeOp>, i: nat)
    requires i < |ops| && SoundContents(h, ContentsAfter(start, ops[..i]), i) && Representable(h, ops[i])
    ensures ops[..i + 1][..i] == ops[..i] && ops[..i + 1][i] == ops[i]
    ensures SoundContents(h, ContentsAfter(start, ops[..i + 1]), i + 1)
  {
    assert ops[..i + 1][..i] == ops[..i];
    OpKeepsSoundContents(h, ContentsAfter(start, ops[..i]), ops[i], i);
  }

  /** THE RESULT. Over any interleaving of appends, rollbacks, builds and reloads, every build answers
      what a cold build of the same contents answers: the cache never shows. */
  method RunEverything(
    h: Hasher, sum: seq<byte> -> nat, leafOffset: nat, prefetched: seq<Hash>, ops: seq<TreeOp>)
    returns (tree: CommitmentTreeDb, outputs: seq<Output>)
    requires Sane(h) && AllCanonical(h, prefetched) && leafOffset % SHARD_LEAVES == 0
    requires leafOffset < U64_LIMIT && |prefetched| < U64_LIMIT && |ops| < U64_LIMIT
    requires forall i :: 0 <= i < |ops| ==> Representable(h, ops[i])
    ensures tree.Valid() && tree.View() == ContentsAfter(Fresh(leafOffset, prefetched), ops)
    ensures outputs == OutputsOf(h, Fresh(leafOffset, prefetched), ops)
  {
    ghost var start := Fresh(leafOffset, prefetched);
    tree := new CommitmentTreeDb.WithOffset(h, leafOffset, prefetched);
    outputs := [];
    FirstState(h, leafOffset, prefetched);
    assert ops[..0] == [];
    for i := 0 to |ops|
      invariant tree.Valid() && tree.hasher == h && fresh(tree) && fresh(tree.ssRootCache)
      invariant tree.View() == ContentsAfter(start, ops[..i])
      invariant tree.leafOffset == leafOffset && tree.prefetchedShardRoots == prefetched
      invariant SoundContents(h, tree.View(), i)
      invariant outputs == OutputsOf(h, start, ops[..i])
    {
      NextState(h, start, ops, i);
      var out;
      tree, out := Perform(sum, tree, ops[i]);
      outputs := outputs + out;
    }
    assert ops[..|ops|] == ops;
  }
}
