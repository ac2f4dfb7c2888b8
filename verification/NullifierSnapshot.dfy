/** The nullifier table's snapshot format and its round trip: cells and records are written, the index by hash
    is rebuilt from the records on reading. */
module NullifierSnapshot {
  import opened Prelude
  import opened Codec
  import opened NullifierTable
  import opened NullifierHistory
  import opened NullifierLookup

  const SNAPSHOT_MAGIC: nat := 0x4952_4F4E_5049_5200
  const SNAPSHOT_VERSION: nat := 2

  datatype SnapshotError =
    | TooShort
    | ChecksumMismatch
    | UnexpectedEof
    | BadMagic
    | UnsupportedVersion(version: nat)
    | BucketDataTruncated

  // ── Encoding ───────────────────────────────────────────────────────

  /** A slot is four bytes of bucket, one of cell and one of padding. */
  function EncodeSlot(s: Slot): seq<byte> {
    ToLe(s.bucket, 4) + [s.cell % 256, 0]
  }

  function EncodeSlots(slots: seq<Slot>): seq<byte> {
    if slots == [] then [] else EncodeSlot(slots[0]) + EncodeSlots(slots[1..])
  }

  function EncodeBlock(r: BlockRecord): seq<byte> {
    ToLe(r.height, 8) + (r.hash.bytes + (ToLe(|r.slots|, 4) + EncodeSlots(r.slots)))
  }

  function EncodeBlocks(index: seq<BlockRecord>): seq<byte> {
    if index == [] then [] else EncodeBlock(index[0]) + EncodeBlocks(index[1..])
  }

  function EncodePayload(t: Table): seq<byte> {
    ToLe(SNAPSHOT_MAGIC, 8) +
    (ToLe(SNAPSHOT_VERSION, 4) + (ToLe(|t.index|, 8) + (EncodeBlocks(t.index) + ToPirBytes(t.buckets))))
  }

  function Encode(sum: seq<byte> -> nat, t: Table): seq<byte> {
    Seal(sum, EncodePayload(t))
  }

  // ── Decoding ───────────────────────────────────────────────────────

  function TakeSlot(input: seq<byte>): Taken<Slot> {
    match TakeLe(input, 4)
    case Short => Short
    case Taken(bucket, rest) => if |rest| < 2 then Short else Taken(Slot(bucket, rest[0]), rest[2..])
  }

  function TakeSlots(input: seq<byte>, n: nat): Taken<seq<Slot>>
    decreases n, input
  {
    if n == 0 then Taken([], input)
    else
      match TakeSlot(input)
      case Short => Short
      case Taken(s, rest) => Put([s], TakeSlots(rest, n - 1))
  }

  datatype BlockHead = BlockHead(height: nat, hash: Hash, slotCount: nat)

  function TakeBlockHead(input: seq<byte>): Taken<BlockHead> {
    match TakeLe(input, 8)
    case Short => Short
    case Taken(height, a) =>
      match TakeHash(a)
      case Short => Short
      case Taken(hash, b) =>
        match TakeLe(b, 4)
        case Short => Short
        case Taken(slotCount, rest) => Taken(BlockHead(height, hash, slotCount), rest)
  }

  function TakeBlock(input: seq<byte>): Taken<BlockRecord> {
    match TakeBlockHead(input)
    case Short => Short
    case Taken(head, a) =>
      match TakeSlots(a, head.slotCount)
      case Short => Short
      case Taken(slots, rest) => Taken(BlockRecord(head.height, head.hash, slots), rest)
  }

  function TakeBlocks(input: seq<byte>, n: nat): Taken<seq<BlockRecord>>
    decreases n, input
  {
    if n == 0 then Taken([], input)
    else
      match TakeBlock(input)
      case Short => Short
      case Taken(r, rest) => Put([r], TakeBlocks(rest, n - 1))
  }

  function TakeBuckets(input: seq<byte>, n: nat): Taken<seq<Bucket>>
    decreases n, input
  {
    if n == 0 then Taken([], input)
    else
      match TakeHashes(input, BUCKET_CAPACITY)
      case Short => Short
      case Taken(entries, rest) => Put([Bucket(entries)], TakeBuckets(rest, n - 1))
  }

  /** Both indexes and the count, as the records are read in order. */
  function Indexed(records: seq<BlockRecord>): Table
    decreases |records|
  {
    if records == [] then Table([], [], map[], 0)
    else
      var before, r := Indexed(records[..|records| - 1]), records[|records| - 1];
      Table([], PutRecord(before.index, r), before.heights[r.hash := r.height], before.numEntries + |r.slots|)
  }

  function DecodeBlocks(input: seq<byte>): Result<Table, SnapshotError> {
    match TakeLe(input, 8)
    case Short => Err(UnexpectedEof)
    case Taken(blockCount, a) =>
      match TakeBlocks(a, blockCount)
      case Short => Err(UnexpectedEof)
      case Taken(records, b) =>
        match TakeBuckets(b, NUM_BUCKETS)
        case Short => Err(BucketDataTruncated)
        case Taken(buckets, _) => Ok(Indexed(records).(buckets := buckets))
  }

  function DecodePayload(payload: seq<byte>): Result<Table, SnapshotError> {
    match TakeLe(payload, 8)
    case Short => Err(UnexpectedEof)
    case Taken(magic, a) =>
      if magic != SNAPSHOT_MAGIC then Err(BadMagic)
      else
        match TakeLe(a, 4)
        case Short => Err(UnexpectedEof)
        case Taken(version, b) => if version != SNAPSHOT_VERSION then Err(UnsupportedVersion(version)) else DecodeBlocks(b)
  }

  const MIN_SIZE: nat := 8 + 4 + 8 + NUM_BUCKETS * BUCKET_BYTES + 8

  function Decode(sum: seq<byte> -> nat, data: seq<byte>): Result<Table, SnapshotError> {
    match Open(sum, data, MIN_SIZE)
    case BadLength => Err(TooShort)
    case BadChecksum => Err(ChecksumMismatch)
    case Payload(payload) => DecodePayload(payload)
  }

  // ── Round trip ─────────────────────────────────────────────────────

  ghost predicate RecordFits(r: BlockRecord) {
    && r.height < U64_LIMIT && |r.slots| < U32_LIMIT
    && forall i :: 0 <= i < |r.slots| ==> r.slots[i].bucket < U32_LIMIT && r.slots[i].cell < 256
  }

  /** Every field is within its width on disk. */
  ghost predicate WithinWidths(t: Table) {
    && WellShaped(t.buckets)
    && |t.index| < U64_LIMIT
    && forall k :: 0 <= k < |t.index| ==> RecordFits(t.index[k])
  }

  lemma SlotRoundTrip(s: Slot, tail: seq<byte>)
    requires s.bucket < U32_LIMIT && s.cell < 256
    ensures TakeSlot(EncodeSlot(s) + tail) == Taken(s, tail)
  {
    PowerLimits();
    var rest := [s.cell % 256, 0] + tail;
    assert EncodeSlot(s) + tail == ToLe(s.bucket, 4) + rest;
    TakeLeRoundTrip(s.bucket, 4, rest);
    assert rest[2..] == tail;
  }

  lemma {:induction false} SlotsRoundTrip(slots: seq<Slot>, tail: seq<byte>)
    requires forall i :: 0 <= i < |slots| ==> slots[i].bucket < U32_LIMIT && slots[i].cell < 256
    ensures TakeSlots(EncodeSlots(slots) + tail, |slots|) == Taken(slots, tail)
    decreases |slots|
  {
    if slots == [] {
      assert EncodeSlots(slots) + tail == tail;
    } else {
      var rest := EncodeSlots(slots[1..]) + tail;
      assert EncodeSlots(slots) + tail == EncodeSlot(slots[0]) + rest;
      SlotRoundTrip(slots[0], rest);
      SlotsRoundTrip(slots[1..], tail);
      assert [slots[0]] + slots[1..] == slots;
    }
  }

  lemma BlockRoundTrip(r: BlockRecord, tail: seq<byte>)
    requires RecordFits(r)
    ensures TakeBlock(EncodeBlock(r) + tail) == Taken(r, tail)
  {
    PowerLimits();
    var d := EncodeSlots(r.slots) + tail;
    var c := ToLe(|r.slots|, 4) + d;
    var b := r.hash.bytes + c;
    assert EncodeBlock(r) + tail == ToLe(r.height, 8) + b;
    TakeLeRoundTrip(r.height, 8, b);
    TakeHashRoundTrip(r.hash, c);
    TakeLeRoundTrip(|r.slots|, 4, d);
    SlotsRoundTrip(r.slots, tail);
  }

  lemma {:induction false} BlocksRoundTrip(index: seq<BlockRecord>, tail: seq<byte>)
    requires forall k :: 0 <= k < |index| ==> RecordFits(index[k])
    ensures TakeBlocks(EncodeBlocks(index) + tail, |index|) == Taken(index, tail)
    decreases |index|
  {
    if index == [] {
      assert EncodeBlocks(index) + tail == tail;
    } else {
      var first, others := index[0], index[1..];
      BlocksRoundTrip(others, tail);
      BlocksRoundTripNext(first, others, tail, EncodeBlock(first) + (EncodeBlocks(others) + tail));
      Associate(EncodeBlock(first), EncodeBlocks(others), tail);
      assert [first] + others == index;
    }
  }

  lemma TakeBlocksNext(input: seq<byte>, r: BlockRecord, rest: seq<byte>, others: seq<BlockRecord>, tail: seq<byte>)
    requires TakeBlock(input) == Taken(r, rest) && TakeBlocks(rest, |others|) == Taken(others, tail)
    ensures TakeBlocks(input, |others| + 1) == Taken([r] + others, tail)
  {
  }

  lemma BlocksRoundTripNext(first: BlockRecord, others: seq<BlockRecord>, tail: seq<byte>, input: seq<byte>)
    requires RecordFits(first) && TakeBlocks(EncodeBlocks(others) + tail, |others|) == Taken(others, tail)
    requires input == EncodeBlock(first) + (EncodeBlocks(others) + tail)
    ensures TakeBlocks(input, |others| + 1) == Taken([first] + others, tail)
  {
    BlockRoundTrip(first, EncodeBlocks(others) + tail);
    TakeBlocksNext(input, first, EncodeBlocks(others) + tail, others, tail);
  }

  lemma TakeBucketsNext(input: seq<byte>, first: Bucket, rest: seq<byte>, others: seq<Bucket>, tail: seq<byte>)
    requires TakeHashes(input, BUCKET_CAPACITY) == Taken(first.entries, rest)
    requires TakeBuckets(rest, |others|) == Taken(others, tail)
    ensures TakeBuckets(input, |others| + 1) == Taken([first] + others, tail)
  {
  }

  lemma {:induction false} BucketsRoundTrip(buckets: seq<Bucket>, tail: seq<byte>)
    requires forall b :: 0 <= b < |buckets| ==> |buckets[b].entries| == BUCKET_CAPACITY
    ensures TakeBuckets(ToPirBytes(buckets) + tail, |buckets|) == Taken(buckets, tail)
    decreases |buckets|
  {
    if buckets == [] {
      assert ToPirBytes(buckets) + tail == tail;
    } else {
      var first, others := buckets[0], buckets[1..];
      var rest := ToPirBytes(others) + tail;
      BucketsRoundTrip(others, tail);
      TakeHashesRoundTrip(first.entries, rest);
      TakeBucketsNext(Flatten(first.entries) + rest, first, rest, others, tail);
      Associate(Flatten(first.entries), ToPirBytes(others), tail);
      assert [first] + others == buckets;
    }
  }

  lemma BlocksPartRoundTrip(t: Table)
    requires WithinWidths(t)
    ensures DecodeBlocks(ToLe(|t.index|, 8) + (EncodeBlocks(t.index) + ToPirBytes(t.buckets)))
      == Ok(Indexed(t.index).(buckets := t.buckets))
  {
    PowerLimits();
    TakeLeRoundTrip(|t.index|, 8, EncodeBlocks(t.index) + ToPirBytes(t.buckets));
    BlocksRoundTrip(t.index, ToPirBytes(t.buckets));
    BucketsRoundTrip(t.buckets, []);
    assert ToPirBytes(t.buckets) + [] == ToPirBytes(t.buckets);
  }

  lemma PayloadRoundTrip(t: Table)
    requires WithinWidths(t)
    ensures DecodePayload(EncodePayload(t)) == Ok(Indexed(t.index).(buckets := t.buckets))
  {
    PowerLimits();
    var b := ToLe(|t.index|, 8) + (EncodeBlocks(t.index) + ToPirBytes(t.buckets));
    TakeLeRoundTrip(SNAPSHOT_MAGIC, 8, ToLe(SNAPSHOT_VERSION, 4) + b);
    TakeLeRoundTrip(SNAPSHOT_VERSION, 4, b);
    BlocksPartRoundTrip(t);
  }

  lemma PayloadLength(t: Table)
    requires WellShaped(t.buckets)
    ensures |EncodePayload(t)| + 8 >= MIN_SIZE
  {
    BytesLength(t.buckets);
  }

  /** What comes back from a snapshot: the buckets as they were, the indexes rebuilt from the records. */
  lemma DecodeOfEncode(sum: seq<byte> -> nat, t: Table)
    requires WithinWidths(t)
    ensures Decode(sum, Encode(sum, t)) == Ok(Indexed(t.index).(buckets := t.buckets))
  {
    PayloadLength(t);
    OpenSealed(sum, EncodePayload(t), MIN_SIZE);
    PayloadRoundTrip(t);
  }

  // ── Rebuilding the indexes ─────────────────────────────────────────

  lemma {:induction false} IndexedInOrder(index: seq<BlockRecord>)
    requires Ascending(index)
    ensures Indexed(index).index == index
    decreases |index|
  {
    if index != [] {
      IndexedInOrder(index[..|index| - 1]);
      assert index == index[..|index| - 1] + [index[|index| - 1]];
    }
  }

  lemma {:induction false} IndexedCount(buckets: seq<Bucket>, index: seq<BlockRecord>)
    ensures Indexed(index).numEntries == Size(LiveOf(buckets, index))
    decreases |index|
  {
    if index != [] {
      var n := |index| - 1;
      IndexedCount(buckets, index[..n]);
      SizeAppend(LiveOf(buckets, index[..n]), LiveBlock(index[n].height, index[n].hash, Read(buckets, index[n].slots)));
    }
  }

  lemma {:induction false} IndexedHeights(index: seq<BlockRecord>, heights: map<Hash, nat>)
    requires forall r :: r in index ==> r.hash in heights && heights[r.hash] == r.height
    ensures forall hash :: hash in Indexed(index).heights <==> exists r :: r in index && r.hash == hash
    ensures forall hash :: hash in Indexed(index).heights ==> hash in heights && Indexed(index).heights[hash] == heights[hash]
    decreases |index|
  {
    if index != [] {
      var n := |index| - 1;
      IndexedHeights(index[..n], heights);
      assert index == index[..n] + [index[n]];
      assert index[n] in index;
      forall hash
        ensures hash in Indexed(index).heights <==> exists r :: r in index && r.hash == hash
      {
        if hash in Indexed(index[..n]).heights {
          var r :| r in index[..n] && r.hash == hash;
          assert r in index;
        }
      }
    }
  }

  lemma RebuiltIndexes(t: Table)
    requires Sound(t)
    ensures Indexed(t.index).(buckets := t.buckets) == t
  {
    IndexedInOrder(t.index);
    IndexedCount(t.buckets, t.index);
    IndexedHeights(t.index, t.heights);
    forall hash | hash in t.heights
      ensures hash in Indexed(t.index).heights
    {
      FoundIsIn(t.index, t.heights[hash]);
    }
    assert Indexed(t.index).heights == t.heights;
  }

  /** The widths that the table invariant does not already bound. */
  ghost predicate Storable(t: Table) {
    && |t.index| < U64_LIMIT
    && forall k :: 0 <= k < |t.index| ==> t.index[k].height < U64_LIMIT && |t.index[k].slots| < U32_LIMIT
  }

  lemma SoundSlotsFit(t: Table, k: nat, i: nat)
    requires Sound(t) && k < |t.index| && i < |t.index[k].slots|
    ensures t.index[k].slots[i].bucket < NUM_BUCKETS && t.index[k].slots[i].cell < BUCKET_CAPACITY
  {
    CountOf(t.index, k, i);
    assert InTable(t.buckets, t.index[k].slots[i]);
  }

  lemma SoundFits(t: Table)
    requires Sound(t) && Storable(t)
    ensures WithinWidths(t)
  {
    forall k | 0 <= k < |t.index|
      ensures RecordFits(t.index[k])
    {
      forall i | 0 <= i < |t.index[k].slots|
        ensures t.index[k].slots[i].bucket < U32_LIMIT && t.index[k].slots[i].cell < 256
      {
        SoundSlotsFit(t, k, i);
      }
    }
  }

  /** THE RESULT. Every sound table survives a snapshot: cells, both indexes and the entry count. */
  lemma SnapshotRoundTrip(sum: seq<byte> -> nat, t: Table)
    requires Sound(t) && Storable(t)
    ensures Decode(sum, Encode(sum, t)) == Ok(t)
  {
    SoundFits(t);
    DecodeOfEncode(sum, t);
    RebuiltIndexes(t);
  }

  // ── What a file must be ────────────────────────────────────────────

  /** A file is decoded only if it ends in its checksum and begins with the magic number and the version; of
      these the first that is wrong is reported. */
  lemma DecodedIsChecked(sum: seq<byte> -> nat, data: seq<byte>)
    ensures Decode(sum, data).Ok? ==>
      && |data| >= MIN_SIZE && Checksummed(sum, data)
      && data[..8] == ToLe(SNAPSHOT_MAGIC, 8) && data[8..12] == ToLe(SNAPSHOT_VERSION, 4)
    ensures |data| < MIN_SIZE ==> Decode(sum, data) == Err(TooShort)
    ensures |data| >= MIN_SIZE && !Checksummed(sum, data) ==> Decode(sum, data) == Err(ChecksumMismatch)
    ensures |data| >= MIN_SIZE && Checksummed(sum, data) && data[..8] != ToLe(SNAPSHOT_MAGIC, 8) ==>
      Decode(sum, data) == Err(BadMagic)
    ensures |data| >= MIN_SIZE && Checksummed(sum, data) && data[..8] == ToLe(SNAPSHOT_MAGIC, 8) ==>
      data[8..12] == ToLe(SNAPSHOT_VERSION, 4) || Decode(sum, data) == Err(UnsupportedVersion(FromLe(data[8..12])))
  {
    if |data| >= MIN_SIZE {
      OpenedIsSealed(sum, data, MIN_SIZE);
      OpenedIff(sum, data, MIN_SIZE, data[..|data| - 8]);
      PayloadIsChecked(data[..|data| - 8]);
      assert data[..|data| - 8][..8] == data[..8] && data[..|data| - 8][8..12] == data[8..12];
    }
  }

  lemma PayloadIsChecked(payload: seq<byte>)
    requires |payload| >= 12
    ensures payload[..8] != ToLe(SNAPSHOT_MAGIC, 8) ==> DecodePayload(payload) == Err(BadMagic)
    ensures payload[..8] == ToLe(SNAPSHOT_MAGIC, 8) && payload[8..12] != ToLe(SNAPSHOT_VERSION, 4) ==>
      DecodePayload(payload) == Err(UnsupportedVersion(FromLe(payload[8..12])))
  {
    PowerLimits();
    BytesOfValue(payload[..8]);
    BytesOfValue(payload[8..12]);
    LeRoundTrip(SNAPSHOT_MAGIC, 8);
    LeRoundTrip(SNAPSHOT_VERSION, 4);
    assert payload[8..][..4] == payload[8..12];
  }

  /** Magic number, version, block count, blocks, cells, checksum. */
  lemma Fields(m: seq<byte>, v: seq<byte>, n: seq<byte>, blocks: seq<byte>, cells: seq<byte>, end: seq<byte>)
    requires |m| == |n| == |end| == 8 && |v| == 4
    ensures var data, cellsAt := (m + (v + (n + (blocks + cells)))) + end, 20 + |blocks|;
      && |data| == cellsAt + |cells| + 8
      && data[..8] == m && data[8..12] == v && data[12..20] == n
      && data[20..cellsAt] == blocks && data[cellsAt..|data| - 8] == cells
      && data[..|data| - 8] == m + (v + (n + (blocks + cells)))
  {
  }

  lemma EncodedIsLaidOut(sum: seq<byte> -> nat, t: Table)
    ensures var data, cellsAt := Encode(sum, t), 20 + |EncodeBlocks(t.index)|;
      && |data| == cellsAt + |ToPirBytes(t.buckets)| + 8 && Checksummed(sum, data)
      && data[..8] == ToLe(SNAPSHOT_MAGIC, 8) && data[8..12] == ToLe(SNAPSHOT_VERSION, 4) && data[12..20] == ToLe(|t.index|, 8)
      && data[20..cellsAt] == EncodeBlocks(t.index) && data[cellsAt..|data| - 8] == ToPirBytes(t.buckets)
  {
    Fields(ToLe(SNAPSHOT_MAGIC, 8), ToLe(SNAPSHOT_VERSION, 4), ToLe(|t.index|, 8), EncodeBlocks(t.index),
      ToPirBytes(t.buckets), ToLe(sum(EncodePayload(t)) % U64_LIMIT, 8));
  }

  /** A block's bytes: height, hash, number of slots, slots. */
  lemma BlockBytes(r: BlockRecord)
    ensures var bytes := EncodeBlock(r);
      && |bytes| == 44 + |EncodeSlots(r.slots)|
      && bytes[..8] == ToLe(r.height, 8) && bytes[8..40] == r.hash.bytes
      && bytes[40..44] == ToLe(|r.slots|, 4) && bytes[44..] == EncodeSlots(r.slots)
  {
  }

  /** Six bytes for every slot: four of bucket, one of cell, one of padding. */
  lemma {:induction false} SlotAt(slots: seq<Slot>, i: nat)
    requires i < |slots|
    ensures |EncodeSlots(slots)| == 6 * |slots|
    ensures EncodeSlots(slots)[6 * i..6 * i + 4] == ToLe(slots[i].bucket, 4)
    ensures EncodeSlots(slots)[6 * i + 4] == slots[i].cell % 256 && EncodeSlots(slots)[6 * i + 5] == 0
    decreases |slots|
  {
    var rest := EncodeSlots(slots[1..]);
    if |slots| > 1 {
      SlotAt(slots[1..], if i > 0 then i - 1 else 0);
    } else {
      assert rest == [];
    }
    if i > 0 {
      SliceAfter(EncodeSlot(slots[0]), rest, 6 * (i - 1), 6 * (i - 1) + 4);
    }
  }
}
