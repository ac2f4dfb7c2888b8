/** The commitment tree's snapshot format (version 5) and its round trip: a tree comes back exactly when its log
    accounts for its leaves and its hashes are canonical. */
module TreeSnapshot {
  import opened Prelude
  import opened Geometry
  import opened Merkle
  import opened CommitmentTree
  import opened TreeHistory
  import opened Codec

  const SNAPSHOT_MAGIC: nat := 0x434D_5452_4545_0005

  datatype SnapshotError =
    | TooShort
    | ChecksumMismatch
    | BadMagic(magic: nat)
    | UnexpectedEof
    | PrefetchedTruncated
    | BlockRecordsTruncated
    | LeafDataTruncated
    | CacheEntryTruncated
    | NonCanonicalHash

  /** Everything a snapshot restores. */
  datatype Image = Image(contents: Contents, cache: seq<Option<Hash>>)

  datatype CacheEntry = CacheEntry(slot: nat, root: Hash)

  datatype Header = Header(blockCount: nat, leafOffset: nat, prefetchedCount: nat)

  // ── Encoding ───────────────────────────────────────────────────────

  function EncodeRecord(b: BlockRecord): seq<byte> {
    ToLe(b.height, 8) + (b.hash.bytes + ToLe(b.numCommitments, 4))
  }

  function EncodeRecords(blocks: seq<BlockRecord>): seq<byte> {
    if blocks == [] then [] else EncodeRecord(blocks[0]) + EncodeRecords(blocks[1..])
  }

  function EncodeEntry(e: CacheEntry): seq<byte> {
    ToLe(e.slot, 4) + e.root.bytes
  }

  function EncodeEntries(entries: seq<CacheEntry>): seq<byte> {
    if entries == [] then [] else EncodeEntry(entries[0]) + EncodeEntries(entries[1..])
  }

  /** The filled ones among the first `n` slots, in slot order. */
  function Entries(cache: seq<Option<Hash>>, n: nat): (entries: seq<CacheEntry>)
    requires n <= |cache|
    ensures |entries| <= n
    decreases n, cache
  {
    if n == 0 then []
    else Entries(cache, n - 1) + (if cache[n - 1].Some? then [CacheEntry(n - 1, cache[n - 1].value)] else [])
  }

  function EncodeHeader(header: Header): seq<byte> {
    ToLe(header.blockCount, 8) + (ToLe(header.leafOffset, 8) + ToLe(header.prefetchedCount, 8))
  }

  function HeaderOf(c: Contents): Header {
    Header(|c.blocks|, c.leafOffset, |c.prefetched|)
  }

  function EncodeCache(cache: seq<Option<Hash>>): seq<byte> {
    var entries := Entries(cache, |cache|);
    ToLe(|entries|, 8) + EncodeEntries(entries)
  }

  /** Everything after the magic number. */
  function EncodeBody(image: Image): seq<byte> {
    var c := image.contents;
    EncodeHeader(HeaderOf(c)) +
    (Flatten(c.prefetched) + (EncodeRecords(c.blocks) + (Flatten(c.leaves) + EncodeCache(image.cache))))
  }

  function Encode(sum: seq<byte> -> nat, image: Image): seq<byte> {
    Seal(sum, ToLe(SNAPSHOT_MAGIC, 8) + EncodeBody(image))
  }

  // ── Decoding ───────────────────────────────────────────────────────

  function TakeHeader(input: seq<byte>): Taken<Header> {
    match TakeLe(input, 8)
    case Short => Short
    case Taken(blockCount, a) =>
      match TakeLe(a, 8)
      case Short => Short
      case Taken(leafOffset, b) =>
        match TakeLe(b, 8)
        case Short => Short
        case Taken(prefetchedCount, rest) => Taken(Header(blockCount, leafOffset, prefetchedCount), rest)
  }

  function TakeRecord(input: seq<byte>): Taken<BlockRecord> {
    match TakeLe(input, 8)
    case Short => Short
    case Taken(height, a) =>
      match TakeHash(a)
      case Short => Short
      case Taken(hash, b) =>
        match TakeLe(b, 4)
        case Short => Short
        case Taken(n, rest) => Taken(BlockRecord(height, hash, n), rest)
  }

  function TakeRecords(input: seq<byte>, n: nat): Taken<seq<BlockRecord>>
    decreases n, input
  {
    if n == 0 then Taken([], input)
    else
      match TakeRecord(input)
      case Short => Short
      case Taken(b, rest) => Put([b], TakeRecords(rest, n - 1))
  }

  function TakeEntry(input: seq<byte>): Taken<CacheEntry> {
    match TakeLe(input, 4)
    case Short => Short
    case Taken(slot, a) =>
      match TakeHash(a)
      case Short => Short
      case Taken(root, rest) => Taken(CacheEntry(slot, root), rest)
  }

  function TakeEntries(input: seq<byte>, n: nat): Taken<seq<CacheEntry>>
    decreases n, input
  {
    if n == 0 then Taken([], input)
    else
      match TakeEntry(input)
      case Short => Short
      case Taken(e, rest) => Put([e], TakeEntries(rest, n - 1))
  }

  function NoRoots(n: nat): (cache: seq<Option<Hash>>)
    ensures |cache| == n && forall k :: 0 <= k < n ==> cache[k] == None
    decreases n, 0
  {
    if n == 0 then [] else NoRoots(n - 1) + [None]
  }

  /** Entries written one after the other; slots beyond the table are ignored. */
  function Filled(cache: seq<Option<Hash>>, entries: seq<CacheEntry>): (filled: seq<Option<Hash>>)
    ensures |filled| == |cache|
    decreases |entries|
  {
    if entries == [] then cache
    else
      var before, e := Filled(cache, entries[..|entries| - 1]), entries[|entries| - 1];
      if e.slot < |before| then before[e.slot := Some(e.root)] else before
  }

  predicate CanonicalCache(h: Hasher, cache: seq<Option<Hash>>) {
    forall k :: 0 <= k < |cache| && cache[k].Some? ==> h.canonical(cache[k].value)
  }

  predicate CanonicalImage(h: Hasher, image: Image) {
    CanonicalContents(h, image.contents) && CanonicalCache(h, image.cache)
  }

  function DecodeCache(input: seq<byte>): Result<seq<Option<Hash>>, SnapshotError> {
    match TakeLe(input, 8)
    case Short => Err(UnexpectedEof)
    case Taken(count, rest) =>
      match TakeEntries(rest, count)
      case Short => Err(CacheEntryTruncated)
      case Taken(entries, _) => Ok(Filled(NoRoots(L0_DB_ROWS), entries))
  }

  /** The block log says how many leaves follow it. */
  function DecodeRest(header: Header, prefetched: seq<Hash>, input: seq<byte>): Result<Image, SnapshotError> {
    match TakeRecords(input, header.blockCount)
    case Short => Err(BlockRecordsTruncated)
    case Taken(blocks, a) =>
      match TakeHashes(a, CommitmentCount(blocks))
      case Short => Err(LeafDataTruncated)
      case Taken(leaves, b) =>
        match DecodeCache(b)
        case Err(e) => Err(e)
        case Ok(cache) => Ok(Image(Contents(leaves, blocks, header.leafOffset, prefetched), cache))
  }

  function DecodeBody(h: Hasher, input: seq<byte>): Result<Image, SnapshotError> {
    match TakeHeader(input)
    case Short => Err(UnexpectedEof)
    case Taken(header, a) =>
      match TakeHashes(a, header.prefetchedCount)
      case Short => Err(PrefetchedTruncated)
      case Taken(prefetched, b) =>
        match DecodeRest(header, prefetched, b)
        case Err(e) => Err(e)
        case Ok(image) => if CanonicalImage(h, image) then Ok(image) else Err(NonCanonicalHash)
  }

  function Decode(h: Hasher, sum: seq<byte> -> nat, data: seq<byte>): Result<Image, SnapshotError> {
    match Open(sum, data, 16)
    case BadLength => Err(TooShort)
    case BadChecksum => Err(ChecksumMismatch)
    case Payload(payload) =>
      match TakeLe(payload, 8)
      case Short => Err(UnexpectedEof)
      case Taken(magic, body) => if magic == SNAPSHOT_MAGIC then DecodeBody(h, body) else Err(BadMagic(magic))
  }

  // ── Round trip ─────────────────────────────────────────────────────

  /** Every field is within its width on disk, and the cache has one slot per database row. */
  ghost predicate WithinWidths(image: Image) {
    var c := image.contents;
    && |c.blocks| < U64_LIMIT && c.leafOffset < U64_LIMIT && |c.prefetched| < U64_LIMIT
    && (forall i :: 0 <= i < |c.blocks| ==> RecordFits(c.blocks[i]))
    && |image.cache| == L0_DB_ROWS
  }

  ghost predicate RecordFits(b: BlockRecord) {
    b.height < U64_LIMIT && b.numCommitments < U32_LIMIT
  }

  lemma HeaderRoundTrip(header: Header, tail: seq<byte>)
    requires header.blockCount < U64_LIMIT && header.leafOffset < U64_LIMIT && header.prefetchedCount < U64_LIMIT
    ensures TakeHeader(EncodeHeader(header) + tail) == Taken(header, tail)
  {
    PowerLimits();
    var c := ToLe(header.prefetchedCount, 8) + tail;
    var b := ToLe(header.leafOffset, 8) + c;
    assert EncodeHeader(header) + tail == ToLe(header.blockCount, 8) + b;
    TakeLeRoundTrip(header.blockCount, 8, b);
    TakeLeRoundTrip(header.leafOffset, 8, c);
    TakeLeRoundTrip(header.prefetchedCount, 8, tail);
  }

  lemma RecordRoundTrip(b: BlockRecord, tail: seq<byte>)
    requires RecordFits(b)
    ensures TakeRecord(EncodeRecord(b) + tail) == Taken(b, tail)
  {
    PowerLimits();
    var c := ToLe(b.numCommitments, 4) + tail;
    var d := b.hash.bytes + c;
    assert EncodeRecord(b) + tail == ToLe(b.height, 8) + d;
    TakeLeRoundTrip(b.height, 8, d);
    TakeHashRoundTrip(b.hash, c);
    TakeLeRoundTrip(b.numCommitments, 4, tail);
  }

  lemma {:induction false} RecordsRoundTrip(blocks: seq<BlockRecord>, tail: seq<byte>)
    requires forall i :: 0 <= i < |blocks| ==> RecordFits(blocks[i])
    ensures TakeRecords(EncodeRecords(blocks) + tail, |blocks|) == Taken(blocks, tail)
    decreases |blocks|
  {
    if blocks == [] {
      assert EncodeRecords(blocks) + tail == tail;
    } else {
      var rest := EncodeRecords(blocks[1..]) + tail;
      assert EncodeRecords(blocks) + tail == EncodeRecord(blocks[0]) + rest;
      RecordRoundTrip(blocks[0], rest);
      RecordsRoundTrip(blocks[1..], tail);
      assert [blocks[0]] + blocks[1..] == blocks;
    }
  }

  lemma EntryRoundTrip(e: CacheEntry, tail: seq<byte>)
    requires e.slot < U32_LIMIT
    ensures TakeEntry(EncodeEntry(e) + tail) == Taken(e, tail)
  {
    PowerLimits();
    var c := e.root.bytes + tail;
    assert EncodeEntry(e) + tail == ToLe(e.slot, 4) + c;
    TakeLeRoundTrip(e.slot, 4, c);
    TakeHashRoundTrip(e.root, tail);
  }

  lemma {:induction false} EntriesRoundTrip(entries: seq<CacheEntry>, tail: seq<byte>)
    requires forall i :: 0 <= i < |entries| ==> entries[i].slot < U32_LIMIT
    ensures TakeEntries(EncodeEntries(entries) + tail, |entries|) == Taken(entries, tail)
    decreases |entries|
  {
    if entries == [] {
      assert EncodeEntries(entries) + tail == tail;
    } else {
      var rest := EncodeEntries(entries[1..]) + tail;
      assert EncodeEntries(entries) + tail == EncodeEntry(entries[0]) + rest;
      EntryRoundTrip(entries[0], rest);
      EntriesRoundTrip(entries[1..], tail);
      assert [entries[0]] + entries[1..] == entries;
    }
  }

  lemma {:induction false} EntrySlots(cache: seq<Option<Hash>>, n: nat, i: nat)
    requires n <= |cache| && i < |Entries(cache, n)|
    ensures Entries(cache, n)[i].slot < n
    decreases n
  {
    if i < |Entries(cache, n - 1)| {
      EntrySlots(cache, n - 1, i);
    }
  }

  /** Writing the filled slots into an empty cache gives the cache back. */
  lemma {:induction false} FilledFromEntries(cache: seq<Option<Hash>>, n: nat, k: nat)
    requires n <= |cache| && k < |cache|
    ensures Filled(NoRoots(|cache|), Entries(cache, n))[k] == if k < n then cache[k] else None
    decreases n
  {
    if n > 0 {
      FilledFromEntries(cache, n - 1, k);
      var before := Entries(cache, n - 1);
      if cache[n - 1].Some? {
        assert Entries(cache, n)[..|before|] == before;
      } else {
        assert Entries(cache, n) == before;
      }
    }
  }

  lemma CacheRoundTrip(cache: seq<Option<Hash>>)
    requires |cache| == L0_DB_ROWS
    ensures DecodeCache(EncodeCache(cache)) == Ok(cache)
  {
    PowerLimits();
    var entries := Entries(cache, |cache|);
    TakeLeRoundTrip(|entries|, 8, EncodeEntries(entries));
    forall i | 0 <= i < |entries|
      ensures entries[i].slot < U32_LIMIT
    {
      EntrySlots(cache, |cache|, i);
    }
    EntriesRoundTrip(entries, []);
    assert EncodeEntries(entries) + [] == EncodeEntries(entries);
    var filled := Filled(NoRoots(L0_DB_ROWS), entries);
    forall k | 0 <= k < |cache|
      ensures filled[k] == cache[k]
    {
      FilledFromEntries(cache, |cache|, k);
    }
    assert filled == cache;
  }

  lemma RestRoundTrip(image: Image)
    requires WithinWidths(image) && Counted(image.contents)
    ensures var c := image.contents;
      DecodeRest(HeaderOf(c), c.prefetched, EncodeRecords(c.blocks) + (Flatten(c.leaves) + EncodeCache(image.cache)))
      == Ok(image)
  {
    var c := image.contents;
    RecordsRoundTrip(c.blocks, Flatten(c.leaves) + EncodeCache(image.cache));
    TakeHashesRoundTrip(c.leaves, EncodeCache(image.cache));
    CacheRoundTrip(image.cache);
  }

  lemma BodyRoundTrip(h: Hasher, image: Image)
    requires WithinWidths(image) && Counted(image.contents) && CanonicalImage(h, image)
    ensures DecodeBody(h, EncodeBody(image)) == Ok(image)
  {
    var c := image.contents;
    var rest := EncodeRecords(c.blocks) + (Flatten(c.leaves) + EncodeCache(image.cache));
    HeaderRoundTrip(HeaderOf(c), Flatten(c.prefetched) + rest);
    TakeHashesRoundTrip(c.prefetched, rest);
    RestRoundTrip(image);
  }

  lemma DecodeIsDecodeBody(h: Hasher, sum: seq<byte> -> nat, image: Image)
    ensures Decode(h, sum, Encode(sum, image)) == DecodeBody(h, EncodeBody(image))
  {
    PowerLimits();
    OpenSealed(sum, ToLe(SNAPSHOT_MAGIC, 8) + EncodeBody(image), 16);
    TakeLeRoundTrip(SNAPSHOT_MAGIC, 8, EncodeBody(image));
  }

  lemma {:induction false} TakeHashesLength(input: seq<byte>, n: nat)
    ensures TakeHashes(input, n).Taken? ==> |TakeHashes(input, n).value| == n
    decreases n
  {
    if n > 0 && TakeHash(input).Taken? {
      TakeHashesLength(TakeHash(input).rest, n - 1);
    }
  }

  /** Whatever is decoded, its log accounts for its leaves and its hashes are canonical. */
  lemma DecodedIsCounted(h: Hasher, sum: seq<byte> -> nat, data: seq<byte>)
    ensures var r := Decode(h, sum, data);
      r.Ok? ==> Counted(r.value.contents) && CanonicalImage(h, r.value) && |r.value.cache| == L0_DB_ROWS
  {
    var r := Decode(h, sum, data);
    if r.Ok? {
      var body := TakeLe(Open(sum, data, 16).bytes, 8).rest;
      var header := TakeHeader(body);
      var prefetched := TakeHashes(header.rest, header.value.prefetchedCount);
      RestIsCounted(header.value, prefetched.value, prefetched.rest);
    }
  }

  lemma RestIsCounted(header: Header, prefetched: seq<Hash>, input: seq<byte>)
    requires DecodeRest(header, prefetched, input).Ok?
    ensures var image := DecodeRest(header, prefetched, input).value;
      Counted(image.contents) && |image.cache| == L0_DB_ROWS
  {
    var records := TakeRecords(input, header.blockCount);
    TakeHashesLength(records.rest, CommitmentCount(records.value));
  }

  /** A snapshot restores its tree exactly when the log accounts for the leaves and all hashes are
      canonical, which appends and rollbacks both keep. */
  lemma SnapshotRoundTripIff(h: Hasher, sum: seq<byte> -> nat, image: Image)
    requires WithinWidths(image)
    ensures Decode(h, sum, Encode(sum, image)) == Ok(image) <==> Counted(image.contents) && CanonicalImage(h, image)
  {
    DecodedIsCounted(h, sum, Encode(sum, image));
    if Counted(image.contents) && CanonicalImage(h, image) {
      DecodeIsDecodeBody(h, sum, image);
      BodyRoundTrip(h, image);
    }
  }

  // ── What a file must be ────────────────────────────────────────────

  /** A file is decoded only if it ends in its checksum and begins with the magic number; a long enough file
      with another checksum is refused for it. */
  lemma DecodedIsChecked(h: Hasher, sum: seq<byte> -> nat, data: seq<byte>)
    ensures Decode(h, sum, data).Ok? ==> |data| >= 16 && Checksummed(sum, data) && data[..8] == ToLe(SNAPSHOT_MAGIC, 8)
    ensures |data| < 16 ==> Decode(h, sum, data) == Err(TooShort)
    ensures |data| >= 16 && !Checksummed(sum, data) ==> Decode(h, sum, data) == Err(ChecksumMismatch)
    ensures |data| >= 16 && Checksummed(sum, data) && data[..8] != ToLe(SNAPSHOT_MAGIC, 8) ==>
      Decode(h, sum, data) == Err(BadMagic(FromLe(data[..8])))
  {
    if |data| >= 16 {
      OpenedIsSealed(sum, data, 16);
      OpenedIff(sum, data, 16, data[..|data| - 8]);
      assert data[..|data| - 8][..8] == data[..8];
      BytesOfValue(data[..8]);
      PowerLimits();
      LeRoundTrip(SNAPSHOT_MAGIC, 8);
    }
  }

  lemma {:induction false} RecordsLength(blocks: seq<BlockRecord>)
    ensures |EncodeRecords(blocks)| == 44 * |blocks|
  {
    if blocks != [] {
      RecordsLength(blocks[1..]);
    }
  }

  lemma {:induction false} RecordAt(blocks: seq<BlockRecord>, i: nat)
    requires i < |blocks|
    ensures |EncodeRecords(blocks)| >= 44 * i + 44
    ensures EncodeRecords(blocks)[44 * i..44 * i + 44] == EncodeRecord(blocks[i])
  {
    RecordsLength(blocks);
    if i > 0 {
      RecordAt(blocks[1..], i - 1);
      SliceAfter(EncodeRecord(blocks[0]), EncodeRecords(blocks[1..]), 44 * (i - 1), 44 * (i - 1) + 44);
    }
  }

  /** Where the parts of a file stand after its first 32 bytes: the prefetched roots, 44 bytes for every
      block, the leaves, the cache. */
  ghost predicate IsLaidOut(body: seq<byte>, image: Image) {
    var c := image.contents;
    var blocksAt := 32 * |c.prefetched|;
    var leavesAt := blocksAt + 44 * |c.blocks|;
    var cacheAt := leavesAt + 32 * |c.leaves|;
    && |body| >= cacheAt
    && body[..blocksAt] == Flatten(c.prefetched)
    && body[blocksAt..leavesAt] == EncodeRecords(c.blocks)
    && body[leavesAt..cacheAt] == Flatten(c.leaves)
    && body[cacheAt..] == EncodeCache(image.cache)
  }

  /** The first 32 bytes: magic number, block count, offset, number of prefetched roots. */
  ghost predicate HasHeader(data: seq<byte>, c: Contents) {
    && |data| >= 32
    && data[..8] == ToLe(SNAPSHOT_MAGIC, 8) && data[8..16] == ToLe(|c.blocks|, 8)
    && data[16..24] == ToLe(c.leafOffset, 8) && data[24..32] == ToLe(|c.prefetched|, 8)
  }

  lemma FourParts(a: seq<byte>, b: seq<byte>, c: seq<byte>, d: seq<byte>)
    ensures var s, i, j, k := a + (b + (c + d)), |a|, |a| + |b|, |a| + |b| + |c|;
      |s| == k + |d| && s[..i] == a && s[i..j] == b && s[j..k] == c && s[k..] == d
  {
    var cd := c + d;
    var bcd := b + cd;
    assert cd[..|c|] == c && cd[|c|..] == d && bcd[..|b|] == b;
    SliceAfter(b, cd, 0, |c|);
    SliceAfter(b, cd, |c|, |cd|);
    SliceAfter(a, bcd, 0, |b|);
    SliceAfter(a, bcd, |b|, |b| + |c|);
    SliceAfter(a, bcd, |b| + |c|, |bcd|);
  }

  lemma BodyIsLaidOut(image: Image)
    ensures IsLaidOut(Flatten(image.contents.prefetched) + (EncodeRecords(image.contents.blocks) +
      (Flatten(image.contents.leaves) + EncodeCache(image.cache))), image)
  {
    var c := image.contents;
    RecordsLength(c.blocks);
    FourParts(Flatten(c.prefetched), EncodeRecords(c.blocks), Flatten(c.leaves), EncodeCache(image.cache));
  }

  /** Four 8-byte fields, a body and an 8-byte end. */
  lemma Fields(m: seq<byte>, x: seq<byte>, y: seq<byte>, z: seq<byte>, body: seq<byte>, end: seq<byte>)
    requires |m| == |x| == |y| == |z| == |end| == 8
    ensures var data := (m + ((x + (y + z)) + body)) + end;
      && |data| == 40 + |body|
      && data[..8] == m && data[8..16] == x && data[16..24] == y && data[24..32] == z
      && data[32..|data| - 8] == body && data[..|data| - 8] == m + ((x + (y + z)) + body)
  {
    var payload := m + ((x + (y + z)) + body);
    FourParts(x, y, z, body);
    assert (x + (y + z)) + body == x + (y + (z + body));
    assert payload[8..] == x + (y + (z + body));
    assert payload[8..16] == payload[8..][..8] && payload[16..24] == payload[8..][8..16];
    assert payload[24..32] == payload[8..][16..24] && payload[32..] == payload[8..][24..];
    assert (payload + end)[..|payload|] == payload;
  }

  lemma EncodedIsLaidOut(sum: seq<byte> -> nat, image: Image)
    ensures var data := Encode(sum, image);
      |data| >= 40 && HasHeader(data, image.contents) && IsLaidOut(data[32..|data| - 8], image) && Checksummed(sum, data)
  {
    var c := image.contents;
    var body := Flatten(c.prefetched) + (EncodeRecords(c.blocks) + (Flatten(c.leaves) + EncodeCache(image.cache)));
    var x, y, z := ToLe(|c.blocks|, 8), ToLe(c.leafOffset, 8), ToLe(|c.prefetched|, 8);
    var payload := ToLe(SNAPSHOT_MAGIC, 8) + EncodeBody(image);
    assert EncodeBody(image) == (x + (y + z)) + body;
    BodyIsLaidOut(image);
    Fields(ToLe(SNAPSHOT_MAGIC, 8), x, y, z, body, ToLe(sum(payload) % U64_LIMIT, 8));
    var data := Encode(sum, image);
    assert data == (ToLe(SNAPSHOT_MAGIC, 8) + ((x + (y + z)) + body)) + ToLe(sum(payload) % U64_LIMIT, 8);
    assert data[..|data| - 8] == payload && data[32..|data| - 8] == body;
  }

  /** A block's 44 bytes: height, hash, count. */
  lemma RecordBytes(b: BlockRecord)
    ensures var bytes := EncodeRecord(b);
      && |bytes| == 44 && bytes[..8] == ToLe(b.height, 8)
      && bytes[8..40] == b.hash.bytes && bytes[40..] == ToLe(b.numCommitments, 4)
  {
    FourParts(ToLe(b.height, 8), b.hash.bytes, ToLe(b.numCommitments, 4), []);
    assert ToLe(b.numCommitments, 4) + [] == ToLe(b.numCommitments, 4);
  }

  /** The cache part: the number of filled slots, then 36 bytes for each, its slot and its root. */
  lemma CacheBytes(cache: seq<Option<Hash>>)
    ensures var entries := Entries(cache, |cache|);
      EncodeCache(cache)[..8] == ToLe(|entries|, 8) && EncodeCache(cache)[8..] == EncodeEntries(entries)
  {
  }

  lemma {:induction false} EntryAt(entries: seq<CacheEntry>, i: nat)
    requires i < |entries|
    ensures |EncodeEntries(entries)| == 36 * |entries|
    ensures EncodeEntries(entries)[36 * i..36 * i + 4] == ToLe(entries[i].slot, 4)
    ensures EncodeEntries(entries)[36 * i + 4..36 * i + 36] == entries[i].root.bytes
    decreases |entries|
  {
    var rest := EncodeEntries(entries[1..]);
    if |entries| > 1 {
      EntryAt(entries[1..], if i > 0 then i - 1 else 0);
    } else {
      assert rest == [];
    }
    if i > 0 {
      SliceAfter(EncodeEntry(entries[0]), rest, 36 * (i - 1), 36 * (i - 1) + 4);
      SliceAfter(EncodeEntry(entries[0]), rest, 36 * (i - 1) + 4, 36 * (i - 1) + 36);
    }
  }
}
