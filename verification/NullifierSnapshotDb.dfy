/** Writing and reading nullifier table snapshots in place. The writers append to a buffer; the readers
    move a cursor and fill the table they restore. */
module NullifierSnapshotDb {
  import opened Prelude
  import opened Codec
  import opened NullifierTable
  import opened NullifierHistory
  import opened NullifierDb
  import opened NullifierLookup
  import opened NullifierSnapshot

  // ── Writing ────────────────────────────────────────────────────────

  method WriteSlots(buf: seq<byte>, slots: seq<Slot>) returns (buf': seq<byte>)
    ensures buf' == buf + EncodeSlots(slots)
  {
    buf' := buf;
    var i := 0;
    assert slots[0..] == slots;
    while i < |slots|
      invariant i <= |slots| && buf' + EncodeSlots(slots[i..]) == buf + EncodeSlots(slots)
    {
      var s, rest := EncodeSlot(slots[i]), EncodeSlots(slots[i + 1..]);
      assert slots[i..][1..] == slots[i + 1..];
      assert buf' + (s + rest) == (buf' + s) + rest;
      buf', i := buf' + s, i + 1;
    }
    assert buf' + [] == buf';
  }

  method WriteBlock(buf: seq<byte>, r: BlockRecord) returns (buf': seq<byte>)
    ensures buf' == buf + EncodeBlock(r)
  {
    buf' := buf + ToLe(r.height, 8);
    buf' := buf' + r.hash.bytes;
    buf' := buf' + ToLe(|r.slots|, 4);
    buf' := WriteSlots(buf', r.slots);
  }

  method WriteBlocks(buf: seq<byte>, index: seq<BlockRecord>) returns (buf': seq<byte>)
    ensures buf' == buf + EncodeBlocks(index)
  {
    buf' := buf;
    var i := 0;
    assert index[0..] == index;
    while i < |index|
      invariant i <= |index| && buf' + EncodeBlocks(index[i..]) == buf + EncodeBlocks(index)
    {
      ghost var r, rest := EncodeBlock(index[i]), EncodeBlocks(index[i + 1..]);
      assert index[i..][1..] == index[i + 1..];
      assert buf' + (r + rest) == (buf' + r) + rest;
      buf' := WriteBlock(buf', index[i]);
      i := i + 1;
    }
    assert buf' + [] == buf';
  }

  method WriteBuckets(buf: seq<byte>, buckets: array<Bucket>) returns (buf': seq<byte>)
    ensures buf' == buf + ToPirBytes(buckets[..])
  {
    buf' := buf;
    var i := 0;
    ghost var all := buckets[..];
    assert all[0..] == all;
    while i < buckets.Length
      invariant i <= buckets.Length && buf' + ToPirBytes(all[i..]) == buf + ToPirBytes(all)
    {
      ghost var entries, rest := Flatten(all[i].entries), ToPirBytes(all[i + 1..]);
      assert all[i..][1..] == all[i + 1..];
      assert buf' + (entries + rest) == (buf' + entries) + rest;
      buf' := WriteHashes(buf', buckets[i].entries);
      i := i + 1;
    }
    assert buf' + [] == buf';
  }

  lemma TablePiecesInOrder(a: seq<byte>, b: seq<byte>, c: seq<byte>, d: seq<byte>, e: seq<byte>)
    ensures a + b + c + d + e == a + (b + (c + (d + e)))
  {
  }

  method ToSnapshot(sum: seq<byte> -> nat, db: HashTableDb) returns (data: seq<byte>)
    ensures data == Encode(sum, db.View())
  {
    var buf := ToLe(SNAPSHOT_MAGIC, 8) + ToLe(SNAPSHOT_VERSION, 4);
    buf := buf + ToLe(|db.index|, 8);
    buf := WriteBlocks(buf, db.index);
    buf := WriteBuckets(buf, db.buckets);
    TablePiecesInOrder(ToLe(SNAPSHOT_MAGIC, 8), ToLe(SNAPSHOT_VERSION, 4), ToLe(|db.index|, 8), EncodeBlocks(db.index),
      ToPirBytes(db.buckets[..]));
    data := buf + ToLe(sum(buf) % U64_LIMIT, 8);
  }

  // ── Reading ────────────────────────────────────────────────────────

  method ReadSlots(input: seq<byte>, n: nat) returns (r: Taken<seq<Slot>>)
    ensures r == TakeSlots(input, n)
  {
    var slots: seq<Slot>, rest, i := [], input, 0;
    PutTwice([], [], TakeSlots(input, n));
    while i < n
      invariant i <= n && TakeSlots(input, n) == Put(slots, TakeSlots(rest, n - i))
    {
      var s := TakeSlot(rest);
      if s.Short? {
        return Short;
      }
      PutTwice(slots, [s.value], TakeSlots(s.rest, n - i - 1));
      slots, rest, i := slots + [s.value], s.rest, i + 1;
    }
    assert slots + [] == slots;
    return Taken(slots, rest);
  }

  method ReadBlock(input: seq<byte>) returns (r: Taken<BlockRecord>)
    ensures r == TakeBlock(input)
  {
    var head := TakeBlockHead(input);
    if head.Short? {
      return Short;
    }
    var slots := ReadSlots(head.rest, head.value.slotCount);
    if slots.Short? {
      return Short;
    }
    r := Taken(BlockRecord(head.value.height, head.value.hash, slots.value), slots.rest);
  }

  method AddRecord(db: HashTableDb, r: BlockRecord, ghost records: seq<BlockRecord>)
    requires Indexed(records) == Table([], db.index, db.heights, db.numEntries)
    modifies db
    ensures Indexed(records + [r]) == Table([], db.index, db.heights, db.numEntries)
  {
    assert (records + [r])[..|records|] == records;
    db.numEntries := db.numEntries + |r.slots|;
    db.heights := db.heights[r.hash := r.height];
    db.index := PutRecord(db.index, r);
  }

  /** Reads the block section into both indexes, counting entries. */
  method ReadBlocks(input: seq<byte>, n: nat, db: HashTableDb) returns (r: Taken<()>, ghost records: seq<BlockRecord>)
    requires db.index == [] && db.heights == map[] && db.numEntries == 0
    modifies db
    ensures r.Short? ==> TakeBlocks(input, n) == Short
    ensures r.Taken? ==>
      && TakeBlocks(input, n) == Taken(records, r.rest)
      && Indexed(records) == Table([], db.index, db.heights, db.numEntries)
  {
    records := [];
    var rest, i := input, 0;
    PutTwice([], [], TakeBlocks(input, n));
    while i < n
      invariant i <= n && TakeBlocks(input, n) == Put(records, TakeBlocks(rest, n - i))
      invariant Indexed(records) == Table([], db.index, db.heights, db.numEntries)
    {
      var b := ReadBlock(rest);
      if b.Short? {
        return Short, records;
      }
      PutTwice(records, [b.value], TakeBlocks(b.rest, n - i - 1));
      AddRecord(db, b.value, records);
      records := records + [b.value];
      rest, i := b.rest, i + 1;
    }
    assert records + [] == records;
    r := Taken((), rest);
  }

  method ReadBuckets(input: seq<byte>, buckets: array<Bucket>) returns (r: Taken<()>)
    modifies buckets
    ensures r.Short? ==> TakeBuckets(input, buckets.Length) == Short
    ensures r.Taken? ==> TakeBuckets(input, buckets.Length) == Taken(buckets[..], r.rest)
  {
    var rest, i := input, 0;
    PutTwice([], [], TakeBuckets(input, buckets.Length));
    while i < buckets.Length
      invariant i <= buckets.Length
      invariant TakeBuckets(input, buckets.Length) == Put(buckets[..i], TakeBuckets(rest, buckets.Length - i))
    {
      var entries := ReadHashes(rest, BUCKET_CAPACITY);
      if entries.Short? {
        return Short;
      }
      PutTwice(buckets[..i], [Bucket(entries.value)], TakeBuckets(entries.rest, buckets.Length - i - 1));
      buckets[i] := Bucket(entries.value);
      assert buckets[..i + 1] == buckets[..i] + [Bucket(entries.value)];
      rest, i := entries.rest, i + 1;
    }
    assert buckets[..i] + [] == buckets[..];
    r := Taken((), rest);
  }

  /** Restores a table. Only data that describes a sound table makes it a valid one. */
  method FromSnapshot(sum: seq<byte> -> nat, data: seq<byte>) returns (r: Result<HashTableDb, SnapshotError>)
    ensures r.Err? ==> Decode(sum, data) == Err(r.error)
    ensures r.Ok? ==> fresh(r.value) && fresh(r.value.buckets) && Decode(sum, data) == Ok(r.value.View())
  {
    var envelope := Open(sum, data, MIN_SIZE);
    if envelope.BadLength? {
      return Err(TooShort);
    } else if envelope.BadChecksum? {
      return Err(ChecksumMismatch);
    }
    var magic := TakeLe(envelope.bytes, 8);
    if magic.Short? {
      return Err(UnexpectedEof);
    } else if magic.value != SNAPSHOT_MAGIC {
      return Err(BadMagic);
    }
    var version := TakeLe(magic.rest, 4);
    if version.Short? {
      return Err(UnexpectedEof);
    } else if version.value != SNAPSHOT_VERSION {
      return Err(UnsupportedVersion(version.value));
    }
    r := FromBlocks(version.rest);
  }

  method FromBlocks(input: seq<byte>) returns (r: Result<HashTableDb, SnapshotError>)
    ensures r.Err? ==> DecodeBlocks(input) == Err(r.error)
    ensures r.Ok? ==> fresh(r.value) && fresh(r.value.buckets) && DecodeBlocks(input) == Ok(r.value.View())
  {
    var blockCount := TakeLe(input, 8);
    if blockCount.Short? {
      return Err(UnexpectedEof);
    }
    var db := new HashTableDb();
    var blocks, records := ReadBlocks(blockCount.rest, blockCount.value, db);
    if blocks.Short? {
      return Err(UnexpectedEof);
    }
    var buckets := ReadBuckets(blocks.rest, db.buckets);
    if buckets.Short? {
      return Err(BucketDataTruncated);
    }
    r := Ok(db);
  }

  /** Saving a table and reading it back gives the same table. */
  method Restart(sum: seq<byte> -> nat, db: HashTableDb) returns (db': HashTableDb)
    requires db.Valid() && Storable(db.View())
    ensures fresh(db') && fresh(db'.buckets)
    ensures db'.Valid() && db'.View() == db.View()
  {
    var data := ToSnapshot(sum, db);
    SnapshotRoundTrip(sum, db.View());
    var r := FromSnapshot(sum, data);
    assert r.Ok?;
    db' := r.value;
  }
}
