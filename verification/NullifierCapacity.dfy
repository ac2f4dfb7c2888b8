/** How full the buckets are, counted in live nullifiers instead of cells. The capacity check looks at cells;
    it decides the same. */
module NullifierCapacity {
  import opened Prelude
  import opened NullifierTable

  /** Live nullifiers that belong to a bucket. */
  function LiveInBucket(live: seq<LiveBlock>, bucket: nat): nat
    decreases |live|
  {
    if live == [] then 0
    else LiveInBucket(live[..|live| - 1], bucket) + Needed(live[|live| - 1].nullifiers, bucket)
  }

  /** The live blocks leave room for another block in every bucket. */
  ghost predicate LiveFits(live: seq<LiveBlock>, nfs: seq<Hash>) {
    forall b :: 0 <= b < NUM_BUCKETS ==> LiveInBucket(live, b) + Needed(nfs, b) <= BUCKET_CAPACITY
  }

  // ── Counting cells ─────────────────────────────────────────────────

  /** How often the records name the first `n` cells of a bucket. */
  ghost function CellCounts(index: seq<BlockRecord>, bucket: nat, n: nat): nat {
    if n == 0 then 0 else CellCounts(index, bucket, n - 1) + Count(index, Slot(bucket, n - 1))
  }

  lemma {:induction false} FreeSnoc(entries: seq<Hash>, x: Hash)
    ensures Free(entries + [x]) == Free(entries) + (if x == EMPTY then 1 else 0)
  {
    if entries == [] {
      assert [] + [x] == [x] && [x][1..] == [];
    } else {
      assert (entries + [x])[1..] == entries[1..] + [x];
      FreeSnoc(entries[1..], x);
    }
  }

  /** Every cell is free or recorded once. */
  lemma {:induction false} FreeOrRecorded(buckets: seq<Bucket>, index: seq<BlockRecord>, bucket: nat, n: nat)
    requires Recorded(buckets, index) && bucket < |buckets| && n <= |buckets[bucket].entries|
    ensures Free(buckets[bucket].entries[..n]) + CellCounts(index, bucket, n) == n
    decreases n
  {
    var entries := buckets[bucket].entries;
    if n > 0 {
      FreeOrRecorded(buckets, index, bucket, n - 1);
      assert entries[..n] == entries[..n - 1] + [entries[n - 1]];
      FreeSnoc(entries[..n - 1], entries[n - 1]);
      assert EntryAt(buckets, Slot(bucket, n - 1)) == entries[n - 1];
    }
  }

  // ── Counting slots ─────────────────────────────────────────────────

  /** Slots of a record in the first `n` cells of a bucket. */
  function SlotsIn(slots: seq<Slot>, bucket: nat, n: nat): nat
    decreases |slots|
  {
    if slots == [] then 0
    else
      var s := slots[|slots| - 1];
      SlotsIn(slots[..|slots| - 1], bucket, n) + (if s.bucket == bucket && s.cell < n then 1 else 0)
  }

  lemma {:induction false} NoSlots(slots: seq<Slot>, bucket: nat)
    ensures SlotsIn(slots, bucket, 0) == 0
    decreases |slots|
  {
    if slots != [] {
      NoSlots(slots[..|slots| - 1], bucket);
    }
  }

  /** One more cell adds the slots that name it. */
  lemma {:induction false} OneMoreCell(slots: seq<Slot>, bucket: nat, n: nat)
    ensures SlotsIn(slots, bucket, n + 1) == SlotsIn(slots, bucket, n) + multiset(slots)[Slot(bucket, n)]
    decreases |slots|
  {
    if slots != [] {
      var m := |slots| - 1;
      OneMoreCell(slots[..m], bucket, n);
      assert slots == slots[..m] + [slots[m]];
      assert slots[m] == Slot(bucket, n) <==> slots[m].bucket == bucket && slots[m].cell == n;
    }
  }

  function IndexSlots(index: seq<BlockRecord>, bucket: nat, n: nat): nat
    decreases |index|
  {
    if index == [] then 0
    else IndexSlots(index[..|index| - 1], bucket, n) + SlotsIn(index[|index| - 1].slots, bucket, n)
  }

  lemma {:induction false} NoIndexSlots(index: seq<BlockRecord>, bucket: nat)
    ensures IndexSlots(index, bucket, 0) == 0
    decreases |index|
  {
    if index != [] {
      NoIndexSlots(index[..|index| - 1], bucket);
      NoSlots(index[|index| - 1].slots, bucket);
    }
  }

  lemma {:induction false} OneMoreIndexCell(index: seq<BlockRecord>, bucket: nat, n: nat)
    ensures IndexSlots(index, bucket, n + 1) == IndexSlots(index, bucket, n) + Count(index, Slot(bucket, n))
    decreases |index|
  {
    if index != [] {
      OneMoreIndexCell(index[..|index| - 1], bucket, n);
      OneMoreCell(index[|index| - 1].slots, bucket, n);
    }
  }

  /** Counting by cell and counting by record give the same sum. */
  lemma {:induction false} CellsAreSlots(index: seq<BlockRecord>, bucket: nat, n: nat)
    ensures CellCounts(index, bucket, n) == IndexSlots(index, bucket, n)
  {
    if n == 0 {
      NoIndexSlots(index, bucket);
    } else {
      CellsAreSlots(index, bucket, n - 1);
      OneMoreIndexCell(index, bucket, n - 1);
    }
  }

  // ── Slots are nullifiers ───────────────────────────────────────────

  /** The slot holds a nullifier, in the bucket the nullifier selects. */
  ghost predicate Holds(buckets: seq<Bucket>, s: Slot) {
    EntryAt(buckets, s) != EMPTY && HashToBucket(EntryAt(buckets, s)) == s.bucket && s.cell < BUCKET_CAPACITY
  }

  lemma {:induction false} SlotsAreNeeded(buckets: seq<Bucket>, slots: seq<Slot>, bucket: nat)
    requires forall i :: 0 <= i < |slots| ==> Holds(buckets, slots[i])
    ensures SlotsIn(slots, bucket, BUCKET_CAPACITY) == Needed(Read(buckets, slots), bucket)
    decreases |slots|
  {
    if slots != [] {
      var m := |slots| - 1;
      SlotsAreNeeded(buckets, slots[..m], bucket);
      assert Read(buckets, slots)[..m] == Read(buckets, slots[..m]);
      assert Holds(buckets, slots[m]);
    }
  }

  lemma {:induction false} IndexIsLive(buckets: seq<Bucket>, index: seq<BlockRecord>, bucket: nat)
    requires forall k, i :: 0 <= k < |index| && 0 <= i < |index[k].slots| ==> Holds(buckets, index[k].slots[i])
    ensures IndexSlots(index, bucket, BUCKET_CAPACITY) == LiveInBucket(LiveOf(buckets, index), bucket)
    decreases |index|
  {
    if index != [] {
      var m := |index| - 1;
      IndexIsLive(buckets, index[..m], bucket);
      SlotsAreNeeded(buckets, index[m].slots, bucket);
      assert LiveOf(buckets, index)[..m] == LiveOf(buckets, index[..m]);
    }
  }

  lemma RecordedSlotHolds(t: Table, k: nat, i: nat)
    requires Sound(t) && k < |t.index| && i < |t.index[k].slots|
    ensures Holds(t.buckets, t.index[k].slots[i])
  {
    CountOf(t.index, k, i);
    assert InTable(t.buckets, t.index[k].slots[i]);
  }

  /** In a sound table the free cells of a bucket are those its live nullifiers leave. */
  lemma BucketAccount(t: Table, bucket: nat)
    requires Sound(t) && bucket < NUM_BUCKETS
    ensures Free(t.buckets[bucket].entries) + LiveInBucket(Live(t), bucket) == BUCKET_CAPACITY
  {
    var entries := t.buckets[bucket].entries;
    assert entries[..BUCKET_CAPACITY] == entries;
    FreeOrRecorded(t.buckets, t.index, bucket, BUCKET_CAPACITY);
    CellsAreSlots(t.index, bucket, BUCKET_CAPACITY);
    forall k, i | 0 <= k < |t.index| && 0 <= i < |t.index[k].slots|
      ensures Holds(t.buckets, t.index[k].slots[i])
    {
      RecordedSlotHolds(t, k, i);
    }
    IndexIsLive(t.buckets, t.index, bucket);
  }

  /** The capacity check, which looks at cells, decides by the live blocks alone. */
  lemma FitsIffLiveFits(t: Table, nfs: seq<Hash>)
    requires Sound(t)
    ensures Fits(t.buckets, nfs) <==> LiveFits(Live(t), nfs)
  {
    forall b | 0 <= b < NUM_BUCKETS
      ensures Free(t.buckets[b].entries) + LiveInBucket(Live(t), b) == BUCKET_CAPACITY
    {
      BucketAccount(t, b);
    }
  }
}
