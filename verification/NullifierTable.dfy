/** The nullifier table as a value: buckets of fixed size, a record of slots for every block, and the index
    from hashes to heights. */
module NullifierTable {
  import opened Prelude

  const NUM_BUCKETS: nat := 16384
  const BUCKET_CAPACITY: nat := 112
  const EMPTY: Hash := Hash(Zeros(32))

  function HashToBucket(nf: Hash): (bucket: nat)
    ensures bucket < NUM_BUCKETS
  {
    FromLe(nf.bytes[..4]) % NUM_BUCKETS
  }

  /** The bucket is the nullifier's lowest 14 bits: its first byte and six bits of its second. */
  lemma BucketBits(nf: Hash)
    ensures HashToBucket(nf) % 256 == nf.bytes[0] && HashToBucket(nf) / 256 == nf.bytes[1] % 64
  {
    var b := nf.bytes[..4];
    var high := FromLe(b[1..][1..]);
    assert FromLe(b) == nf.bytes[0] + 256 * FromLe(b[1..]);
    assert FromLe(b[1..]) == nf.bytes[1] + 256 * high;
    LowBits(nf.bytes[0], nf.bytes[1], high, FromLe(b));
  }

  lemma LowBits(x: int, y: int, high: nat, n: nat)
    requires 0 <= x < 256 && 0 <= y < 256 && n == x + 256 * (y + 256 * high)
    ensures n % 16384 % 256 == x && n % 16384 / 256 == y % 64
  {
    var q, r := y / 64 + 4 * high, x + 256 * (y % 64);
    assert n == 16384 * q + r && 0 <= r < 16384;
    RemainderIs(n, q, r);
  }

  lemma RemainderIs(n: nat, q: nat, r: nat)
    requires n == 16384 * q + r && r < 16384
    ensures n % 16384 == r
  {
  }

  /** Every bucket is the home of some nullifier. */
  lemma EveryBucketIsUsed(bucket: nat) returns (nf: Hash)
    requires bucket < NUM_BUCKETS
    ensures HashToBucket(nf) == bucket
  {
    nf := Hash([bucket % 256, bucket / 256] + Zeros(30));
    BucketBits(nf);
  }

  datatype Bucket = Bucket(entries: seq<Hash>)

  datatype Slot = Slot(bucket: nat, cell: nat)

  datatype BlockRecord = BlockRecord(height: nat, hash: Hash, slots: seq<Slot>)

  /** `index` is the ordered map of records, in height order. */
  datatype Table = Table(buckets: seq<Bucket>, index: seq<BlockRecord>, heights: map<Hash, nat>, numEntries: nat)

  datatype TableError = BucketOverflow(bucket: nat) | BlockNotFound

  ghost predicate WellShaped(buckets: seq<Bucket>) {
    |buckets| == NUM_BUCKETS && forall b :: 0 <= b < NUM_BUCKETS ==> |buckets[b].entries| == BUCKET_CAPACITY
  }

  // ── Cells ──────────────────────────────────────────────────────────

  predicate InTable(buckets: seq<Bucket>, s: Slot) {
    s.bucket < |buckets| && s.cell < |buckets[s.bucket].entries|
  }

  /** What a cell holds; cells outside the table hold nothing. */
  function EntryAt(buckets: seq<Bucket>, s: Slot): Hash {
    if InTable(buckets, s) then buckets[s.bucket].entries[s.cell] else EMPTY
  }

  function SetEntry(buckets: seq<Bucket>, s: Slot, nf: Hash): seq<Bucket>
    requires InTable(buckets, s)
  {
    buckets[s.bucket := Bucket(buckets[s.bucket].entries[s.cell := nf])]
  }

  lemma SetEntryAt(buckets: seq<Bucket>, s: Slot, nf: Hash)
    requires InTable(buckets, s)
    ensures forall s' :: EntryAt(SetEntry(buckets, s, nf), s') == if s' == s then nf else EntryAt(buckets, s')
    ensures WellShaped(buckets) ==> WellShaped(SetEntry(buckets, s, nf))
  {
  }

  function FirstEmpty(entries: seq<Hash>): (cell: Option<nat>)
    ensures cell.Some? ==> cell.value < |entries| && entries[cell.value] == EMPTY && EMPTY !in entries[..cell.value]
    ensures cell.None? ==> EMPTY !in entries
  {
    if entries == [] then None
    else if entries[0] == EMPTY then Some(0)
    else
      match FirstEmpty(entries[1..])
      case None => None
      case Some(cell) => Some(cell + 1)
  }

  /** Free cells of a bucket. */
  function Free(entries: seq<Hash>): (n: nat) {
    if entries == [] then 0 else Free(entries[1..]) + (if entries[0] == EMPTY then 1 else 0)
  }

  /** How many of the nullifiers belong to a bucket. */
  function Needed(nfs: seq<Hash>, bucket: nat): (n: nat)
    decreases |nfs|
  {
    if nfs == [] then 0
    else Needed(nfs[..|nfs| - 1], bucket) + (if HashToBucket(nfs[|nfs| - 1]) == bucket then 1 else 0)
  }

  /** Every bucket has room for its share of the block. */
  ghost predicate Fits(buckets: seq<Bucket>, nfs: seq<Hash>)
    requires WellShaped(buckets)
  {
    forall b :: 0 <= b < NUM_BUCKETS ==> Needed(nfs, b) <= Free(buckets[b].entries)
  }

  datatype Placement = Placement(buckets: seq<Bucket>, slots: seq<Slot>)

  function Insert(p: Placement, nf: Hash): Option<Placement> {
    var b := HashToBucket(nf);
    if b >= |p.buckets| then None
    else
      match FirstEmpty(p.buckets[b].entries)
      case None => None
      case Some(cell) => Some(Placement(SetEntry(p.buckets, Slot(b, cell), nf), p.slots + [Slot(b, cell)]))
  }

  /** Placing nullifiers one by one, each in its bucket's first free cell. */
  function Place(buckets: seq<Bucket>, nfs: seq<Hash>): Option<Placement>
    decreases |nfs|
  {
    if nfs == [] then Some(Placement(buckets, []))
    else
      match Place(buckets, nfs[..|nfs| - 1])
      case None => None
      case Some(p) => Insert(p, nfs[|nfs| - 1])
  }

  function Clear(buckets: seq<Bucket>, slots: seq<Slot>): seq<Bucket>
    decreases |slots|
  {
    if slots == [] then buckets
    else
      var cleared, s := Clear(buckets, slots[..|slots| - 1]), slots[|slots| - 1];
      if InTable(cleared, s) then SetEntry(cleared, s, EMPTY) else cleared
  }

  function Read(buckets: seq<Bucket>, slots: seq<Slot>): (nfs: seq<Hash>)
    ensures |nfs| == |slots|
    decreases |slots|
  {
    if slots == [] then [] else Read(buckets, slots[..|slots| - 1]) + [EntryAt(buckets, slots[|slots| - 1])]
  }

  // ── Records ────────────────────────────────────────────────────────

  function FindRecord(index: seq<BlockRecord>, height: nat): Option<BlockRecord>
    decreases |index|
  {
    if index == [] then None
    else if index[|index| - 1].height == height then Some(index[|index| - 1])
    else FindRecord(index[..|index| - 1], height)
  }

  function PutRecord(index: seq<BlockRecord>, r: BlockRecord): seq<BlockRecord>
    decreases |index|
  {
    if index == [] then [r]
    else
      var n := |index| - 1;
      if index[n].height < r.height then index + [r]
      else if index[n].height == r.height then index[..n] + [r]
      else PutRecord(index[..n], r) + [index[n]]
  }

  function RemoveRecord(index: seq<BlockRecord>, height: nat): seq<BlockRecord>
    decreases |index|
  {
    if index == [] then []
    else
      var n := |index| - 1;
      RemoveRecord(index[..n], height) + (if index[n].height == height then [] else [index[n]])
  }

  /** How often the records name a cell. */
  ghost function Count(index: seq<BlockRecord>, s: Slot): nat
    decreases |index|
  {
    if index == [] then 0 else Count(index[..|index| - 1], s) + multiset(index[|index| - 1].slots)[s]
  }

  // ── The blocks a table stands for ──────────────────────────────────

  datatype LiveBlock = LiveBlock(height: nat, hash: Hash, nullifiers: seq<Hash>)

  function LiveOf(buckets: seq<Bucket>, index: seq<BlockRecord>): (live: seq<LiveBlock>)
    ensures |live| == |index|
    decreases |index|
  {
    if index == [] then []
    else
      var r := index[|index| - 1];
      LiveOf(buckets, index[..|index| - 1]) + [LiveBlock(r.height, r.hash, Read(buckets, r.slots))]
  }

  function Live(t: Table): seq<LiveBlock> {
    LiveOf(t.buckets, t.index)
  }

  /** Nullifiers of all blocks together. */
  function Size(live: seq<LiveBlock>): nat {
    if live == [] then 0 else |live[0].nullifiers| + Size(live[1..])
  }

  ghost predicate Carried(live: seq<LiveBlock>, nf: Hash) {
    exists k :: 0 <= k < |live| && nf in live[k].nullifiers
  }

  ghost predicate Ascending(index: seq<BlockRecord>) {
    forall j, k :: 0 <= j < k < |index| ==> index[j].height < index[k].height
  }

  /** The two indexes are inverse to each other. */
  ghost predicate Inverse(index: seq<BlockRecord>, heights: map<Hash, nat>) {
    && (forall r :: r in index ==> r.hash in heights && heights[r.hash] == r.height)
    && (forall hash :: hash in heights ==>
          FindRecord(index, heights[hash]).Some? && FindRecord(index, heights[hash]).value.hash == hash)
  }

  /** Each non-empty cell is recorded once, each empty one never: slots and cells are in bijection. */
  ghost predicate Recorded(buckets: seq<Bucket>, index: seq<BlockRecord>) {
    forall s :: Count(index, s) == if EntryAt(buckets, s) != EMPTY then 1 else 0
  }

  /** Every nullifier sits in the bucket its own bytes select. */
  ghost predicate Homed(buckets: seq<Bucket>) {
    forall s :: EntryAt(buckets, s) != EMPTY ==> HashToBucket(EntryAt(buckets, s)) == s.bucket
  }

  /** The table invariant. */
  ghost predicate Sound(t: Table) {
    && WellShaped(t.buckets)
    && Recorded(t.buckets, t.index)
    && Homed(t.buckets)
    && Ascending(t.index)
    && Inverse(t.index, t.heights)
    && t.numEntries == Size(Live(t))
  }

  // ── Operations on values ───────────────────────────────────────────

  function WithBlock(t: Table, height: nat, hash: Hash, p: Placement): Table {
    Table(p.buckets, PutRecord(t.index, BlockRecord(height, hash, p.slots)), t.heights[hash := height],
          t.numEntries + |p.slots|)
  }

  /** Removing a block: the table afterwards and whether it was found in both indexes. */
  function RollbackOf(t: Table, hash: Hash): (Table, bool) {
    if hash !in t.heights then (t, false)
    else
      var heights := t.heights - {hash};
      match FindRecord(t.index, t.heights[hash])
      case None => (t.(heights := heights), false)
      case Some(r) =>
        (Table(Clear(t.buckets, r.slots), RemoveRecord(t.index, r.height), heights,
               if |r.slots| <= t.numEntries then t.numEntries - |r.slots| else 0), true)
  }

  function EvictOldestOf(t: Table): (Table, Option<nat>) {
    if t.index == [] then (t, None)
    else
      var (t', found) := RollbackOf(t, t.index[0].hash);
      (t', if found then Some(t.index[0].height) else None)
  }

  function EvictToOf(t: Table, target: nat): Table
    decreases |t.heights|
  {
    if t.numEntries <= target then t
    else
      var (t', evicted) := EvictOldestOf(t);
      if evicted.None? then t' else EvictToOf(t', target)
  }

  predicate Contains(t: Table, nf: Hash) {
    var b := HashToBucket(nf);
    b < |t.buckets| && nf in t.buckets[b].entries
  }

  // ── The same operations on blocks ──────────────────────────────────

  function PutBlock(live: seq<LiveBlock>, block: LiveBlock): seq<LiveBlock>
    decreases |live|
  {
    if live == [] || live[|live| - 1].height < block.height then live + [block]
    else PutBlock(live[..|live| - 1], block) + [live[|live| - 1]]
  }

  function WithoutHash(live: seq<LiveBlock>, hash: Hash): seq<LiveBlock>
    decreases |live|
  {
    if live == [] then []
    else
      var n := |live| - 1;
      WithoutHash(live[..n], hash) + (if live[n].hash == hash then [] else [live[n]])
  }

  /** The newest blocks whose nullifiers together are within the target. */
  function Newest(live: seq<LiveBlock>, target: nat): seq<LiveBlock> {
    if live == [] || Size(live) <= target then live else Newest(live[1..], target)
  }

  /** Neither index knows the height or the hash, and no nullifier is the all-zero sentinel. */
  ghost predicate Insertable(live: seq<LiveBlock>, height: nat, hash: Hash, nfs: seq<Hash>) {
    && (forall k :: 0 <= k < |live| ==> live[k].height != height && live[k].hash != hash)
    && EMPTY !in nfs
  }

  // ── Placing ────────────────────────────────────────────────────────

  lemma {:induction false} FreeHasCell(entries: seq<Hash>)
    ensures Free(entries) == 0 <==> EMPTY !in entries
  {
    if entries != [] {
      FreeHasCell(entries[1..]);
      assert entries == [entries[0]] + entries[1..];
    }
  }

  lemma {:induction false} FreeAfterFill(entries: seq<Hash>, cell: nat, nf: Hash)
    requires cell < |entries| && entries[cell] == EMPTY
    ensures Free(entries[cell := nf]) == Free(entries) - (if nf == EMPTY then 0 else 1)
  {
    var after := entries[cell := nf];
    if cell > 0 {
      FreeAfterFill(entries[1..], cell - 1, nf);
      assert after[1..] == entries[1..][cell - 1 := nf];
    } else {
      assert after[1..] == entries[1..];
    }
  }

  /** The room left in a bucket covers what is still to be placed in it. */
  ghost predicate RoomLeft(before: seq<Bucket>, now: seq<Bucket>, placed: seq<Hash>)
    requires WellShaped(before) && WellShaped(now)
  {
    forall b :: 0 <= b < NUM_BUCKETS ==> Free(now[b].entries) + Needed(placed, b) >= Free(before[b].entries)
  }

  lemma InsertHasRoom(before: seq<Bucket>, p: Placement, placed: seq<Hash>, nf: Hash)
    requires WellShaped(before) && WellShaped(p.buckets) && RoomLeft(before, p.buckets, placed)
    requires Needed(placed + [nf], HashToBucket(nf)) <= Free(before[HashToBucket(nf)].entries)
    ensures Insert(p, nf).Some?
    ensures WellShaped(Insert(p, nf).value.buckets)
    ensures RoomLeft(before, Insert(p, nf).value.buckets, placed + [nf])
  {
    var bucket := HashToBucket(nf);
    assert (placed + [nf])[..|placed|] == placed;
    FreeHasCell(p.buckets[bucket].entries);
    var cell := FirstEmpty(p.buckets[bucket].entries).value;
    FreeAfterFill(p.buckets[bucket].entries, cell, nf);
  }

  lemma {:induction false} NeededGrows(nfs: seq<Hash>, n: nat, bucket: nat)
    requires n <= |nfs|
    ensures Needed(nfs[..n], bucket) <= Needed(nfs, bucket)
    decreases |nfs|
  {
    if n < |nfs| {
      NeededGrows(nfs[..|nfs| - 1], n, bucket);
      assert nfs[..|nfs| - 1][..n] == nfs[..n];
    } else {
      assert nfs[..n] == nfs;
    }
  }

  /** After the capacity check no placement can fail: the `expect` is never reached. */
  lemma {:induction false} FittingBlockIsPlaced(buckets: seq<Bucket>, nfs: seq<Hash>, n: nat)
    requires WellShaped(buckets) && Fits(buckets, nfs) && n <= |nfs|
    ensures Place(buckets, nfs[..n]).Some?
    ensures WellShaped(Place(buckets, nfs[..n]).value.buckets)
    ensures RoomLeft(buckets, Place(buckets, nfs[..n]).value.buckets, nfs[..n])
    decreases n
  {
    if n > 0 {
      FittingBlockIsPlaced(buckets, nfs, n - 1);
      assert nfs[..n] == nfs[..n - 1] + [nfs[n - 1]];
      NeededGrows(nfs, n, HashToBucket(nfs[n - 1]));
      InsertHasRoom(buckets, Place(buckets, nfs[..n - 1]).value, nfs[..n - 1], nfs[n - 1]);
    }
  }

  /** What placing does to every cell: only free cells change, each changed cell is recorded once. */
  ghost predicate PlacedAll(before: seq<Bucket>, p: Placement, nfs: seq<Hash>) {
    && |p.slots| == |nfs|
    && (forall s :: EntryAt(before, s) != EMPTY ==> EntryAt(p.buckets, s) == EntryAt(before, s))
    && (forall s :: multiset(p.slots)[s] == if EntryAt(p.buckets, s) != EntryAt(before, s) then 1 else 0)
    && (forall i :: 0 <= i < |nfs| ==> EntryAt(p.buckets, p.slots[i]) == nfs[i])
  }

  lemma InsertIsSet(p: Placement, nf: Hash) returns (s: Slot)
    requires Insert(p, nf).Some?
    ensures InTable(p.buckets, s) && EntryAt(p.buckets, s) == EMPTY && s.bucket == HashToBucket(nf)
    ensures Insert(p, nf).value == Placement(SetEntry(p.buckets, s, nf), p.slots + [s])
  {
    s := Slot(HashToBucket(nf), FirstEmpty(p.buckets[HashToBucket(nf)].entries).value);
  }

  lemma SetKeepsHome(buckets: seq<Bucket>, s: Slot, nf: Hash)
    requires InTable(buckets, s) && Homed(buckets) && (nf != EMPTY ==> s.bucket == HashToBucket(nf))
    ensures Homed(SetEntry(buckets, s, nf))
  {
    SetEntryAt(buckets, s, nf);
  }

  lemma InsertStep(before: seq<Bucket>, p: Placement, placed: seq<Hash>, nf: Hash)
    requires PlacedAll(before, p, placed) && nf != EMPTY && EMPTY !in placed && Insert(p, nf).Some?
    ensures PlacedAll(before, Insert(p, nf).value, placed + [nf])
    ensures Homed(p.buckets) ==> Homed(Insert(p, nf).value.buckets)
  {
    var s := InsertIsSet(p, nf);
    InsertResult(before, p, placed, s, nf);
    if Homed(p.buckets) {
      SetKeepsHome(p.buckets, s, nf);
    }
  }

  lemma PlaceUnfolds(buckets: seq<Bucket>, nfs: seq<Hash>, n: nat)
    requires |nfs| == n + 1 && Place(buckets, nfs).Some?
    ensures nfs == nfs[..n] + [nfs[n]]
    ensures Place(buckets, nfs[..n]).Some? && Insert(Place(buckets, nfs[..n]).value, nfs[n]) == Place(buckets, nfs)
  {
  }

  lemma {:induction false} PlaceResult(buckets: seq<Bucket>, nfs: seq<Hash>)
    requires EMPTY !in nfs && Place(buckets, nfs).Some?
    ensures PlacedAll(buckets, Place(buckets, nfs).value, nfs)
    ensures Homed(buckets) ==> Homed(Place(buckets, nfs).value.buckets)
    decreases |nfs|
  {
    if nfs != [] {
      var n := |nfs| - 1;
      PlaceUnfolds(buckets, nfs, n);
      PlaceResult(buckets, nfs[..n]);
      InsertStep(buckets, Place(buckets, nfs[..n]).value, nfs[..n], nfs[n]);
    }
  }

  lemma InsertResult(before: seq<Bucket>, p: Placement, placed: seq<Hash>, s: Slot, nf: Hash)
    requires PlacedAll(before, p, placed) && nf != EMPTY && EMPTY !in placed
    requires InTable(p.buckets, s) && EntryAt(p.buckets, s) == EMPTY
    ensures PlacedAll(before, Placement(SetEntry(p.buckets, s, nf), p.slots + [s]), placed + [nf])
  {
    SetEntryAt(p.buckets, s, nf);
    assert EntryAt(before, s) == EMPTY;
    forall i | 0 <= i < |placed|
      ensures p.slots[i] != s
    {
      assert EntryAt(p.buckets, p.slots[i]) == placed[i];
    }
  }

  // ── Reading ────────────────────────────────────────────────────────

  lemma {:induction false} ReadAt(buckets: seq<Bucket>, slots: seq<Slot>, i: nat)
    requires i < |slots|
    ensures Read(buckets, slots)[i] == EntryAt(buckets, slots[i])
    decreases |slots|
  {
    if i < |slots| - 1 {
      ReadAt(buckets, slots[..|slots| - 1], i);
    }
  }

  lemma ReadIs(buckets: seq<Bucket>, slots: seq<Slot>, nfs: seq<Hash>)
    requires |slots| == |nfs| && forall i :: 0 <= i < |nfs| ==> EntryAt(buckets, slots[i]) == nfs[i]
    ensures Read(buckets, slots) == nfs
  {
    forall i | 0 <= i < |nfs|
      ensures Read(buckets, slots)[i] == nfs[i]
    {
      ReadAt(buckets, slots, i);
    }
  }

  lemma {:induction false} LiveOfAt(buckets: seq<Bucket>, index: seq<BlockRecord>, k: nat)
    requires k < |index|
    ensures LiveOf(buckets, index)[k] == LiveBlock(index[k].height, index[k].hash, Read(buckets, index[k].slots))
    decreases |index|
  {
    if k < |index| - 1 {
      LiveOfAt(buckets, index[..|index| - 1], k);
    }
  }

  lemma {:induction false} CountOf(index: seq<BlockRecord>, k: nat, i: nat)
    requires k < |index| && i < |index[k].slots|
    ensures Count(index, index[k].slots[i]) > 0
    decreases |index|
  {
    if k < |index| - 1 {
      CountOf(index[..|index| - 1], k, i);
    }
  }

  lemma {:induction false} CountedSomewhere(index: seq<BlockRecord>, s: Slot)
    requires Count(index, s) > 0
    ensures exists k :: 0 <= k < |index| && s in index[k].slots
    decreases |index|
  {
    if s !in index[|index| - 1].slots {
      CountedSomewhere(index[..|index| - 1], s);
    }
  }

  /** Blocks are unaffected by changes to cells they do not own. */
  lemma LiveOfKept(b: seq<Bucket>, b': seq<Bucket>, index: seq<BlockRecord>)
    requires forall s :: Count(index, s) > 0 ==> EntryAt(b', s) == EntryAt(b, s)
    ensures LiveOf(b', index) == LiveOf(b, index)
  {
    forall k | 0 <= k < |index|
      ensures LiveOf(b', index)[k] == LiveOf(b, index)[k]
    {
      LiveOfAt(b, index, k);
      LiveOfAt(b', index, k);
      forall i | 0 <= i < |index[k].slots|
        ensures EntryAt(b', index[k].slots[i]) == Read(b, index[k].slots)[i]
      {
        CountOf(index, k, i);
        ReadAt(b, index[k].slots, i);
      }
      ReadIs(b', index[k].slots, Read(b, index[k].slots));
    }
  }
}
