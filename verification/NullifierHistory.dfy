/** The nullifier table invariant over every run, and what the table then contains. */
module NullifierHistory {
  import opened Prelude
  import opened NullifierTable
  import opened NullifierCapacity

  // ── Records under insertion ────────────────────────────────────────

  lemma {:induction false} PutElements(index: seq<BlockRecord>, r: BlockRecord)
    requires forall x :: x in index ==> x.height != r.height
    ensures |PutRecord(index, r)| == |index| + 1
    ensures forall x :: x in PutRecord(index, r) <==> x in index || x == r
    decreases |index|
  {
    if index != [] {
      PutElements(index[..|index| - 1], r);
      assert index == index[..|index| - 1] + [index[|index| - 1]];
    }
  }

  lemma AscendingSnoc(index: seq<BlockRecord>, last: BlockRecord)
    requires Ascending(index) && forall x :: x in index ==> x.height < last.height
    ensures Ascending(index + [last])
  {
    forall j | 0 <= j < |index|
      ensures index[j].height < last.height
    {
      assert index[j] in index;
    }
  }

  lemma {:induction false} PutAscending(index: seq<BlockRecord>, r: BlockRecord)
    requires Ascending(index) && forall x :: x in index ==> x.height != r.height
    ensures Ascending(PutRecord(index, r))
    decreases |index|
  {
    if index != [] && index[|index| - 1].height > r.height {
      var n := |index| - 1;
      PutAscending(index[..n], r);
      PutElements(index[..n], r);
      AscendingSnoc(PutRecord(index[..n], r), index[n]);
    } else if index != [] {
      assert index[|index| - 1] in index;
    }
  }

  lemma {:induction false} PutFinds(index: seq<BlockRecord>, r: BlockRecord, height: nat)
    ensures FindRecord(PutRecord(index, r), height) == if height == r.height then Some(r) else FindRecord(index, height)
    decreases |index|
  {
    if index != [] {
      PutFinds(index[..|index| - 1], r, height);
    }
  }

  lemma {:induction false} PutCounts(index: seq<BlockRecord>, r: BlockRecord, s: Slot)
    requires forall x :: x in index ==> x.height != r.height
    ensures Count(PutRecord(index, r), s) == Count(index, s) + multiset(r.slots)[s]
    decreases |index|
  {
    if index != [] {
      PutCounts(index[..|index| - 1], r, s);
    }
  }

  lemma {:induction false} PutLive(b: seq<Bucket>, index: seq<BlockRecord>, r: BlockRecord)
    requires forall x :: x in index ==> x.height != r.height
    ensures LiveOf(b, PutRecord(index, r)) == PutBlock(LiveOf(b, index), LiveBlock(r.height, r.hash, Read(b, r.slots)))
    decreases |index|
  {
    if index != [] {
      PutLive(b, index[..|index| - 1], r);
      assert LiveOf(b, index)[..|index| - 1] == LiveOf(b, index[..|index| - 1]);
    }
  }

  lemma PutInverse(index: seq<BlockRecord>, r: BlockRecord, heights: map<Hash, nat>)
    requires Inverse(index, heights) && r.hash !in heights
    requires forall x :: x in index ==> x.height != r.height
    ensures Inverse(PutRecord(index, r), heights[r.hash := r.height])
  {
    PutElements(index, r);
    var heights' := heights[r.hash := r.height];
    forall hash | hash in heights'
      ensures var found := FindRecord(PutRecord(index, r), heights'[hash]);
        found.Some? && found.value.hash == hash
    {
      PutFinds(index, r, heights'[hash]);
      if hash != r.hash {
        FoundIsIn(index, heights[hash]);
      }
    }
  }

  lemma {:induction false} FoundIsIn(index: seq<BlockRecord>, height: nat)
    ensures var found := FindRecord(index, height);
      found.Some? ==> found.value in index && found.value.height == height
    decreases |index|
  {
    if index != [] {
      FoundIsIn(index[..|index| - 1], height);
    }
  }

  lemma {:induction false} SizeAppend(live: seq<LiveBlock>, block: LiveBlock)
    ensures Size(live + [block]) == Size(live) + |block.nullifiers|
  {
    if live != [] {
      SizeAppend(live[1..], block);
      assert (live + [block])[1..] == live[1..] + [block];
    } else {
      assert live + [block] == [block];
    }
  }

  lemma {:induction false} PutSize(live: seq<LiveBlock>, block: LiveBlock)
    ensures Size(PutBlock(live, block)) == Size(live) + |block.nullifiers|
    decreases |live|
  {
    if live != [] {
      var n := |live| - 1;
      PutSize(live[..n], block);
      assert live == live[..n] + [live[n]];
      SizeAppend(live[..n], live[n]);
      SizeAppend(live, block);
      SizeAppend(PutBlock(live[..n], block), live[n]);
    }
  }

  // ── Insertion ──────────────────────────────────────────────────────

  lemma FreshRecord(t: Table, height: nat, hash: Hash, nfs: seq<Hash>)
    requires Sound(t) && Insertable(Live(t), height, hash, nfs)
    ensures forall r :: r in t.index ==> r.height != height
    ensures hash !in t.heights
  {
    forall r | r in t.index
      ensures r.height != height && r.hash != hash
    {
      var k :| 0 <= k < |t.index| && t.index[k] == r;
      LiveOfAt(t.buckets, t.index, k);
    }
    if hash in t.heights {
      FoundIsIn(t.index, t.heights[hash]);
    }
  }

  lemma RecordedGrows(before: seq<Bucket>, index: seq<BlockRecord>, p: Placement, nfs: seq<Hash>, r: BlockRecord)
    requires Recorded(before, index) && PlacedAll(before, p, nfs) && EMPTY !in nfs
    requires r.slots == p.slots && forall x :: x in index ==> x.height != r.height
    ensures Recorded(p.buckets, PutRecord(index, r))
  {
    forall s
      ensures Count(PutRecord(index, r), s) == if EntryAt(p.buckets, s) != EMPTY then 1 else 0
    {
      PutCounts(index, r, s);
      if s in multiset(p.slots) {
        var i :| 0 <= i < |p.slots| && p.slots[i] == s;
        assert EntryAt(p.buckets, s) == nfs[i];
      }
    }
  }

  lemma LiveGrows(t: Table, height: nat, hash: Hash, nfs: seq<Hash>, p: Placement)
    requires Sound(t) && PlacedAll(t.buckets, p, nfs)
    requires forall x :: x in t.index ==> x.height != height
    ensures Live(WithBlock(t, height, hash, p)) == PutBlock(Live(t), LiveBlock(height, hash, nfs))
  {
    PutLive(p.buckets, t.index, BlockRecord(height, hash, p.slots));
    ReadIs(p.buckets, p.slots, nfs);
    LiveOfKept(t.buckets, p.buckets, t.index);
  }

  /** Inserting a fresh block that fits keeps the invariant and adds exactly that block. */
  lemma InsertKeepsSound(t: Table, height: nat, hash: Hash, nfs: seq<Hash>)
    requires Sound(t) && Insertable(Live(t), height, hash, nfs) && Fits(t.buckets, nfs)
    ensures Place(t.buckets, nfs).Some?
    ensures var t' := WithBlock(t, height, hash, Place(t.buckets, nfs).value);
      Sound(t') && Live(t') == PutBlock(Live(t), LiveBlock(height, hash, nfs))
  {
    assert nfs[..|nfs|] == nfs;
    FittingBlockIsPlaced(t.buckets, nfs, |nfs|);
    PlaceResult(t.buckets, nfs);
    FreshRecord(t, height, hash, nfs);
    var p := Place(t.buckets, nfs).value;
    var r := BlockRecord(height, hash, p.slots);
    RecordedGrows(t.buckets, t.index, p, nfs, r);
    LiveGrows(t, height, hash, nfs, p);
    PutAscending(t.index, r);
    PutInverse(t.index, r, t.heights);
    PutSize(Live(t), LiveBlock(height, hash, nfs));
  }

  // ── Removal ────────────────────────────────────────────────────────

  lemma {:induction false} RemoveNone(index: seq<BlockRecord>, height: nat)
    requires forall x :: x in index ==> x.height != height
    ensures RemoveRecord(index, height) == index
    decreases |index|
  {
    if index != [] {
      RemoveNone(index[..|index| - 1], height);
      assert index == index[..|index| - 1] + [index[|index| - 1]];
    }
  }

  lemma {:induction false} RemoveElements(index: seq<BlockRecord>, height: nat)
    ensures forall x :: x in RemoveRecord(index, height) <==> x in index && x.height != height
    decreases |index|
  {
    if index != [] {
      RemoveElements(index[..|index| - 1], height);
      assert index == index[..|index| - 1] + [index[|index| - 1]];
    }
  }

  lemma {:induction false} RemoveAscending(index: seq<BlockRecord>, height: nat)
    requires Ascending(index)
    ensures Ascending(RemoveRecord(index, height))
    decreases |index|
  {
    if index != [] {
      RemoveAscending(index[..|index| - 1], height);
      RemoveElements(index[..|index| - 1], height);
    }
  }

  lemma {:induction false} RemoveFinds(index: seq<BlockRecord>, height: nat, other: nat)
    requires other != height
    ensures FindRecord(RemoveRecord(index, height), other) == FindRecord(index, other)
    decreases |index|
  {
    if index != [] {
      RemoveFinds(index[..|index| - 1], height, other);
      assert RemoveRecord(index[..|index| - 1], height) + [] == RemoveRecord(index[..|index| - 1], height);
    }
  }

  lemma {:induction false} RemoveCounts(index: seq<BlockRecord>, height: nat, r: BlockRecord, s: Slot)
    requires Ascending(index) && FindRecord(index, height) == Some(r)
    ensures Count(index, s) == Count(RemoveRecord(index, height), s) + multiset(r.slots)[s]
    decreases |index|
  {
    var n := |index| - 1;
    if index[n].height == height {
      RemoveNone(index[..n], height);
      assert index[..n] + [] == index[..n];
    } else {
      RemoveCounts(index[..n], height, r, s);
    }
  }

  lemma {:induction false} RemoveSize(b: seq<Bucket>, index: seq<BlockRecord>, height: nat, r: BlockRecord)
    requires Ascending(index) && FindRecord(index, height) == Some(r)
    ensures Size(LiveOf(b, index)) == Size(LiveOf(b, RemoveRecord(index, height))) + |r.slots|
    decreases |index|
  {
    var n := |index| - 1;
    var last := LiveBlock(index[n].height, index[n].hash, Read(b, index[n].slots));
    SizeAppend(LiveOf(b, index[..n]), last);
    if index[n].height == height {
      RemoveNone(index[..n], height);
      assert index[..n] + [] == index[..n];
    } else {
      RemoveSize(b, index[..n], height, r);
      SizeAppend(LiveOf(b, RemoveRecord(index[..n], height)), last);
    }
  }

  lemma {:induction false} RemoveLive(b: seq<Bucket>, index: seq<BlockRecord>, height: nat, hash: Hash)
    requires forall x :: x in index ==> (x.height == height <==> x.hash == hash)
    ensures LiveOf(b, RemoveRecord(index, height)) == WithoutHash(LiveOf(b, index), hash)
    decreases |index|
  {
    if index != [] {
      var n := |index| - 1;
      RemoveLive(b, index[..n], height, hash);
      assert LiveOf(b, index)[..n] == LiveOf(b, index[..n]);
      if index[n].height == height {
        assert RemoveRecord(index[..n], height) + [] == RemoveRecord(index[..n], height);
      }
    }
  }

  lemma {:induction false} ClearAt(buckets: seq<Bucket>, slots: seq<Slot>)
    ensures forall s :: EntryAt(Clear(buckets, slots), s) == if s in slots then EMPTY else EntryAt(buckets, s)
    ensures WellShaped(buckets) ==> WellShaped(Clear(buckets, slots))
    decreases |slots|
  {
    if slots != [] {
      var n := |slots| - 1;
      ClearAt(buckets, slots[..n]);
      assert slots == slots[..n] + [slots[n]];
      var cleared := Clear(buckets, slots[..n]);
      if InTable(cleared, slots[n]) {
        SetEntryAt(cleared, slots[n], EMPTY);
      }
    }
  }

  lemma RecordedShrinks(b: seq<Bucket>, index: seq<BlockRecord>, height: nat, r: BlockRecord)
    requires Ascending(index) && FindRecord(index, height) == Some(r) && Recorded(b, index)
    ensures Recorded(Clear(b, r.slots), RemoveRecord(index, height))
    ensures LiveOf(Clear(b, r.slots), RemoveRecord(index, height)) == LiveOf(b, RemoveRecord(index, height))
  {
    ClearAt(b, r.slots);
    forall s
      ensures Count(RemoveRecord(index, height), s) == if EntryAt(Clear(b, r.slots), s) != EMPTY then 1 else 0
      ensures Count(RemoveRecord(index, height), s) > 0 ==> EntryAt(Clear(b, r.slots), s) == EntryAt(b, s)
    {
      RemoveCounts(index, height, r, s);
    }
    LiveOfKept(b, Clear(b, r.slots), RemoveRecord(index, height));
  }

  /** In a sound table a hash and its height name the same record. */
  lemma HashNamesRecord(t: Table, hash: Hash)
    requires Sound(t) && hash in t.heights
    ensures forall x :: x in t.index ==> (x.height == t.heights[hash] <==> x.hash == hash)
    ensures var found := FindRecord(t.index, t.heights[hash]); found.Some? && found.value.height == t.heights[hash]
  {
    FoundIsIn(t.index, t.heights[hash]);
    var r := FindRecord(t.index, t.heights[hash]).value;
    forall x | x in t.index && x.height == t.heights[hash]
      ensures x == r
    {
      var j :| 0 <= j < |t.index| && t.index[j] == x;
      var k :| 0 <= k < |t.index| && t.index[k] == r;
    }
  }

  lemma RemoveInverse(t: Table, hash: Hash)
    requires Sound(t) && hash in t.heights
    ensures Inverse(RemoveRecord(t.index, t.heights[hash]), t.heights - {hash})
  {
    var height, rest := t.heights[hash], t.heights - {hash};
    HashNamesRecord(t, hash);
    RemoveElements(t.index, height);
    forall other | other in rest
      ensures var found := FindRecord(RemoveRecord(t.index, height), rest[other]);
        found.Some? && found.value.hash == other
    {
      FoundIsIn(t.index, rest[other]);
      RemoveFinds(t.index, height, rest[other]);
    }
  }

  /** Rolling back a held block keeps the invariant and removes exactly that block; an unknown hash
      changes nothing. */
  lemma RollbackKeepsSound(t: Table, hash: Hash)
    requires Sound(t)
    ensures Sound(RollbackOf(t, hash).0)
    ensures RollbackOf(t, hash).1 <==> exists k :: 0 <= k < |Live(t)| && Live(t)[k].hash == hash
    ensures Live(RollbackOf(t, hash).0) == WithoutHash(Live(t), hash)
  {
    if hash in t.heights {
      HashNamesRecord(t, hash);
      var r := FindRecord(t.index, t.heights[hash]).value;
      FoundIsIn(t.index, t.heights[hash]);
      HeldHash(t, r);
      RecordedShrinks(t.buckets, t.index, r.height, r);
      ClearAt(t.buckets, r.slots);
      RemoveAscending(t.index, r.height);
      RemoveInverse(t, hash);
      RemoveSize(t.buckets, t.index, r.height, r);
      RemoveLive(t.buckets, t.index, r.height, hash);
    } else {
      UnheldHash(t, hash);
    }
  }

  /** In a sound table a held block is found in both indexes and its slots are all counted. */
  lemma RollbackOfHeld(t: Table, hash: Hash)
    requires Sound(t) && hash in t.heights
    ensures var found := FindRecord(t.index, t.heights[hash]);
      && found.Some? && |found.value.slots| <= t.numEntries
      && RollbackOf(t, hash) == (
           Table(Clear(t.buckets, found.value.slots), RemoveRecord(t.index, t.heights[hash]), t.heights - {hash},
                 t.numEntries - |found.value.slots|), true)
  {
    HashNamesRecord(t, hash);
    var r := FindRecord(t.index, t.heights[hash]).value;
    RemoveSize(t.buckets, t.index, t.heights[hash], r);
  }

  lemma HeldHash(t: Table, r: BlockRecord)
    requires r in t.index
    ensures exists k :: 0 <= k < |Live(t)| && Live(t)[k].hash == r.hash
  {
    var k :| 0 <= k < |t.index| && t.index[k] == r;
    LiveOfAt(t.buckets, t.index, k);
    assert Live(t)[k].hash == r.hash;
  }

  lemma UnheldHash(t: Table, hash: Hash)
    requires Sound(t) && hash !in t.heights
    ensures forall k :: 0 <= k < |Live(t)| ==> Live(t)[k].hash != hash
    ensures WithoutHash(Live(t), hash) == Live(t)
  {
    forall k | 0 <= k < |Live(t)|
      ensures Live(t)[k].hash != hash
    {
      LiveOfAt(t.buckets, t.index, k);
      assert t.index[k] in t.index;
    }
    WithoutAbsent(Live(t), hash);
  }

  lemma {:induction false} WithoutAbsent(live: seq<LiveBlock>, hash: Hash)
    requires forall k :: 0 <= k < |live| ==> live[k].hash != hash
    ensures WithoutHash(live, hash) == live
    decreases |live|
  {
    if live != [] {
      WithoutAbsent(live[..|live| - 1], hash);
      assert live == live[..|live| - 1] + [live[|live| - 1]];
    }
  }

  // ── Eviction ───────────────────────────────────────────────────────

  lemma {:induction false} WithoutFirst(live: seq<LiveBlock>, hash: Hash)
    requires live != [] && live[0].hash == hash && forall k :: 0 < k < |live| ==> live[k].hash != hash
    ensures WithoutHash(live, hash) == live[1..]
    decreases |live|
  {
    var n := |live| - 1;
    if n > 0 {
      WithoutFirst(live[..n], hash);
      assert live[1..] == live[..n][1..] + [live[n]];
    }
  }

  lemma HashesDistinct(t: Table, j: nat, k: nat)
    requires Sound(t) && j < k < |t.index|
    ensures Live(t)[j].hash != Live(t)[k].hash && Live(t)[j].height < Live(t)[k].height
  {
    LiveOfAt(t.buckets, t.index, j);
    LiveOfAt(t.buckets, t.index, k);
    assert t.index[j] in t.index && t.index[k] in t.index;
  }

  /** Evicting removes the lowest block, and only fails on an empty table. */
  lemma EvictOldestKeepsSound(t: Table)
    requires Sound(t)
    ensures Sound(EvictOldestOf(t).0)
    ensures EvictOldestOf(t).1 == if Live(t) == [] then None else Some(Live(t)[0].height)
    ensures Live(EvictOldestOf(t).0) == if Live(t) == [] then [] else Live(t)[1..]
  {
    if t.index != [] {
      RollbackKeepsSound(t, t.index[0].hash);
      LiveOfAt(t.buckets, t.index, 0);
      assert Live(t)[0].hash == t.index[0].hash;
      forall k | 0 < k < |Live(t)|
        ensures Live(t)[k].hash != t.index[0].hash
      {
        HashesDistinct(t, 0, k);
      }
      WithoutFirst(Live(t), t.index[0].hash);
    }
  }

  lemma {:induction false} EvictToKeepsSound(t: Table, target: nat)
    requires Sound(t)
    ensures Sound(EvictToOf(t, target)) && Live(EvictToOf(t, target)) == Newest(Live(t), target)
    decreases |t.heights|
  {
    if t.numEntries > target {
      EvictOldestKeepsSound(t);
      if EvictOldestOf(t).1.Some? {
        EvictToKeepsSound(EvictOldestOf(t).0, target);
      }
    }
  }

  /** Eviction removes the shortest oldest prefix that meets the target. */
  lemma {:induction false} NewestIsLongest(live: seq<LiveBlock>, target: nat) returns (n: nat)
    ensures n <= |live| && Newest(live, target) == live[n..]
    ensures Size(live[n..]) <= target
    ensures forall j: nat :: j < n ==> Size(live[j..]) > target
  {
    if live == [] || Size(live) <= target {
      n := 0;
      assert live[0..] == live;
    } else {
      var m := NewestIsLongest(live[1..], target);
      n := m + 1;
      assert live[1..][m..] == live[n..];
      forall j: nat | j < n
        ensures Size(live[j..]) > target
      {
        if j > 0 {
          assert live[1..][j - 1..] == live[j..];
        } else {
          assert live[0..] == live;
        }
      }
    }
  }

  // ── Membership ─────────────────────────────────────────────────────

  lemma CarriedIsContained(t: Table, nf: Hash)
    requires Sound(t) && nf != EMPTY && Carried(Live(t), nf)
    ensures Contains(t, nf)
  {
    var k :| 0 <= k < |Live(t)| && nf in Live(t)[k].nullifiers;
    LiveOfAt(t.buckets, t.index, k);
    var slots := t.index[k].slots;
    var i :| 0 <= i < |slots| && Read(t.buckets, slots)[i] == nf;
    ReadAt(t.buckets, slots, i);
    var s := slots[i];
    assert EntryAt(t.buckets, s) == nf && s.bucket == HashToBucket(nf);
    assert t.buckets[s.bucket].entries[s.cell] == nf;
  }

  lemma ContainedIsCarried(t: Table, nf: Hash)
    requires Sound(t) && nf != EMPTY && Contains(t, nf)
    ensures Carried(Live(t), nf)
  {
    var b := HashToBucket(nf);
    var cell :| 0 <= cell < |t.buckets[b].entries| && t.buckets[b].entries[cell] == nf;
    var s := Slot(b, cell);
    assert EntryAt(t.buckets, s) == nf;
    CountedSomewhere(t.index, s);
    var k :| 0 <= k < |t.index| && s in t.index[k].slots;
    var i :| 0 <= i < |t.index[k].slots| && t.index[k].slots[i] == s;
    LiveOfAt(t.buckets, t.index, k);
    ReadAt(t.buckets, t.index[k].slots, i);
    assert Live(t)[k].nullifiers[i] == nf;
  }

  /** A nullifier is found exactly when a live block carries it. The all-zero sentinel is outside this
      rule: it is found exactly when its bucket has a free cell. */
  lemma ContainsIff(t: Table, nf: Hash)
    requires Sound(t)
    ensures nf != EMPTY ==> (Contains(t, nf) <==> Carried(Live(t), nf))
    ensures Contains(t, EMPTY) <==> Free(t.buckets[HashToBucket(EMPTY)].entries) > 0
  {
    if nf != EMPTY {
      if Contains(t, nf) {
        ContainedIsCarried(t, nf);
      }
      if Carried(Live(t), nf) {
        CarriedIsContained(t, nf);
      }
    }
    FreeHasCell(t.buckets[HashToBucket(EMPTY)].entries);
  }

  // ── Slots ──────────────────────────────────────────────────────────

  lemma {:induction false} CountAtLeast(index: seq<BlockRecord>, k: nat, s: Slot)
    requires k < |index|
    ensures Count(index, s) >= multiset(index[k].slots)[s]
    decreases |index|
  {
    if k < |index| - 1 {
      CountAtLeast(index[..|index| - 1], k, s);
    }
  }

  lemma {:induction false} CountTwice(index: seq<BlockRecord>, j: nat, k: nat, s: Slot)
    requires j < k < |index| && s in index[j].slots && s in index[k].slots
    ensures Count(index, s) >= 2
    decreases |index|
  {
    if k < |index| - 1 {
      CountTwice(index[..|index| - 1], j, k, s);
    } else {
      CountAtLeast(index[..k], j, s);
    }
  }

  lemma SeenTwice<T>(xs: seq<T>, i: nat, j: nat)
    requires i < j < |xs| && xs[i] == xs[j]
    ensures multiset(xs)[xs[i]] >= 2
  {
    assert xs == xs[..j] + xs[j..];
    assert xs[..j][i] == xs[i] && xs[j..][0] == xs[j];
  }

  /** Recorded slots are pairwise distinct, within a block and across blocks, and each holds its nullifier. */
  lemma SlotsAreDistinct(t: Table, j: nat, a: nat, k: nat, b: nat)
    requires Sound(t) && j <= k < |t.index| && a < |t.index[j].slots| && b < |t.index[k].slots|
    ensures t.index[j].slots[a] == t.index[k].slots[b] ==> j == k && a == b
    ensures |Live(t)[j].nullifiers| == |t.index[j].slots|
    ensures EntryAt(t.buckets, t.index[j].slots[a]) == Live(t)[j].nullifiers[a] != EMPTY
  {
    var s := t.index[j].slots[a];
    LiveOfAt(t.buckets, t.index, j);
    if s == t.index[k].slots[b] {
      if j < k {
        CountTwice(t.index, j, k, s);
      } else if a != b {
        SeenTwice(t.index[j].slots, if a < b then a else b, if a < b then b else a);
        CountAtLeast(t.index, j, s);
      }
    }
    CountOf(t.index, j, a);
    ReadAt(t.buckets, t.index[j].slots, a);
  }

  // ── Runs ───────────────────────────────────────────────────────────

  datatype Op =
    | InsertBlock(height: nat, hash: Hash, nullifiers: seq<Hash>)
    | RollbackBlock(hash: Hash)
    | EvictOldest
    | EvictTo(target: nat)

  function EmptyBucket(): Bucket {
    Bucket(Empties(BUCKET_CAPACITY))
  }

  function Empties(n: nat): (cells: seq<Hash>)
    ensures |cells| == n && forall i :: 0 <= i < n ==> cells[i] == EMPTY
    decreases n, 0
  {
    if n == 0 then [] else Empties(n - 1) + [EMPTY]
  }

  ghost predicate IsNew(t: Table) {
    && WellShaped(t.buckets)
    && (forall b, c :: 0 <= b < NUM_BUCKETS && 0 <= c < BUCKET_CAPACITY ==> t.buckets[b].entries[c] == EMPTY)
    && t.index == [] && t.heights == map[] && t.numEntries == 0
  }

  lemma NewIsSound(t: Table)
    requires IsNew(t)
    ensures Sound(t) && Live(t) == []
  {
  }

  /** The table after an operation. */
  ghost function Step(t: Table, op: Op): Table
    requires WellShaped(t.buckets)
  {
    match op
    case InsertBlock(height, hash, nfs) =>
      if Fits(t.buckets, nfs) && Place(t.buckets, nfs).Some? then
        WithBlock(t, height, hash, Place(t.buckets, nfs).value)
      else t
    case RollbackBlock(hash) => RollbackOf(t, hash).0
    case EvictOldest => EvictOldestOf(t).0
    case EvictTo(target) => EvictToOf(t, target)
  }

  /** The live blocks after an operation: no cell is looked at. */
  ghost function StepLive(live: seq<LiveBlock>, op: Op): seq<LiveBlock> {
    match op
    case InsertBlock(height, hash, nfs) => if LiveFits(live, nfs) then PutBlock(live, LiveBlock(height, hash, nfs)) else live
    case RollbackBlock(hash) => WithoutHash(live, hash)
    case EvictOldest => if live == [] then [] else live[1..]
    case EvictTo(target) => Newest(live, target)
  }

  /** The live blocks after a list of operations on an empty table. */
  ghost function LiveAfter(ops: seq<Op>): seq<LiveBlock>
    decreases |ops|
  {
    if ops == [] then [] else StepLive(LiveAfter(ops[..|ops| - 1]), ops[|ops| - 1])
  }

  ghost predicate Allowed(live: seq<LiveBlock>, op: Op) {
    op.InsertBlock? ==> Insertable(live, op.height, op.hash, op.nullifiers)
  }

  /** One operation keeps the invariant and acts on the live blocks alone. */
  lemma StepKeepsSound(t: Table, op: Op)
    requires Sound(t) && Allowed(Live(t), op)
    ensures Sound(Step(t, op)) && Live(Step(t, op)) == StepLive(Live(t), op)
  {
    match op
    case InsertBlock(height, hash, nfs) =>
      FitsIffLiveFits(t, nfs);
      if Fits(t.buckets, nfs) {
        InsertKeepsSound(t, height, hash, nfs);
      }
    case RollbackBlock(hash) => RollbackKeepsSound(t, hash);
    case EvictOldest => EvictOldestKeepsSound(t);
    case EvictTo(target) => EvictToKeepsSound(t, target);
  }

  /** `states` are the tables of a run from an empty one. */
  ghost predicate IsRun(states: seq<Table>, ops: seq<Op>) {
    && |states| == |ops| + 1
    && IsNew(states[0])
    && (forall i :: 0 <= i < |states| ==> WellShaped(states[i].buckets))
    && forall i :: 0 <= i < |ops| ==> Allowed(LiveAfter(ops[..i]), ops[i]) && states[i + 1] == Step(states[i], ops[i])
  }

  /** In every reachable state the invariant holds, the live blocks are those the operations left, and
      membership is exact in them. */
  lemma {:induction false} EveryRunIsSound(states: seq<Table>, ops: seq<Op>, i: nat, nf: Hash)
    requires IsRun(states, ops) && i < |states|
    ensures Sound(states[i]) && Live(states[i]) == LiveAfter(ops[..i])
    ensures nf != EMPTY ==> (Contains(states[i], nf) <==> Carried(LiveAfter(ops[..i]), nf))
  {
    if i == 0 {
      NewIsSound(states[0]);
    } else {
      EveryRunIsSound(states, ops, i - 1, nf);
      assert ops[..i][..i - 1] == ops[..i - 1];
      StepKeepsSound(states[i - 1], ops[i - 1]);
    }
    ContainsIff(states[i], nf);
  }

  /** An inserted block can be found until it is rolled back, and then is gone without a trace. */
  lemma RollbackUndoesInsert(t: Table, height: nat, hash: Hash, nfs: seq<Hash>)
    requires Sound(t) && Insertable(Live(t), height, hash, nfs) && Fits(t.buckets, nfs)
    ensures Place(t.buckets, nfs).Some?
    ensures var t' := WithBlock(t, height, hash, Place(t.buckets, nfs).value);
      Live(RollbackOf(t', hash).0) == Live(t) && RollbackOf(t', hash).1
  {
    InsertKeepsSound(t, height, hash, nfs);
    RollbackKeepsSound(WithBlock(t, height, hash, Place(t.buckets, nfs).value), hash);
    PutThenWithout(Live(t), LiveBlock(height, hash, nfs));
    PutHolds(Live(t), LiveBlock(height, hash, nfs));
  }

  lemma {:induction false} PutHolds(live: seq<LiveBlock>, block: LiveBlock)
    ensures block in PutBlock(live, block)
    decreases |live|
  {
    if live != [] && live[|live| - 1].height >= block.height {
      PutHolds(live[..|live| - 1], block);
    }
  }

  lemma {:induction false} PutThenWithout(live: seq<LiveBlock>, block: LiveBlock)
    requires forall k :: 0 <= k < |live| ==> live[k].hash != block.hash
    ensures WithoutHash(PutBlock(live, block), block.hash) == live
    decreases |live|
  {
    if live == [] || live[|live| - 1].height < block.height {
      PutThenWithoutLast(live, block);
    } else {
      var n := |live| - 1;
      PutThenWithout(live[..n], block);
      PutThenWithoutNext(live, live[..n], live[n], block);
    }
  }

  lemma PutSnoc(front: seq<LiveBlock>, last: LiveBlock, block: LiveBlock)
    requires last.height >= block.height
    ensures PutBlock(front + [last], block) == PutBlock(front, block) + [last]
  {
    assert (front + [last])[..|front|] == front;
  }

  lemma PutThenWithoutLast(live: seq<LiveBlock>, block: LiveBlock)
    requires live == [] || live[|live| - 1].height < block.height
    requires forall k :: 0 <= k < |live| ==> live[k].hash != block.hash
    ensures WithoutHash(PutBlock(live, block), block.hash) == live
  {
    WithoutAbsent(live, block.hash);
    WithoutSnoc(live, block, block.hash);
    assert live + [] == live;
  }

  lemma PutThenWithoutNext(live: seq<LiveBlock>, front: seq<LiveBlock>, last: LiveBlock, block: LiveBlock)
    requires live == front + [last]
    requires WithoutHash(PutBlock(front, block), block.hash) == front
    requires last.hash != block.hash && last.height >= block.height
    ensures WithoutHash(PutBlock(live, block), block.hash) == live
  {
    PutSnoc(front, last, block);
    WithoutSnoc(PutBlock(front, block), last, block.hash);
  }

  lemma WithoutSnoc(front: seq<LiveBlock>, last: LiveBlock, hash: Hash)
    ensures WithoutHash(front + [last], hash) == WithoutHash(front, hash) + (if last.hash == hash then [] else [last])
  {
    assert (front + [last])[..|front|] == front;
  }
}
