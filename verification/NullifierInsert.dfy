/** Inserting a block: exactly when the table survives it. The source overwrites a record of the same height
    and never looks at the nullifiers, so not every fitting block is harmless. */
module NullifierInsert {
  import opened Prelude
  import opened NullifierTable
  import opened NullifierHistory
  import opened NullifierCapacity

  // ── Placing, sentinels included ────────────────────────────────────

  /** Whether a cell has changed, as a number. */
  function Changed(before: seq<Bucket>, after: seq<Bucket>, s: Slot): nat {
    if EntryAt(after, s) != EntryAt(before, s) then 1 else 0
  }

  /** What any placement does: it fills free cells, records every change, and records something else too
      when a sentinel was among the nullifiers. */
  ghost predicate PlacedSome(before: seq<Bucket>, p: Placement, nfs: seq<Hash>) {
    && (forall s :: EntryAt(before, s) != EMPTY ==> EntryAt(p.buckets, s) == EntryAt(before, s) && s !in p.slots)
    && (forall s :: multiset(p.slots)[s] >= Changed(before, p.buckets, s))
    && (EMPTY in nfs ==> exists s :: multiset(p.slots)[s] > Changed(before, p.buckets, s))
  }

  lemma PlacedOneMore(before: seq<Bucket>, p: Placement, placed: seq<Hash>, s: Slot, nf: Hash)
    requires PlacedSome(before, p, placed) && InTable(p.buckets, s) && EntryAt(p.buckets, s) == EMPTY
    ensures PlacedSome(before, Placement(SetEntry(p.buckets, s, nf), p.slots + [s]), placed + [nf])
  {
    var p' := Placement(SetEntry(p.buckets, s, nf), p.slots + [s]);
    SetEntryAt(p.buckets, s, nf);
    assert EntryAt(before, s) == EMPTY;
    forall x
      ensures multiset(p'.slots)[x] - Changed(before, p'.buckets, x)
        == multiset(p.slots)[x] - Changed(before, p.buckets, x) + (if x == s && nf == EMPTY then 1 else 0)
    {
    }
    if EMPTY in placed {
      var x :| multiset(p.slots)[x] > Changed(before, p.buckets, x);
      assert multiset(p'.slots)[x] > Changed(before, p'.buckets, x);
    } else if nf == EMPTY {
      assert multiset(p'.slots)[s] > Changed(before, p'.buckets, s);
    }
  }

  lemma {:induction false} PlaceAnything(buckets: seq<Bucket>, nfs: seq<Hash>)
    requires Place(buckets, nfs).Some?
    ensures PlacedSome(buckets, Place(buckets, nfs).value, nfs)
    decreases |nfs|
  {
    if nfs != [] {
      var n := |nfs| - 1;
      PlaceUnfolds(buckets, nfs, n);
      PlaceAnything(buckets, nfs[..n]);
      var p := Place(buckets, nfs[..n]).value;
      var s := InsertIsSet(p, nfs[n]);
      PlacedOneMore(buckets, p, nfs[..n], s, nfs[n]);
    }
  }

  // ── Replacing a record ─────────────────────────────────────────────

  lemma {:induction false} ReplaceCounts(index: seq<BlockRecord>, r: BlockRecord, was: BlockRecord, s: Slot)
    requires Ascending(index) && FindRecord(index, r.height) == Some(was)
    ensures Count(PutRecord(index, r), s) + multiset(was.slots)[s] == Count(index, s) + multiset(r.slots)[s]
    decreases |index|
  {
    var n := |index| - 1;
    if index[n].height > r.height {
      ReplaceCounts(index[..n], r, was, s);
    } else {
      FoundIsIn(index, r.height);
      assert index[n].height == r.height;
    }
  }

  lemma {:induction false} ReplaceElements(index: seq<BlockRecord>, r: BlockRecord)
    requires Ascending(index)
    ensures forall x :: x in PutRecord(index, r) ==> x == r || (x in index && x.height != r.height)
    decreases |index|
  {
    if index != [] {
      var n := |index| - 1;
      ReplaceElements(index[..n], r);
      assert index == index[..n] + [index[n]];
    }
  }

  lemma {:induction false} ReplaceAscending(index: seq<BlockRecord>, r: BlockRecord)
    requires Ascending(index)
    ensures Ascending(PutRecord(index, r))
    decreases |index|
  {
    if index != [] {
      var n := |index| - 1;
      if index[n].height > r.height {
        ReplaceAscending(index[..n], r);
        ReplaceElements(index[..n], r);
        AscendingSnoc(PutRecord(index[..n], r), index[n]);
      } else {
        assert forall x :: x in index[..n] ==> x.height < index[n].height;
        AscendingSnoc(index[..n], r);
        assert index[n].height < r.height ==> forall x :: x in index ==> x.height < r.height;
        if index[n].height < r.height {
          AscendingSnoc(index, r);
        }
      }
    }
  }

  function TotalSlots(index: seq<BlockRecord>): nat
    decreases |index|
  {
    if index == [] then 0 else TotalSlots(index[..|index| - 1]) + |index[|index| - 1].slots|
  }

  lemma {:induction false} SizeIsTotal(buckets: seq<Bucket>, index: seq<BlockRecord>)
    ensures Size(LiveOf(buckets, index)) == TotalSlots(index)
    decreases |index|
  {
    if index != [] {
      var n := |index| - 1;
      SizeIsTotal(buckets, index[..n]);
      SizeAppend(LiveOf(buckets, index[..n]), LiveBlock(index[n].height, index[n].hash, Read(buckets, index[n].slots)));
    }
  }

  lemma {:induction false} ReplaceTotal(index: seq<BlockRecord>, r: BlockRecord, was: BlockRecord)
    requires Ascending(index) && FindRecord(index, r.height) == Some(was)
    ensures TotalSlots(PutRecord(index, r)) + |was.slots| == TotalSlots(index) + |r.slots|
    decreases |index|
  {
    var n := |index| - 1;
    if index[n].height > r.height {
      ReplaceTotal(index[..n], r, was);
    } else {
      FoundIsIn(index, r.height);
      assert index[n].height == r.height;
    }
  }

  // ── The exact condition ────────────────────────────────────────────

  /** Neither index knows the height or the hash. */
  ghost predicate IsFresh(t: Table, height: nat, hash: Hash) {
    FindRecord(t.index, height).None? && hash !in t.heights
  }

  /** The block is held already, and without nullifiers. */
  ghost predicate IsHeldEmpty(t: Table, height: nat, hash: Hash) {
    var was := FindRecord(t.index, height);
    was.Some? && was.value.hash == hash && was.value.slots == []
  }

  lemma {:induction false} FoundNone(index: seq<BlockRecord>, height: nat)
    ensures FindRecord(index, height).None? <==> forall x :: x in index ==> x.height != height
    decreases |index|
  {
    if index != [] {
      FoundNone(index[..|index| - 1], height);
      assert index == index[..|index| - 1] + [index[|index| - 1]];
    }
  }

  lemma FreshIsInsertable(t: Table, height: nat, hash: Hash, nfs: seq<Hash>)
    requires Sound(t) && IsFresh(t, height, hash) && EMPTY !in nfs
    ensures Insertable(Live(t), height, hash, nfs)
  {
    FoundNone(t.index, height);
    forall k | 0 <= k < |Live(t)|
      ensures Live(t)[k].height != height && Live(t)[k].hash != hash
    {
      LiveOfAt(t.buckets, t.index, k);
      assert t.index[k] in t.index;
    }
  }

  /** Writing a held block without nullifiers again is harmless. */
  lemma RewriteRecorded(t: Table, r: BlockRecord, was: BlockRecord, p: Placement, nfs: seq<Hash>)
    requires Sound(t) && FindRecord(t.index, r.height) == Some(was) && was.slots == []
    requires PlacedAll(t.buckets, p, nfs) && EMPTY !in nfs && r.slots == p.slots
    ensures Recorded(p.buckets, PutRecord(t.index, r))
  {
    forall s
      ensures Count(PutRecord(t.index, r), s) == if EntryAt(p.buckets, s) != EMPTY then 1 else 0
    {
      ReplaceCounts(t.index, r, was, s);
      if s in multiset(p.slots) {
        var i :| 0 <= i < |p.slots| && p.slots[i] == s;
        assert EntryAt(p.buckets, s) == nfs[i];
      }
    }
  }

  lemma RewriteInverse(t: Table, r: BlockRecord, was: BlockRecord)
    requires Sound(t) && FindRecord(t.index, r.height) == Some(was) && was.hash == r.hash
    ensures Inverse(PutRecord(t.index, r), t.heights[r.hash := r.height])
  {
    FoundIsIn(t.index, r.height);
    ReplaceElements(t.index, r);
    var heights := t.heights[r.hash := r.height];
    assert heights == t.heights;
    forall hash | hash in heights
      ensures var found := FindRecord(PutRecord(t.index, r), heights[hash]);
        found.Some? && found.value.hash == hash
    {
      PutFinds(t.index, r, heights[hash]);
    }
  }

  lemma RewriteKeepsSound(t: Table, height: nat, hash: Hash, nfs: seq<Hash>)
    requires Sound(t) && Fits(t.buckets, nfs) && EMPTY !in nfs && IsHeldEmpty(t, height, hash)
    ensures Place(t.buckets, nfs).Some?
    ensures Sound(WithBlock(t, height, hash, Place(t.buckets, nfs).value))
  {
    assert nfs[..|nfs|] == nfs;
    FittingBlockIsPlaced(t.buckets, nfs, |nfs|);
    PlaceResult(t.buckets, nfs);
    var p, was := Place(t.buckets, nfs).value, FindRecord(t.index, height).value;
    var r := BlockRecord(height, hash, p.slots);
    FoundIsIn(t.index, height);
    RewriteRecorded(t, r, was, p, nfs);
    RewriteInverse(t, r, was);
    ReplaceAscending(t.index, r);
    ReplaceTotal(t.index, r, was);
    SizeIsTotal(t.buckets, t.index);
    SizeIsTotal(p.buckets, PutRecord(t.index, r));
  }

  /** How often the records name a cell once the block is in. */
  lemma CountsAfter(t: Table, r: BlockRecord, s: Slot)
    requires Sound(t)
    ensures var found := FindRecord(t.index, r.height);
      Count(PutRecord(t.index, r), s) ==
        Count(t.index, s) + multiset(r.slots)[s] - (if found.Some? then multiset(found.value.slots)[s] else 0)
  {
    var found := FindRecord(t.index, r.height);
    if found.Some? {
      FoundIsIn(t.index, r.height);
      ReplaceCounts(t.index, r, found.value, s);
    } else {
      FoundNone(t.index, r.height);
      PutCounts(t.index, r, s);
    }
  }

  /** The cells of a held record are named, so never more often by one record than by all. */
  lemma HeldSlotsCounted(t: Table, was: BlockRecord, s: Slot)
    requires Sound(t) && was in t.index
    ensures multiset(was.slots)[s] <= Count(t.index, s)
  {
    var k :| 0 <= k < |t.index| && t.index[k] == was;
    CountAtLeast(t.index, k, s);
  }

  lemma SentinelBreaks(t: Table, r: BlockRecord, p: Placement, nfs: seq<Hash>)
    requires Sound(t) && PlacedSome(t.buckets, p, nfs) && EMPTY in nfs && r.slots == p.slots
    ensures !Recorded(p.buckets, PutRecord(t.index, r))
  {
    var s :| multiset(p.slots)[s] > Changed(t.buckets, p.buckets, s);
    assert s in p.slots;
    assert EntryAt(t.buckets, s) == EMPTY && Count(t.index, s) == 0;
    CountsAfter(t, r, s);
    var found := FindRecord(t.index, r.height);
    if found.Some? {
      FoundIsIn(t.index, r.height);
      HeldSlotsCounted(t, found.value, s);
    }
    assert Count(PutRecord(t.index, r), s) != if EntryAt(p.buckets, s) != EMPTY then 1 else 0;
  }

  lemma LostSlotsBreak(t: Table, r: BlockRecord, was: BlockRecord, p: Placement, nfs: seq<Hash>)
    requires Sound(t) && PlacedSome(t.buckets, p, nfs) && r.slots == p.slots
    requires FindRecord(t.index, r.height) == Some(was) && was.slots != []
    ensures !Recorded(p.buckets, PutRecord(t.index, r))
  {
    var s := was.slots[0];
    FoundIsIn(t.index, r.height);
    HeldSlotsCounted(t, was, s);
    assert EntryAt(t.buckets, s) != EMPTY;
    CountsAfter(t, r, s);
    assert Count(PutRecord(t.index, r), s) == 0;
  }

  lemma OtherHashBreaks(t: Table, r: BlockRecord, was: BlockRecord)
    requires Sound(t) && FindRecord(t.index, r.height) == Some(was) && was.hash != r.hash
    ensures !Inverse(PutRecord(t.index, r), t.heights[r.hash := r.height])
  {
    FoundIsIn(t.index, r.height);
    PutFinds(t.index, r, r.height);
    assert t.heights[r.hash := r.height][was.hash] == r.height;
  }

  lemma OtherHeightBreaks(t: Table, r: BlockRecord)
    requires Sound(t) && FindRecord(t.index, r.height).None? && r.hash in t.heights
    ensures !Inverse(PutRecord(t.index, r), t.heights[r.hash := r.height])
  {
    FoundIsIn(t.index, t.heights[r.hash]);
    FoundNone(t.index, r.height);
    PutElements(t.index, r);
    assert FindRecord(t.index, t.heights[r.hash]).value in PutRecord(t.index, r);
  }

  lemma UnsoundOtherwise(t: Table, height: nat, hash: Hash, nfs: seq<Hash>)
    requires Sound(t) && Place(t.buckets, nfs).Some?
    requires EMPTY in nfs || (!IsFresh(t, height, hash) && !IsHeldEmpty(t, height, hash))
    ensures !Sound(WithBlock(t, height, hash, Place(t.buckets, nfs).value))
  {
    var p := Place(t.buckets, nfs).value;
    var r, found := BlockRecord(height, hash, p.slots), FindRecord(t.index, height);
    PlaceAnything(t.buckets, nfs);
    if EMPTY in nfs {
      SentinelBreaks(t, r, p, nfs);
    } else if found.None? {
      OtherHeightBreaks(t, r);
    } else if found.value.hash != hash {
      OtherHashBreaks(t, r, found.value);
    } else {
      LostSlotsBreak(t, r, found.value, p, nfs);
    }
  }

  /** The exact condition: a fitting block leaves the table sound if and only if it brings no sentinel and
      is either new to both indexes or held already without nullifiers. */
  lemma InsertKeepsSoundIff(t: Table, height: nat, hash: Hash, nfs: seq<Hash>)
    requires Sound(t) && Fits(t.buckets, nfs)
    ensures Place(t.buckets, nfs).Some?
    ensures Sound(WithBlock(t, height, hash, Place(t.buckets, nfs).value)) <==>
      EMPTY !in nfs && (IsFresh(t, height, hash) || IsHeldEmpty(t, height, hash))
  {
    assert nfs[..|nfs|] == nfs;
    FittingBlockIsPlaced(t.buckets, nfs, |nfs|);
    if EMPTY in nfs || (!IsFresh(t, height, hash) && !IsHeldEmpty(t, height, hash)) {
      UnsoundOtherwise(t, height, hash, nfs);
    } else if IsFresh(t, height, hash) {
      FreshIsInsertable(t, height, hash, nfs);
      InsertKeepsSound(t, height, hash, nfs);
    } else {
      RewriteKeepsSound(t, height, hash, nfs);
    }
  }

  // ── A failing input ────────────────────────────────────────────────

  lemma OneNullifierFits(t: Table, nf: Hash)
    requires IsNew(t)
    ensures Fits(t.buckets, [nf])
  {
    NewIsSound(t);
    FitsIffLiveFits(t, [nf]);
    assert [nf][..0] == [];
  }

  lemma HeldWithItsSlot(t: Table, height: nat, hash: Hash, nf: Hash)
    requires IsNew(t) && nf != EMPTY && Fits(t.buckets, [nf])
    ensures Place(t.buckets, [nf]).Some?
    ensures var held := WithBlock(t, height, hash, Place(t.buckets, [nf]).value);
      Sound(held) && !IsFresh(held, height, hash) && !IsHeldEmpty(held, height, hash)
  {
    NewIsSound(t);
    InsertKeepsSound(t, height, hash, [nf]);
    PlaceResult(t.buckets, [nf]);
    var r := BlockRecord(height, hash, Place(t.buckets, [nf]).value.slots);
    assert PutRecord([], r) == [r] && [r][..0] == [];
  }

  /** A failing input: a block with a nullifier, then the same block without any, on an empty table. The
      second insertion overwrites the record and leaves a cell that nothing names. */
  lemma ReinsertionBreaks(t: Table, height: nat, hash: Hash, nf: Hash)
    requires IsNew(t) && nf != EMPTY
    ensures Sound(Step(t, InsertBlock(height, hash, [nf])))
    ensures !Sound(Step(Step(t, InsertBlock(height, hash, [nf])), InsertBlock(height, hash, [])))
  {
    OneNullifierFits(t, nf);
    HeldWithItsSlot(t, height, hash, nf);
    InsertKeepsSoundIff(Step(t, InsertBlock(height, hash, [nf])), height, hash, []);
  }
}
