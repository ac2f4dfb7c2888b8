/** The nullifier table in place: buckets in an array, both indexes and the count as fields. Every method is
    proved against the table as a value. */
module NullifierDb {
  import opened Prelude
  import opened NullifierTable
  import opened NullifierHistory

  class HashTableDb {
    const buckets: array<Bucket>
    var index: seq<BlockRecord>
    var heights: map<Hash, nat>
    var numEntries: nat

    ghost function View(): Table
      reads this, buckets
    {
      Table(buckets[..], index, heights, numEntries)
    }

    ghost predicate Valid()
      reads this, buckets
    {
      Sound(View())
    }

    constructor ()
      ensures IsNew(View()) && Valid() && fresh(buckets)
    {
      buckets := new Bucket[NUM_BUCKETS](_ => EmptyBucket());
      index, heights, numEntries := [], map[], 0;
      new;
      NewIsSound(View());
    }

    /** Adds a block or, when a bucket cannot take its share, reports that bucket and changes nothing. */
    method InsertBlock(height: nat, hash: Hash, nfs: seq<Hash>) returns (r: Result<(), TableError>)
      requires WellShaped(buckets[..])
      modifies this, buckets
      ensures r.Ok? <==> Fits(old(buckets[..]), nfs)
      ensures r.Err? ==>
        && View() == old(View()) && r.error.BucketOverflow? && r.error.bucket < NUM_BUCKETS
        && Needed(nfs, r.error.bucket) > Free(buckets[r.error.bucket].entries)
      ensures WellShaped(buckets[..]) && View() == Step(old(View()), Op.InsertBlock(height, hash, nfs))
      ensures r.Ok? && old(Valid()) && Insertable(Live(old(View())), height, hash, nfs) ==>
        Valid() && Live(View()) == PutBlock(Live(old(View())), LiveBlock(height, hash, nfs))
    {
      ghost var was := View();
      var overflow := FindOverflow(nfs);
      if overflow.Some? {
        return Err(BucketOverflow(overflow.value));
      }
      var slots := PlaceAll(nfs);
      index, heights := PutRecord(index, BlockRecord(height, hash, slots)), heights[hash := height];
      InsertEffect(was, height, hash, nfs, Placement(buckets[..], slots));
      r := Ok(());
    }

    /** The capacity check: some bucket that cannot take its share, if there is one. */
    method FindOverflow(nfs: seq<Hash>) returns (overflow: Option<nat>)
      requires WellShaped(buckets[..])
      ensures overflow.None? <==> Fits(buckets[..], nfs)
      ensures overflow.Some? ==>
        && overflow.value < NUM_BUCKETS
        && Needed(nfs, overflow.value) > Free(buckets[overflow.value].entries)
    {
      var required := CountByBucket(nfs);
      var todo := required.Keys;
      while todo != {}
        invariant todo <= required.Keys
        invariant forall b :: b in required && b !in todo ==> b < NUM_BUCKETS && required[b] <= Free(buckets[b].entries)
      {
        var b :| b in todo;
        if required[b] > Free(buckets[b].entries) {
          return Some(b);
        }
        todo := todo - {b};
      }
      overflow := None;
    }

    /** Places each nullifier in the first free cell of its bucket. */
    method PlaceAll(nfs: seq<Hash>) returns (slots: seq<Slot>)
      requires WellShaped(buckets[..]) && Fits(buckets[..], nfs)
      modifies this`numEntries, buckets
      ensures Place(old(buckets[..]), nfs) == Some(Placement(buckets[..], slots))
      ensures WellShaped(buckets[..]) && |slots| == |nfs| && numEntries == old(numEntries) + |nfs|
    {
      slots := [];
      for i := 0 to |nfs|
        invariant Place(old(buckets[..]), nfs[..i]) == Some(Placement(buckets[..], slots))
        invariant WellShaped(buckets[..]) && |slots| == i && numEntries == old(numEntries) + i
      {
        FittingBlockIsPlaced(old(buckets[..]), nfs, i + 1);
        assert nfs[..i + 1][..i] == nfs[..i];
        var s := PlaceOne(nfs[i], slots);
        slots := slots + [s];
        numEntries := numEntries + 1;
      }
      assert nfs[..|nfs|] == nfs;
    }

    method PlaceOne(nf: Hash, ghost slots: seq<Slot>) returns (s: Slot)
      requires WellShaped(buckets[..]) && Insert(Placement(buckets[..], slots), nf).Some?
      modifies buckets
      ensures Insert(Placement(old(buckets[..]), slots), nf) == Some(Placement(buckets[..], slots + [s]))
      ensures WellShaped(buckets[..])
    {
      var b := HashToBucket(nf);
      s := Slot(b, FirstEmpty(buckets[b].entries).value);
      buckets[b] := Bucket(buckets[b].entries[s.cell := nf]);
      assert buckets[..] == SetEntry(old(buckets[..]), s, nf);
    }

    /** Removes a block by hash. */
    method RollbackBlock(hash: Hash) returns (r: Result<(), TableError>)
      requires Valid()
      modifies this, buckets
      ensures Valid() && View() == RollbackOf(old(View()), hash).0
      ensures Live(View()) == WithoutHash(Live(old(View())), hash)
      ensures r == if RollbackOf(old(View()), hash).1 then Ok(()) else Err(BlockNotFound)
    {
      ghost var was := View();
      RollbackKeepsSound(was, hash);
      if hash !in heights {
        return Err(BlockNotFound);
      }
      RollbackOfHeld(was, hash);
      r := RemoveBlock(hash);
      SameTable(RollbackOf(was, hash).0, View());
    }

    method RemoveBlock(hash: Hash) returns (r: Result<(), TableError>)
      requires hash in heights
      requires FindRecord(index, heights[hash]).Some? && |FindRecord(index, heights[hash]).value.slots| <= numEntries
      modifies this, buckets
      ensures r == Ok(()) && View() == old(
        var slots := FindRecord(index, heights[hash]).value.slots;
        Table(Clear(buckets[..], slots), RemoveRecord(index, heights[hash]), heights - {hash}, numEntries - |slots|))
    {
      var height := heights[hash];
      heights := heights - {hash};
      var record := FindRecord(index, height);
      if record.None? {
        return Err(BlockNotFound);
      }
      index := RemoveRecord(index, height);
      ClearSlots(record.value.slots);
      numEntries := numEntries - |record.value.slots|;
      r := Ok(());
    }

    method ClearSlots(slots: seq<Slot>)
      modifies buckets
      ensures buckets[..] == Clear(old(buckets[..]), slots)
    {
      for i := 0 to |slots|
        invariant buckets[..] == Clear(old(buckets[..]), slots[..i])
      {
        assert slots[..i + 1][..i] == slots[..i];
        var s := slots[i];
        if s.bucket < buckets.Length && s.cell < |buckets[s.bucket].entries| {
          ghost var before := buckets[..];
          buckets[s.bucket] := Bucket(buckets[s.bucket].entries[s.cell := EMPTY]);
          assert buckets[..] == SetEntry(before, s, EMPTY);
        }
      }
      assert slots[..|slots|] == slots;
    }

    /** Removes the lowest block, if there is one. */
    method EvictOldestBlock() returns (height: Option<nat>)
      requires Valid()
      modifies this, buckets
      ensures Valid() && (View(), height) == EvictOldestOf(old(View()))
      ensures height == if Live(old(View())) == [] then None else Some(Live(old(View()))[0].height)
      ensures Live(View()) == if Live(old(View())) == [] then [] else Live(old(View()))[1..]
    {
      EvictOldestKeepsSound(View());
      if index == [] {
        return None;
      }
      height := Some(index[0].height);
      var rolledBack := RollbackBlock(index[0].hash);
      if rolledBack.Err? {
        height := None;
      }
    }

    /** Evicts until the target is met or no block is left. */
    method EvictToTarget(target: nat)
      requires Valid()
      modifies this, buckets
      ensures Valid() && View() == EvictToOf(old(View()), target)
      ensures Live(View()) == Newest(Live(old(View())), target) && numEntries <= target
    {
      EvictToKeepsSound(View(), target);
      var longest := NewestIsLongest(Live(View()), target);
      while numEntries > target
        modifies this, buckets
        invariant Valid() && EvictToOf(View(), target) == EvictToOf(old(View()), target)
        decreases |index|
      {
        ghost var before := Live(View());
        var evicted := EvictOldestBlock();
        if evicted.None? {
          break;
        }
      }
      EvictToKeepsSound(View(), target);
    }

    method Contains(nf: Hash) returns (found: bool)
      requires Valid()
      ensures nf != EMPTY ==> (found <==> Carried(Live(View()), nf))
      ensures found <==> NullifierTable.Contains(View(), nf)
    {
      ContainsIff(View(), nf);
      found := nf in buckets[HashToBucket(nf)].entries;
    }

    /** The newest block's height and hash. */
    method Latest() returns (tip: Option<(nat, Hash)>)
      requires Valid()
      ensures tip == TipOf(Live(View()))
    {
      if index == [] {
        return None;
      }
      var n := |index| - 1;
      tip := Some((index[n].height, index[n].hash));
      LiveOfAt(buckets[..], index, n);
    }
  }

  /** What placing all nullifiers of a fitting block and recording it amounts to. */
  lemma {:induction false} InsertEffect(t: Table, height: nat, hash: Hash, nfs: seq<Hash>, p: Placement)
    requires WellShaped(t.buckets) && Fits(t.buckets, nfs) && Place(t.buckets, nfs) == Some(p)
    ensures Step(t, InsertBlock(height, hash, nfs)) == WithBlock(t, height, hash, p)
    ensures Sound(t) && Insertable(Live(t), height, hash, nfs) ==>
      Sound(WithBlock(t, height, hash, p)) &&
      Live(WithBlock(t, height, hash, p)) == PutBlock(Live(t), LiveBlock(height, hash, nfs))
  {
    if Sound(t) && Insertable(Live(t), height, hash, nfs) {
      InsertKeepsSound(t, height, hash, nfs);
    }
  }

  lemma SameTable(t: Table, t': Table)
    requires Sound(t) && t' == t
    ensures Sound(t') && Live(t') == Live(t)
  {
  }

  function TipOf(live: seq<LiveBlock>): Option<(nat, Hash)> {
    if live == [] then None else Some((live[|live| - 1].height, live[|live| - 1].hash))
  }

  /** Shares of a block by bucket; buckets without a share are absent. */
  method CountByBucket(nfs: seq<Hash>) returns (required: map<nat, nat>)
    ensures forall b: nat :: Needed(nfs, b) == if b in required then required[b] else 0
    ensures forall b :: b in required ==> b < NUM_BUCKETS
  {
    required := map[];
    for i := 0 to |nfs|
      invariant forall b: nat :: Needed(nfs[..i], b) == if b in required then required[b] else 0
      invariant forall b :: b in required ==> b < NUM_BUCKETS
    {
      assert nfs[..i + 1][..i] == nfs[..i];
      var b := HashToBucket(nfs[i]);
      required := required[b := (if b in required then required[b] else 0) + 1];
    }
    assert nfs[..|nfs|] == nfs;
  }
}
