/** The private lookup: serialised table, selected row, scan on the client. */
module NullifierLookup {
  import opened Prelude
  import opened NullifierTable
  import opened NullifierHistory
  import PirStub

  const ENTRY_BYTES: nat := 32
  const BUCKET_BYTES: nat := BUCKET_CAPACITY * ENTRY_BYTES

  /** Bucket after bucket, entry after entry. */
  function ToPirBytes(buckets: seq<Bucket>): seq<byte>
    decreases |buckets|
  {
    if buckets == [] then [] else Flatten(buckets[0].entries) + ToPirBytes(buckets[1..])
  }

  /** Some aligned 32-byte chunk from chunk `i` on equals the nullifier. */
  function HasChunk(bytes: seq<byte>, nf: Hash, i: nat): bool
    decreases |bytes| - 32 * i
  {
    32 * i + 32 <= |bytes| && (bytes[32 * i..32 * i + 32] == nf.bytes || HasChunk(bytes, nf, i + 1))
  }

  /** The client's scan; a decoded row may be longer than a bucket. */
  function BucketContains(row: seq<byte>, nf: Hash): bool {
    HasChunk(row[..Min(|row|, BUCKET_BYTES)], nf, 0)
  }

  lemma {:induction false} BytesLength(buckets: seq<Bucket>)
    requires forall c :: 0 <= c < |buckets| ==> |buckets[c].entries| == BUCKET_CAPACITY
    ensures |ToPirBytes(buckets)| == |buckets| * BUCKET_BYTES
    decreases |buckets|
  {
    if buckets != [] {
      BytesLength(buckets[1..]);
    }
  }

  lemma {:induction false} RowOfBytes(buckets: seq<Bucket>, b: nat)
    requires b < |buckets| && forall c :: 0 <= c < |buckets| ==> |buckets[c].entries| == BUCKET_CAPACITY
    ensures b * BUCKET_BYTES + BUCKET_BYTES <= |ToPirBytes(buckets)|
    ensures ToPirBytes(buckets)[b * BUCKET_BYTES..b * BUCKET_BYTES + BUCKET_BYTES] == Flatten(buckets[b].entries)
    decreases |buckets|
  {
    BytesLength(buckets);
    if b > 0 {
      RowOfBytes(buckets[1..], b - 1);
      var rest := ToPirBytes(buckets[1..]);
      assert ToPirBytes(buckets)[b * BUCKET_BYTES..b * BUCKET_BYTES + BUCKET_BYTES]
          == rest[(b - 1) * BUCKET_BYTES..(b - 1) * BUCKET_BYTES + BUCKET_BYTES];
    }
  }

  lemma {:induction false} ChunkScan(entries: seq<Hash>, nf: Hash, i: nat)
    requires i <= |entries|
    ensures HasChunk(Flatten(entries), nf, i) <==> nf in entries[i..]
    decreases |entries| - i
  {
    if i < |entries| {
      ChunkScan(entries, nf, i + 1);
      FlattenAt(entries, i);
      assert entries[i..] == [entries[i]] + entries[i + 1..];
    }
  }

  /** Scanning a served row, with or without trailing bytes, is membership in the bucket. */
  lemma ScanIsMembership(entries: seq<Hash>, extra: seq<byte>, nf: Hash)
    requires |entries| == BUCKET_CAPACITY
    ensures BucketContains(Flatten(entries) + extra, nf) <==> nf in entries
  {
    var row := Flatten(entries) + extra;
    assert row[..BUCKET_BYTES] == Flatten(entries);
    ChunkScan(entries, nf, 0);
    assert entries[0..] == entries;
  }

  /** The bytes the server sets up for queries. */
  function Served(t: Table): PirStub.StubState {
    PirStub.Setup(ToPirBytes(t.buckets), NUM_BUCKETS, BUCKET_BYTES * 8)
  }

  lemma AnswerIsBucket(t: Table, nf: Hash)
    requires WellShaped(t.buckets)
    ensures PirStub.AnswerQuery(Served(t), PirStub.RowQuery(HashToBucket(nf)))
         == Ok(Flatten(t.buckets[HashToBucket(nf)].entries))
  {
    RowOfBytes(t.buckets, HashToBucket(nf));
    PirStub.AnswerIsRow(Served(t), HashToBucket(nf));
  }

  /** The client's private lookup answers exactly what the table contains, for every nullifier. */
  lemma LookupIsContains(t: Table, nf: Hash, row: seq<byte>, extra: seq<byte>)
    requires WellShaped(t.buckets)
    requires PirStub.AnswerQuery(Served(t), PirStub.RowQuery(HashToBucket(nf))) == Ok(row)
    ensures BucketContains(row + extra, nf) <==> Contains(t, nf)
  {
    AnswerIsBucket(t, nf);
    ScanIsMembership(t.buckets[HashToBucket(nf)].entries, extra, nf);
  }

  /** With a sound table the query is answered, and the wallet is told "spent" exactly when a live
      block carries the nullifier. */
  lemma SpentIffCarried(t: Table, nf: Hash, extra: seq<byte>)
    requires Sound(t) && nf != EMPTY
    ensures var answer := PirStub.AnswerQuery(Served(t), PirStub.RowQuery(HashToBucket(nf)));
      answer.Ok? && (BucketContains(answer.value + extra, nf) <==> Carried(Live(t), nf))
  {
    ContainsIff(t, nf);
    AnswerIsBucket(t, nf);
    LookupIsContains(t, nf, Flatten(t.buckets[HashToBucket(nf)].entries), extra);
  }

  /** THE RESULT. In every state a table can reach, the answer is decided by the operations so far. */
  lemma SpentIffCarriedInEveryRun(states: seq<Table>, ops: seq<Op>, i: nat, nf: Hash, extra: seq<byte>)
    requires IsRun(states, ops) && i < |states| && nf != EMPTY
    ensures var answer := PirStub.AnswerQuery(Served(states[i]), PirStub.RowQuery(HashToBucket(nf)));
      answer.Ok? && (BucketContains(answer.value + extra, nf) <==> Carried(LiveAfter(ops[..i]), nf))
  {
    EveryRunIsSound(states, ops, i, nf);
    SpentIffCarried(states[i], nf, extra);
  }
}
