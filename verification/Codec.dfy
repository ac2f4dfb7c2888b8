/** The moving cursor of the binary formats: each read takes from the front of what is left, and fails
    when too little is left. Also the checksum envelope that both snapshot formats share. */
module Codec {
  import opened Prelude

  datatype Taken<T> = Short | Taken(value: T, rest: seq<byte>)

  function TakeLe(input: seq<byte>, width: nat): Taken<nat> {
    if |input| < width then Short else Taken(FromLe(input[..width]), input[width..])
  }

  function TakeHash(input: seq<byte>): Taken<Hash> {
    if |input| < 32 then Short else Taken(Hash(input[..32]), input[32..])
  }

  function Put<T>(front: seq<T>, r: Taken<seq<T>>): Taken<seq<T>> {
    match r
    case Short => Short
    case Taken(rest, left) => Taken(front + rest, left)
  }

  function TakeHashes(input: seq<byte>, n: nat): Taken<seq<Hash>>
    decreases n, input
  {
    if n == 0 then Taken([], input)
    else
      match TakeHash(input)
      case Short => Short
      case Taken(hash, rest) => Put([hash], TakeHashes(rest, n - 1))
  }

  lemma Associate<T>(a: seq<T>, b: seq<T>, c: seq<T>)
    ensures (a + b) + c == a + (b + c)
  {
  }

  lemma SliceAfter<T>(front: seq<T>, rest: seq<T>, i: nat, j: nat)
    requires i <= j <= |rest|
    ensures (front + rest)[|front| + i..|front| + j] == rest[i..j]
  {
  }

  lemma TakeLeRoundTrip(n: nat, width: nat, tail: seq<byte>)
    requires n < Pow256(width)
    ensures TakeLe(ToLe(n, width) + tail, width) == Taken(n, tail)
  {
    LeRoundTrip(n, width);
    var input := ToLe(n, width) + tail;
    assert input[..width] == ToLe(n, width) && input[width..] == tail;
  }

  lemma TakeHashRoundTrip(hash: Hash, tail: seq<byte>)
    ensures TakeHash(hash.bytes + tail) == Taken(hash, tail)
  {
    var input := hash.bytes + tail;
    assert input[..32] == hash.bytes && input[32..] == tail;
  }

  lemma {:induction false} TakeHashesRoundTrip(hashes: seq<Hash>, tail: seq<byte>)
    ensures TakeHashes(Flatten(hashes) + tail, |hashes|) == Taken(hashes, tail)
    decreases |hashes|
  {
    if hashes == [] {
      assert Flatten(hashes) + tail == tail;
    } else {
      var rest := Flatten(hashes[1..]) + tail;
      assert Flatten(hashes) + tail == hashes[0].bytes + rest;
      TakeHashRoundTrip(hashes[0], rest);
      TakeHashesRoundTrip(hashes[1..], tail);
      assert [hashes[0]] + hashes[1..] == hashes;
    }
  }

  lemma PutTwice<T>(a: seq<T>, b: seq<T>, r: Taken<seq<T>>)
    ensures Put(a, Put(b, r)) == Put(a + b, r)
    ensures Put([], r) == r
  {
    if r.Taken? {
      assert a + (b + r.value) == (a + b) + r.value;
      assert [] + r.value == r.value;
    }
  }

  method ReadHashes(input: seq<byte>, n: nat) returns (r: Taken<seq<Hash>>)
    ensures r == TakeHashes(input, n)
  {
    var hashes: seq<Hash>, rest, i := [], input, 0;
    PutTwice([], [], TakeHashes(input, n));
    while i < n
      invariant i <= n && TakeHashes(input, n) == Put(hashes, TakeHashes(rest, n - i))
    {
      var hash := TakeHash(rest);
      if hash.Short? {
        return Short;
      }
      PutTwice(hashes, [hash.value], TakeHashes(hash.rest, n - i - 1));
      hashes, rest, i := hashes + [hash.value], hash.rest, i + 1;
    }
    assert hashes + [] == hashes;
    return Taken(hashes, rest);
  }

  method WriteHashes(buf: seq<byte>, hashes: seq<Hash>) returns (buf': seq<byte>)
    ensures buf' == buf + Flatten(hashes)
  {
    buf' := buf;
    var i := 0;
    assert hashes[0..] == hashes;
    while i < |hashes|
      invariant i <= |hashes| && buf' + Flatten(hashes[i..]) == buf + Flatten(hashes)
    {
      assert hashes[i..][1..] == hashes[i + 1..];
      assert buf' + (hashes[i].bytes + Flatten(hashes[i + 1..])) == (buf' + hashes[i].bytes) + Flatten(hashes[i + 1..]);
      buf', i := buf' + hashes[i].bytes, i + 1;
    }
    assert buf' + [] == buf';
  }

  // ── Checksums ──────────────────────────────────────────────────────

  datatype Opened = BadLength | BadChecksum | Payload(bytes: seq<byte>)

  /** The checksum function is not modelled: any function of the bytes, kept in 64 bits. */
  function Seal(sum: seq<byte> -> nat, payload: seq<byte>): seq<byte> {
    payload + ToLe(sum(payload) % U64_LIMIT, 8)
  }

  function Open(sum: seq<byte> -> nat, data: seq<byte>, minimum: nat): Opened {
    if |data| < minimum || |data| < 8 then BadLength
    else
      var payload := data[..|data| - 8];
      if FromLe(data[|data| - 8..]) == sum(payload) % U64_LIMIT then Payload(payload) else BadChecksum
  }

  lemma OpenSealed(sum: seq<byte> -> nat, payload: seq<byte>, minimum: nat)
    requires minimum <= |payload| + 8
    ensures Open(sum, Seal(sum, payload), minimum) == Payload(payload)
  {
    PowerLimits();
    LeRoundTrip(sum(payload) % U64_LIMIT, 8);
    var data := Seal(sum, payload);
    assert data[..|data| - 8] == payload;
    assert data[|data| - 8..] == ToLe(sum(payload) % U64_LIMIT, 8);
  }

  /** Exactly which files are opened: long enough, and the last eight bytes are the checksum of the rest. */
  lemma OpenedIff(sum: seq<byte> -> nat, data: seq<byte>, minimum: nat, payload: seq<byte>)
    requires minimum >= 8
    ensures Open(sum, data, minimum) == Payload(payload) <==>
      |data| >= minimum && payload == data[..|data| - 8] && FromLe(data[|data| - 8..]) == sum(payload) % U64_LIMIT
    ensures |data| >= minimum && FromLe(data[|data| - 8..]) != sum(data[..|data| - 8]) % U64_LIMIT ==>
      Open(sum, data, minimum) == BadChecksum
    ensures |data| < minimum ==> Open(sum, data, minimum) == BadLength
  {
  }

  /** The value of a little-endian field determines its bytes. */
  lemma {:induction false} BytesOfValue(bytes: seq<byte>)
    ensures ToLe(FromLe(bytes), |bytes|) == bytes && FromLe(bytes) < Pow256(|bytes|)
  {
    if bytes != [] {
      BytesOfValue(bytes[1..]);
      assert [bytes[0]] + bytes[1..] == bytes;
    }
  }

  /** The file ends in the checksum of everything before it. */
  ghost predicate Checksummed(sum: seq<byte> -> nat, data: seq<byte>) {
    |data| >= 8 && data == Seal(sum, data[..|data| - 8])
  }

  lemma OpenedIsSealed(sum: seq<byte> -> nat, data: seq<byte>, minimum: nat)
    requires minimum >= 8 && |data| >= minimum
    ensures Open(sum, data, minimum).Payload? <==> Checksummed(sum, data)
    ensures !Checksummed(sum, data) ==> Open(sum, data, minimum) == BadChecksum
  {
    PowerLimits();
    var payload, last := data[..|data| - 8], data[|data| - 8..];
    assert payload + last == data;
    BytesOfValue(last);
    LeRoundTrip(sum(payload) % U64_LIMIT, 8);
    if data == Seal(sum, payload) {
      assert Seal(sum, payload)[|data| - 8..] == ToLe(sum(payload) % U64_LIMIT, 8);
    }
  }
}
