/** Values shared by every component: optional and fallible results, bytes, 32-byte hashes, and the
    little-endian integers of the binary formats. Nothing here knows about trees, tables or messages. */
module Prelude {

  datatype Option<+T> = None | Some(value: T)

  datatype Result<+T, +E> = Ok(value: T) | Err(error: E)

  type byte = b: int | 0 <= b < 256

  type Bytes32 = s: seq<byte> | |s| == 32 witness seq(32, i => 0)

  /** A raw 32-byte value: tree hash, block hash or nullifier. */
  datatype Hash = Hash(bytes: Bytes32)

  const U32_LIMIT := 0x1_0000_0000
  const U64_LIMIT := 0x1_0000_0000_0000_0000

  function Min(a: int, b: int): int {
    if a <= b then a else b
  }

  function Max(a: int, b: int): int {
    if a <= b then b else a
  }

  function SaturatingSub(a: nat, b: nat): nat {
    if b <= a then a - b else 0
  }

  function Zeros(n: nat): (zeros: seq<byte>)
    ensures |zeros| == n && forall i :: 0 <= i < n ==> zeros[i] == 0
    decreases n, 0
  {
    if n == 0 then [] else Zeros(n - 1) + [0]
  }

  /** `n` as `width` little-endian bytes (high bytes beyond the width are cut off). */
  function ToLe(n: nat, width: nat): (bytes: seq<byte>)
    ensures |bytes| == width
    decreases width, n
  {
    if width == 0 then [] else [n % 256] + ToLe(n / 256, width - 1)
  }

  function FromLe(bytes: seq<byte>): nat {
    if bytes == [] then 0 else bytes[0] + 256 * FromLe(bytes[1..])
  }

  function Pow256(k: nat): nat {
    if k == 0 then 1 else 256 * Pow256(k - 1)
  }

  lemma {:induction false} LeRoundTrip(n: nat, width: nat)
    requires n < Pow256(width)
    ensures FromLe(ToLe(n, width)) == n
  {
    if width > 0 {
      LeRoundTrip(n / 256, width - 1);
      assert ToLe(n, width)[1..] == ToLe(n / 256, width - 1);
    }
  }

  /** Every further byte weighs 256 times as much: the lowest comes first. */
  lemma {:induction false} HighestByteLast(bytes: seq<byte>, b: byte)
    ensures FromLe(bytes + [b]) == FromLe(bytes) + b * Pow256(|bytes|)
  {
    if bytes == [] {
      assert [] + [b] == [b] && [b][1..] == [];
    } else {
      assert (bytes + [b])[1..] == bytes[1..] + [b];
      HighestByteLast(bytes[1..], b);
      assert 256 * (b * Pow256(|bytes| - 1)) == b * (256 * Pow256(|bytes| - 1));
    }
  }

  lemma PowerLimits()
    ensures Pow256(4) == U32_LIMIT
    ensures Pow256(8) == U64_LIMIT
  {
    assert Pow256(4) == 256 * (256 * (256 * (256 * Pow256(0))));
    assert Pow256(8) == 256 * (256 * (256 * (256 * Pow256(4))));
  }

  /** Concatenation of a list of hashes, the byte form of rows and leaf data. */
  function Flatten(hashes: seq<Hash>): (bytes: seq<byte>)
    ensures |bytes| == 32 * |hashes|
  {
    if hashes == [] then [] else hashes[0].bytes + Flatten(hashes[1..])
  }

  lemma {:induction false} FlattenAt(hashes: seq<Hash>, i: nat)
    requires i < |hashes|
    ensures Flatten(hashes)[32 * i..32 * i + 32] == hashes[i].bytes
  {
    if i > 0 {
      FlattenAt(hashes[1..], i - 1);
      var rest := Flatten(hashes[1..]);
      assert Flatten(hashes)[32 * i..32 * i + 32] == rest[32 * (i - 1)..32 * (i - 1) + 32];
    }
  }
}
