/** Tree geometry, positions and database rows. */
module Geometry {
  import opened Prelude

  const TREE_DEPTH: nat := 32
  const SHARD_HEIGHT: nat := 16
  const SUBSHARD_HEIGHT: nat := 8
  const SUBSHARD_LEAVES: nat := 256
  const SUBSHARDS_PER_SHARD: nat := 256
  const SHARD_LEAVES: nat := 65536
  const SUBSHARD_ROW_BYTES: nat := 8192
  const L0_MAX_SHARDS: nat := 16
  const L0_DB_ROWS: nat := 4096
  const L0_DB_BYTES: nat := 33554432
  const MAX_SHARDS: nat := 65536
  const TREE_CAPACITY: nat := 0x1_0000_0000

  datatype Address = Address(shard: nat, subshard: nat, leaf: nat)

  /** Splits a 64-bit position; the shard index is cut to 32 bits. */
  function DecomposePosition(position: nat): Address {
    Address(
      position / SHARD_LEAVES % U32_LIMIT,
      position / SUBSHARD_LEAVES % SUBSHARDS_PER_SHARD,
      position % SUBSHARD_LEAVES)
  }

  function Recompose(a: Address): nat {
    a.shard * SHARD_LEAVES + a.subshard * SUBSHARD_LEAVES + a.leaf
  }

  function PhysicalRowIndex(shard: nat, subshard: nat, windowStart: nat): nat
    requires windowStart <= shard
  {
    (shard - windowStart) * SUBSHARDS_PER_SHARD + subshard
  }

  /** The truncation makes positions 2^48 apart share one address. */
  lemma AddressOf(position: nat)
    ensures var a := DecomposePosition(position);
      && a.shard < U32_LIMIT && a.subshard < SUBSHARDS_PER_SHARD && a.leaf < SUBSHARD_LEAVES
      && Recompose(a) == position % 0x1_0000_0000_0000
  {
    var sub, shard := position / SUBSHARD_LEAVES, position / SHARD_LEAVES;
    QuotientOfQuotient(position);
    assert position == sub * 256 + position % 256;
    assert sub == shard * 256 + sub % 256;
    var wraps := shard / U32_LIMIT;
    assert shard == wraps * U32_LIMIT + shard % U32_LIMIT;
    assert position == wraps * 0x1_0000_0000_0000 + Recompose(DecomposePosition(position));
  }

  lemma QuotientOfQuotient(position: nat)
    ensures position / 256 / 256 == position / 65536
  {
  }

  /** Decomposition can be undone exactly for the positions below 2^48. */
  lemma DecomposeRoundTrip(position: nat)
    ensures Recompose(DecomposePosition(position)) == position <==> position < 0x1_0000_0000_0000
  {
    AddressOf(position);
  }

  /** Every leaf of every shard has an address of its own, and rows do not collide. */
  lemma RecomposeRoundTrip(a: Address)
    requires a.shard < U32_LIMIT && a.subshard < SUBSHARDS_PER_SHARD && a.leaf < SUBSHARD_LEAVES
    ensures DecomposePosition(Recompose(a)) == a
  {
    var p := Recompose(a);
    assert p / 256 == a.shard * 256 + a.subshard;
    assert p / 65536 == a.shard;
  }

  lemma RowIndexInjective(a: Address, b: Address, windowStart: nat)
    requires windowStart <= a.shard && windowStart <= b.shard
    requires a.subshard < SUBSHARDS_PER_SHARD && b.subshard < SUBSHARDS_PER_SHARD
    requires PhysicalRowIndex(a.shard, a.subshard, windowStart) == PhysicalRowIndex(b.shard, b.subshard, windowStart)
    ensures a.shard == b.shard && a.subshard == b.subshard
  {
  }
}
