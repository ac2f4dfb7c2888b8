/** The shared historical sync: two stores that are behind by different amounts end in step. */
module StartUp {
  import opened Prelude
  import opened Merkle
  import opened CommitmentTree
  import opened TreeHistory
  import opened ChainData
  import opened Bootstrap
  import Pipeline
  import opened NullifierTable
  import opened NullifierHistory
  import opened Lockstep

  /** One synced block goes to the stores that have not seen its height; then the table is evicted. */
  ghost function SyncStep(h: Hasher, s: Stores, b: ChainBlock, nfFrom: nat, witFrom: nat, target: nat)
    : Result<Stores, ServerError>
  {
    match Applied(h, s, b, Pipeline.Height(b) >= nfFrom, Pipeline.Height(b) >= witFrom)
    case Err(e) => Err(e)
    case Ok(s') => Ok(Evicted(s', target))
  }

  /** The same after the steps before it; an error ends the sync. */
  ghost function SyncNext(
    h: Hasher, before: Result<Stores, ServerError>, b: ChainBlock, nfFrom: nat, witFrom: nat, target: nat)
    : Result<Stores, ServerError>
  {
    match before
    case Err(e) => Err(e)
    case Ok(s) => SyncStep(h, s, b, nfFrom, witFrom, target)
  }

  /** The sync over blocks `from` up to `n` of the chain. */
  ghost function Synced(
    h: Hasher, s: Stores, chain: seq<ChainBlock>, from: nat, n: nat, nfFrom: nat, witFrom: nat, target: nat)
    : Result<Stores, ServerError>
    requires from <= n <= |chain|
    decreases n
  {
    if n == from then Ok(s)
    else SyncNext(h, Synced(h, s, chain, from, n - 1, nfFrom, witFrom, target), chain[n - 1], nfFrom, witFrom, target)
  }

  function Evicted(s: Stores, target: nat): Stores {
    s.(table := EvictToOf(s.table, target))
  }

  /** The whole sync: all blocks of the chain from `from` on, and a last eviction even when there are none. */
  ghost function SyncedAll(
    h: Hasher, s: Stores, chain: seq<ChainBlock>, from: nat, nfFrom: nat, witFrom: nat, target: nat)
    : Result<Stores, ServerError>
    requires from <= |chain|
  {
    match Synced(h, s, chain, from, |chain|, nfFrom, witFrom, target)
    case Err(e) => Err(e)
    case Ok(s') => Ok(Evicted(s', target))
  }

  /** Induction over the sync: what holds before it and is kept by every step holds after it. */
  lemma {:induction false} SyncInduction(
    h: Hasher, s: Stores, chain: seq<ChainBlock>, from: nat, n: nat, nfFrom: nat, witFrom: nat, target: nat,
    holds: (nat, Result<Stores, ServerError>) -> bool)
    requires from <= n <= |chain| && holds(from, Ok(s))
    requires forall m: nat, r :: from <= m < n && holds(m, r) ==> holds(m + 1, SyncNext(h, r, chain[m], nfFrom, witFrom, target))
    ensures holds(n, Synced(h, s, chain, from, n, nfFrom, witFrom, target))
    decreases n
  {
    if from < n {
      SyncInduction(h, s, chain, from, n - 1, nfFrom, witFrom, target, holds);
    }
  }

  /** The log is the newest part of a chain, possibly none of it. */
  ghost predicate LogMirrors(blocks: seq<CommitmentTree.BlockRecord>, chain: seq<ChainBlock>) {
    blocks != [] ==> TreeMirrors(blocks, chain)
  }

  /** The table has seen the first `a` blocks of the chain, the tree the first `b`. */
  ghost predicate Seen(s: Stores, chain: seq<ChainBlock>, a: nat, b: nat)
    requires a <= |chain| && b <= |chain|
  {
    Sound(s.table) && LiveMirrors(Live(s.table), chain[..a]) && LogMirrors(s.tree.blocks, chain[..b])
  }

  /** A linked chain whose hashes are distinct and whose nullifiers are never the all-zero sentinel. */
  ghost predicate UsualChain(chain: seq<ChainBlock>) {
    && chain != [] && Pipeline.Linked(chain)
    && (forall i, j :: 0 <= i < j < |chain| ==> chain[i].hash != chain[j].hash)
    && (forall i :: 0 <= i < |chain| && ExtractNullifiers(chain[i].block).Ok? ==>
          EMPTY !in ExtractNullifiers(chain[i].block).value)
  }

  lemma {:induction false} TableSeesNext(t: Table, chain: seq<ChainBlock>, m: nat, n: nat, nfs: seq<Hash>, target: nat)
    requires m + 1 == n <= |chain| && Sound(t) && HasRoom(t, nfs)
    requires Insertable(Live(t), Pipeline.Height(chain[m]), chain[m].hash, nfs)
    requires LiveMirrors(PutBlock(Live(t), LiveBlock(Pipeline.Height(chain[m]), chain[m].hash, nfs)), chain[..m] + [chain[m]])
    ensures var t' := EvictToOf(Step(t, InsertBlock(Pipeline.Height(chain[m]), chain[m].hash, nfs)), target);
      Sound(t') && LiveMirrors(Live(t'), chain[..n])
  {
    assert chain[..n] == chain[..m] + [chain[m]];
    TableGrows(t, chain[..n], chain[m], nfs, target);
  }

  lemma FirstOrNext(live: seq<LiveBlock>, chain: seq<ChainBlock>, n: nat, nfs: seq<Hash>)
    requires UsualChain(chain) && n < |chain| && LiveMirrors(live, chain[..n])
    requires ExtractNullifiers(chain[n].block) == Ok(nfs)
    ensures Insertable(live, Pipeline.Height(chain[n]), chain[n].hash, nfs)
    ensures LiveMirrors(PutBlock(live, LiveBlock(Pipeline.Height(chain[n]), chain[n].hash, nfs)), chain[..n] + [chain[n]])
  {
    if n > 0 {
      NextIsInsertable(live, chain[..n], chain[n], nfs);
      NextMirrors(live, chain[..n], chain[n], nfs);
    }
  }

  /** The table's part of a sync step: a block it has seen only triggers the eviction. */
  lemma {:induction false} TableStep(
    h: Hasher, s: Stores, chain: seq<ChainBlock>, a: nat, m: nat, n: nat, nfFrom: nat, witFrom: nat, target: nat)
    requires UsualChain(chain) && m + 1 == n <= |chain| && a <= |chain| && nfFrom == Pipeline.Height(chain[0]) + a
    requires Sound(s.table) && LiveMirrors(Live(s.table), chain[..Max(a, m)])
    requires SyncStep(h, s, chain[m], nfFrom, witFrom, target).Ok?
    ensures var t := SyncStep(h, s, chain[m], nfFrom, witFrom, target).value.table;
      Sound(t) && LiveMirrors(Live(t), chain[..Max(a, n)])
  {
    if n > a {
      FirstOrNext(Live(s.table), chain, m, ExtractNullifiers(chain[m].block).value);
      TableSeesNext(s.table, chain, m, n, ExtractNullifiers(chain[m].block).value, target);
    } else {
      EvictToKeepsSound(s.table, target);
      NewestMirrors(Live(s.table), chain[..a], target);
    }
  }

  lemma {:induction false} TreeStep(
    h: Hasher, s: Stores, chain: seq<ChainBlock>, b: nat, m: nat, n: nat, nfFrom: nat, witFrom: nat, target: nat)
    requires UsualChain(chain) && m + 1 == n <= |chain| && b <= |chain| && witFrom == Pipeline.Height(chain[0]) + b
    requires LogMirrors(s.tree.blocks, chain[..Max(b, m)])
    requires SyncStep(h, s, chain[m], nfFrom, witFrom, target).Ok?
    ensures LogMirrors(SyncStep(h, s, chain[m], nfFrom, witFrom, target).value.tree.blocks, chain[..Max(b, n)])
  {
    if n > b {
      LogSeesNext(s.tree, chain, m);
    }
  }

  lemma LogSeesNext(c: Contents, chain: seq<ChainBlock>, n: nat)
    requires n < |chain| && LogMirrors(c.blocks, chain[..n])
    ensures forall leaves: seq<Hash> ::
      LogMirrors(Appended(c, Pipeline.Height(chain[n]), chain[n].hash, leaves).blocks, chain[..n + 1])
  {
    assert chain[..n + 1] == chain[..n] + [chain[n]];
  }

  /** Each synced block brings each store to the chain up to it, unless the store was further already. */
  lemma {:induction false} SyncBringsUp(
    h: Hasher, s: Stores, chain: seq<ChainBlock>, a: nat, b: nat, from: nat, n: nat, nfFrom: nat, witFrom: nat, target: nat)
    requires UsualChain(chain) && from <= n <= |chain| && a <= |chain| && b <= |chain| && from <= a && from <= b
    requires nfFrom == Pipeline.Height(chain[0]) + a && witFrom == Pipeline.Height(chain[0]) + b
    requires Seen(s, chain, a, b)
    ensures var r := Synced(h, s, chain, from, n, nfFrom, witFrom, target);
      r.Ok? ==> Seen(r.value, chain, Max(a, n), Max(b, n))
    decreases n
  {
    if from < n {
      var m := n - 1;
      SyncBringsUp(h, s, chain, a, b, from, m, nfFrom, witFrom, target);
      var before := Synced(h, s, chain, from, m, nfFrom, witFrom, target);
      if before.Ok? && SyncStep(h, before.value, chain[m], nfFrom, witFrom, target).Ok? {
        TableStep(h, before.value, chain, a, m, n, nfFrom, witFrom, target);
        TreeStep(h, before.value, chain, b, m, n, nfFrom, witFrom, target);
      }
    }
  }

  /** THE RESULT. Stores that mirror a chain up to different heights, one of them possibly empty, mirror
      all of it after a sync that starts where the one further behind ends: the follow loop may start. */
  lemma SyncEndsInLockstep(
    h: Hasher, s: Stores, chain: seq<ChainBlock>, a: nat, b: nat, from: nat, nfFrom: nat, witFrom: nat, target: nat)
    requires UsualChain(chain) && a <= |chain| && b <= |chain| && Seen(s, chain, a, b) && from == Min(a, b)
    requires nfFrom == Pipeline.Height(chain[0]) + a && witFrom == Pipeline.Height(chain[0]) + b
    requires s.tree.blocks != [] || b < |chain|
    ensures var r := SyncedAll(h, s, chain, from, nfFrom, witFrom, target);
      r.Ok? ==> Mirrors(r.value, chain)
  {
    SyncBringsUp(h, s, chain, a, b, from, |chain|, nfFrom, witFrom, target);
    LogNeverEmpties(h, s, chain, b, from, |chain|, nfFrom, witFrom, target);
    var r := Synced(h, s, chain, from, |chain|, nfFrom, witFrom, target);
    SeenAll(r, chain, a, b);
    if r.Ok? {
      EvictionKeepsMirrors(r.value, chain, target);
    }
  }

  /** Between two blocks, and at the end even without any, the table holds no more nullifiers than the target. */
  lemma SyncedWithinTarget(
    h: Hasher, s: Stores, chain: seq<ChainBlock>, a: nat, b: nat, from: nat, n: nat, nfFrom: nat, witFrom: nat, target: nat)
    requires UsualChain(chain) && from <= n <= |chain| && a <= |chain| && b <= |chain| && from <= a && from <= b
    requires nfFrom == Pipeline.Height(chain[0]) + a && witFrom == Pipeline.Height(chain[0]) + b
    requires Seen(s, chain, a, b)
    ensures var r := Synced(h, s, chain, from, n, nfFrom, witFrom, target);
      r.Ok? && from < n ==> Size(Live(r.value.table)) <= target
    ensures var r := SyncedAll(h, s, chain, from, nfFrom, witFrom, target);
      r.Ok? ==> Size(Live(r.value.table)) <= target
  {
    if from < n {
      SyncBringsUp(h, s, chain, a, b, from, n - 1, nfFrom, witFrom, target);
      var before := Synced(h, s, chain, from, n - 1, nfFrom, witFrom, target);
      if before.Ok? && SyncStep(h, before.value, chain[n - 1], nfFrom, witFrom, target).Ok? {
        StepWithinTarget(h, before.value, chain, a, n, nfFrom, witFrom, target);
      }
    }
    SyncBringsUp(h, s, chain, a, b, from, |chain|, nfFrom, witFrom, target);
    var all := Synced(h, s, chain, from, |chain|, nfFrom, witFrom, target);
    if all.Ok? {
      EvictToKeepsSound(all.value.table, target);
      var k := NewestIsLongest(Live(all.value.table), target);
    }
  }

  lemma StepWithinTarget(
    h: Hasher, s: Stores, chain: seq<ChainBlock>, a: nat, n: nat, nfFrom: nat, witFrom: nat, target: nat)
    requires UsualChain(chain) && 0 < n <= |chain| && a <= |chain| && nfFrom == Pipeline.Height(chain[0]) + a
    requires Sound(s.table) && LiveMirrors(Live(s.table), chain[..Max(a, n - 1)])
    requires SyncStep(h, s, chain[n - 1], nfFrom, witFrom, target).Ok?
    ensures Size(Live(SyncStep(h, s, chain[n - 1], nfFrom, witFrom, target).value.table)) <= target
  {
    if n > a {
      var nfs := ExtractNullifiers(chain[n - 1].block).value;
      var grown := Step(s.table, InsertBlock(Pipeline.Height(chain[n - 1]), chain[n - 1].hash, nfs));
      FirstOrNext(Live(s.table), chain, n - 1, nfs);
      InsertKeepsSound(s.table, Pipeline.Height(chain[n - 1]), chain[n - 1].hash, nfs);
      EvictToKeepsSound(grown, target);
      var k := NewestIsLongest(Live(grown), target);
    } else {
      EvictToKeepsSound(s.table, target);
      var k := NewestIsLongest(Live(s.table), target);
    }
  }

  lemma EvictionKeepsMirrors(s: Stores, chain: seq<ChainBlock>, target: nat)
    requires Mirrors(s, chain)
    ensures Mirrors(Evicted(s, target), chain)
  {
    EvictToKeepsSound(s.table, target);
    NewestMirrors(Live(s.table), chain, target);
  }

  lemma SeenAll(r: Result<Stores, ServerError>, chain: seq<ChainBlock>, a: nat, b: nat)
    requires UsualChain(chain) && a <= |chain| && b <= |chain|
    requires r.Ok? ==> Seen(r.value, chain, Max(a, |chain|), Max(b, |chain|)) && r.value.tree.blocks != []
    ensures r.Ok? ==> Mirrors(r.value, chain)
  {
    assert chain[..|chain|] == chain;
  }

  /** The check before the follow loop: both stores end in the same block. An empty table counts as
      height 0 and no hash. */
  function TipsMatch(s: Stores): bool {
    var live, blocks := Live(s.table), s.tree.blocks;
    && blocks != []
    && blocks[|blocks| - 1].height == (if live == [] then 0 else live[|live| - 1].height)
    && live != [] && blocks[|blocks| - 1].hash == live[|live| - 1].hash
  }

  /** After the shared sync the server goes on exactly when eviction has left the table a block. */
  lemma TipCheckIff(s: Stores, chain: seq<ChainBlock>)
    requires Mirrors(s, chain)
    ensures TipsMatch(s) <==> Live(s.table) != []
  {
  }

  lemma StepFillsLog(h: Hasher, s: Stores, b: ChainBlock, nfFrom: nat, witFrom: nat, target: nat)
    requires SyncStep(h, s, b, nfFrom, witFrom, target).Ok?
    requires s.tree.blocks != [] || Pipeline.Height(b) >= witFrom
    ensures SyncStep(h, s, b, nfFrom, witFrom, target).value.tree.blocks != []
  {
  }

  lemma {:induction false} LogNeverEmpties(
    h: Hasher, s: Stores, chain: seq<ChainBlock>, b: nat, from: nat, n: nat, nfFrom: nat, witFrom: nat, target: nat)
    requires UsualChain(chain) && from <= n <= |chain| && witFrom == Pipeline.Height(chain[0]) + b
    ensures var r := Synced(h, s, chain, from, n, nfFrom, witFrom, target);
      r.Ok? && (s.tree.blocks != [] || (from <= b < n)) ==> r.value.tree.blocks != []
    decreases n
  {
    if from < n {
      LogNeverEmpties(h, s, chain, b, from, n - 1, nfFrom, witFrom, target);
      var before := Synced(h, s, chain, from, n - 1, nfFrom, witFrom, target);
      if before.Ok? && SyncStep(h, before.value, chain[n - 1], nfFrom, witFrom, target).Ok?
        && (before.value.tree.blocks != [] || b < n) {
        StepFillsLog(h, before.value, chain[n - 1], nfFrom, witFrom, target);
      }
    }
  }
}
