/** The incremental Merkle tree as one flat definition. */
module Merkle {
  import opened Prelude

  /** The node hash, the uncommitted leaf and the test for canonical encodings.
      They stay parameters: no law is assumed about `combine`. */
  datatype Hasher = Hasher(
    combine: (nat, Hash, Hash) -> Hash,
    emptyLeaf: Hash,
    canonical: Hash -> bool)

  /** The node hash produces canonical encodings from canonical encodings. */
  ghost predicate Sane(h: Hasher) {
    && h.canonical(h.emptyLeaf)
    && forall level: nat, l: Hash, r: Hash ::
         h.canonical(l) && h.canonical(r) ==> h.canonical(h.combine(level, l, r))
  }

  predicate AllCanonical(h: Hasher, nodes: seq<Hash>) {
    forall i :: 0 <= i < |nodes| ==> h.canonical(nodes[i])
  }

  /** `combine` as both programs call it: a non-canonical argument is a panic. */
  function HashCombine(h: Hasher, level: nat, left: Hash, right: Hash): Hash
    requires h.canonical(left) && h.canonical(right)
  {
    h.combine(level, left, right)
  }

  function EmptyRoot(h: Hasher, level: nat): Hash
    decreases level, h
  {
    if level == 0 then h.emptyLeaf
    else h.combine(level - 1, EmptyRoot(h, level - 1), EmptyRoot(h, level - 1))
  }

  function Pow2(k: nat): (p: nat)
    ensures p >= 1
  {
    if k == 0 then 1 else 2 * Pow2(k - 1)
  }

  /** Node `i` at height `base` of a tree whose populated prefix at that height is `nodes`. */
  function Get(h: Hasher, nodes: seq<Hash>, base: nat, i: nat): Hash {
    if i < |nodes| then nodes[i] else EmptyRoot(h, base)
  }

  /** THE specification: node `i` at height `base + k` of the tree over `nodes`,
      every position beyond the list being an empty subtree. */
  function NodeAt(h: Hasher, nodes: seq<Hash>, base: nat, k: nat, i: nat): Hash
    decreases k, nodes
  {
    if k == 0 then Get(h, nodes, base, i)
    else h.combine(base + k - 1, NodeAt(h, nodes, base, k - 1, 2 * i), NodeAt(h, nodes, base, k - 1, 2 * i + 1))
  }

  /** An empty root is the root of a subtree of empty leaves, however many of them are written out. */
  lemma {:induction false} EmptyRootIsPadding(h: Hasher, leaves: seq<Hash>, k: nat, i: nat)
    requires forall j :: 0 <= j < |leaves| ==> leaves[j] == h.emptyLeaf
    ensures NodeAt(h, leaves, 0, k, i) == EmptyRoot(h, k)
  {
    if k > 0 {
      EmptyRootIsPadding(h, leaves, k - 1, 2 * i);
      EmptyRootIsPadding(h, leaves, k - 1, 2 * i + 1);
    }
  }

  /** One level of pairing; a last node without partner meets an empty subtree. */
  function HashUp(h: Hasher, nodes: seq<Hash>, level: nat): (up: seq<Hash>)
    ensures |nodes| <= 2 * |up| <= |nodes| + 1
    decreases |nodes|
  {
    if |nodes| == 0 then []
    else if |nodes| == 1 then [h.combine(level, nodes[0], EmptyRoot(h, level))]
    else [h.combine(level, nodes[0], nodes[1])] + HashUp(h, nodes[2..], level)
  }

  lemma {:induction false} HashUpAt(h: Hasher, nodes: seq<Hash>, level: nat, i: nat)
    requires i < |HashUp(h, nodes, level)|
    ensures 2 * i < |nodes|
    ensures HashUp(h, nodes, level)[i] == h.combine(level, nodes[2 * i], Get(h, nodes, level, 2 * i + 1))
    decreases |nodes|
  {
    if i > 0 {
      HashUpAt(h, nodes[2..], level, i - 1);
    }
  }

  lemma {:induction false} EmptyRootCanonical(h: Hasher, level: nat)
    requires Sane(h)
    ensures h.canonical(EmptyRoot(h, level))
  {
    if level > 0 {
      EmptyRootCanonical(h, level - 1);
    }
  }

  lemma {:induction false} NodeCanonical(h: Hasher, nodes: seq<Hash>, base: nat, k: nat, i: nat)
    requires Sane(h) && AllCanonical(h, nodes)
    ensures h.canonical(NodeAt(h, nodes, base, k, i))
  {
    if k == 0 {
      EmptyRootCanonical(h, base);
    } else {
      NodeCanonical(h, nodes, base, k - 1, 2 * i);
      NodeCanonical(h, nodes, base, k - 1, 2 * i + 1);
    }
  }

  lemma HashUpCanonical(h: Hasher, nodes: seq<Hash>, level: nat)
    requires Sane(h) && AllCanonical(h, nodes)
    ensures AllCanonical(h, HashUp(h, nodes, level))
  {
    EmptyRootCanonical(h, level);
    forall i | 0 <= i < |HashUp(h, nodes, level)|
      ensures h.canonical(HashUp(h, nodes, level)[i])
    {
      HashUpAt(h, nodes, level, i);
    }
  }

  lemma HashUpGet(h: Hasher, nodes: seq<Hash>, base: nat, i: nat)
    ensures Get(h, HashUp(h, nodes, base), base + 1, i)
         == h.combine(base, Get(h, nodes, base, 2 * i), Get(h, nodes, base, 2 * i + 1))
  {
    if i < |HashUp(h, nodes, base)| {
      HashUpAt(h, nodes, base, i);
    }
  }

  /** Hashing one level up keeps every higher node. */
  lemma {:induction false} HashUpKeepsNodes(h: Hasher, nodes: seq<Hash>, base: nat, k: nat, i: nat)
    ensures NodeAt(h, HashUp(h, nodes, base), base + 1, k, i) == NodeAt(h, nodes, base, k + 1, i)
    decreases k
  {
    if k == 0 {
      HashUpGet(h, nodes, base, i);
      assert NodeAt(h, nodes, base, 1, i) ==
        h.combine(base, NodeAt(h, nodes, base, 0, 2 * i), NodeAt(h, nodes, base, 0, 2 * i + 1));
    } else {
      HashUpKeepsNodes(h, nodes, base, k - 1, 2 * i);
      HashUpKeepsNodes(h, nodes, base, k - 1, 2 * i + 1);
    }
  }

  /** A node whose span starts beyond the populated prefix is the empty root of its height. */
  lemma {:induction false} NodeBeyondEnd(h: Hasher, nodes: seq<Hash>, base: nat, k: nat, i: nat)
    requires |nodes| <= i * Pow2(k)
    ensures NodeAt(h, nodes, base, k, i) == EmptyRoot(h, base + k)
  {
    if k > 0 {
      SpanSplit(k, i);
      NodeBeyondEnd(h, nodes, base, k - 1, 2 * i);
      NodeBeyondEnd(h, nodes, base, k - 1, 2 * i + 1);
    }
  }

  lemma SpanSplit(k: nat, i: nat)
    requires k > 0
    ensures 2 * i * Pow2(k - 1) == i * Pow2(k)
    ensures (2 * i + 1) * Pow2(k - 1) == i * Pow2(k) + Pow2(k - 1)
  {
    var half := Pow2(k - 1);
    calc {
      i * Pow2(k);
      i * (2 * half);
      2 * i * half;
    }
    assert (2 * i + 1) * half == 2 * i * half + half;
  }

  /** A finished subtree keeps its root however many leaves follow. */
  lemma {:induction false} NodeIsStable(h: Hasher, a: seq<Hash>, b: seq<Hash>, k: nat, i: nat)
    requires a <= b && (i + 1) * Pow2(k) <= |a|
    ensures NodeAt(h, a, 0, k, i) == NodeAt(h, b, 0, k, i)
    decreases k
  {
    if k > 0 {
      SpanSplit(k, i);
      assert (i + 1) * Pow2(k) == i * Pow2(k) + 2 * Pow2(k - 1);
      assert (2 * i + 1 + 1) * Pow2(k - 1) == (2 * i + 1) * Pow2(k - 1) + Pow2(k - 1);
      NodeIsStable(h, a, b, k - 1, 2 * i);
      NodeIsStable(h, a, b, k - 1, 2 * i + 1);
    }
  }

  /** `part` holds, from `first` on, `width` consecutive nodes of height `base` of the tree over `all`. */
  ghost predicate IsPart(h: Hasher, part: seq<Hash>, base: nat, all: seq<Hash>, first: nat, width: nat) {
    forall d: nat :: d < width ==> Get(h, part, base, d) == NodeAt(h, all, 0, base, first + d)
  }

  /** Nodes hashed from an aligned part are nodes of the whole tree: tiers compose. */
  lemma {:induction false} PartNodes(
    h: Hasher, part: seq<Hash>, base: nat, all: seq<Hash>, q: nat, K: nat, l: nat, width: nat, i: nat)
    requires IsPart(h, part, base, all, q * Pow2(K), Pow2(K))
    requires l <= K && width == Pow2(K - l) && i < width
    ensures NodeAt(h, part, base, l, i) == NodeAt(h, all, 0, base + l, q * width + i)
    decreases l
  {
    if l == 0 {
      assert Get(h, part, base, i) == NodeAt(h, all, 0, base, q * Pow2(K) + i);
    } else {
      Doubled(q, width);
      PartNodes(h, part, base, all, q, K, l - 1, 2 * width, 2 * i);
      PartNodes(h, part, base, all, q, K, l - 1, 2 * width, 2 * i + 1);
    }
  }

  lemma Doubled(a: nat, b: nat)
    ensures a * (2 * b) == 2 * (a * b)
  {
  }

  /** The top node of a part that is one whole subtree. */
  lemma PartRoot(h: Hasher, part: seq<Hash>, base: nat, all: seq<Hash>, q: nat, K: nat)
    requires IsPart(h, part, base, all, q * Pow2(K), Pow2(K))
    ensures NodeAt(h, part, base, K, 0) == NodeAt(h, all, 0, base + K, q)
  {
    PartNodes(h, part, base, all, q, K, K, 1, 0);
  }

  // ── Authentication paths ───────────────────────────────────────────

  function SiblingIndex(i: nat): nat {
    if i % 2 == 0 then i + 1 else i - 1
  }

  function Parent(h: Hasher, level: nat, i: nat, node: Hash, sibling: Hash): Hash {
    if i % 2 == 0 then h.combine(level, node, sibling) else h.combine(level, sibling, node)
  }

  lemma ParentOfSiblings(h: Hasher, leaves: seq<Hash>, base: nat, l: nat, i: nat)
    ensures Parent(h, base + l, i, NodeAt(h, leaves, base, l, i), NodeAt(h, leaves, base, l, SiblingIndex(i)))
         == NodeAt(h, leaves, base, l + 1, i / 2)
  {
    if i % 2 == 0 {
      assert i == 2 * (i / 2);
    } else {
      assert i == 2 * (i / 2) + 1;
    }
  }

  /** Hashing a node up through its siblings, the bits of `pos` choosing the side. */
  function FoldPath(h: Hasher, node: Hash, pos: nat, level: nat, siblings: seq<Hash>): Hash
    decreases |siblings|
  {
    if siblings == [] then node
    else
      FoldPath(h, Parent(h, level, pos, node, siblings[0]), pos / 2, level + 1, siblings[1..])
  }

  /** The index of the ancestor `l` levels above node `i`. */
  function Ancestor(i: nat, l: nat): nat {
    if l == 0 then i else Ancestor(i, l - 1) / 2
  }

  /** `siblings` are the true siblings of the ancestors of leaf `pos`, lowest first. */
  ghost predicate IsPath(h: Hasher, leaves: seq<Hash>, pos: nat, siblings: seq<Hash>) {
    forall l: nat :: l < |siblings| ==>
      siblings[l] == NodeAt(h, leaves, 0, l, SiblingIndex(Ancestor(pos, l)))
  }

  /** Ancestors of a position inside an aligned part, level by level. */
  lemma {:induction false} AncestorInside(q: nat, K: nat, idx: nat, l: nat)
    requires l <= K && idx < Pow2(K)
    ensures Ancestor(idx, l) < Pow2(K - l)
    ensures Ancestor(q * Pow2(K) + idx, l) == q * Pow2(K - l) + Ancestor(idx, l)
    decreases l
  {
    if l > 0 {
      AncestorInside(q, K, idx, l - 1);
      Doubled(q, Pow2(K - l));
      assert Pow2(K - (l - 1)) == 2 * Pow2(K - l);
    }
  }

  /** The sibling read off a part is the sibling in the whole tree. */
  lemma PartSibling(h: Hasher, part: seq<Hash>, base: nat, all: seq<Hash>, q: nat, K: nat, idx: nat, l: nat)
    requires IsPart(h, part, base, all, q * Pow2(K), Pow2(K))
    requires l < K && idx < Pow2(K)
    ensures NodeAt(h, part, base, l, SiblingIndex(Ancestor(idx, l)))
         == NodeAt(h, all, 0, base + l, SiblingIndex(Ancestor(q * Pow2(K) + idx, l)))
  {
    AncestorInside(q, K, idx, l);
    var a := Ancestor(idx, l);
    SiblingInside(q, Pow2(K - l - 1), a);
    PartNodes(h, part, base, all, q, K, l, Pow2(K - l), SiblingIndex(a));
  }

  lemma SiblingInside(q: nat, half: nat, a: nat)
    requires a < 2 * half
    ensures SiblingIndex(a) < 2 * half
    ensures SiblingIndex(q * (2 * half) + a) == q * (2 * half) + SiblingIndex(a)
  {
    Doubled(q, half);
    SiblingShift(q * half, a);
  }

  lemma SiblingShift(m: nat, a: nat)
    ensures SiblingIndex(2 * m + a) == 2 * m + SiblingIndex(a)
  {
  }

  /** The sibling at height `base + l` on the way up from node `index` of `nodes`. */
  function TierSibling(h: Hasher, nodes: seq<Hash>, base: nat, index: nat, l: nat): Hash {
    NodeAt(h, nodes, base, l, SiblingIndex(Ancestor(index, l)))
  }

  /** The first `K` siblings lead from node `index` of `nodes` to the top of its tier. */
  ghost predicate TierPath(h: Hasher, nodes: seq<Hash>, base: nat, index: nat, K: nat, siblings: seq<Hash>) {
    && K <= |siblings|
    && forall l: nat :: l < K ==> siblings[l] == TierSibling(h, nodes, base, index, l)
  }

  lemma TierStep(h: Hasher, part: seq<Hash>, base: nat, idx: nat, K: nat, siblings: seq<Hash>, l: nat)
    requires TierPath(h, part, base, idx, K, siblings) && l < K
    ensures Parent(h, base + l, Ancestor(idx, l), NodeAt(h, part, base, l, Ancestor(idx, l)), siblings[l])
         == NodeAt(h, part, base, l + 1, Ancestor(idx, l + 1))
  {
    assert siblings[l] == TierSibling(h, part, base, idx, l);
    ParentOfSiblings(h, part, base, l, Ancestor(idx, l));
  }

  /** The rest of a fold that has climbed `l` levels of a tier; `q` numbers the part. */
  function FoldAt(
    h: Hasher, part: seq<Hash>, base: nat, idx: nat, q: nat, K: nat, siblings: seq<Hash>, l: nat): Hash
    requires l <= K <= |siblings|
  {
    FoldPath(h, NodeAt(h, part, base, l, Ancestor(idx, l)), q * Pow2(K - l) + Ancestor(idx, l), base + l, siblings[l..])
  }

  lemma FoldAtStep(
    h: Hasher, part: seq<Hash>, base: nat, idx: nat, q: nat, K: nat, siblings: seq<Hash>, l: nat)
    requires TierPath(h, part, base, idx, K, siblings) && l < K
    ensures FoldAt(h, part, base, idx, q, K, siblings, l) == FoldAt(h, part, base, idx, q, K, siblings, l + 1)
  {
    var half, a, rest := q * Pow2(K - l - 1), Ancestor(idx, l), siblings[l..];
    assert rest[0] == siblings[l] && rest[1..] == siblings[l + 1..];
    assert q * Pow2(K - l) == 2 * half by { Doubled(q, Pow2(K - l - 1)); }
    TierStep(h, part, base, idx, K, siblings, l);
    FoldStep(h, NodeAt(h, part, base, l, a), half, a, base + l, rest);
  }

  lemma {:induction false} FoldTier(
    h: Hasher, part: seq<Hash>, base: nat, idx: nat, q: nat, K: nat, siblings: seq<Hash>, l: nat)
    requires TierPath(h, part, base, idx, K, siblings) && l <= K
    ensures FoldAt(h, part, base, idx, q, K, siblings, l) == FoldAt(h, part, base, idx, q, K, siblings, K)
    decreases K - l
  {
    if l < K {
      FoldAtStep(h, part, base, idx, q, K, siblings, l);
      FoldTier(h, part, base, idx, q, K, siblings, l + 1);
    }
  }

  /** Folding through one tier arrives at the tier's top node, whatever lies above. */
  lemma FoldWholeTier(
    h: Hasher, part: seq<Hash>, base: nat, idx: nat, q: nat, K: nat, siblings: seq<Hash>, turns: nat)
    requires TierPath(h, part, base, idx, K, siblings) && idx < Pow2(K)
    requires turns == q * Pow2(K) + idx
    ensures FoldPath(h, Get(h, part, base, idx), turns, base, siblings)
         == FoldPath(h, NodeAt(h, part, base, K, 0), q, base + K, siblings[K..])
  {
    FoldTier(h, part, base, idx, q, K, siblings, 0);
    AncestorInside(0, K, idx, K);
    assert siblings[0..] == siblings;
  }

  /** Above an even offset, a position and its offset inside the part take the same turns. */
  lemma FoldStep(h: Hasher, node: Hash, m: nat, a: nat, level: nat, siblings: seq<Hash>)
    requires siblings != []
    ensures FoldPath(h, node, 2 * m + a, level, siblings)
         == FoldPath(h, Parent(h, level, a, node, siblings[0]), m + a / 2, level + 1, siblings[1..])
  {
    assert (2 * m + a) / 2 == m + a / 2;
  }

  lemma {:induction false} AncestorAdd(i: nat, a: nat, b: nat)
    ensures Ancestor(Ancestor(i, a), b) == Ancestor(i, a + b)
  {
    if b > 0 {
      AncestorAdd(i, a, b - 1);
    }
  }

  lemma {:induction false} AncestorIsQuotient(i: nat, l: nat)
    ensures Ancestor(i, l) == i / Pow2(l)
  {
    if l > 0 {
      AncestorIsQuotient(i, l - 1);
      DivDiv(i, Pow2(l - 1));
    }
  }

  // ── Arithmetic ─────────────────────────────────────────────────────

  lemma DivDiv(a: nat, d: nat)
    requires d > 0
    ensures a / (2 * d) == a / d / 2
  {
    var q, bit := a / d / 2, a / d % 2;
    assert a == (a / d) * d + a % d;
    assert (2 * q + bit) * d == q * (2 * d) + bit * d;
    DivUnique(a, 2 * d, q, bit * d + a % d);
  }

  lemma DivUnique(a: nat, d: nat, q: nat, r: nat)
    requires d > 0 && a == q * d + r && r < d
    ensures a / d == q && a % d == r
  {
    var q', r' := a / d, a % d;
    assert a == q' * d + r';
    if q < q' {
      MulGap(q, q', d);
    } else if q' < q {
      MulGap(q', q, d);
    }
  }

  lemma MulGap(x: nat, y: nat, d: nat)
    requires x < y
    ensures x * d + d <= y * d
  {
    calc {
      x * d + d;
      (x + 1) * d;
    <= { MulMono(x + 1, y, d); }
      y * d;
    }
  }

  lemma MulMono(x: nat, y: nat, d: nat)
    requires x <= y
    ensures x * d <= y * d
  {
    assert (y - x) * d >= 0;
    assert y * d == x * d + (y - x) * d;
  }
}
