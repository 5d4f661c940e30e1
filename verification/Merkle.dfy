/**
The one mathematical object behind four algorithms: the complete binary hash tree over a list
of leaves padded with a default leaf, and the dense code that builds its root and its proofs.
The compression function `h` is arbitrary; injectivity is assumed only where binding needs it.
*/
module Merkle {
  import opened Common

  function LeafAt<T>(leaves: seq<T>, z: T, i: nat): T {
    if i < |leaves| then leaves[i] else z
  }

  /** The hash at height `k`, position `i`, of the tree over `leaves` padded with `z`. */
  function NodeAt<T>(h: (T, T) -> T, leaves: seq<T>, z: T, k: nat, i: nat): T
    decreases k
  {
    if k == 0 then LeafAt(leaves, z, i)
    else h(NodeAt(h, leaves, z, k - 1, 2 * i), NodeAt(h, leaves, z, k - 1, 2 * i + 1))
  }

  /** The hash of an all-default subtree of height `k`. */
  function ZeroAt<T>(h: (T, T) -> T, z: T, k: nat): T {
    if k == 0 then z else h(ZeroAt(h, z, k - 1), ZeroAt(h, z, k - 1))
  }

  /** The position at height `k` above leaf `i`. */
  function Anc(i: nat, k: nat): nat {
    if k == 0 then i else Anc(i, k - 1) / 2
  }

  function Sibling(i: nat): nat {
    if i % 2 == 0 then i + 1 else i - 1
  }

  // ---------------------------------------------------------------- positions

  lemma {:induction false} AncBound(i: nat, k: nat, levels: nat)
    requires k <= levels && i < Pow2(levels)
    ensures Anc(i, k) < Pow2(levels - k)
  {
    if k > 0 {
      AncBound(i, k - 1, levels);
    }
  }

  lemma {:induction false} AncHalf(i: nat, k: nat)
    requires k > 0
    ensures Anc(i, k) == Anc(i / 2, k - 1)
  {
    if k > 1 {
      AncHalf(i, k - 1);
    }
  }

  lemma {:induction false} AncSuccessor(i: nat, k: nat)
    ensures Anc(i, k) <= Anc(i + 1, k) <= Anc(i, k) + 1
  {
    if k > 0 {
      AncSuccessor(i, k - 1);
    }
  }

  // ---------------------------------------------------------------- locality

  /** To the right of the last leaf there are only default subtrees. */
  lemma {:induction false} NodeRight<T>(h: (T, T) -> T, leaves: seq<T>, z: T, k: nat, i: nat, n: nat)
    requires |leaves| <= n + 1 && i > Anc(n, k)
    ensures NodeAt(h, leaves, z, k, i) == ZeroAt(h, z, k)
    decreases k
  {
    if k > 0 {
      NodeRight(h, leaves, z, k - 1, 2 * i, n);
      NodeRight(h, leaves, z, k - 1, 2 * i + 1, n);
    }
  }

  /** To the left of leaf `n` only the leaves before `n` matter. */
  lemma {:induction false} NodeLeft<T>(h: (T, T) -> T, a: seq<T>, b: seq<T>, z: T, k: nat, i: nat, n: nat)
    requires forall j: nat | j < n :: LeafAt(a, z, j) == LeafAt(b, z, j)
    requires i < Anc(n, k)
    ensures NodeAt(h, a, z, k, i) == NodeAt(h, b, z, k, i)
    decreases k
  {
    if k > 0 {
      NodeLeft(h, a, b, z, k - 1, 2 * i, n);
      NodeLeft(h, a, b, z, k - 1, 2 * i + 1, n);
    }
  }

  /** Changing leaf `n` changes only the nodes above it. */
  lemma {:induction false} NodeElsewhere<T>(h: (T, T) -> T, a: seq<T>, b: seq<T>, z: T, k: nat, i: nat, n: nat)
    requires forall j: nat | j != n :: LeafAt(a, z, j) == LeafAt(b, z, j)
    requires i != Anc(n, k)
    ensures NodeAt(h, a, z, k, i) == NodeAt(h, b, z, k, i)
    decreases k
  {
    if k > 0 {
      NodeElsewhere(h, a, b, z, k - 1, 2 * i, n);
      NodeElsewhere(h, a, b, z, k - 1, 2 * i + 1, n);
    }
  }

  /** The tree depends on the padded leaves only. */
  lemma {:induction false} NodeAgree<T>(h: (T, T) -> T, a: seq<T>, b: seq<T>, z: T, k: nat, i: nat)
    requires forall j: nat :: LeafAt(a, z, j) == LeafAt(b, z, j)
    ensures NodeAt(h, a, z, k, i) == NodeAt(h, b, z, k, i)
    decreases k
  {
    if k > 0 {
      NodeAgree(h, a, b, z, k - 1, 2 * i);
      NodeAgree(h, a, b, z, k - 1, 2 * i + 1);
    }
  }

  lemma {:induction false} NodeOfNothing<T>(h: (T, T) -> T, z: T, k: nat, i: nat)
    ensures NodeAt(h, [], z, k, i) == ZeroAt(h, z, k)
    decreases k
  {
    if k > 0 {
      NodeOfNothing(h, z, k - 1, 2 * i);
      NodeOfNothing(h, z, k - 1, 2 * i + 1);
    }
  }

  predicate SameLeaf<T(==)>(a: seq<T>, b: seq<T>, z: T, x: nat, y: nat, m: nat) {
    LeafAt(a, z, x + m) == LeafAt(b, z, y + m)
  }

  /** The `n` leaves from `x` on in one list are the `n` leaves from `y` on in the other. */
  predicate SameLeaves<T(==)>(a: seq<T>, b: seq<T>, z: T, x: nat, y: nat, n: nat) {
    forall m: nat | m < n :: SameLeaf(a, b, z, x, y, m)
  }

  lemma SameHalves<T>(a: seq<T>, b: seq<T>, z: T, x: nat, y: nat, p: nat)
    requires SameLeaves(a, b, z, x, y, 2 * p)
    ensures SameLeaves(a, b, z, x, y, p) && SameLeaves(a, b, z, x + p, y + p, p)
  {
    var u, w := x + p, y + p;
    forall m: nat | m < p ensures SameLeaf(a, b, z, u, w, m) {
      assert SameLeaf(a, b, z, x, y, p + m);
      assert x + (p + m) == u + m && y + (p + m) == w + m;
    }
  }

  lemma ChildStart(i: nat, p: nat)
    ensures (2 * i) * p == i * (2 * p) && (2 * i + 1) * p == i * (2 * p) + p
  {
  }

  /** A node depends only on the `2^k` leaves below it, wherever they stand. */
  lemma {:induction false} NodeBelow<T>(h: (T, T) -> T, a: seq<T>, b: seq<T>, z: T, k: nat, i: nat, j: nat,
                                        x: nat, y: nat)
    requires x == i * Pow2(k) && y == j * Pow2(k) && SameLeaves(a, b, z, x, y, Pow2(k))
    ensures NodeAt(h, a, z, k, i) == NodeAt(h, b, z, k, j)
    decreases k
  {
    if k == 0 {
      assert SameLeaf(a, b, z, x, y, 0);
    } else {
      var p := Pow2(k - 1);
      SameHalves(a, b, z, x, y, p);
      ChildStart(i, p);
      ChildStart(j, p);
      NodeBelow(h, a, b, z, k - 1, 2 * i, 2 * j, x, y);
      NodeBelow(h, a, b, z, k - 1, 2 * i + 1, 2 * j + 1, x + p, y + p);
    }
  }

  /** The root of one leaf is the leaf, and the root of twice `2^k` leaves is the hash of the roots
      of the two halves, the left one first. */
  lemma RootOfHalves<T>(h: (T, T) -> T, left: seq<T>, right: seq<T>, z: T, k: nat)
    requires |left| == |right| == Pow2(k)
    ensures k == 0 ==> NodeAt(h, left, z, k, 0) == left[0]
    ensures NodeAt(h, left + right, z, k + 1, 0) == h(NodeAt(h, left, z, k, 0), NodeAt(h, right, z, k, 0))
  {
    var all, n := left + right, Pow2(k);
    assert SameLeaves(all, left, z, 0, 0, n);
    assert SameLeaves(all, right, z, n, 0, n);
    NodeBelow(h, all, left, z, k, 0, 0, 0, 0);
    NodeBelow(h, all, right, z, k, 1, 0, n, 0);
  }

  /** A parent read from either child's point of view. */
  lemma NodeFromChild<T>(h: (T, T) -> T, leaves: seq<T>, z: T, k: nat, i: nat)
    ensures NodeAt(h, leaves, z, k + 1, i / 2)
            == if i % 2 == 1 then h(NodeAt(h, leaves, z, k, Sibling(i)), NodeAt(h, leaves, z, k, i))
               else h(NodeAt(h, leaves, z, k, i), NodeAt(h, leaves, z, k, Sibling(i)))
  {
    assert 2 * (i / 2) + i % 2 == i;
  }

  // ---------------------------------------------------------------- proofs

  /** Fold a leaf up a path, the low bit of `index` saying which side it is on. */
  function Fold<T>(h: (T, T) -> T, x: T, path: seq<T>, index: nat): T
    decreases |path|
  {
    if path == [] then x
    else Fold(h, if index % 2 == 1 then h(path[0], x) else h(x, path[0]), path[1..], index / 2)
  }

  /** `path` lists the siblings of leaf `index` from the leaf level up. */
  ghost predicate IsPath<T>(h: (T, T) -> T, leaves: seq<T>, z: T, index: nat, path: seq<T>) {
    forall k | 0 <= k < |path| :: path[k] == NodeAt(h, leaves, z, k, Sibling(Anc(index, k)))
  }

  lemma PathSnoc<T>(h: (T, T) -> T, leaves: seq<T>, z: T, index: nat, path: seq<T>)
    requires IsPath(h, leaves, z, index, path)
    ensures IsPath(h, leaves, z, index, path + [NodeAt(h, leaves, z, |path|, Sibling(Anc(index, |path|)))])
  {
  }

  lemma {:induction false} PathFolds<T>(h: (T, T) -> T, leaves: seq<T>, z: T, index: nat, path: seq<T>, k: nat)
    requires IsPath(h, leaves, z, index, path) && k <= |path|
    ensures Fold(h, NodeAt(h, leaves, z, k, Anc(index, k)), path[k..], Anc(index, k))
            == NodeAt(h, leaves, z, |path|, Anc(index, |path|))
    decreases |path| - k
  {
    if k < |path| {
      NodeFromChild(h, leaves, z, k, Anc(index, k));
      assert path[k..][1..] == path[k + 1..];
      PathFolds(h, leaves, z, index, path, k + 1);
    }
  }

  /** Completeness: the path of a leaf folds to the root. */
  lemma ProofComplete<T>(h: (T, T) -> T, leaves: seq<T>, z: T, index: nat, path: seq<T>)
    requires IsPath(h, leaves, z, index, path) && index < Pow2(|path|)
    ensures Fold(h, LeafAt(leaves, z, index), path, index) == NodeAt(h, leaves, z, |path|, 0)
  {
    AncBound(index, |path|, |path|);
    PathFolds(h, leaves, z, index, path, 0);
    assert path[0..] == path;
  }

  ghost predicate Injective<T(!new)>(h: (T, T) -> T) {
    forall a, b, c, d :: h(a, b) == h(c, d) ==> a == c && b == d
  }

  lemma {:induction false} FoldInjective<T(!new)>(h: (T, T) -> T, x: T, y: T, p: seq<T>, q: seq<T>, index: nat)
    requires Injective(h) && |p| == |q|
    requires Fold(h, x, p, index) == Fold(h, y, q, index)
    ensures x == y && p == q
    decreases |p|
  {
    if p != [] {
      FoldInjective(h, if index % 2 == 1 then h(p[0], x) else h(x, p[0]),
                    if index % 2 == 1 then h(q[0], y) else h(y, q[0]), p[1..], q[1..], index / 2);
      assert p == [p[0]] + p[1..] && q == [q[0]] + q[1..];
    }
  }

  /** Binding: under a collision-free hash, only the leaf at `index` and only its own path fold
      to the root from that index. */
  lemma ProofBinding<T(!new)>(h: (T, T) -> T, leaves: seq<T>, z: T, index: nat, levels: nat, x: T, path: seq<T>)
    requires Injective(h) && |path| == levels && index < Pow2(levels)
    requires Fold(h, x, path, index) == NodeAt(h, leaves, z, levels, 0)
    ensures x == LeafAt(leaves, z, index) && IsPath(h, leaves, z, index, path)
  {
    var honest := seq(levels, k requires 0 <= k < levels => NodeAt(h, leaves, z, k, Sibling(Anc(index, k))));
    ProofComplete(h, leaves, z, index, honest);
    FoldInjective(h, x, LeafAt(leaves, z, index), path, honest, index);
  }

  /** Under a collision-free hash equal nodes have equal leaves below them. */
  lemma {:induction false} NodeBinds<T(!new)>(h: (T, T) -> T, a: seq<T>, b: seq<T>, z: T, k: nat, i: nat, j: nat)
    requires Injective(h) && NodeAt(h, a, z, k, i) == NodeAt(h, b, z, k, i) && Anc(j, k) == i
    ensures LeafAt(a, z, j) == LeafAt(b, z, j)
    decreases k
  {
    if k > 0 {
      NodeBinds(h, a, b, z, k - 1, Anc(j, k - 1), j);
    }
  }

  // ---------------------------------------------------------------- the dense code

  function Ilog2(n: nat): nat
    requires n > 0
  {
    if n == 1 then 0 else 1 + Ilog2(n / 2)
  }

  predicate IsPowerOfTwo(n: nat) {
    n > 0 && n == Pow2(Ilog2(n))
  }

  lemma {:induction false} Ilog2OfPow2(n: nat)
    ensures Ilog2(Pow2(n)) == n && IsPowerOfTwo(Pow2(n))
  {
    if n > 0 {
      Ilog2OfPow2(n - 1);
    }
  }

  /** Hash adjacent pairs: one level up. */
  method HashPairs<T>(h: (T, T) -> T, nodes: seq<T>) returns (next: seq<T>)
    ensures |next| == |nodes| / 2
    ensures forall i | 0 <= i < |next| :: next[i] == h(nodes[2 * i], nodes[2 * i + 1])
  {
    next := [];
    for i := 0 to |nodes| / 2
      invariant |next| == i
      invariant forall j | 0 <= j < i :: next[j] == h(nodes[2 * j], nodes[2 * j + 1])
    {
      next := next + [h(nodes[2 * i], nodes[2 * i + 1])];
    }
  }

  /** `nodes` is the whole level `k` of a tree with `levels` levels. */
  ghost predicate IsLevel<T>(h: (T, T) -> T, leaves: seq<T>, z: T, levels: nat, k: nat, nodes: seq<T>) {
    && k <= levels && |nodes| == Pow2(levels - k)
    && forall i | 0 <= i < |nodes| :: nodes[i] == NodeAt(h, leaves, z, k, i)
  }

  lemma NextLevel<T>(h: (T, T) -> T, leaves: seq<T>, z: T, levels: nat, k: nat, nodes: seq<T>, next: seq<T>)
    requires IsLevel(h, leaves, z, levels, k, nodes) && k < levels && |next| == |nodes| / 2
    requires forall i | 0 <= i < |next| :: next[i] == h(nodes[2 * i], nodes[2 * i + 1])
    ensures IsLevel(h, leaves, z, levels, k + 1, next)
    ensures |nodes| == 2 * |next|
  {
  }

  method MerkleRoot<T>(h: (T, T) -> T, leaves: seq<T>, ghost z: T) returns (root: T)
    requires IsPowerOfTwo(|leaves|)
    ensures root == NodeAt(h, leaves, z, Ilog2(|leaves|), 0)
  {
    var nodes := leaves;
    ghost var k, levels := 0, Ilog2(|leaves|);
    while |nodes| > 1
      invariant IsLevel(h, leaves, z, levels, k, nodes)
      decreases |nodes|
    {
      var next := HashPairs(h, nodes);
      NextLevel(h, leaves, z, levels, k, nodes, next);
      nodes := next;
      k := k + 1;
    }
    root := nodes[0];
  }

  /** The value of the bits `b[0..]`, least significant first: what or-ing `b[i] << i` into a
      zero word builds. */
  function BitsValue(b: seq<nat>): nat {
    if b == [] then 0 else b[0] + 2 * BitsValue(b[1..])
  }

  lemma {:induction false} BitsValueSnoc(b: seq<nat>, x: nat)
    ensures BitsValue(b + [x]) == BitsValue(b) + Pow2(|b|) * x
  {
    if b == [] {
      assert [x][1..] == [];
    } else {
      assert (b + [x])[1..] == b[1..] + [x];
      BitsValueSnoc(b[1..], x);
      assert Pow2(|b|) * x == 2 * (Pow2(|b| - 1) * x);
    }
  }

  ghost predicate ArePathBits(index: nat, b: seq<nat>) {
    forall j | 0 <= j < |b| :: b[j] == Anc(index, j) % 2
  }

  lemma PathBitsSnoc(index: nat, b: seq<nat>)
    requires ArePathBits(index, b)
    ensures ArePathBits(index, b + [Anc(index, |b|) % 2])
  {
  }

  lemma {:induction false} BitsOfIndex(b: seq<nat>, index: nat)
    requires index < Pow2(|b|) && ArePathBits(index, b)
    ensures BitsValue(b) == index
    decreases |b|
  {
    if b != [] {
      forall j | 0 <= j < |b| - 1 ensures b[1..][j] == Anc(index / 2, j) % 2 {
        AncHalf(index, j + 1);
      }
      BitsOfIndex(b[1..], index / 2);
    }
  }

  method EncodeBits(bits: seq<nat>) returns (value: nat)
    requires forall j | 0 <= j < |bits| :: bits[j] <= 1
    ensures value == BitsValue(bits)
  {
    value := 0;
    for i := 0 to |bits|
      invariant value == BitsValue(bits[..i]) < Pow2(i)
    {
      BitsValueSnoc(bits[..i], bits[i]);
      assert bits[..i] + [bits[i]] == bits[..i + 1];
      // bit `i` of `value` is still clear, so the bitwise or is an addition
      value := value + Pow2(i) * bits[i];
    }
    assert bits[..|bits|] == bits;
  }

  /** The path of leaf `index` and the index itself, re-encoded from its path bits. */
  method MerkleProof<T>(h: (T, T) -> T, leaves: seq<T>, index: nat, ghost z: T)
    returns (path: seq<T>, pathIndices: nat, levels: nat)
    requires IsPowerOfTwo(|leaves|) && index < |leaves|
    ensures levels == Ilog2(|leaves|) && |path| == levels && pathIndices == index
    ensures IsPath(h, leaves, z, index, path)
    ensures Fold(h, leaves[index], path, pathIndices) == NodeAt(h, leaves, z, levels, 0)
  {
    var nodes, idx := leaves, index;
    levels := Ilog2(|leaves|);
    path := [];
    var bits: seq<nat> := [];
    for k := 0 to levels
      invariant IsLevel(h, leaves, z, levels, k, nodes) && |path| == |bits| == k
      invariant idx == Anc(index, k) && idx < |nodes|
      invariant IsPath(h, leaves, z, index, path)
      invariant ArePathBits(index, bits)
    {
      var next := HashPairs(h, nodes);
      NextLevel(h, leaves, z, levels, k, nodes, next);
      assert Sibling(idx) < |nodes|;
      PathSnoc(h, leaves, z, index, path);
      PathBitsSnoc(index, bits);
      path := path + [nodes[Sibling(idx)]];
      bits := bits + [idx % 2];
      nodes := next;
      idx := idx / 2;
    }
    BitsOfIndex(bits, index);
    pathIndices := EncodeBits(bits);
    ProofComplete(h, leaves, z, index, path);
  }

  /** `leaves` padded with the default leaf to `n` entries. */
  function Padded<T>(leaves: seq<T>, z: T, n: nat): (p: seq<T>)
    requires |leaves| <= n
    ensures |p| == n && forall j: nat | j < n :: p[j] == LeafAt(leaves, z, j)
  {
    leaves + seq(n - |leaves|, _ => z)
  }
}
