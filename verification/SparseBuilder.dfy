/**
The layered Merkle builder of the payroll end-to-end run: one sparse map per level that holds
only the nodes that differ from the default, updated employee by employee. A node that turns back
into the default is not written, so the builder is right exactly as long as none does.
*/
module SparseBuilder {
  import opened Common
  import opened Merkle

  type Layer<T> = map<nat, T>

  function GetOr<T>(layer: Layer<T>, i: nat, fallback: T): T {
    if i in layer then layer[i] else fallback
  }

  ghost predicate EntryHolds<T>(h: (T, T) -> T, leaves: seq<T>, z: T, layer: Layer<T>, k: nat, i: nat) {
    GetOr(layer, i, ZeroAt(h, z, k)) == NodeAt(h, leaves, z, k, i)
  }

  /** The sparse layer stands for level `k` of the tree. */
  ghost predicate LayerHolds<T>(h: (T, T) -> T, leaves: seq<T>, z: T, layer: Layer<T>, k: nat) {
    forall i: nat :: EntryHolds(h, leaves, z, layer, k, i)
  }

  ghost predicate LayersHold<T>(h: (T, T) -> T, leaves: seq<T>, z: T, layers: seq<Layer<T>>) {
    forall k | 0 <= k < |layers| :: LayerHolds(h, leaves, z, layers[k], k)
  }

  /** The default hash of every level. */
  function Zeros<T>(h: (T, T) -> T, z: T, levels: nat): (zeros: seq<T>)
    ensures |zeros| == levels + 1 && forall k | 0 <= k <= levels :: zeros[k] == ZeroAt(h, z, k)
  {
    seq(levels + 1, k requires k >= 0 => ZeroAt(h, z, k))
  }

  // ---------------------------------------------------------------- what the loop writes

  function Write<T>(layers: seq<Layer<T>>, k: nat, node: nat, hash: T): seq<Layer<T>>
    requires k < |layers|
  {
    var layer: Layer<T> := layers[k][node := hash];
    layers[k := layer]
  }

  /** Walk one node from level `k` to the root, writing it into its layer unless it is the default. */
  function Walk<T(==)>(h: (T, T) -> T, zeros: seq<T>, layers: seq<Layer<T>>, hash: T, node: nat, k: nat)
    : (r: seq<Layer<T>>)
    requires |zeros| == |layers| && k < |layers|
    ensures |r| == |layers|
    decreases |layers| - k
  {
    var written := if hash != zeros[k] then Write(layers, k, node, hash) else layers;
    if k == |layers| - 1 then written
    else
      var sibling := GetOr(written[k], Sibling(node), zeros[k]);
      Walk(h, zeros, written, if node % 2 == 0 then h(hash, sibling) else h(sibling, hash), node / 2, k + 1)
  }

  /** The layers after adding the commitments one by one. */
  function LayersOf<T(==)>(h: (T, T) -> T, zeros: seq<T>, c: seq<T>): (r: seq<Layer<T>>)
    requires |zeros| > 0
    ensures |r| == |zeros|
  {
    if c == [] then seq(|zeros|, _ => map[])
    else Walk(h, zeros, LayersOf(h, zeros, c[..|c| - 1]), c[|c| - 1], |c| - 1, 0)
  }

  /** One layer after one commitment more: the new node of the path, unless it is the default. */
  ghost function Written<T>(h: (T, T) -> T, leaves: seq<T>, leaf: T, z: T, was: Layer<T>, k: nat): Layer<T> {
    var a, hash := Anc(|leaves|, k), NodeAt(h, leaves + [leaf], z, k, Anc(|leaves|, k));
    if hash != ZeroAt(h, z, k) then was[a := hash] else was
  }

  /** Over layers that stand for the tree, the walk hashes the true nodes of the new path. */
  lemma {:induction false} WalkWrites<T>(h: (T, T) -> T, z: T, levels: nat, layers: seq<Layer<T>>,
                                         leaves: seq<T>, leaf: T, k: nat)
    requires |layers| == levels + 1 && k <= levels
    requires forall j | k <= j <= levels :: LayerHolds(h, leaves, z, layers[j], j)
    ensures var r := Walk(h, Zeros(h, z, levels), layers, NodeAt(h, leaves + [leaf], z, k, Anc(|leaves|, k)), Anc(|leaves|, k), k);
            && (forall j | 0 <= j < k :: r[j] == layers[j])
            && (forall j | k <= j <= levels :: r[j] == Written(h, leaves, leaf, z, layers[j], j))
    decreases levels - k
  {
    var n, after, a := |leaves|, leaves + [leaf], Anc(|leaves|, k);
    var hash := NodeAt(h, after, z, k, a);
    var written := if hash != ZeroAt(h, z, k) then Write(layers, k, a, hash) else layers;
    assert written[k] == Written(h, leaves, leaf, z, layers[k], k);
    if k < levels {
      assert EntryHolds(h, leaves, z, layers[k], k, Sibling(a));
      NodeElsewhere(h, leaves, after, z, k, Sibling(a), n);
      NodeFromChild(h, after, z, k, a);
      assert Anc(n, k + 1) == a / 2;
      WalkWrites(h, z, levels, written, leaves, leaf, k + 1);
    }
  }

  // ---------------------------------------------------------------- when it is right

  /** The node of the new path at level `k` does not turn back into the default. */
  ghost predicate Keeps<T>(h: (T, T) -> T, leaves: seq<T>, leaf: T, z: T, k: nat) {
    var a := Anc(|leaves|, k);
    NodeAt(h, leaves + [leaf], z, k, a) == ZeroAt(h, z, k) ==> NodeAt(h, leaves, z, k, a) == ZeroAt(h, z, k)
  }

  ghost predicate StepKeeps<T>(h: (T, T) -> T, leaves: seq<T>, leaf: T, z: T, levels: nat) {
    forall k: nat | k <= levels :: Keeps(h, leaves, leaf, z, k)
  }

  /** No node turns back into the default while the commitments are added. */
  ghost predicate NoneReverts<T>(h: (T, T) -> T, c: seq<T>, z: T, levels: nat) {
    forall m | 0 <= m < |c| :: StepKeeps(h, c[..m], c[m], z, levels)
  }

  /** Writing the new node of the path, or skipping it when it is the default, moves a layer from
      the old leaves to the new ones exactly if the node does not turn back into the default. */
  lemma LayerUpdated<T>(h: (T, T) -> T, leaves: seq<T>, leaf: T, z: T, was: Layer<T>, k: nat)
    requires LayerHolds(h, leaves, z, was, k)
    ensures LayerHolds(h, leaves + [leaf], z, Written(h, leaves, leaf, z, was, k), k) <==> Keeps(h, leaves, leaf, z, k)
  {
    var n, after, now := |leaves|, leaves + [leaf], Written(h, leaves, leaf, z, was, k);
    forall i: nat ensures i != Anc(n, k) ==> EntryHolds(h, after, z, now, k, i) {
      assert EntryHolds(h, leaves, z, was, k, i);
      if i != Anc(n, k) {
        NodeElsewhere(h, leaves, after, z, k, i, n);
      }
    }
    assert EntryHolds(h, leaves, z, was, k, Anc(n, k));
    assert EntryHolds(h, after, z, now, k, Anc(n, k)) <==> Keeps(h, leaves, leaf, z, k);
  }

  /** One commitment keeps the layers right exactly if no node of its path turns back. */
  lemma StepExactly<T>(h: (T, T) -> T, z: T, levels: nat, layers: seq<Layer<T>>, leaves: seq<T>, leaf: T)
    requires |layers| == levels + 1 && LayersHold(h, leaves, z, layers)
    ensures LayersHold(h, leaves + [leaf], z, Walk(h, Zeros(h, z, levels), layers, leaf, |leaves|, 0))
            <==> StepKeeps(h, leaves, leaf, z, levels)
  {
    var r := Walk(h, Zeros(h, z, levels), layers, leaf, |leaves|, 0);
    WalkWrites(h, z, levels, layers, leaves, leaf, 0);
    forall k: nat | k <= levels
      ensures LayerHolds(h, leaves + [leaf], z, r[k], k) <==> Keeps(h, leaves, leaf, z, k)
    {
      LayerUpdated(h, leaves, leaf, z, layers[k], k);
    }
  }

  ghost predicate RightAfter<T>(h: (T, T) -> T, c: seq<T>, z: T, levels: nat, m: nat)
    requires m <= |c|
  {
    LayersHold(h, c[..m], z, LayersOf(h, Zeros(h, z, levels), c[..m]))
  }

  lemma NoLayers<T>(h: (T, T) -> T, z: T, levels: nat)
    ensures LayersHold(h, [], z, LayersOf(h, Zeros(h, z, levels), []))
  {
    forall k, i: nat | 0 <= k <= levels ensures EntryHolds(h, [], z, map[], k, i) {
      NodeOfNothing(h, z, k, i);
    }
  }

  lemma {:induction false} RightUpTo<T>(h: (T, T) -> T, c: seq<T>, z: T, levels: nat, n: nat)
    requires n <= |c|
    ensures (forall m | 0 <= m <= n :: RightAfter(h, c, z, levels, m))
            <==> forall m | 0 <= m < n :: StepKeeps(h, c[..m], c[m], z, levels)
  {
    if n == 0 {
      NoLayers(h, z, levels);
      assert c[..0] == [];
    } else {
      RightUpTo(h, c, z, levels, n - 1);
      if RightAfter(h, c, z, levels, n - 1) {
        RightNext(h, c, z, levels, n - 1);
      }
    }
  }

  lemma RightNext<T>(h: (T, T) -> T, c: seq<T>, z: T, levels: nat, m: nat)
    requires m < |c| && RightAfter(h, c, z, levels, m)
    ensures RightAfter(h, c, z, levels, m + 1) <==> StepKeeps(h, c[..m], c[m], z, levels)
  {
    assert c[..m + 1] == c[..m] + [c[m]] && c[..m + 1][..m] == c[..m];
    StepExactly(h, z, levels, LayersOf(h, Zeros(h, z, levels), c[..m]), c[..m], c[m]);
  }

  /** The layers stand for the tree after every commitment exactly if no node turns back. */
  lemma LayersExactly<T>(h: (T, T) -> T, c: seq<T>, z: T, levels: nat)
    ensures (forall m | 0 <= m <= |c| :: RightAfter(h, c, z, levels, m)) <==> NoneReverts(h, c, z, levels)
  {
    RightUpTo(h, c, z, levels, |c|);
  }

  // ---------------------------------------------------------------- hashes for which it is right

  /** Only the default children hash to the default node above them. */
  ghost predicate UniqueAbove<T(!new)>(h: (T, T) -> T, z: T, k: nat) {
    forall a, b | h(a, b) == ZeroAt(h, z, k + 1) :: a == b == ZeroAt(h, z, k)
  }

  /** So at every level of the tree; a hash over a finite field can meet this. */
  ghost predicate DefaultsUnique<T(!new)>(h: (T, T) -> T, z: T, levels: nat) {
    forall k: nat | k < levels :: UniqueAbove(h, z, k)
  }

  /** Then a default node has only default leaves below it, so adding a leaf can make no node
      default that was not default before. */
  lemma {:induction false} StaysDefault<T(!new)>(h: (T, T) -> T, leaves: seq<T>, leaf: T, z: T, levels: nat, k: nat, i: nat)
    requires DefaultsUnique(h, z, levels) && k <= levels
    requires NodeAt(h, leaves + [leaf], z, k, i) == ZeroAt(h, z, k)
    ensures NodeAt(h, leaves, z, k, i) == ZeroAt(h, z, k)
    decreases k
  {
    if k > 0 {
      assert UniqueAbove(h, z, k - 1);
      StaysDefault(h, leaves, leaf, z, levels, k - 1, 2 * i);
      StaysDefault(h, leaves, leaf, z, levels, k - 1, 2 * i + 1);
    }
  }

  lemma UniqueKeeps<T(!new)>(h: (T, T) -> T, c: seq<T>, z: T, levels: nat)
    requires DefaultsUnique(h, z, levels)
    ensures NoneReverts(h, c, z, levels)
  {
    forall m | 0 <= m < |c| ensures StepKeeps(h, c[..m], c[m], z, levels) {
      forall k: nat | k <= levels ensures Keeps(h, c[..m], c[m], z, k) {
        var a := Anc(m, k);
        if NodeAt(h, c[..m] + [c[m]], z, k, a) == ZeroAt(h, z, k) {
          StaysDefault(h, c[..m], c[m], z, levels, k, a);
        }
      }
    }
  }

  /** A collision-free hash is one. */
  lemma InjectiveIsUnique<T(!new)>(h: (T, T) -> T, z: T, levels: nat)
    requires Injective(h)
    ensures DefaultsUnique(h, z, levels)
  {
  }

  /** A three-element type, on which no hash is collision-free. */
  datatype Three = A | B | C

  function Cycle(a: Three, b: Three): Three {
    if a == A && b == A then B else if a == B && b == B then A else C
  }

  /** Unlike collision-freedom, unique defaults are met by a hash on a finite type, for any number
      of levels. */
  lemma FiniteHashIsUnique(levels: nat)
    ensures DefaultsUnique(Cycle, A, levels) && !Injective(Cycle)
  {
    assert Cycle(A, B) == Cycle(A, C);
    forall k: nat | k < levels ensures UniqueAbove(Cycle, A, k) {
      ZerosAlternate(k);
      ZerosAlternate(k + 1);
    }
  }

  lemma {:induction false} ZerosAlternate(k: nat)
    ensures ZeroAt(Cycle, A, k) == if k % 2 == 0 then A else B
  {
    if k > 0 {
      ZerosAlternate(k - 1);
    }
  }

  // ---------------------------------------------------------------- the builder

  method DefaultHashes<T>(h: (T, T) -> T, z: T, levels: nat) returns (zeros: seq<T>)
    ensures zeros == Zeros(h, z, levels)
  {
    zeros := [z];
    for i := 1 to levels + 1
      invariant |zeros| == i && forall k | 0 <= k < i :: zeros[k] == ZeroAt(h, z, k)
    {
      zeros := zeros + [h(zeros[i - 1], zeros[i - 1])];
    }
  }

  /** The loop that walks one commitment from its leaf to the root, updating the layers. */
  method AddLeaf<T(==)>(h: (T, T) -> T, zeros: seq<T>, was: seq<Layer<T>>, leaf: T, i: nat) returns (layers: seq<Layer<T>>)
    requires |was| == |zeros| > 0
    ensures layers == Walk(h, zeros, was, leaf, i, 0)
  {
    layers := was;
    var nodeIndex, hash: T := i, leaf;
    var k := 0;
    while true
      invariant k < |layers| == |zeros|
      invariant Walk(h, zeros, layers, hash, nodeIndex, k) == Walk(h, zeros, was, leaf, i, 0)
      decreases |zeros| - k
    {
      if hash != zeros[k] {
        layers := Write(layers, k, nodeIndex, hash);
      }
      if k == |zeros| - 1 {
        break;
      }
      var siblingHash := GetOr(layers[k], Sibling(nodeIndex), zeros[k]);
      hash := if nodeIndex % 2 == 0 then h(hash, siblingHash) else h(siblingHash, hash);
      nodeIndex := nodeIndex / 2;
      k := k + 1;
    }
  }

  /** The siblings of one slot, read off the layers. */
  method SlotPath<T>(h: (T, T) -> T, zeros: seq<T>, layers: seq<Layer<T>>, slot: nat, levels: nat,
                     ghost leaves: seq<T>, ghost z: T)
    returns (path: seq<T>)
    requires |layers| == levels + 1 && zeros == Zeros(h, z, levels)
    ensures |path| == levels
    ensures LayersHold(h, leaves, z, layers) ==> IsPath(h, leaves, z, slot, path)
  {
    path := [];
    var nodeIndex := slot;
    for k := 0 to levels
      invariant |path| == k && nodeIndex == Anc(slot, k)
      invariant LayersHold(h, leaves, z, layers) ==> IsPath(h, leaves, z, slot, path)
    {
      var siblingHash := GetOr(layers[k], Sibling(nodeIndex), zeros[k]);
      if LayersHold(h, leaves, z, layers) {
        SiblingRead(h, layers, leaves, z, k, nodeIndex);
        PathSnoc(h, leaves, z, slot, path);
      }
      path := path + [siblingHash];
      nodeIndex := nodeIndex / 2;
    }
  }

  lemma SiblingRead<T>(h: (T, T) -> T, layers: seq<Layer<T>>, leaves: seq<T>, z: T, k: nat, i: nat)
    requires k < |layers| && LayersHold(h, leaves, z, layers)
    ensures GetOr(layers[k], Sibling(i), ZeroAt(h, z, k)) == NodeAt(h, leaves, z, k, Sibling(i))
  {
    assert LayerHolds(h, leaves, z, layers[k], k);
    assert EntryHolds(h, leaves, z, layers[k], k, Sibling(i));
  }

  function Commitments<T>(commit: (nat, nat, nat) -> T, employees: seq<(nat, nat, nat)>): (c: seq<T>)
    ensures |c| == |employees|
    ensures forall i | 0 <= i < |c| :: c[i] == commit(employees[i].0, employees[i].1, employees[i].2)
  {
    seq(|employees|, i requires 0 <= i < |employees| => commit(employees[i].0, employees[i].1, employees[i].2))
  }

  /** The loop over the commitments. */
  method BuildLayers<T(==)>(h: (T, T) -> T, zeros: seq<T>, c: seq<T>) returns (layers: seq<Layer<T>>)
    requires |zeros| > 0
    ensures layers == LayersOf(h, zeros, c)
  {
    layers := seq(|zeros|, _ => map[]);
    assert c[..0] == [];
    for i := 0 to |c|
      invariant layers == LayersOf(h, zeros, c[..i])
    {
      assert c[..i + 1][..i] == c[..i];
      layers := AddLeaf(h, zeros, layers, c[i], i);
    }
    assert c[..|c|] == c;
  }

  /** The root and the path of every slot, padded slots included, are those of the padded tree. */
  ghost predicate IsTreeOf<T>(h: (T, T) -> T, c: seq<T>, z: T, levels: nat, slots: nat, root: T, proofs: seq<(seq<T>, nat)>) {
    && root == NodeAt(h, c, z, levels, 0) && |proofs| == slots
    && forall s | 0 <= s < slots ::
         && |proofs[s].0| == levels && proofs[s].1 == s && IsPath(h, c, z, s, proofs[s].0)
         && Fold(h, LeafAt(c, z, s), proofs[s].0, s) == root
  }

  /** The builder, for any number of levels and slots (the program runs it with ten of each): it
      reads root and paths off the layers, and they are those of the padded tree if no node turns
      back into the default while the commitments are added. */
  method BuildTree<T(==)>(h: (T, T) -> T, commit: (nat, nat, nat) -> T, employees: seq<(nat, nat, nat)>,
                          levels: nat, slots: nat)
    returns (root: T, proofs: seq<(seq<T>, nat)>)
    requires |employees| <= Pow2(levels) && slots <= Pow2(levels)
    ensures var c, z := Commitments(commit, employees), commit(0, 0, 0);
            && root == GetOr(LayersOf(h, Zeros(h, z, levels), c)[levels], 0, ZeroAt(h, z, levels))
            && (NoneReverts(h, c, z, levels) ==> IsTreeOf(h, c, z, levels, slots, root, proofs))
  {
    var z := commit(0, 0, 0);
    var zeros := DefaultHashes(h, z, levels);
    var c := Commitments(commit, employees);
    var layers := BuildLayers(h, zeros, c);
    ghost var right := LayersHold(h, c, z, layers);
    LayersExactly(h, c, z, levels);
    assert c[..|c|] == c;
    assert NoneReverts(h, c, z, levels) ==> RightAfter(h, c, z, levels, |c|);
    root := GetOr(layers[levels], 0, zeros[levels]);
    assert right ==> EntryHolds(h, c, z, layers[levels], levels, 0);
    proofs := [];
    for s := 0 to slots
      invariant right ==> IsTreeOf(h, c, z, levels, s, root, proofs)
    {
      var path := SlotPath(h, zeros, layers, s, levels, c, z);
      if right {
        ProofComplete(h, c, z, s, path);
      }
      proofs := proofs + [(path, s)];
    }
  }

  /** Under the same condition the layered root is the dense root of the commitments padded with
      the zero commitment. */
  method SparseEqualsDense<T(==)>(h: (T, T) -> T, commit: (nat, nat, nat) -> T, employees: seq<(nat, nat, nat)>, levels: nat)
    returns (sparse: T, dense: T)
    requires |employees| <= Pow2(levels)
    ensures var c, z := Commitments(commit, employees), commit(0, 0, 0);
            && dense == NodeAt(h, Padded(c, z, Pow2(levels)), z, levels, 0)
            && (NoneReverts(h, c, z, levels) ==> sparse == dense)
  {
    var c, z := Commitments(commit, employees), commit(0, 0, 0);
    var root, _ := BuildTree(h, commit, employees, levels, 0);
    sparse := root;
    var padded := Padded(c, z, Pow2(levels));
    Ilog2OfPow2(levels);
    dense := MerkleRoot(h, padded, z);
    NodeAgree(h, padded, c, z, levels, 0);
  }

  // ---------------------------------------------------------------- a stale node

  /** A hash under which the pair (1, 2) collides with the pair of defaults. */
  function Colliding(a: nat, b: nat): nat {
    if a == 1 && b == 0 then 6 else 5
  }

  lemma StaleNode()
    ensures !NoneReverts(Colliding, [1, 2], 0, 1)
    ensures GetOr(LayersOf(Colliding, Zeros(Colliding, 0, 1), [1, 2])[1], 0, ZeroAt(Colliding, 0, 1)) == 6
    ensures NodeAt(Colliding, [1, 2], 0, 1, 0) == 5
  {
    var c, zeros := [1, 2], Zeros(Colliding, 0, 1);
    assert zeros == [0, 5];
    assert c[..1] == [1] && [1][..0] == [] && c[..1] + [c[1]] == c;
    var first: seq<Layer<nat>> := [map[0 := 1], map[0 := 6]];
    var none: seq<Layer<nat>> := [map[], map[]];
    assert LayersOf(Colliding, zeros, []) == none;
    assert Write(none, 0, 0, 1) == [map[0 := 1], map[]];
    assert Walk(Colliding, zeros, [map[0 := 1], map[]], 6, 0, 1) == first;
    assert LayersOf(Colliding, zeros, [1]) == Walk(Colliding, zeros, none, 1, 0, 0) == first;
    assert NodeAt(Colliding, [1], 0, 1, 0) == 6;
    assert Anc(1, 1) == 0;
    assert !Keeps(Colliding, c[..1], c[1], 0, 1);
    assert !StepKeeps(Colliding, c[..1], c[1], 0, 1);
    var second: seq<Layer<nat>> := [map[0 := 1, 1 := 2], map[0 := 6]];
    assert LayersOf(Colliding, zeros, c) == second;
  }

  /** The condition is needed: with two commitments whose parent collides with the default, the
      parent written for the first commitment alone is never replaced, and the root is wrong. */
  method StaleRoot() returns (sparse: nat, dense: nat)
    ensures sparse == 6 && dense == 5
  {
    var employees := [(1, 0, 0), (2, 0, 0)];
    var commit := (emp: nat, sal: nat, salt: nat) => emp;
    assert Commitments(commit, employees) == [1, 2];
    StaleNode();
    var root, _ := BuildTree(Colliding, commit, employees, 1, 0);
    sparse := root;
    dense := MerkleRoot(Colliding, [1, 2], 0);
  }

  /** Collision-free hashes exist, so that hypothesis, which binding needs, is not empty: free terms
      are one. */
  datatype Term = Atom(n: nat) | Compress(left: Term, right: Term)

  lemma TermsAreInjective()
    ensures Injective((a: Term, b: Term) => Compress(a, b))
  {
  }
}
