/**
The membership contract's incremental tree: one leaf per call, no root history.
*/
module AspMembership {
  import opened Common
  import opened Merkle
  import opened Spine

  datatype Error =
    | NotAuthorized
    | MerkleTreeFull
    | WrongLevels
    | NotInitialized
    | HostPanic // the hash refuses a leaf outside the field and the host rolls the call back

  /** The stored subtrees, root and index agree with the leaves inserted so far. */
  ghost predicate TreeHolds<T>(h: (T, T) -> T, z: T, levels: nat, filled: map<nat, T>, root: T, next: nat, leaves: seq<T>) {
    && 1 <= levels <= 32
    && next == |leaves| <= Pow2(levels)
    && SpineHolds(h, leaves, z, filled, 0, levels, next)
    && root == NodeAt(h, leaves, z, levels, 0)
  }

  /** The path of one new leaf, seen from the leaf itself. */
  lemma NewLeaf<T>(h: (T, T) -> T, leaves: seq<T>, leaf: T, z: T, levels: nat)
    requires |leaves| < Pow2(levels)
    ensures var n, after := |leaves|, leaves + [leaf];
            && leaf == NodeAt(h, after, z, 0, Anc(n, 0)) && Anc(n, levels) == 0
            && SamePath(n, n, 0, levels) && AdjacentPaths(n, n + 1, 0, levels)
  {
    var n := |leaves|;
    var next := n + 1;
    AncBound(n, levels, levels);
    forall k: nat | 0 <= k <= levels ensures Adjacent(n, next, k) {
      AncSuccessor(n, k);
    }
  }

  /** An accepted leaf keeps the storage in step with the leaves. */
  lemma InsertKeepsTree<T>(h: (T, T) -> T, z: T, levels: nat, was: map<nat, T>, now: map<nat, T>,
                           root: T, newRoot: T, next: nat, before: seq<T>, after: seq<T>)
    requires TreeHolds(h, z, levels, was, root, next, before)
    requires next + 1 <= Pow2(levels) && |after| == next + 1 && before <= after
    requires newRoot == NodeAt(h, after, z, levels, 0)
    requires SpineWritten(h, after, z, was, now, 0, levels, next) && AdjacentPaths(next, next + 1, 0, levels)
    ensures TreeHolds(h, z, levels, now, newRoot, next + 1, after)
  {
    SpineKept(h, before, after, z, was, now, 0, levels, next, next + 1);
  }

  class ASPMembership<T(==)> {
    const h: (T, T) -> T
    const inField: T -> bool // what the hash accepts; its own results and the zero table always are
    const zero0: T
    var initialized: bool
    var adminInsertOnly: bool
    var levels: nat
    var filledSubtrees: map<nat, T>
    var zeroes: map<nat, T>
    var root: T
    var nextIndex: nat
    ghost var leaves: seq<T>

    ghost predicate Valid()
      reads this
    {
      initialized ==>
        && IsZeroTable(h, zero0, zeroes, levels)
        && TreeHolds(h, zero0, levels, filledSubtrees, root, nextIndex, leaves)
    }

    constructor (h: (T, T) -> T, inField: T -> bool, zero0: T, levels: nat)
      ensures Valid() && this.h == h && this.inField == inField && this.zero0 == zero0
      ensures initialized <==> 1 <= levels <= 32
      ensures initialized ==> this.levels == levels && leaves == [] && adminInsertOnly
    {
      var table := ZeroTable(h, zero0, levels);
      assert ZeroEntry(h, zero0, table, levels);
      this.h, this.inField, this.zero0, this.levels := h, inField, zero0, levels;
      initialized, adminInsertOnly := 1 <= levels <= 32, true;
      filledSubtrees, zeroes, root, nextIndex, leaves := table, table, table[levels], 0, [];
      EmptySpine(h, zero0, table, 0, levels);
      NodeOfNothing(h, zero0, levels, 0);
    }

    /** Insert one leaf at the next index. The root is the dense root of all leaves so far. */
    method InsertLeaf(adminAuthorized: bool, leaf: T) returns (r: Result<(), Error>)
      requires Valid()
      modifies this
      ensures Valid() && unchanged(`initialized, `levels, `adminInsertOnly)
      ensures r == if adminInsertOnly && !adminAuthorized then Err(NotAuthorized)
                   else if !old(initialized) then Err(NotInitialized)
                   else if |old(leaves)| == Pow2(levels) then Err(MerkleTreeFull)
                   else if !inField(leaf) then Err(HostPanic)
                   else Ok(())
      ensures r.Ok? ==> leaves == old(leaves) + [leaf]
      ensures r.Err? ==> unchanged(this)
    {
      if adminInsertOnly && !adminAuthorized {
        return Err(NotAuthorized);
      }
      if !initialized {
        return Err(NotInitialized);
      }
      if nextIndex >= Pow2(levels) {
        return Err(MerkleTreeFull);
      }
      if !inField(leaf) {
        return Err(HostPanic);
      }
      var n := nextIndex;
      ghost var after := leaves + [leaf];
      NewLeaf(h, leaves, leaf, zero0, levels);
      var currentHash, filled := InsertPath(h, zeroes, filledSubtrees, leaf, n, 0, levels, leaves, after, zero0);
      InsertKeepsTree(h, zero0, levels, filledSubtrees, filled, root, currentHash, n, leaves, after);
      filledSubtrees, root, nextIndex, leaves := filled, currentHash, n + 1, after;
      r := Ok(());
    }
  }
}
