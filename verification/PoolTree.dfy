/**
The pool's incremental Merkle tree: it keeps one filled subtree per level and a ring of the
latest 90 roots, and must agree with the dense tree over everything inserted so far.
*/
module PoolTree {
  import opened Common
  import opened Merkle
  import opened Spine

  const ROOT_HISTORY_SIZE: nat := 90

  datatype Error =
    | AlreadyInitialized
    | WrongLevels
    | MerkleTreeFull
    | NextIndexNotEven
    | NotInitialized
    | HostPanic // the hash refuses a leaf outside the field and the host rolls the call back

  // ---------------------------------------------------------------- the ring

  /** The dense root after the first `j` accepted pairs. */
  ghost function RootAfter<T>(h: (T, T) -> T, leaves: seq<T>, z: T, levels: nat, j: nat): T
    requires 2 * j <= |leaves|
  {
    NodeAt(h, leaves[..2 * j], z, levels, 0)
  }

  /** The root is one of the latest 90, the initial one included. */
  ghost predicate Recent<T>(h: (T, T) -> T, leaves: seq<T>, z: T, levels: nat, root: T)
    requires |leaves| % 2 == 0
  {
    exists j: nat :: |leaves| / 2 - 90 < j <= |leaves| / 2 && root == RootAfter(h, leaves, z, levels, j)
  }

  /** The ring slot of the `j`-th root still holds it. */
  ghost predicate SlotOf<T>(h: (T, T) -> T, leaves: seq<T>, z: T, levels: nat, roots: map<nat, T>, j: nat) {
    2 * j <= |leaves| && j % 90 in roots && roots[j % 90] == RootAfter(h, leaves, z, levels, j)
  }

  /** Every root of the window is in its slot, and no slot is in use that no insert has reached. */
  ghost predicate RingHolds<T>(h: (T, T) -> T, leaves: seq<T>, z: T, levels: nat, roots: map<nat, T>)
    requires |leaves| % 2 == 0
  {
    && (forall j: nat | |leaves| / 2 - 90 < j <= |leaves| / 2 :: SlotOf(h, leaves, z, levels, roots, j))
    && (forall i | i in roots :: i < 90 && i <= |leaves| / 2)
  }

  lemma RingPushed<T>(h: (T, T) -> T, before: seq<T>, after: seq<T>, z: T, levels: nat, roots: map<nat, T>, root: T)
    requires |before| % 2 == 0 && |after| == |before| + 2 && before <= after
    requires RingHolds(h, before, z, levels, roots) && root == NodeAt(h, after, z, levels, 0)
    ensures RingHolds(h, after, z, levels, roots[(|before| / 2 % 90 + 1) % 90 := root])
  {
    var n := |after| / 2;
    var roots' := roots[(|before| / 2 % 90 + 1) % 90 := root];
    assert (|before| / 2 % 90 + 1) % 90 == n % 90;
    forall j: nat | n - 90 < j <= n ensures SlotOf(h, after, z, levels, roots', j) {
      if j == n {
        assert after[..2 * n] == after;
      } else {
        assert SlotOf(h, before, z, levels, roots, j);
        assert after[..2 * j] == before[..2 * j];
        DistinctSlots(n, j);
      }
    }
  }

  lemma DistinctSlots(n: nat, j: nat)
    requires n - 90 < j < n
    ensures j % 90 != n % 90
  {
  }

  /** Every occupied slot of the ring holds a root of the window. */
  lemma RingSlotRecent(n: nat, i: nat) returns (j: nat)
    requires i < 90 && i <= n
    ensures n - 90 < j <= n && j % 90 == i
  {
    j := n - (n - i) % 90;
  }

  ghost predicate SlotHolds<T>(roots: map<nat, T>, i: nat, root: T) {
    i in roots && roots[i] == root
  }

  lemma RingSearchIsRecent<T>(h: (T, T) -> T, leaves: seq<T>, z: T, levels: nat, roots: map<nat, T>, root: T)
    requires |leaves| % 2 == 0 && RingHolds(h, leaves, z, levels, roots)
    ensures (exists i: nat :: i < 90 && SlotHolds(roots, i, root)) <==> Recent(h, leaves, z, levels, root)
  {
    if i: nat :| i < 90 && SlotHolds(roots, i, root) {
      var j := RingSlotRecent(|leaves| / 2, i);
      assert SlotOf(h, leaves, z, levels, roots, j);
      assert root == RootAfter(h, leaves, z, levels, j);
    }
    if Recent(h, leaves, z, levels, root) {
      var j: nat :| |leaves| / 2 - 90 < j <= |leaves| / 2 && root == RootAfter(h, leaves, z, levels, j);
      assert SlotOf(h, leaves, z, levels, roots, j);
      assert SlotHolds(roots, j % 90, root);
    }
  }

  /** The circular search from the current slot visits every slot once and stops. */
  method SearchRing<T(==)>(roots: map<nat, T>, current: nat, root: T) returns (found: bool)
    requires current < ROOT_HISTORY_SIZE
    ensures found <==> exists i: nat :: i < 90 && SlotHolds(roots, i, root)
  {
    var i: nat := current;
    ghost var step: nat := 0;
    while true
      invariant step < 90 && i == if current + step < 90 then current + step else current + step - 90
      invariant forall s: nat | (current <= s < current + step || s < current + step - 90) && s < 90 ::
                  !SlotHolds(roots, s, root)
      decreases 90 - step
    {
      if i in roots && roots[i] == root {
        assert SlotHolds(roots, i, root);
        return true;
      }
      i := (i + 1) % ROOT_HISTORY_SIZE;
      step := step + 1;
      if i == current {
        break;
      }
    }
    return false;
  }

  lemma FirstRoot<T>(h: (T, T) -> T, z: T, levels: nat)
    ensures RingHolds(h, [], z, levels, map[0 := ZeroAt(h, z, levels)])
  {
    NodeOfNothing(h, z, levels, 0);
    var none: seq<T> := [];
    assert none[..0] == none;
  }

  /** The parent of a new pair of sibling leaves, and the path above it. */
  lemma NewPair<T>(h: (T, T) -> T, leaves: seq<T>, a: T, b: T, z: T, levels: nat)
    requires |leaves| % 2 == 0 && 1 <= levels && |leaves| < Pow2(levels)
    ensures var n, after := |leaves|, leaves + [a, b];
            && h(a, b) == NodeAt(h, after, z, 1, Anc(n, 1)) && Anc(n, levels) == 0
            && SamePath(n, n + 1, 1, levels) && AdjacentPaths(n, n + 2, 1, levels)
  {
    var n, after := |leaves|, leaves + [a, b];
    PairAncestors(n, levels);
    AncBound(n, levels, levels);
    NodeFromChild(h, after, z, 0, n);
    assert Anc(n, 1) == Anc(n, 0) / 2 == n / 2;
  }

  /** The stored numbers, subtrees and roots agree with the leaves inserted so far. */
  ghost predicate TreeHolds<T>(h: (T, T) -> T, z: T, levels: nat, filled: map<nat, T>, roots: map<nat, T>,
                               current: nat, next: nat, leaves: seq<T>) {
    && 1 <= levels <= 32
    && next == |leaves| && next % 2 == 0 && next <= Pow2(levels)
    && current == next / 2 % 90
    && SpineHolds(h, leaves, z, filled, 1, levels, next)
    && RingHolds(h, leaves, z, levels, roots)
  }

  /** A tree with an even number of leaves is full or has room for a pair, and a pair's
      indices fit 32 bits. */
  lemma FullOrRoom(levels: nat, next: nat)
    requires 1 <= levels <= 32 && next % 2 == 0 && next <= Pow2(levels)
    ensures next + 2 > Pow2(levels) <==> next == Pow2(levels)
    ensures next < Pow2(levels) ==> next + 1 < 0x1_0000_0000
  {
    Pow2AtMost32(levels);
  }

  /** An accepted pair keeps the storage in step with the leaves. */
  lemma InsertKeepsTree<T>(h: (T, T) -> T, z: T, levels: nat, was: map<nat, T>, now: map<nat, T>, roots: map<nat, T>,
                           root: T, current: nat, next: nat, before: seq<T>, after: seq<T>)
    requires TreeHolds(h, z, levels, was, roots, current, next, before)
    requires next + 2 <= Pow2(levels) && |after| == next + 2 && before <= after
    requires root == NodeAt(h, after, z, levels, 0)
    requires SpineWritten(h, after, z, was, now, 1, levels, next) && AdjacentPaths(next, next + 2, 1, levels)
    ensures var rootIndex := (current + 1) % ROOT_HISTORY_SIZE;
            TreeHolds(h, z, levels, now, roots[rootIndex := root], rootIndex, next + 2, after)
  {
    var rootIndex := (current + 1) % ROOT_HISTORY_SIZE;
    assert SpineHolds(h, after, z, now, 1, levels, next + 2) by {
      SpineKept(h, before, after, z, was, now, 1, levels, next, next + 2);
    }
    assert RingHolds(h, after, z, levels, roots[rootIndex := root]) by {
      RingPushed(h, before, after, z, levels, roots, root);
    }
    NextSlot(next);
  }

  lemma NextSlot(next: nat)
    requires next % 2 == 0
    ensures (next + 2) / 2 % 90 == (next / 2 % 90 + 1) % 90
  {
  }

  // ---------------------------------------------------------------- the storage

  class MerkleTreeWithHistory<T(==)> {
    const h: (T, T) -> T
    const inField: T -> bool // what the hash accepts; its own results and the zero table always are
    const zero0: T    // the level-0 entry of the zero table
    const nought: T   // the field zero, never a valid root
    var initialized: bool
    var levels: nat
    var filledSubtree: map<nat, T>
    var zeroes: map<nat, T>
    var roots: map<nat, T>
    var currentRootIndex: nat
    var nextIndex: nat
    ghost var leaves: seq<T>

    ghost predicate Valid()
      reads this
    {
      initialized ==>
        && IsZeroTable(h, zero0, zeroes, levels)
        && TreeHolds(h, zero0, levels, filledSubtree, roots, currentRootIndex, nextIndex, leaves)
    }

    constructor (h: (T, T) -> T, inField: T -> bool, zero0: T, nought: T)
      ensures Valid() && !initialized
      ensures this.h == h && this.inField == inField && this.zero0 == zero0 && this.nought == nought
    {
      this.h, this.inField, this.zero0, this.nought := h, inField, zero0, nought;
      initialized := false;
      levels, currentRootIndex, nextIndex := 0, 0, 0;
      filledSubtree, zeroes, roots, leaves := map[], map[], map[], [];
    }

    method Init(levels: nat) returns (r: Result<(), Error>)
      requires Valid()
      modifies this
      ensures Valid()
      ensures r == if levels == 0 || levels > 32 then Err(WrongLevels)
                   else if old(initialized) then Err(AlreadyInitialized)
                   else Ok(())
      ensures r.Ok? ==> initialized && this.levels == levels && leaves == []
      ensures r.Err? ==> unchanged(this)
    {
      if levels == 0 || levels > 32 {
        return Err(WrongLevels);
      }
      if initialized {
        return Err(AlreadyInitialized);
      }
      var table := ZeroTable(h, zero0, levels);
      assert ZeroEntry(h, zero0, table, levels);
      this.levels, zeroes, filledSubtree := levels, table, table;
      roots, currentRootIndex, nextIndex, leaves := map[0 := table[levels]], 0, 0, [];
      initialized := true;
      EmptySpine(h, zero0, filledSubtree, 1, levels);
      NodeOfNothing(h, zero0, levels, 0);
      FirstRoot(h, zero0, levels);
      r := Ok(());
    }

    /** The writes of an accepted pair: the path above it, a new root and the next index. */
    method AppendPair(leaf1: T, leaf2: T)
      requires Valid() && initialized && nextIndex + 2 <= Pow2(levels)
      modifies this`filledSubtree, this`roots, this`currentRootIndex, this`nextIndex, this`leaves
      ensures Valid() && leaves == old(leaves) + [leaf1, leaf2]
    {
      var n := nextIndex;
      ghost var after := leaves + [leaf1, leaf2];
      NewPair(h, leaves, leaf1, leaf2, zero0, levels);
      var currentHash, filled := InsertPath(h, zeroes, filledSubtree, h(leaf1, leaf2), n, 1, levels, leaves, after, zero0);
      var rootIndex := (currentRootIndex + 1) % ROOT_HISTORY_SIZE;
      var newRoots := roots[rootIndex := currentHash];
      InsertKeepsTree(h, zero0, levels, filledSubtree, filled, roots, currentHash, currentRootIndex, n, leaves, after);
      filledSubtree, roots, currentRootIndex, nextIndex, leaves := filled, newRoots, rootIndex, n + 2, after;
    }

    /** Insert two leaves as siblings. The newest root is the dense root of all leaves so far. */
    method InsertTwoLeaves(leaf1: T, leaf2: T) returns (r: Result<(nat, nat), Error>)
      requires Valid()
      modifies this
      ensures Valid() && initialized == old(initialized) && levels == old(levels)
      ensures r == if !old(initialized) then Err(NotInitialized)
                   else if |old(leaves)| == Pow2(levels) then Err(MerkleTreeFull)
                   else if !inField(leaf1) || !inField(leaf2) then Err(HostPanic)
                   else Ok((|old(leaves)|, |old(leaves)| + 1))
      ensures r.Ok? ==> leaves == old(leaves) + [leaf1, leaf2] && r.value.1 < 0x1_0000_0000
      ensures r.Err? ==> unchanged(this)
    {
      if !initialized {
        return Err(NotInitialized);
      }
      if nextIndex % 2 != 0 {
        return Err(NextIndexNotEven);
      }
      FullOrRoom(levels, nextIndex);
      if nextIndex + 2 > Pow2(levels) {
        return Err(MerkleTreeFull);
      }
      if !inField(leaf1) || !inField(leaf2) {
        return Err(HostPanic);
      }
      var n := nextIndex;
      AppendPair(leaf1, leaf2);
      r := Ok((n, n + 1));
    }

    /** The ring search: exactly the latest 90 roots are known, and zero never is. */
    method IsKnownRoot(root: T) returns (r: Result<bool, Error>)
      requires Valid()
      ensures r == if root == nought then Ok(false)
                   else if !initialized then Err(NotInitialized)
                   else Ok(Recent(h, leaves, zero0, levels, root))
    {
      if root == nought {
        return Ok(false);
      }
      if !initialized {
        return Err(NotInitialized);
      }
      var found := SearchRing(roots, currentRootIndex, root);
      RingSearchIsRecent(h, leaves, zero0, levels, roots, root);
      return Ok(found);
    }

    method GetLastRoot() returns (r: Result<T, Error>)
      requires Valid()
      ensures r == if !initialized then Err(NotInitialized)
                   else Ok(NodeAt(h, leaves, zero0, levels, 0))
    {
      if !initialized {
        return Err(NotInitialized);
      }
      assert leaves[..2 * (|leaves| / 2)] == leaves;
      assert SlotOf(h, leaves, zero0, levels, roots, |leaves| / 2);
      r := Ok(roots[currentRootIndex]);
    }
  }
}
