/**
Runs of the incremental trees against each other and against the dense tree.
*/
module TreesAgree {
  import opened Common
  import opened Merkle
  import opened Spine
  import opened PoolTree
  import opened AspMembership

  function Flatten<T>(pairs: seq<(T, T)>): (leaves: seq<T>)
    ensures |leaves| == 2 * |pairs|
  {
    if pairs == [] then [] else [pairs[0].0, pairs[0].1] + Flatten(pairs[1..])
  }

  lemma {:induction false} FlattenSnoc<T>(pairs: seq<(T, T)>, p: (T, T))
    ensures Flatten(pairs + [p]) == Flatten(pairs) + [p.0, p.1]
  {
    if pairs == [] {
      assert [p][1..] == [];
    } else {
      assert (pairs + [p])[1..] == pairs[1..] + [p];
      FlattenSnoc(pairs[1..], p);
    }
  }

  /** The pool tree and the membership tree are in the same state: same leaves, same root, same
      next index, and the same subtree at every level the pool still has to read. */
  ghost predicate Correspond<T>(pool: MerkleTreeWithHistory<T>, asp: ASPMembership<T>)
    requires pool.Valid() && asp.Valid()
    reads pool, asp
  {
    && pool.initialized && asp.initialized && pool.levels == asp.levels
    && pool.leaves == asp.leaves && pool.nextIndex == asp.nextIndex
    && SameSpine(pool.filledSubtree, asp.filledSubtrees, pool.levels, pool.nextIndex)
    && pool.currentRootIndex in pool.roots && pool.roots[pool.currentRootIndex] == asp.root
  }

  ghost predicate SameEntry<T>(a: map<nat, T>, b: map<nat, T>, n: nat, k: nat) {
    Anc(n, k) % 2 == 1 ==> k in a && k in b && a[k] == b[k]
  }

  ghost predicate SameSpine<T>(a: map<nat, T>, b: map<nat, T>, levels: nat, n: nat) {
    forall k: nat | 1 <= k < levels :: SameEntry(a, b, n, k)
  }

  /** Two valid trees over the same leaves are in the same state. */
  lemma SameLeavesSameState<T>(pool: MerkleTreeWithHistory<T>, asp: ASPMembership<T>)
    requires pool.Valid() && asp.Valid() && pool.initialized && asp.initialized
    requires pool.h == asp.h && pool.zero0 == asp.zero0 && pool.levels == asp.levels && pool.leaves == asp.leaves
    ensures Correspond(pool, asp)
  {
    var n := |pool.leaves|;
    forall k: nat | 1 <= k < pool.levels ensures SameEntry(pool.filledSubtree, asp.filledSubtrees, n, k) {
      assert LevelHolds(pool.h, pool.leaves, pool.zero0, pool.filledSubtree, n, k);
      assert LevelHolds(pool.h, pool.leaves, pool.zero0, asp.filledSubtrees, n, k);
    }
    assert pool.leaves[..2 * (n / 2)] == pool.leaves;
    assert SlotOf(pool.h, pool.leaves, pool.zero0, pool.levels, pool.roots, n / 2);
  }

  predicate PairInField<T>(inField: T -> bool, p: (T, T)) {
    inField(p.0) && inField(p.1)
  }

  /** A pair insert and two single inserts do the same: the tree is full, both leaves are in the
      field, or neither single insert goes through. With `stop`, the second leaf is not tried once
      the first is refused. */
  predicate Alike<T>(inField: T -> bool, p: (T, T), room: bool, stop: bool) {
    !room || PairInField(inField, p) || (!inField(p.0) && (stop || !inField(p.1)))
  }

  /** A pair insert into one tree and two single inserts into the other. */
  method InsertIntoBoth<T(==)>(pool: MerkleTreeWithHistory<T>, asp: ASPMembership<T>, p: (T, T), stop: bool)
    returns (both: bool, first: bool, second: bool)
    requires pool.Valid() && asp.Valid() && pool.initialized && asp.initialized
    requires pool.levels == asp.levels && pool.leaves == asp.leaves && pool.inField == asp.inField
    modifies pool, asp
    ensures pool.Valid() && asp.Valid() && pool.initialized && asp.initialized
    ensures pool.levels == asp.levels == old(pool.levels)
    ensures var room := |old(pool.leaves)| < Pow2(pool.levels);
            && (both <==> room && PairInField(pool.inField, p))
            && (first <==> room && pool.inField(p.0))
            && (second <==> room && pool.inField(p.1) && (first || !stop))
            && (pool.leaves == asp.leaves <==> Alike(pool.inField, p, room, stop))
    ensures pool.leaves == old(pool.leaves) + if both then [p.0, p.1] else []
    ensures asp.leaves == old(pool.leaves) + (if first then [p.0] else []) + (if second then [p.1] else [])
  {
    FullOrRoom(pool.levels, pool.nextIndex);
    var r := pool.InsertTwoLeaves(p.0, p.1);
    var r0 := asp.InsertLeaf(true, p.0);
    both, first, second := r.Ok?, r0.Ok?, false;
    if first || !stop {
      var r1 := asp.InsertLeaf(true, p.1);
      second := r1.Ok?;
    }
    LeavesPart(old(pool.leaves), p, both, first, second);
  }

  lemma LeavesPart<T>(leaves: seq<T>, p: (T, T), both: bool, first: bool, second: bool)
    requires both ==> first && second
    ensures leaves + (if both then [p.0, p.1] else [])
            == leaves + (if first then [p.0] else []) + (if second then [p.1] else [])
            <==> both || (!first && !second)
  {
    var l := leaves + if both then [p.0, p.1] else [];
    var r := leaves + (if first then [p.0] else []) + (if second then [p.1] else []);
    assert |l| == |leaves| + if both then 2 else 0;
    assert |r| == |leaves| + (if first then 1 else 0) + (if second then 1 else 0);
  }

  /** The leaves a pool tree holds after being offered these pairs. */
  function Taken<T>(inField: T -> bool, capacity: nat, leaves: seq<T>, pairs: seq<(T, T)>): seq<T> {
    if pairs == [] then leaves
    else
      var before, p := Taken(inField, capacity, leaves, pairs[..|pairs| - 1]), pairs[|pairs| - 1];
      if |before| < capacity && PairInField(inField, p) then before + [p.0, p.1] else before
  }

  /** One pair insert simulates two single inserts, for runs of any length, exactly as long as the
      two do the same: both trees take the same pairs and stay in the same state, and the run stops
      before the first pair on which they would part. */
  method SimulateRun<T(==)>(pool: MerkleTreeWithHistory<T>, asp: ASPMembership<T>, pairs: seq<(T, T)>, stop: bool)
    returns (done: nat)
    requires pool.Valid() && asp.Valid() && pool.initialized && asp.initialized
    requires pool.h == asp.h && pool.zero0 == asp.zero0 && pool.levels == asp.levels && pool.leaves == asp.leaves
    requires pool.inField == asp.inField
    modifies pool, asp
    ensures pool.Valid() && asp.Valid() && Correspond(pool, asp) && done <= |pairs|
    ensures pool.leaves == Taken(pool.inField, Pow2(pool.levels), old(pool.leaves), pairs[..done])
    ensures done < |pairs| ==> !Alike(pool.inField, pairs[done], |pool.leaves| < Pow2(pool.levels), stop)
    ensures (forall i | 0 <= i < |pairs| :: pool.inField(pairs[i].0) == pool.inField(pairs[i].1)) ==> done == |pairs|
  {
    done := 0;
    while done < |pairs| && Alike(pool.inField, pairs[done], pool.nextIndex < Pow2(pool.levels), stop)
      invariant pool.Valid() && asp.Valid() && pool.initialized && asp.initialized
      invariant pool.levels == asp.levels && pool.leaves == asp.leaves
      invariant done <= |pairs|
      invariant pool.leaves == Taken(pool.inField, Pow2(pool.levels), old(pool.leaves), pairs[..done])
      decreases |pairs| - done
    {
      assert pairs[..done + 1][..done] == pairs[..done];
      var _, _, _ := InsertIntoBoth(pool, asp, pairs[done], stop);
      done := done + 1;
    }
    SameLeavesSameState(pool, asp);
  }

  /** From an empty tree pairs are accepted up to the first one outside the field, and exactly
      `2^(levels-1)` of them if there is none; the newest root is the dense root of the accepted
      leaves padded with the level-0 zero. */
  method RunAgainstDense<T(==)>(h: (T, T) -> T, inField: T -> bool, zero0: T, nought: T, levels: nat, pairs: seq<(T, T)>)
    returns (accepted: nat, newest: T, dense: T)
    requires 1 <= levels <= 32
    ensures accepted <= |pairs| && accepted <= Pow2(levels - 1)
    ensures forall i | 0 <= i < accepted :: PairInField(inField, pairs[i])
    ensures accepted < |pairs| ==> accepted == Pow2(levels - 1) || !PairInField(inField, pairs[accepted])
    ensures newest == dense == NodeAt(h, Flatten(pairs[..accepted]), zero0, levels, 0)
  {
    var pool := new MerkleTreeWithHistory(h, inField, zero0, nought);
    var _ := pool.Init(levels);
    accepted := 0;
    while accepted < |pairs|
      invariant pool.Valid() && pool.initialized && pool.levels == levels && fresh(pool)
      invariant pool.inField == inField
      invariant accepted <= |pairs| && pool.leaves == Flatten(pairs[..accepted])
      invariant forall i | 0 <= i < accepted :: PairInField(inField, pairs[i])
      decreases |pairs| - accepted
    {
      var p := pairs[accepted];
      var r := pool.InsertTwoLeaves(p.0, p.1);
      if r.Err? {
        break;
      }
      FlattenSnoc(pairs[..accepted], p);
      assert pairs[..accepted + 1] == pairs[..accepted] + [p];
      accepted := accepted + 1;
    }
    FullOrRoom(levels, |pool.leaves|);
    var last := pool.GetLastRoot();
    newest := last.value;
    var padded := Padded(Flatten(pairs[..accepted]), zero0, Pow2(levels));
    Ilog2OfPow2(levels);
    dense := MerkleRoot(h, padded, zero0);
    NodeAgree(h, padded, Flatten(pairs[..accepted]), zero0, levels, 0);
  }
}
