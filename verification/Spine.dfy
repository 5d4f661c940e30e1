/**
The incremental insert shared by the pool and the membership contract: one hash per level,
reading a stored left subtree where the path turns right and storing one where it turns left.
*/
module Spine {
  import opened Merkle

  /** If the path of position `n` turns right at level `k`, the left subtree there is stored. */
  ghost predicate LevelHolds<T>(h: (T, T) -> T, leaves: seq<T>, z: T, filled: map<nat, T>, n: nat, k: nat) {
    var a := Anc(n, k);
    a % 2 == 1 ==> k in filled && filled[k] == NodeAt(h, leaves, z, k, a - 1)
  }

  /** Everything an insert at position `n` will read, from level `low` up, is stored. */
  ghost predicate SpineHolds<T>(h: (T, T) -> T, leaves: seq<T>, z: T, filled: map<nat, T>, low: nat, levels: nat, n: nat) {
    forall k: nat | low <= k < levels :: LevelHolds(h, leaves, z, filled, n, k)
  }

  ghost predicate ZeroEntry<T>(h: (T, T) -> T, z: T, zeroes: map<nat, T>, k: nat) {
    k in zeroes && zeroes[k] == ZeroAt(h, z, k)
  }

  ghost predicate IsZeroTable<T>(h: (T, T) -> T, z: T, zeroes: map<nat, T>, levels: nat) {
    forall k: nat | k <= levels :: ZeroEntry(h, z, zeroes, k)
  }

  /** The positions above `n` and above `next` are the same or adjacent at every level. */
  ghost predicate Adjacent(n: nat, next: nat, k: nat) {
    Anc(n, k) <= Anc(next, k) <= Anc(n, k) + 1
  }

  ghost predicate AdjacentPaths(n: nat, next: nat, low: nat, levels: nat) {
    forall k: nat | low <= k <= levels :: Adjacent(n, next, k)
  }

  ghost predicate SameNode(n: nat, last: nat, k: nat) {
    Anc(last, k) == Anc(n, k)
  }

  ghost predicate SamePath(n: nat, last: nat, low: nat, levels: nat) {
    forall k: nat | low <= k <= levels :: SameNode(n, last, k)
  }

  /** One level of an insert: hash with the stored left sibling or with the default subtree. */
  lemma SpineStep<T>(h: (T, T) -> T, before: seq<T>, after: seq<T>, z: T, k: nat, n: nat, last: nat)
    requires |before| == n <= last && |after| == last + 1 && before <= after && Anc(last, k) == Anc(n, k)
    ensures var a := Anc(n, k);
            NodeAt(h, after, z, k + 1, Anc(n, k + 1))
            == if a % 2 == 1 then h(NodeAt(h, before, z, k, a - 1), NodeAt(h, after, z, k, a))
               else h(NodeAt(h, after, z, k, a), ZeroAt(h, z, k))
  {
    var a := Anc(n, k);
    NodeFromChild(h, after, z, k, a);
    if a % 2 == 1 {
      NodeLeft(h, before, after, z, k, a - 1, n);
    } else {
      NodeRight(h, after, z, k, a + 1, last);
    }
  }

  /** What an insert at `n` does to level `k`: it stores the new node if the path turns left. */
  ghost predicate LevelWritten<T>(h: (T, T) -> T, after: seq<T>, z: T, was: map<nat, T>, now: map<nat, T>, n: nat, k: nat) {
    if Anc(n, k) % 2 == 0 then k in now && now[k] == NodeAt(h, after, z, k, Anc(n, k))
    else k in was ==> k in now && now[k] == was[k]
  }

  ghost predicate SpineWritten<T>(h: (T, T) -> T, after: seq<T>, z: T, was: map<nat, T>, now: map<nat, T>,
                                  low: nat, top: nat, n: nat) {
    && was.Keys <= now.Keys
    && (forall k: nat | low <= k < top :: LevelWritten(h, after, z, was, now, n, k))
    && (forall k: nat | k in was && !(low <= k < top) :: now[k] == was[k])
  }

  /** The spine is ready for the next insert. */
  lemma SpineKept<T>(h: (T, T) -> T, before: seq<T>, after: seq<T>, z: T, was: map<nat, T>, now: map<nat, T>,
                     low: nat, levels: nat, n: nat, next: nat)
    requires SpineHolds(h, before, z, was, low, levels, n) && SpineWritten(h, after, z, was, now, low, levels, n)
    requires |before| == n && before <= after
    requires AdjacentPaths(n, next, low, levels)
    ensures SpineHolds(h, after, z, now, low, levels, next)
  {
    forall k: nat | low <= k < levels ensures LevelHolds(h, after, z, now, next, k) {
      assert LevelHolds(h, before, z, was, n, k) && LevelWritten(h, after, z, was, now, n, k) && Adjacent(n, next, k);
      if Anc(next, k) % 2 == 1 && Anc(next, k) == Anc(n, k) {
        NodeLeft(h, before, after, z, k, Anc(n, k) - 1, n);
      }
    }
  }

  lemma {:induction false} AncOfZero(k: nat)
    ensures Anc(0, k) == 0
  {
    if k > 0 {
      AncOfZero(k - 1);
    }
  }

  /** Before the first insert there is nothing to read. */
  lemma EmptySpine<T>(h: (T, T) -> T, z: T, filled: map<nat, T>, low: nat, levels: nat)
    ensures SpineHolds(h, [], z, filled, low, levels, 0)
  {
    forall k: nat | low <= k < levels ensures LevelHolds(h, [], z, filled, 0, k) {
      AncOfZero(k);
    }
  }

  /** Two sibling leaves share every node above them. */
  lemma PairAncestors(n: nat, levels: nat)
    requires n % 2 == 0
    ensures SamePath(n, n + 1, 1, levels) && AdjacentPaths(n, n + 2, 1, levels)
  {
    var last, next := n + 1, n + 2;
    forall k: nat | 1 <= k <= levels ensures SameNode(n, last, k) && Adjacent(n, next, k) {
      AncHalf(n, k);
      AncHalf(last, k);
      AncHalf(next, k);
      AncSuccessor(n / 2, k - 1);
    }
  }

  /** The zero table: `zero(i + 1) = h(zero(i), zero(i))`. */
  method ZeroTable<T>(h: (T, T) -> T, zero0: T, levels: nat) returns (zeroes: map<nat, T>)
    ensures IsZeroTable(h, zero0, zeroes, levels)
  {
    zeroes := map[];
    var z := zero0;
    for i := 0 to levels + 1
      invariant z == ZeroAt(h, zero0, i)
      invariant i > 0 ==> IsZeroTable(h, zero0, zeroes, i - 1)
    {
      ghost var was := zeroes;
      zeroes := zeroes[i := z];
      z := h(z, z);
      forall k: nat | k <= i ensures ZeroEntry(h, zero0, zeroes, k) {
        assert k < i ==> ZeroEntry(h, zero0, was, k);
      }
    }
  }

  /** The loop over levels `low..levels`, starting from the new node at level `low`. */
  method InsertPath<T>(h: (T, T) -> T, zeroes: map<nat, T>, was: map<nat, T>, start: T, n: nat, low: nat, levels: nat,
                       ghost before: seq<T>, ghost after: seq<T>, ghost z: T)
    returns (root: T, filled: map<nat, T>)
    requires low <= levels && |before| == n < |after| && before <= after
    requires SpineHolds(h, before, z, was, low, levels, n)
    requires IsZeroTable(h, z, zeroes, levels)
    requires SamePath(n, |after| - 1, low, levels)
    requires start == NodeAt(h, after, z, low, Anc(n, low))
    ensures root == NodeAt(h, after, z, levels, Anc(n, levels))
    ensures SpineWritten(h, after, z, was, filled, low, levels, n)
  {
    root, filled := start, was;
    var index := PathIndex(n, low);
    for lvl := low to levels
      invariant index == Anc(n, lvl) && root == NodeAt(h, after, z, lvl, Anc(n, lvl))
      invariant SpineWritten(h, after, z, was, filled, low, lvl, n)
    {
      assert SameNode(n, |after| - 1, lvl) && ZeroEntry(h, z, zeroes, lvl) && LevelHolds(h, before, z, was, n, lvl);
      ghost var prev := filled;
      SpineStep(h, before, after, z, lvl, n, |after| - 1);
      if index % 2 == 1 {
        root := h(filled[lvl], root);
      } else {
        filled := filled[lvl := root];
        root := h(root, zeroes[lvl]);
      }
      index := index / 2;
      forall k: nat | low <= k <= lvl ensures LevelWritten(h, after, z, was, filled, n, k) {
        assert k < lvl ==> LevelWritten(h, after, z, was, prev, n, k);
      }
    }
  }

  /** `n` shifted right by `low`. */
  method PathIndex(n: nat, low: nat) returns (index: nat)
    ensures index == Anc(n, low)
  {
    index := n;
    for i := 0 to low
      invariant index == Anc(n, i)
    {
      index := index / 2;
    }
  }
}
