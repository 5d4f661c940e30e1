/**
Whole runs of the sparse Merkle tree contract: the contract refines a plain map, and its root
is a function of that map alone, whatever the history.
*/
module NonMembershipRuns {
  import opened Common
  import opened SparseTree
  import opened NonMembership

  datatype Op = Insert(key: nat, value: nat) | Delete(key: nat)

  /** What one authorised call does to the plain map; a refused call does nothing. */
  function Apply(m: map<nat, nat>, op: Op): map<nat, nat> {
    match op
    case Insert(k, v) => if k in m || !InField(k) || !InField(v) then m else m[k := v]
    case Delete(k) => m - {k}
  }

  function ApplyAll(m: map<nat, nat>, ops: seq<Op>): map<nat, nat>
    decreases |ops|
  {
    if ops == [] then m else Apply(ApplyAll(m, ops[..|ops| - 1]), ops[|ops| - 1])
  }

  /** After any run the contract holds the map the same run gives, with no error other than
      the two the map itself explains; runs of inserts leave no entry unreachable. */
  method Run(c: ASPNonMembership, ops: seq<Op>)
    requires c.Valid()
    modifies c
    ensures c.Valid() && c.Map() == ApplyAll(old(c.Map()), ops)
    ensures c.root == BuildTree(c.Map(), 0)
    ensures old(c.Exact()) && (forall op | op in ops :: op.Insert?) ==> c.Exact()
  {
    for i := 0 to |ops|
      invariant c.Valid() && c.Map() == ApplyAll(old(c.Map()), ops[..i])
      invariant old(c.Exact()) && (forall op | op in ops[..i] :: op.Insert?) ==> c.Exact()
    {
      assert ops[..i + 1][..i] == ops[..i] && ops[..i + 1][i] == ops[i];
      match ops[i]
      case Insert(k, v) =>
        var _ := c.InsertLeaf(true, k, v);
      case Delete(k) =>
        assert ops[i] in ops[..i + 1];
        var _ := c.DeleteLeaf(true, k);
    }
    assert ops[..|ops|] == ops;
    CanonicalIsBuilt(c.root, []);
  }

  /** Two histories from the empty tree end with the same root exactly when they end with the
      same map. */
  method TwoHistories(a: ASPNonMembership, b: ASPNonMembership, opsA: seq<Op>, opsB: seq<Op>)
    requires a != b && a.Valid() && b.Valid() && a.Map() == map[] && b.Map() == map[]
    modifies a, b
    ensures a.root == b.root <==> ApplyAll(map[], opsA) == ApplyAll(map[], opsB)
  {
    Run(a, opsA);
    Run(b, opsB);
    RootDeterminedByContents(a.root, b.root);
  }

  /** Inserting a fresh key and deleting it again restores the root. */
  method InsertThenDelete(c: ASPNonMembership, key: nat, value: nat)
    requires c.Valid() && key !in c.Map() && InField(key) && InField(value)
    modifies c
    ensures c.Valid() && c.root == old(c.root)
  {
    ghost var before := c.root;
    var _ := c.InsertLeaf(true, key, value);
    var _ := c.DeleteLeaf(true, key);
    assert c.Map() == Contents(before);
    RootDeterminedByContents(c.root, before);
  }

  lemma AppliesCommute(m: map<nat, nat>, j: nat, u: nat, k: nat, v: nat)
    requires j != k
    ensures Apply(Apply(m, Insert(j, u)), Insert(k, v)) == Apply(Apply(m, Insert(k, v)), Insert(j, u))
  {
  }

  method InsertTwo(c: ASPNonMembership, j: nat, u: nat, k: nat, v: nat)
    requires c.Valid()
    modifies c
    ensures c.Valid() && c.Map() == Apply(Apply(old(c.Map()), Insert(j, u)), Insert(k, v))
    ensures old(c.Exact()) ==> c.Exact()
  {
    var _ := c.InsertLeaf(true, j, u);
    assert c.Map() == Apply(old(c.Map()), Insert(j, u));
    var _ := c.InsertLeaf(true, k, v);
  }

  /** Inserts of different keys commute: from states with the same map, accepted or refused, the
      two orders end with the same root and the same map. */
  method InsertsCommute(a: ASPNonMembership, b: ASPNonMembership, j: nat, u: nat, k: nat, v: nat)
    requires a != b && a.Valid() && b.Valid() && a.Map() == b.Map() && j != k
    modifies a, b
    ensures a.Valid() && b.Valid() && a.root == b.root && a.Map() == b.Map()
  {
    AppliesCommute(a.Map(), j, u, k, v);
    InsertTwo(a, j, u, k, v);
    InsertTwo(b, k, v, j, u);
    RootDeterminedByContents(a.root, b.root);
  }

  lemma CollisionIsStored(root: Word, store: Store, key: nat)
    requires Invariant(root, store)
    ensures var f := Found(root, store, key);
            !f.found && !f.isOld0 ==>
              f.notFoundKey in Contents(root) && Contents(root)[f.notFoundKey] == f.notFoundValue
  {
    var f := Found(root, store, key);
    assert Bits(key)[..0] == [];
    ReplaceAtEnd(Bits(key), 0, f.siblings, EndOf(key, f), EndOf(key, f));
    if !f.found && !f.isOld0 {
      assert f.notFoundKey in Contents(EndOf(key, f));
    }
  }

  /** Completeness: with no zero value stored, the proof the search returns always verifies,
      so verification decides membership. */
  method FindThenVerify(c: ASPNonMembership, key: nat) returns (r: Result<bool, Error>)
    requires c.Valid()
    ensures (forall k | k in c.Map() :: c.Map()[k] != 0) ==> r == Ok(key !in c.Map())
    ensures r == Ok(true) ==> key !in c.Map()
  {
    var f := c.FindKey(key);
    CollisionIsStored(c.root, c.nodes, key);
    r := c.VerifyNonMembership(key, f.value.siblings, f.value.notFoundKey, f.value.notFoundValue);
  }

  /** The nonzero condition is needed: with the one binding 1 -> 0, key 3 is absent and its
      search proof does not fold back to the root. */
  lemma ZeroValueBreaksCompleteness()
    ensures var root := LeafHash(1, 0);
            var store: Store := map[root := Three(1, 1, 0)];
            && Invariant(root, store) && 3 !in Contents(root)
            && var f := Found(root, store, 3);
               !f.isOld0 && Climb(Bits(3), 0, f.siblings, ProofStart(3, f.notFoundKey, f.notFoundValue)) != root
  {
    var root := LeafHash(1, 0);
    var store: Store := map[root := Three(1, 1, 0)];
    assert Invariant(root, store);
    assert FindFrom(store, 3, Bits(3), root, 0) == Ok(FindResult(false, [], 0, 1, 0, false));
  }

  /** Two leaves that part at the first bit. */
  lemma TwoLeaves(v: nat, w: nat)
    requires InField(v) && InField(w)
    ensures var root := NodeHash(LeafHash(0, v), LeafHash(1, w));
            && Canonical(root, []) && Contents(root) == map[0 := v, 1 := w]
            && Live(root) == {root, LeafHash(0, v), LeafHash(1, w)}
  {
    assert Bits(0)[0] == false && Bits(1)[0] == true;
    assert [] + [false] == [false] && [] + [true] == [true];
    assert [false] <= Bits(0) && [true] <= Bits(1);
  }

  /** Deleting one of two leaves that part at the first bit promotes the other. */
  lemma DeletePromotes(store: Store, v: nat, w: nat)
    requires InField(v) && InField(w)
    requires Invariant(NodeHash(LeafHash(0, v), LeafHash(1, w)), store)
    ensures Promotes(Found(NodeHash(LeafHash(0, v), LeafHash(1, w)), store, 0))
  {
    var root := NodeHash(LeafHash(0, v), LeafHash(1, w));
    TwoLeaves(v, w);
    assert Bits(0)[0] == false;
    assert FindFrom(store, 0, Bits(0), LeafHash(0, v), 1) == Ok(FindResult(true, [], v, 0, 0, false));
  }

  method InsertBoth(v: nat, w: nat) returns (c: ASPNonMembership)
    requires InField(v) && InField(w)
    ensures fresh(c) && c.Valid() && c.Exact() && c.root == NodeHash(LeafHash(0, v), LeafHash(1, w))
  {
    c := new ASPNonMembership();
    InsertTwo(c, 0, v, 1, w);
    TwoLeaves(v, w);
    assert c.Map() == map[0 := v, 1 := w];
    RootDeterminedByContents(c.root, NodeHash(LeafHash(0, v), LeafHash(1, w)));
  }

  /** Leftovers are real: two inserts and a delete from the empty contract leave an entry that the
      root does not reach. */
  method PromotionLeavesEntries(v: nat, w: nat) returns (c: ASPNonMembership)
    requires InField(v) && InField(w)
    ensures fresh(c) && c.Valid() && c.Map() == map[1 := w] && c.nodes.Keys > Live(c.root)
  {
    c := InsertBoth(v, w);
    TwoLeaves(v, w);
    DeletePromotes(c.nodes, v, w);
    var _ := c.DeleteLeaf(true, 0);
  }
}
