/**
The mathematics of the sparse Merkle tree: hashes as free terms, key paths, the canonical
shape, the map a tree stands for, and what rewriting one path does to all three.

A hash is ideal: `LeafHash` and `NodeHash` are free constructors, so a root hash *is* the
tree it commits to, and distinct trees have distinct hashes.
*/
module SparseTree {
  import opened Common

  datatype Word =
    | Num(n: nat)
    | LeafHash(key: nat, value: nat)
    | NodeHash(left: Word, right: Word)

  const ZERO := Num(0)

  // ---------------------------------------------------------------- key paths

  /** The `n` low bits of `k`, least significant first. */
  function BitsOf(k: nat, n: nat): (bits: seq<bool>)
    ensures |bits| == n
  {
    if n == 0 then [] else [k % 2 == 1] + BitsOf(k / 2, n - 1)
  }

  function Bits(k: nat): (bits: seq<bool>)
    ensures |bits| == 256
  {
    BitsOf(k, 256)
  }

  /** Bit `i` of a key, read off the number itself. */
  predicate BitIsSet(k: nat, i: nat) {
    k / Pow2(i) % 2 == 1
  }

  lemma {:induction false} BitsOfAreBits(k: nat, n: nat, i: nat)
    requires i < n
    ensures BitsOf(k, n)[i] <==> BitIsSet(k, i)
  {
    if i > 0 {
      BitsOfAreBits(k / 2, n - 1, i - 1);
      HalveThenDivide(k, Pow2(i - 1));
    }
  }

  lemma BitsAreBits(k: nat)
    ensures forall i | 0 <= i < 256 :: Bits(k)[i] <==> k / Pow2(i) % 2 == 1
  {
    forall i | 0 <= i < 256 ensures Bits(k)[i] <==> BitIsSet(k, i) {
      BitsOfAreBits(k, 256, i);
    }
  }

  lemma {:induction false} BitsOfInjective(a: nat, b: nat, n: nat)
    requires a < Pow2(n) && b < Pow2(n)
    requires BitsOf(a, n) == BitsOf(b, n)
    ensures a == b
  {
    if n > 0 {
      assert BitsOf(a, n)[0] == BitsOf(b, n)[0];
      assert BitsOf(a, n)[1..] == BitsOf(a / 2, n - 1);
      assert BitsOf(b, n)[1..] == BitsOf(b / 2, n - 1);
      BitsOfInjective(a / 2, b / 2, n - 1);
    }
  }

  /** Two field elements with the same 256-bit path are the same key. */
  lemma BitsInjective(a: nat, b: nat)
    requires InField(a) && InField(b) && Bits(a) == Bits(b)
    ensures a == b
  {
    ModulusBounds();
    BitsOfInjective(a, b, 256);
  }

  // ---------------------------------------------------------------- trees

  ghost function NumLeaves(d: Word): nat {
    match d
    case Num(_) => 0
    case LeafHash(_, _) => 1
    case NodeHash(l, r) => NumLeaves(l) + NumLeaves(r)
  }

  /** The map of keys to values a tree holds. */
  ghost function Contents(d: Word): map<nat, nat> {
    match d
    case Num(_) => map[]
    case LeafHash(k, v) => map[k := v]
    case NodeHash(l, r) => Contents(l) + Contents(r)
  }

  /** The canonical shape below path `p`: empty is zero, a leaf lies on its own key's path,
      and an internal node has at least two leaves below it, within 256 levels. */
  ghost predicate Canonical(d: Word, p: seq<bool>) {
    match d
    case Num(n) => n == 0
    case LeafHash(k, v) => InField(k) && InField(v) && p <= Bits(k)
    case NodeHash(l, r) =>
      |p| < 256 && NumLeaves(d) >= 2 && Canonical(l, p + [false]) && Canonical(r, p + [true])
  }

  /** Every node hash occurring in the tree: what the store must hold. */
  ghost function Live(d: Word): set<Word> {
    match d
    case Num(_) => {}
    case LeafHash(_, _) => {d}
    case NodeHash(l, r) => {d} + Live(l) + Live(r)
  }

  ghost predicate OnPath(m: map<nat, nat>, p: seq<bool>) {
    forall k | k in m :: InField(k) && InField(m[k]) && p <= Bits(k)
  }

  lemma {:induction false} ContentsOnPath(d: Word, p: seq<bool>)
    requires Canonical(d, p)
    ensures OnPath(Contents(d), p)
    ensures |Contents(d)| == NumLeaves(d)
  {
    if d.NodeHash? {
      ContentsOnPath(d.left, p + [false]);
      ContentsOnPath(d.right, p + [true]);
      SidesDisjoint(Contents(d.left), Contents(d.right), p, false);
      DisjointSize(Contents(d.left), Contents(d.right));
    }
  }

  lemma NextBit(p: seq<bool>, bit: bool, bits: seq<bool>)
    requires p + [bit] <= bits
    ensures |p| < |bits| && bits[|p|] == bit && p <= bits
  {
    assert (p + [bit])[|p|] == bit;
    assert p == (p + [bit])[..|p|];
  }

  lemma SidesDisjoint(a: map<nat, nat>, b: map<nat, nat>, p: seq<bool>, bit: bool)
    requires OnPath(a, p + [bit]) && OnPath(b, p + [!bit])
    ensures a.Keys !! b.Keys
    ensures OnPath(a, p) && OnPath(b, p)
    ensures forall k | k in a :: |p| < 256 && Bits(k)[|p|] == bit
    ensures forall k | k in b :: |p| < 256 && Bits(k)[|p|] == !bit
  {
    forall k | k in a ensures p <= Bits(k) && |p| < 256 && Bits(k)[|p|] == bit {
      NextBit(p, bit, Bits(k));
    }
    forall k | k in b ensures p <= Bits(k) && |p| < 256 && Bits(k)[|p|] == !bit {
      NextBit(p, !bit, Bits(k));
    }
  }

  /** Which side of an internal node a key is on: the left one exactly if the bit of that depth is
      clear. */
  lemma SidesByBit(d: Word, p: seq<bool>)
    requires Canonical(d, p) && d.NodeHash?
    ensures forall k | k in Contents(d.left) :: k / Pow2(|p|) % 2 == 0
    ensures forall k | k in Contents(d.right) :: k / Pow2(|p|) % 2 == 1
  {
    ContentsOnPath(d.left, p + [false]);
    ContentsOnPath(d.right, p + [true]);
    SidesDisjoint(Contents(d.left), Contents(d.right), p, false);
    forall k | k in Contents(d.left) ensures !BitIsSet(k, |p|) {
      BitsAreBits(k);
    }
    forall k | k in Contents(d.right) ensures BitIsSet(k, |p|) {
      BitsAreBits(k);
    }
  }

  // ---------------------------------------------------------------- history independence

  /** The keys of `m` whose path turns to side `bit` at `depth`. */
  ghost function Side(m: map<nat, nat>, depth: nat, bit: bool): map<nat, nat>
    requires depth < 256
  {
    map k | k in m && Bits(k)[depth] == bit :: m[k]
  }

  /** The tree a map should have, defined from the map alone. */
  ghost function BuildTree(m: map<nat, nat>, depth: nat): Word
    decreases 256 - depth
  {
    if |m| == 0 then ZERO
    else if |m| == 1 || depth >= 256 then
      var k :| k in m;
      LeafHash(k, m[k])
    else
      NodeHash(BuildTree(Side(m, depth, false), depth + 1), BuildTree(Side(m, depth, true), depth + 1))
  }

  lemma SingletonKey(m: map<nat, nat>, a: nat, b: nat)
    requires |m| == 1 && a in m && b in m
    ensures a == b
  {
    assert |m.Keys - {a}| == 0;
    assert b !in m.Keys - {a};
  }

  lemma SidesOfMerge(a: map<nat, nat>, b: map<nat, nat>, depth: nat)
    requires depth < 256
    requires forall k | k in a :: Bits(k)[depth] == false
    requires forall k | k in b :: Bits(k)[depth] == true
    ensures Side(a + b, depth, false) == a && Side(a + b, depth, true) == b
  {
  }

  lemma SidesOfNode(l: Word, r: Word, p: seq<bool>)
    requires |p| < 256 && Canonical(l, p + [false]) && Canonical(r, p + [true])
    ensures Side(Contents(NodeHash(l, r)), |p|, false) == Contents(l)
    ensures Side(Contents(NodeHash(l, r)), |p|, true) == Contents(r)
  {
    ContentsOnPath(l, p + [false]);
    ContentsOnPath(r, p + [true]);
    SidesDisjoint(Contents(l), Contents(r), p, false);
    SidesOfMerge(Contents(l), Contents(r), |p|);
  }

  /** A canonical tree is the tree of its own contents: the root is a function of the map. */
  lemma {:induction false} CanonicalIsBuilt(d: Word, p: seq<bool>)
    requires Canonical(d, p) && |p| <= 256
    ensures d == BuildTree(Contents(d), |p|)
  {
    var m := Contents(d);
    ContentsOnPath(d, p);
    if d.LeafHash? {
      assert forall k | k in m :: k == d.key;
    } else if d.NodeHash? {
      CanonicalIsBuilt(d.left, p + [false]);
      CanonicalIsBuilt(d.right, p + [true]);
      SidesOfNode(d.left, d.right, p);
    }
  }

  /** History independence: two canonical trees with the same contents have the same hash. */
  lemma RootDeterminedByContents(a: Word, b: Word)
    requires Canonical(a, []) && Canonical(b, [])
    ensures Contents(a) == Contents(b) <==> a == b
  {
    CanonicalIsBuilt(a, []);
    CanonicalIsBuilt(b, []);
  }

  lemma SidesMerge(m: map<nat, nat>, depth: nat)
    requires depth < 256
    ensures Side(m, depth, false).Keys !! Side(m, depth, true).Keys
    ensures m == Side(m, depth, false) + Side(m, depth, true)
  {
    var l, r := Side(m, depth, false), Side(m, depth, true);
    assert m.Keys == l.Keys + r.Keys;
  }

  lemma DisjointSize(a: map<nat, nat>, b: map<nat, nat>)
    requires a.Keys !! b.Keys
    ensures |a + b| == |a| + |b|
  {
    assert (a + b).Keys == a.Keys + b.Keys;
    assert |a.Keys + b.Keys| == |a.Keys| + |b.Keys|;
  }

  lemma SideOnPath(m: map<nat, nat>, p: seq<bool>, bit: bool)
    requires |p| < 256 && OnPath(m, p)
    ensures OnPath(Side(m, |p|, bit), p + [bit])
  {
    forall k | k in Side(m, |p|, bit) ensures p + [bit] <= Bits(k) {
      assert p + [bit] == Bits(k)[..|p| + 1];
    }
  }

  lemma OneKeyAtFullDepth(m: map<nat, nat>, p: seq<bool>, k: nat)
    requires |p| <= 256 && OnPath(m, p) && k in m
    requires |m| == 1 || |p| == 256
    ensures m == map[k := m[k]]
  {
    forall k' | k' in m ensures k' == k {
      if |m| == 1 {
        SingletonKey(m, k, k');
      } else {
        assert Bits(k) == p == Bits(k');
        BitsInjective(k, k');
      }
    }
  }

  /** Every map over the field is the contents of a canonical tree. */
  lemma {:induction false} BuildTreeIsCanonical(m: map<nat, nat>, p: seq<bool>)
    requires |p| <= 256 && OnPath(m, p)
    ensures Canonical(BuildTree(m, |p|), p)
    ensures Contents(BuildTree(m, |p|)) == m
    decreases 256 - |p|
  {
    if |m| == 0 {
    } else if |m| == 1 || |p| == 256 {
      var d := BuildTree(m, |p|);
      OneKeyAtFullDepth(m, p, d.key);
    } else {
      var l, r := Side(m, |p|, false), Side(m, |p|, true);
      SidesMerge(m, |p|);
      DisjointSize(l, r);
      SideOnPath(m, p, false);
      SideOnPath(m, p, true);
      BuildTreeIsCanonical(l, p + [false]);
      BuildTreeIsCanonical(r, p + [true]);
      ContentsOnPath(BuildTree(l, |p| + 1), p + [false]);
      ContentsOnPath(BuildTree(r, |p| + 1), p + [true]);
    }
  }

  // ---------------------------------------------------------------- climbing a path

  function Join(bit: bool, child: Word, sibling: Word): Word {
    if bit then NodeHash(sibling, child) else NodeHash(child, sibling)
  }

  /** The hash at depth `i` when `x` hangs below the siblings `s` of depths `i, i+1, ...`. */
  function Climb(bits: seq<bool>, i: nat, s: seq<Word>, x: Word): Word
    requires i + |s| <= |bits|
    decreases |s|
  {
    if |s| == 0 then x else Join(bits[i], Climb(bits, i + 1, s[1..], x), s[0])
  }

  /** The internal nodes of that climb, `x` not included. */
  ghost function Inner(bits: seq<bool>, i: nat, s: seq<Word>, x: Word): set<Word>
    requires i + |s| <= |bits|
    decreases |s|
  {
    if |s| == 0 then {} else {Climb(bits, i, s, x)} + Inner(bits, i + 1, s[1..], x)
  }

  ghost function SiblingsLive(s: seq<Word>): set<Word> {
    if |s| == 0 then {} else Live(s[0]) + SiblingsLive(s[1..])
  }

  /** One step up a path, as a loop over the siblings in reverse takes it. */
  lemma ClimbStep(bits: seq<bool>, i: nat, s: seq<Word>, x: Word)
    requires i < |s| <= |bits|
    ensures Climb(bits, i, s[i..], x) == Join(bits[i], Climb(bits, i + 1, s[i + 1..], x), s[i])
    ensures Inner(bits, i, s[i..], x) == {Climb(bits, i, s[i..], x)} + Inner(bits, i + 1, s[i + 1..], x)
  {
    assert s[i..][1..] == s[i + 1..];
  }

  lemma {:induction false} ClimbConcat(bits: seq<bool>, i: nat, s: seq<Word>, t: seq<Word>, x: Word)
    requires i + |s| + |t| <= |bits|
    ensures Climb(bits, i, s + t, x) == Climb(bits, i, s, Climb(bits, i + |s|, t, x))
    decreases |s|
  {
    if |s| == 0 {
      assert s + t == t;
    } else {
      assert (s + t)[1..] == s[1..] + t;
      ClimbConcat(bits, i + 1, s[1..], t, x);
    }
  }

  lemma {:induction false} SiblingsLiveConcat(s: seq<Word>, t: seq<Word>)
    ensures SiblingsLive(s + t) == SiblingsLive(s) + SiblingsLive(t)
  {
    if |s| == 0 {
      assert s + t == t;
    } else {
      assert (s + t)[1..] == s[1..] + t;
      SiblingsLiveConcat(s[1..], t);
    }
  }

  lemma {:induction false} LiveOfClimb(bits: seq<bool>, i: nat, s: seq<Word>, x: Word)
    requires i + |s| <= |bits|
    ensures Live(Climb(bits, i, s, x)) == Inner(bits, i, s, x) + Live(x) + SiblingsLive(s)
    decreases |s|
  {
    if |s| > 0 {
      LiveOfClimb(bits, i + 1, s[1..], x);
    }
  }

  /** What one side of a canonical node looks like, for whichever side the key turns to. */
  lemma CanonicalJoin(bit: bool, c: Word, s: Word, p: seq<bool>)
    ensures Canonical(Join(bit, c, s), p) <==>
              && |p| < 256 && NumLeaves(c) + NumLeaves(s) >= 2
              && Canonical(c, p + [bit]) && Canonical(s, p + [!bit])
  {
  }

  lemma MergeCommutes(a: map<nat, nat>, b: map<nat, nat>)
    requires a.Keys !! b.Keys
    ensures a + b == b + a
  {
  }

  lemma JoinContents(bit: bool, c: Word, s: Word, p: seq<bool>)
    requires |p| < 256 && Canonical(c, p + [bit]) && Canonical(s, p + [!bit])
    ensures Contents(Join(bit, c, s)) == Contents(s) + Contents(c)
    ensures Contents(c).Keys !! Contents(s).Keys
  {
    ContentsOnPath(c, p + [bit]);
    ContentsOnPath(s, p + [!bit]);
    SidesDisjoint(Contents(c), Contents(s), p, bit);
    MergeCommutes(Contents(c), Contents(s));
  }

  lemma TakeNext(bits: seq<bool>, i: nat)
    requires i < |bits|
    ensures bits[..i] + [bits[i]] == bits[..i + 1]
  {
  }

  lemma MergeReplace(s: map<nat, nat>, c: map<nat, nat>, gone: set<nat>, y: map<nat, nat>)
    requires c.Keys !! s.Keys && gone <= c.Keys
    ensures s + ((c - gone) + y) == ((s + c) - gone) + y
  {
  }

  /** Replacing what hangs at the end of a path by something at least as populous keeps the
      canonical shape and changes exactly the replaced part of the map. */
  lemma {:induction false} ReplaceAtEnd(bits: seq<bool>, i: nat, s: seq<Word>, x: Word, y: Word)
    requires i + |s| <= |bits| == 256
    requires Canonical(Climb(bits, i, s, x), bits[..i])
    requires Canonical(y, bits[..i + |s|]) && NumLeaves(y) >= NumLeaves(x)
    ensures Canonical(x, bits[..i + |s|])
    ensures Canonical(Climb(bits, i, s, y), bits[..i])
    ensures NumLeaves(Climb(bits, i, s, y)) >= NumLeaves(Climb(bits, i, s, x))
    ensures Contents(x).Keys <= Contents(Climb(bits, i, s, x)).Keys
    ensures Contents(Climb(bits, i, s, y)) == (Contents(Climb(bits, i, s, x)) - Contents(x).Keys) + Contents(y)
    decreases |s|
  {
    if |s| > 0 {
      TakeNext(bits, i);
      var cx, cy := Climb(bits, i + 1, s[1..], x), Climb(bits, i + 1, s[1..], y);
      CanonicalJoin(bits[i], cx, s[0], bits[..i]);
      CanonicalJoin(bits[i], cy, s[0], bits[..i]);
      ReplaceAtEnd(bits, i + 1, s[1..], x, y);
      JoinContents(bits[i], cx, s[0], bits[..i]);
      JoinContents(bits[i], cy, s[0], bits[..i]);
      MergeReplace(Contents(s[0]), Contents(cx), Contents(x).Keys, Contents(y));
    }
  }

  /** A key on the path occurs in the tree exactly when it occurs at the end of the path. */
  lemma {:induction false} KeyAtEnd(bits: seq<bool>, i: nat, s: seq<Word>, x: Word, k: nat)
    requires i + |s| <= |bits| == 256 && Bits(k) == bits
    requires Canonical(Climb(bits, i, s, x), bits[..i])
    ensures k in Contents(Climb(bits, i, s, x)) <==> k in Contents(x)
    ensures k in Contents(x) ==> Contents(Climb(bits, i, s, x))[k] == Contents(x)[k]
    decreases |s|
  {
    if |s| > 0 {
      TakeNext(bits, i);
      var c := Climb(bits, i + 1, s[1..], x);
      CanonicalJoin(bits[i], c, s[0], bits[..i]);
      KeyAtEnd(bits, i + 1, s[1..], x, k);
      JoinContents(bits[i], c, s[0], bits[..i]);
      ContentsOnPath(s[0], bits[..i] + [!bits[i]]);
      ContentsOnPath(c, bits[..i] + [bits[i]]);
      SidesDisjoint(Contents(c), Contents(s[0]), bits[..i], bits[i]);
    }
  }

  // ---------------------------------------------------------------- live nodes are distinct

  lemma {:induction false} LiveContents(d: Word, e: Word, p: seq<bool>) returns (k: nat)
    requires Canonical(d, p) && e in Live(d)
    ensures k in Contents(e) && Contents(e).Keys <= Contents(d).Keys
  {
    match d
    case LeafHash(k', _) => k := k';
    case NodeHash(l, r) =>
      if e in Live(l) {
        k := LiveContents(l, e, p + [false]);
      } else if e in Live(r) {
        k := LiveContents(r, e, p + [true]);
      } else {
        ContentsOnPath(d, p);
        assert |Contents(d).Keys| >= 2;
        k :| k in Contents(d);
      }
  }

  ghost function Size(d: Word): nat {
    match d
    case NodeHash(l, r) => 1 + Size(l) + Size(r)
    case _ => 1
  }

  lemma {:induction false} LiveNotAbove(d: Word, e: Word)
    requires e in Live(d)
    ensures Size(e) <= Size(d)
  {
    if d.NodeHash? && e != d {
      if e in Live(d.left) {
        LiveNotAbove(d.left, e);
      } else {
        LiveNotAbove(d.right, e);
      }
    }
  }

  lemma LiveDisjoint(bit: bool, c: Word, s: Word, p: seq<bool>)
    requires |p| < 256 && Canonical(c, p + [bit]) && Canonical(s, p + [!bit])
    ensures Live(c) !! Live(s)
  {
    JoinContents(bit, c, s, p);
    forall e | e in Live(c) ensures e !in Live(s) {
      var k := LiveContents(c, e, p + [bit]);
      if e in Live(s) {
        var _ := LiveContents(s, e, p + [!bit]);
        assert false;
      }
    }
  }

  lemma ParentNotBelow(bit: bool, c: Word, s: Word)
    ensures Join(bit, c, s) !in Live(c) && Join(bit, c, s) !in Live(s)
  {
    if Join(bit, c, s) in Live(c) {
      LiveNotAbove(c, Join(bit, c, s));
    }
    if Join(bit, c, s) in Live(s) {
      LiveNotAbove(s, Join(bit, c, s));
    }
  }

  lemma AddNode(d: Word, inner: set<Word>, below: set<Word>, beside: set<Word>, off: set<Word>)
    requires inner !! off && inner + off <= below && below !! beside && d !in below && d !in beside
    ensures {d} + inner !! off + beside
  {
  }

  /** No internal node of a path occurs anywhere off the path or at its end, so rewriting the
      path may drop all of them without dropping a node that is still in use. */
  lemma {:induction false} PathNodesUnshared(bits: seq<bool>, i: nat, s: seq<Word>, x: Word)
    requires i + |s| <= |bits| == 256
    requires Canonical(Climb(bits, i, s, x), bits[..i])
    ensures Inner(bits, i, s, x) !! (Live(x) + SiblingsLive(s))
    ensures Inner(bits, i, s, x) <= Live(Climb(bits, i, s, x))
    decreases |s|
  {
    LiveOfClimb(bits, i, s, x);
    if |s| > 0 {
      TakeNext(bits, i);
      var d, c := Climb(bits, i, s, x), Climb(bits, i + 1, s[1..], x);
      CanonicalJoin(bits[i], c, s[0], bits[..i]);
      PathNodesUnshared(bits, i + 1, s[1..], x);
      LiveOfClimb(bits, i + 1, s[1..], x);
      LiveDisjoint(bits[i], c, s[0], bits[..i]);
      ParentNotBelow(bits[i], c, s[0]);
      AddNode(d, Inner(bits, i + 1, s[1..], x), Live(c), Live(s[0]), Live(x) + SiblingsLive(s[1..]));
    }
  }

  /** Rewriting a path adds only nodes that hold the key written at its end. */
  lemma {:induction false} InnerHoldsKey(bits: seq<bool>, i: nat, s: seq<Word>, x: Word, k: nat)
    requires i + |s| <= |bits| && k in Contents(x)
    ensures k in Contents(Climb(bits, i, s, x))
    ensures forall e | e in Inner(bits, i, s, x) :: k in Contents(e)
    decreases |s|
  {
    if |s| > 0 {
      InnerHoldsKey(bits, i + 1, s[1..], x, k);
    }
  }

  lemma LiveHoldsOnlyContents(d: Word, p: seq<bool>, k: nat)
    requires Canonical(d, p) && k !in Contents(d)
    ensures forall e | e in Live(d) :: k !in Contents(e)
  {
    forall e | e in Live(d) ensures k !in Contents(e) {
      var _ := LiveContents(d, e, p);
    }
  }

  /** In a canonical tree the sibling of a leaf is never empty. */
  lemma {:induction false} LeafSiblingNotEmpty(bits: seq<bool>, i: nat, s: seq<Word>, x: Word)
    requires i + |s| <= |bits| == 256 && 0 < |s|
    requires x.LeafHash? && Canonical(Climb(bits, i, s, x), bits[..i])
    ensures s[|s| - 1] != ZERO && !s[|s| - 1].Num?
    decreases |s|
  {
    TakeNext(bits, i);
    CanonicalJoin(bits[i], Climb(bits, i + 1, s[1..], x), s[0], bits[..i]);
    if |s| > 1 {
      LeafSiblingNotEmpty(bits, i + 1, s[1..], x);
    }
  }

  // ---------------------------------------------------------------- a new leaf meets an old one

  /** `n` empty siblings, then the old leaf: the path on which two leaves part. */
  function Fork(n: nat, oldLeaf: Word): (s: seq<Word>)
    ensures |s| == n + 1
  {
    if n == 0 then [oldLeaf] else [ZERO] + Fork(n - 1, oldLeaf)
  }

  lemma {:induction false} ForkSnoc(n: nat, x: Word, zeros: seq<Word>)
    requires |zeros| == n && forall j | 0 <= j < n :: zeros[j] == ZERO
    ensures zeros + [x] == Fork(n, x)
    ensures SiblingsLive(zeros + [x]) == Live(x)
  {
    if n == 0 {
      assert zeros + [x] == [x];
      assert [x][1..] == [];
      assert SiblingsLive([]) == {};
    } else {
      assert zeros + [x] == [ZERO] + (zeros[1..] + [x]);
      ForkSnoc(n - 1, x, zeros[1..]);
    }
  }

  /** Two leaves whose paths agree up to depth `i + n` and part there form a canonical subtree. */
  lemma {:induction false} ForkCanonical(bits: seq<bool>, i: nat, n: nat, a: Word, b: Word)
    requires a.LeafHash? && b.LeafHash? && bits == Bits(a.key) && i + n < 256
    requires Canonical(a, bits[..i]) && Canonical(b, bits[..i])
    requires forall j | i <= j < i + n :: Bits(b.key)[j] == bits[j]
    requires Bits(b.key)[i + n] != bits[i + n]
    ensures Canonical(Climb(bits, i, Fork(n, b), a), bits[..i])
    ensures NumLeaves(Climb(bits, i, Fork(n, b), a)) == 2
    ensures Contents(Climb(bits, i, Fork(n, b), a)) == Contents(b) + Contents(a)
    decreases n
  {
    var s := Fork(n, b);
    TakeNext(bits, i);
    if n > 0 {
      LeafOneDeeper(b, bits, i, bits[i]);
      LeafOneDeeper(a, bits, i, bits[i]);
      assert s[0] == ZERO && s[1..] == Fork(n - 1, b);
      ForkCanonical(bits, i + 1, n - 1, a, b);
      EmptyBeside(bits[i], Climb(bits, i + 1, s[1..], a), bits[..i]);
    } else {
      LeafOneDeeper(b, bits, i, !bits[i]);
      LeafOneDeeper(a, bits, i, bits[i]);
      assert s[1..] == [];
      CanonicalJoin(bits[i], a, b, bits[..i]);
      JoinContents(bits[i], a, b, bits[..i]);
    }
  }

  lemma EmptyBeside(bit: bool, c: Word, p: seq<bool>)
    requires |p| < 256 && Canonical(c, p + [bit]) && NumLeaves(c) >= 2
    ensures Canonical(Join(bit, c, ZERO), p) && NumLeaves(Join(bit, c, ZERO)) == NumLeaves(c)
    ensures Contents(Join(bit, c, ZERO)) == Contents(c)
  {
    CanonicalJoin(bit, c, ZERO, p);
  }

  lemma LeafOneDeeper(leaf: Word, bits: seq<bool>, i: nat, bit: bool)
    requires leaf.LeafHash? && i < |bits| == 256 && Canonical(leaf, bits[..i]) && Bits(leaf.key)[i] == bit
    ensures Canonical(leaf, bits[..i] + [bit])
  {
    assert bits[..i] + [bit] == Bits(leaf.key)[..i + 1];
  }

  // ---------------------------------------------------------------- collapsing after a delete

  predicate AllZero(s: seq<Word>) {
    forall j | 0 <= j < |s| :: s[j] == ZERO
  }

  /** The hash at depth `i` after a delete put `y` at the end of the path: empty siblings
      directly above `y` are skipped, so a lone leaf moves up to its first real sibling. */
  function Collapse(bits: seq<bool>, i: nat, s: seq<Word>, y: Word): Word
    requires i + |s| <= |bits|
    decreases |s|
  {
    if AllZero(s) then y else Join(bits[i], Collapse(bits, i + 1, s[1..], y), s[0])
  }

  ghost function CollapseInner(bits: seq<bool>, i: nat, s: seq<Word>, y: Word): set<Word>
    requires i + |s| <= |bits|
    decreases |s|
  {
    if AllZero(s) then {} else {Collapse(bits, i, s, y)} + CollapseInner(bits, i + 1, s[1..], y)
  }

  lemma {:induction false} AllZeroLive(s: seq<Word>)
    requires AllZero(s)
    ensures SiblingsLive(s) == {}
  {
    if |s| > 0 {
      AllZeroLive(s[1..]);
    }
  }

  lemma {:induction false} LiveOfCollapse(bits: seq<bool>, i: nat, s: seq<Word>, y: Word)
    requires i + |s| <= |bits|
    ensures Live(Collapse(bits, i, s, y)) == CollapseInner(bits, i, s, y) + Live(y) + SiblingsLive(s)
    decreases |s|
  {
    if AllZero(s) {
      AllZeroLive(s);
    } else {
      LiveOfCollapse(bits, i + 1, s[1..], y);
    }
  }

  lemma MergeRemove(s: map<nat, nat>, c: map<nat, nat>, k: nat)
    requires c.Keys !! s.Keys && k in c
    ensures s + (c - {k}) == (s + c) - {k}
  {
  }

  /** Deleting: when `y` holds what the end `x` of the path held except `k`, collapsing gives
      a canonical tree that holds what the whole tree held except `k`. */
  lemma {:induction false} CollapseDeletes(bits: seq<bool>, i: nat, s: seq<Word>, x: Word, y: Word, k: nat)
    requires i + |s| <= |bits| == 256
    requires Canonical(Climb(bits, i, s, x), bits[..i])
    requires k in Contents(x) && Contents(y) == Contents(x) - {k}
    requires y == ZERO || (y.LeafHash? && Canonical(y, bits[..i + |s|]))
    requires y == ZERO && |s| > 0 ==> s[|s| - 1].NodeHash?
    ensures Canonical(Collapse(bits, i, s, y), bits[..i])
    ensures k in Contents(Climb(bits, i, s, x))
    ensures Contents(Collapse(bits, i, s, y)) == Contents(Climb(bits, i, s, x)) - {k}
    decreases |s|
  {
    if |s| > 0 {
      TakeNext(bits, i);
      var cx, cy := Climb(bits, i + 1, s[1..], x), Collapse(bits, i + 1, s[1..], y);
      CanonicalJoin(bits[i], cx, s[0], bits[..i]);
      CollapseDeletes(bits, i + 1, s[1..], x, y, k);
      assert k in Contents(Climb(bits, i, s, x))
          && Contents(s[0]) + Contents(cy) == Contents(Climb(bits, i, s, x)) - {k} by {
        JoinContents(bits[i], cx, s[0], bits[..i]);
        MergeRemove(Contents(s[0]), Contents(cx), k);
      }
      if AllZero(s) {
        CollapseSkip(bits, i, s, y);
      } else {
        CollapsePopulous(bits, i, s, y);
        CanonicalJoin(bits[i], cy, s[0], bits[..i]);
        JoinContents(bits[i], cy, s[0], bits[..i]);
      }
    }
  }

  lemma CollapseSkip(bits: seq<bool>, i: nat, s: seq<Word>, y: Word)
    requires i + |s| <= |bits| == 256 && |s| > 0 && AllZero(s)
    requires y == ZERO || (y.LeafHash? && Canonical(y, bits[..i + |s|]))
    ensures Collapse(bits, i, s, y) == Collapse(bits, i + 1, s[1..], y) == y
    ensures Canonical(y, bits[..i])
    ensures Contents(s[0]) + Contents(y) == Contents(y)
  {
    assert AllZero(s[1..]);
    assert Contents(s[0]) == map[];
    assert bits[..i] <= bits[..i + |s|];
  }

  lemma CollapsePopulous(bits: seq<bool>, i: nat, s: seq<Word>, y: Word)
    requires i + |s| <= |bits| == 256 && !AllZero(s)
    requires Canonical(Collapse(bits, i + 1, s[1..], y), bits[..i + 1])
    requires Canonical(s[0], bits[..i] + [!bits[i]])
    requires y.LeafHash? || s[|s| - 1].NodeHash?
    ensures NumLeaves(Collapse(bits, i + 1, s[1..], y)) + NumLeaves(s[0]) >= 2
  {
    if AllZero(s[1..]) {
      assert s[0] != ZERO;
      if |s| > 1 {
        assert s[|s| - 1] == s[1..][|s| - 2] == ZERO;
      }
    }
  }

  lemma {:induction false} CollapseInnerSuffix(bits: seq<bool>, i: nat, s: seq<Word>, y: Word, j: nat)
    requires i + |s| <= |bits| && j <= |s|
    ensures CollapseInner(bits, i + j, s[j..], y) <= CollapseInner(bits, i, s, y)
    decreases |s|
  {
    if j > 0 {
      assert s[1..][j - 1..] == s[j..];
      if AllZero(s) {
        assert AllZero(s[j..]);
      } else {
        CollapseInnerSuffix(bits, i + 1, s[1..], y, j - 1);
      }
    }
  }

  lemma CollapseStep(bits: seq<bool>, i: nat, s: seq<Word>, y: Word)
    requires i < |s| <= |bits|
    ensures AllZero(s[i..]) <==> s[i] == ZERO && AllZero(s[i + 1..])
    ensures Collapse(bits, i, s[i..], y)
            == if AllZero(s[i..]) then y else Join(bits[i], Collapse(bits, i + 1, s[i + 1..], y), s[i])
    ensures CollapseInner(bits, i, s[i..], y)
            == if AllZero(s[i..]) then {}
               else {Collapse(bits, i, s[i..], y)} + CollapseInner(bits, i + 1, s[i + 1..], y)
  {
    assert s[i..][1..] == s[i + 1..];
    assert s[i..] == [s[i]] + s[i + 1..];
  }

  /** A promoted leaf's old parent is not among the hashes the delete loop recomputes, because
      that loop starts from the deleted leaf and skips the promoted sibling. */
  lemma {:induction false} ParentNotRecomputed(bits: seq<bool>, i: nat, s: seq<Word>, leaf: Word, last: Word, bit: bool)
    requires i + |s| <= |bits| == 256 && leaf.LeafHash? && last.LeafHash?
    requires Canonical(Climb(bits, i, s, Join(bit, leaf, last)), bits[..i])
    ensures Join(bit, leaf, last) !in Inner(bits, i, s, leaf)
    decreases |s|
  {
    if |s| > 0 {
      var x := Join(bit, leaf, last);
      var c := Climb(bits, i + 1, s[1..], x);
      TakeNext(bits, i);
      CanonicalJoin(bits[i], c, s[0], bits[..i]);
      ParentNotRecomputed(bits, i + 1, s[1..], leaf, last, bit);
      if |s| == 1 {
        JoinContents(bits[i], c, s[0], bits[..i]);
        assert leaf.key in Contents(c) && last.key in Contents(c);
        assert s[0] != leaf && s[0] != last;
      }
    }
  }

  lemma {:induction false} EndCanonical(bits: seq<bool>, i: nat, s: seq<Word>, x: Word)
    requires i + |s| <= |bits| == 256 && Canonical(Climb(bits, i, s, x), bits[..i])
    ensures Canonical(x, bits[..i + |s|])
    decreases |s|
  {
    if |s| > 0 {
      TakeNext(bits, i);
      CanonicalJoin(bits[i], Climb(bits, i + 1, s[1..], x), s[0], bits[..i]);
      EndCanonical(bits, i + 1, s[1..], x);
    }
  }

  /** The last node of a path that ends in a leaf. */
  lemma LastNode(bits: seq<bool>, s: seq<Word>, leaf: Word)
    requires 0 < |s| <= |bits| == 256 && leaf.LeafHash? && Canonical(Climb(bits, 0, s, leaf), [])
    ensures var t, last := s[..|s| - 1], s[|s| - 1];
            var x := Join(bits[|t|], leaf, last);
            && Climb(bits, 0, s, leaf) == Climb(bits, 0, t, x)
            && Canonical(x, bits[..|t|]) && Canonical(last, bits[..|t|] + [!bits[|t|]])
            && Contents(x) == Contents(last) + Contents(leaf) && leaf.key !in Contents(last)
            && !last.Num? && Live(last) <= Live(Climb(bits, 0, s, leaf))
  {
    var t, last := s[..|s| - 1], s[|s| - 1];
    var x := Join(bits[|t|], leaf, last);
    assert bits[..0] == [];
    assert s == t + [last];
    assert [last][1..] == [];
    ClimbConcat(bits, 0, t, [last], leaf);
    EndCanonical(bits, 0, t, x);
    CanonicalJoin(bits[|t|], leaf, last, bits[..|t|]);
    JoinContents(bits[|t|], leaf, last, bits[..|t|]);
    LiveOfClimb(bits, 0, t, x);
    LeafSiblingNotEmpty(bits, 0, s, leaf);
  }
}
