/**
The sparse Merkle tree contract: a map from field keys to field values, kept only as a store
of `hash -> node` entries and a root hash.
*/
module NonMembership {
  import opened Common
  import opened SparseTree

  datatype Error =
    | NotAuthorized
    | KeyNotFound
    | KeyAlreadyExists
    | InvalidProof
    | HostPanic // the hash refuses inputs outside the field and the host rolls the call back

  /** A stored vector: a leaf entry has three words, an internal node two. */
  datatype NodeData =
    | Three(tag: nat, key: nat, value: nat)
    | Two(left: Word, right: Word)
    | OtherLength(length: nat)

  datatype FindResult = FindResult(
    found: bool,
    siblings: seq<Word>,
    foundValue: nat,
    notFoundKey: nat,
    notFoundValue: nat,
    isOld0: bool)

  type Store = map<Word, NodeData>

  /** The entry that hashes to `d`. */
  function EntryOf(d: Word): NodeData {
    match d
    case Num(_) => OtherLength(0)
    case LeafHash(k, v) => Three(1, k, v)
    case NodeHash(l, r) => Two(l, r)
  }

  /** Every stored entry hashes back to the key it is stored under. */
  ghost predicate ContentAddressed(store: Store) {
    forall d | d in store :: !d.Num? && store[d] == EntryOf(d)
  }

  /** What the contract keeps in every reachable state. */
  ghost predicate Invariant(root: Word, store: Store) {
    Canonical(root, []) && ContentAddressed(store) && Live(root) <= store.Keys
  }

  /** What is stored under a hash: a leaf as one, key and value, a node as its two children. */
  lemma StoredAs(store: Store)
    requires ContentAddressed(store)
    ensures forall k, v | LeafHash(k, v) in store :: store[LeafHash(k, v)] == Three(1, k, v)
    ensures forall l, r | NodeHash(l, r) in store :: store[NodeHash(l, r)] == Two(l, r)
  {
    forall k, v | LeafHash(k, v) in store ensures store[LeafHash(k, v)] == Three(1, k, v) {
      var d := LeafHash(k, v);
      assert store[d] == EntryOf(d);
    }
    forall l, r | NodeHash(l, r) in store ensures store[NodeHash(l, r)] == Two(l, r) {
      var d := NodeHash(l, r);
      assert store[d] == EntryOf(d);
    }
  }

  // ---------------------------------------------------------------- searching

  /** The recursive search: missing nodes, malformed nodes and paths past 256 bits are errors. */
  function FindFrom(store: Store, key: nat, bits: seq<bool>, root: Word, level: nat)
    : (r: Result<FindResult, Error>)
    requires |bits| == 256
    decreases 256 - level
  {
    if root == ZERO then
      Ok(FindResult(false, [], 0, key, 0, true))
    else if root !in store then
      Err(KeyNotFound)
    else
      match store[root]
      case Three(tag, storedKey, storedValue) =>
        if tag != 1 then Err(KeyNotFound)
        else if storedKey == key then Ok(FindResult(true, [], storedValue, 0, 0, false))
        else Ok(FindResult(false, [], 0, storedKey, storedValue, false))
      case Two(left, right) =>
        if level >= |bits| then Err(KeyNotFound)
        else
          (match FindFrom(store, key, bits, if bits[level] then right else left, level + 1)
           case Err(e) => Err(e)
           case Ok(f) => Ok(f.(siblings := [if bits[level] then left else right] + f.siblings)))
      case OtherLength(_) =>
        Err(KeyNotFound)
  }

  /** What the search met at the end of the path. */
  function EndOf(key: nat, f: FindResult): Word {
    if f.found then LeafHash(key, f.foundValue)
    else if f.isOld0 then ZERO
    else LeafHash(f.notFoundKey, f.notFoundValue)
  }

  /** On a canonical tree whose live nodes are all stored the search never fails, reports the
      key exactly when the map has it, and returns the siblings that rebuild the root. */
  lemma {:induction false} FindIsLookup(store: Store, key: nat, root: Word, level: nat)
    requires level <= 256 && Canonical(root, Bits(key)[..level])
    requires ContentAddressed(store) && Live(root) <= store.Keys
    ensures FindFrom(store, key, Bits(key), root, level).Ok?
    ensures var f := FindFrom(store, key, Bits(key), root, level).value;
            && (f.found <==> key in Contents(root))
            && (f.found ==> Contents(root)[key] == f.foundValue)
            && level + |f.siblings| <= 256
            && root == Climb(Bits(key), level, f.siblings, EndOf(key, f))
            && Canonical(EndOf(key, f), Bits(key)[..level + |f.siblings|])
            && (f.found ==> !f.isOld0 && f.notFoundKey == 0 && f.notFoundValue == 0)
            && (!f.found ==> f.foundValue == 0)
            && (f.isOld0 ==> f.notFoundKey == key && f.notFoundValue == 0)
            && (!f.found && !f.isOld0 ==> f.notFoundKey != key)
    decreases 256 - level
  {
    var bits := Bits(key);
    match root
    case Num(_) =>
    case LeafHash(_, _) =>
    case NodeHash(l, r) =>
      TakeNext(bits, level);
      var c, s := if bits[level] then r else l, if bits[level] then l else r;
      CanonicalJoin(bits[level], c, s, bits[..level]);
      FindIsLookup(store, key, c, level + 1);
      var f := FindFrom(store, key, bits, c, level + 1).value;
      assert ([s] + f.siblings)[1..] == f.siblings;
      KeyAtEnd(bits, level, [s] + f.siblings, EndOf(key, f), key);
  }

  /** The search result at the root of a valid contract state. */
  ghost function Found(root: Word, store: Store, key: nat): (f: FindResult)
    requires Invariant(root, store)
    ensures FindFrom(store, key, Bits(key), root, 0) == Ok(f)
    ensures f.found <==> key in Contents(root)
    ensures f.found ==> Contents(root)[key] == f.foundValue
    ensures |f.siblings| <= 256 && root == Climb(Bits(key), 0, f.siblings, EndOf(key, f))
    ensures Canonical(EndOf(key, f), Bits(key)[..|f.siblings|])
    ensures !f.found && !f.isOld0 ==> f.notFoundKey != key
  {
    assert Bits(key)[..0] == [];
    FindIsLookup(store, key, root, 0);
    FindFrom(store, key, Bits(key), root, 0).value
  }

  // ---------------------------------------------------------------- non-membership proofs

  /** The value from which verification starts folding. */
  function ProofStart(key: nat, notFoundKey: nat, notFoundValue: nat): Word {
    if notFoundKey != key && notFoundValue != 0 then LeafHash(notFoundKey, notFoundValue) else ZERO
  }

  lemma {:induction false} ClimbInjective(bits: seq<bool>, i: nat, s: seq<Word>, x: Word, y: Word)
    requires i + |s| <= |bits|
    ensures Climb(bits, i, s, x) == Climb(bits, i, s, y) <==> x == y
    decreases |s|
  {
    if |s| > 0 {
      ClimbInjective(bits, i + 1, s[1..], x, y);
    }
  }

  /** Any siblings and start value that fold to the root prove absence on their own, with no
      access to the store: they are exactly what the search returns, and the key is absent. */
  lemma {:induction false} FoldProvesAbsence(root: Word, store: Store, key: nat, level: nat,
                                             siblings: seq<Word>, nfk: nat, nfv: nat)
    requires level + |siblings| <= 256 && Canonical(root, Bits(key)[..level])
    requires ContentAddressed(store) && Live(root) <= store.Keys
    requires Climb(Bits(key), level, siblings, ProofStart(key, nfk, nfv)) == root
    ensures key !in Contents(root)
    ensures FindFrom(store, key, Bits(key), root, level).Ok?
    ensures FindFrom(store, key, Bits(key), root, level).value.siblings == siblings
    ensures var f := FindFrom(store, key, Bits(key), root, level).value;
            if ProofStart(key, nfk, nfv) == ZERO then f.isOld0 else f.notFoundKey == nfk && f.notFoundValue == nfv
    decreases |siblings|
  {
    var bits := Bits(key);
    FindIsLookup(store, key, root, level);
    if |siblings| > 0 {
      TakeNext(bits, level);
      var c := Climb(bits, level + 1, siblings[1..], ProofStart(key, nfk, nfv));
      CanonicalJoin(bits[level], c, siblings[0], bits[..level]);
      FoldProvesAbsence(c, store, key, level + 1, siblings[1..], nfk, nfv);
    }
  }

  // ---------------------------------------------------------------- rewriting one path

  lemma {:induction false} InnerMember(bits: seq<bool>, i: nat, s: seq<Word>, x: Word, j: nat)
    requires i + |s| <= |bits| && j < |s|
    ensures Climb(bits, i + j, s[j..], x) in Inner(bits, i, s, x)
    decreases |s|
  {
    if j > 0 {
      assert s[1..][j - 1..] == s[j..];
      InnerMember(bits, i + 1, s[1..], x, j - 1);
    }
  }

  /** An internal node above the end of an absent key's path is live and does not hold the key,
      so it is none of the nodes an insert of that key writes. */
  lemma OldNodeNotWritten(root: Word, key: nat, found: seq<Word>, end: Word, i: nat, siblings: seq<Word>, leaf: Word)
    requires Canonical(root, []) && |found| <= 256 && root == Climb(Bits(key), 0, found, end)
    requires key !in Contents(root) && i < |found| <= |siblings| <= 256 && key in Contents(leaf)
    ensures var r := Climb(Bits(key), i, found[i..], end);
            r !in Inner(Bits(key), i + 1, siblings[i + 1..], leaf) && r != leaf
  {
    assert Bits(key)[..0] == [];
    InnerMember(Bits(key), 0, found, end, i);
    PathNodesUnshared(Bits(key), 0, found, end);
    LiveHoldsOnlyContents(root, [], key);
    InnerHoldsKey(Bits(key), i + 1, siblings[i + 1..], leaf, key);
  }

  /** `n` empty siblings over the bits the two keys share, then the old leaf where they part. */
  ghost predicate ForksAt(key: nat, f: FindResult, tail: seq<Word>, n: nat) {
    var depth := |f.siblings|;
    && depth + n < 256 && tail == Fork(n, EndOf(key, f))
    && SiblingsLive(tail) == Live(EndOf(key, f))
    && (forall j | depth <= j < depth + n :: Bits(f.notFoundKey)[j] == Bits(key)[j])
    && Bits(f.notFoundKey)[depth + n] != Bits(key)[depth + n]
  }

  /** The siblings an insert adds below the ones it found. */
  ghost predicate IsTail(key: nat, f: FindResult, tail: seq<Word>) {
    if f.isOld0 then tail == [] else exists n: nat :: ForksAt(key, f, tail, n)
  }

  /** Two different keys part before their 256 bits run out, so extending the siblings with
      zeros over the common bits and then the old leaf gives the tail the insert needs. */
  lemma ForkFound(key: nat, f: FindResult, i: nat, zeros: seq<Word>)
    requires |f.siblings| <= i <= 256 && |zeros| == i - |f.siblings|
    requires InField(key) && !f.found && !f.isOld0 && f.notFoundKey != key
    requires Canonical(EndOf(key, f), Bits(key)[..|f.siblings|])
    requires forall j | 0 <= j < |zeros| :: zeros[j] == ZERO
    requires forall j | |f.siblings| <= j < i :: Bits(f.notFoundKey)[j] == Bits(key)[j]
    requires i == 256 || Bits(f.notFoundKey)[i] != Bits(key)[i]
    ensures i < 256 && IsTail(key, f, zeros + [EndOf(key, f)])
  {
    if i == 256 {
      assert Bits(f.notFoundKey) == Bits(key);
      BitsInjective(f.notFoundKey, key);
    }
    ForkSnoc(i - |f.siblings|, EndOf(key, f), zeros);
    assert ForksAt(key, f, zeros + [EndOf(key, f)], i - |f.siblings|);
  }

  lemma {:induction false} ForkZeros(n: nat, x: Word)
    ensures forall j | 0 <= j < n :: Fork(n, x)[j] == ZERO
  {
    if n > 0 {
      ForkZeros(n - 1, x);
    }
  }

  lemma TailShape(key: nat, f: FindResult, siblings: seq<Word>)
    requires f.siblings <= siblings && IsTail(key, f, siblings[|f.siblings|..])
    ensures f.isOld0 <==> |siblings| == |f.siblings|
    ensures forall j | |f.siblings| <= j < |siblings| - 1 :: siblings[j] == ZERO
  {
    var depth, tail := |f.siblings|, siblings[|f.siblings|..];
    if !f.isOld0 {
      var n: nat :| ForksAt(key, f, tail, n);
      ForkZeros(n, EndOf(key, f));
      assert forall j | depth <= j < |siblings| :: siblings[j] == tail[j - depth];
    }
  }

  /** The subtree an insert hangs at the end of the path is canonical and adds one binding. */
  lemma NewEnd(key: nat, value: nat, f: FindResult, tail: seq<Word>)
    requires InField(key) && InField(value) && !f.found && |f.siblings| <= 256
    requires Canonical(EndOf(key, f), Bits(key)[..|f.siblings|])
    requires IsTail(key, f, tail)
    ensures |f.siblings| + |tail| <= 256
    ensures var y := Climb(Bits(key), |f.siblings|, tail, LeafHash(key, value));
            && Canonical(y, Bits(key)[..|f.siblings|])
            && NumLeaves(y) >= NumLeaves(EndOf(key, f))
            && Contents(y) == Contents(EndOf(key, f)) + map[key := value]
    ensures SiblingsLive(tail) == Live(EndOf(key, f))
  {
    var bits, depth, end := Bits(key), |f.siblings|, EndOf(key, f);
    if !f.isOld0 {
      var n: nat :| ForksAt(key, f, tail, n);
      ForkCanonical(bits, depth, n, LeafHash(key, value), end);
    }
  }

  /** The tree after an insert is canonical and holds one binding more. */
  lemma InsertedTree(root: Word, store: Store, key: nat, value: nat, f: FindResult, tail: seq<Word>)
    requires Invariant(root, store) && f == Found(root, store, key) && !f.found
    requires InField(key) && InField(value) && IsTail(key, f, tail)
    ensures |f.siblings| + |tail| <= 256
    ensures var after := Climb(Bits(key), 0, f.siblings + tail, LeafHash(key, value));
            Canonical(after, []) && Contents(after) == Contents(root)[key := value]
  {
    var bits, end := Bits(key), EndOf(key, f);
    assert bits[..0] == [];
    NewEnd(key, value, f, tail);
    ReplaceAtEnd(bits, 0, f.siblings, end, Climb(bits, |f.siblings|, tail, LeafHash(key, value)));
    ReplaceAtEnd(bits, 0, f.siblings, end, end);
    ClimbConcat(bits, 0, f.siblings, tail, LeafHash(key, value));
    MergeInsert(Contents(root), Contents(end), key, value);
  }

  /** Its live nodes are the ones the insert wrote and the ones stored before off the old path. */
  lemma InsertedLive(root: Word, store: Store, key: nat, value: nat, f: FindResult, tail: seq<Word>)
    requires Invariant(root, store) && f == Found(root, store, key) && !f.found
    requires |f.siblings| + |tail| <= 256 && SiblingsLive(tail) == Live(EndOf(key, f))
    ensures var leaf, s := LeafHash(key, value), f.siblings + tail;
            var kept := store.Keys - Inner(Bits(key), 0, f.siblings, EndOf(key, f));
            var after := Climb(Bits(key), 0, s, leaf);
            && Live(after) <= kept + Inner(Bits(key), 0, s, leaf) + {leaf}
            && (store.Keys == Live(root) ==> Live(after) == kept + Inner(Bits(key), 0, s, leaf) + {leaf})
  {
    var bits := Bits(key);
    assert bits[..0] == [];
    LiveOfClimb(bits, 0, f.siblings + tail, LeafHash(key, value));
    LiveOfClimb(bits, 0, f.siblings, EndOf(key, f));
    SiblingsLiveConcat(f.siblings, tail);
    PathNodesUnshared(bits, 0, f.siblings, EndOf(key, f));
  }

  lemma MergeInsert(m: map<nat, nat>, e: map<nat, nat>, key: nat, value: nat)
    requires m == (m - e.Keys) + e && key !in m
    ensures (m - e.Keys) + (e + map[key := value]) == m[key := value]
  {
  }

  /** The search's own proof folds back to the root exactly when it did not collide with a
      leaf that stores zero. */
  lemma ProofFolds(root: Word, store: Store, key: nat, f: FindResult)
    requires Invariant(root, store) && f == Found(root, store, key) && !f.found
    ensures Climb(Bits(key), 0, f.siblings, ProofStart(key, f.notFoundKey, f.notFoundValue)) == root
            <==> f.isOld0 || f.notFoundValue != 0
  {
    assert Bits(key)[..0] == [];
    FindIsLookup(store, key, root, 0);
    ClimbInjective(Bits(key), 0, f.siblings, ProofStart(key, f.notFoundKey, f.notFoundValue), EndOf(key, f));
  }

  // ---------------------------------------------------------------- the contract

  /** The key bits, least significant first, by repeated division. */
  method SplitBits(key: nat) returns (bits: seq<bool>)
    ensures bits == Bits(key)
    ensures |bits| == 256 && forall i | 0 <= i < 256 :: bits[i] <==> key / Pow2(i) % 2 == 1
  {
    BitsAreBits(key);
    bits := [];
    var k := key;
    ghost var all := Bits(key);
    for i := 0 to 256
      invariant |bits| == i
      invariant bits + BitsOf(k, 256 - i) == all
    {
      bits := bits + [k % 2 == 1];
      k := k / 2;
    }
    assert bits + BitsOf(k, 0) == bits;
  }

  /** On a collision, extend the siblings with zeros over the common bits, then the old leaf. */
  method ExtendSiblings(key: nat, keyBits: seq<bool>, find: FindResult) returns (siblings: seq<Word>, rtOld: Word)
    requires keyBits == Bits(key) && InField(key)
    requires !find.found && |find.siblings| <= 256 && (!find.isOld0 ==> find.notFoundKey != key)
    requires Canonical(EndOf(key, find), Bits(key)[..|find.siblings|])
    ensures find.siblings <= siblings && |siblings| <= 256
    ensures IsTail(key, find, siblings[|find.siblings|..])
    ensures rtOld == EndOf(key, find)
  {
    siblings, rtOld := find.siblings, ZERO;
    ghost var zeros: seq<Word> := [];
    if !find.isOld0 {
      var oldKeyBits := SplitBits(find.notFoundKey);
      var i := |siblings|;
      while i < |oldKeyBits| && i < |keyBits| && oldKeyBits[i] == keyBits[i]
        invariant |find.siblings| <= i <= 256
        invariant siblings == find.siblings + zeros && |siblings| == i
        invariant forall j | 0 <= j < |zeros| :: zeros[j] == ZERO
        invariant forall j | |find.siblings| <= j < i :: oldKeyBits[j] == keyBits[j]
      {
        siblings, zeros := siblings + [ZERO], zeros + [ZERO];
        i := i + 1;
      }
      ForkFound(key, find, i, zeros);
      rtOld := LeafHash(find.notFoundKey, find.notFoundValue);
      siblings := siblings + [rtOld];
      assert siblings[|find.siblings|..] == zeros + [rtOld];
    }
  }

  /** Dropping a superseded node that was not just written. */
  lemma KeysStep(stored: set<Word>, dropped: set<Word>, written: set<Word>, leaf: Word, r: Word)
    requires r !in written && r != leaf
    ensures ((stored - dropped) + written + {leaf}) - {r} == (stored - ({r} + dropped)) + written + {leaf}
  {
  }

  /** The superseded node at depth `i` is none of the nodes written below it. */
  ghost predicate Superseded(bits: seq<bool>, i: nat, found: seq<Word>, end: Word, siblings: seq<Word>, leaf: Word)
    requires i < |found| <= |siblings| <= |bits|
  {
    var r := Climb(bits, i, found[i..], end);
    r !in Inner(bits, i + 1, siblings[i + 1..], leaf) && r != leaf
  }

  /** The insert loop: write the new leaf and the nodes above it, drop the superseded ones. */
  method RebuildAfterInsert(stored: Store, leaf: Word, keyBits: seq<bool>,
                            found: seq<Word>, siblings: seq<Word>, oldEnd: Word)
    returns (rt: Word, store: Store)
    requires |siblings| <= |keyBits| && found <= siblings && leaf.LeafHash? && ContentAddressed(stored)
    requires forall j | |found| <= j < |siblings| - 1 :: siblings[j] == ZERO
    requires |found| < |siblings| && |found| > 0 ==> found[|found| - 1] != ZERO
    requires forall i | 0 <= i < |found| :: Superseded(keyBits, i, found, oldEnd, siblings, leaf)
    ensures rt == Climb(keyBits, 0, siblings, leaf)
    ensures ContentAddressed(store)
    ensures store.Keys == (stored.Keys - Inner(keyBits, 0, found, oldEnd)) + Inner(keyBits, 0, siblings, leaf) + {leaf}
  {
    var n, depth := |siblings|, |found|;
    var addedOne, rtOld := depth < n, oldEnd;
    var mixed := !addedOne && siblings != [];
    ghost var dropped: set<Word>, written: set<Word> := {}, {};
    rt := leaf;
    store := stored[rt := EntryOf(leaf)];
    var i := n;
    while i > 0
      invariant 0 <= i <= n
      invariant rt == Climb(keyBits, i, siblings[i..], leaf)
      invariant rtOld == if i < depth then Climb(keyBits, i, found[i..], oldEnd) else oldEnd
      invariant mixed <==> (!addedOne && depth > 0) || i < depth
      invariant ContentAddressed(store)
      invariant dropped == if i < depth then Inner(keyBits, i, found[i..], oldEnd) else {}
      invariant written == Inner(keyBits, i, siblings[i..], leaf)
      invariant store.Keys == (stored.Keys - dropped) + written + {leaf}
    {
      i := i - 1;
      var sibling := siblings[i];
      ClimbStep(keyBits, i, siblings, leaf);
      var isLastAddedLeaf := addedOne && i == n - 1;
      if !isLastAddedLeaf && i < n - 1 && sibling != ZERO {
        mixed := true;
      }
      if mixed && !isLastAddedLeaf {
        var oldSibling := if i < |found| then found[i] else ZERO;
        ClimbStep(keyBits, i, found, oldEnd);
        rtOld := Join(keyBits[i], rtOld, oldSibling);
        assert Superseded(keyBits, i, found, oldEnd, siblings, leaf);
        KeysStep(stored.Keys, dropped, written, leaf, rtOld);
        dropped := {rtOld} + dropped;
        store := store - {rtOld};
      }
      var left, right := if keyBits[i] then sibling else rt, if keyBits[i] then rt else sibling;
      rt := NodeHash(left, right);
      written := {rt} + written;
      store := store[rt := Two(left, right)];
    }
    assert siblings[0..] == siblings && found[0..] == found;
  }

  /** What the insert loop relies on holds in every valid state. */
  lemma InsertReady(root: Word, store: Store, key: nat, value: nat, f: FindResult, siblings: seq<Word>)
    requires Invariant(root, store) && f == Found(root, store, key) && !f.found
    requires f.siblings <= siblings && |siblings| <= 256 && IsTail(key, f, siblings[|f.siblings|..])
    ensures forall j | |f.siblings| <= j < |siblings| - 1 :: siblings[j] == ZERO
    ensures |f.siblings| < |siblings| && |f.siblings| > 0 ==> f.siblings[|f.siblings| - 1] != ZERO
    ensures forall i | 0 <= i < |f.siblings| ::
              Superseded(Bits(key), i, f.siblings, EndOf(key, f), siblings, LeafHash(key, value))
  {
    assert Bits(key)[..0] == [];
    TailShape(key, f, siblings);
    if |f.siblings| < |siblings| && |f.siblings| > 0 {
      LeafSiblingNotEmpty(Bits(key), 0, f.siblings, EndOf(key, f));
    }
    forall i | 0 <= i < |f.siblings|
      ensures Superseded(Bits(key), i, f.siblings, EndOf(key, f), siblings, LeafHash(key, value))
    {
      OldNodeNotWritten(root, key, f.siblings, EndOf(key, f), i, siblings, LeafHash(key, value));
    }
  }

  // ---------------------------------------------------------------- deleting

  /** The sibling a delete looks up is stored and is not the deleted leaf. */
  lemma LastSiblingStored(root: Word, store: Store, key: nat, f: FindResult)
    requires Invariant(root, store) && f == Found(root, store, key) && f.found && |f.siblings| > 0
    ensures var last := f.siblings[|f.siblings| - 1];
            && !last.Num? && last in store && last != LeafHash(key, f.foundValue)
  {
    LastNode(Bits(key), f.siblings, LeafHash(key, f.foundValue));
  }

  /** The delete promotes the last sibling: it is a leaf, left alone once the key is gone. */
  predicate Promotes(f: FindResult) {
    f.found && |f.siblings| > 0 && f.siblings[|f.siblings| - 1].LeafHash?
  }

  function KeptSiblings(f: FindResult): seq<Word> {
    if Promotes(f) then f.siblings[..|f.siblings| - 1] else f.siblings
  }

  function NewEndAfterDelete(f: FindResult): Word {
    if Promotes(f) then f.siblings[|f.siblings| - 1] else ZERO
  }

  /** The old subtree at the place where the delete starts rebuilding. */
  function OldEndOfDelete(key: nat, f: FindResult): Word
    requires |f.siblings| <= 256
  {
    var leaf := LeafHash(key, f.foundValue);
    if Promotes(f) then Join(Bits(key)[|f.siblings| - 1], leaf, f.siblings[|f.siblings| - 1]) else leaf
  }

  lemma DeleteStart(root: Word, store: Store, key: nat, f: FindResult)
    requires Invariant(root, store) && f == Found(root, store, key) && f.found
    ensures var s, x, y := KeptSiblings(f), OldEndOfDelete(key, f), NewEndAfterDelete(f);
            && root == Climb(Bits(key), 0, s, x) && Canonical(x, Bits(key)[..|s|])
            && key in Contents(x) && Contents(y) == Contents(x) - {key}
            && (y == ZERO || (y.LeafHash? && Canonical(y, Bits(key)[..|s|])))
            && (y == ZERO && |s| > 0 ==> s[|s| - 1].NodeHash?)
  {
    var leaf := LeafHash(key, f.foundValue);
    if |f.siblings| > 0 {
      LastNode(Bits(key), f.siblings, leaf);
    }
    if Promotes(f) {
      PromotedEnd(Bits(key), KeptSiblings(f), leaf, NewEndAfterDelete(f));
    }
  }

  lemma PromotedEnd(bits: seq<bool>, s: seq<Word>, leaf: Word, last: Word)
    requires |s| < |bits| && leaf.LeafHash? && last.LeafHash?
    requires Canonical(last, bits[..|s|] + [!bits[|s|]]) && leaf.key !in Contents(last)
    ensures Contents(last) == (Contents(last) + Contents(leaf)) - {leaf.key}
    ensures Canonical(last, bits[..|s|])
  {
    NextBit(bits[..|s|], !bits[|s|], Bits(last.key));
  }

  /** The tree after a delete is canonical and holds one binding less. */
  lemma DeletedTree(root: Word, store: Store, key: nat, f: FindResult)
    requires Invariant(root, store) && f == Found(root, store, key) && f.found
    ensures var after := Collapse(Bits(key), 0, KeptSiblings(f), NewEndAfterDelete(f));
            Canonical(after, []) && Contents(after) == Contents(root) - {key}
  {
    assert Bits(key)[..0] == [];
    DeleteStart(root, store, key, f);
    CollapseDeletes(Bits(key), 0, KeptSiblings(f), OldEndOfDelete(key, f), NewEndAfterDelete(f), key);
  }

  /** A hash recomputed along the old path is none of the nodes written so far. */
  ghost predicate Recomputed(bits: seq<bool>, i: nat, s: seq<Word>, leaf: Word, y: Word)
    requires i < |s| <= |bits|
  {
    Climb(bits, i, s[i..], leaf) !in CollapseInner(bits, i + 1, s[i + 1..], y)
  }

  lemma DeleteReady(root: Word, store: Store, key: nat, f: FindResult)
    requires Invariant(root, store) && f == Found(root, store, key) && f.found
    ensures var s, leaf, y := KeptSiblings(f), LeafHash(key, f.foundValue), NewEndAfterDelete(f);
            && (forall e | e in Inner(Bits(key), 0, s, leaf) + {leaf} :: key in Contents(e))
            && (forall e | e in Live(Collapse(Bits(key), 0, s, y)) :: key !in Contents(e))
            && forall i | 0 <= i < |s| :: Recomputed(Bits(key), i, s, leaf, y)
  {
    var bits, s, leaf, y := Bits(key), KeptSiblings(f), LeafHash(key, f.foundValue), NewEndAfterDelete(f);
    DeletedTree(root, store, key, f);
    InnerHoldsKey(bits, 0, s, leaf, key);
    LiveHoldsOnlyContents(Collapse(bits, 0, s, y), [], key);
    LiveOfCollapse(bits, 0, s, y);
    forall i | 0 <= i < |s| ensures Recomputed(bits, i, s, leaf, y) {
      CollapseInnerSuffix(bits, 0, s, y, i + 1);
      InnerMember(bits, 0, s, leaf, i);
    }
  }

  /** After a delete every live node is stored; a store without leftovers stays so exactly when
      no sibling was promoted. */
  lemma DeletedStore(root: Word, store: Store, key: nat, f: FindResult, keys: set<Word>)
    requires Invariant(root, store) && f == Found(root, store, key) && f.found
    requires var s, leaf, y := KeptSiblings(f), LeafHash(key, f.foundValue), NewEndAfterDelete(f);
             keys == ((store.Keys - {leaf}) - Inner(Bits(key), 0, s, leaf)) + CollapseInner(Bits(key), 0, s, y)
    ensures Live(Collapse(Bits(key), 0, KeptSiblings(f), NewEndAfterDelete(f))) <= keys
    ensures store.Keys == Live(root) ==>
              (keys == Live(Collapse(Bits(key), 0, KeptSiblings(f), NewEndAfterDelete(f))) <==> !Promotes(f))
  {
    var bits, s, leaf, y := Bits(key), KeptSiblings(f), LeafHash(key, f.foundValue), NewEndAfterDelete(f);
    var x := OldEndOfDelete(key, f);
    assert bits[..0] == [];
    DeleteStart(root, store, key, f);
    DeleteReady(root, store, key, f);
    LiveOfClimb(bits, 0, s, x);
    LiveOfCollapse(bits, 0, s, y);
    if Promotes(f) {
      ParentNotRecomputed(bits, 0, s, leaf, y, bits[|s|]);
      assert x in Live(x) && key in Contents(x);
    }
  }

  /** The delete loop: recompute and drop the old path, and rebuild from the first level whose
      sibling is not empty. */
  method RebuildAfterDelete(stored: Store, leaf: Word, keyBits: seq<bool>, siblings: seq<Word>, start: Word)
    returns (rtNew: Word, store: Store)
    requires |siblings| <= |keyBits| && ContentAddressed(stored)
    requires forall i | 0 <= i < |siblings| :: Recomputed(keyBits, i, siblings, leaf, start)
    ensures rtNew == Collapse(keyBits, 0, siblings, start)
    ensures ContentAddressed(store)
    ensures store.Keys == (stored.Keys - Inner(keyBits, 0, siblings, leaf)) + CollapseInner(keyBits, 0, siblings, start)
  {
    var n := |siblings|;
    var rtOld, mixed := leaf, false;
    ghost var dropped: set<Word>, written: set<Word> := {}, {};
    rtNew, store := start, stored;
    for levelIdx := 0 to n
      invariant rtOld == Climb(keyBits, n - levelIdx, siblings[n - levelIdx..], leaf)
      invariant rtNew == Collapse(keyBits, n - levelIdx, siblings[n - levelIdx..], start)
      invariant mixed <==> !AllZero(siblings[n - levelIdx..])
      invariant ContentAddressed(store)
      invariant dropped == Inner(keyBits, n - levelIdx, siblings[n - levelIdx..], leaf)
      invariant written == CollapseInner(keyBits, n - levelIdx, siblings[n - levelIdx..], start)
      invariant store.Keys == (stored.Keys - dropped) + written
    {
      var level := n - 1 - levelIdx;
      var sibling := siblings[level];
      ClimbStep(keyBits, level, siblings, leaf);
      CollapseStep(keyBits, level, siblings, start);
      assert Recomputed(keyBits, level, siblings, leaf, start);
      rtOld := Join(keyBits[level], rtOld, sibling);
      store := store - {rtOld};
      dropped := {rtOld} + dropped;
      if sibling != ZERO {
        mixed := true;
      }
      if mixed {
        var left, right := if keyBits[level] then sibling else rtNew, if keyBits[level] then rtNew else sibling;
        rtNew := NodeHash(left, right);
        store := store[rtNew := Two(left, right)];
        written := {rtNew} + written;
      }
    }
    assert siblings[0..] == siblings;
  }

  /** What the insert loop leaves behind is again a valid state. */
  lemma InsertResult(root: Word, store: Store, key: nat, value: nat, f: FindResult, siblings: seq<Word>)
    requires Invariant(root, store) && f == Found(root, store, key) && !f.found
    requires InField(key) && InField(value)
    requires f.siblings <= siblings && |siblings| <= 256 && IsTail(key, f, siblings[|f.siblings|..])
    ensures var leaf := LeafHash(key, value);
            var after := Climb(Bits(key), 0, siblings, leaf);
            var keys := (store.Keys - Inner(Bits(key), 0, f.siblings, EndOf(key, f))) + Inner(Bits(key), 0, siblings, leaf) + {leaf};
            && Canonical(after, []) && Contents(after) == Contents(root)[key := value] && Live(after) <= keys
            && (store.Keys == Live(root) ==> Live(after) == keys)
  {
    var tail := siblings[|f.siblings|..];
    assert siblings == f.siblings + tail;
    InsertedTree(root, store, key, value, f, tail);
    NewEnd(key, value, f, tail);
    InsertedLive(root, store, key, value, f, tail);
  }

  class ASPNonMembership {
    var root: Word
    var nodes: Store

    ghost predicate Valid()
      reads this
    {
      Invariant(root, nodes)
    }

    /** The map this contract stands for. */
    ghost function Map(): map<nat, nat>
      reads this
    {
      Contents(root)
    }

    /** No entry is left over: the store holds the live nodes and nothing else. */
    ghost predicate Exact()
      reads this
    {
      nodes.Keys == Live(root)
    }

    constructor ()
      ensures Valid() && Exact() && Map() == map[]
    {
      root, nodes := ZERO, map[];
    }

    method FindKey(key: nat) returns (r: Result<FindResult, Error>)
      requires Valid()
      ensures r == Ok(Found(root, nodes, key))
      ensures r.value.found <==> key in Map()
      ensures r.value.found ==> r.value.foundValue == Map()[key]
    {
      assert Bits(key)[..0] == [];
      FindIsLookup(nodes, key, root, 0);
      var bits := SplitBits(key);
      r := FindFrom(nodes, key, bits, root, 0);
    }

    method InsertLeaf(authorized: bool, key: nat, value: nat) returns (r: Result<(), Error>)
      requires Valid()
      modifies this
      ensures Valid()
      ensures r == if !authorized then Err(NotAuthorized)
                   else if key in old(Map()) then Err(KeyAlreadyExists)
                   else if !InField(key) || !InField(value) then Err(HostPanic)
                   else Ok(())
      ensures r.Ok? ==> Map() == old(Map())[key := value]
      ensures r.Err? ==> root == old(root) && nodes == old(nodes)
      ensures old(Exact()) ==> Exact()
    {
      if !authorized {
        return Err(NotAuthorized);
      }
      assert Bits(key)[..0] == [];
      FindIsLookup(nodes, key, root, 0);
      var keyBits := SplitBits(key);
      var find := FindFrom(nodes, key, keyBits, root, 0).value;
      if find.found {
        return Err(KeyAlreadyExists);
      }
      if !InField(key) || !InField(value) {
        return Err(HostPanic);
      }
      var siblings, rtOld := ExtendSiblings(key, keyBits, find);
      InsertReady(root, nodes, key, value, find, siblings);
      InsertResult(root, nodes, key, value, find, siblings);
      root, nodes := RebuildAfterInsert(nodes, LeafHash(key, value), keyBits, find.siblings, siblings, rtOld);
      r := Ok(());
    }

    method DeleteLeaf(authorized: bool, key: nat) returns (r: Result<(), Error>)
      requires Valid()
      modifies this
      ensures Valid()
      ensures r == if !authorized then Err(NotAuthorized)
                   else if key !in old(Map()) then Err(KeyNotFound)
                   else Ok(())
      ensures r.Ok? ==> Map() == old(Map()) - {key}
      ensures r.Err? ==> root == old(root) && nodes == old(nodes)
      ensures r.Ok? && old(Exact()) ==> (Exact() <==> !Promotes(old(Found(root, nodes, key))))
    {
      if !authorized {
        return Err(NotAuthorized);
      }
      var keyBits := SplitBits(key);
      ghost var f := Found(root, nodes, key);
      var find := FindFrom(nodes, key, keyBits, root, 0).value;
      if !find.found {
        return Err(KeyNotFound);
      }
      DeleteStart(root, nodes, key, f);
      DeleteReady(root, nodes, key, f);
      DeletedTree(root, nodes, key, f);
      var leaf := LeafHash(key, find.foundValue);
      var stored := nodes - {leaf};
      var rtNew, siblingsToUse := ZERO, find.siblings;
      if |find.siblings| > 0 {
        var lastSibling := find.siblings[|find.siblings| - 1];
        LastSiblingStored(root, nodes, key, f);
        if lastSibling !in stored {
          return Err(KeyNotFound);
        }
        match stored[lastSibling]
        case Three(tag, _, _) =>
          if tag != 1 {
            return Err(KeyNotFound);
          }
          rtNew := lastSibling;
          siblingsToUse := siblingsToUse[..|siblingsToUse| - 1];
        case Two(_, _) =>
          rtNew := ZERO;
        case OtherLength(_) =>
          return Err(KeyNotFound);
      }
      ghost var before := nodes;
      rtNew, stored := RebuildAfterDelete(stored, leaf, keyBits, siblingsToUse, rtNew);
      DeletedStore(root, before, key, f, stored.Keys);
      root, nodes := rtNew, stored;
      r := Ok(());
    }

    /** Accepts exactly the proof the search returns for an absent key, unless that proof
        collides with a leaf whose stored value is zero. */
    method VerifyNonMembership(key: nat, siblings: seq<Word>, notFoundKey: nat, notFoundValue: nat)
      returns (r: Result<bool, Error>)
      requires Valid()
      ensures var f := Found(root, nodes, key);
              r == if key in Map() then Ok(false)
                   else if siblings == f.siblings && notFoundKey == f.notFoundKey
                           && notFoundValue == f.notFoundValue && (f.isOld0 || notFoundValue != 0) then Ok(true)
                   else Err(InvalidProof)
    {
      ghost var f := Found(root, nodes, key);
      assert Bits(key)[..0] == [];
      FindIsLookup(nodes, key, root, 0);
      var keyBits := SplitBits(key);
      var find := FindFrom(nodes, key, keyBits, root, 0).value;
      if find.found {
        return Ok(false);
      }
      if |find.siblings| != |siblings| {
        return Err(InvalidProof);
      }
      var same := SameSiblings(siblings, find.siblings);
      if !same {
        return Err(InvalidProof);
      }
      if find.notFoundKey != notFoundKey || find.notFoundValue != notFoundValue {
        return Err(InvalidProof);
      }
      var start := ProofStart(key, notFoundKey, notFoundValue);
      var computedRoot := FoldSiblings(keyBits, siblings, start);
      ProofFolds(root, nodes, key, f);
      if computedRoot != root {
        return Err(InvalidProof);
      }
      r := Ok(true);
    }
  }

  method SameSiblings(a: seq<Word>, b: seq<Word>) returns (same: bool)
    requires |a| == |b|
    ensures same <==> a == b
  {
    for i := 0 to |a|
      invariant forall j | 0 <= j < i :: a[j] == b[j]
    {
      if a[i] != b[i] {
        return false;
      }
    }
    return true;
  }

  /** The verifier's loop from the leaf level to the root. */
  method FoldSiblings(keyBits: seq<bool>, siblings: seq<Word>, start: Word) returns (computedRoot: Word)
    requires |siblings| <= |keyBits|
    ensures computedRoot == Climb(keyBits, 0, siblings, start)
  {
    computedRoot := start;
    var n := |siblings|;
    for levelIdx := 0 to n
      invariant computedRoot == Climb(keyBits, n - levelIdx, siblings[n - levelIdx..], start)
    {
      var level := n - 1 - levelIdx;
      ClimbStep(keyBits, level, siblings, start);
      computedRoot := Join(keyBits[level], computedRoot, siblings[level]);
    }
    assert siblings[0..] == siblings;
  }
}
