/**
The shielded pool: roots, nullifiers and token balances over whole runs. Every call either
succeeds as a whole or changes nothing. The proof verifier is an arbitrary predicate.
*/
module Pool {
  import opened Common
  import opened PoolStatement
  import opened Token
  import T = PoolTree

  datatype ExtData = ExtData(recipient: Address, extAmount: int, encryptedOutput0: seq<nat>, encryptedOutput1: seq<nat>)

  /** An accepted call, as the history records it. */
  datatype Accepted = Accepted(nullifiers: seq<nat>, extAmount: int, sender: Address, recipient: Address)

  predicate Spent(nulls: map<nat, bool>, n: nat) {
    n in nulls && nulls[n]
  }

  // ---------------------------------------------------------------- one call

  /** The deposit half: only a positive amount moves tokens, from the sender to the pool. */
  function AfterDeposit(b: Balances, ext: int, maximum: nat, sender: Address, pool: Address): Result<Balances, Error> {
    if ext <= 0 then Ok(b)
    else if ext > maximum || ext > I128_MAX then Err(WrongExtAmount)
    else
      match Transfer(b, sender, pool, ext)
      case None => Err(HostTrap)
      case Some(b') => Ok(b')
  }

  /** The withdrawal half: only a negative amount moves tokens, from the pool to the recipient. */
  function AfterWithdrawal(b: Balances, ext: int, recipient: Address, pool: Address): Result<Balances, Error> {
    if ext >= 0 then Ok(b)
    else if -ext > I128_MAX then Err(WrongExtAmount)
    else
      match Transfer(b, pool, recipient, -ext)
      case None => Err(HostTrap)
      case Some(b') => Ok(b')
  }

  /** Every balance after an accepted call: a positive amount goes from the sender to the pool, a
      negative one from the pool to the recipient. */
  ghost predicate Settled(was: Balances, now: Balances, ext: int, sender: Address, recipient: Address, pool: Address) {
    if ext > 0 then Moved(was, now, sender, pool, ext)
    else if ext < 0 then Moved(was, now, pool, recipient, -ext)
    else forall a: Address :: BalanceOf(now, a) == BalanceOf(was, a)
  }

  predicate CanWithdraw(b: Balances, ext: int, recipient: Address, pool: Address) {
    ext < 0 ==> -ext <= I128_MAX && CanTransfer(b, pool, recipient, -ext)
  }

  /** When the tokens of a call can be moved. */
  predicate CanSettle(b: Balances, ext: int, maximum: nat, sender: Address, recipient: Address, pool: Address) {
    && (ext > 0 ==> ext <= maximum && ext <= I128_MAX && CanTransfer(b, sender, pool, ext))
    && CanWithdraw(b, ext, recipient, pool)
  }

  lemma WithdrawnExactly(b: Balances, ext: int, recipient: Address, pool: Address)
    ensures var w := AfterWithdrawal(b, ext, recipient, pool);
            && (w.Ok? <==> CanWithdraw(b, ext, recipient, pool))
            && (w.Ok? && ext < 0 ==> Moved(b, w.value, pool, recipient, -ext))
            && (w.Ok? && ext >= 0 ==> w.value == b)
  {
    if ext < 0 {
      TransferAccepted(b, pool, recipient, -ext);
      if Transfer(b, pool, recipient, -ext).Some? {
        TransferMovesAll(b, pool, recipient, -ext);
      }
    }
  }

  lemma DepositedExactly(b: Balances, ext: int, maximum: nat, sender: Address, pool: Address)
    ensures var d := AfterDeposit(b, ext, maximum, sender, pool);
            && (d.Ok? <==> (ext > 0 ==> ext <= maximum && ext <= I128_MAX && CanTransfer(b, sender, pool, ext)))
            && (d.Ok? && ext > 0 ==> Moved(b, d.value, sender, pool, ext))
            && (d.Ok? && ext <= 0 ==> d.value == b)
  {
    if ext > 0 {
      TransferAccepted(b, sender, pool, ext);
      if Transfer(b, sender, pool, ext).Some? {
        TransferMovesAll(b, sender, pool, ext);
      }
    }
  }

  /** Deposit and withdrawal together: when they go through, and every balance afterwards. */
  lemma SettledExactly(b: Balances, ext: int, maximum: nat, sender: Address, recipient: Address, pool: Address)
    ensures var d := AfterDeposit(b, ext, maximum, sender, pool);
            && (d.Ok? && AfterWithdrawal(d.value, ext, recipient, pool).Ok?
                <==> CanSettle(b, ext, maximum, sender, recipient, pool))
            && (d.Ok? && AfterWithdrawal(d.value, ext, recipient, pool).Ok? ==>
                  Settled(b, AfterWithdrawal(d.value, ext, recipient, pool).value, ext, sender, recipient, pool))
  {
    DepositedExactly(b, ext, maximum, sender, pool);
    var d := AfterDeposit(b, ext, maximum, sender, pool);
    if d.Ok? {
      WithdrawnExactly(d.value, ext, recipient, pool);
    }
  }

  /** A call moves tokens and neither creates nor destroys any. */
  lemma SettledConserves(b: Balances, ext: int, maximum: nat, sender: Address, recipient: Address, pool: Address)
    requires AfterDeposit(b, ext, maximum, sender, pool).Ok?
    requires AfterWithdrawal(AfterDeposit(b, ext, maximum, sender, pool).value, ext, recipient, pool).Ok?
    ensures Supply(AfterWithdrawal(AfterDeposit(b, ext, maximum, sender, pool).value, ext, recipient, pool).value)
            == Supply(b)
  {
    if ext > 0 {
      TransferConserves(b, sender, pool, ext);
    } else if ext < 0 {
      TransferConserves(b, pool, recipient, -ext);
    }
  }

  /** The first step of a transaction that fails once the deposit has been taken. */
  function InternalVerdict(proof: Result<(), Error>, withdrawn: Result<Balances, Error>, full: bool): Result<(), Error> {
    if proof.Err? then proof
    else if withdrawn.Err? then Err(withdrawn.error)
    else if full then Err(MerkleTreeFull)
    else Ok(())
  }

  /** What an accepted call adds to the pool's own balance. */
  function PoolDelta(a: Accepted, pool: Address): int {
    if a.extAmount > 0 && a.sender == pool then 0
    else if a.extAmount < 0 && a.recipient == pool then 0
    else a.extAmount
  }

  lemma DepositMoves(b: Balances, ext: int, maximum: nat, sender: Address, pool: Address)
    requires AfterDeposit(b, ext, maximum, sender, pool).Ok?
    ensures BalanceOf(AfterDeposit(b, ext, maximum, sender, pool).value, pool) as int
            == BalanceOf(b, pool) + (if ext > 0 && sender != pool then ext else 0)
  {
    if ext > 0 {
      TransferMoves(b, sender, pool, ext, pool);
    }
  }

  lemma WithdrawalMoves(b: Balances, ext: int, recipient: Address, pool: Address)
    requires AfterWithdrawal(b, ext, recipient, pool).Ok?
    ensures BalanceOf(AfterWithdrawal(b, ext, recipient, pool).value, pool) as int
            == BalanceOf(b, pool) + (if ext < 0 && recipient != pool then ext else 0)
  {
    if ext < 0 {
      TransferMoves(b, pool, recipient, -ext, pool);
    }
  }

  function MarkAll(nulls: map<nat, bool>, ns: seq<nat>): map<nat, bool> {
    if ns == [] then nulls else MarkAll(nulls, ns[..|ns| - 1])[ns[|ns| - 1] := true]
  }

  lemma {:induction false} MarkAllSpends(nulls: map<nat, bool>, ns: seq<nat>, n: nat)
    ensures Spent(MarkAll(nulls, ns), n) <==> Spent(nulls, n) || n in ns
    decreases |ns|
  {
    if ns != [] {
      MarkAllSpends(nulls, ns[..|ns| - 1], n);
      assert ns == ns[..|ns| - 1] + [ns[|ns| - 1]];
    }
  }

  lemma AllSpent(nulls: map<nat, bool>, ns: seq<nat>)
    ensures forall n :: Spent(MarkAll(nulls, ns), n) <==> Spent(nulls, n) || n in ns
  {
    forall n ensures Spent(MarkAll(nulls, ns), n) <==> Spent(nulls, n) || n in ns {
      MarkAllSpends(nulls, ns, n);
    }
  }

  // ---------------------------------------------------------------- whole runs

  function TotalDelta(log: seq<Accepted>, pool: Address): int {
    if log == [] then 0 else TotalDelta(log[..|log| - 1], pool) + PoolDelta(log[|log| - 1], pool)
  }

  /** The spent set is exactly the nullifiers of the accepted calls. */
  ghost predicate SpentIsLogged(nulls: map<nat, bool>, log: seq<Accepted>) {
    forall n :: Spent(nulls, n) <==> exists i :: 0 <= i < |log| && n in log[i].nullifiers
  }

  /** No nullifier was accepted in two different calls. */
  ghost predicate NoDoubleSpend(log: seq<Accepted>) {
    forall i, j, n | 0 <= i < j < |log| && n in log[i].nullifiers :: n !in log[j].nullifiers
  }

  lemma LogExtended(nulls: map<nat, bool>, log: seq<Accepted>, a: Accepted)
    requires SpentIsLogged(nulls, log) && NoDoubleSpend(log)
    requires forall i | 0 <= i < |a.nullifiers| :: !Spent(nulls, a.nullifiers[i])
    ensures SpentIsLogged(MarkAll(nulls, a.nullifiers), log + [a]) && NoDoubleSpend(log + [a])
  {
    var log', nulls' := log + [a], MarkAll(nulls, a.nullifiers);
    forall n ensures Spent(nulls', n) <==> exists i :: 0 <= i < |log'| && n in log'[i].nullifiers {
      MarkAllSpends(nulls, a.nullifiers, n);
      if i :| 0 <= i < |log| && n in log[i].nullifiers {
        assert n in log'[i].nullifiers;
      }
      if n in a.nullifiers {
        assert n in log'[|log|].nullifiers;
      }
    }
    forall i, j, n | 0 <= i < j < |log'| && n in log'[i].nullifiers ensures n !in log'[j].nullifiers {
      if j == |log| {
        assert Spent(nulls, n);
      }
    }
  }

  function Occurrences(ns: seq<nat>, n: nat): nat {
    multiset(ns)[n]
  }

  /** How often a nullifier was spent, over all accepted calls. */
  function TimesSpent(log: seq<Accepted>, n: nat): nat {
    if log == [] then 0
    else TimesSpent(log[..|log| - 1], n) + Occurrences(log[|log| - 1].nullifiers, n)
  }

  ghost predicate OnceEach(ns: seq<nat>) {
    forall n: nat :: Occurrences(ns, n) <= 1
  }

  lemma {:induction false} NeverSpent(log: seq<Accepted>, n: nat)
    requires forall j | 0 <= j < |log| :: n !in log[j].nullifiers
    ensures TimesSpent(log, n) == 0
  {
    if log != [] {
      NeverSpent(log[..|log| - 1], n);
    }
  }

  /** A nullifier that occurs in one call only was spent as often as it occurs there. */
  lemma {:induction false} SpentInOneCall(log: seq<Accepted>, n: nat, i: nat)
    requires i < |log| && forall j | 0 <= j < |log| && j != i :: n !in log[j].nullifiers
    ensures TimesSpent(log, n) == Occurrences(log[i].nullifiers, n)
  {
    var init := log[..|log| - 1];
    if i == |log| - 1 {
      NeverSpent(init, n);
    } else {
      SpentInOneCall(init, n, i);
    }
  }

  ghost predicate OnceHere(log: seq<Accepted>, n: nat) {
    forall i | 0 <= i < |log| :: Occurrences(log[i].nullifiers, n) <= 1
  }

  lemma OnceForOne(log: seq<Accepted>, n: nat)
    requires NoDoubleSpend(log)
    ensures TimesSpent(log, n) <= 1 <==> OnceHere(log, n)
  {
    if i :| 0 <= i < |log| && n in log[i].nullifiers {
      SpentInOneCall(log, n, i);
    } else {
      NeverSpent(log, n);
    }
  }

  ghost predicate AtMostOnce(times: nat -> nat) {
    forall n: nat :: times(n) <= 1
  }

  ghost predicate AllOnceEach(log: seq<Accepted>) {
    forall i | 0 <= i < |log| :: OnceEach(log[i].nullifiers)
  }

  lemma OnceForAll(log: seq<Accepted>, times: nat -> nat)
    requires forall n: nat :: times(n) <= 1 <==> OnceHere(log, n)
    ensures AtMostOnce(times) <==> AllOnceEach(log)
  {
    if AllOnceEach(log) {
      forall n: nat ensures times(n) <= 1 {
        assert OnceHere(log, n);
      }
    }
    if AtMostOnce(times) {
      forall i, n: nat | 0 <= i < |log| ensures Occurrences(log[i].nullifiers, n) <= 1 {
        assert times(n) <= 1;
      }
    }
  }

  /** Over any valid record every nullifier is spent at most once in total exactly when no
      accepted call names one twice. */
  lemma SpentOnceExactly(log: seq<Accepted>)
    requires NoDoubleSpend(log)
    ensures AtMostOnce(n => TimesSpent(log, n)) <==> AllOnceEach(log)
  {
    forall n: nat ensures TimesSpent(log, n) <= 1 <==> OnceHere(log, n) {
      OnceForOne(log, n);
    }
    OnceForAll(log, n => TimesSpent(log, n));
  }

  /** As the record grows, spent nullifiers stay spent and every later call spends fresh ones. */
  lemma OnlyFreshAccepted(before: map<nat, bool>, log: seq<Accepted>, after: map<nat, bool>, log': seq<Accepted>)
    requires SpentIsLogged(before, log) && SpentIsLogged(after, log') && NoDoubleSpend(log') && log <= log'
    ensures forall n | Spent(before, n) :: Spent(after, n)
    ensures forall i, n | |log| <= i < |log'| && n in log'[i].nullifiers :: !Spent(before, n)
  {
    forall n | Spent(before, n)
      ensures Spent(after, n) && forall i | |log| <= i < |log'| :: n !in log'[i].nullifiers
    {
      var j :| 0 <= j < |log| && n in log[j].nullifiers;
      assert n in log'[j].nullifiers;
    }
  }

  /** An accepted call moves the pool's balance by what the history records. */
  lemma BalanceExtended(b: Balances, maximum: nat, initial: nat, log: seq<Accepted>, a: Accepted, pool: Address)
    requires BalanceOf(b, pool) as int == initial + TotalDelta(log, pool)
    requires AfterDeposit(b, a.extAmount, maximum, a.sender, pool).Ok?
    requires AfterWithdrawal(AfterDeposit(b, a.extAmount, maximum, a.sender, pool).value, a.extAmount, a.recipient, pool).Ok?
    ensures var b' := AfterDeposit(b, a.extAmount, maximum, a.sender, pool).value;
            BalanceOf(AfterWithdrawal(b', a.extAmount, a.recipient, pool).value, pool) as int
            == initial + TotalDelta(log + [a], pool)
  {
    DepositMoves(b, a.extAmount, maximum, a.sender, pool);
    WithdrawalMoves(AfterDeposit(b, a.extAmount, maximum, a.sender, pool).value, a.extAmount, a.recipient, pool);
    assert (log + [a])[..|log|] == log;
  }

  class PoolContract {
    const self: Address
    const tree: T.MerkleTreeWithHistory<nat>
    const verifies: (seq<nat>, seq<nat>) -> bool
    const digest: ExtData -> nat // Keccak of the serialized data, as an integer
    const initialBalance: nat
    var maximumDeposit: nat
    var nullifiers: map<nat, bool>
    var balances: Balances
    ghost var log: seq<Accepted>

    ghost predicate Valid()
      reads this, tree
    {
      && tree.Valid() && tree.initialized && tree.nought == 0 && |tree.leaves| == 2 * |log|
      && (forall x: nat :: tree.inField(x) <==> x < MODULUS)
      && SpentIsLogged(nullifiers, log) && NoDoubleSpend(log)
      && BalanceOf(balances, self) as int == initialBalance + TotalDelta(log, self)
    }

    constructor (self: Address, h: (nat, nat) -> nat, zero0: nat, levels: nat, maximumDeposit: nat, balances: Balances,
                 verifies: (seq<nat>, seq<nat>) -> bool, digest: ExtData -> nat)
      ensures tree.initialized <==> 1 <= levels <= 32
      ensures tree.initialized ==> Valid() && tree.levels == levels && log == []
      ensures fresh(tree) && this.self == self && this.balances == balances && this.maximumDeposit == maximumDeposit
      ensures this.verifies == verifies && this.digest == digest && tree.h == h && tree.zero0 == zero0
    {
      var t := new T.MerkleTreeWithHistory(h, x => x < MODULUS, zero0, 0);
      var _ := t.Init(levels);
      this.self, tree, this.verifies, this.digest := self, t, verifies, digest;
      initialBalance := BalanceOf(balances, self);
      this.maximumDeposit, nullifiers, this.balances, log := maximumDeposit, map[], balances, [];
    }

    /** The reduced hash that binds a proof to the external data. */
    function HashExtData(ext: ExtData): nat {
      digest(ext) % MODULUS
    }

    method AnySpent(ns: seq<nat>) returns (r: bool)
      ensures r <==> exists i :: 0 <= i < |ns| && Spent(nullifiers, ns[i])
    {
      for i := 0 to |ns|
        invariant forall j | 0 <= j < i :: !Spent(nullifiers, ns[j])
      {
        if Spent(nullifiers, ns[i]) {
          return true;
        }
      }
      return false;
    }

    /** What the proof is checked for, apart from the tokens. */
    ghost predicate ProofAccepted(p: Proof, ext: ExtData, memberRoot: nat, nonMemberRoot: nat)
      requires tree.Valid() && tree.initialized
      requires IsI256(ext.extAmount)
      reads `nullifiers, tree
    {
      && p.root != 0 && T.Recent(tree.h, tree.leaves, tree.zero0, tree.levels, p.root)
      && (forall i | 0 <= i < |p.inputNullifiers| :: !Spent(nullifiers, p.inputNullifiers[i]))
      && HashExtData(ext) == p.extDataHash
      && CalculatePublicAmount(ext.extAmount) == Ok(p.publicAmount)
      && memberRoot == p.aspMembershipRoot && nonMemberRoot == p.aspNonMembershipRoot
      && p.points != [] && Canonical(p) && verifies(p.points, PublicInputs(p))
    }

    /** The first of the checks that fails, in the order of the contract. */
    ghost function ProofVerdict(p: Proof, ext: ExtData, memberRoot: nat, nonMemberRoot: nat): Result<(), Error>
      requires tree.Valid() && tree.initialized
      requires IsI256(ext.extAmount)
      reads `nullifiers, tree
    {
      if p.root == 0 || !T.Recent(tree.h, tree.leaves, tree.zero0, tree.levels, p.root) then Err(UnknownRoot)
      else if exists i :: 0 <= i < |p.inputNullifiers| && Spent(nullifiers, p.inputNullifiers[i]) then
        Err(AlreadySpentNullifier)
      else if HashExtData(ext) != p.extDataHash then Err(WrongExtHash)
      else
        var expected := CalculatePublicAmount(ext.extAmount);
        if expected.Err? then Err(expected.error)
        else if expected.value != p.publicAmount then Err(WrongExtAmount)
        else if memberRoot != p.aspMembershipRoot || nonMemberRoot != p.aspNonMembershipRoot then Err(InvalidProof)
        else if p.points == [] then Err(InvalidProof)
        else if !Canonical(p) then Err(NonCanonicalPublicInput)
        else if !verifies(p.points, PublicInputs(p)) then Err(InvalidProof)
        else Ok(())
    }

    lemma VerdictAccepts(p: Proof, ext: ExtData, memberRoot: nat, nonMemberRoot: nat)
      requires tree.Valid() && tree.initialized
      requires IsI256(ext.extAmount)
      ensures ProofVerdict(p, ext, memberRoot, nonMemberRoot).Ok? <==> ProofAccepted(p, ext, memberRoot, nonMemberRoot)
    {
    }

    /** An accepted proof names the reduced digest of its external data, so a proof accepted with two
        such data binds their digests modulo the field. */
    lemma ProofBindsData(p: Proof, ext: ExtData, other: ExtData, memberRoot: nat, nonMemberRoot: nat)
      requires tree.Valid() && tree.initialized && IsI256(ext.extAmount) && IsI256(other.extAmount)
      requires ProofAccepted(p, ext, memberRoot, nonMemberRoot)
      ensures p.extDataHash == digest(ext) % MODULUS
      ensures ProofAccepted(p, other, memberRoot, nonMemberRoot) ==>
                digest(ext) % MODULUS == digest(other) % MODULUS && ext.extAmount == other.extAmount
    {
      if ProofAccepted(p, other, memberRoot, nonMemberRoot) {
        AmountInjective(ext.extAmount, other.extAmount);
      }
    }

    /** Checks 1 to 5 of a transaction; nothing is written. */
    method CheckProof(p: Proof, ext: ExtData, memberRoot: nat, nonMemberRoot: nat) returns (r: Result<(), Error>)
      requires tree.Valid() && tree.initialized && tree.nought == 0
      requires IsI256(ext.extAmount)
      ensures r == ProofVerdict(p, ext, memberRoot, nonMemberRoot)
      ensures r.Ok? <==> ProofAccepted(p, ext, memberRoot, nonMemberRoot)
      ensures r == Err(UnknownRoot)
              <==> p.root == 0 || !T.Recent(tree.h, tree.leaves, tree.zero0, tree.levels, p.root)
      ensures r == Err(AlreadySpentNullifier)
              <==> && p.root != 0 && T.Recent(tree.h, tree.leaves, tree.zero0, tree.levels, p.root)
                   && exists i :: 0 <= i < |p.inputNullifiers| && Spent(nullifiers, p.inputNullifiers[i])
      ensures r == Err(WrongExtHash) ==> digest(ext) % MODULUS != p.extDataHash
      ensures r == Err(WrongExtAmount) ==> CalculatePublicAmount(ext.extAmount) != Ok(p.publicAmount)
      ensures r == Err(NonCanonicalPublicInput) ==> !Canonical(p)
      ensures r == Err(InvalidProof) ==> || memberRoot != p.aspMembershipRoot || nonMemberRoot != p.aspNonMembershipRoot
                                         || p.points == [] || !verifies(p.points, PublicInputs(p))
    {
      var known := tree.IsKnownRoot(p.root);
      if !known.value {
        return Err(UnknownRoot);
      }
      var spent := AnySpent(p.inputNullifiers);
      if spent {
        return Err(AlreadySpentNullifier);
      }
      if HashExtData(ext) != p.extDataHash {
        return Err(WrongExtHash);
      }
      var expected := CalculatePublicAmount(ext.extAmount);
      if expected.Err? {
        return Err(expected.error);
      }
      if p.publicAmount != expected.value {
        return Err(WrongExtAmount);
      }
      if memberRoot != p.aspMembershipRoot || nonMemberRoot != p.aspNonMembershipRoot {
        return Err(InvalidProof);
      }
      if p.points == [] {
        return Err(InvalidProof);
      }
      var canonical := ValidatePublicInputs(p);
      if canonical.Err? {
        return Err(canonical.error);
      }
      var inputs := BuildPublicInputs(p);
      if !verifies(p.points, inputs) {
        return Err(InvalidProof);
      }
      return Ok(());
    }

    method MarkSpent(ns: seq<nat>)
      modifies this`nullifiers
      ensures nullifiers == MarkAll(old(nullifiers), ns)
    {
      for i := 0 to |ns|
        invariant nullifiers == MarkAll(old(nullifiers), ns[..i])
      {
        assert ns[..i + 1][..i] == ns[..i];
        nullifiers := nullifiers[ns[i] := true];
      }
      assert ns[..|ns|] == ns;
    }

    /** The transaction proper, once the deposit has been taken. A failing call may leave marks
        behind; the caller rolls them back, as the host does. */
    method InternalTransact(p: Proof, ext: ExtData, memberRoot: nat, nonMemberRoot: nat) returns (r: Result<(), Error>)
      requires tree.Valid() && tree.initialized && tree.nought == 0 && IsI256(ext.extAmount)
      requires forall x: nat :: tree.inField(x) <==> x < MODULUS
      modifies this`nullifiers, this`balances, tree
      ensures tree.Valid() && tree.initialized && tree.levels == old(tree.levels)
      ensures r == InternalVerdict(old(ProofVerdict(p, ext, memberRoot, nonMemberRoot)),
                                   AfterWithdrawal(old(balances), ext.extAmount, ext.recipient, self),
                                   |old(tree.leaves)| == Pow2(tree.levels))
      ensures r.Ok? <==> && old(ProofAccepted(p, ext, memberRoot, nonMemberRoot))
                         && CanWithdraw(old(balances), ext.extAmount, ext.recipient, self)
                         && |old(tree.leaves)| < Pow2(tree.levels)
      ensures r.Ok? && ext.extAmount < 0 ==> Moved(old(balances), balances, self, ext.recipient, -ext.extAmount)
      ensures r.Ok? && ext.extAmount >= 0 ==> balances == old(balances)
      ensures r.Ok? ==>
                && tree.leaves == old(tree.leaves) + [p.outputCommitment0, p.outputCommitment1]
                && nullifiers == MarkAll(old(nullifiers), p.inputNullifiers)
                && Ok(balances) == AfterWithdrawal(old(balances), ext.extAmount, ext.recipient, self)
      ensures r.Err? ==> unchanged(tree)
    {
      T.FullOrRoom(tree.levels, tree.nextIndex);
      WithdrawnExactly(balances, ext.extAmount, ext.recipient, self);
      var checked := CheckProof(p, ext, memberRoot, nonMemberRoot);
      if checked.Err? {
        return checked;
      }
      MarkSpent(p.inputNullifiers);
      var withdrawn := AfterWithdrawal(balances, ext.extAmount, ext.recipient, self);
      if withdrawn.Err? {
        return Err(withdrawn.error);
      }
      balances := withdrawn.value;
      var inserted := tree.InsertTwoLeaves(p.outputCommitment0, p.outputCommitment1);
      if inserted.Err? {
        assert inserted == Err(T.MerkleTreeFull);
        return Err(MerkleTreeFull);
      }
      return Ok(());
    }

    /** The deposit and the transaction proper, or no change at all. */
    method DepositAndTransact(p: Proof, ext: ExtData, sender: Address, memberRoot: nat, nonMemberRoot: nat)
      returns (r: Result<(), Error>)
      requires tree.Valid() && tree.initialized && tree.nought == 0 && IsI256(ext.extAmount)
      requires forall x: nat :: tree.inField(x) <==> x < MODULUS
      modifies this`nullifiers, this`balances, tree
      ensures tree.Valid() && tree.initialized && tree.levels == old(tree.levels)
      ensures var deposited := AfterDeposit(old(balances), ext.extAmount, maximumDeposit, sender, self);
              r == if deposited.Err? then Err(deposited.error)
                   else InternalVerdict(old(ProofVerdict(p, ext, memberRoot, nonMemberRoot)),
                                        AfterWithdrawal(deposited.value, ext.extAmount, ext.recipient, self),
                                        |old(tree.leaves)| == Pow2(tree.levels))
      ensures r.Ok? ==>
                && tree.leaves == old(tree.leaves) + [p.outputCommitment0, p.outputCommitment1]
                && nullifiers == MarkAll(old(nullifiers), p.inputNullifiers)
                && var deposited := AfterDeposit(old(balances), ext.extAmount, maximumDeposit, sender, self);
                   deposited.Ok? && Ok(balances) == AfterWithdrawal(deposited.value, ext.extAmount, ext.recipient, self)
      ensures r.Ok? <==> && old(ProofAccepted(p, ext, memberRoot, nonMemberRoot))
                         && CanSettle(old(balances), ext.extAmount, maximumDeposit, sender, ext.recipient, self)
                         && |old(tree.leaves)| < Pow2(tree.levels)
      ensures r.Ok? ==> Settled(old(balances), balances, ext.extAmount, sender, ext.recipient, self)
      ensures r.Ok? ==> forall n :: Spent(nullifiers, n) <==> old(Spent(nullifiers, n)) || n in p.inputNullifiers
      ensures Supply(balances) == old(Supply(balances))
      ensures r.Err? ==> nullifiers == old(nullifiers) && balances == old(balances) && unchanged(tree)
    {
      VerdictAccepts(p, ext, memberRoot, nonMemberRoot);
      SettledExactly(balances, ext.extAmount, maximumDeposit, sender, ext.recipient, self);
      AllSpent(nullifiers, p.inputNullifiers);
      T.FullOrRoom(tree.levels, tree.nextIndex);
      var savedNullifiers, savedBalances := nullifiers, balances;
      var deposited := AfterDeposit(balances, ext.extAmount, maximumDeposit, sender, self);
      if deposited.Err? {
        return Err(deposited.error);
      }
      ghost var verdict := ProofVerdict(p, ext, memberRoot, nonMemberRoot);
      balances := deposited.value;
      assert ProofVerdict(p, ext, memberRoot, nonMemberRoot) == verdict;
      r := InternalTransact(p, ext, memberRoot, nonMemberRoot);
      if r.Err? {
        nullifiers, balances := savedNullifiers, savedBalances;
      } else {
        SettledConserves(savedBalances, ext.extAmount, maximumDeposit, sender, ext.recipient, self);
      }
    }

    /** A shielded transaction. It is accepted exactly under the stated conditions; then it adds
        its two commitments, spends its nullifiers and moves the tokens; otherwise nothing
        changes. */
    method Transact(authorized: bool, p: Proof, ext: ExtData, sender: Address, memberRoot: nat, nonMemberRoot: nat)
      returns (r: Result<(), Error>)
      requires Valid() && IsI256(ext.extAmount)
      modifies this`nullifiers, this`balances, this`log, tree
      ensures Valid() && tree.levels == old(tree.levels)
      ensures var deposited := AfterDeposit(old(balances), ext.extAmount, maximumDeposit, sender, self);
              r == if !authorized then Err(HostTrap)
                   else if deposited.Err? then Err(deposited.error)
                   else InternalVerdict(old(ProofVerdict(p, ext, memberRoot, nonMemberRoot)),
                                        AfterWithdrawal(deposited.value, ext.extAmount, ext.recipient, self),
                                        |old(tree.leaves)| == Pow2(tree.levels))
      ensures r.Ok? <==> && authorized && old(ProofAccepted(p, ext, memberRoot, nonMemberRoot))
                         && CanSettle(old(balances), ext.extAmount, maximumDeposit, sender, ext.recipient, self)
                         && |old(tree.leaves)| < Pow2(tree.levels)
      ensures r.Ok? ==> Settled(old(balances), balances, ext.extAmount, sender, ext.recipient, self)
      ensures r.Ok? ==> forall n :: Spent(nullifiers, n) <==> old(Spent(nullifiers, n)) || n in p.inputNullifiers
      ensures Supply(balances) == old(Supply(balances))
      ensures r.Ok? ==>
                && log == old(log) + [Accepted(p.inputNullifiers, ext.extAmount, sender, ext.recipient)]
                && tree.leaves == old(tree.leaves) + [p.outputCommitment0, p.outputCommitment1]
                && nullifiers == MarkAll(old(nullifiers), p.inputNullifiers)
                && var deposited := AfterDeposit(old(balances), ext.extAmount, maximumDeposit, sender, self);
                   deposited.Ok? && Ok(balances) == AfterWithdrawal(deposited.value, ext.extAmount, ext.recipient, self)
      ensures r.Err? ==> unchanged(this) && unchanged(tree)
    {
      if !authorized {
        return Err(HostTrap);
      }
      ghost var was, spent := balances, nullifiers;
      r := DepositAndTransact(p, ext, sender, memberRoot, nonMemberRoot);
      if r.Ok? {
        ghost var a := Accepted(p.inputNullifiers, ext.extAmount, sender, ext.recipient);
        BalanceExtended(was, maximumDeposit, initialBalance, log, a, self);
        LogExtended(spent, log, a);
        log := log + [a];
      }
    }
  }

  /** The arguments of one call. */
  datatype Call = Call(authorized: bool, p: Proof, ext: ExtData, sender: Address, memberRoot: nat, nonMemberRoot: nat)

  /** Any run of calls: what was accepted is recorded in order and never forgotten, so the spent
      set only grows, and the invariant ties leaves, nullifiers and balance to the record. */
  method Run(pool: PoolContract, calls: seq<Call>)
    requires pool.Valid() && forall c | c in calls :: IsI256(c.ext.extAmount)
    modifies pool`nullifiers, pool`balances, pool`log, pool.tree
    ensures pool.Valid() && old(pool.log) <= pool.log
    ensures forall n :: old(Spent(pool.nullifiers, n)) ==> Spent(pool.nullifiers, n)
    ensures forall i, n | |old(pool.log)| <= i < |pool.log| && n in pool.log[i].nullifiers :: old(!Spent(pool.nullifiers, n))
    ensures |pool.tree.leaves| == 2 * |pool.log|
    ensures BalanceOf(pool.balances, pool.self) as int == pool.initialBalance + TotalDelta(pool.log, pool.self)
    ensures Supply(pool.balances) == old(Supply(pool.balances))
  {
    for i := 0 to |calls|
      invariant pool.Valid() && old(pool.log) <= pool.log && Supply(pool.balances) == old(Supply(pool.balances))
    {
      var c := calls[i];
      var _ := pool.Transact(c.authorized, c.p, c.ext, c.sender, c.memberRoot, c.nonMemberRoot);
    }
    OnlyFreshAccepted(old(pool.nullifiers), old(pool.log), pool.nullifiers, pool.log);
  }

  /** A nullifier accepted in one call is rejected in every later one. */
  method SecondSpendRejected(pool: PoolContract, c: Call, ghost i: nat, ghost n: nat) returns (r: Result<(), Error>)
    requires pool.Valid() && IsI256(c.ext.extAmount)
    requires i < |pool.log| && n in pool.log[i].nullifiers && n in c.p.inputNullifiers
    modifies pool`nullifiers, pool`balances, pool`log, pool.tree
    ensures r.Err? && unchanged(pool) && unchanged(pool.tree)
  {
    r := pool.Transact(c.authorized, c.p, c.ext, c.sender, c.memberRoot, c.nonMemberRoot);
  }

  /** With senders and recipients other than the pool, its balance is the initial balance plus
      the accepted external amounts. */
  function TotalExtAmount(log: seq<Accepted>): int {
    if log == [] then 0 else TotalExtAmount(log[..|log| - 1]) + log[|log| - 1].extAmount
  }

  lemma {:induction false} DeltaIsExtAmount(log: seq<Accepted>, pool: Address)
    requires forall i | 0 <= i < |log| :: log[i].sender != pool && log[i].recipient != pool
    ensures TotalDelta(log, pool) == TotalExtAmount(log)
  {
    if log != [] {
      DeltaIsExtAmount(log[..|log| - 1], pool);
    }
  }

  /** A pool whose verifier accepts everything, over a constant hash. */
  method OpenPool() returns (pool: PoolContract)
    ensures fresh(pool) && fresh(pool.tree) && pool.Valid() && pool.log == [] && pool.self == 0
    ensures T.Recent(pool.tree.h, pool.tree.leaves, pool.tree.zero0, pool.tree.levels, 1)
    ensures pool.tree.leaves == [] && pool.tree.levels == 1
    ensures pool.verifies == ((points, inputs) => true) && pool.digest == (ext => 0)
  {
    pool := new PoolContract(0, (a, b) => 1, 1, 1, 0, map[], (points, inputs) => true, ext => 0);
    assert T.RootAfter(pool.tree.h, pool.tree.leaves, pool.tree.zero0, pool.tree.levels, 0) == 1;
  }

  /** Within one call the same nullifier may be spent twice: the check looks only at what earlier
      calls have spent, and with a verifier that accepts the proof such a call goes through. */
  method SameNullifierTwice() returns (pool: PoolContract, r: Result<(), Error>)
    ensures fresh(pool) && pool.Valid() && r.Ok? && |pool.log| == 1 && pool.log[0].nullifiers == [5, 5]
    ensures TimesSpent(pool.log, 5) == 2
  {
    pool := OpenPool();
    var p := Proof([1], 1, [5, 5], 2, 3, 0, 0, 0, 0);
    var ext := ExtData(0, 0, [], []);
    assert pool.ProofAccepted(p, ext, 0, 0);
    r := pool.Transact(true, p, ext, 0, 0, 0);
    assert pool.log[..0] == [];
  }
}
