/**
The payroll contract over whole runs: periods, commitment records, spent nullifiers and escrow.
Every call either succeeds as a whole or changes nothing. The proof verifiers are arbitrary
predicates.
*/
module Payroll {
  import opened Common
  import opened Token

  const U64_MAX: nat := 0xFFFF_FFFF_FFFF_FFFF

  datatype Error =
    | NotAuthorized
    | BudgetExceeded
    | ProofVerificationFailed
    | PeriodNotInitialized
    | DuplicateCommitment
    | NonCanonicalInput
    | NullifierAlreadySpent
    | WithdrawVerifierNotSet
    | CommitmentNotFound
    | HostTrap // the token contract refused the transfer

  datatype PayrollPeriod = PayrollPeriod(commitmentRoot: nat, totalAmount: nat, employeeCount: nat, proofVerified: bool)

  datatype CommitmentRecord = CommitmentRecord(commitmentId: nat, ipfsCid: seq<nat>)

  /** The proof a call was accepted with, and the verifier that accepted it. */
  datatype Evidence = Evidence(verifier: Address, proof: seq<nat>, inputs: seq<nat>)

  /** A transfer into escrow, and a transfer out of it, as the history records them. */
  datatype Funding = Funding(token: Address, amount: nat, evidence: Evidence)
  datatype Payment = Payment(token: Address, nullifier: nat, amount: nat, recipient: Address, evidence: Evidence)

  type Ledger = map<Address, Balances>

  function BalancesOf(ledger: Ledger, token: Address): Balances {
    if token in ledger then ledger[token] else map[]
  }

  function Escrow(ledger: Ledger, token: Address, self: Address): nat {
    BalanceOf(BalancesOf(ledger, token), self)
  }

  /** A field element as a 64-bit number. */
  function FrToU64(fr: nat): (r: Result<nat, Error>)
    ensures r.Ok? <==> fr <= U64_MAX
    ensures r.Ok? ==> r.value == fr
  {
    if fr >= 0x1_0000_0000_0000_0000_0000_0000_0000_0000 then Err(NonCanonicalInput)
    else if fr > U64_MAX then Err(NonCanonicalInput)
    else Ok(fr)
  }

  // ---------------------------------------------------------------- commitment records

  predicate Distinct(ids: seq<nat>) {
    forall i, j | 0 <= i < j < |ids| :: ids[i] != ids[j]
  }

  function Ids(items: seq<(nat, seq<nat>)>): (ids: seq<nat>)
    ensures |ids| == |items| && forall i | 0 <= i < |ids| :: ids[i] == items[i].0
  {
    seq(|items|, i requires 0 <= i < |items| => items[i].0)
  }

  /** The new identifiers are distinct and none of them is recorded yet. */
  predicate AllFresh(records: map<nat, CommitmentRecord>, items: seq<(nat, seq<nat>)>) {
    Distinct(Ids(items)) && forall i | 0 <= i < |items| :: items[i].0 !in records
  }

  /** The records after storing the items in order. */
  function RecordAll(was: map<nat, CommitmentRecord>, items: seq<(nat, seq<nat>)>): map<nat, CommitmentRecord> {
    if items == [] then was
    else
      var (id, cid) := items[|items| - 1];
      RecordAll(was, items[..|items| - 1])[id := CommitmentRecord(id, cid)]
  }

  lemma {:induction false} RecordAllKeys(was: map<nat, CommitmentRecord>, items: seq<(nat, seq<nat>)>)
    ensures forall id :: id in RecordAll(was, items) <==> id in was || id in Ids(items)
    ensures (forall id | id in was :: was[id].commitmentId == id) ==>
              forall id | id in RecordAll(was, items) :: RecordAll(was, items)[id].commitmentId == id
    decreases |items|
  {
    if items != [] {
      var init := items[..|items| - 1];
      RecordAllKeys(was, init);
      assert Ids(items) == Ids(init) + [items[|items| - 1].0];
    }
  }

  /** Every item is stored under its identifier with its CID, and nothing stored before is touched. */
  ghost predicate ItemsStored(was: map<nat, CommitmentRecord>, now: map<nat, CommitmentRecord>, items: seq<(nat, seq<nat>)>) {
    && (forall i | 0 <= i < |items| :: items[i].0 in now && now[items[i].0] == CommitmentRecord(items[i].0, items[i].1))
    && (forall id | id in was :: id in now && now[id] == was[id])
    && (forall id | id in now :: id in was || exists i :: 0 <= i < |items| && items[i].0 == id)
  }

  lemma StoredNext(was: map<nat, CommitmentRecord>, mid: map<nat, CommitmentRecord>, init: seq<(nat, seq<nat>)>,
                   id: nat, cid: seq<nat>)
    requires ItemsStored(was, mid, init) && id !in mid
    ensures ItemsStored(was, mid[id := CommitmentRecord(id, cid)], init + [(id, cid)])
  {
    var items := init + [(id, cid)];
    assert items[|init|].0 == id;
    forall other | other in mid ensures other in was || exists i :: 0 <= i < |items| && items[i].0 == other {
      if other !in was {
        var i :| 0 <= i < |init| && init[i].0 == other;
        assert items[i].0 == other;
      }
    }
  }

  lemma FreshPrefix(was: map<nat, CommitmentRecord>, items: seq<(nat, seq<nat>)>, n: nat)
    requires AllFresh(was, items) && n < |items|
    ensures AllFresh(was, items[..n]) && items[n].0 !in was && items[n].0 !in Ids(items[..n])
  {
    var init := items[..n];
    assert forall i | 0 <= i < n :: init[i] == items[i] && Ids(init)[i] == Ids(items)[i];
    assert Ids(items)[n] == items[n].0;
  }

  lemma {:induction false} RecordAllStores(was: map<nat, CommitmentRecord>, items: seq<(nat, seq<nat>)>)
    requires AllFresh(was, items)
    ensures ItemsStored(was, RecordAll(was, items), items)
    decreases |items|
  {
    if items != [] {
      var n := |items| - 1;
      var init, last := items[..n], items[n];
      FreshPrefix(was, items, n);
      RecordAllStores(was, init);
      RecordAllKeys(was, init);
      StoredNext(was, RecordAll(was, init), init, last.0, last.1);
      assert items == init + [(last.0, last.1)];
    }
  }

  /** The loop that stores the records, stopping at the first identifier already present. */
  method StoreRecords(was: map<nat, CommitmentRecord>, items: seq<(nat, seq<nat>)>)
    returns (ok: bool, records: map<nat, CommitmentRecord>, ids: seq<nat>)
    ensures ok <==> AllFresh(was, items)
    ensures ok ==> ids == Ids(items) && records == RecordAll(was, items)
    ensures ok ==> |ids| == |items| && forall i | 0 <= i < |items| :: ids[i] == items[i].0
    ensures ok ==> ItemsStored(was, records, items)
  {
    records, ids := was, [];
    for i := 0 to |items|
      invariant ids == Ids(items[..i]) && AllFresh(was, items[..i]) && records == RecordAll(was, items[..i])
    {
      var (id, cid) := items[i];
      SeenBefore(was, items, i);
      if id in records {
        return false, records, ids;
      }
      records := records[id := CommitmentRecord(id, cid)];
      ids := ids + [id];
    }
    assert items[..|items|] == items;
    RecordAllStores(was, items);
    ok := true;
  }

  /** One turn of that loop: the identifier is new, or the items are not all fresh. */
  lemma SeenBefore(was: map<nat, CommitmentRecord>, items: seq<(nat, seq<nat>)>, i: nat)
    requires i < |items| && AllFresh(was, items[..i])
    ensures Ids(items[..i + 1]) == Ids(items[..i]) + [items[i].0]
    ensures RecordAll(was, items[..i + 1])
            == RecordAll(was, items[..i])[items[i].0 := CommitmentRecord(items[i].0, items[i].1)]
    ensures items[i].0 in RecordAll(was, items[..i]) ==> !AllFresh(was, items)
    ensures items[i].0 !in RecordAll(was, items[..i]) ==> AllFresh(was, items[..i + 1])
  {
    var init, more := items[..i], items[..i + 1];
    RecordAllKeys(was, init);
    assert more[..i] == init && more[i] == items[i];
    assert Ids(more) == Ids(init) + [items[i].0];
    if items[i].0 in RecordAll(was, init) {
      StaleOrRepeated(was, items, i);
    } else {
      FreshNext(was, init, more, items[i].0);
    }
  }

  lemma FreshNext(was: map<nat, CommitmentRecord>, init: seq<(nat, seq<nat>)>, more: seq<(nat, seq<nat>)>, id: nat)
    requires AllFresh(was, init) && id !in was && id !in Ids(init)
    requires |more| == |init| + 1 && more[..|init|] == init && more[|init|].0 == id
    ensures AllFresh(was, more)
  {
    assert forall j | 0 <= j < |init| :: more[j] == init[j] && Ids(more)[j] == Ids(init)[j];
  }

  lemma StaleOrRepeated(was: map<nat, CommitmentRecord>, items: seq<(nat, seq<nat>)>, i: nat)
    requires i < |items| && (items[i].0 in was || items[i].0 in Ids(items[..i]))
    ensures !AllFresh(was, items)
  {
    if items[i].0 !in was {
      var j :| 0 <= j < i && Ids(items[..i])[j] == items[i].0;
      assert Ids(items)[j] == Ids(items)[i];
    }
  }

  // ---------------------------------------------------------------- invariants

  /** Periods and their commitment lists exist exactly for `1..current`. */
  ghost predicate PeriodsHold(periods: map<nat, PayrollPeriod>, lists: map<nat, seq<nat>>, current: nat) {
    && (forall k :: k in periods <==> 1 <= k <= current)
    && (forall k :: k in lists <==> 1 <= k <= current)
    && (forall k | k in periods && k in lists :: periods[k].employeeCount == |lists[k]| && periods[k].proofVerified)
  }

  /** The lists are duplicate-free, pairwise disjoint, and together exactly the stored records. */
  ghost predicate RecordsHold(lists: map<nat, seq<nat>>, records: map<nat, CommitmentRecord>) {
    && (forall k | k in lists :: Distinct(lists[k]))
    && (forall k, l, id | k in lists && l in lists && k != l && id in lists[k] :: id !in lists[l])
    && (forall id :: id in records <==> exists k :: k in lists && id in lists[k])
    && (forall id | id in records :: records[id].commitmentId == id)
  }

  /** A root maps to the latest period that ran with it. */
  ghost predicate RootsHold(periods: map<nat, PayrollPeriod>, roots: map<nat, nat>) {
    && (forall k | k in periods :: periods[k].commitmentRoot in roots && k <= roots[periods[k].commitmentRoot])
    && (forall r | r in roots :: roots[r] in periods && periods[roots[r]].commitmentRoot == r)
  }

  predicate Spent(withdrawn: map<nat, bool>, n: nat) {
    n in withdrawn && withdrawn[n]
  }

  /** Each spent nullifier stands for exactly one payment. */
  ghost predicate PaymentsHold(withdrawn: map<nat, bool>, paid: seq<Payment>) {
    && (forall n :: Spent(withdrawn, n) <==> exists i :: 0 <= i < |paid| && paid[i].nullifier == n)
    && (forall i, j | 0 <= i < j < |paid| :: paid[i].nullifier != paid[j].nullifier)
  }

  /** What the recorded transfers put into escrow in one token; transfers from and to the
      contract itself move nothing. */
  function FundedIn(funded: seq<Funding>, token: Address, outside: bool): nat {
    if funded == [] then 0
    else
      var f := funded[|funded| - 1];
      FundedIn(funded[..|funded| - 1], token, outside) + if f.token == token && outside then f.amount else 0
  }

  function PaidIn(paid: seq<Payment>, token: Address, self: Address): nat {
    if paid == [] then 0
    else
      var p := paid[|paid| - 1];
      PaidIn(paid[..|paid| - 1], token, self) + if p.token == token && p.recipient != self then p.amount else 0
  }

  /** Conservation, token by token. */
  ghost predicate EscrowHolds(initial: Ledger, ledger: Ledger, funded: seq<Funding>, paid: seq<Payment>,
                              admin: Address, self: Address) {
    forall t: Address ::
      Escrow(ledger, t, self) + PaidIn(paid, t, self) == Escrow(initial, t, self) + FundedIn(funded, t, admin != self)
  }

  type Verifies = (Address, seq<nat>, seq<nat>) -> bool

  ghost predicate Accepted(e: Evidence, verifies: Verifies) {
    verifies(e.verifier, e.proof, e.inputs)
  }

  /** The payment was made for a recorded commitment, under a known root, with an accepted proof of
      exactly this nullifier and amount. */
  ghost predicate PaymentBacked(p: Payment, records: map<nat, CommitmentRecord>, roots: map<nat, nat>, verifies: Verifies) {
    var inputs := p.evidence.inputs;
    && |inputs| >= 4 && inputs[0] in roots && inputs[1] in records && inputs[2] == p.nullifier && inputs[3] == p.amount
    && Accepted(p.evidence, verifies)
  }

  /** The `k`-th funding was made for period `k`, with an accepted proof of its root and total. */
  ghost predicate FundingBacked(f: Funding, k: nat, periods: map<nat, PayrollPeriod>, verifies: Verifies) {
    var inputs := f.evidence.inputs;
    && k in periods && |inputs| >= 3 && inputs[0] == periods[k].commitmentRoot && inputs[1] == f.amount && inputs[2] == k
    && Accepted(f.evidence, verifies)
  }

  ghost predicate AllBacked(s: Storage, h: History, verifies: Verifies) {
    && (forall i | 0 <= i < |h.paid| :: PaymentBacked(h.paid[i], s.commitmentRecords, s.rootToPeriod, verifies))
    && (forall i | 0 <= i < |h.funded| :: FundingBacked(h.funded[i], i + 1, s.periods, verifies))
  }

  ghost predicate FundingMatches(periods: map<nat, PayrollPeriod>, current: nat, funded: seq<Funding>) {
    |funded| == current && forall k | 1 <= k <= current :: k in periods && funded[k - 1].amount == periods[k].totalAmount
  }

  // ---------------------------------------------------------------- steps

  lemma PeriodAdded(periods: map<nat, PayrollPeriod>, lists: map<nat, seq<nat>>, current: nat, p: PayrollPeriod, ids: seq<nat>)
    requires PeriodsHold(periods, lists, current) && p.employeeCount == |ids| && p.proofVerified
    ensures PeriodsHold(periods[current + 1 := p], lists[current + 1 := ids], current + 1)
  {
  }

  lemma RecordsAdded(lists: map<nat, seq<nat>>, records: map<nat, CommitmentRecord>, k: nat, items: seq<(nat, seq<nat>)>)
    requires RecordsHold(lists, records) && k !in lists && AllFresh(records, items)
    ensures RecordsHold(lists[k := Ids(items)], RecordAll(records, items))
  {
    var ids, lists', now := Ids(items), lists[k := Ids(items)], RecordAll(records, items);
    RecordAllKeys(records, items);
    forall id ensures id in now <==> exists l :: l in lists' && id in lists'[l] {
      if id in records {
        var l :| l in lists && id in lists[l];
        assert id in lists'[l];
      }
      if id in ids {
        assert id in lists'[k];
      }
    }
    forall l, id | l in lists && id in lists[l] ensures id !in ids {
      assert id in records;
    }
  }

  lemma RootAdded(periods: map<nat, PayrollPeriod>, lists: map<nat, seq<nat>>, roots: map<nat, nat>, current: nat, p: PayrollPeriod)
    requires PeriodsHold(periods, lists, current) && RootsHold(periods, roots)
    ensures RootsHold(periods[current + 1 := p], roots[p.commitmentRoot := current + 1])
  {
  }

  lemma PaymentAdded(withdrawn: map<nat, bool>, paid: seq<Payment>, p: Payment)
    requires PaymentsHold(withdrawn, paid) && !Spent(withdrawn, p.nullifier)
    ensures PaymentsHold(withdrawn[p.nullifier := true], paid + [p])
  {
    var withdrawn', paid' := withdrawn[p.nullifier := true], paid + [p];
    assert paid'[|paid|].nullifier == p.nullifier;
    forall n ensures Spent(withdrawn', n) <==> exists i :: 0 <= i < |paid'| && paid'[i].nullifier == n {
      assert Spent(withdrawn', n) <==> Spent(withdrawn, n) || n == p.nullifier;
      if i :| 0 <= i < |paid| && paid[i].nullifier == n {
        assert paid'[i].nullifier == n;
      }
      if i :| 0 <= i < |paid'| && paid'[i].nullifier == n {
        assert i < |paid| ==> paid[i].nullifier == n;
      }
    }
    forall i | 0 <= i < |paid| ensures paid[i].nullifier != p.nullifier {
      assert Spent(withdrawn, paid[i].nullifier);
    }
  }

  lemma FundingAdded(initial: Ledger, ledger: Ledger, funded: seq<Funding>, paid: seq<Payment>,
                     admin: Address, self: Address, token: Address, amount: nat, e: Evidence)
    requires EscrowHolds(initial, ledger, funded, paid, admin, self)
    requires Transfer(BalancesOf(ledger, token), admin, self, amount).Some?
    ensures EscrowHolds(initial, ledger[token := Transfer(BalancesOf(ledger, token), admin, self, amount).value],
                        funded + [Funding(token, amount, e)], paid, admin, self)
  {
    var funded' := funded + [Funding(token, amount, e)];
    var ledger' := ledger[token := Transfer(BalancesOf(ledger, token), admin, self, amount).value];
    assert funded'[..|funded|] == funded;
    forall t: Address
      ensures Escrow(ledger', t, self) + PaidIn(paid, t, self) == Escrow(initial, t, self) + FundedIn(funded', t, admin != self)
    {
      if t == token {
        TransferMoves(BalancesOf(ledger, token), admin, self, amount, self);
      }
    }
  }

  lemma PayoutAdded(initial: Ledger, ledger: Ledger, funded: seq<Funding>, paid: seq<Payment>,
                    admin: Address, self: Address, p: Payment)
    requires EscrowHolds(initial, ledger, funded, paid, admin, self)
    requires Transfer(BalancesOf(ledger, p.token), self, p.recipient, p.amount).Some?
    ensures EscrowHolds(initial, ledger[p.token := Transfer(BalancesOf(ledger, p.token), self, p.recipient, p.amount).value],
                        funded, paid + [p], admin, self)
  {
    var paid' := paid + [p];
    var ledger' := ledger[p.token := Transfer(BalancesOf(ledger, p.token), self, p.recipient, p.amount).value];
    assert paid'[..|paid|] == paid;
    forall t: Address
      ensures Escrow(ledger', t, self) + PaidIn(paid', t, self) == Escrow(initial, t, self) + FundedIn(funded, t, admin != self)
    {
      if t == p.token {
        TransferMoves(BalancesOf(ledger, p.token), self, p.recipient, p.amount, self);
      }
    }
  }

  // ---------------------------------------------------------------- which error comes first

  /** The first check of a payroll run that fails before anything is written. */
  function EarlyVerdict(admin: bool, inputs: seq<nat>, employeeRoot: nat, cap: nat, proof: bool, current: nat)
    : Result<(), Error> {
    if !admin then Err(NotAuthorized)
    else if |inputs| < 3 then Err(NonCanonicalInput)
    else if inputs[0] != employeeRoot then Err(ProofVerificationFailed)
    else if inputs[1] > cap then Err(BudgetExceeded)
    else if !proof then Err(ProofVerificationFailed)
    else if current >= U64_MAX || inputs[2] > U64_MAX then Err(NonCanonicalInput)
    else if inputs[2] != current + 1 then Err(ProofVerificationFailed)
    else Ok(())
  }

  /** What the checks of a payroll run before the first write come to. */
  predicate RunAdmissible(admin: bool, inputs: seq<nat>, employeeRoot: nat, cap: nat, proof: bool, current: nat) {
    && admin && proof && |inputs| >= 3
    && inputs[0] == employeeRoot && inputs[1] <= cap && inputs[2] == current + 1 <= U64_MAX
  }

  /** The first check of a payroll run that fails, given the outcome of each. */
  function RunVerdict(admin: bool, inputs: seq<nat>, employeeRoot: nat, cap: nat, proof: bool, current: nat,
                      allFresh: bool, transfers: bool): Result<(), Error> {
    var early := EarlyVerdict(admin, inputs, employeeRoot, cap, proof, current);
    if early.Err? then early
    else if !allFresh then Err(DuplicateCommitment)
    else if inputs[1] > I128_MAX then Err(NonCanonicalInput)
    else if !transfers then Err(HostTrap)
    else Ok(())
  }

  /** The first check of a withdrawal that fails before anything is written. */
  function WithdrawEarly(recipient: bool, verifierSet: bool, proof: bool, inputs: seq<nat>, roots: map<nat, nat>,
                         records: map<nat, CommitmentRecord>, withdrawn: map<nat, bool>): Result<(), Error> {
    if !recipient then Err(NotAuthorized)
    else if !verifierSet then Err(WithdrawVerifierNotSet)
    else if !proof then Err(ProofVerificationFailed)
    else if |inputs| < 4 then Err(NonCanonicalInput)
    else if inputs[0] !in roots then Err(PeriodNotInitialized)
    else if inputs[1] !in records then Err(CommitmentNotFound)
    else if Spent(withdrawn, inputs[2]) then Err(NullifierAlreadySpent)
    else Ok(())
  }

  /** What the checks of a withdrawal before the first write come to. */
  predicate WithdrawAdmissible(recipient: bool, verifierSet: bool, proof: bool, inputs: seq<nat>, roots: map<nat, nat>,
                               records: map<nat, CommitmentRecord>, withdrawn: map<nat, bool>) {
    && recipient && verifierSet && proof && |inputs| >= 4
    && inputs[0] in roots && inputs[1] in records && !Spent(withdrawn, inputs[2])
  }

  /** The first check of a withdrawal that fails. */
  function WithdrawVerdict(recipient: bool, verifierSet: bool, proof: bool, inputs: seq<nat>, roots: map<nat, nat>,
                           records: map<nat, CommitmentRecord>, withdrawn: map<nat, bool>, transfers: bool)
    : Result<(), Error> {
    var early := WithdrawEarly(recipient, verifierSet, proof, inputs, roots, records, withdrawn);
    if early.Err? then early
    else if inputs[3] > I128_MAX then Err(NonCanonicalInput)
    else if !transfers then Err(HostTrap)
    else Ok(())
  }

  // ---------------------------------------------------------------- the storage

  datatype Storage = Storage(
    token: Address,
    verifier: Address,
    withdrawVerifier: Option<Address>,
    employeeRoot: nat,
    budgetCap: nat,
    currentPeriod: nat,
    periods: map<nat, PayrollPeriod>,
    periodCommitments: map<nat, seq<nat>>,
    commitmentRecords: map<nat, CommitmentRecord>,
    rootToPeriod: map<nat, nat>,
    withdrawn: map<nat, bool>,
    ledger: Ledger)

  datatype History = History(funded: seq<Funding>, paid: seq<Payment>)

  /** Everything a payroll run writes apart from the tokens. */
  ghost predicate BooksHold(s: Storage, funded: seq<Funding>) {
    && PeriodsHold(s.periods, s.periodCommitments, s.currentPeriod)
    && RecordsHold(s.periodCommitments, s.commitmentRecords)
    && RootsHold(s.periods, s.rootToPeriod)
    && FundingMatches(s.periods, s.currentPeriod, funded)
  }

  ghost predicate Invariant(s: Storage, h: History, initial: Ledger, admin: Address, self: Address) {
    && BooksHold(s, h.funded)
    && PaymentsHold(s.withdrawn, h.paid)
    && EscrowHolds(initial, s.ledger, h.funded, h.paid, admin, self)
  }

  function TransferIn(s: Storage, from: Address, to: Address, amount: nat): Option<Balances> {
    Transfer(BalancesOf(s.ledger, s.token), from, to, amount)
  }

  /** The storage after a run whose transfer left `balances` in the token contract. */
  function AfterRun(s: Storage, root: nat, total: nat, items: seq<(nat, seq<nat>)>, balances: Balances): Storage {
    var k := s.currentPeriod + 1;
    s.(periods := s.periods[k := PayrollPeriod(root, total, |items|, true)],
       rootToPeriod := s.rootToPeriod[root := k],
       commitmentRecords := RecordAll(s.commitmentRecords, items),
       periodCommitments := s.periodCommitments[k := Ids(items)],
       currentPeriod := k,
       ledger := s.ledger[s.token := balances])
  }

  /** The storage after a withdrawal whose transfer left `balances` in the token contract. */
  function AfterWithdraw(s: Storage, nullifier: nat, balances: Balances): Storage {
    s.(withdrawn := s.withdrawn[nullifier := true], ledger := s.ledger[s.token := balances])
  }

  /** What a successful run does to every stored value and every balance. */
  ghost predicate RunEffect(was: Storage, now: Storage, inputs: seq<nat>, items: seq<(nat, seq<nat>)>,
                            admin: Address, self: Address) {
    var k := was.currentPeriod + 1;
    && |inputs| >= 3
    && now.token == was.token && now.verifier == was.verifier && now.withdrawVerifier == was.withdrawVerifier
    && now.employeeRoot == was.employeeRoot && now.budgetCap == was.budgetCap && now.withdrawn == was.withdrawn
    && now.currentPeriod == k
    && now.periods == was.periods[k := PayrollPeriod(inputs[0], inputs[1], |items|, true)]
    && now.rootToPeriod == was.rootToPeriod[inputs[0] := k]
    && now.periodCommitments == was.periodCommitments[k := Ids(items)]
    && ItemsStored(was.commitmentRecords, now.commitmentRecords, items)
    && Paid(was, now, admin, self, inputs[1])
  }

  /** What a successful withdrawal does to every stored value and every balance. */
  ghost predicate WithdrawEffect(was: Storage, now: Storage, inputs: seq<nat>, recipient: Address, self: Address) {
    && |inputs| >= 4
    && now.token == was.token && now.verifier == was.verifier && now.withdrawVerifier == was.withdrawVerifier
    && now.employeeRoot == was.employeeRoot && now.budgetCap == was.budgetCap
    && now.currentPeriod == was.currentPeriod && now.periods == was.periods && now.rootToPeriod == was.rootToPeriod
    && now.periodCommitments == was.periodCommitments && now.commitmentRecords == was.commitmentRecords
    && now.withdrawn == was.withdrawn[inputs[2] := true]
    && Paid(was, now, self, recipient, inputs[3])
  }

  /** The amount went from one address to the other in the contract's token, and nowhere else. */
  ghost predicate Paid(was: Storage, now: Storage, from: Address, to: Address, amount: nat) {
    && Moved(BalancesOf(was.ledger, was.token), BalancesOf(now.ledger, was.token), from, to, amount)
    && forall t: Address | t != was.token :: BalancesOf(now.ledger, t) == BalancesOf(was.ledger, t)
  }

  predicate CanPay(s: Storage, from: Address, to: Address, amount: nat) {
    CanTransfer(BalancesOf(s.ledger, s.token), from, to, amount)
  }

  lemma PaidExactly(s: Storage, from: Address, to: Address, amount: nat)
    ensures TransferIn(s, from, to, amount).Some? <==> CanPay(s, from, to, amount)
    ensures TransferIn(s, from, to, amount).Some? ==>
              Paid(s, s.(ledger := s.ledger[s.token := TransferIn(s, from, to, amount).value]), from, to, amount)
  {
    TransferAccepted(BalancesOf(s.ledger, s.token), from, to, amount);
    if TransferIn(s, from, to, amount).Some? {
      TransferMovesAll(BalancesOf(s.ledger, s.token), from, to, amount);
    }
  }

  lemma AfterRunEffect(s: Storage, inputs: seq<nat>, items: seq<(nat, seq<nat>)>, admin: Address, self: Address)
    requires |inputs| >= 3 && AllFresh(s.commitmentRecords, items) && TransferIn(s, admin, self, inputs[1]).Some?
    ensures RunEffect(s, AfterRun(s, inputs[0], inputs[1], items, TransferIn(s, admin, self, inputs[1]).value),
                      inputs, items, admin, self)
  {
    RecordAllStores(s.commitmentRecords, items);
    PaidExactly(s, admin, self, inputs[1]);
  }

  lemma AfterWithdrawEffect(s: Storage, inputs: seq<nat>, recipient: Address, self: Address)
    requires |inputs| >= 4 && TransferIn(s, self, recipient, inputs[3]).Some?
    ensures WithdrawEffect(s, AfterWithdraw(s, inputs[2], TransferIn(s, self, recipient, inputs[3]).value),
                           inputs, recipient, self)
  {
    PaidExactly(s, self, recipient, inputs[3]);
  }

  /** A successful run keeps the invariant. */
  lemma RunKeepsInvariant(s: Storage, h: History, initial: Ledger, admin: Address, self: Address,
                          root: nat, total: nat, items: seq<(nat, seq<nat>)>, balances: Balances, e: Evidence)
    requires Invariant(s, h, initial, admin, self)
    requires TransferIn(s, admin, self, total) == Some(balances) && AllFresh(s.commitmentRecords, items)
    ensures Invariant(AfterRun(s, root, total, items, balances),
                      h.(funded := h.funded + [Funding(s.token, total, e)]), initial, admin, self)
  {
    RunKeepsBooks(s, AfterRun(s, root, total, items, balances), h.funded, root, total, items, e);
    FundingAdded(initial, s.ledger, h.funded, h.paid, admin, self, s.token, total, e);
  }

  lemma RunKeepsBooks(s: Storage, s': Storage, funded: seq<Funding>, root: nat, total: nat,
                      items: seq<(nat, seq<nat>)>, e: Evidence)
    requires BooksHold(s, funded) && AllFresh(s.commitmentRecords, items)
    requires s'.currentPeriod == s.currentPeriod + 1
    requires s'.periods == s.periods[s'.currentPeriod := PayrollPeriod(root, total, |items|, true)]
    requires s'.rootToPeriod == s.rootToPeriod[root := s'.currentPeriod]
    requires s'.commitmentRecords == RecordAll(s.commitmentRecords, items)
    requires s'.periodCommitments == s.periodCommitments[s'.currentPeriod := Ids(items)]
    ensures BooksHold(s', funded + [Funding(s.token, total, e)])
  {
    var p := PayrollPeriod(root, total, |items|, true);
    assert PeriodsHold(s'.periods, s'.periodCommitments, s'.currentPeriod) by {
      PeriodAdded(s.periods, s.periodCommitments, s.currentPeriod, p, Ids(items));
    }
    assert RecordsHold(s'.periodCommitments, s'.commitmentRecords) by {
      RecordsAdded(s.periodCommitments, s.commitmentRecords, s'.currentPeriod, items);
    }
    assert RootsHold(s'.periods, s'.rootToPeriod) by {
      RootAdded(s.periods, s.periodCommitments, s.rootToPeriod, s.currentPeriod, p);
    }
    FundingExtended(s.periods, s.currentPeriod, funded, p, s.token, e);
  }

  lemma FundingExtended(periods: map<nat, PayrollPeriod>, current: nat, funded: seq<Funding>, p: PayrollPeriod,
                        token: Address, e: Evidence)
    requires FundingMatches(periods, current, funded)
    ensures FundingMatches(periods[current + 1 := p], current + 1, funded + [Funding(token, p.totalAmount, e)])
  {
  }

  /** A successful withdrawal keeps the invariant. */
  lemma WithdrawKeepsInvariant(s: Storage, h: History, initial: Ledger, admin: Address, self: Address,
                               nullifier: nat, salary: nat, recipient: Address, balances: Balances, e: Evidence)
    requires Invariant(s, h, initial, admin, self)
    requires TransferIn(s, self, recipient, salary) == Some(balances) && !Spent(s.withdrawn, nullifier)
    ensures Invariant(AfterWithdraw(s, nullifier, balances),
                      h.(paid := h.paid + [Payment(s.token, nullifier, salary, recipient, e)]), initial, admin, self)
  {
    var p := Payment(s.token, nullifier, salary, recipient, e);
    PaymentAdded(s.withdrawn, h.paid, p);
    PayoutAdded(initial, s.ledger, h.funded, h.paid, admin, self, p);
  }

  /** A run keeps everything backed: records and roots only grow, and the new funding is backed. */
  lemma RunKeepsBacked(s: Storage, h: History, verifies: Verifies, root: nat, total: nat, items: seq<(nat, seq<nat>)>,
                       balances: Balances, e: Evidence)
    requires AllBacked(s, h, verifies) && |h.funded| == s.currentPeriod
    requires |e.inputs| >= 3 && e.inputs[0] == root && e.inputs[1] == total && e.inputs[2] == s.currentPeriod + 1
    requires Accepted(e, verifies)
    ensures AllBacked(AfterRun(s, root, total, items, balances), h.(funded := h.funded + [Funding(s.token, total, e)]), verifies)
  {
    RecordAllKeys(s.commitmentRecords, items);
  }

  /** A withdrawal keeps everything backed. */
  lemma WithdrawKeepsBacked(s: Storage, h: History, verifies: Verifies, balances: Balances, p: Payment)
    requires AllBacked(s, h, verifies) && PaymentBacked(p, s.commitmentRecords, s.rootToPeriod, verifies)
    ensures AllBacked(AfterWithdraw(s, p.nullifier, balances), h.(paid := h.paid + [p]), verifies)
  {
  }

  function TotalOf(periods: map<nat, PayrollPeriod>, current: nat): nat
    requires forall k | 1 <= k <= current :: k in periods
  {
    if current == 0 then 0 else TotalOf(periods, current - 1) + periods[current].totalAmount
  }

  function TotalPaid(paid: seq<Payment>): nat {
    if paid == [] then 0 else TotalPaid(paid[..|paid| - 1]) + paid[|paid| - 1].amount
  }

  lemma {:induction false} FundedIsTotal(periods: map<nat, PayrollPeriod>, current: nat, funded: seq<Funding>, token: Address)
    requires FundingMatches(periods, current, funded)
    requires forall i | 0 <= i < |funded| :: funded[i].token == token
    ensures FundedIn(funded, token, true) == TotalOf(periods, current)
    decreases current
  {
    if current > 0 {
      FundedIsTotal(periods, current - 1, funded[..current - 1], token);
    }
  }

  lemma {:induction false} PaidIsTotal(paid: seq<Payment>, token: Address, self: Address)
    requires forall i | 0 <= i < |paid| :: paid[i].token == token && paid[i].recipient != self
    ensures PaidIn(paid, token, self) == TotalPaid(paid)
  {
    if paid != [] {
      PaidIsTotal(paid[..|paid| - 1], token, self);
    }
  }

  /** With one token throughout, and an administrator and recipients other than the contract, the
      escrow is what it started with plus the period totals minus the salaries paid. */
  lemma EscrowIsTotalsMinusPaid(s: Storage, h: History, initial: Ledger, admin: Address, self: Address, token: Address)
    requires Invariant(s, h, initial, admin, self) && admin != self
    requires forall i | 0 <= i < |h.funded| :: h.funded[i].token == token
    requires forall i | 0 <= i < |h.paid| :: h.paid[i].token == token && h.paid[i].recipient != self
    ensures forall k | 1 <= k <= s.currentPeriod :: k in s.periods
    ensures Escrow(s.ledger, token, self) as int
            == Escrow(initial, token, self) + TotalOf(s.periods, s.currentPeriod) - TotalPaid(h.paid)
  {
    FundedIsTotal(s.periods, s.currentPeriod, h.funded, token);
    PaidIsTotal(h.paid, token, self);
  }

  // ---------------------------------------------------------------- the contract

  class PayrollContract {
    const self: Address
    const admin: Address
    const verifies: Verifies // by verifier contract, proof and public inputs
    const initialLedger: Ledger
    var s: Storage
    ghost var h: History

    ghost predicate Valid()
      reads this
    {
      Invariant(s, h, initialLedger, admin, self) && AllBacked(s, h, verifies)
    }

    constructor (self: Address, admin: Address, token: Address, verifier: Address, employeeRoot: nat, budgetCap: nat,
                 ledger: Ledger, verifies: Verifies)
      ensures Valid() && this.self == self && this.admin == admin && initialLedger == ledger && this.verifies == verifies
      ensures s == Storage(token, verifier, None, employeeRoot, budgetCap, 0, map[], map[], map[], map[], map[], ledger)
      ensures h == History([], [])
    {
      this.self, this.admin, this.verifies, initialLedger := self, admin, verifies, ledger;
      s := Storage(token, verifier, None, employeeRoot, budgetCap, 0, map[], map[], map[], map[], map[], ledger);
      h := History([], []);
    }

    method SetEmployeeRoot(authorized: bool, root: nat) returns (r: Result<(), Error>)
      requires Valid()
      modifies this`s
      ensures Valid() && r == if authorized then Ok(()) else Err(NotAuthorized)
      ensures s == if authorized then old(s).(employeeRoot := root) else old(s)
    {
      if !authorized {
        return Err(NotAuthorized);
      }
      s := s.(employeeRoot := root);
      return Ok(());
    }

    method SetBudgetCap(authorized: bool, cap: nat) returns (r: Result<(), Error>)
      requires Valid()
      modifies this`s
      ensures Valid() && r == if authorized then Ok(()) else Err(NotAuthorized)
      ensures s == if authorized then old(s).(budgetCap := cap) else old(s)
    {
      if !authorized {
        return Err(NotAuthorized);
      }
      s := s.(budgetCap := cap);
      return Ok(());
    }

    method SetToken(authorized: bool, token: Address) returns (r: Result<(), Error>)
      requires Valid()
      modifies this`s
      ensures Valid() && r == if authorized then Ok(()) else Err(NotAuthorized)
      ensures s == if authorized then old(s).(token := token) else old(s)
    {
      if !authorized {
        return Err(NotAuthorized);
      }
      s := s.(token := token);
      return Ok(());
    }

    method SetVerifier(authorized: bool, verifier: Address) returns (r: Result<(), Error>)
      requires Valid()
      modifies this`s
      ensures Valid() && r == if authorized then Ok(()) else Err(NotAuthorized)
      ensures s == if authorized then old(s).(verifier := verifier) else old(s)
    {
      if !authorized {
        return Err(NotAuthorized);
      }
      s := s.(verifier := verifier);
      return Ok(());
    }

    method SetWithdrawVerifier(authorized: bool, verifier: Address) returns (r: Result<(), Error>)
      requires Valid()
      modifies this`s
      ensures Valid() && r == if authorized then Ok(()) else Err(NotAuthorized)
      ensures s == if authorized then old(s).(withdrawVerifier := Some(verifier)) else old(s)
    {
      if !authorized {
        return Err(NotAuthorized);
      }
      s := s.(withdrawVerifier := Some(verifier));
      return Ok(());
    }

    /** The checks of a run that come before the first write. */
    method CheckRun(authorized: bool, proof: seq<nat>, inputs: seq<nat>) returns (r: Result<(), Error>)
      ensures r == EarlyVerdict(authorized, inputs, s.employeeRoot, s.budgetCap, verifies(s.verifier, proof, inputs),
                                s.currentPeriod)
      ensures r.Ok? <==> RunAdmissible(authorized, inputs, s.employeeRoot, s.budgetCap,
                                       verifies(s.verifier, proof, inputs), s.currentPeriod)
      ensures r == Err(NotAuthorized) <==> !authorized
      ensures r == Err(BudgetExceeded) <==>
                authorized && |inputs| >= 3 && inputs[0] == s.employeeRoot && inputs[1] > s.budgetCap
      ensures r == Err(NonCanonicalInput) <==>
                authorized && (|inputs| < 3 || (inputs[0] == s.employeeRoot && inputs[1] <= s.budgetCap
                                                && verifies(s.verifier, proof, inputs)
                                                && (s.currentPeriod >= U64_MAX || inputs[2] > U64_MAX)))
      ensures r.Err? ==> r.error in {NotAuthorized, BudgetExceeded, NonCanonicalInput, ProofVerificationFailed}
    {
      if !authorized {
        return Err(NotAuthorized);
      }
      if |inputs| < 3 {
        return Err(NonCanonicalInput);
      }
      var root, total := inputs[0], inputs[1];
      if root != s.employeeRoot {
        return Err(ProofVerificationFailed);
      }
      if total > s.budgetCap {
        return Err(BudgetExceeded);
      }
      if !verifies(s.verifier, proof, inputs) {
        return Err(ProofVerificationFailed);
      }
      if s.currentPeriod >= U64_MAX {
        return Err(NonCanonicalInput);
      }
      var proofPeriod := FrToU64(inputs[2]);
      if proofPeriod.Err? {
        return Err(proofPeriod.error);
      }
      if proofPeriod.value != s.currentPeriod + 1 {
        return Err(ProofVerificationFailed);
      }
      return Ok(());
    }

    /** Run one payroll period. */
    method RunPayroll(authorized: bool, proof: seq<nat>, inputs: seq<nat>, ipfsCids: seq<(nat, seq<nat>)>)
      returns (r: Result<(), Error>)
      requires Valid()
      modifies this`s, this`h
      ensures Valid()
      ensures r == RunVerdict(authorized, inputs, old(s).employeeRoot, old(s).budgetCap,
                              verifies(old(s).verifier, proof, inputs), old(s).currentPeriod,
                              AllFresh(old(s).commitmentRecords, ipfsCids),
                              |inputs| >= 2 && TransferIn(old(s), admin, self, inputs[1]).Some?)
      ensures r.Ok? <==> && RunAdmissible(authorized, inputs, old(s).employeeRoot, old(s).budgetCap,
                                          verifies(old(s).verifier, proof, inputs), old(s).currentPeriod)
                         && AllFresh(old(s).commitmentRecords, ipfsCids) && inputs[1] <= I128_MAX
                         && CanPay(old(s), admin, self, inputs[1])
      ensures r.Ok? ==> RunEffect(old(s), s, inputs, ipfsCids, admin, self)
      ensures r.Ok? ==>
                && s == AfterRun(old(s), inputs[0], inputs[1], ipfsCids, TransferIn(old(s), admin, self, inputs[1]).value)
                && h == old(h).(funded := old(h).funded
                                          + [Funding(s.token, inputs[1], Evidence(s.verifier, proof, inputs))])
      ensures r.Err? ==> s == old(s) && h == old(h)
    {
      var checked := CheckRun(authorized, proof, inputs);
      if checked.Err? {
        return checked;
      }
      PaidExactly(s, admin, self, inputs[1]);
      var employeeCount, root, total, newPeriod := |ipfsCids|, inputs[0], inputs[1], s.currentPeriod + 1;
      var saved := s;
      s := s.(periods := s.periods[newPeriod := PayrollPeriod(root, total, employeeCount, true)]);
      s := s.(rootToPeriod := s.rootToPeriod[root := newPeriod]);
      var ok, records, ids := StoreRecords(s.commitmentRecords, ipfsCids);
      if !ok {
        s := saved;
        return Err(DuplicateCommitment);
      }
      s := s.(commitmentRecords := records);
      s := s.(periodCommitments := s.periodCommitments[newPeriod := ids]);
      s := s.(currentPeriod := newPeriod);
      if total > I128_MAX {
        s := saved;
        return Err(NonCanonicalInput);
      }
      var balances := TransferIn(s, admin, self, total);
      if balances.None? {
        s := saved;
        return Err(HostTrap);
      }
      s := s.(ledger := s.ledger[s.token := balances.value]);
      ghost var e := Evidence(s.verifier, proof, inputs);
      RunKeepsInvariant(saved, h, initialLedger, admin, self, root, total, ipfsCids, balances.value, e);
      RunKeepsBacked(saved, h, verifies, root, total, ipfsCids, balances.value, e);
      AfterRunEffect(saved, inputs, ipfsCids, admin, self);
      h := h.(funded := h.funded + [Funding(s.token, total, e)]);
      return Ok(());
    }

    /** The checks of a withdrawal that come before the first write. */
    method CheckWithdraw(authorized: bool, proof: seq<nat>, inputs: seq<nat>) returns (r: Result<(), Error>)
      ensures r == WithdrawEarly(authorized, s.withdrawVerifier.Some?,
                                 s.withdrawVerifier.Some? && verifies(s.withdrawVerifier.value, proof, inputs),
                                 inputs, s.rootToPeriod, s.commitmentRecords, s.withdrawn)
      ensures r.Ok? <==> WithdrawAdmissible(authorized, s.withdrawVerifier.Some?,
                                            s.withdrawVerifier.Some? && verifies(s.withdrawVerifier.value, proof, inputs),
                                            inputs, s.rootToPeriod, s.commitmentRecords, s.withdrawn)
      ensures r == Err(NotAuthorized) <==> !authorized
      ensures r == Err(WithdrawVerifierNotSet) <==> authorized && s.withdrawVerifier.None?
      ensures r == Err(ProofVerificationFailed) <==>
                authorized && s.withdrawVerifier.Some? && !verifies(s.withdrawVerifier.value, proof, inputs)
      ensures r == Err(PeriodNotInitialized) ==> |inputs| >= 4 && inputs[0] !in s.rootToPeriod
      ensures r == Err(CommitmentNotFound) ==>
                |inputs| >= 4 && inputs[0] in s.rootToPeriod && inputs[1] !in s.commitmentRecords
      ensures r == Err(NullifierAlreadySpent) ==>
                && |inputs| >= 4 && inputs[0] in s.rootToPeriod && inputs[1] in s.commitmentRecords
                && Spent(s.withdrawn, inputs[2])
      ensures r == Err(NonCanonicalInput) ==> |inputs| < 4
      ensures r.Err? ==> r.error in {NotAuthorized, WithdrawVerifierNotSet, ProofVerificationFailed, NonCanonicalInput,
                                     PeriodNotInitialized, CommitmentNotFound, NullifierAlreadySpent}
    {
      if !authorized {
        return Err(NotAuthorized);
      }
      if s.withdrawVerifier.None? {
        return Err(WithdrawVerifierNotSet);
      }
      if !verifies(s.withdrawVerifier.value, proof, inputs) {
        return Err(ProofVerificationFailed);
      }
      if |inputs| < 4 {
        return Err(NonCanonicalInput);
      }
      if inputs[0] !in s.rootToPeriod {
        return Err(PeriodNotInitialized);
      }
      if inputs[1] !in s.commitmentRecords {
        return Err(CommitmentNotFound);
      }
      if Spent(s.withdrawn, inputs[2]) {
        return Err(NullifierAlreadySpent);
      }
      return Ok(());
    }

    /** Mark the nullifier and transfer the salary, or change nothing. */
    method MarkAndTransfer(nullifier: nat, salary: nat, recipient: Address, ghost e: Evidence) returns (r: Result<(), Error>)
      modifies this`s, this`h
      ensures r == if salary > I128_MAX then Err(NonCanonicalInput)
                   else if TransferIn(old(s), self, recipient, salary).None? then Err(HostTrap)
                   else Ok(())
      ensures r.Ok? ==> TransferIn(old(s), self, recipient, salary).Some?
                        && s == AfterWithdraw(old(s), nullifier, TransferIn(old(s), self, recipient, salary).value)
                        && h == old(h).(paid := old(h).paid + [Payment(s.token, nullifier, salary, recipient, e)])
      ensures r.Err? ==> s == old(s) && h == old(h)
    {
      var saved := s;
      s := s.(withdrawn := s.withdrawn[nullifier := true]);
      if salary > I128_MAX {
        s := saved;
        return Err(NonCanonicalInput);
      }
      var balances := TransferIn(s, self, recipient, salary);
      if balances.None? {
        s := saved;
        return Err(HostTrap);
      }
      s := s.(ledger := s.ledger[s.token := balances.value]);
      h := h.(paid := h.paid + [Payment(s.token, nullifier, salary, recipient, e)]);
      return Ok(());
    }

    /** The writes of a withdrawal whose checks passed. */
    method PayOut(nullifier: nat, salary: nat, recipient: Address, ghost e: Evidence) returns (r: Result<(), Error>)
      requires Valid() && !Spent(s.withdrawn, nullifier)
      requires PaymentBacked(Payment(s.token, nullifier, salary, recipient, e), s.commitmentRecords, s.rootToPeriod, verifies)
      modifies this`s, this`h
      ensures Valid()
      ensures r == if salary > I128_MAX then Err(NonCanonicalInput)
                   else if TransferIn(old(s), self, recipient, salary).None? then Err(HostTrap)
                   else Ok(())
      ensures r.Ok? ==> TransferIn(old(s), self, recipient, salary).Some?
                        && s == AfterWithdraw(old(s), nullifier, TransferIn(old(s), self, recipient, salary).value)
                        && h == old(h).(paid := old(h).paid + [Payment(s.token, nullifier, salary, recipient, e)])
      ensures r.Err? ==> s == old(s) && h == old(h)
    {
      r := MarkAndTransfer(nullifier, salary, recipient, e);
      if r.Ok? {
        ghost var p := Payment(s.token, nullifier, salary, recipient, e);
        ghost var balances := TransferIn(old(s), self, recipient, salary).value;
        WithdrawKeepsInvariant(old(s), old(h), initialLedger, admin, self, nullifier, salary, recipient, balances, e);
        WithdrawKeepsBacked(old(s), old(h), verifies, balances, p);
      }
    }

    /** Pay one salary out of escrow. */
    method Withdraw(authorized: bool, proof: seq<nat>, inputs: seq<nat>, recipient: Address) returns (r: Result<(), Error>)
      requires Valid()
      modifies this`s, this`h
      ensures Valid()
      ensures r == WithdrawVerdict(authorized, old(s).withdrawVerifier.Some?,
                                   old(s).withdrawVerifier.Some? && verifies(old(s).withdrawVerifier.value, proof, inputs),
                                   inputs, old(s).rootToPeriod, old(s).commitmentRecords, old(s).withdrawn,
                                   |inputs| >= 4 && TransferIn(old(s), self, recipient, inputs[3]).Some?)
      ensures r.Ok? <==> && WithdrawAdmissible(authorized, old(s).withdrawVerifier.Some?,
                                               old(s).withdrawVerifier.Some?
                                               && verifies(old(s).withdrawVerifier.value, proof, inputs),
                                               inputs, old(s).rootToPeriod, old(s).commitmentRecords, old(s).withdrawn)
                         && inputs[3] <= I128_MAX && CanPay(old(s), self, recipient, inputs[3])
      ensures r.Ok? ==> WithdrawEffect(old(s), s, inputs, recipient, self)
      ensures r.Ok? ==>
                && s == AfterWithdraw(old(s), inputs[2], TransferIn(old(s), self, recipient, inputs[3]).value)
                && h == old(h).(paid := old(h).paid + [Payment(s.token, inputs[2], inputs[3], recipient,
                                                               Evidence(old(s).withdrawVerifier.value, proof, inputs))])
      ensures r.Err? ==> s == old(s) && h == old(h)
    {
      var checked := CheckWithdraw(authorized, proof, inputs);
      if checked.Err? {
        return checked;
      }
      PaidExactly(s, self, recipient, inputs[3]);
      ghost var before := s;
      r := PayOut(inputs[2], inputs[3], recipient, Evidence(s.withdrawVerifier.value, proof, inputs));
      if r.Ok? {
        AfterWithdrawEffect(before, inputs, recipient, self);
      }
    }
  }

  // ---------------------------------------------------------------- whole runs

  datatype Call =
    | SetEmployeeRoot(root: nat)
    | SetBudgetCap(cap: nat)
    | SetToken(token: Address)
    | SetVerifier(runVerifier: Address)
    | SetWithdrawVerifier(verifier: Address)
    | RunPayroll(runProof: seq<nat>, runInputs: seq<nat>, ipfsCids: seq<(nat, seq<nat>)>)
    | Withdraw(proof: seq<nat>, inputs: seq<nat>, recipient: Address)

  method Do(c: PayrollContract, authorized: bool, call: Call)
    requires c.Valid()
    modifies c`s, c`h
    ensures c.Valid() && old(c.h).funded <= c.h.funded && old(c.h).paid <= c.h.paid
  {
    match call
    case SetEmployeeRoot(root) => var _ := c.SetEmployeeRoot(authorized, root);
    case SetBudgetCap(cap) => var _ := c.SetBudgetCap(authorized, cap);
    case SetToken(token) => var _ := c.SetToken(authorized, token);
    case SetVerifier(verifier) => var _ := c.SetVerifier(authorized, verifier);
    case SetWithdrawVerifier(verifier) => var _ := c.SetWithdrawVerifier(authorized, verifier);
    case RunPayroll(proof, inputs, cids) => var _ := c.RunPayroll(authorized, proof, inputs, cids);
    case Withdraw(proof, inputs, recipient) => var _ := c.Withdraw(authorized, proof, inputs, recipient);
  }

  /** Any sequence of calls, authorised or not, keeps the invariant, and the history only grows. */
  method Run(c: PayrollContract, calls: seq<(bool, Call)>)
    requires c.Valid()
    modifies c`s, c`h
    ensures c.Valid() && old(c.h).funded <= c.h.funded && old(c.h).paid <= c.h.paid
  {
    for i := 0 to |calls|
      invariant c.Valid() && old(c.h).funded <= c.h.funded && old(c.h).paid <= c.h.paid
    {
      Do(c, calls[i].0, calls[i].1);
    }
  }

  // ---------------------------------------------------------------- commitments and roots

  const ACCEPT_ALL: Verifies := (verifier, proof, inputs) => true

  ghost predicate NoTokens(s: Storage) {
    forall a: Address :: BalanceOf(BalancesOf(s.ledger, s.token), a) == 0
  }

  lemma NothingMoves(s: Storage, from: Address, to: Address)
    requires NoTokens(s)
    ensures TransferIn(s, from, to, 0).Some?
    ensures NoTokens(s.(ledger := s.ledger[s.token := TransferIn(s, from, to, 0).value]))
  {
    var b := BalancesOf(s.ledger, s.token);
    assert BalanceOf(b, from) == 0 && BalanceOf(b, to) == 0;
    forall a: Address ensures BalanceOf(TransferIn(s, from, to, 0).value, a) == 0 {
      assert BalanceOf(b, a) == 0;
      TransferMoves(b, from, to, 0, a);
    }
  }

  lemma AfterFreeRun(before: Storage, after: Storage, admin: Address, self: Address, items: seq<(nat, seq<nat>)>)
    requires NoTokens(before) && TransferIn(before, admin, self, 0).Some?
    requires after == AfterRun(before, before.employeeRoot, 0, items, TransferIn(before, admin, self, 0).value)
    ensures NoTokens(after)
    ensures after == AfterRun(before, before.employeeRoot, 0, items, BalancesOf(after.ledger, after.token))
  {
    NothingMoves(before, admin, self);
    assert BalancesOf(after.ledger, after.token) == TransferIn(before, admin, self, 0).value;
  }

  /** A period that pays nothing, for a contract that accepts every proof. */
  method RunNextPeriod(c: PayrollContract, items: seq<(nat, seq<nat>)>)
    requires c.Valid() && c.verifies == ACCEPT_ALL && NoTokens(c.s)
    requires c.s.currentPeriod < U64_MAX && AllFresh(c.s.commitmentRecords, items)
    modifies c`s, c`h
    ensures c.Valid() && NoTokens(c.s)
    ensures c.s == AfterRun(old(c.s), old(c.s).employeeRoot, 0, items, BalancesOf(c.s.ledger, c.s.token))
  {
    var inputs := [c.s.employeeRoot, 0, c.s.currentPeriod + 1];
    ghost var before := c.s;
    NothingMoves(before, c.admin, c.self);
    assert RunAdmissible(true, inputs, before.employeeRoot, before.budgetCap, true, before.currentPeriod);
    var r := c.RunPayroll(true, [], inputs, items);
    assert r.Ok?;
    AfterFreeRun(before, c.s, c.admin, c.self, items);
  }

  /** The period that the contract finds for the root lists the commitment. */
  predicate ListedUnder(s: Storage, root: nat, id: nat) {
    root in s.rootToPeriod && s.rootToPeriod[root] in s.periodCommitments && id in s.periodCommitments[s.rootToPeriod[root]]
  }

  /** Some period that ran with the root lists the commitment. */
  ghost predicate RanUnder(s: Storage, root: nat, id: nat) {
    exists k :: k in s.periods && k in s.periodCommitments && s.periods[k].commitmentRoot == root && id in s.periodCommitments[k]
  }

  ghost predicate OnlyThisPeriod(s: Storage, root: nat) {
    root in s.rootToPeriod && forall k | k in s.periodCommitments && s.periodCommitments[k] != [] :: s.rootToPeriod[root] == k
  }

  ghost predicate OnlyThisRoot(s: Storage, root: nat) {
    forall k | k in s.periodCommitments && s.periodCommitments[k] != [] :: k in s.periods && s.periods[k].commitmentRoot == root
  }

  /** One root covers all commitments exactly if no period but its latest lists any. */
  lemma ListsAllExactly(s: Storage, funded: seq<Funding>, root: nat)
    requires BooksHold(s, funded) && root in s.rootToPeriod
    ensures (forall id | id in s.commitmentRecords :: ListedUnder(s, root, id)) <==> OnlyThisPeriod(s, root)
  {
    if forall id | id in s.commitmentRecords :: ListedUnder(s, root, id) {
      forall k | k in s.periodCommitments && s.periodCommitments[k] != [] ensures s.rootToPeriod[root] == k {
        var id := s.periodCommitments[k][0];
        assert id in s.commitmentRecords && ListedUnder(s, root, id);
      }
    }
    if OnlyThisPeriod(s, root) {
      forall id | id in s.commitmentRecords ensures ListedUnder(s, root, id) {
        var k :| k in s.periodCommitments && id in s.periodCommitments[k];
      }
    }
  }

  /** Every accepted withdrawal is for a commitment of the period found for its root, whatever the
      proofs, exactly if every known root is the root of every period that lists anything, and that
      period is its latest. */
  lemma TiedExactly(s: Storage, funded: seq<Funding>)
    requires BooksHold(s, funded)
    ensures (forall root, id | root in s.rootToPeriod && id in s.commitmentRecords :: ListedUnder(s, root, id))
            <==> forall root | root in s.rootToPeriod :: OnlyThisPeriod(s, root)
  {
    forall root | root in s.rootToPeriod
      ensures (forall id | id in s.commitmentRecords :: ListedUnder(s, root, id)) <==> OnlyThisPeriod(s, root)
    {
      ListsAllExactly(s, funded, root);
    }
  }

  lemma RecordedIn(s: Storage, funded: seq<Funding>, id: nat) returns (k: nat)
    requires BooksHold(s, funded) && id in s.commitmentRecords
    ensures k in s.periods && k in s.periodCommitments && id in s.periodCommitments[k]
  {
    k :| k in s.periodCommitments && id in s.periodCommitments[k];
  }

  lemma RanIn(s: Storage, funded: seq<Funding>, root: nat, k: nat)
    requires BooksHold(s, funded) && k in s.periodCommitments && s.periodCommitments[k] != []
    requires forall id | id in s.commitmentRecords :: RanUnder(s, root, id)
    ensures k in s.periods && s.periods[k].commitmentRoot == root
  {
    var id := s.periodCommitments[k][0];
    assert id in s.commitmentRecords && RanUnder(s, root, id);
    var l :| l in s.periods && l in s.periodCommitments && s.periods[l].commitmentRoot == root && id in s.periodCommitments[l];
    assert l == k;
  }

  /** The same for some period that ran with the root: exactly if all periods that list anything ran
      with it. */
  lemma RanExactly(s: Storage, funded: seq<Funding>, root: nat)
    requires BooksHold(s, funded)
    ensures (forall id | id in s.commitmentRecords :: RanUnder(s, root, id)) <==> OnlyThisRoot(s, root)
  {
    if forall id | id in s.commitmentRecords :: RanUnder(s, root, id) {
      forall k | k in s.periodCommitments && s.periodCommitments[k] != []
        ensures k in s.periods && s.periods[k].commitmentRoot == root
      {
        RanIn(s, funded, root, k);
      }
    }
    if OnlyThisRoot(s, root) {
      forall id | id in s.commitmentRecords ensures RanUnder(s, root, id) {
        var k := RecordedIn(s, funded, id);
      }
    }
  }

  /** The two notions differ exactly for commitments of an earlier period of the same root. */
  lemma ListedOrEarlier(s: Storage, funded: seq<Funding>, root: nat, id: nat)
    requires BooksHold(s, funded)
    ensures ListedUnder(s, root, id) ==> RanUnder(s, root, id)
    ensures RanUnder(s, root, id) && !ListedUnder(s, root, id) ==>
              root in s.rootToPeriod && exists k :: k < s.rootToPeriod[root] && k in s.periods && k in s.periodCommitments
                                                    && s.periods[k].commitmentRoot == root && id in s.periodCommitments[k]
  {
    if ListedUnder(s, root, id) {
      var k := s.rootToPeriod[root];
      assert k in s.periods && s.periods[k].commitmentRoot == root;
    } else if RanUnder(s, root, id) {
      var k :| k in s.periods && k in s.periodCommitments && s.periods[k].commitmentRoot == root && id in s.periodCommitments[k];
      assert k <= s.rootToPeriod[root];
    }
  }

  /** The last payment is for a commitment that the period of its root does not list. */
  ghost predicate PaidAcrossPeriods(s: Storage, h: History) {
    && |h.paid| > 0
    && var inputs := h.paid[|h.paid| - 1].evidence.inputs;
       |inputs| >= 4 && inputs[0] in s.rootToPeriod && !ListedUnder(s, inputs[0], inputs[1])
  }

  lemma AcrossExactly(before: Storage, s: Storage, h: History, inputs: seq<nat>)
    requires |inputs| >= 4 && inputs[0] in before.rootToPeriod
    requires s.rootToPeriod == before.rootToPeriod && s.periodCommitments == before.periodCommitments
    requires |h.paid| > 0 && h.paid[|h.paid| - 1].evidence.inputs == inputs
    ensures PaidAcrossPeriods(s, h) <==> !ListedUnder(before, inputs[0], inputs[1])
  {
  }

  /** An accepted withdrawal pays across periods exactly if, before the call, the period found for
      its root did not list its commitment. */
  method WithdrawAndTell(c: PayrollContract, authorized: bool, proof: seq<nat>, inputs: seq<nat>, recipient: Address)
    returns (r: Result<(), Error>)
    requires c.Valid()
    modifies c`s, c`h
    ensures c.Valid()
    ensures r.Ok? ==> |inputs| >= 4 && (PaidAcrossPeriods(c.s, c.h) <==> !ListedUnder(old(c.s), inputs[0], inputs[1]))
    ensures r.Err? ==> c.s == old(c.s) && c.h == old(c.h)
  {
    r := c.Withdraw(authorized, proof, inputs, recipient);
    if r.Ok? {
      assert c.h.paid[|c.h.paid| - 1].evidence.inputs == inputs;
      AcrossExactly(old(c.s), c.s, c.h, inputs);
    }
  }

  /** Root 10, and one period under it with the commitment 7. */
  ghost predicate AfterFirst(s: Storage) {
    && s.employeeRoot == 10 && s.currentPeriod == 1 && s.withdrawVerifier == Some(3) && s.withdrawn == map[]
    && s.rootToPeriod == map[10 := 1] && s.periodCommitments == map[1 := [7]]
    && s.periods == map[1 := PayrollPeriod(10, 0, 1, true)] && 7 in s.commitmentRecords
  }

  /** Then a second one under root `second` without commitments. */
  ghost predicate AfterSecond(s: Storage, second: nat) {
    && s.withdrawVerifier == Some(3) && s.withdrawn == map[]
    && s.rootToPeriod == map[10 := 1][second := 2] && s.periodCommitments == map[1 := [7], 2 := []]
    && 1 in s.periods && s.periods[1].commitmentRoot == 10 && 7 in s.commitmentRecords
  }

  lemma FirstRun(s: Storage, after: Storage)
    requires s.employeeRoot == 10 && s.currentPeriod == 0 && s.withdrawVerifier == Some(3) && s.withdrawn == map[]
    requires s.rootToPeriod == map[] && s.periodCommitments == map[] && s.periods == map[] && s.commitmentRecords == map[]
    requires after == AfterRun(s, 10, 0, [(7, [])], BalancesOf(after.ledger, after.token))
    ensures AfterFirst(after)
  {
    assert Ids([(7, [])]) == [7];
    RecordAllKeys(map[], [(7, [])]);
  }

  lemma SecondRun(s: Storage, after: Storage, second: nat)
    requires AfterFirst(s.(employeeRoot := 10))
    requires after == AfterRun(s, second, 0, [], BalancesOf(after.ledger, after.token))
    ensures AfterSecond(after, second)
  {
    var none: seq<(nat, seq<nat>)> := [];
    assert Ids(none) == [];
  }

  method OnePeriod() returns (c: PayrollContract)
    ensures fresh(c) && c.Valid() && c.verifies == ACCEPT_ALL && NoTokens(c.s) && AfterFirst(c.s)
  {
    c := new PayrollContract(0, 1, 2, 3, 10, 0, map[], ACCEPT_ALL);
    var _ := c.SetWithdrawVerifier(true, 3);
    ghost var before := c.s;
    var items: seq<(nat, seq<nat>)> := [(7, [])];
    assert AllFresh(c.s.commitmentRecords, items);
    RunNextPeriod(c, items);
    FirstRun(before, c.s);
  }

  /** Two periods, the first under root 10 and the second under `second`, which may be 10 again, and
      a commitment recorded in the first only. */
  method TwoPeriods(second: nat) returns (c: PayrollContract)
    ensures fresh(c) && c.Valid() && c.verifies == ACCEPT_ALL && NoTokens(c.s) && AfterSecond(c.s, second)
  {
    c := OnePeriod();
    if second != 10 {
      var _ := c.SetEmployeeRoot(true, second);
    }
    ghost var before := c.s;
    RunNextPeriod(c, []);
    SecondRun(before, c.s, second);
  }

  /** A withdrawal of nothing, from a contract that accepts every proof. */
  method WithdrawNothing(c: PayrollContract, inputs: seq<nat>, recipient: Address) returns (r: Result<(), Error>)
    requires c.Valid() && c.verifies == ACCEPT_ALL && NoTokens(c.s) && c.s.withdrawVerifier.Some?
    requires WithdrawAdmissible(true, true, true, inputs, c.s.rootToPeriod, c.s.commitmentRecords, c.s.withdrawn)
    requires inputs[3] == 0
    modifies c`s, c`h
    ensures c.Valid() && r.Ok? && |c.h.paid| > 0 && c.h.paid[|c.h.paid| - 1].evidence.inputs == inputs
    ensures c.s.rootToPeriod == old(c.s.rootToPeriod) && c.s.periodCommitments == old(c.s.periodCommitments)
    ensures c.s.periods == old(c.s.periods)
  {
    NothingMoves(c.s, c.self, recipient);
    r := c.Withdraw(true, [], inputs, recipient);
    assert r.Ok?;
  }

  lemma AcrossAdmissible(s: Storage, second: nat, inputs: seq<nat>)
    requires AfterSecond(s, second) && inputs == [second, 7, 5, 0]
    ensures WithdrawAdmissible(true, true, true, inputs, s.rootToPeriod, s.commitmentRecords, s.withdrawn)
  {
  }

  lemma AcrossPaid(before: Storage, s: Storage, h: History, second: nat, inputs: seq<nat>)
    requires AfterSecond(before, second) && inputs == [second, 7, 5, 0]
    requires s.rootToPeriod == before.rootToPeriod && s.periodCommitments == before.periodCommitments && s.periods == before.periods
    requires |h.paid| > 0 && h.paid[|h.paid| - 1].evidence.inputs == inputs
    ensures PaidAcrossPeriods(s, h) && PaidFor(h, second, 7) && (second == 10 ==> RanUnder(s, second, 7))
  {
    assert 7 in s.periodCommitments[1];
  }

  /** The last payment named this root and this commitment. */
  ghost predicate PaidFor(h: History, root: nat, id: nat) {
    && |h.paid| > 0
    && var inputs := h.paid[|h.paid| - 1].evidence.inputs; |inputs| >= 4 && inputs[0] == root && inputs[1] == id
  }

  /** The contract does not tie a commitment to the period of the root it is withdrawn under. For
      another root (`second != 10`) it takes a verifier that accepts the proof. For the same root, a
      commitment is paid under its own root as one of the later period, which does not list it: the
      contract keeps only the latest period of a root, so no proof can rule this out. */
  method CommitmentOfAnotherPeriod(second: nat) returns (c: PayrollContract, r: Result<(), Error>)
    ensures fresh(c) && c.Valid() && r.Ok? && PaidAcrossPeriods(c.s, c.h) && PaidFor(c.h, second, 7)
    ensures second == 10 ==> RanUnder(c.s, second, 7)
  {
    c := TwoPeriods(second);
    ghost var before := c.s;
    var inputs := [second, 7, 5, 0];
    AcrossAdmissible(before, second, inputs);
    r := WithdrawNothing(c, inputs, 4);
    AcrossPaid(before, c.s, c.h, second, inputs);
  }
}
