/** The token contract the two protocols move funds with: explicit balances, and a transfer that
    traps on an insufficient balance or when the recipient's balance would leave 128 bits. */
module Token {
  import opened Common

  type Address = nat
  type Balances = map<Address, nat>

  const I128_MAX: nat := 0x7FFF_FFFF_FFFF_FFFF_FFFF_FFFF_FFFF_FFFF

  function BalanceOf(b: Balances, a: Address): nat {
    if a in b then b[a] else 0
  }

  /** A transfer that the token contract accepts, or nothing where it traps. */
  function Transfer(b: Balances, from: Address, to: Address, amount: nat): Option<Balances> {
    if BalanceOf(b, from) < amount then None
    else
      var debited := b[from := BalanceOf(b, from) - amount];
      if BalanceOf(debited, to) + amount > I128_MAX then None
      else Some(debited[to := BalanceOf(debited, to) + amount])
  }

  /** What a transfer does to every balance; sending to oneself changes nothing. */
  lemma TransferMoves(b: Balances, from: Address, to: Address, amount: nat, a: Address)
    requires Transfer(b, from, to, amount).Some?
    ensures BalanceOf(Transfer(b, from, to, amount).value, a) as int
            == BalanceOf(b, a) + (if a == to then amount else 0) - (if a == from then amount else 0)
  {
  }

  /** The payer has the amount, and the payee's balance stays within 128 bits. */
  predicate CanTransfer(b: Balances, from: Address, to: Address, amount: nat) {
    && amount <= BalanceOf(b, from)
    && (if from == to then BalanceOf(b, to) <= I128_MAX else BalanceOf(b, to) + amount <= I128_MAX)
  }

  lemma TransferAccepted(b: Balances, from: Address, to: Address, amount: nat)
    ensures Transfer(b, from, to, amount).Some? <==> CanTransfer(b, from, to, amount)
  {
  }

  /** Every balance after a transfer, address by address. */
  ghost predicate Moved(was: Balances, now: Balances, from: Address, to: Address, amount: nat) {
    forall a: Address :: BalanceOf(now, a) as int
      == BalanceOf(was, a) - (if a == from then amount else 0) + (if a == to then amount else 0)
  }

  lemma TransferMovesAll(b: Balances, from: Address, to: Address, amount: nat)
    requires Transfer(b, from, to, amount).Some?
    ensures Moved(b, Transfer(b, from, to, amount).value, from, to, amount)
  {
    forall a: Address
      ensures BalanceOf(Transfer(b, from, to, amount).value, a) as int
              == BalanceOf(b, a) - (if a == from then amount else 0) + (if a == to then amount else 0)
    {
      TransferMoves(b, from, to, amount, a);
    }
  }

  // ---------------------------------------------------------------- conservation

  /** Everything held in the token. */
  ghost function Supply(b: Balances): nat
    decreases |b|
  {
    if b == map[] then 0
    else
      var a :| a in b;
      b[a] + Supply(b - {a})
  }

  lemma {:induction false} SupplyWithout(b: Balances, a: Address)
    requires a in b
    ensures Supply(b) == b[a] + Supply(b - {a})
    decreases |b|
  {
    var c :| c in b && Supply(b) == b[c] + Supply(b - {c});
    if c != a {
      SupplyWithout(b - {c}, a);
      SupplyWithout(b - {a}, c);
      assert b - {c} - {a} == b - {a} - {c};
    }
  }

  lemma SupplyUpdated(b: Balances, a: Address, amount: nat)
    ensures Supply(b[a := amount]) + BalanceOf(b, a) == Supply(b) + amount
  {
    SupplyWithout(b[a := amount], a);
    assert b[a := amount] - {a} == b - {a};
    if a in b {
      SupplyWithout(b, a);
    } else {
      assert b - {a} == b;
    }
  }

  /** A transfer neither creates nor destroys anything. */
  lemma TransferConserves(b: Balances, from: Address, to: Address, amount: nat)
    requires Transfer(b, from, to, amount).Some?
    ensures Supply(Transfer(b, from, to, amount).value) == Supply(b)
  {
    var debited := b[from := BalanceOf(b, from) - amount];
    SupplyUpdated(b, from, BalanceOf(b, from) - amount);
    SupplyUpdated(debited, to, BalanceOf(debited, to) + amount);
  }
}
