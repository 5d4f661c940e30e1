/**
The public side of a shielded transaction: signed amounts in the field, and the vector of
public inputs a proof is checked against.
*/
module PoolStatement {
  import opened Common

  datatype Error =
    | MerkleTreeFull
    | WrongLevels
    | NextIndexNotEven
    | WrongExtAmount
    | InvalidProof
    | UnknownRoot
    | AlreadySpentNullifier
    | WrongExtHash
    | NotInitialized
    | AlreadyInitialized
    | NonCanonicalPublicInput
    | HostTrap // a failed authorization, token transfer or checked host operation

  // ---------------------------------------------------------------- signed amounts

  predicate IsI256(x: int) {
    0 - Pow2(255) <= x < Pow2(255)
  }

  function MaxExtAmount(): nat {
    Pow2(248)
  }

  /** The absolute value; the most negative 256-bit number has none and traps. */
  function AbsToU256(x: int): Result<nat, Error>
    requires IsI256(x)
  {
    if x >= 0 then Ok(x) else if x == 0 - Pow2(255) then Err(HostTrap) else Ok(-x)
  }

  function CalculatePublicAmount(ext: int): Result<nat, Error>
    requires IsI256(ext)
  {
    ModulusBounds();
    match AbsToU256(ext)
    case Err(e) => Err(e)
    case Ok(abs) =>
      if abs >= MaxExtAmount() then Err(WrongExtAmount)
      else if ext >= 0 then Ok(ext)
      else Ok(MODULUS - abs)
  }

  /** The amount a canonical public input stands for. */
  function DecodeAmount(r: nat): int {
    if r < MaxExtAmount() then r else r - MODULUS
  }

  /** The encoding is the canonical residue, it is decoded exactly, and it is refused exactly
      outside the allowed range. */
  lemma AmountEncoded(x: int)
    requires IsI256(x)
    ensures var r := CalculatePublicAmount(x);
            && (r.Ok? <==> 0 - Pow2(248) < x < Pow2(248))
            && (r.Ok? ==> r.value == x % MODULUS && DecodeAmount(r.value) == x)
  {
    ModulusBounds();
    Pow2Monotone(248, 255);
    if 0 - Pow2(248) < x < 0 {
      assert x == -1 * MODULUS + (MODULUS + x);
      ResidueOf(x, MODULUS + x);
    }
  }

  lemma ResidueOf(x: int, r: int)
    requires r == x + MODULUS && 0 <= r < MODULUS
    ensures x % MODULUS == r
  {
  }

  lemma AmountInjective(x: int, y: int)
    requires IsI256(x) && IsI256(y)
    requires CalculatePublicAmount(x).Ok? && CalculatePublicAmount(x) == CalculatePublicAmount(y)
    ensures x == y
  {
    AmountEncoded(x);
    AmountEncoded(y);
  }

  /** A residue near either end of the field encodes what it decodes to. */
  lemma AmountDecoded(r: nat)
    requires r < Pow2(248) || MODULUS - Pow2(248) < r < MODULUS
    ensures IsI256(DecodeAmount(r)) && CalculatePublicAmount(DecodeAmount(r)) == Ok(r)
  {
    ModulusBounds();
    var x := DecodeAmount(r);
    assert 0 - Pow2(248) < x < Pow2(248);
    Pow2Monotone(248, 255);
    AmountEncoded(x);
    if r >= Pow2(248) {
      ResidueOf(x, r);
    }
  }

  /** Which field elements are public amounts at all. */
  lemma AmountImage(r: nat)
    requires r < MODULUS
    ensures (r < Pow2(248) || MODULUS - Pow2(248) < r)
            <==> exists x :: IsI256(x) && CalculatePublicAmount(x) == Ok(r)
  {
    forall x | IsI256(x) && CalculatePublicAmount(x) == Ok(r) ensures r < Pow2(248) || MODULUS - Pow2(248) < r {
      AmountEncoded(x);
    }
    if r < Pow2(248) || MODULUS - Pow2(248) < r {
      AmountDecoded(r);
    }
  }

  // ---------------------------------------------------------------- the public inputs

  datatype Proof = Proof(
    points: seq<nat>, // the Groth16 points; none of them for an empty proof
    root: nat,
    inputNullifiers: seq<nat>,
    outputCommitment0: nat,
    outputCommitment1: nat,
    publicAmount: nat,
    extDataHash: nat,
    aspMembershipRoot: nat,
    aspNonMembershipRoot: nat)

  predicate AllCanonical(values: seq<nat>) {
    forall i | 0 <= i < |values| :: values[i] < MODULUS
  }

  /** What `validate_bn256_public_inputs` accepts. */
  predicate Canonical(p: Proof) {
    && p.root < MODULUS && p.publicAmount < MODULUS && AllCanonical(p.inputNullifiers)
    && p.outputCommitment0 < MODULUS && p.outputCommitment1 < MODULUS
    && p.aspMembershipRoot < MODULUS && p.aspNonMembershipRoot < MODULUS
  }

  method ValidatePublicInputs(p: Proof) returns (r: Result<(), Error>)
    ensures r == if Canonical(p) then Ok(()) else Err(NonCanonicalPublicInput)
  {
    if p.root >= MODULUS || p.publicAmount >= MODULUS {
      return Err(NonCanonicalPublicInput);
    }
    for i := 0 to |p.inputNullifiers|
      invariant AllCanonical(p.inputNullifiers[..i])
    {
      if p.inputNullifiers[i] >= MODULUS {
        return Err(NonCanonicalPublicInput);
      }
    }
    assert p.inputNullifiers[..|p.inputNullifiers|] == p.inputNullifiers;
    if p.outputCommitment0 >= MODULUS || p.outputCommitment1 >= MODULUS
       || p.aspMembershipRoot >= MODULUS || p.aspNonMembershipRoot >= MODULUS {
      return Err(NonCanonicalPublicInput);
    }
    return Ok(());
  }

  function Copies(v: nat, n: nat): (s: seq<nat>)
    ensures |s| == n && forall i | 0 <= i < n :: s[i] == v
  {
    seq(n, _ => v)
  }

  /** The vector in the order the policy circuit declares it. */
  function PublicInputs(p: Proof): seq<nat> {
    var n := |p.inputNullifiers|;
    [p.root, p.publicAmount, p.extDataHash] + p.inputNullifiers + [p.outputCommitment0, p.outputCommitment1]
    + Copies(p.aspMembershipRoot, n) + Copies(p.aspNonMembershipRoot, n)
  }

  method BuildPublicInputs(p: Proof) returns (inputs: seq<nat>)
    requires Canonical(p) && p.extDataHash < MODULUS
    ensures inputs == PublicInputs(p) && AllCanonical(inputs)
    ensures |inputs| == 5 + 3 * |p.inputNullifiers|
    ensures inputs[0] == p.root && inputs[1] == p.publicAmount && inputs[2] == p.extDataHash
    ensures inputs[3..3 + |p.inputNullifiers|] == p.inputNullifiers
    ensures inputs[3 + |p.inputNullifiers|] == p.outputCommitment0 && inputs[4 + |p.inputNullifiers|] == p.outputCommitment1
    ensures forall j | 5 + |p.inputNullifiers| <= j < 5 + 2 * |p.inputNullifiers| :: inputs[j] == p.aspMembershipRoot
    ensures forall j | 5 + 2 * |p.inputNullifiers| <= j < |inputs| :: inputs[j] == p.aspNonMembershipRoot
  {
    InputAt(p);
    var n := |p.inputNullifiers|;
    inputs := [p.root, p.publicAmount, p.extDataHash];
    for i := 0 to n
      invariant inputs == [p.root, p.publicAmount, p.extDataHash] + p.inputNullifiers[..i]
    {
      inputs := inputs + [p.inputNullifiers[i]];
    }
    assert p.inputNullifiers[..n] == p.inputNullifiers;
    inputs := inputs + [p.outputCommitment0] + [p.outputCommitment1];
    ghost var front := inputs;
    for i := 0 to n
      invariant inputs == front + Copies(p.aspMembershipRoot, i)
    {
      inputs := inputs + [p.aspMembershipRoot];
    }
    ghost var middle := inputs;
    for i := 0 to n
      invariant inputs == middle + Copies(p.aspNonMembershipRoot, i)
    {
      inputs := inputs + [p.aspNonMembershipRoot];
    }
    assert AllCanonical(inputs);
  }

  /** The statements two proofs make are the same, field by field. */
  predicate SameStatement(p: Proof, q: Proof) {
    && p.root == q.root && p.publicAmount == q.publicAmount && p.extDataHash == q.extDataHash
    && p.inputNullifiers == q.inputNullifiers
    && p.outputCommitment0 == q.outputCommitment0 && p.outputCommitment1 == q.outputCommitment1
    && (p.inputNullifiers != [] ==> p.aspMembershipRoot == q.aspMembershipRoot
                                    && p.aspNonMembershipRoot == q.aspNonMembershipRoot)
  }

  lemma InputAt(p: Proof)
    ensures var v, n := PublicInputs(p), |p.inputNullifiers|;
            && |v| == 5 + 3 * n && v[0] == p.root && v[1] == p.publicAmount && v[2] == p.extDataHash
            && v[3..3 + n] == p.inputNullifiers && v[3 + n] == p.outputCommitment0 && v[4 + n] == p.outputCommitment1
            && (forall j | 5 + n <= j < 5 + 2 * n :: v[j] == p.aspMembershipRoot)
            && (forall j | 5 + 2 * n <= j < 5 + 3 * n :: v[j] == p.aspNonMembershipRoot)
  {
  }

  /** The vector determines the statement, for any number of nullifiers, and nothing else: the
      two policy roots enter it once per nullifier, so with no nullifier they do not enter. */
  lemma VectorDeterminesStatement(p: Proof, q: Proof)
    ensures PublicInputs(p) == PublicInputs(q) <==> SameStatement(p, q)
  {
    InputAt(p);
    InputAt(q);
    if PublicInputs(p) == PublicInputs(q) && p.inputNullifiers != [] {
      var v, n := PublicInputs(p), |p.inputNullifiers|;
      assert |q.inputNullifiers| == n;
      assert v[5 + n] == p.aspMembershipRoot == q.aspMembershipRoot;
      assert v[5 + 2 * n] == p.aspNonMembershipRoot == q.aspNonMembershipRoot;
    }
  }

  /** With no nullifiers the policy roots are not bound by the vector. */
  lemma NoNullifierLeavesRootsFree()
    ensures var p := Proof([1], 7, [], 8, 9, 0, 5, 1, 2);
            PublicInputs(p) == PublicInputs(p.(aspMembershipRoot := 3, aspNonMembershipRoot := 4))
  {
    var p := Proof([1], 7, [], 8, 9, 0, 5, 1, 2);
    VectorDeterminesStatement(p, p.(aspMembershipRoot := 3, aspNonMembershipRoot := 4));
  }
}
