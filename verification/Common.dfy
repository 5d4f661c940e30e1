/** Shared vocabulary: results, powers of two, and the BN254 scalar field bound. */
module Common {

  datatype Option<+T> = None | Some(value: T)

  datatype Result<+T, +E> = Ok(value: T) | Err(error: E)

  /** The BN254 scalar-field modulus, as the contracts spell it out byte by byte. */
  const MODULUS: nat := 0x30644e72e131a029b85045b68181585d2833e84879b9709143e1f593f0000001

  function Pow2(n: nat): (r: nat)
    ensures r >= 1
  {
    if n == 0 then 1 else 2 * Pow2(n - 1)
  }

  lemma {:induction false} Pow2Monotone(m: nat, n: nat)
    requires m <= n
    ensures Pow2(m) <= Pow2(n)
    decreases n
  {
    if m < n {
      Pow2Monotone(m, n - 1);
    }
  }

  lemma {:induction false} Pow2Sum(m: nat, n: nat, s: nat, a: nat, b: nat)
    requires s == m + n && a == Pow2(m) && b == Pow2(n)
    ensures Pow2(s) == a * b
    decreases m
  {
    if m > 0 {
      Pow2Sum(m - 1, n, s - 1, a / 2, b);
      assert a * b == 2 * (a / 2 * b);
    }
  }

  lemma {:induction false} MulLess(a: nat, b: nat, p: nat)
    ensures a < b ==> a * p + p <= b * p
    decreases b
  {
    if a < b {
      MulLess(a, b - 1, p);
      assert b * p == (b - 1) * p + p;
    }
  }

  lemma QuotientIs(x: nat, p: nat, q: nat, r: nat)
    requires x == q * p + r && r < p
    ensures x / p == q
  {
    var d, m := x / p, x % p;
    assert x == d * p + m;
    MulLess(d, q, p);
    MulLess(q, d, p);
  }

  lemma HalfOf(k: nat, p: nat, q: nat, r: nat)
    requires k == q * (2 * p) + r && r < 2 * p
    ensures k / 2 == q * p + r / 2 && r / 2 < p
  {
    assert q * (2 * p) == 2 * (q * p);
  }

  lemma DivMod(k: nat, d: nat) returns (q: nat, r: nat)
    requires d > 0
    ensures q == k / d && k == q * d + r && r < d
  {
    q, r := k / d, k % d;
  }

  /** Halving and then dividing is dividing by twice as much. */
  lemma HalveThenDivide(k: nat, p: nat)
    requires p > 0
    ensures (k / 2) / p == k / (2 * p)
  {
    var q, r := DivMod(k, 2 * p);
    HalfOf(k, p, q, r);
    QuotientIs(k / 2, p, q, r / 2);
  }

  lemma Pow2AtMost32(n: nat)
    requires n <= 32
    ensures Pow2(n) <= 0x1_0000_0000
  {
    Pow2Sum(8, 8, 16, 0x100, 0x100);
    Pow2Sum(16, 16, 32, 0x1_0000, 0x1_0000);
    Pow2Monotone(n, 32);
  }

  lemma Pow2Is248()
    ensures Pow2(248) == 0x1_00000000000000_0000000000000000_0000000000000000_0000000000000000
  {
    Pow2Sum(8, 8, 16, 0x100, 0x100);
    Pow2Sum(16, 16, 32, 0x1_0000, 0x1_0000);
    Pow2Sum(32, 32, 64, 0x1_0000_0000, 0x1_0000_0000);
    Pow2Sum(64, 64, 128, 0x1_0000000000000000, 0x1_0000000000000000);
    Pow2Sum(64, 32, 96, 0x1_0000000000000000, 0x1_0000_0000);
    Pow2Sum(96, 16, 112, 0x1_0000000000000000_00000000, 0x1_0000);
    Pow2Sum(112, 8, 120, 0x1_0000000000000000_00000000_0000, 0x100);
    Pow2Sum(128, 120, 248, 0x1_0000000000000000_0000000000000000, 0x1_0000000000000000_00000000_0000_00);
  }

  /** A field element fits the 256 bits that `split_bits` extracts, and the largest amount
      the pool accepts, 2^248, fits the field with room for its negation. */
  lemma ModulusBounds()
    ensures 2 * Pow2(248) < MODULUS < Pow2(256)
  {
    Pow2Is248();
    Pow2Sum(8, 248, 256, 0x100, Pow2(248));
  }

  predicate InField(x: int) {
    0 <= x < MODULUS
  }
}
