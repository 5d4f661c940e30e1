/**
Vectors and matrices over an arbitrary field, given as a record of operations. Each field law
is instantiated by asserting `Laws` for the elements at hand.
*/
module LinearAlgebra {

  datatype Field<!F> = Field(zero: F, one: F, add: (F, F) -> F, neg: F -> F, mul: (F, F) -> F, inv: F -> F)

  ghost predicate Laws<F>(K: Field<F>, a: F, b: F, c: F) {
    && K.add(K.add(a, b), c) == K.add(a, K.add(b, c))
    && K.add(a, b) == K.add(b, a)
    && K.add(a, K.zero) == a
    && K.add(a, K.neg(a)) == K.zero
    && K.mul(K.mul(a, b), c) == K.mul(a, K.mul(b, c))
    && K.mul(a, b) == K.mul(b, a)
    && K.mul(a, K.one) == a
    && K.mul(a, K.add(b, c)) == K.add(K.mul(a, b), K.mul(a, c))
    && (a != K.zero ==> K.mul(a, K.inv(a)) == K.one)
  }

  ghost predicate IsField<F(!new)>(K: Field<F>) {
    K.zero != K.one && forall a, b, c :: Laws(K, a, b, c)
  }

  // ---------------------------------------------------------------- scalars

  lemma AddSwap<F(!new)>(K: Field<F>, a: F, b: F, c: F, d: F)
    requires IsField(K)
    ensures K.add(K.add(a, b), K.add(c, d)) == K.add(K.add(a, c), K.add(b, d))
  {
    assert Laws(K, a, b, K.add(c, d)) && Laws(K, b, c, d) && Laws(K, c, b, d) && Laws(K, a, c, K.add(b, d));
  }

  lemma AddExchange<F(!new)>(K: Field<F>, x: F, p: F, q: F)
    requires IsField(K)
    ensures K.add(K.add(x, p), q) == K.add(K.add(x, q), p)
  {
    assert Laws(K, x, p, q) && Laws(K, p, q, q) && Laws(K, x, q, p);
  }

  lemma AddCoefficient<F(!new)>(K: Field<F>, x: F, c: F, s: F, m: F)
    requires IsField(K)
    ensures K.add(x, K.mul(K.add(c, s), m)) == K.add(K.add(x, K.mul(c, m)), K.mul(s, m))
  {
    assert Laws(K, m, c, s) && Laws(K, m, K.add(c, s), m) && Laws(K, m, s, s) && Laws(K, x, K.mul(c, m), K.mul(s, m));
  }

  lemma MulZero<F(!new)>(K: Field<F>, a: F)
    requires IsField(K)
    ensures K.mul(a, K.zero) == K.zero && K.mul(K.zero, a) == K.zero
  {
    var x := K.mul(a, K.zero);
    assert Laws(K, a, K.zero, K.zero) && Laws(K, K.zero, K.zero, K.zero);
    assert x == K.add(x, x);
    assert Laws(K, x, x, K.neg(x)) && Laws(K, x, K.zero, K.zero);
  }

  lemma NegMul<F(!new)>(K: Field<F>, a: F, b: F)
    requires IsField(K)
    ensures K.neg(K.mul(a, b)) == K.mul(K.neg(a), b)
  {
    var x, y := K.mul(a, b), K.mul(K.neg(a), b);
    assert Laws(K, b, a, K.neg(a)) && Laws(K, a, b, b) && Laws(K, K.neg(a), b, b) && Laws(K, a, K.neg(a), b);
    MulZero(K, b);
    assert K.add(x, y) == K.zero;
    assert Laws(K, K.neg(x), x, y) && Laws(K, x, K.neg(x), y) && Laws(K, y, K.zero, y) && Laws(K, K.zero, y, y)
        && Laws(K, K.neg(x), K.zero, K.zero);
  }

  /** `u - s * v`, the update of one cell. */
  function SubMul<F>(K: Field<F>, u: F, s: F, v: F): F {
    K.add(u, K.neg(K.mul(v, s)))
  }

  lemma SubMulIsAddMul<F(!new)>(K: Field<F>, u: F, s: F, v: F)
    requires IsField(K)
    ensures SubMul(K, u, s, v) == K.add(u, K.mul(K.neg(s), v))
  {
    assert Laws(K, v, s, s);
    NegMul(K, s, v);
  }

  /** `(a + t b) + (c + t d) m == (a + c m) + t (b + d m)` */
  lemma Bilinear<F(!new)>(K: Field<F>, a: F, b: F, c: F, d: F, m: F, t: F)
    requires IsField(K)
    ensures K.add(K.add(a, K.mul(t, b)), K.mul(K.add(c, K.mul(t, d)), m))
            == K.add(K.add(a, K.mul(c, m)), K.mul(t, K.add(b, K.mul(d, m))))
  {
    assert Laws(K, m, c, K.mul(t, d)) && Laws(K, m, K.add(c, K.mul(t, d)), m) && Laws(K, m, c, m)
        && Laws(K, m, K.mul(t, d), m) && Laws(K, t, d, m) && Laws(K, t, b, K.mul(d, m));
    AddSwap(K, a, K.mul(t, b), K.mul(c, m), K.mul(t, K.mul(d, m)));
  }

  // ---------------------------------------------------------------- vectors

  type Vec<F> = seq<F>
  type Mat<F> = seq<seq<F>>

  function Zeros<F>(K: Field<F>, n: nat): (v: Vec<F>)
    ensures |v| == n && forall i | 0 <= i < n :: v[i] == K.zero
  {
    seq(n, _ => K.zero)
  }

  /** `u + t * v` */
  function AddScaled<F>(K: Field<F>, u: Vec<F>, t: F, v: Vec<F>): (w: Vec<F>)
    requires |u| == |v|
    ensures |w| == |u| && forall i | 0 <= i < |u| :: w[i] == K.add(u[i], K.mul(t, v[i]))
  {
    seq(|u|, i requires 0 <= i < |u| => K.add(u[i], K.mul(t, v[i])))
  }

  function Scaled<F>(K: Field<F>, t: F, v: Vec<F>): (w: Vec<F>)
    ensures |w| == |v| && forall i | 0 <= i < |v| :: w[i] == K.mul(t, v[i])
  {
    seq(|v|, i requires 0 <= i < |v| => K.mul(t, v[i]))
  }

  /** The `i`-th row of the identity. */
  function Unit<F>(K: Field<F>, n: nat, i: nat): (v: Vec<F>)
    ensures |v| == n && forall j | 0 <= j < n :: v[j] == if j == i then K.one else K.zero
  {
    seq(n, j => if j == i then K.one else K.zero)
  }

  ghost predicate IsMat<F>(M: Mat<F>, rows: nat, cols: nat) {
    |M| == rows && forall i | 0 <= i < rows :: |M[i]| == cols
  }

  /** The row vector `c` times the matrix `M`: a combination of the rows of `M`. */
  function VecMat<F>(K: Field<F>, c: Vec<F>, M: Mat<F>, n: nat): (w: Vec<F>)
    requires |c| == |M| && IsMat(M, |M|, n)
    ensures |w| == n
    decreases |c|
  {
    if |c| == 0 then Zeros(K, n)
    else
      var k := |c| - 1;
      AddScaled(K, VecMat(K, c[..k], M[..k], n), c[k], M[k])
  }

  lemma {:induction false} VecMatZeros<F(!new)>(K: Field<F>, M: Mat<F>, n: nat)
    requires IsField(K) && IsMat(M, |M|, n)
    ensures VecMat(K, Zeros(K, |M|), M, n) == Zeros(K, n)
    decreases |M|
  {
    if |M| > 0 {
      var k := |M| - 1;
      assert Zeros(K, |M|)[..k] == Zeros(K, k);
      VecMatZeros(K, M[..k], n);
      forall i | 0 <= i < n ensures K.add(K.zero, K.mul(K.zero, M[k][i])) == K.zero {
        MulZero(K, M[k][i]);
        assert Laws(K, K.zero, K.zero, K.zero);
      }
    }
  }

  /** Linearity in the coefficients. */
  lemma {:induction false} VecMatLinear<F(!new)>(K: Field<F>, c: Vec<F>, t: F, d: Vec<F>, M: Mat<F>, n: nat)
    requires IsField(K) && |c| == |d| == |M| && IsMat(M, |M|, n)
    ensures VecMat(K, AddScaled(K, c, t, d), M, n) == AddScaled(K, VecMat(K, c, M, n), t, VecMat(K, d, M, n))
    decreases |M|
  {
    if |M| > 0 {
      var k := |M| - 1;
      assert AddScaled(K, c, t, d)[..k] == AddScaled(K, c[..k], t, d[..k]);
      VecMatLinear(K, c[..k], t, d[..k], M[..k], n);
      var x, y := VecMat(K, c[..k], M[..k], n), VecMat(K, d[..k], M[..k], n);
      forall i | 0 <= i < n
        ensures VecMat(K, AddScaled(K, c, t, d), M, n)[i]
                == AddScaled(K, VecMat(K, c, M, n), t, VecMat(K, d, M, n))[i]
      {
        Bilinear(K, x[i], y[i], c[k], d[k], M[k][i], t);
      }
    } else {
      MulZero(K, t);
      assert Laws(K, K.zero, K.zero, K.zero);
      assert AddScaled(K, Zeros(K, n), t, Zeros(K, n)) == Zeros(K, n);
    }
  }

  /** Two products agree when each coefficient contributes the same multiple of its row. */
  lemma {:induction false} VecMatTermwise<F>(K: Field<F>, c: Vec<F>, M: Mat<F>, d: Vec<F>, N: Mat<F>, n: nat)
    requires |c| == |M| == |d| == |N| && IsMat(M, |M|, n) && IsMat(N, |N|, n)
    requires forall k | 0 <= k < |c| :: Scaled(K, c[k], M[k]) == Scaled(K, d[k], N[k])
    ensures VecMat(K, c, M, n) == VecMat(K, d, N, n)
    decreases |c|
  {
    if |c| > 0 {
      var k := |c| - 1;
      VecMatTermwise(K, c[..k], M[..k], d[..k], N[..k], n);
      forall i | 0 <= i < n ensures K.mul(c[k], M[k][i]) == K.mul(d[k], N[k][i]) {
        assert Scaled(K, c[k], M[k])[i] == Scaled(K, d[k], N[k])[i];
      }
    }
  }

  /** Adding a multiple of row `j` to row `r`, undone in the coefficients. */
  lemma {:induction false} VecMatRowAdd<F(!new)>(K: Field<F>, c: Vec<F>, M: Mat<F>, r: nat, t: F, w: Vec<F>, n: nat)
    requires IsField(K) && |c| == |M| && IsMat(M, |M|, n) && r < |M| && |w| == n
    ensures VecMat(K, c, M[r := AddScaled(K, M[r], t, w)], n) == AddScaled(K, VecMat(K, c, M, n), K.mul(c[r], t), w)
    decreases |M|
  {
    var k := |M| - 1;
    var M' := M[r := AddScaled(K, M[r], t, w)];
    var x := VecMat(K, c[..k], M[..k], n);
    if r == k {
      assert M'[..k] == M[..k];
      forall i | 0 <= i < n
        ensures K.add(x[i], K.mul(c[k], K.add(M[k][i], K.mul(t, w[i]))))
                == K.add(K.add(x[i], K.mul(c[k], M[k][i])), K.mul(K.mul(c[k], t), w[i]))
      {
        assert Laws(K, c[k], M[k][i], K.mul(t, w[i])) && Laws(K, c[k], t, w[i])
            && Laws(K, x[i], K.mul(c[k], M[k][i]), K.mul(c[k], K.mul(t, w[i])));
      }
    } else {
      assert M'[..k] == M[..k][r := AddScaled(K, M[r], t, w)];
      VecMatRowAdd(K, c[..k], M[..k], r, t, w, n);
      forall i | 0 <= i < n
        ensures VecMat(K, c, M', n)[i] == AddScaled(K, VecMat(K, c, M, n), K.mul(c[r], t), w)[i]
      {
        AddExchange(K, x[i], K.mul(K.mul(c[r], t), w[i]), K.mul(c[k], M[k][i]));
      }
    }
  }

  lemma {:induction false} VecMatCoeffAdd<F(!new)>(K: Field<F>, c: Vec<F>, j: nat, s: F, M: Mat<F>, n: nat)
    requires IsField(K) && |c| == |M| && IsMat(M, |M|, n) && j < |M|
    ensures VecMat(K, c[j := K.add(c[j], s)], M, n) == AddScaled(K, VecMat(K, c, M, n), s, M[j])
    decreases |M|
  {
    var k := |M| - 1;
    var c' := c[j := K.add(c[j], s)];
    var x := VecMat(K, c[..k], M[..k], n);
    if j == k {
      assert c'[..k] == c[..k];
      forall i | 0 <= i < n
        ensures K.add(x[i], K.mul(K.add(c[k], s), M[k][i])) == K.add(K.add(x[i], K.mul(c[k], M[k][i])), K.mul(s, M[k][i]))
      {
        AddCoefficient(K, x[i], c[k], s, M[k][i]);
      }
    } else {
      assert c'[..k] == c[..k][j := K.add(c[j], s)];
      VecMatCoeffAdd(K, c[..k], j, s, M[..k], n);
      forall i | 0 <= i < n ensures VecMat(K, c', M, n)[i] == AddScaled(K, VecMat(K, c, M, n), s, M[j])[i] {
        AddExchange(K, x[i], K.mul(s, M[j][i]), K.mul(c[k], M[k][i]));
      }
    }
  }

  // ---------------------------------------------------------------- matrices

  function Identity<F>(K: Field<F>, n: nat): (I: Mat<F>)
    ensures IsMat(I, n, n) && forall i | 0 <= i < n :: I[i] == Unit(K, n, i)
  {
    seq(n, i requires 0 <= i < n => Unit(K, n, i))
  }

  function MatMul<F>(K: Field<F>, A: Mat<F>, B: Mat<F>, n: nat): (C: Mat<F>)
    requires IsMat(A, |A|, |B|) && IsMat(B, |B|, n)
    ensures IsMat(C, |A|, n) && forall i | 0 <= i < |A| :: C[i] == VecMat(K, A[i], B, n)
  {
    seq(|A|, i requires 0 <= i < |A| => VecMat(K, A[i], B, n))
  }

  /** `(c B) C == c (B C)` */
  lemma {:induction false} VecMatAssoc<F(!new)>(K: Field<F>, c: Vec<F>, B: Mat<F>, C: Mat<F>, n: nat)
    requires IsField(K) && |c| == |B| && IsMat(B, |B|, |C|) && IsMat(C, |C|, n)
    ensures VecMat(K, VecMat(K, c, B, |C|), C, n) == VecMat(K, c, MatMul(K, B, C, n), n)
    decreases |B|
  {
    if |B| == 0 {
      VecMatZeros(K, C, n);
    } else {
      var k := |B| - 1;
      assert MatMul(K, B, C, n)[..k] == MatMul(K, B[..k], C, n);
      VecMatAssoc(K, c[..k], B[..k], C, n);
      VecMatLinear(K, VecMat(K, c[..k], B[..k], |C|), c[k], B[k], C, n);
    }
  }

  /** `(A B) C == A (B C)` */
  lemma MatMulAssoc<F(!new)>(K: Field<F>, A: Mat<F>, B: Mat<F>, C: Mat<F>, n: nat)
    requires IsField(K) && IsMat(A, |A|, |B|) && IsMat(B, |B|, |C|) && IsMat(C, |C|, n)
    ensures MatMul(K, MatMul(K, A, B, |C|), C, n) == MatMul(K, A, MatMul(K, B, C, n), n)
  {
    forall i | 0 <= i < |A|
      ensures MatMul(K, MatMul(K, A, B, |C|), C, n)[i] == MatMul(K, A, MatMul(K, B, C, n), n)[i]
    {
      VecMatAssoc(K, A[i], B, C, n);
    }
  }

  lemma {:induction false} UnitTimes<F(!new)>(K: Field<F>, M: Mat<F>, n: nat, r: nat)
    requires IsField(K) && IsMat(M, |M|, n)
    ensures VecMat(K, Unit(K, |M|, r), M, n) == if r < |M| then M[r] else Zeros(K, n)
    decreases |M|
  {
    if |M| > 0 {
      var k := |M| - 1;
      assert Unit(K, |M|, r)[..k] == Unit(K, k, r);
      UnitTimes(K, M[..k], n, r);
      forall i | 0 <= i < n
        ensures VecMat(K, Unit(K, |M|, r), M, n)[i] == if r < |M| then M[r][i] else K.zero
      {
        var m := M[k][i];
        MulZero(K, m);
        assert Laws(K, K.zero, K.one, m) && Laws(K, m, K.one, m) && Laws(K, m, K.zero, m) && Laws(K, K.one, m, m);
        assert r < k ==> Laws(K, M[r][i], K.zero, m);
        assert Laws(K, K.zero, m, m) && Laws(K, K.zero, K.zero, m);
      }
    }
  }

  /** `I M == M` */
  lemma IdentityTimes<F(!new)>(K: Field<F>, M: Mat<F>, n: nat)
    requires IsField(K) && IsMat(M, |M|, n)
    ensures MatMul(K, Identity(K, |M|), M, n) == M
  {
    forall i | 0 <= i < |M| ensures MatMul(K, Identity(K, |M|), M, n)[i] == M[i] {
      UnitTimes(K, M, n, i);
    }
  }

  /** A product read through the first `k` rows of the identity keeps the first `k` entries. */
  lemma {:induction false} TimesIdentityPrefix<F(!new)>(K: Field<F>, c: Vec<F>, k: nat, n: nat)
    requires IsField(K) && |c| == n && k <= n
    ensures forall i | 0 <= i < n ::
              VecMat(K, c[..k], Identity(K, n)[..k], n)[i] == if i < k then c[i] else K.zero
    decreases k
  {
    if k > 0 {
      var j := k - 1;
      TimesIdentityPrefix(K, c, j, n);
      assert c[..k][..j] == c[..j] && Identity(K, n)[..k][..j] == Identity(K, n)[..j];
      forall i | 0 <= i < n
        ensures VecMat(K, c[..k], Identity(K, n)[..k], n)[i] == if i < k then c[i] else K.zero
      {
        var x := VecMat(K, c[..j], Identity(K, n)[..j], n)[i];
        MulZero(K, c[j]);
        assert Laws(K, c[j], K.one, K.zero) && Laws(K, x, K.zero, K.zero) && Laws(K, K.zero, c[j], c[j])
            && Laws(K, c[j], K.zero, K.zero);
      }
    }
  }

  /** `c I == c` */
  lemma TimesIdentity<F(!new)>(K: Field<F>, c: Vec<F>, n: nat)
    requires IsField(K) && |c| == n
    ensures VecMat(K, c, Identity(K, n), n) == c
  {
    TimesIdentityPrefix(K, c, n, n);
    assert c[..n] == c && Identity(K, n)[..n] == Identity(K, n);
  }

  // ---------------------------------------------------------------- inverses

  ghost predicate IsInverse<F>(K: Field<F>, A: Mat<F>, B: Mat<F>, n: nat) {
    && IsMat(A, n, n) && IsMat(B, n, n)
    && MatMul(K, B, A, n) == Identity(K, n)
    && MatMul(K, A, B, n) == Identity(K, n)
  }

  ghost predicate Combines<F>(K: Field<F>, g: Vec<F>, M: Mat<F>, v: Vec<F>, n: nat)
    requires IsMat(M, |M|, n)
  {
    |g| == |M| && VecMat(K, g, M, n) == v
  }

  /** Row `i` of the identity is a combination of the rows of `M`. */
  ghost predicate Reaches<F(!new)>(K: Field<F>, M: Mat<F>, i: nat, n: nat)
    requires IsMat(M, |M|, n)
  {
    exists g: Vec<F> :: Combines(K, g, M, Unit(K, n, i), n)
  }

  ghost predicate Spans<F(!new)>(K: Field<F>, M: Mat<F>, n: nat)
    requires IsMat(M, |M|, n)
  {
    forall i: nat | i < n :: Reaches(K, M, i, n)
  }

  lemma IdentitySpans<F(!new)>(K: Field<F>, n: nat)
    requires IsField(K)
    ensures Spans(K, Identity(K, n), n)
  {
    forall i: nat | i < n ensures Reaches(K, Identity(K, n), i, n) {
      TimesIdentity(K, Unit(K, n, i), n);
      assert Combines(K, Unit(K, n, i), Identity(K, n), Unit(K, n, i), n);
    }
  }

  lemma AddThenSubtract<F(!new)>(K: Field<F>, x: F, u: F, b: F)
    requires IsField(K)
    ensures K.add(K.add(x, K.mul(K.neg(u), b)), K.mul(u, b)) == x
  {
    var p := K.mul(u, b);
    NegMul(K, u, b);
    assert Laws(K, x, K.neg(p), p) && Laws(K, p, K.neg(p), p) && Laws(K, K.neg(p), p, p) && Laws(K, x, K.zero, x);
  }

  /** A combination of the old rows is one of the rows after a row addition. */
  lemma RowAddCombination<F(!new)>(K: Field<F>, M: Mat<F>, r: nat, j: nat, t: F, g: Vec<F>, n: nat) returns (g': Vec<F>)
    requires IsField(K) && IsMat(M, n, n) && r < n && j < n && r != j && |g| == n
    ensures Combines(K, g', M[r := AddScaled(K, M[r], t, M[j])], VecMat(K, g, M, n), n)
  {
    var u := K.mul(g[r], t);
    g' := g[j := K.add(g[j], K.neg(u))];
    VecMatRowAdd(K, g', M, r, t, M[j], n);
    VecMatCoeffAdd(K, g, j, K.neg(u), M, n);
    var w := VecMat(K, g', M[r := AddScaled(K, M[r], t, M[j])], n);
    forall c | 0 <= c < n ensures w[c] == VecMat(K, g, M, n)[c] {
      AddThenSubtract(K, VecMat(K, g, M, n)[c], u, M[j][c]);
    }
  }

  lemma RowAddSpans<F(!new)>(K: Field<F>, M: Mat<F>, r: nat, j: nat, t: F, n: nat)
    requires IsField(K) && IsMat(M, n, n) && r < n && j < n && r != j && Spans(K, M, n)
    ensures Spans(K, M[r := AddScaled(K, M[r], t, M[j])], n)
  {
    var M' := M[r := AddScaled(K, M[r], t, M[j])];
    forall i: nat | i < n ensures Reaches(K, M', i, n) {
      assert Reaches(K, M, i, n);
      var g :| Combines(K, g, M, Unit(K, n, i), n);
      var g' := RowAddCombination(K, M, r, j, t, g, n);
    }
  }

  lemma ScaleThenUnscale<F(!new)>(K: Field<F>, g: F, t: F, m: F)
    requires IsField(K) && t != K.zero
    ensures K.mul(K.mul(g, K.inv(t)), K.mul(t, m)) == K.mul(g, m)
  {
    assert Laws(K, g, K.inv(t), K.mul(t, m)) && Laws(K, K.inv(t), t, m) && Laws(K, t, K.inv(t), m);
    assert Laws(K, K.one, m, m) && Laws(K, m, K.one, m);
  }

  lemma RowScaleCombination<F(!new)>(K: Field<F>, M: Mat<F>, r: nat, t: F, g: Vec<F>, n: nat) returns (g': Vec<F>)
    requires IsField(K) && IsMat(M, n, n) && r < n && t != K.zero && |g| == n
    ensures Combines(K, g', M[r := Scaled(K, t, M[r])], VecMat(K, g, M, n), n)
  {
    var M' := M[r := Scaled(K, t, M[r])];
    g' := g[r := K.mul(g[r], K.inv(t))];
    forall c | 0 <= c < n ensures Scaled(K, g'[r], M'[r])[c] == Scaled(K, g[r], M[r])[c] {
      ScaleThenUnscale(K, g[r], t, M[r][c]);
    }
    assert Scaled(K, g'[r], M'[r]) == Scaled(K, g[r], M[r]);
    VecMatTermwise(K, g', M', g, M, n);
  }

  lemma RowScaleSpans<F(!new)>(K: Field<F>, M: Mat<F>, r: nat, t: F, n: nat)
    requires IsField(K) && IsMat(M, n, n) && r < n && t != K.zero && Spans(K, M, n)
    ensures Spans(K, M[r := Scaled(K, t, M[r])], n)
  {
    var M' := M[r := Scaled(K, t, M[r])];
    forall i: nat | i < n ensures Reaches(K, M', i, n) {
      assert Reaches(K, M, i, n);
      var g :| Combines(K, g, M, Unit(K, n, i), n);
      var g' := RowScaleCombination(K, M, r, t, g, n);
    }
  }

  /** The combination that gives row `i` of the identity is row `i` of the inverted matrix. */
  lemma RowOfInverse<F(!new)>(K: Field<F>, A: Mat<F>, B: Mat<F>, g: Vec<F>, i: nat, n: nat)
    requires IsField(K) && IsMat(A, n, n) && IsMat(B, n, n) && i < n
    requires MatMul(K, B, A, n) == Identity(K, n) && Combines(K, g, B, Unit(K, n, i), n)
    ensures g == A[i]
  {
    VecMatAssoc(K, g, B, A, n);
    TimesIdentity(K, g, n);
    UnitTimes(K, A, n, i);
  }

  /** A left inverse whose rows span everything is a two-sided inverse. */
  lemma LeftInverseIsInverse<F(!new)>(K: Field<F>, A: Mat<F>, B: Mat<F>, n: nat)
    requires IsField(K) && IsMat(A, n, n) && IsMat(B, n, n) && Spans(K, B, n)
    requires MatMul(K, B, A, n) == Identity(K, n)
    ensures IsInverse(K, A, B, n)
  {
    forall i | 0 <= i < n ensures MatMul(K, A, B, n)[i] == Unit(K, n, i) {
      assert Reaches(K, B, i, n);
      var g :| Combines(K, g, B, Unit(K, n, i), n);
      RowOfInverse(K, A, B, g, i, n);
    }
  }

  /** A matrix has at most one inverse. */
  lemma InverseUnique<F(!new)>(K: Field<F>, A: Mat<F>, B: Mat<F>, C: Mat<F>, n: nat)
    requires IsField(K) && IsInverse(K, A, B, n) && IsInverse(K, A, C, n)
    ensures B == C
  {
    MatMulAssoc(K, B, A, C, n);
    IdentityTimes(K, C, n);
    forall i | 0 <= i < n ensures B[i] == C[i] {
      TimesIdentity(K, B[i], n);
    }
  }
}
