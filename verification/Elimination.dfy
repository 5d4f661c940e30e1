/**
Why Gaussian elimination without pivoting works, stated on the rows of the two matrices it
rewrites: `inv * A == m` is kept by every row operation, and the pivots are nonzero exactly
when every leading block of `A` is regular.
*/
module Elimination {
  import opened LinearAlgebra

  /** `c` combines the first `k` rows of `A` to something that vanishes in the first `k` columns. */
  ghost predicate Kernel<F(!new)>(K: Field<F>, c: Vec<F>, A: Mat<F>, k: nat, n: nat)
    requires IsMat(A, n, n) && k <= n
  {
    && |c| == n
    && (forall i | k <= i < n :: c[i] == K.zero)
    && (forall i | 0 <= i < k :: VecMat(K, c, A, n)[i] == K.zero)
  }

  /** The leading `k` by `k` block is regular: its rows are linearly independent. */
  ghost predicate LeadingRegular<F(!new)>(K: Field<F>, A: Mat<F>, k: nat, n: nat)
    requires IsMat(A, n, n) && k <= n
  {
    forall c: Vec<F> | Kernel(K, c, A, k, n) :: c == Zeros(K, n)
  }

  /** `inv` is lower triangular. */
  ghost predicate Lower<F>(K: Field<F>, P: Mat<F>, n: nat)
    requires IsMat(P, n, n)
  {
    forall r, c | 0 <= r < c < n :: P[r][c] == K.zero
  }

  ghost predicate ZeroBefore<F>(K: Field<F>, u: Vec<F>, k: nat)
    requires k <= |u|
  {
    forall c | 0 <= c < k :: u[c] == K.zero
  }

  /** Row `r` of `m` is zero left of a one on the diagonal. */
  ghost predicate UnitUpperRow<F>(K: Field<F>, u: Vec<F>, r: nat)
    requires r < |u|
  {
    ZeroBefore(K, u, r) && u[r] == K.one
  }

  /** The first phase, about to treat column `j` of row `row`. */
  ghost predicate Forward<F(!new)>(K: Field<F>, A: Mat<F>, U: Mat<F>, P: Mat<F>, row: nat, j: nat, n: nat)
    requires j <= row < n
  {
    && IsMat(A, n, n) && IsMat(P, n, n) && U == MatMul(K, P, A, n)
    && Lower(K, P, n) && Spans(K, P, n)
    && (forall r | 0 <= r < row :: UnitUpperRow(K, U[r], r))
    && (forall r | row < r < n :: P[r] == Unit(K, n, r))
    && P[row][row] == K.one && ZeroBefore(K, U[row], j)
    && (forall k | 0 <= k <= row :: LeadingRegular(K, A, k, n))
  }

  /** The first phase with `row` rows done. */
  ghost predicate ForwardDone<F(!new)>(K: Field<F>, A: Mat<F>, U: Mat<F>, P: Mat<F>, row: nat, n: nat)
    requires row <= n
  {
    && IsMat(A, n, n) && IsMat(P, n, n) && U == MatMul(K, P, A, n)
    && Lower(K, P, n) && Spans(K, P, n)
    && (forall r | 0 <= r < row :: UnitUpperRow(K, U[r], r))
    && (forall r | row <= r < n :: P[r] == Unit(K, n, r))
    && (forall k | 0 <= k <= row :: LeadingRegular(K, A, k, n))
  }

  lemma ForwardStart<F(!new)>(K: Field<F>, A: Mat<F>, n: nat)
    requires IsField(K) && IsMat(A, n, n)
    ensures ForwardDone(K, A, A, Identity(K, n), 0, n)
  {
    IdentityTimes(K, A, n);
    IdentitySpans(K, n);
    forall c: Vec<F> | Kernel(K, c, A, 0, n) ensures c == Zeros(K, n) {}
  }

  // ---------------------------------------------------------------- the first phase

  /** A row addition on `inv` is the same row addition on `inv * A`. */
  lemma RowAddProduct<F(!new)>(K: Field<F>, A: Mat<F>, P: Mat<F>, r: nat, t: F, j: nat, n: nat)
    requires IsField(K) && IsMat(A, n, n) && IsMat(P, n, n) && r < n && j < n
    ensures MatMul(K, P[r := AddScaled(K, P[r], t, P[j])], A, n)
            == (var U := MatMul(K, P, A, n); U[r := AddScaled(K, U[r], t, U[j])])
  {
    VecMatLinear(K, P[r], t, P[j], A, n);
  }

  lemma {:induction false} VecMatScale<F(!new)>(K: Field<F>, t: F, c: Vec<F>, M: Mat<F>, n: nat)
    requires IsField(K) && |c| == |M| && IsMat(M, |M|, n)
    ensures VecMat(K, Scaled(K, t, c), M, n) == Scaled(K, t, VecMat(K, c, M, n))
  {
    VecMatLinear(K, Zeros(K, |M|), t, c, M, n);
    VecMatZeros(K, M, n);
    ZerosPlus(K, t, c);
    ZerosPlus(K, t, VecMat(K, c, M, n));
  }

  lemma ZerosPlus<F(!new)>(K: Field<F>, t: F, v: Vec<F>)
    requires IsField(K)
    ensures AddScaled(K, Zeros(K, |v|), t, v) == Scaled(K, t, v)
  {
    forall i | 0 <= i < |v| ensures K.add(K.zero, K.mul(t, v[i])) == K.mul(t, v[i]) {
      var p := K.mul(t, v[i]);
      assert Laws(K, K.zero, p, p) && Laws(K, p, K.zero, p);
    }
  }

  lemma RowScaleProduct<F(!new)>(K: Field<F>, A: Mat<F>, P: Mat<F>, r: nat, t: F, n: nat)
    requires IsField(K) && IsMat(A, n, n) && IsMat(P, n, n) && r < n
    ensures MatMul(K, P[r := Scaled(K, t, P[r])], A, n)
            == (var U := MatMul(K, P, A, n); U[r := Scaled(K, t, U[r])])
  {
    VecMatScale(K, t, P[r], A, n);
  }

  lemma AddZeroMultiple<F(!new)>(K: Field<F>, x: F, t: F)
    requires IsField(K)
    ensures K.add(x, K.mul(t, K.zero)) == x
  {
    MulZero(K, t);
    assert Laws(K, x, x, x);
  }

  lemma CancelEntry<F(!new)>(K: Field<F>, x: F)
    requires IsField(K)
    ensures K.add(x, K.mul(K.neg(x), K.one)) == K.zero
  {
    assert Laws(K, x, x, x) && Laws(K, K.neg(x), x, x);
  }

  /** Subtracting row `j` clears column `j` of the current row. */
  lemma ForwardStep<F(!new)>(K: Field<F>, A: Mat<F>, U: Mat<F>, P: Mat<F>, row: nat, j: nat, n: nat)
    requires IsField(K) && j < row < n && Forward(K, A, U, P, row, j, n)
    ensures var t := K.neg(U[row][j]);
            Forward(K, A, U[row := AddScaled(K, U[row], t, U[j])], P[row := AddScaled(K, P[row], t, P[j])], row, j + 1, n)
  {
    var t := K.neg(U[row][j]);
    var P' := P[row := AddScaled(K, P[row], t, P[j])];
    RowAddProduct(K, A, P, row, t, j, n);
    RowAddSpans(K, P, row, j, t, n);
    assert UnitUpperRow(K, U[j], j);
    forall c | row < c < n ensures P'[row][c] == K.zero {
      AddZeroMultiple(K, P[row][c], t);
    }
    AddZeroMultiple(K, P[row][row], t);
    forall c | 0 <= c < j ensures AddScaled(K, U[row], t, U[j])[c] == K.zero {
      AddZeroMultiple(K, U[row][c], t);
    }
    CancelEntry(K, U[row][j]);
  }

  lemma SubtractMultiple<F(!new)>(K: Field<F>, c: Vec<F>, p: Vec<F>, row: nat, A: Mat<F>, n: nat) returns (d: Vec<F>)
    requires IsField(K) && IsMat(A, n, n) && row < n && Kernel(K, c, A, row + 1, n)
    requires |p| == n && p[row] == K.one && (forall i | row < i < n :: p[i] == K.zero)
    requires ZeroBefore(K, VecMat(K, p, A, n), row)
    ensures d == AddScaled(K, c, K.neg(c[row]), p) && Kernel(K, d, A, row, n)
  {
    var t := K.neg(c[row]);
    d := AddScaled(K, c, t, p);
    VecMatLinear(K, c, t, p, A, n);
    CancelEntry(K, c[row]);
    forall i | row < i < n ensures d[i] == K.zero {
      AddZeroMultiple(K, c[i], t);
    }
    forall i | 0 <= i < row ensures VecMat(K, d, A, n)[i] == K.zero {
      AddZeroMultiple(K, VecMat(K, c, A, n)[i], t);
    }
  }

  lemma ZeroFactor<F(!new)>(K: Field<F>, a: F, b: F)
    requires IsField(K) && K.mul(a, b) == K.zero && b != K.zero
    ensures a == K.zero
  {
    assert Laws(K, a, b, K.inv(b)) && Laws(K, b, a, a);
    assert Laws(K, a, a, a);
    MulZero(K, K.inv(b));
  }

  lemma IsMultiple<F(!new)>(K: Field<F>, x: F, s: F, p: F)
    requires IsField(K) && K.add(x, K.mul(K.neg(s), p)) == K.zero
    ensures x == K.mul(s, p)
  {
    var y := K.mul(s, p);
    NegMul(K, s, p);
    assert Laws(K, x, K.neg(y), y) && Laws(K, K.neg(y), y, y) && Laws(K, y, y, y) && Laws(K, x, x, x)
        && Laws(K, K.zero, y, y) && Laws(K, y, K.zero, y);
  }

  /** A nonzero pivot extends the regularity of the leading blocks by one. */
  lemma PivotRegular<F(!new)>(K: Field<F>, A: Mat<F>, U: Mat<F>, P: Mat<F>, row: nat, n: nat)
    requires IsField(K) && row < n && Forward(K, A, U, P, row, row, n) && U[row][row] != K.zero
    ensures LeadingRegular(K, A, row + 1, n)
  {
    var p, k := P[row], row + 1;
    forall c: Vec<F> | Kernel(K, c, A, k, n) ensures c == Zeros(K, n) {
      var d := SubtractMultiple(K, c, p, row, A, n);
      assert LeadingRegular(K, A, row, n);
      assert d == Zeros(K, n);
      forall i | 0 <= i < n ensures c[i] == K.mul(c[row], p[i]) {
        IsMultiple(K, c[i], c[row], p[i]);
      }
      assert c == Scaled(K, c[row], p);
      VecMatScale(K, c[row], p, A, n);
      ZeroFactor(K, c[row], U[row][row]);
      forall i | 0 <= i < n ensures c[i] == K.zero {
        MulZero(K, p[i]);
      }
    }
  }

  /** A zero pivot exhibits a singular leading block: the current row of `inv` is in its kernel. */
  lemma PivotSingular<F(!new)>(K: Field<F>, A: Mat<F>, U: Mat<F>, P: Mat<F>, row: nat, n: nat)
    requires IsField(K) && row < n && Forward(K, A, U, P, row, row, n) && U[row][row] == K.zero
    ensures !LeadingRegular(K, A, row + 1, n)
  {
    assert Kernel(K, P[row], A, row + 1, n);
    assert P[row][row] != Zeros(K, n)[row];
  }

  /** Scaling the row to a unit pivot finishes it. */
  lemma ForwardNormalise<F(!new)>(K: Field<F>, A: Mat<F>, U: Mat<F>, P: Mat<F>, row: nat, n: nat)
    requires IsField(K) && row < n && Forward(K, A, U, P, row, row, n) && U[row][row] != K.zero
    ensures var t := K.inv(U[row][row]);
            ForwardDone(K, A, U[row := Scaled(K, t, U[row])], P[row := Scaled(K, t, P[row])], row + 1, n)
  {
    var t := K.inv(U[row][row]);
    PivotRegular(K, A, U, P, row, n);
    RowScaleProduct(K, A, P, row, t, n);
    MulZero(K, t);
    MulZero(K, U[row][row]);
    assert Laws(K, U[row][row], t, t);
    RowScaleSpans(K, P, row, t, n);
    assert Laws(K, t, U[row][row], t);
  }

  lemma ForwardEnter<F(!new)>(K: Field<F>, A: Mat<F>, U: Mat<F>, P: Mat<F>, row: nat, n: nat)
    requires row < n && ForwardDone(K, A, U, P, row, n)
    ensures Forward(K, A, U, P, row, 0, n)
  {
  }

  // ---------------------------------------------------------------- the second phase

  /** `u` with everything from column `j` on cleared. */
  function Masked<F>(K: Field<F>, u: Vec<F>, j: nat): (w: Vec<F>)
    ensures |w| == |u| && forall c | 0 <= c < |u| :: w[c] == if c >= j then K.zero else u[c]
  {
    seq(|u|, c requires 0 <= c < |u| => if c >= j then K.zero else u[c])
  }

  /** The second phase: rows from `row + 1` on are identity rows, row `row` is cleared from
      column `j` on, the rows above are as the first phase left them. */
  ghost predicate Backward<F(!new)>(K: Field<F>, A: Mat<F>, U0: Mat<F>, P: Mat<F>, row: nat, j: nat, n: nat)
    requires row < j <= n
  {
    && IsMat(A, n, n) && IsMat(P, n, n) && IsMat(U0, n, n) && Spans(K, P, n)
    && (forall r | 0 <= r < n :: UnitUpperRow(K, U0[r], r))
    && (forall r | row < r < n :: VecMat(K, P[r], A, n) == Unit(K, n, r))
    && VecMat(K, P[row], A, n) == Masked(K, U0[row], j)
    && (forall r | 0 <= r < row :: VecMat(K, P[r], A, n) == U0[r])
  }

  lemma BackwardStart<F(!new)>(K: Field<F>, A: Mat<F>, U: Mat<F>, P: Mat<F>, n: nat)
    requires n > 0 && ForwardDone(K, A, U, P, n, n)
    ensures Backward(K, A, U, P, n - 1, n, n)
  {
    assert Masked(K, U[n - 1], n) == U[n - 1];
  }

  lemma BackwardStep<F(!new)>(K: Field<F>, A: Mat<F>, U0: Mat<F>, P: Mat<F>, row: nat, j: nat, n: nat)
    requires IsField(K) && row < j < n && Backward(K, A, U0, P, row, j + 1, n)
    ensures Backward(K, A, U0, P[row := AddScaled(K, P[row], K.neg(U0[row][j]), P[j])], row, j, n)
  {
    var t := K.neg(U0[row][j]);
    RowAddSpans(K, P, row, j, t, n);
    VecMatLinear(K, P[row], t, P[j], A, n);
    var w := AddScaled(K, VecMat(K, P[row], A, n), t, VecMat(K, P[j], A, n));
    forall c | 0 <= c < n ensures w[c] == Masked(K, U0[row], j)[c] {
      if c == j {
        CancelEntry(K, U0[row][j]);
      } else {
        AddZeroMultiple(K, Masked(K, U0[row], j + 1)[c], t);
      }
    }
    assert w == Masked(K, U0[row], j);
  }

  lemma MaskedIsUnit<F(!new)>(K: Field<F>, u: Vec<F>, r: nat)
    requires r < |u| && UnitUpperRow(K, u, r)
    ensures Masked(K, u, r + 1) == Unit(K, |u|, r)
  {
  }

  lemma BackwardNext<F(!new)>(K: Field<F>, A: Mat<F>, U0: Mat<F>, P: Mat<F>, row: nat, n: nat)
    requires 0 < row < n && Backward(K, A, U0, P, row, row + 1, n)
    ensures Backward(K, A, U0, P, row - 1, n, n)
  {
    MaskedIsUnit(K, U0[row], row);
    assert Masked(K, U0[row - 1], n) == U0[row - 1];
  }

  lemma BackwardEnd<F(!new)>(K: Field<F>, A: Mat<F>, U0: Mat<F>, P: Mat<F>, n: nat)
    requires IsField(K) && n > 0 && Backward(K, A, U0, P, 0, 1, n)
    ensures IsInverse(K, A, P, n)
  {
    MaskedIsUnit(K, U0[0], 0);
    LeftInverseIsInverse(K, A, P, n);
  }
}
