/**
Matrix inversion by Gaussian elimination, in place on two arrays, as the Poseidon2 utilities
do it: no pivoting, and two short cuts that write zeros where the result is known to be zero.
*/
module MatrixUtils {
  import opened Common
  import opened LinearAlgebra
  import opened Elimination

  function Row<F>(m: array2<F>, i: nat): (v: Vec<F>)
    requires i < m.Length0
    reads m
    ensures |v| == m.Length1 && forall j | 0 <= j < |v| :: v[j] == m[i, j]
  {
    seq(m.Length1, j requires 0 <= j < m.Length1 reads m => m[i, j])
  }

  function Rows<F>(m: array2<F>): (M: Mat<F>)
    reads m
    ensures IsMat(M, m.Length0, m.Length1)
    ensures forall i | 0 <= i < m.Length0 :: M[i] == Row(m, i)
  {
    seq(m.Length0, i requires 0 <= i < m.Length0 reads m => Row(m, i))
  }

  ghost predicate Square<F>(m: array2<F>, n: nat) {
    m.Length0 == n && m.Length1 == n
  }

  /** Everything but row `row` is as it was, and that row is `v` left of `col`, `u` from there on. */
  ghost predicate RowProgress<F>(m: array2<F>, was: Mat<F>, row: nat, v: Vec<F>, col: nat)
    requires IsMat(was, m.Length0, m.Length1) && row < m.Length0 && |v| == m.Length1 && col <= m.Length1
    reads m
  {
    && (forall i, j | 0 <= i < m.Length0 && 0 <= j < m.Length1 && i != row :: m[i, j] == was[i][j])
    && (forall j | 0 <= j < col :: m[row, j] == v[j])
    && (forall j | col <= j < m.Length1 :: m[row, j] == was[row][j])
  }

  lemma RowFinished<F>(m: array2<F>, was: Mat<F>, row: nat, v: Vec<F>)
    requires IsMat(was, m.Length0, m.Length1) && row < m.Length0 && |v| == m.Length1
    requires RowProgress(m, was, row, v, m.Length1)
    ensures Rows(m) == was[row := v]
  {
    forall i | 0 <= i < m.Length0 ensures Rows(m)[i] == was[row := v][i] {}
  }

  /** Write the next cell of a row. */
  method SetCell<F>(m: array2<F>, row: nat, col: nat, x: F, ghost was: Mat<F>, ghost v: Vec<F>)
    requires IsMat(was, m.Length0, m.Length1) && row < m.Length0 && |v| == m.Length1 && col < m.Length1
    requires RowProgress(m, was, row, v, col) && x == v[col]
    modifies m
    ensures RowProgress(m, was, row, v, col + 1)
  {
    m[row, col] := x;
  }

  /** One cell of a row update; the short cuts write zero where both operands are zero. */
  lemma UpdatedCell<F(!new)>(K: Field<F>, u: F, el: F, v: F)
    requires IsField(K)
    ensures SubMul(K, u, el, v) == K.add(u, K.mul(K.neg(el), v))
    ensures u == K.zero && v == K.zero ==> K.add(u, K.mul(K.neg(el), v)) == K.zero
  {
    SubMulIsAddMul(K, u, el, v);
    AddZeroMultiple(K, K.zero, K.neg(el));
  }

  /** First phase, one step: subtract `el` times row `j` from row `row` in both matrices. */
  method SubtractLower<F(!new)>(K: Field<F>, m: array2<F>, inv: array2<F>, n: nat, row: nat, j: nat)
    requires IsField(K) && m != inv && Square(m, n) && Square(inv, n) && j < row < n
    requires ZeroBefore(K, Row(m, row), j) && ZeroBefore(K, Row(m, j), j)
    requires forall c | row < c < n :: inv[row, c] == K.zero && inv[j, c] == K.zero
    modifies m, inv
    ensures var U := old(Rows(m)); Rows(m) == U[row := AddScaled(K, U[row], K.neg(U[row][j]), U[j])]
    ensures var P, t := old(Rows(inv)), K.neg(old(m[row, j])); Rows(inv) == P[row := AddScaled(K, P[row], t, P[j])]
  {
    var el := m[row, j];
    ghost var t, U, P := K.neg(el), Rows(m), Rows(inv);
    ghost var u, p := AddScaled(K, U[row], t, U[j]), AddScaled(K, P[row], t, P[j]);
    for col := 0 to n
      invariant RowProgress(m, U, row, u, col) && RowProgress(inv, P, row, p, col)
    {
      UpdatedCell(K, U[row][col], el, U[j][col]);
      UpdatedCell(K, P[row][col], el, P[j][col]);
      SetCell(m, row, col, if col < j then K.zero else SubMul(K, m[row, col], el, m[j, col]), U, u);
      SetCell(inv, row, col, if col > row then K.zero else SubMul(K, inv[row, col], el, inv[j, col]), P, p);
    }
    RowFinished(m, U, row, u);
    RowFinished(inv, P, row, p);
  }

  lemma ScaledCell<F(!new)>(K: Field<F>, u: F, t: F)
    requires IsField(K)
    ensures K.mul(u, t) == K.mul(t, u) && (u == K.zero ==> K.mul(t, u) == K.zero)
  {
    MulZero(K, t);
    assert Laws(K, u, t, t);
  }

  /** First phase, end of a row: scale it so that the pivot becomes one. */
  method NormaliseRow<F(!new)>(K: Field<F>, m: array2<F>, inv: array2<F>, n: nat, row: nat, elInv: F)
    requires IsField(K) && m != inv && Square(m, n) && Square(inv, n) && row < n
    requires ZeroBefore(K, Row(m, row), row) && K.mul(elInv, m[row, row]) == K.one
    requires forall c | row < c < n :: inv[row, c] == K.zero
    modifies m, inv
    ensures var U := old(Rows(m)); Rows(m) == U[row := Scaled(K, elInv, U[row])]
    ensures var P := old(Rows(inv)); Rows(inv) == P[row := Scaled(K, elInv, P[row])]
  {
    ghost var U, P := Rows(m), Rows(inv);
    ghost var u, p := Scaled(K, elInv, U[row]), Scaled(K, elInv, P[row]);
    for col := 0 to n
      invariant RowProgress(m, U, row, u, col) && RowProgress(inv, P, row, p, col)
    {
      ScaledCell(K, U[row][col], elInv);
      ScaledCell(K, P[row][col], elInv);
      SetCell(m, row, col, if col < row then m[row, col] else if col == row then K.one
                           else K.mul(m[row, col], elInv), U, u);
      SetCell(inv, row, col, if col <= row then K.mul(inv[row, col], elInv) else inv[row, col], P, p);
    }
    RowFinished(m, U, row, u);
    RowFinished(inv, P, row, p);
  }

  /** Second phase, one step: subtract `el` times row `j` of `inv` from its row `row`; a debug
      build also clears the columns of `m` that are done. */
  method SubtractUpper<F(!new)>(K: Field<F>, m: array2<F>, inv: array2<F>, n: nat, row: nat, j: nat, debug: bool)
    requires IsField(K) && m != inv && Square(m, n) && Square(inv, n) && row < j < n
    modifies m, inv
    ensures var U := old(Rows(m)); Rows(m) == if debug then U[row := Masked(K, U[row], j)] else U
    ensures var P, t := old(Rows(inv)), K.neg(old(m[row, j])); Rows(inv) == P[row := AddScaled(K, P[row], t, P[j])]
  {
    var el := m[row, j];
    ghost var t, U, P := K.neg(el), Rows(m), Rows(inv);
    ghost var u, p := if debug then Masked(K, U[row], j) else U[row], AddScaled(K, P[row], t, P[j]);
    for col := 0 to n
      invariant RowProgress(m, U, row, u, col) && RowProgress(inv, P, row, p, col)
    {
      UpdatedCell(K, P[row][col], el, P[j][col]);
      SetCell(m, row, col, if debug && col >= j then K.zero else m[row, col], U, u);
      SetCell(inv, row, col, SubMul(K, inv[row, col], el, inv[j, col]), P, p);
    }
    RowFinished(m, U, row, u);
    RowFinished(inv, P, row, p);
    assert U[row := U[row]] == U;
  }

  /** One row of phase one. */
  method ForwardRow<F(==, !new)>(K: Field<F>, m: array2<F>, inv: array2<F>, n: nat, row: nat, ghost A: Mat<F>)
    returns (ok: bool)
    requires IsField(K) && m != inv && Square(m, n) && Square(inv, n) && row < n
    requires IsMat(A, n, n) && ForwardDone(K, A, Rows(m), Rows(inv), row, n)
    modifies m, inv
    ensures ok ==> ForwardDone(K, A, Rows(m), Rows(inv), row + 1, n)
    ensures !ok ==> !LeadingRegular(K, A, row + 1, n)
  {
    ForwardEnter(K, A, Rows(m), Rows(inv), row, n);
    for j := 0 to row
      invariant Forward(K, A, Rows(m), Rows(inv), row, j, n)
    {
      ghost var U, P := Rows(m), Rows(inv);
      ForwardStep(K, A, U, P, row, j, n);
      assert U[row] == Row(m, row) && U[j] == Row(m, j) && P[row] == Row(inv, row) && P[j] == Row(inv, j);
      assert UnitUpperRow(K, U[j], j);
      SubtractLower(K, m, inv, n, row, j);
    }
    ghost var U, P := Rows(m), Rows(inv);
    assert U[row] == Row(m, row) && P[row] == Row(inv, row);
    var pivot := m[row, row];
    if pivot == K.zero {
      PivotSingular(K, A, U, P, row, n);
      return false;
    }
    var elInv := K.inv(pivot);
    assert Laws(K, pivot, elInv, elInv) && Laws(K, elInv, pivot, pivot);
    ForwardNormalise(K, A, U, P, row, n);
    NormaliseRow(K, m, inv, n, row, elInv);
    return true;
  }

  /** Phase one. It fails on a zero pivot, which happens exactly when some leading block of the
      input is singular. */
  method ForwardPhase<F(==, !new)>(K: Field<F>, m: array2<F>, inv: array2<F>, n: nat, ghost A: Mat<F>) returns (ok: bool)
    requires IsField(K) && m != inv && Square(m, n) && Square(inv, n) && IsMat(A, n, n)
    requires Rows(m) == A && Rows(inv) == Identity(K, n)
    modifies m, inv
    ensures ok <==> forall k | 0 <= k <= n :: LeadingRegular(K, A, k, n)
    ensures ok ==> ForwardDone(K, A, Rows(m), Rows(inv), n, n)
  {
    ForwardStart(K, A, n);
    for row := 0 to n
      invariant ForwardDone(K, A, Rows(m), Rows(inv), row, n)
    {
      var done := ForwardRow(K, m, inv, n, row, A);
      if !done {
        return false;
      }
    }
    return true;
  }

  /** Row `row` of `m` while the second phase works on it, and the rows around it. */
  ghost predicate DebugRows<F>(K: Field<F>, M: Mat<F>, U0: Mat<F>, row: nat, j: nat, n: nat, debug: bool)
    requires IsMat(M, n, n) && IsMat(U0, n, n) && row < j <= n
  {
    if !debug then M == U0
    else
      && (forall r | row < r < n :: M[r] == Unit(K, n, r))
      && M[row] == Masked(K, U0[row], j)
      && (forall r | 0 <= r < row :: M[r] == U0[r])
  }

  lemma DebugStep<F(!new)>(K: Field<F>, M: Mat<F>, U0: Mat<F>, row: nat, j: nat, n: nat, debug: bool)
    requires IsMat(M, n, n) && IsMat(U0, n, n) && row < j < n && DebugRows(K, M, U0, row, j + 1, n, debug)
    ensures M[row][j] == U0[row][j]
    ensures DebugRows(K, if debug then M[row := Masked(K, M[row], j)] else M, U0, row, j, n, debug)
  {
    if debug {
      assert Masked(K, M[row], j) == Masked(K, U0[row], j);
    }
  }

  /** One row of phase two. */
  method BackwardRow<F(!new)>(K: Field<F>, m: array2<F>, inv: array2<F>, n: nat, row: nat, debug: bool,
                              ghost A: Mat<F>, ghost U0: Mat<F>)
    requires IsField(K) && m != inv && Square(m, n) && Square(inv, n) && row < n
    requires Backward(K, A, U0, Rows(inv), row, n, n) && DebugRows(K, Rows(m), U0, row, n, n, debug)
    modifies m, inv
    ensures Backward(K, A, U0, Rows(inv), row, row + 1, n)
    ensures DebugRows(K, Rows(m), U0, row, row + 1, n, debug)
  {
    for j := n downto row + 1
      invariant Backward(K, A, U0, Rows(inv), row, j, n)
      invariant DebugRows(K, Rows(m), U0, row, j, n, debug)
    {
      assert Rows(m)[row] == Row(m, row);
      BackwardStep(K, A, U0, Rows(inv), row, j, n);
      DebugStep(K, Rows(m), U0, row, j, n, debug);
      SubtractUpper(K, m, inv, n, row, j, debug);
    }
  }

  lemma DebugNext<F(!new)>(K: Field<F>, M: Mat<F>, U0: Mat<F>, row: nat, n: nat, debug: bool)
    requires IsMat(M, n, n) && IsMat(U0, n, n) && row < n && UnitUpperRow(K, U0[row], row)
    requires DebugRows(K, M, U0, row, row + 1, n, debug)
    ensures row > 0 ==> DebugRows(K, M, U0, row - 1, n, n, debug)
    ensures row == 0 && debug ==> M == Identity(K, n)
  {
    MaskedIsUnit(K, U0[row], row);
    if row > 0 {
      assert Masked(K, U0[row - 1], n) == U0[row - 1];
    }
  }

  /** Phase two. A debug build ends with `m` the identity, as its final assertions demand. */
  method BackwardPhase<F(!new)>(K: Field<F>, m: array2<F>, inv: array2<F>, n: nat, debug: bool, ghost A: Mat<F>)
    requires IsField(K) && m != inv && Square(m, n) && Square(inv, n) && n > 0
    requires IsMat(A, n, n) && ForwardDone(K, A, Rows(m), Rows(inv), n, n)
    modifies m, inv
    ensures IsInverse(K, A, Rows(inv), n)
    ensures debug ==> Rows(m) == Identity(K, n)
  {
    ghost var U0 := Rows(m);
    BackwardStart(K, A, U0, Rows(inv), n);
    assert Masked(K, U0[n - 1], n) == U0[n - 1];
    var row := n;
    while row > 0
      invariant row <= n
      invariant row > 0 ==> Backward(K, A, U0, Rows(inv), row - 1, n, n) && DebugRows(K, Rows(m), U0, row - 1, n, n, debug)
      invariant row == 0 ==> IsInverse(K, A, Rows(inv), n) && (debug ==> Rows(m) == Identity(K, n))
    {
      row := row - 1;
      BackwardRow(K, m, inv, n, row, debug, A, U0);
      DebugNext(K, Rows(m), U0, row, n, debug);
      if row > 0 {
        BackwardNext(K, A, U0, Rows(inv), row, n);
      } else {
        BackwardEnd(K, A, U0, Rows(inv), n);
      }
    }
  }

  /** The inverse, or nothing where the original's `unwrap` fails. It succeeds exactly when every
      leading block of the input is regular, and then the result is a two-sided inverse. */
  method MatInverse<F(==, !new)>(K: Field<F>, mat: Mat<F>, debug: bool) returns (r: Option<Mat<F>>)
    requires IsField(K) && |mat| > 0 && IsMat(mat, |mat|, |mat|)
    ensures r.Some? <==> forall k | 0 <= k <= |mat| :: LeadingRegular(K, mat, k, |mat|)
    ensures r.Some? ==> IsInverse(K, mat, r.value, |mat|)
  {
    var n := |mat|;
    var m := new F[n, n]((i, j) requires 0 <= i < n && 0 <= j < n => mat[i][j]);
    var inv := new F[n, n]((i, j) => if i == j then K.one else K.zero);
    forall i | 0 <= i < n ensures Rows(m)[i] == mat[i] && Rows(inv)[i] == Unit(K, n, i) {}
    assert Rows(m) == mat && Rows(inv) == Identity(K, n);
    var ok := ForwardPhase(K, m, inv, n, mat);
    if !ok {
      return None;
    }
    BackwardPhase(K, m, inv, n, debug, mat);
    r := Some(Rows(inv));
  }

  /** Debug and release builds return the same inverse, and fail on the same inputs. */
  method DebugMakesNoDifference<F(==, !new)>(K: Field<F>, mat: Mat<F>)
    returns (release: Option<Mat<F>>, debug: Option<Mat<F>>)
    requires IsField(K) && |mat| > 0 && IsMat(mat, |mat|, |mat|)
    ensures release == debug
    ensures release.Some? <==> forall k | 0 <= k <= |mat| :: LeadingRegular(K, mat, k, |mat|)
    ensures release.Some? ==> IsInverse(K, mat, release.value, |mat|)
  {
    release := MatInverse(K, mat, false);
    debug := MatInverse(K, mat, true);
    if release.Some? {
      InverseUnique(K, mat, release.value, debug.value, |mat|);
    }
  }

  method MatTranspose<F>(mat: Mat<F>) returns (t: Mat<F>)
    requires |mat| > 0 && IsMat(mat, |mat|, |mat[0]|)
    ensures IsMat(t, |mat[0]|, |mat|)
    ensures forall r, c | 0 <= r < |mat| && 0 <= c < |mat[0]| :: t[c][r] == mat[r][c]
  {
    var rows, cols := |mat|, |mat[0]|;
    var transpose := new F[cols, rows]((c, r) requires 0 <= c < cols && 0 <= r < rows => mat[0][c]);
    for row := 0 to rows
      invariant forall r, c | 0 <= r < row && 0 <= c < cols :: transpose[c, r] == mat[r][c]
    {
      for col := 0 to cols
        invariant forall r, c | 0 <= r < row && 0 <= c < cols :: transpose[c, r] == mat[r][c]
        invariant forall c | 0 <= c < col :: transpose[c, row] == mat[row][c]
      {
        transpose[col, row] := mat[row][col];
      }
    }
    t := Rows(transpose);
  }

  /** There is no pivoting: the exchange matrix is its own inverse over every field, yet its
      first leading block is singular, so `MatInverse` fails on it. */
  lemma ExchangeNeedsPivoting<F(!new)>(K: Field<F>)
    requires IsField(K)
    ensures var A := [[K.zero, K.one], [K.one, K.zero]];
            IsInverse(K, A, A, 2) && !LeadingRegular(K, A, 1, 2)
  {
    var A := [[K.zero, K.one], [K.one, K.zero]];
    assert A[0] == Unit(K, 2, 1) && A[1] == Unit(K, 2, 0);
    UnitTimes(K, A, 2, 0);
    UnitTimes(K, A, 2, 1);
    assert MatMul(K, A, A, 2) == Identity(K, 2);
    assert Kernel(K, Unit(K, 2, 0), A, 1, 2);
    assert Unit(K, 2, 0)[0] != Zeros(K, 2)[0];
  }

  /** The laws are not empty: the two-element prime field satisfies them. */
  const GF2: Field<bool> := Field(false, true, (a, b) => a != b, a => a, (a, b) => a && b, a => a)

  lemma GF2IsField()
    ensures IsField(GF2)
  {
    forall a, b, c ensures Laws(GF2, a, b, c) {}
  }
}
