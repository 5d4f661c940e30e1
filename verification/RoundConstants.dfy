/**
The rewriting of the partial-round constants of Poseidon2: all but one cell of each constant
vector is moved in front of the previous round, and the permutation must not change.
*/
module RoundConstants {
  import opened LinearAlgebra
  import opened Elimination
  import opened MatrixUtils
  import opened Common

  // ---------------------------------------------------------------- column vectors

  function Dot<F>(K: Field<F>, u: Vec<F>, v: Vec<F>): F
    requires |u| == |v|
    decreases |u|
  {
    if |u| == 0 then K.zero
    else K.add(Dot(K, u[..|u| - 1], v[..|v| - 1]), K.mul(u[|u| - 1], v[|v| - 1]))
  }

  /** The matrix `M` times the column vector `v`. */
  function MatVec<F>(K: Field<F>, M: Mat<F>, v: Vec<F>): (w: Vec<F>)
    requires IsMat(M, |M|, |v|)
    ensures |w| == |M| && forall i | 0 <= i < |M| :: w[i] == Dot(K, M[i], v)
  {
    seq(|M|, i requires 0 <= i < |M| => Dot(K, M[i], v))
  }

  function Plus<F>(K: Field<F>, u: Vec<F>, v: Vec<F>): (w: Vec<F>)
    requires |u| == |v|
    ensures |w| == |u| && forall i | 0 <= i < |u| :: w[i] == K.add(u[i], v[i])
  {
    seq(|u|, i requires 0 <= i < |u| => K.add(u[i], v[i]))
  }

  lemma {:induction false} DotLinear<F(!new)>(K: Field<F>, x: Vec<F>, t: F, b: Vec<F>, v: Vec<F>)
    requires IsField(K) && |x| == |b| == |v|
    ensures Dot(K, AddScaled(K, x, t, b), v) == K.add(Dot(K, x, v), K.mul(t, Dot(K, b, v)))
    decreases |x|
  {
    if |x| == 0 {
      AddZeroMultiple(K, K.zero, t);
    } else {
      var k := |x| - 1;
      assert AddScaled(K, x, t, b)[..k] == AddScaled(K, x[..k], t, b[..k]);
      DotLinear(K, x[..k], t, b[..k], v[..k]);
      Bilinear(K, Dot(K, x[..k], v[..k]), Dot(K, b[..k], v[..k]), x[k], b[k], v[k], t);
    }
  }

  lemma {:induction false} DotCommutes<F(!new)>(K: Field<F>, u: Vec<F>, v: Vec<F>)
    requires IsField(K) && |u| == |v|
    ensures Dot(K, u, v) == Dot(K, v, u)
    decreases |u|
  {
    if |u| > 0 {
      var k := |u| - 1;
      DotCommutes(K, u[..k], v[..k]);
      assert Laws(K, u[k], v[k], v[k]);
    }
  }

  lemma {:induction false} DotZero<F(!new)>(K: Field<F>, v: Vec<F>)
    requires IsField(K)
    ensures Dot(K, Zeros(K, |v|), v) == K.zero
    decreases |v|
  {
    if |v| > 0 {
      var k := |v| - 1;
      assert Zeros(K, |v|)[..k] == Zeros(K, k);
      DotZero(K, v[..k]);
      MulZero(K, v[k]);
      assert Laws(K, K.zero, K.zero, K.zero);
    }
  }

  lemma {:induction false} DotPlus<F(!new)>(K: Field<F>, a: Vec<F>, u: Vec<F>, v: Vec<F>)
    requires IsField(K) && |a| == |u| == |v|
    ensures Dot(K, a, Plus(K, u, v)) == K.add(Dot(K, a, u), Dot(K, a, v))
    decreases |a|
  {
    if |a| == 0 {
      assert Laws(K, K.zero, K.zero, K.zero);
    } else {
      var k := |a| - 1;
      assert Plus(K, u, v)[..k] == Plus(K, u[..k], v[..k]);
      DotPlus(K, a[..k], u[..k], v[..k]);
      assert Laws(K, a[k], u[k], v[k]);
      AddSwap(K, Dot(K, a[..k], u[..k]), Dot(K, a[..k], v[..k]), K.mul(a[k], u[k]), K.mul(a[k], v[k]));
    }
  }

  /** `M (u + v) == M u + M v` */
  lemma MatVecPlus<F(!new)>(K: Field<F>, M: Mat<F>, u: Vec<F>, v: Vec<F>)
    requires IsField(K) && |u| == |v| && IsMat(M, |M|, |u|)
    ensures MatVec(K, M, Plus(K, u, v)) == Plus(K, MatVec(K, M, u), MatVec(K, M, v))
  {
    forall i | 0 <= i < |M|
      ensures MatVec(K, M, Plus(K, u, v))[i] == Plus(K, MatVec(K, M, u), MatVec(K, M, v))[i]
    {
      DotPlus(K, M[i], u, v);
    }
  }

  /** `(c B) . v == c . (B v)` */
  lemma {:induction false} DotThrough<F(!new)>(K: Field<F>, c: Vec<F>, B: Mat<F>, v: Vec<F>)
    requires IsField(K) && |c| == |B| && IsMat(B, |B|, |v|)
    ensures Dot(K, VecMat(K, c, B, |v|), v) == Dot(K, c, MatVec(K, B, v))
    decreases |B|
  {
    if |B| == 0 {
      DotZero(K, v);
    } else {
      var k := |B| - 1;
      assert MatVec(K, B, v)[..k] == MatVec(K, B[..k], v);
      DotThrough(K, c[..k], B[..k], v);
      DotLinear(K, VecMat(K, c[..k], B[..k], |v|), c[k], B[k], v);
    }
  }

  lemma {:induction false} DotUnit<F(!new)>(K: Field<F>, v: Vec<F>, r: nat)
    requires IsField(K)
    ensures Dot(K, Unit(K, |v|, r), v) == if r < |v| then v[r] else K.zero
    decreases |v|
  {
    if |v| > 0 {
      var k := |v| - 1;
      assert Unit(K, |v|, r)[..k] == Unit(K, k, r);
      DotUnit(K, v[..k], r);
      MulZero(K, v[k]);
      assert Laws(K, v[k], K.one, K.zero) && Laws(K, K.one, v[k], v[k]) && Laws(K, K.zero, v[k], v[k])
          && Laws(K, v[k], K.zero, v[k]) && Laws(K, K.zero, K.zero, K.zero);
      assert r < k ==> Laws(K, v[r], K.zero, K.zero);
    }
  }

  lemma InverseRow<F(!new)>(K: Field<F>, M: Mat<F>, N: Mat<F>, n: nat, i: nat)
    requires IsInverse(K, M, N, n) && i < n
    ensures VecMat(K, M[i], N, n) == Unit(K, n, i)
  {
    assert VecMat(K, M[i], N, n) == MatMul(K, M, N, n)[i];
  }

  lemma InverseEntry<F(!new)>(K: Field<F>, M: Mat<F>, N: Mat<F>, v: Vec<F>, i: nat)
    requires IsField(K) && i < |v| && IsMat(M, |v|, |v|) && IsMat(N, |v|, |v|)
    requires VecMat(K, M[i], N, |v|) == Unit(K, |v|, i)
    ensures Dot(K, M[i], MatVec(K, N, v)) == v[i]
  {
    DotThrough(K, M[i], N, v);
    DotUnit(K, v, i);
  }

  /** Multiplying by the inverse and then by the matrix changes nothing. */
  lemma MatVecInverse<F(!new)>(K: Field<F>, M: Mat<F>, N: Mat<F>, v: Vec<F>)
    requires IsField(K) && IsInverse(K, M, N, |v|)
    ensures MatVec(K, M, MatVec(K, N, v)) == v
  {
    var w := MatVec(K, N, v);
    forall i | 0 <= i < |v| ensures MatVec(K, M, w)[i] == v[i] {
      InverseRow(K, M, N, |v|, i);
      InverseEntry(K, M, N, v, i);
    }
  }

  method MatVecMul<F>(K: Field<F>, mat: Mat<F>, input: Vec<F>) returns (out: Vec<F>)
    requires IsMat(mat, |input|, |input|)
    ensures out == MatVec(K, mat, input)
  {
    var t := |mat|;
    out := Zeros(K, t);
    for row := 0 to t
      invariant |out| == t
      invariant forall i | 0 <= i < row :: out[i] == Dot(K, mat[i], input)
      invariant forall i | row <= i < t :: out[i] == K.zero
    {
      for col := 0 to |input|
        invariant |out| == t
        invariant forall i | 0 <= i < row :: out[i] == Dot(K, mat[i], input)
        invariant forall i | row < i < t :: out[i] == K.zero
        invariant out[row] == Dot(K, mat[row][..col], input[..col])
      {
        assert mat[row][..col + 1][..col] == mat[row][..col] && input[..col + 1][..col] == input[..col];
        out := out[row := K.add(out[row], K.mul(mat[row][col], input[col]))];
      }
      assert mat[row][..|input|] == mat[row] && input[..|input|] == input;
    }
  }

  // ---------------------------------------------------------------- the two round functions

  ghost predicate AreVecs<F>(cs: seq<Vec<F>>, t: nat) {
    forall i | 0 <= i < |cs| :: |cs[i]| == t
  }

  lemma SliceOfVecs<F>(cs: seq<Vec<F>>, t: nat, lo: nat, hi: nat)
    requires AreVecs(cs, t) && lo <= hi <= |cs|
    ensures AreVecs(cs[lo..hi], t)
  {
  }

  /** The S-box acts on the first cell only. */
  function SBox<F>(f: F -> F, s: Vec<F>): Vec<F>
    requires |s| > 0
  {
    s[0 := f(s[0])]
  }

  function AddFirst<F>(K: Field<F>, s: Vec<F>, x: F): Vec<F>
    requires |s| > 0
  {
    s[0 := K.add(s[0], x)]
  }

  /** The partial rounds as the reference defines them: constants, S-box, matrix. */
  function Rounds<F>(K: Field<F>, f: F -> F, M: Mat<F>, consts: seq<Vec<F>>, s: Vec<F>): Vec<F>
    requires |s| > 0 && IsMat(M, |s|, |s|) && AreVecs(consts, |s|)
    decreases |consts|
  {
    if consts == [] then s
    else Rounds(K, f, M, consts[1..], MatVec(K, M, SBox(f, Plus(K, s, consts[0]))))
  }

  /** The rounds on the rewritten constants: S-box, one addition to the first cell, matrix. */
  function CheapRounds<F>(K: Field<F>, f: F -> F, M: Mat<F>, adds: seq<F>, s: Vec<F>): Vec<F>
    requires |s| > 0 && IsMat(M, |s|, |s|)
    decreases |adds|
  {
    if adds == [] then s
    else CheapRounds(K, f, M, adds[1..], MatVec(K, M, AddFirst(K, SBox(f, s), adds[0])))
  }

  /** `c` plus everything of `w` but its first cell. */
  function PlusRest<F>(K: Field<F>, c: Vec<F>, w: Vec<F>): (r: Vec<F>)
    requires |c| == |w| > 0
    ensures |r| == |c| && r[0] == c[0] && forall i | 1 <= i < |c| :: r[i] == K.add(c[i], w[i])
  {
    [c[0]] + Plus(K, c[1..], w[1..])
  }

  /** The rewritten constants: what is added before the first round, and what is added to the
      first cell after each S-box. */
  function Shift<F>(K: Field<F>, N: Mat<F>, consts: seq<Vec<F>>, t: nat): (r: (Vec<F>, seq<F>))
    requires t > 0 && IsMat(N, t, t) && |consts| > 0 && AreVecs(consts, t)
    ensures |r.0| == t && |r.1| == |consts|
    decreases |consts|
  {
    if |consts| == 1 then (consts[0], [K.zero])
    else
      var (acc, adds) := Shift(K, N, consts[1..], t);
      var w := MatVec(K, N, acc);
      (PlusRest(K, consts[0], w), [w[0]] + adds)
  }

  /** Moving all but the first cell of `w` through the S-box. */
  lemma ThroughSBox<F(!new)>(K: Field<F>, f: F -> F, s: Vec<F>, c: Vec<F>, w: Vec<F>)
    requires IsField(K) && |s| == |c| == |w| > 0
    ensures AddFirst(K, SBox(f, Plus(K, s, PlusRest(K, c, w))), w[0]) == Plus(K, SBox(f, Plus(K, s, c)), w)
  {
    var l, r := AddFirst(K, SBox(f, Plus(K, s, PlusRest(K, c, w))), w[0]), Plus(K, SBox(f, Plus(K, s, c)), w);
    forall i | 0 <= i < |s| ensures l[i] == r[i] {
      assert Laws(K, s[i], c[i], w[i]);
    }
  }

  /** One round: what the cheap form adds becomes the constants of the next round. */
  lemma OneRound<F(!new)>(K: Field<F>, f: F -> F, M: Mat<F>, N: Mat<F>, t: nat, s: Vec<F>, c: Vec<F>, acc: Vec<F>)
    requires IsField(K) && |s| == |c| == |acc| == t > 0 && IsInverse(K, M, N, t)
    ensures var w := MatVec(K, N, acc);
            MatVec(K, M, AddFirst(K, SBox(f, Plus(K, s, PlusRest(K, c, w))), w[0]))
            == Plus(K, MatVec(K, M, SBox(f, Plus(K, s, c))), acc)
  {
    var w := MatVec(K, N, acc);
    ThroughSBox(K, f, s, c, w);
    MatVecPlus(K, M, SBox(f, Plus(K, s, c)), w);
    MatVecInverse(K, M, N, acc);
  }

  lemma CheapStep<F>(K: Field<F>, f: F -> F, M: Mat<F>, x: F, rest: seq<F>, s: Vec<F>)
    requires |s| > 0 && IsMat(M, |s|, |s|)
    ensures CheapRounds(K, f, M, [x] + rest, s)
            == CheapRounds(K, f, M, rest, MatVec(K, M, AddFirst(K, SBox(f, s), x)))
  {
    assert ([x] + rest)[1..] == rest;
  }

  lemma LastRound<F(!new)>(K: Field<F>, f: F -> F, M: Mat<F>, x: Vec<F>)
    requires IsField(K) && |x| > 0 && IsMat(M, |x|, |x|)
    ensures CheapRounds(K, f, M, [K.zero], x) == MatVec(K, M, SBox(f, x))
  {
    var y := SBox(f, x);
    assert Laws(K, y[0], K.zero, K.zero);
    assert AddFirst(K, y, K.zero) == y;
  }

  /** The rewriting preserves the permutation: for every state size, every positive number of
      rounds, every S-box, every invertible matrix and every state. */
  lemma {:induction false} RoundsPreserved<F(!new)>(K: Field<F>, f: F -> F, M: Mat<F>, N: Mat<F>, t: nat,
                                                    consts: seq<Vec<F>>, s: Vec<F>)
    requires IsField(K) && |s| == t > 0 && IsInverse(K, M, N, t) && |consts| > 0 && AreVecs(consts, t)
    ensures var (first, adds) := Shift(K, N, consts, t);
            CheapRounds(K, f, M, adds, Plus(K, s, first)) == Rounds(K, f, M, consts, s)
    decreases |consts|
  {
    if |consts| == 1 {
      LastRound(K, f, M, Plus(K, s, consts[0]));
    } else {
      var later, next := consts[1..], MatVec(K, M, SBox(f, Plus(K, s, consts[0])));
      RoundsPreserved(K, f, M, N, t, later, next);
      var (acc, rest) := Shift(K, N, later, t);
      var w := MatVec(K, N, acc);
      OneRound(K, f, M, N, t, s, consts[0], acc);
      CheapStep(K, f, M, w[0], rest, Plus(K, s, PlusRest(K, consts[0], w)));
    }
  }

  // ---------------------------------------------------------------- the transformation

  /** The vector-of-vectors form the original returns. */
  ghost predicate IsOptForm<F>(K: Field<F>, opt: seq<Vec<F>>, first: Vec<F>, adds: seq<F>) {
    && |opt| == |adds| + 1 && opt[0] == first
    && (forall i | 0 <= i < |adds| :: |opt[i + 1]| > 0 && opt[i + 1][0] == adds[i])
    && opt[|adds|] == Zeros(K, |first|)
    && (forall i | 1 <= i < |adds| :: |opt[i]| == 1)
  }

  /** Add everything but the first cell of `w` to the constants of one round. */
  method AddRest<F>(K: Field<F>, c: Vec<F>, w: Vec<F>) returns (tmp: Vec<F>)
    requires |c| == |w| > 0
    ensures tmp == PlusRest(K, c, w)
  {
    tmp := c;
    for i := 1 to |w|
      invariant |tmp| == |c| && tmp[0] == c[0]
      invariant forall j | 1 <= j < i :: tmp[j] == K.add(c[j], w[j])
      invariant forall j | i <= j < |c| :: tmp[j] == c[j]
    {
      tmp := tmp[i := K.add(tmp[i], w[i])];
    }
  }

  /** What the loop has stored for the rounds after `i`. */
  ghost predicate Stored<F>(opt: seq<Vec<F>>, adds: seq<F>, i: nat, n: nat) {
    && |opt| == n + 1 && i < n && |adds| == n - i
    && forall j | i < j < n :: |opt[j]| == 1 && opt[j][0] == adds[j - 1 - i]
  }

  lemma StoredNext<F>(opt: seq<Vec<F>>, adds: seq<F>, i: nat, n: nat, x: F)
    requires Stored(opt, adds, i + 1, n)
    ensures Stored(opt[i + 1 := [x]], [x] + adds, i, n)
  {
  }

  lemma ShiftLast<F>(K: Field<F>, N: Mat<F>, consts: seq<Vec<F>>, t: nat)
    requires t > 0 && IsMat(N, t, t) && AreVecs(consts, t) && |consts| > 0
    ensures Shift(K, N, consts[|consts| - 1..], t) == (consts[|consts| - 1], [K.zero])
  {
  }

  lemma ShiftStep<F>(K: Field<F>, N: Mat<F>, consts: seq<Vec<F>>, i: nat, t: nat)
    requires t > 0 && IsMat(N, t, t) && AreVecs(consts, t) && i + 1 < |consts|
    ensures var (acc, adds) := Shift(K, N, consts[i + 1..], t);
            var w := MatVec(K, N, acc);
            Shift(K, N, consts[i..], t) == (PlusRest(K, consts[i], w), [w[0]] + adds)
  {
    assert consts[i..][1..] == consts[i + 1..] && consts[i..][0] == consts[i];
  }

  /** What the loop has computed once it has folded the constants from round `i` on. */
  ghost predicate Folded<F>(K: Field<F>, N: Mat<F>, consts: seq<Vec<F>>, t: nat, opt: seq<Vec<F>>, tmp: Vec<F>,
                            adds: seq<F>, i: nat)
    requires t > 0 && IsMat(N, t, t) && AreVecs(consts, t)
  {
    && i < |consts| && Stored(opt, adds, i, |consts|) && adds[|adds| - 1] == K.zero && |tmp| == t
    && Shift(K, N, consts[i..], t) == (tmp, adds)
  }

  lemma FoldedLast<F>(K: Field<F>, N: Mat<F>, consts: seq<Vec<F>>, t: nat, opt: seq<Vec<F>>)
    requires t > 0 && IsMat(N, t, t) && AreVecs(consts, t) && |consts| > 0 && |opt| == |consts| + 1
    ensures Folded(K, N, consts, t, opt, consts[|consts| - 1], [K.zero], |consts| - 1)
  {
    ShiftLast(K, N, consts, t);
  }

  lemma FoldedNext<F>(K: Field<F>, N: Mat<F>, consts: seq<Vec<F>>, t: nat, opt: seq<Vec<F>>, tmp: Vec<F>,
                      adds: seq<F>, i: nat, w: Vec<F>)
    requires t > 0 && IsMat(N, t, t) && AreVecs(consts, t) && Folded(K, N, consts, t, opt, tmp, adds, i + 1)
    requires w == MatVec(K, N, tmp)
    ensures Folded(K, N, consts, t, opt[i + 1 := [w[0]]], PlusRest(K, consts[i], w), [w[0]] + adds, i)
  {
    StoredNext(opt, adds, i, |consts|, w[0]);
    ShiftStep(K, N, consts, i, t);
  }

  lemma FoldedAll<F>(K: Field<F>, N: Mat<F>, consts: seq<Vec<F>>, t: nat, opt: seq<Vec<F>>, tmp: Vec<F>, adds: seq<F>)
    requires t > 0 && IsMat(N, t, t) && AreVecs(consts, t) && |consts| > 0 && Folded(K, N, consts, t, opt, tmp, adds, 0)
    ensures Shift(K, N, consts, t) == (tmp, adds) && |adds| == |consts|
    ensures IsOptForm(K, opt[0 := tmp][|consts| := Zeros(K, t)], tmp, adds)
  {
    assert consts[0..] == consts;
    OptFormDone(K, opt, tmp, adds);
  }

  /** The backward loop over the constants of the partial rounds. */
  method FoldConstants<F(!new)>(K: Field<F>, N: Mat<F>, consts: seq<Vec<F>>, t: nat)
    returns (opt: seq<Vec<F>>, ghost adds: seq<F>)
    requires t > 0 && IsMat(N, t, t) && |consts| > 0 && AreVecs(consts, t)
    ensures |opt| > 0 && Shift(K, N, consts, t) == (opt[0], adds) && IsOptForm(K, opt, opt[0], adds)
  {
    var roundsP := |consts|;
    opt := seq(roundsP + 1, _ => []);
    var tmp := consts[roundsP - 1];
    FoldedLast(K, N, consts, t, opt);
    adds := [K.zero];
    for i := roundsP - 1 downto 0
      invariant Folded(K, N, consts, t, opt, tmp, adds, i)
    {
      var invCip := MatVecMul(K, N, tmp);
      FoldedNext(K, N, consts, t, opt, tmp, adds, i, invCip);
      opt := opt[i + 1 := [invCip[0]]];
      tmp := AddRest(K, consts[i], invCip);
      adds := [invCip[0]] + adds;
    }
    FoldedAll(K, N, consts, t, opt, tmp, adds);
    opt := opt[0 := tmp];
    opt := opt[roundsP := Zeros(K, |opt[0]|)];
  }

  lemma OptFormDone<F>(K: Field<F>, opt: seq<Vec<F>>, first: Vec<F>, adds: seq<F>)
    requires |adds| > 0 && |first| > 0 && Stored(opt, adds, 0, |adds|) && adds[|adds| - 1] == K.zero
    ensures IsOptForm(K, opt[0 := first][|adds| := Zeros(K, |first|)], first, adds)
  {
  }

  /** The rewritten constants, or nothing where inverting the matrix fails. */
  method EquivalentRoundConstants<F(==, !new)>(K: Field<F>, roundConstants: seq<Vec<F>>, matInternal: Mat<F>,
                                               roundsFBeginning: nat, roundsP: nat, debug: bool)
    returns (r: Option<seq<Vec<F>>>, ghost inverse: Mat<F>, ghost adds: seq<F>)
    requires IsField(K) && |matInternal| > 0 && IsMat(matInternal, |matInternal|, |matInternal|)
    requires roundsP > 0 && |roundConstants| >= roundsFBeginning + roundsP && AreVecs(roundConstants, |matInternal|)
    ensures r.Some? <==> forall k | 0 <= k <= |matInternal| :: LeadingRegular(K, matInternal, k, |matInternal|)
    ensures r.Some? ==>
              && IsInverse(K, matInternal, inverse, |matInternal|) && |r.value| > 0
              && AreVecs(roundConstants[roundsFBeginning..roundsFBeginning + roundsP], |matInternal|)
              && Shift(K, inverse, roundConstants[roundsFBeginning..roundsFBeginning + roundsP], |matInternal|)
                 == (r.value[0], adds)
              && IsOptForm(K, r.value, r.value[0], adds)
  {
    inverse, adds := [], [];
    var inv := MatInverse(K, matInternal, debug);
    if inv.None? {
      return None, inverse, adds;
    }
    inverse := inv.value;
    var consts := roundConstants[roundsFBeginning..roundsFBeginning + roundsP];
    SliceOfVecs(roundConstants, |matInternal|, roundsFBeginning, roundsFBeginning + roundsP);
    var opt;
    opt, adds := FoldConstants(K, inv.value, consts, |matInternal|);
    return Some(opt), inverse, adds;
  }

  /** One reference round, cell by cell: the constants are added to every cell, `f` is applied to the
      first one only and once, and the matrix multiplies the result. */
  ghost predicate IsRound<F>(K: Field<F>, f: F -> F, M: Mat<F>, c: Vec<F>, s: Vec<F>, out: Vec<F>) {
    && |s| == |c| == |out| > 0 && IsMat(M, |s|, |s|)
    && forall i | 0 <= i < |out| :: out[i] == Dot(K, M[i], [f(K.add(s[0], c[0]))] + Plus(K, s[1..], c[1..]))
  }

  /** One cheap round: `f` on the first cell, one addition to it, the matrix. */
  ghost predicate IsCheapRound<F>(K: Field<F>, f: F -> F, M: Mat<F>, x: F, s: Vec<F>, out: Vec<F>) {
    && |s| == |out| > 0 && IsMat(M, |s|, |s|)
    && forall i | 0 <= i < |out| :: out[i] == Dot(K, M[i], [K.add(f(s[0]), x)] + s[1..])
  }

  /** The states a reference run goes through in its first `n` rounds. */
  ghost predicate IsRun<F>(K: Field<F>, f: F -> F, M: Mat<F>, consts: seq<Vec<F>>, states: seq<Vec<F>>, n: nat) {
    && |states| == n + 1 && n <= |consts|
    && forall r | 0 <= r < n :: IsRound(K, f, M, consts[r], states[r], states[r + 1])
  }

  /** The states a run on the rewritten constants goes through in its first `n` rounds. */
  ghost predicate IsCheapRun<F>(K: Field<F>, f: F -> F, M: Mat<F>, opt: seq<Vec<F>>, states: seq<Vec<F>>, n: nat) {
    && |states| == n + 1 && n < |opt|
    && forall r | 1 <= r <= n :: |opt[r]| > 0 && IsCheapRound(K, f, M, opt[r][0], states[r - 1], states[r])
  }

  lemma RoundIs<F>(K: Field<F>, f: F -> F, M: Mat<F>, c: Vec<F>, s: Vec<F>)
    requires |s| == |c| > 0 && IsMat(M, |s|, |s|)
    ensures IsRound(K, f, M, c, s, MatVec(K, M, SBox(f, Plus(K, s, c))))
  {
    assert SBox(f, Plus(K, s, c)) == [f(K.add(s[0], c[0]))] + Plus(K, s[1..], c[1..]);
  }

  lemma CheapRoundIs<F>(K: Field<F>, f: F -> F, M: Mat<F>, x: F, s: Vec<F>)
    requires |s| > 0 && IsMat(M, |s|, |s|)
    ensures IsCheapRound(K, f, M, x, s, MatVec(K, M, AddFirst(K, SBox(f, s), x)))
  {
    assert AddFirst(K, SBox(f, s), x) == [K.add(f(s[0]), x)] + s[1..];
  }

  lemma RunGoesOn<F>(K: Field<F>, f: F -> F, M: Mat<F>, consts: seq<Vec<F>>, states: seq<Vec<F>>, n: nat, next: Vec<F>)
    requires IsRun(K, f, M, consts, states, n) && n < |consts| && IsRound(K, f, M, consts[n], states[n], next)
    ensures IsRun(K, f, M, consts, states + [next], n + 1)
  {
  }

  lemma CheapRunGoesOn<F>(K: Field<F>, f: F -> F, M: Mat<F>, opt: seq<Vec<F>>, states: seq<Vec<F>>, n: nat, next: Vec<F>)
    requires IsCheapRun(K, f, M, opt, states, n) && n + 1 < |opt| && |opt[n + 1]| > 0
    requires IsCheapRound(K, f, M, opt[n + 1][0], states[n], next)
    ensures IsCheapRun(K, f, M, opt, states + [next], n + 1)
  {
  }

  /** The partial rounds as the reference runs them, with the states they go through. */
  method RunRounds<F>(K: Field<F>, f: F -> F, M: Mat<F>, consts: seq<Vec<F>>, s: Vec<F>)
    returns (state: Vec<F>, ghost states: seq<Vec<F>>)
    requires |s| > 0 && IsMat(M, |s|, |s|) && AreVecs(consts, |s|)
    ensures IsRun(K, f, M, consts, states, |consts|) && states[0] == s && states[|consts|] == state
    ensures state == Rounds(K, f, M, consts, s)
  {
    state, states := s, [s];
    for r := 0 to |consts|
      invariant |state| == |s| && Rounds(K, f, M, consts[r..], state) == Rounds(K, f, M, consts, s)
      invariant IsRun(K, f, M, consts, states, r) && states[0] == s && states[r] == state
    {
      assert consts[r..][1..] == consts[r + 1..];
      RoundIs(K, f, M, consts[r], state);
      state := MatVecMul(K, M, SBox(f, Plus(K, state, consts[r])));
      RunGoesOn(K, f, M, consts, states, r, state);
      states := states + [state];
    }
  }

  /** The partial rounds on the rewritten constants, with the states they go through. */
  method RunCheapRounds<F>(K: Field<F>, f: F -> F, M: Mat<F>, opt: seq<Vec<F>>, s: Vec<F>, ghost adds: seq<F>)
    returns (state: Vec<F>, ghost states: seq<Vec<F>>)
    requires |s| > 0 && IsMat(M, |s|, |s|) && |opt| > 0 && |opt[0]| == |s| && IsOptForm(K, opt, opt[0], adds)
    ensures IsCheapRun(K, f, M, opt, states, |opt| - 1) && states[0] == Plus(K, s, opt[0]) && states[|opt| - 1] == state
    ensures state == CheapRounds(K, f, M, adds, Plus(K, s, opt[0]))
  {
    state := Plus(K, s, opt[0]);
    states := [state];
    for i := 0 to |opt| - 1
      invariant |state| == |s| && CheapRounds(K, f, M, adds[i..], state) == CheapRounds(K, f, M, adds, Plus(K, s, opt[0]))
      invariant IsCheapRun(K, f, M, opt, states, i) && states[0] == Plus(K, s, opt[0]) && states[i] == state
    {
      assert adds[i..][1..] == adds[i + 1..];
      CheapRoundIs(K, f, M, opt[i + 1][0], state);
      state := MatVecMul(K, M, AddFirst(K, SBox(f, state), opt[i + 1][0]));
      CheapRunGoesOn(K, f, M, opt, states, i, state);
      states := states + [state];
    }
  }

  function Iterate<F>(f: F -> F, n: nat, x: F): F {
    if n == 0 then x else f(Iterate(f, n - 1, x))
  }

  lemma IdentityRound<F(!new)>(K: Field<F>, f: F -> F, s: Vec<F>, out: Vec<F>)
    requires IsField(K) && IsRound(K, f, Identity(K, |s|), Zeros(K, |s|), s, out)
    ensures out == [f(s[0])] + s[1..]
  {
    var v := [f(K.add(s[0], K.zero))] + Plus(K, s[1..], Zeros(K, |s|)[1..]);
    forall i | 0 <= i < |s| ensures K.add(s[i], K.zero) == s[i] {
      assert Laws(K, s[i], K.zero, K.zero);
    }
    assert v == [f(s[0])] + s[1..];
    forall i | 0 <= i < |s| ensures out[i] == v[i] {
      DotUnit(K, v, i);
    }
  }

  /** With the identity matrix and no constants, `n` rounds apply `f` to the first cell `n` times and
      leave the others alone. */
  lemma {:induction false} IdentityRun<F(!new)>(K: Field<F>, f: F -> F, t: nat, consts: seq<Vec<F>>,
                                                states: seq<Vec<F>>, n: nat)
    requires IsField(K) && t > 0 && IsRun(K, f, Identity(K, t), consts, states, n) && |states[0]| == t
    requires forall r | 0 <= r < n :: consts[r] == Zeros(K, t)
    ensures states[n] == [Iterate(f, n, states[0][0])] + states[0][1..]
    decreases n
  {
    if n == 0 {
      assert states[0] == [states[0][0]] + states[0][1..];
    } else {
      var before, s := states[..n], states[0];
      IdentityRun(K, f, t, consts, before, n - 1);
      assert states[n - 1] == [Iterate(f, n - 1, s[0])] + s[1..];
      IdentityRound(K, f, states[n - 1], states[n]);
    }
  }

  /** Both forms of the partial rounds, run on the same state. */
  method RunBoth<F(!new)>(K: Field<F>, f: F -> F, opt: seq<Vec<F>>, consts: seq<Vec<F>>, M: Mat<F>, state: Vec<F>,
                          ghost N: Mat<F>, ghost adds: seq<F>)
    returns (reference: Vec<F>, cheap: Vec<F>)
    requires IsField(K) && |state| > 0 && IsInverse(K, M, N, |state|) && |consts| > 0 && AreVecs(consts, |state|)
    requires |opt| > 0 && Shift(K, N, consts, |state|) == (opt[0], adds) && IsOptForm(K, opt, opt[0], adds)
    ensures reference == cheap == Rounds(K, f, M, consts, state)
  {
    RoundsPreserved(K, f, M, N, |state|, consts, state);
    ghost var states, cheapStates;
    reference, states := RunRounds(K, f, M, consts, state);
    cheap, cheapStates := RunCheapRounds(K, f, M, opt, state, adds);
  }

  /** What the rewritten constants are for: both forms of the partial rounds agree. */
  method BothForms<F(==, !new)>(K: Field<F>, f: F -> F, roundConstants: seq<Vec<F>>, matInternal: Mat<F>,
                                roundsFBeginning: nat, roundsP: nat, state: Vec<F>)
    returns (r: Option<(Vec<F>, Vec<F>)>)
    requires IsField(K) && |matInternal| == |state| > 0 && IsMat(matInternal, |matInternal|, |matInternal|)
    requires roundsP > 0 && |roundConstants| >= roundsFBeginning + roundsP && AreVecs(roundConstants, |matInternal|)
    ensures r.Some? <==> forall k | 0 <= k <= |matInternal| :: LeadingRegular(K, matInternal, k, |matInternal|)
    ensures r.Some? ==>
              && AreVecs(roundConstants[roundsFBeginning..roundsFBeginning + roundsP], |state|)
              && r.value.0 == r.value.1
                 == Rounds(K, f, matInternal, roundConstants[roundsFBeginning..roundsFBeginning + roundsP], state)
  {
    var opt, inverse, adds := EquivalentRoundConstants(K, roundConstants, matInternal, roundsFBeginning, roundsP, false);
    if opt.None? {
      return None;
    }
    var consts := roundConstants[roundsFBeginning..roundsFBeginning + roundsP];
    var reference, cheap := RunBoth(K, f, opt.value, consts, matInternal, state, inverse, adds);
    return Some((reference, cheap));
  }

  // ---------------------------------------------------------------- the Sage form

  function Column<F>(M: Mat<F>, j: nat): (v: Vec<F>)
    requires forall i | 0 <= i < |M| :: j < |M[i]|
    ensures |v| == |M| && forall i | 0 <= i < |M| :: v[i] == M[i][j]
  {
    seq(|M|, i requires 0 <= i < |M| => M[i][j])
  }

  function Transpose<F>(M: Mat<F>, n: nat): (T: Mat<F>)
    requires IsMat(M, n, n)
    ensures IsMat(T, n, n) && forall i | 0 <= i < n :: T[i] == Column(M, i)
  {
    seq(n, i requires 0 <= i < n => Column(M, i))
  }

  lemma {:induction false} VecMatEntry<F>(K: Field<F>, c: Vec<F>, M: Mat<F>, n: nat, j: nat)
    requires |c| == |M| && IsMat(M, |M|, n) && j < n
    ensures VecMat(K, c, M, n)[j] == Dot(K, c, Column(M, j))
    decreases |c|
  {
    if |c| > 0 {
      var k := |c| - 1;
      assert Column(M, j)[..k] == Column(M[..k], j);
      VecMatEntry(K, c[..k], M[..k], n, j);
    }
  }

  /** Multiplying a row vector by the transpose is multiplying the column vector. */
  lemma RowTimesTranspose<F(!new)>(K: Field<F>, c: Vec<F>, B: Mat<F>)
    requires IsField(K) && IsMat(B, |c|, |c|)
    ensures VecMat(K, c, Transpose(B, |c|), |c|) == MatVec(K, B, c)
  {
    forall j | 0 <= j < |c| ensures VecMat(K, c, Transpose(B, |c|), |c|)[j] == MatVec(K, B, c)[j] {
      VecMatEntry(K, c, Transpose(B, |c|), |c|, j);
      assert Column(Transpose(B, |c|), j) == B[j];
      DotCommutes(K, c, B[j]);
    }
  }

  lemma TransposeProduct<F(!new)>(K: Field<F>, A: Mat<F>, B: Mat<F>, n: nat)
    requires IsField(K) && IsMat(A, n, n) && IsMat(B, n, n)
    ensures MatMul(K, Transpose(A, n), Transpose(B, n), n) == Transpose(MatMul(K, B, A, n), n)
  {
    forall i | 0 <= i < n
      ensures MatMul(K, Transpose(A, n), Transpose(B, n), n)[i] == Transpose(MatMul(K, B, A, n), n)[i]
    {
      RowTimesTranspose(K, Column(A, i), B);
      forall j | 0 <= j < n ensures MatVec(K, B, Column(A, i))[j] == Column(MatMul(K, B, A, n), i)[j] {
        VecMatEntry(K, B[j], A, n, i);
      }
    }
  }

  lemma TransposeIdentity<F>(K: Field<F>, n: nat)
    ensures Transpose(Identity(K, n), n) == Identity(K, n)
  {
    forall i | 0 <= i < n ensures Column(Identity(K, n), i) == Unit(K, n, i) {}
  }

  /** The inverse of the transpose is the transpose of the inverse. */
  lemma InverseOfTranspose<F(!new)>(K: Field<F>, M: Mat<F>, N: Mat<F>, n: nat)
    requires IsField(K) && IsInverse(K, M, N, n)
    ensures IsInverse(K, Transpose(M, n), Transpose(N, n), n)
  {
    TransposeProduct(K, M, N, n);
    TransposeProduct(K, N, M, n);
    TransposeIdentity(K, n);
  }

  /** Sage keeps every constant in its own row: the folded first row, then rows that are zero
      but for the first cell. */
  ghost predicate IsSageForm<F>(K: Field<F>, temp: seq<Vec<F>>, first: Vec<F>, adds: seq<F>) {
    && |temp| == |adds| > 0 && temp[0] == first && |first| > 0
    && forall i | 1 <= i < |temp| :: temp[i] == [adds[i - 1]] + Zeros(K, |first| - 1)
  }

  /** What the Sage loop has stored for the rounds after `i`. */
  ghost predicate SageStored<F>(K: Field<F>, temp: seq<Vec<F>>, constants: seq<Vec<F>>, adds: seq<F>, i: nat, t: nat)
    requires t > 0
  {
    && i < |temp| == |constants| && |adds| == |temp| - i
    && (forall j | 0 <= j < i :: temp[j] == constants[j])
    && (forall j | i < j < |temp| :: temp[j] == [adds[j - 1 - i]] + Zeros(K, t - 1))
  }

  lemma SageNext<F>(K: Field<F>, temp: seq<Vec<F>>, constants: seq<Vec<F>>, adds: seq<F>, i: nat, t: nat, folded: Vec<F>, x: F)
    requires t > 0 && SageStored(K, temp, constants, adds, i + 1, t)
    ensures SageStored(K, temp[i := folded][i + 1 := [x] + Zeros(K, t - 1)], constants, [x] + adds, i, t)
  {
  }

  /** One Sage step on row vectors is one Rust step on column vectors. */
  lemma SageFold<F(!new)>(K: Field<F>, c: Vec<F>, acc: Vec<F>, N: Mat<F>)
    requires IsField(K) && |c| == |acc| > 0 && IsMat(N, |acc|, |acc|)
    ensures var w := VecMat(K, acc, Transpose(N, |acc|), |acc|);
            && w == MatVec(K, N, acc)
            && Plus(K, c, [K.zero] + w[1..]) == PlusRest(K, c, w)
  {
    RowTimesTranspose(K, acc, N);
    KeepFirst(K, c, MatVec(K, N, acc));
  }

  lemma KeepFirst<F(!new)>(K: Field<F>, c: Vec<F>, w: Vec<F>)
    requires IsField(K) && |c| == |w| > 0
    ensures Plus(K, c, [K.zero] + w[1..]) == PlusRest(K, c, w)
  {
    assert Laws(K, c[0], K.zero, K.zero);
    PlusByCells(K, c, [K.zero] + w[1..], PlusRest(K, c, w));
  }

  lemma PlusByCells<F>(K: Field<F>, c: Vec<F>, w: Vec<F>, out: Vec<F>)
    requires |c| == |w| == |out| && forall i | 0 <= i < |out| :: out[i] == K.add(c[i], w[i])
    ensures Plus(K, c, w) == out
  {
  }

  method SageLoop<F(!new)>(K: Field<F>, constants: seq<Vec<F>>, transposeInverse: Mat<F>, t: nat, ghost N: Mat<F>)
    returns (temp: seq<Vec<F>>)
    requires IsField(K) && t > 0 && |constants| > 0 && AreVecs(constants, t)
    requires IsMat(N, t, t) && transposeInverse == Transpose(N, t)
    ensures var (first, adds) := Shift(K, N, constants, t); IsSageForm(K, temp, first, adds)
  {
    temp := constants;
    var n := |constants|;
    ShiftLast(K, N, constants, t);
    ghost var adds := [K.zero];
    for i := n - 1 downto 0
      invariant SageStored(K, temp, constants, adds, i, t)
      invariant temp[i] == Shift(K, N, constants[i..], t).0 && adds == Shift(K, N, constants[i..], t).1
    {
      ShiftStep(K, N, constants, i, t);
      SageFold(K, constants[i], temp[i + 1], N);
      var invCip := VecMat(K, temp[i + 1], transposeInverse, t);
      var folded := Plus(K, temp[i], [K.zero] + invCip[1..]);
      SageNext(K, temp, constants, adds, i, t, folded, invCip[0]);
      temp := temp[i := folded][i + 1 := [invCip[0]] + Zeros(K, t - 1)];
      adds := [invCip[0]] + adds;
    }
    assert constants[0..] == constants;
  }

  /** The flat list of constants cut into one row per round. */
  function InRows<F>(constants: Vec<F>, t: nat, n: nat): (rows: seq<Vec<F>>)
    requires |constants| == n * t
    ensures |rows| == n && AreVecs(rows, t)
    decreases n
  {
    if n == 0 then [] else [constants[..t]] + InRows(constants[t..], t, n - 1)
  }

  /** Row `i` holds the constants from position `i * t` on. */
  lemma {:induction false} InRowsAt<F>(constants: Vec<F>, t: nat, n: nat, i: nat, j: nat)
    requires |constants| == n * t && i < n && j < t
    ensures i * t + j < |constants| && InRows(constants, t, n)[i][j] == constants[i * t + j]
    decreases n
  {
    MulLess(i, n, t);
    if i > 0 {
      InRowsAt(constants[t..], t, n - 1, i - 1, j);
      assert i * t == (i - 1) * t + t;
    }
  }

  function Spliced<T>(s: seq<T>, mid: seq<T>, lo: nat, hi: nat): (r: seq<T>)
    requires lo <= hi <= |s| && |mid| == hi - lo
    ensures |r| == |s| && r[..lo] == s[..lo] && r[lo..hi] == mid && r[hi..] == s[hi..]
  {
    s[..lo] + mid + s[hi..]
  }

  /** The Sage loop on all rows: only those of the partial rounds are rewritten. */
  method SageOnRows<F(!new)>(K: Field<F>, rows: seq<Vec<F>>, transposeInverse: Mat<F>, t: nat, lo: nat, hi: nat,
                             ghost N: Mat<F>)
    returns (temp: seq<Vec<F>>)
    requires IsField(K) && t > 0 && lo <= hi <= |rows| && AreVecs(rows[lo..hi], t)
    requires IsMat(N, t, t) && transposeInverse == Transpose(N, t)
    ensures |temp| == |rows| && temp[..lo] == rows[..lo] && temp[hi..] == rows[hi..]
    ensures lo < hi ==> var (first, adds) := Shift(K, N, rows[lo..hi], t); IsSageForm(K, temp[lo..hi], first, adds)
  {
    temp := rows;
    if lo < hi {
      var partialRows := SageLoop(K, rows[lo..hi], transposeInverse, t, N);
      temp := Spliced(rows, partialRows, lo, hi);
    }
  }

  /** The same on the flat list of the constants of `n` rounds. */
  method SageOnFlat<F(!new)>(K: Field<F>, constants: Vec<F>, transposeInverse: Mat<F>, t: nat, n: nat, lo: nat,
                             hi: nat, ghost N: Mat<F>)
    returns (temp: seq<Vec<F>>)
    requires IsField(K) && t > 0 && |constants| == n * t && lo <= hi <= n
    requires IsMat(N, t, t) && transposeInverse == Transpose(N, t)
    ensures var rows := InRows(constants, t, n);
            && |temp| == |rows| && temp[..lo] == rows[..lo] && temp[hi..] == rows[hi..]
            && AreVecs(rows[lo..hi], t)
            && (lo < hi ==>
                  var (first, adds) := Shift(K, N, rows[lo..hi], t); IsSageForm(K, temp[lo..hi], first, adds))
  {
    var rows := InRows(constants, t, n);
    SliceOfVecs(rows, t, lo, hi);
    temp := SageOnRows(K, rows, transposeInverse, t, lo, hi, N);
  }

  lemma TransposeOfInverse<F(!new)>(K: Field<F>, M: Mat<F>, N: Mat<F>, transposeInverse: Mat<F>, n: nat)
    requires IsField(K) && IsInverse(K, M, N, n) && IsInverse(K, Transpose(M, n), transposeInverse, n)
    ensures IsMat(N, n, n) && transposeInverse == Transpose(N, n)
  {
    InverseOfTranspose(K, M, N, n);
    InverseUnique(K, Transpose(M, n), transposeInverse, Transpose(N, n), n);
  }

  /** The Sage function on the whole flat list, on row vectors and the inverted transpose: the rows
      of the full rounds stay as they are, and those of the partial rounds are rewritten. */
  method SageEquivalentConstants<F(!new)>(K: Field<F>, constants: Vec<F>, transposeInverse: Mat<F>, t: nat,
                                          rounds: nat, halfF: nat, roundsP: nat, ghost M: Mat<F>, ghost N: Mat<F>)
    returns (temp: seq<Vec<F>>)
    requires IsField(K) && t > 0 && rounds == 2 * halfF + roundsP && |constants| == rounds * t
    requires IsInverse(K, M, N, t) && IsInverse(K, Transpose(M, t), transposeInverse, t)
    ensures var rows, end := InRows(constants, t, rounds), halfF + roundsP;
            && |temp| == |rows| && temp[..halfF] == rows[..halfF] && temp[end..] == rows[end..]
            && (roundsP > 0 ==>
                  var (first, adds) := Shift(K, N, rows[halfF..end], t); IsSageForm(K, temp[halfF..end], first, adds))
  {
    TransposeOfInverse(K, M, N, transposeInverse, t);
    temp := SageOnFlat(K, constants, transposeInverse, t, rounds, halfF, halfF + roundsP, N);
  }

  lemma FormsAgree<F>(K: Field<F>, opt: seq<Vec<F>>, temp: seq<Vec<F>>, lo: nat, hi: nat, first: Vec<F>, adds: seq<F>)
    requires lo <= hi <= |temp| && IsOptForm(K, opt, first, adds) && IsSageForm(K, temp[lo..hi], first, adds)
    ensures |opt| == hi - lo + 1 && lo < hi && opt[0] == temp[lo]
    ensures forall i | 1 <= i < hi - lo :: |opt[i]| > 0 && |temp[lo + i]| > 0 && opt[i][0] == temp[lo + i][0]
  {
    var mid := temp[lo..hi];
    forall i | 1 <= i < hi - lo ensures |opt[i]| > 0 && |temp[lo + i]| > 0 && opt[i][0] == temp[lo + i][0] {
      assert opt[i - 1 + 1][0] == adds[i - 1] && temp[lo + i] == mid[i];
    }
    assert temp[lo] == mid[0];
  }

  /** The Rust function and the Sage function compute the same constants: the vector added before
      the first partial round, and the cell added after each S-box but the last, where Rust has a
      zero and Sage nothing. */
  method RustMatchesSage<F(==, !new)>(K: Field<F>, constants: Vec<F>, matInternal: Mat<F>, transposeInverse: Mat<F>,
                                      rounds: nat, halfF: nat, roundsP: nat)
    returns (r: Option<(seq<Vec<F>>, seq<Vec<F>>)>, ghost inverse: Mat<F>, ghost adds: seq<F>)
    requires IsField(K) && |matInternal| > 0 && roundsP > 0
    requires rounds == 2 * halfF + roundsP && |constants| == rounds * |matInternal|
    requires IsMat(matInternal, |matInternal|, |matInternal|)
    requires IsInverse(K, Transpose(matInternal, |matInternal|), transposeInverse, |matInternal|)
    ensures r.Some? <==> forall k | 0 <= k <= |matInternal| :: LeadingRegular(K, matInternal, k, |matInternal|)
    ensures r.Some? ==>
              var (opt, temp) := r.value;
              var rows := InRows(constants, |matInternal|, rounds);
              && IsInverse(K, matInternal, inverse, |matInternal|) && AreVecs(rows[halfF..halfF + roundsP], |matInternal|)
              && |opt| == roundsP + 1 && |temp| == rounds && opt[0] == temp[halfF]
              && Shift(K, inverse, rows[halfF..halfF + roundsP], |matInternal|) == (opt[0], adds)
              && IsOptForm(K, opt, opt[0], adds) && IsSageForm(K, temp[halfF..halfF + roundsP], opt[0], adds)
              && forall i | 1 <= i < roundsP ::
                   |opt[i]| > 0 && |temp[halfF + i]| > 0 && opt[i][0] == temp[halfF + i][0]
  {
    var t := |matInternal|;
    var rows := InRows(constants, t, rounds);
    var opt;
    opt, inverse, adds := EquivalentRoundConstants(K, rows, matInternal, halfF, roundsP, false);
    if opt.None? {
      return None, inverse, adds;
    }
    var temp := SageEquivalentConstants(K, constants, transposeInverse, t, rounds, halfF, roundsP, matInternal, inverse);
    FormsAgree(K, opt.value, temp, halfF, halfF + roundsP, opt.value[0], adds);
    return Some((opt.value, temp)), inverse, adds;
  }
}
