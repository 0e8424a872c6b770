/** Dense linear algebra over idealised reals: vectors are sequences of reals,
    matrices are sequences of rows. Every floating-point value of the solvers
    is read as an exact real number. */
module LinAlg {
  import opened Wrappers

  type Vector = seq<real>
  type Matrix = seq<seq<real>>

  /** `M` has `rows` rows, each of length `cols`. */
  predicate IsMatrix(M: Matrix, rows: nat, cols: nat) {
    |M| == rows && forall i :: 0 <= i < |M| ==> |M[i]| == cols
  }

  /** The positive part `max(0, x)`. */
  function PosPart(x: real): (r: real)
    ensures r >= 0.0 && r >= x
    ensures r == x || r == 0.0
  {
    if x < 0.0 then 0.0 else x
  }

  function Zeros(n: nat): (z: Vector)
    ensures |z| == n
    ensures forall i :: 0 <= i < n ==> z[i] == 0.0
  {
    seq(n, _ => 0.0)
  }

  function Add(a: Vector, b: Vector): (r: Vector)
    requires |a| == |b|
    ensures |r| == |a|
    ensures forall i :: 0 <= i < |r| ==> r[i] == a[i] + b[i]
  {
    seq(|a|, i requires 0 <= i < |a| => a[i] + b[i])
  }

  function Sub(a: Vector, b: Vector): (r: Vector)
    requires |a| == |b|
    ensures |r| == |a|
    ensures forall i :: 0 <= i < |r| ==> r[i] == a[i] - b[i]
  {
    seq(|a|, i requires 0 <= i < |a| => a[i] - b[i])
  }

  /** Subtracting what was added gives back the original vector. */
  lemma SubAddCancel(a: Vector, b: Vector)
    requires |a| == |b|
    ensures Sub(Add(a, b), b) == a
  {
    assert forall i :: 0 <= i < |a| ==> Sub(Add(a, b), b)[i] == a[i];
  }

  function Scale(k: real, a: Vector): (r: Vector)
    ensures |r| == |a|
    ensures forall i :: 0 <= i < |r| ==> r[i] == k * a[i]
  {
    seq(|a|, i requires 0 <= i < |a| => k * a[i])
  }

  /** Inner product, summed from the front. */
  function Dot(a: Vector, b: Vector): real
    requires |a| == |b|
  {
    if |a| == 0 then 0.0 else a[0] * b[0] + Dot(a[1..], b[1..])
  }

  /** `M @ x`: entry `i` is the inner product of row `i` with `x`. */
  function MatVec(M: Matrix, x: Vector): (r: Vector)
    requires forall i :: 0 <= i < |M| ==> |M[i]| == |x|
    ensures |r| == |M|
    ensures forall i :: 0 <= i < |M| ==> r[i] == Dot(M[i], x)
  {
    seq(|M|, i requires 0 <= i < |M| => Dot(M[i], x))
  }

  /** The transpose of a `|M| x cols` matrix. The column count is explicit
      because a matrix with no rows still has a width. */
  function Transpose(M: Matrix, cols: nat): (T: Matrix)
    requires IsMatrix(M, |M|, cols)
    ensures IsMatrix(T, cols, |M|)
    ensures forall j, i :: 0 <= j < cols && 0 <= i < |M| ==> T[j][i] == M[i][j]
  {
    seq(cols, j requires 0 <= j < cols => seq(|M|, i requires 0 <= i < |M| => M[i][j]))
  }

  /** `M.T @ y`, read literally as the transpose applied to `y`. */
  function MatTVec(M: Matrix, cols: nat, y: Vector): (r: Vector)
    requires IsMatrix(M, |y|, cols)
    ensures |r| == cols
  {
    MatVec(Transpose(M, cols), y)
  }

  /** The entrywise quotient `a / d`. Floating-point division by zero gives
      an infinite or NaN entry, which the model does not represent: the
      quotient is `None` exactly when some entry would be non-finite. */
  function Quotient(a: Vector, d: real): (r: Option<Vector>)
    ensures r.None? <==> |a| > 0 && d == 0.0
    ensures r.Some? ==> |r.value| == |a|
    ensures r.Some? ==> forall i :: 0 <= i < |a| ==> r.value[i] * d == a[i]
  {
    if |a| == 0 then Some([])
    else if d == 0.0 then None
    else Some(seq(|a|, i requires 0 <= i < |a| => a[i] / d))
  }

  // ---------------------------------------------------------------------
  // Inner-product algebra

  lemma {:induction false} DotComm(a: Vector, b: Vector)
    requires |a| == |b|
    ensures Dot(a, b) == Dot(b, a)
  {
    if |a| > 0 {
      DotComm(a[1..], b[1..]);
    }
  }

  lemma {:induction false} DotAddRight(x: Vector, a: Vector, b: Vector)
    requires |x| == |a| == |b|
    ensures Dot(x, Add(a, b)) == Dot(x, a) + Dot(x, b)
  {
    if |x| > 0 {
      assert Add(a, b)[1..] == Add(a[1..], b[1..]);
      DotAddRight(x[1..], a[1..], b[1..]);
    }
  }

  lemma {:induction false} DotSubRight(x: Vector, a: Vector, b: Vector)
    requires |x| == |a| == |b|
    ensures Dot(x, Sub(a, b)) == Dot(x, a) - Dot(x, b)
  {
    if |x| > 0 {
      assert Sub(a, b)[1..] == Sub(a[1..], b[1..]);
      DotSubRight(x[1..], a[1..], b[1..]);
    }
  }

  lemma {:induction false} DotScaleRight(x: Vector, k: real, a: Vector)
    requires |x| == |a|
    ensures Dot(x, Scale(k, a)) == k * Dot(x, a)
  {
    if |x| > 0 {
      forall i | 0 <= i < |a| - 1
        ensures Scale(k, a)[1..][i] == Scale(k, a[1..])[i]
      {
      }
      assert Scale(k, a)[1..] == Scale(k, a[1..]);
      DotScaleRight(x[1..], k, a[1..]);
    }
  }

  lemma {:induction false} DotZerosRight(x: Vector)
    ensures Dot(x, Zeros(|x|)) == 0.0
  {
    if |x| > 0 {
      assert Zeros(|x|)[1..] == Zeros(|x| - 1);
      DotZerosRight(x[1..]);
    }
  }

  lemma {:induction false} DotSelfNonneg(a: Vector)
    ensures Dot(a, a) >= 0.0
  {
    if |a| > 0 {
      DotSelfNonneg(a[1..]);
    }
  }

  /** The inner product of two concatenations splits blockwise. */
  lemma {:induction false} DotConcat(a1: Vector, a2: Vector, b1: Vector, b2: Vector)
    requires |a1| == |b1| && |a2| == |b2|
    ensures Dot(a1 + a2, b1 + b2) == Dot(a1, b1) + Dot(a2, b2)
  {
    if |a1| > 0 {
      assert (a1 + a2)[1..] == a1[1..] + a2;
      assert (b1 + b2)[1..] == b1[1..] + b2;
      DotConcat(a1[1..], a2, b1[1..], b2);
    } else {
      assert a1 + a2 == a2;
      assert b1 + b2 == b2;
    }
  }

  /** `|a + b|^2 = |a|^2 + 2<a, b> + |b|^2`. */
  lemma DotSquareOfSum(a: Vector, b: Vector)
    requires |a| == |b|
    ensures Dot(Add(a, b), Add(a, b)) == Dot(a, a) + 2.0 * Dot(a, b) + Dot(b, b)
  {
    var s := Add(a, b);
    DotAddRight(s, a, b);
    DotComm(s, a);
    DotComm(s, b);
    DotAddRight(a, a, b);
    DotAddRight(b, a, b);
    DotComm(b, a);
  }

  // ---------------------------------------------------------------------
  // Matrix products

  /** Peeling the first row off `M` peels the first entry off `y` in `M.T @ y`:
      the transpose product is the row-weighted sum of the rows. */
  lemma TransposeFirstRow(M: Matrix, cols: nat, y: Vector)
    requires IsMatrix(M, |y|, cols) && |M| > 0
    ensures MatTVec(M, cols, y) == Add(Scale(y[0], M[0]), MatTVec(M[1..], cols, y[1..]))
  {
    var T := Transpose(M, cols);
    var T' := Transpose(M[1..], cols);
    var lhs := MatTVec(M, cols, y);
    var rhs := Add(Scale(y[0], M[0]), MatTVec(M[1..], cols, y[1..]));
    forall j | 0 <= j < cols
      ensures lhs[j] == rhs[j]
    {
      assert T[j][1..] == T'[j];
      assert lhs[j] == T[j][0] * y[0] + Dot(T'[j], y[1..]);
    }
  }

  /** Adjoint identity `<M x, y> = <x, M.T y>`. */
  lemma {:induction false} Adjoint(M: Matrix, cols: nat, x: Vector, y: Vector)
    requires IsMatrix(M, |y|, cols) && |x| == cols
    ensures Dot(MatVec(M, x), y) == Dot(x, MatTVec(M, cols, y))
  {
    if |M| == 0 {
      assert MatTVec(M, cols, y) == Zeros(cols);
      DotZerosRight(x);
    } else {
      var rest := MatTVec(M[1..], cols, y[1..]);
      assert MatVec(M, x)[1..] == MatVec(M[1..], x);
      Adjoint(M[1..], cols, x, y[1..]);
      TransposeFirstRow(M, cols, y);
      DotAddRight(x, Scale(y[0], M[0]), rest);
      DotScaleRight(x, y[0], M[0]);
      DotComm(M[0], x);
    }
  }

  /** Stacking rows stacks the outputs of `M @ x`. */
  lemma MatVecConcat(M1: Matrix, M2: Matrix, x: Vector)
    requires forall i :: 0 <= i < |M1| ==> |M1[i]| == |x|
    requires forall i :: 0 <= i < |M2| ==> |M2[i]| == |x|
    ensures MatVec(M1 + M2, x) == MatVec(M1, x) + MatVec(M2, x)
  {
  }

  /** The transpose of a row-stacked matrix applied to a stacked vector is
      the sum of the blockwise transpose products. */
  lemma MatTVecConcat(M1: Matrix, M2: Matrix, cols: nat, y1: Vector, y2: Vector)
    requires IsMatrix(M1, |y1|, cols) && IsMatrix(M2, |y2|, cols)
    ensures IsMatrix(M1 + M2, |y1 + y2|, cols)
    ensures MatTVec(M1 + M2, cols, y1 + y2) == Add(MatTVec(M1, cols, y1), MatTVec(M2, cols, y2))
  {
    var T := Transpose(M1 + M2, cols);
    var T1 := Transpose(M1, cols);
    var T2 := Transpose(M2, cols);
    forall j | 0 <= j < cols
      ensures MatTVec(M1 + M2, cols, y1 + y2)[j] == MatTVec(M1, cols, y1)[j] + MatTVec(M2, cols, y2)[j]
    {
      assert T[j] == T1[j] + T2[j];
      DotConcat(T1[j], T2[j], y1, y2);
    }
  }

  /** `M @ x` is linear in `x` and sends zero to zero. */
  lemma MatVecLinear(M: Matrix, a: Vector, b: Vector, k: real)
    requires |a| == |b|
    requires forall i :: 0 <= i < |M| ==> |M[i]| == |a|
    ensures MatVec(M, Add(a, b)) == Add(MatVec(M, a), MatVec(M, b))
    ensures MatVec(M, Scale(k, a)) == Scale(k, MatVec(M, a))
    ensures MatVec(M, Zeros(|a|)) == Zeros(|M|)
  {
    forall i | 0 <= i < |M|
      ensures MatVec(M, Add(a, b))[i] == MatVec(M, a)[i] + MatVec(M, b)[i]
      ensures MatVec(M, Scale(k, a))[i] == k * MatVec(M, a)[i]
      ensures MatVec(M, Zeros(|a|))[i] == 0.0
    {
      DotAddRight(M[i], a, b);
      DotScaleRight(M[i], k, a);
      DotZerosRight(M[i]);
    }
    assert MatVec(M, Scale(k, a)) == Scale(k, MatVec(M, a));
  }

  /** `M @ (a - k b) = M @ a - k (M @ b)`. */
  lemma MatVecSubScale(M: Matrix, a: Vector, b: Vector, k: real)
    requires |a| == |b|
    requires forall i :: 0 <= i < |M| ==> |M[i]| == |a|
    ensures MatVec(M, Sub(a, Scale(k, b))) == Sub(MatVec(M, a), Scale(k, MatVec(M, b)))
  {
    var l := MatVec(M, Sub(a, Scale(k, b)));
    var r := Sub(MatVec(M, a), Scale(k, MatVec(M, b)));
    forall i | 0 <= i < |M|
      ensures l[i] == r[i]
    {
      DotSubRight(M[i], a, Scale(k, b));
      DotScaleRight(M[i], k, b);
    }
  }

  /** `(p1 - k q1) + (p2 - k q2) = (p1 + p2) - k (q1 + q2)`. */
  lemma AddSubScale(p1: Vector, p2: Vector, q1: Vector, q2: Vector, k: real)
    requires |p1| == |p2| == |q1| == |q2|
    ensures Add(Sub(p1, Scale(k, q1)), Sub(p2, Scale(k, q2))) == Sub(Add(p1, p2), Scale(k, Add(q1, q2)))
  {
    var l, r := Add(Sub(p1, Scale(k, q1)), Sub(p2, Scale(k, q2))), Sub(Add(p1, p2), Scale(k, Add(q1, q2)));
    forall i | 0 <= i < |l|
      ensures l[i] == r[i]
    {
      assert r[i] == (p1[i] + p2[i]) - k * (q1[i] + q2[i]);
    }
  }

  /** `(p1 - k q1) - (p2 - k q2) = (p1 - p2) - k (q1 - q2)`. */
  lemma SubSubScale(p1: Vector, p2: Vector, q1: Vector, q2: Vector, k: real)
    requires |p1| == |p2| == |q1| == |q2|
    ensures Sub(Sub(p1, Scale(k, q1)), Sub(p2, Scale(k, q2))) == Sub(Sub(p1, p2), Scale(k, Sub(q1, q2)))
  {
    var l, r := Sub(Sub(p1, Scale(k, q1)), Sub(p2, Scale(k, q2))), Sub(Sub(p1, p2), Scale(k, Sub(q1, q2)));
    forall i | 0 <= i < |l|
      ensures l[i] == r[i]
    {
      assert r[i] == (p1[i] - p2[i]) - k * (q1[i] - q2[i]);
    }
  }

  /** `a - k b` on a concatenation is the concatenation of the pieces. */
  lemma ConcatSubScale(a1: Vector, a2: Vector, b1: Vector, b2: Vector, k: real)
    requires |a1| == |b1| && |a2| == |b2|
    ensures Sub(a1, Scale(k, b1)) + Sub(a2, Scale(k, b2)) == Sub(a1 + a2, Scale(k, b1 + b2))
  {
    var l, r := Sub(a1, Scale(k, b1)) + Sub(a2, Scale(k, b2)), Sub(a1 + a2, Scale(k, b1 + b2));
    forall i | 0 <= i < |l|
      ensures l[i] == r[i]
    {
      if i < |a1| {
        assert l[i] == Sub(a1, Scale(k, b1))[i];
      } else {
        assert l[i] == Sub(a2, Scale(k, b2))[i - |a1|];
      }
    }
  }

  /** `a - k b` restricted to a head or a tail is the same combination of the
      restricted operands. */
  lemma SubScaleSlices(a: Vector, b: Vector, k: real, m: nat)
    requires |a| == |b| && m <= |a|
    ensures Sub(a, Scale(k, b))[..m] == Sub(a[..m], Scale(k, b[..m]))
    ensures Sub(a, Scale(k, b))[m..] == Sub(a[m..], Scale(k, b[m..]))
  {
    var c := Sub(a, Scale(k, b));
    assert forall i :: 0 <= i < m ==> c[..m][i] == Sub(a[..m], Scale(k, b[..m]))[i];
    assert forall i :: 0 <= i < |a| - m ==> c[m..][i] == Sub(a[m..], Scale(k, b[m..]))[i];
  }

  /** `M.T @ (a - k b) = M.T @ a - k (M.T @ b)`. */
  lemma MatTVecSubScale(M: Matrix, cols: nat, a: Vector, b: Vector, k: real)
    requires |a| == |b| && IsMatrix(M, |a|, cols)
    ensures MatTVec(M, cols, Sub(a, Scale(k, b))) == Sub(MatTVec(M, cols, a), Scale(k, MatTVec(M, cols, b)))
  {
    MatVecSubScale(Transpose(M, cols), a, b, k);
  }

  /** `M.T @ y` is linear in `y` and sends zero to zero. */
  lemma MatTVecLinear(M: Matrix, cols: nat, a: Vector, b: Vector, k: real)
    requires |a| == |b| && IsMatrix(M, |a|, cols)
    ensures MatTVec(M, cols, Add(a, b)) == Add(MatTVec(M, cols, a), MatTVec(M, cols, b))
    ensures MatTVec(M, cols, Scale(k, a)) == Scale(k, MatTVec(M, cols, a))
    ensures MatTVec(M, cols, Zeros(|a|)) == Zeros(cols)
  {
    MatVecLinear(Transpose(M, cols), a, b, k);
  }

  /** The row-weighted sum `y[0] M[0] + y[1] M[1] + ...`, an independent
      reading of `M.T @ y`. */
  function RowCombination(M: Matrix, cols: nat, y: Vector): (r: Vector)
    requires IsMatrix(M, |y|, cols)
    ensures |r| == cols
  {
    if |M| == 0 then Zeros(cols)
    else Add(Scale(y[0], M[0]), RowCombination(M[1..], cols, y[1..]))
  }

  lemma {:induction false} MatTVecIsRowCombination(M: Matrix, cols: nat, y: Vector)
    requires IsMatrix(M, |y|, cols)
    ensures MatTVec(M, cols, y) == RowCombination(M, cols, y)
  {
    if |M| == 0 {
      assert MatTVec(M, cols, y) == Zeros(cols);
    } else {
      TransposeFirstRow(M, cols, y);
      MatTVecIsRowCombination(M[1..], cols, y[1..]);
    }
  }

  /** A sum of pointwise-vanishing products vanishes. */
  lemma {:induction false} DotPointwiseZero(a: Vector, b: Vector)
    requires |a| == |b|
    requires forall i :: 0 <= i < |a| ==> a[i] * b[i] == 0.0
    ensures Dot(a, b) == 0.0
  {
    if |a| > 0 {
      DotPointwiseZero(a[1..], b[1..]);
    }
  }

  /** Squared lengths are monotone in pointwise squares. */
  lemma {:induction false} DotSelfMonotone(a: Vector, b: Vector)
    requires |a| == |b|
    requires forall i :: 0 <= i < |a| ==> a[i] * a[i] <= b[i] * b[i]
    ensures Dot(a, a) <= Dot(b, b)
  {
    if |a| > 0 {
      DotSelfMonotone(a[1..], b[1..]);
    }
  }
}
