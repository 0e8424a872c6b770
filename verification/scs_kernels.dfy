/** The block-stacked constraint operator of the splitting solver: `A` is
    `A_eq` stacked on top of `A_ub`, applied block by block into
    preallocated output buffers. */
module ScsKernels {
  import opened LinAlg

  /** The inner conjugate-gradient solve both splitting solvers call: an
      opaque map returning a vector of its argument's length. */
  type InnerSolve = Vector -> Vector

  ghost predicate PreservesLength(cg: InnerSolve) {
    forall r :: |cg(r)| == |r|
  }

  /** Both blocks have width `n`. */
  predicate Blocks(Aeq: Matrix, Aub: Matrix, n: nat) {
    IsMatrix(Aeq, |Aeq|, n) && IsMatrix(Aub, |Aub|, n)
  }

  /** Slice assignment `buf[lo:lo+|vals|] = vals`. */
  function Overwrite(buf: Vector, lo: nat, vals: Vector): (r: Vector)
    requires lo + |vals| <= |buf|
    ensures |r| == |buf|
    ensures r[lo..lo + |vals|] == vals
    ensures r[..lo] == buf[..lo] && r[lo + |vals|..] == buf[lo + |vals|..]
    ensures lo == 0 && |vals| == |buf| ==> r == vals
  {
    buf[..lo] + vals + buf[lo + |vals|..]
  }

  /** `A x`, block by block. */
  function Forward(Aeq: Matrix, Aub: Matrix, x: Vector): (r: Vector)
    requires Blocks(Aeq, Aub, |x|)
    ensures |r| == |Aeq| + |Aub|
  {
    MatVec(Aeq, x) + MatVec(Aub, x)
  }

  /** `A.T y = A_eq.T y[:m_eq] + A_ub.T y[m_eq:]`. */
  function Backward(Aeq: Matrix, Aub: Matrix, n: nat, y: Vector): (r: Vector)
    requires Blocks(Aeq, Aub, n) && |y| == |Aeq| + |Aub|
    ensures |r| == n
  {
    Add(MatTVec(Aeq, n, y[..|Aeq|]), MatTVec(Aub, n, y[|Aeq|..]))
  }

  /** `A.T` distributes over a sum of stacked vectors. */
  lemma BackwardAdditive(Aeq: Matrix, Aub: Matrix, n: nat, a: Vector, b: Vector)
    requires Blocks(Aeq, Aub, n) && |a| == |b| == |Aeq| + |Aub|
    ensures Backward(Aeq, Aub, n, Add(a, b)) == Add(Backward(Aeq, Aub, n, a), Backward(Aeq, Aub, n, b))
  {
    var m := |Aeq|;
    assert Add(a, b)[..m] == Add(a[..m], b[..m]);
    assert Add(a, b)[m..] == Add(a[m..], b[m..]);
    MatTVecLinear(Aeq, n, a[..m], b[..m], 1.0);
    MatTVecLinear(Aub, n, a[m..], b[m..], 1.0);
  }

  /** `A (a - k b) = A a - k A b` for the block-stacked `A`. */
  lemma ForwardSubScale(Aeq: Matrix, Aub: Matrix, a: Vector, b: Vector, k: real)
    requires Blocks(Aeq, Aub, |a|) && |a| == |b|
    ensures Forward(Aeq, Aub, Sub(a, Scale(k, b)))
            == Sub(Forward(Aeq, Aub, a), Scale(k, Forward(Aeq, Aub, b)))
  {
    MatVecSubScale(Aeq, a, b, k);
    MatVecSubScale(Aub, a, b, k);
    var me := |Aeq|;
    var l, r := Forward(Aeq, Aub, Sub(a, Scale(k, b))), Sub(Forward(Aeq, Aub, a), Scale(k, Forward(Aeq, Aub, b)));
    forall i | 0 <= i < |l|
      ensures l[i] == r[i]
    {
      if i < me {
        assert l[i] == MatVec(Aeq, Sub(a, Scale(k, b)))[i];
      } else {
        assert l[i] == MatVec(Aub, Sub(a, Scale(k, b)))[i - me];
      }
    }
  }

  /** `A.T (a - k b) = A.T a - k A.T b` for the block-stacked `A`. */
  lemma BackwardSubScale(Aeq: Matrix, Aub: Matrix, n: nat, a: Vector, b: Vector, k: real)
    requires Blocks(Aeq, Aub, n) && |a| == |b| == |Aeq| + |Aub|
    ensures Backward(Aeq, Aub, n, Sub(a, Scale(k, b)))
            == Sub(Backward(Aeq, Aub, n, a), Scale(k, Backward(Aeq, Aub, n, b)))
  {
    var m := |Aeq|;
    var c := Sub(a, Scale(k, b));
    SubScaleSlices(a, b, k, m);
    MatTVecSubScale(Aeq, n, a[..m], b[..m], k);
    MatTVecSubScale(Aub, n, a[m..], b[m..], k);
    AddSubScale(MatTVec(Aeq, n, a[..m]), MatTVec(Aub, n, a[m..]),
                MatTVec(Aeq, n, b[..m]), MatTVec(Aub, n, b[m..]), k);
  }

  /** `apply_A_kernel`: writes `A_eq x` into `out[:m_eq]` and `A_ub x` into
      `out[m_eq:]`. The result is the product with the stacked matrix and
      keeps nothing of the buffer's previous contents. */
  function ApplyAKernel(x: Vector, Aeq: Matrix, Aub: Matrix, out: Vector): (r: Vector)
    requires Blocks(Aeq, Aub, |x|) && |out| == |Aeq| + |Aub|
    ensures |r| == |Aeq| + |Aub|
    ensures r[..|Aeq|] == MatVec(Aeq, x)
    ensures r[|Aeq|..] == MatVec(Aub, x)
    ensures r == MatVec(Aeq + Aub, x)
  {
    MatVecConcat(Aeq, Aub, x);
    Overwrite(Overwrite(out, 0, MatVec(Aeq, x)), |Aeq|, MatVec(Aub, x))
  }

  /** `apply_At_kernel`: overwrites the whole length-`n` buffer with
      `A_eq.T y[:m_eq] + A_ub.T y[m_eq:]`, which is the transpose of the
      stacked matrix applied to `y`. */
  function ApplyAtKernel(y: Vector, Aeq: Matrix, Aub: Matrix, out: Vector): (r: Vector)
    requires Blocks(Aeq, Aub, |out|) && |y| == |Aeq| + |Aub|
    ensures |r| == |out|
    ensures IsMatrix(Aeq + Aub, |y|, |out|)
    ensures r == MatTVec(Aeq + Aub, |out|, y)
  {
    assert y == y[..|Aeq|] + y[|Aeq|..];
    MatTVecConcat(Aeq, Aub, |out|, y[..|Aeq|], y[|Aeq|..]);
    Overwrite(out, 0, Backward(Aeq, Aub, |out|, y))
  }

  /** The kernels' results depend only on their operands, never on the
      buffer they are written into. */
  lemma BuffersOverwritten(x: Vector, y: Vector, Aeq: Matrix, Aub: Matrix, out1: Vector, out2: Vector,
                           outT1: Vector, outT2: Vector)
    requires Blocks(Aeq, Aub, |x|) && |out1| == |out2| == |Aeq| + |Aub|
    requires |y| == |Aeq| + |Aub| && |outT1| == |outT2| == |x|
    ensures ApplyAKernel(x, Aeq, Aub, out1) == ApplyAKernel(x, Aeq, Aub, out2) == Forward(Aeq, Aub, x)
    ensures ApplyAtKernel(y, Aeq, Aub, outT1) == ApplyAtKernel(y, Aeq, Aub, outT2) == Backward(Aeq, Aub, |x|, y)
  {
    var r := ApplyAKernel(x, Aeq, Aub, out1);
    assert r == r[..|Aeq|] + r[|Aeq|..];
    assert y == y[..|Aeq|] + y[|Aeq|..];
    MatTVecConcat(Aeq, Aub, |x|, y[..|Aeq|], y[|Aeq|..]);
  }

  /** Adjoint identity of the stacked operator: `<A x, y> = <x, A.T y>`. */
  lemma StackedAdjoint(Aeq: Matrix, Aub: Matrix, x: Vector, y: Vector)
    requires Blocks(Aeq, Aub, |x|) && |y| == |Aeq| + |Aub|
    ensures Dot(Forward(Aeq, Aub, x), y) == Dot(x, Backward(Aeq, Aub, |x|, y))
  {
    var n := |x|;
    var y1, y2 := y[..|Aeq|], y[|Aeq|..];
    assert y == y1 + y2;
    DotConcat(MatVec(Aeq, x), MatVec(Aub, x), y1, y2);
    Adjoint(Aeq, n, x, y1);
    Adjoint(Aub, n, x, y2);
    DotAddRight(x, MatTVec(Aeq, n, y1), MatTVec(Aub, n, y2));
  }

  /** `x + A.T (A x)`, the matrix-free `I + A.T A`. */
  function ApplyIpAtA(Aeq: Matrix, Aub: Matrix, x: Vector): (r: Vector)
    requires Blocks(Aeq, Aub, |x|)
    ensures |r| == |x|
  {
    Add(Backward(Aeq, Aub, |x|, Forward(Aeq, Aub, x)), x)
  }

  /** `I + A.T A` is positive definite: `<x, (I + A.T A) x> = |x|^2 + |A x|^2`. */
  lemma IpAtAPositiveDefinite(Aeq: Matrix, Aub: Matrix, x: Vector)
    requires Blocks(Aeq, Aub, |x|)
    ensures Dot(x, ApplyIpAtA(Aeq, Aub, x)) == Dot(x, x) + Dot(Forward(Aeq, Aub, x), Forward(Aeq, Aub, x))
    ensures Dot(x, ApplyIpAtA(Aeq, Aub, x)) >= Dot(x, x)
  {
    var ax := Forward(Aeq, Aub, x);
    var atax := Backward(Aeq, Aub, |x|, ax);
    DotAddRight(x, atax, x);
    assert Dot(x, ApplyIpAtA(Aeq, Aub, x)) == Dot(x, atax) + Dot(x, x);
    StackedAdjoint(Aeq, Aub, x, ax);
    assert Dot(x, atax) == Dot(ax, ax);
    DotSelfNonneg(ax);
  }

  /** `I + A.T A` is symmetric: `<z, (I + A.T A) x> = <(I + A.T A) z, x>`. */
  lemma IpAtASymmetric(Aeq: Matrix, Aub: Matrix, x: Vector, z: Vector)
    requires Blocks(Aeq, Aub, |x|) && |z| == |x|
    ensures Dot(z, ApplyIpAtA(Aeq, Aub, x)) == Dot(ApplyIpAtA(Aeq, Aub, z), x)
  {
    var ax, az := Forward(Aeq, Aub, x), Forward(Aeq, Aub, z);
    DotAddRight(z, Backward(Aeq, Aub, |x|, ax), x);
    StackedAdjoint(Aeq, Aub, z, ax);
    DotComm(ApplyIpAtA(Aeq, Aub, z), x);
    DotAddRight(x, Backward(Aeq, Aub, |x|, az), z);
    StackedAdjoint(Aeq, Aub, x, az);
    DotComm(az, ax);
    DotComm(x, z);
  }
}
