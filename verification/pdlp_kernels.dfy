/** The primal-dual solver's kernels: plain `K @ x` and `K.T @ y` for a
    single constraint matrix `K` of width `cols`. */
module PdlpKernels {
  import opened LinAlg

  /** `apply_K_kernel`: `K @ x`, one entry per row of `K`. */
  function ApplyKKernel(x: Vector, K: Matrix): (r: Vector)
    requires IsMatrix(K, |K|, |x|)
    ensures |r| == |K|
    ensures forall i :: 0 <= i < |K| ==> r[i] == Dot(K[i], x)
  {
    MatVec(K, x)
  }

  /** `apply_Kt_kernel`: `K.T @ y`, one entry per column of `K`. It is the
      row combination `y[0] K[0] + y[1] K[1] + ...`. */
  function ApplyKtKernel(y: Vector, K: Matrix, cols: nat): (r: Vector)
    requires IsMatrix(K, |y|, cols)
    ensures |r| == cols
    ensures r == RowCombination(K, cols, y)
  {
    MatTVecIsRowCombination(K, cols, y);
    MatTVec(K, cols, y)
  }

  /** Adjoint identity `<K x, y> = <x, K.T y>`. */
  lemma KernelsAdjoint(K: Matrix, cols: nat, x: Vector, y: Vector)
    requires IsMatrix(K, |y|, cols) && |x| == cols
    ensures Dot(ApplyKKernel(x, K), y) == Dot(x, ApplyKtKernel(y, K, cols))
  {
    Adjoint(K, cols, x, y);
  }

  /** Both kernels are linear and send zero to zero. */
  lemma KernelsLinear(K: Matrix, cols: nat, a: Vector, b: Vector, y1: Vector, y2: Vector, k: real)
    requires |a| == |b| == cols && |y1| == |y2| && IsMatrix(K, |y1|, cols)
    ensures ApplyKKernel(Add(a, b), K) == Add(ApplyKKernel(a, K), ApplyKKernel(b, K))
    ensures ApplyKKernel(Scale(k, a), K) == Scale(k, ApplyKKernel(a, K))
    ensures ApplyKKernel(Zeros(cols), K) == Zeros(|K|)
    ensures ApplyKtKernel(Add(y1, y2), K, cols) == Add(ApplyKtKernel(y1, K, cols), ApplyKtKernel(y2, K, cols))
    ensures ApplyKtKernel(Scale(k, y1), K, cols) == Scale(k, ApplyKtKernel(y1, K, cols))
    ensures ApplyKtKernel(Zeros(|K|), K, cols) == Zeros(cols)
  {
    MatVecLinear(K, a, b, k);
    MatTVecLinear(K, cols, y1, y2, k);
  }
}
