/** The homogeneous self-dual embedding both splitting solvers iterate on:
    a pair `(u, v)` of vectors of length `n + m + 1`, the last coordinate
    being the homogenizing one. */
module SelfDual {
  import opened LinAlg

  datatype Embedding = Embedding(u: Vector, v: Vector)

  /** Both halves have `len` ordinary coordinates plus the homogenizing one. */
  predicate Sized(e: Embedding, len: nat) {
    |e.u| == len + 1 && |e.v| == len + 1
  }

  /** The starting pair: `u = 0`, `v = 0` except `v[-1] = 1`. */
  function Start(len: nat): (e: Embedding)
    ensures Sized(e, len)
    ensures forall i :: 0 <= i < |e.u| ==> e.u[i] == 0.0
    ensures forall i :: 0 <= i < len ==> e.v[i] == 0.0
    ensures e.v[len] == 1.0
  {
    Embedding(Zeros(len + 1), Zeros(len) + [1.0])
  }

  /** `rhs = w[:-1] - w[-1] h` with `w = u + v`: the right-hand side of the
      linear system each iteration solves. */
  function StepRhs(e: Embedding, h: Vector): (rhs: Vector)
    requires Sized(e, |h|)
    ensures |rhs| == |h|
    ensures forall i :: 0 <= i < |rhs| ==>
              rhs[i] == (e.u[i] + e.v[i]) - (e.u[|h|] + e.v[|h|]) * h[i]
  {
    var w := Add(e.u, e.v);
    Sub(w[..|h|], Scale(w[|h|], h))
  }
}
