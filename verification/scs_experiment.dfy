/** The splitting solver of the standalone experiment script (`linprog10`):
    operator closures, the constant `M^-1 h` vector, one iteration over the
    homogeneous self-dual embedding `(u, v)`, the termination cascade and the
    outer loop. */
module ScsExperiment {
  import opened Wrappers
  import opened LinAlg
  import opened Problem
  import opened Termination
  import Ops = ScsKernels
  import Cone
  import Cadence
  import opened SelfDual

  /** Matrix formats accepted at the start of `linprog10`: both host dense
      arrays of exactly `np.ndarray` type, or both host sparse matrices;
      anything else fails the assertion. */
  function FormatAccepted(eqKind: Storage, ubKind: Storage): (ok: bool)
    ensures ok ==> eqKind == ubKind
    ensures ok <==> eqKind == ubKind && (eqKind == HostDense || eqKind == HostSparse)
  {
    (ubKind == HostDense && eqKind == HostDense) || (ubKind.HostSparse? && eqKind.HostSparse?)
  }

  // ---------------------------------------------------------------------
  // Operator closures

  /** The `apply_At` closure: `out[:] = A_eq.T y[:m_eq]`, then
      `out[:] += A_ub.T y[m_eq:]`. The two-pass accumulation equals the
      transpose of the stacked matrix applied to `y`. */
  function AccumulateAt(lp: Lp, y: Vector, out: Vector): (r: Vector)
    requires WellFormed(lp) && |y| == M(lp) && |out| == N(lp)
    ensures |r| == N(lp)
    ensures r == Ops.Backward(lp.Aeq, lp.Aub, N(lp), y)
    ensures IsMatrix(lp.Aeq + lp.Aub, |y|, N(lp)) && r == MatTVec(lp.Aeq + lp.Aub, N(lp), y)
  {
    var n, meq := N(lp), Meq(lp);
    assert y == y[..meq] + y[meq..];
    MatTVecConcat(lp.Aeq, lp.Aub, n, y[..meq], y[meq..]);
    var first := Ops.Overwrite(out, 0, MatTVec(lp.Aeq, n, y[..meq]));
    Add(first, MatTVec(lp.Aub, n, y[meq..]))
  }

  /** The `apply_IpAtA` closure: `apply_At(apply_A(x))` accumulated into the
      shared buffer, then `x` added. It is the matrix-free `I + A.T A`. */
  function ApplyIpAtAClosure(lp: Lp, x: Vector, outA: Vector, outAt: Vector): (r: Vector)
    requires WellFormed(lp) && |x| == N(lp) && |outA| == M(lp) && |outAt| == N(lp)
    ensures r == Ops.ApplyIpAtA(lp.Aeq, lp.Aub, x)
    ensures Dot(x, r) >= Dot(x, x)
  {
    Ops.IpAtAPositiveDefinite(lp.Aeq, lp.Aub, x);
    var ax := Ops.ApplyAKernel(x, lp.Aeq, lp.Aub, outA);
    assert ax == ax[..Meq(lp)] + ax[Meq(lp)..];
    Add(AccumulateAt(lp, ax, outAt), x)
  }

  /** The closures are adjoint whatever the buffers hold. */
  lemma ClosuresAdjoint(lp: Lp, x: Vector, y: Vector, outA: Vector, outAt: Vector)
    requires WellFormed(lp) && |x| == N(lp) && |y| == M(lp) && |outA| == M(lp) && |outAt| == N(lp)
    ensures Dot(Ops.ApplyAKernel(x, lp.Aeq, lp.Aub, outA), y) == Dot(x, AccumulateAt(lp, y, outAt))
  {
    var r := Ops.ApplyAKernel(x, lp.Aeq, lp.Aub, outA);
    assert r == r[..Meq(lp)] + r[Meq(lp)..];
    Ops.StackedAdjoint(lp.Aeq, lp.Aub, x, y);
  }

  // ---------------------------------------------------------------------
  // Setup

  /** Problem data read by every iteration: the LP, `h = c ++ b` and the
      constant vector `M^-1 h`. */
  datatype Setup = Setup(lp: Lp, h: Vector, minvh: Vector)

  predicate SetupValid(s: Setup) {
    WellFormed(s.lp) && s.h == Stacked(s.lp) && |s.minvh| == |s.h|
  }

  /** The right-hand side handed to the inner solve when forming `M^-1 h`:
      `h[:n] - A.T h[n:]`. */
  function SetupRhs(lp: Lp): (r: Vector)
    requires WellFormed(lp)
    ensures |r| == N(lp)
  {
    var h, n := Stacked(lp), N(lp);
    Sub(h[..n], Ops.Backward(lp.Aeq, lp.Aub, n, h[n..]))
  }

  /** `Minvh[:n]` is the inner solve of `(I + A.T A) z = c - A.T b` and
      `Minvh[n:] = b + A z`. */
  function MinvH(lp: Lp, cg: Ops.InnerSolve): (r: Vector)
    requires WellFormed(lp) && Ops.PreservesLength(cg)
    ensures |r| == N(lp) + M(lp)
    ensures r[..N(lp)] == cg(SetupRhs(lp))
    ensures r[N(lp)..] == Add(Rhs(lp), Ops.Forward(lp.Aeq, lp.Aub, r[..N(lp)]))
  {
    var h, n := Stacked(lp), N(lp);
    var z := cg(SetupRhs(lp));
    assert h[n..] == Rhs(lp);
    z + Add(h[n..], Ops.Forward(lp.Aeq, lp.Aub, z))
  }

  function MakeSetup(lp: Lp, cg: Ops.InnerSolve): (s: Setup)
    requires WellFormed(lp) && Ops.PreservesLength(cg)
    ensures SetupValid(s)
  {
    Setup(lp, Stacked(lp), MinvH(lp, cg))
  }

  /** The constant divisor `1 + h.T Minvh` of the rank-one correction. */
  function Denominator(s: Setup): real
    requires |s.minvh| == |s.h|
  {
    1.0 + Dot(s.h, s.minvh)
  }

  /** The inner solve is exact on the reduced right-hand side `rhs`. */
  predicate ExactAt(lp: Lp, cg: Ops.InnerSolve, rhs: Vector)
    requires WellFormed(lp) && Ops.PreservesLength(cg) && |rhs| == N(lp)
  {
    Ops.ApplyIpAtA(lp.Aeq, lp.Aub, cg(rhs)) == rhs
  }

  /** The inner solve is exact on the setup system. */
  predicate ExactOnSetup(lp: Lp, cg: Ops.InnerSolve)
    requires WellFormed(lp) && Ops.PreservesLength(cg)
  {
    ExactAt(lp, cg, SetupRhs(lp))
  }

  /** Block elimination for the embedding system `[I A.T; -A I] [z; t] = rhs`:
      if `z` solves the reduced system `(I + A.T A) z = rhs[:n] - A.T rhs[n:]`
      and `t = rhs[n:] + A z`, the first block row `z + A.T t = rhs[:n]` holds
      as well (the second holds by the choice of `t`). */
  lemma EliminationSolvesFirstRow(lp: Lp, rhs: Vector, z: Vector)
    requires WellFormed(lp) && |rhs| == N(lp) + M(lp) && |z| == N(lp)
    requires Ops.ApplyIpAtA(lp.Aeq, lp.Aub, z)
             == Sub(rhs[..N(lp)], Ops.Backward(lp.Aeq, lp.Aub, N(lp), rhs[N(lp)..]))
    ensures Add(z, Ops.Backward(lp.Aeq, lp.Aub, N(lp), Add(rhs[N(lp)..], Ops.Forward(lp.Aeq, lp.Aub, z))))
            == rhs[..N(lp)]
  {
    var n, Aeq, Aub := N(lp), lp.Aeq, lp.Aub;
    var az := Ops.Forward(Aeq, Aub, z);
    var bb := Ops.Backward(Aeq, Aub, n, rhs[n..]);
    var baz := Ops.Backward(Aeq, Aub, n, az);
    Ops.BackwardAdditive(Aeq, Aub, n, rhs[n..], az);
    var lhs := Add(z, Ops.Backward(Aeq, Aub, n, Add(rhs[n..], az)));
    forall i | 0 <= i < n
      ensures lhs[i] == rhs[i]
    {
      assert Ops.ApplyIpAtA(Aeq, Aub, z)[i] == baz[i] + z[i] == rhs[i] - bb[i];
    }
  }

  /** With an exact inner solve `Minvh` solves the embedding system
      `[I A.T; -A I] Minvh = h`: both block rows hold. */
  lemma MinvHSolvesEmbedding(lp: Lp, cg: Ops.InnerSolve)
    requires WellFormed(lp) && Ops.PreservesLength(cg) && ExactOnSetup(lp, cg)
    ensures var r, n := MinvH(lp, cg), N(lp);
            && Add(r[..n], Ops.Backward(lp.Aeq, lp.Aub, n, r[n..])) == lp.c
            && Sub(r[n..], Ops.Forward(lp.Aeq, lp.Aub, r[..n])) == Rhs(lp)
  {
    var r, n, h := MinvH(lp, cg), N(lp), Stacked(lp);
    var z := r[..n];
    assert h[..n] == lp.c && h[n..] == Rhs(lp);
    assert Ops.ApplyIpAtA(lp.Aeq, lp.Aub, z) == SetupRhs(lp);
    EliminationSolvesFirstRow(lp, h, z);
    SubAddCancel(h[n..], Ops.Forward(lp.Aeq, lp.Aub, z));
  }

  /** With an exact inner solve, `h.T Minvh = |z|^2 + |A z + b|^2`, so the
      correction's divisor is at least one and never vanishes. */
  lemma ExactSolveKeepsDenominatorPositive(lp: Lp, cg: Ops.InnerSolve)
    requires WellFormed(lp) && Ops.PreservesLength(cg) && ExactOnSetup(lp, cg)
    ensures Denominator(MakeSetup(lp, cg)) >= 1.0
  {
    var n, h, b := N(lp), Stacked(lp), Rhs(lp);
    var Aeq, Aub := lp.Aeq, lp.Aub;
    var z := cg(SetupRhs(lp));
    var az := Ops.Forward(Aeq, Aub, z);
    var atb := Ops.Backward(Aeq, Aub, n, b);
    var ipz := Ops.ApplyIpAtA(Aeq, Aub, z);
    var minvh := MinvH(lp, cg);
    assert h == lp.c + b && h[n..] == b;
    assert minvh == z + Add(b, az);
    // Dot(h, Minvh) splits into the cost part and the right-hand-side part.
    DotConcat(lp.c, b, z, Add(b, az));
    // c = (I + A.T A) z + A.T b, by exactness of the inner solve.
    assert lp.c == Add(ipz, atb);
    DotComm(lp.c, z);
    DotAddRight(z, ipz, atb);
    DotAddRight(z, Ops.Backward(Aeq, Aub, n, az), z);
    Ops.StackedAdjoint(Aeq, Aub, z, az);
    Ops.StackedAdjoint(Aeq, Aub, z, b);
    assert Dot(lp.c, z) == Dot(az, az) + Dot(z, z) + Dot(az, b);
    DotAddRight(b, b, az);
    DotComm(b, az);
    DotSquareOfSum(az, b);
    DotSelfNonneg(z);
    DotSelfNonneg(Add(az, b));
  }

  // ---------------------------------------------------------------------
  // One iteration

  predicate Shaped(s: Setup, e: Embedding) {
    Sized(e, |s.h|)
  }

  /** Length of the free block: primal variables and equality duals. */
  function Free(s: Setup): nat
    requires SetupValid(s)
  {
    N(s.lp) + Meq(s.lp)
  }

  /** The starting pair for this problem. */
  function Initial(s: Setup): Embedding {
    Start(|s.h|)
  }

  /** The right-hand side of the reduced system `(I + A.T A) z = rhs[:n] - A.T rhs[n:]`. */
  function ReducedRhs(s: Setup, e: Embedding): (r: Vector)
    requires SetupValid(s) && Shaped(s, e)
    ensures |r| == N(s.lp)
  {
    var rhs, n := StepRhs(e, s.h), N(s.lp);
    Sub(rhs[..n], Ops.Backward(s.lp.Aeq, s.lp.Aub, n, rhs[n..]))
  }

  /** `utilde[:-1]` before the rank-one correction (lines 56-57): the inner
      solve of the reduced system for the primal block, and a constraint
      block that makes the constraint rows hold exactly. */
  function Solved(s: Setup, cg: Ops.InnerSolve, e: Embedding): (r: Vector)
    requires SetupValid(s) && Ops.PreservesLength(cg) && Shaped(s, e)
    ensures |r| == |s.h|
    ensures r[..N(s.lp)] == cg(ReducedRhs(s, e))
    ensures Sub(r[N(s.lp)..], Ops.Forward(s.lp.Aeq, s.lp.Aub, r[..N(s.lp)])) == StepRhs(e, s.h)[N(s.lp)..]
  {
    var n, rhs := N(s.lp), StepRhs(e, s.h);
    var z := cg(ReducedRhs(s, e));
    assert |z| == n && |rhs[n..]| == |s.lp.Aeq| + |s.lp.Aub|;
    var t := Add(rhs[n..], Ops.Forward(s.lp.Aeq, s.lp.Aub, z));
    SubAddCancel(rhs[n..], Ops.Forward(s.lp.Aeq, s.lp.Aub, z));
    assert (z + t)[..n] == z && (z + t)[n..] == t;
    z + t
  }

  /** With an exact inner solve, `utilde[:-1]` before the correction solves
      the embedding system `[I A.T; -A I] r = rhs` with `rhs = w[:-1] - w[-1] h`. */
  lemma SolvedSolvesEmbedding(s: Setup, cg: Ops.InnerSolve, e: Embedding)
    requires SetupValid(s) && Ops.PreservesLength(cg) && Shaped(s, e)
    requires ExactAt(s.lp, cg, ReducedRhs(s, e))
    ensures var r, n := Solved(s, cg, e), N(s.lp);
            && Add(r[..n], Ops.Backward(s.lp.Aeq, s.lp.Aub, n, r[n..])) == StepRhs(e, s.h)[..n]
            && Sub(r[n..], Ops.Forward(s.lp.Aeq, s.lp.Aub, r[..n])) == StepRhs(e, s.h)[n..]
  {
    var r, n := Solved(s, cg, e), N(s.lp);
    EliminationSolvesFirstRow(s.lp, StepRhs(e, s.h), r[..n]);
  }

  /** `h.T (x - k m) d = h.T x` when `d = 1 + h.T m` and `k = h.T x / d`. */
  lemma RankOneCorrection(h: Vector, x: Vector, m: Vector, d: real)
    requires |h| == |x| == |m| && d == 1.0 + Dot(h, m) && d != 0.0
    ensures Dot(h, Sub(x, Scale(Dot(h, x) / d, m))) * d == Dot(h, x)
    ensures Dot(h, Sub(x, Scale(Dot(h, x) / d, m))) == Dot(h, x) / d
  {
    var a := Dot(h, x);
    var k := a / d;
    DotSubRight(h, x, Scale(k, m));
    DotScaleRight(h, k, m);
    ScalarCorrection(a, Dot(h, m), d);
  }

  /** The scalar identity behind the correction: with `d = 1 + p`,
      `a - (a / d) p = a / d`, so multiplying back by `d` gives `a`. */
  lemma ScalarCorrection(a: real, p: real, d: real)
    requires d == 1.0 + p && d != 0.0
    ensures (a - (a / d) * p) * d == a
    ensures a - (a / d) * p == a / d
  {
    assert (a / d) * d == a;
    assert (a / d) * p == (a / d) * d - a / d;
  }

  /** The rank-one correction of line 58, `x - (h.T x / (1 + h.T Minvh)) Minvh`:
      it divides the component of `x` along `h` by `1 + h.T Minvh`. */
  function Correct(s: Setup, x: Vector): (r: Vector)
    requires |s.minvh| == |s.h| == |x| && Denominator(s) != 0.0
    ensures |r| == |x|
    ensures Dot(s.h, r) * Denominator(s) == Dot(s.h, x)
    ensures Dot(s.h, r) == Dot(s.h, x) / Denominator(s)
  {
    var d := Denominator(s);
    RankOneCorrection(s.h, x, s.minvh, d);
    Sub(x, Scale(Dot(s.h, x) / d, s.minvh))
  }

  /** The intermediate `utilde`: the corrected solve, and then
      `utilde[-1] = w[-1] + h.T utilde[:-1]` (line 60). */
  function Utilde(s: Setup, cg: Ops.InnerSolve, e: Embedding): (ut: Vector)
    requires SetupValid(s) && Ops.PreservesLength(cg) && Shaped(s, e) && Denominator(s) != 0.0
    ensures |ut| == |s.h| + 1
    ensures ut[..|s.h|] == Correct(s, Solved(s, cg, e))
    ensures ut[|s.h|] == (e.u[|s.h|] + e.v[|s.h|]) + Dot(s.h, ut[..|s.h|])
  {
    var head := Correct(s, Solved(s, cg, e));
    var last := (e.u[|s.h|] + e.v[|s.h|]) + Dot(s.h, head);
    assert (head + [last])[..|s.h|] == head;
    head + [last]
  }

  /** The embedding operator `[I A.T; -A I]` applied to `r = (z, t)`: the
      block rows `z + A.T t` and `t - A z` the inner solve eliminates. */
  function Embed(lp: Lp, r: Vector): (q: Vector)
    requires WellFormed(lp) && |r| == N(lp) + M(lp)
    ensures |q| == |r|
    ensures q[..N(lp)] == Add(r[..N(lp)], Ops.Backward(lp.Aeq, lp.Aub, N(lp), r[N(lp)..]))
    ensures q[N(lp)..] == Sub(r[N(lp)..], Ops.Forward(lp.Aeq, lp.Aub, r[..N(lp)]))
  {
    var n := N(lp);
    Add(r[..n], Ops.Backward(lp.Aeq, lp.Aub, n, r[n..])) + Sub(r[n..], Ops.Forward(lp.Aeq, lp.Aub, r[..n]))
  }

  /** The embedding operator is linear: `E (a - k b) = E a - k (E b)`. */
  lemma EmbedSubScale(lp: Lp, a: Vector, b: Vector, k: real)
    requires WellFormed(lp) && |a| == |b| == N(lp) + M(lp)
    ensures Embed(lp, Sub(a, Scale(k, b))) == Sub(Embed(lp, a), Scale(k, Embed(lp, b)))
  {
    var n, Aeq, Aub := N(lp), lp.Aeq, lp.Aub;
    var c := Sub(a, Scale(k, b));
    SubScaleSlices(a, b, k, n);
    Ops.ForwardSubScale(Aeq, Aub, a[..n], b[..n], k);
    Ops.BackwardSubScale(Aeq, Aub, n, a[n..], b[n..], k);
    var ba, bb := Ops.Backward(Aeq, Aub, n, a[n..]), Ops.Backward(Aeq, Aub, n, b[n..]);
    var fa, fb := Ops.Forward(Aeq, Aub, a[..n]), Ops.Forward(Aeq, Aub, b[..n]);
    AddSubScale(a[..n], ba, b[..n], bb, k);
    SubSubScale(a[n..], fa, b[n..], fb, k);
    ConcatSubScale(Add(a[..n], ba), Sub(a[n..], fa), Add(b[..n], bb), Sub(b[n..], fb), k);
  }

  /** With exact inner solves the corrected head `y` of `utilde` solves the
      embedding system with the `h` column moved to the right-hand side:
      `[I A.T; -A I] y = (w[:-1] - w[-1] h) - (h.T y) h`. */
  lemma CorrectedHead(lp: Lp, cg: Ops.InnerSolve, e: Embedding)
    requires WellFormed(lp) && Ops.PreservesLength(cg) && ExactOnSetup(lp, cg)
    requires Shaped(MakeSetup(lp, cg), e) && ExactAt(lp, cg, ReducedRhs(MakeSetup(lp, cg), e))
    ensures Denominator(MakeSetup(lp, cg)) >= 1.0
    ensures var s := MakeSetup(lp, cg);
            var y := Correct(s, Solved(s, cg, e));
            Embed(lp, y) == Sub(StepRhs(e, s.h), Scale(Dot(s.h, y), s.h))
  {
    ExactSolveKeepsDenominatorPositive(lp, cg);
    var s := MakeSetup(lp, cg);
    var n, h, mh, d := N(lp), s.h, s.minvh, Denominator(s);
    var x := Solved(s, cg, e);
    var rhs := StepRhs(e, h);
    SolvedSolvesEmbedding(s, cg, e);
    assert Embed(lp, x) == rhs by {
      assert rhs == rhs[..n] + rhs[n..];
    }
    MinvHSolvesEmbedding(lp, cg);
    assert Embed(lp, mh) == h by {
      assert h == lp.c + Rhs(lp);
    }
    var k := Dot(h, x) / d;
    var y := Correct(s, x);
    assert y == Sub(x, Scale(k, mh));
    EmbedSubScale(lp, x, mh, k);
  }

  /** Moving `a h` back to the left: if `q = (w[:-1] - w[-1] h) - a h` and
      `last = w[-1] + a` then `q + last h = w[:-1]`. */
  lemma FinishSelfDual(e: Embedding, h: Vector, q: Vector, a: real, last: real)
    requires Sized(e, |h|) && |q| == |h| && q == Sub(StepRhs(e, h), Scale(a, h))
    requires last == (e.u[|h|] + e.v[|h|]) + a
    ensures Add(q, Scale(last, h)) == Add(e.u, e.v)[..|h|]
  {
    var wl := e.u[|h|] + e.v[|h|];
    var l, r := Add(q, Scale(last, h)), Add(e.u, e.v)[..|h|];
    forall i | 0 <= i < |h|
      ensures l[i] == r[i]
    {
      assert q[i] == ((e.u[i] + e.v[i]) - wl * h[i]) - a * h[i];
      assert (wl + a) * h[i] == wl * h[i] + a * h[i];
    }
  }

  /** `utilde` solves the whole self-dual system `(I + Q) utilde = w` when the
      inner solves are exact: the first `n + m` rows read
      `[I A.T; -A I] utilde[:-1] + utilde[-1] h = w[:-1]` and the last row
      reads `utilde[-1] - h.T utilde[:-1] = w[-1]`. The rank-one correction
      and the formula for `utilde[-1]` are exactly what eliminates the `h`
      column. */
  lemma UtildeSolvesSelfDual(lp: Lp, cg: Ops.InnerSolve, e: Embedding)
    requires WellFormed(lp) && Ops.PreservesLength(cg) && ExactOnSetup(lp, cg)
    requires Shaped(MakeSetup(lp, cg), e) && ExactAt(lp, cg, ReducedRhs(MakeSetup(lp, cg), e))
    ensures Denominator(MakeSetup(lp, cg)) >= 1.0
    ensures var s := MakeSetup(lp, cg);
            var ut, l := Utilde(s, cg, e), |s.h|;
            && Add(Embed(lp, ut[..l]), Scale(ut[l], s.h)) == Add(e.u, e.v)[..l]
            && ut[l] - Dot(s.h, ut[..l]) == e.u[l] + e.v[l]
  {
    CorrectedHead(lp, cg, e);
    var s := MakeSetup(lp, cg);
    var ut := Utilde(s, cg, e);
    var l := |s.h|;
    FinishSelfDual(e, s.h, Embed(lp, ut[..l]), Dot(s.h, ut[..l]), ut[l]);
  }

  /** One iteration: `u` becomes the cone projection of `utilde - v` (free
      below `n + m_eq`, clipped at zero from there on, the homogenizing
      coordinate included) and `v` becomes `v + u_new - utilde`. */
  function Step(s: Setup, cg: Ops.InnerSolve, e: Embedding): (r: Embedding)
    requires SetupValid(s) && Ops.PreservesLength(cg) && Shaped(s, e) && Denominator(s) != 0.0
    ensures Shaped(s, r)
    ensures forall i :: 0 <= i < Free(s) ==> r.u[i] == Utilde(s, cg, e)[i] - e.v[i]
    ensures forall i :: Free(s) <= i < |r.u| ==> r.u[i] == PosPart(Utilde(s, cg, e)[i] - e.v[i])
    ensures r.v == Add(e.v, Sub(r.u, Utilde(s, cg, e)))
  {
    var next := Cone.Update(Utilde(s, cg, e), e.v, Free(s));
    Embedding(next.0, next.1)
  }

  /** After any iteration the pair is complementary: `u` in the cone, `v`
      zero on the free block and nonnegative on the clipped block, and
      `u[i] v[i] = 0` everywhere. */
  lemma StepComplementary(s: Setup, cg: Ops.InnerSolve, e: Embedding)
    requires SetupValid(s) && Ops.PreservesLength(cg) && Shaped(s, e) && Denominator(s) != 0.0
    ensures Cone.Complementary(Step(s, cg, e).u, Step(s, cg, e).v, Free(s))
  {
  }

  /** The state after `k` iterations from the initial pair. */
  function Run(s: Setup, cg: Ops.InnerSolve, k: nat): (e: Embedding)
    requires SetupValid(s) && Ops.PreservesLength(cg) && (k == 0 || Denominator(s) != 0.0)
    ensures Shaped(s, e)
    ensures e.u[|s.h|] >= 0.0
    ensures k > 0 ==> Cone.Complementary(e.u, e.v, Free(s))
  {
    RunInvariant(s, cg, k);
    Cadence.Iterate(StepFn(s, cg), Initial(s), k)
  }

  /** Every iterate keeps its shape and `u[-1] >= 0`, and from the first
      iteration on is complementary. */
  lemma {:induction false} RunInvariant(s: Setup, cg: Ops.InnerSolve, k: nat)
    requires SetupValid(s) && Ops.PreservesLength(cg) && (k == 0 || Denominator(s) != 0.0)
    ensures var e := Cadence.Iterate(StepFn(s, cg), Initial(s), k);
            && Shaped(s, e) && e.u[|s.h|] >= 0.0
            && (k > 0 ==> Cone.Complementary(e.u, e.v, Free(s)))
  {
    if k > 0 {
      RunInvariant(s, cg, k - 1);
      StepFnComplementary(s, cg, Cadence.Iterate(StepFn(s, cg), Initial(s), k - 1));
    }
  }

  /** The loop body applied to a shaped pair gives a complementary pair. */
  lemma StepFnComplementary(s: Setup, cg: Ops.InnerSolve, e: Embedding)
    requires SetupValid(s) && Ops.PreservesLength(cg) && Denominator(s) != 0.0 && Shaped(s, e)
    ensures var r := StepFn(s, cg)(e);
            Shaped(s, r) && r.u[|s.h|] >= 0.0 && Cone.Complementary(r.u, r.v, Free(s))
  {
    StepComplementary(s, cg, e);
  }

  // ---------------------------------------------------------------------
  // Termination cascade

  /** Opaque diagnostic values at a check: the optimality residuals computed
      from the recovered point, and the norms `|A u[:n] + v[n:n+m]|` and
      `|A.T u[n:n+m]|` of the certificate tests. */
  datatype Diagnostics = Diagnostics(residuals: Residuals, primalRayNorm: real, dualRayNorm: real)

  datatype Verdict = Continue | Stop(status: Status)

  /** Solver parameters of `linprog10`. */
  datatype Config = Config(tolcheck: int, maxItr: int, eps: Tolerances, epsUnbounded: real, epsInfeasible: real)

  /** Everything numeric the model takes as given: the inner solve, the
      diagnostic values as a function of the iterate, and `|c|`, `|b|`. */
  datatype Numerics = Numerics(cg: Ops.InnerSolve, probe: (Vector, Vector) -> Diagnostics, cNorm: real, bNorm: real)

  /** A certificate test `rayNorm <= (-inner / dataNorm) eps`. A zero data
      norm only arises for zero data, where the inner product is zero and
      the floating-point quotient is NaN, so the test fails. */
  function RayCertified(rayNorm: real, inner: real, dataNorm: real, eps: real): (ok: bool)
    ensures dataNorm > 0.0 ==> (ok <==> rayNorm * dataNorm <= -inner * eps)
    ensures dataNorm == 0.0 ==> !ok
  {
    if dataNorm == 0.0 then false
    else
      ScaledComparison(rayNorm, -inner * eps, dataNorm);
      assert (-inner / dataNorm) * eps == (-inner * eps) / dataNorm;
      rayNorm <= (-inner / dataNorm) * eps
  }

  lemma ScaledComparison(a: real, b: real, d: real)
    ensures d > 0.0 ==> (a <= b / d <==> a * d <= b)
  {
    if d <= 0.0 {
    } else if a <= b / d {
      assert (b / d) * d == b;
      assert a * d <= (b / d) * d;
    } else {
      assert (b / d) * d == b;
      assert a * d > (b / d) * d;
    }
  }

  /** The check of lines 69-92: the optimality test only when `u[-1] > 0`,
      then unboundedness (`c.T u[:n]`), then infeasibility (`b.T u[n:n+m]`);
      the first to fire decides. */
  function Classify(s: Setup, e: Embedding, d: Diagnostics, cNorm: real, bNorm: real, cfg: Config): (r: Verdict)
    requires SetupValid(s) && Shaped(s, e)
    ensures r != Stop(IterationLimit)
    ensures r == Stop(Optimal) <==> e.u[|s.h|] > 0.0 && AllBelow(d.residuals, cfg.eps)
    ensures r == Stop(Unbounded) <==>
              !(e.u[|s.h|] > 0.0 && AllBelow(d.residuals, cfg.eps))
              && RayCertified(d.primalRayNorm, Dot(s.lp.c, e.u[..N(s.lp)]), cNorm, cfg.epsUnbounded)
    ensures r == Stop(Infeasible) <==>
              !(e.u[|s.h|] > 0.0 && AllBelow(d.residuals, cfg.eps))
              && !RayCertified(d.primalRayNorm, Dot(s.lp.c, e.u[..N(s.lp)]), cNorm, cfg.epsUnbounded)
              && RayCertified(d.dualRayNorm, Dot(Rhs(s.lp), e.u[N(s.lp)..|s.h|]), bNorm, cfg.epsInfeasible)
  {
    var n, nm := N(s.lp), |s.h|;
    assert s.h[..n] == s.lp.c && s.h[n..] == Rhs(s.lp);
    if e.u[nm] > 0.0 && AllBelow(d.residuals, cfg.eps) then Stop(Optimal)
    else if RayCertified(d.primalRayNorm, Dot(s.h[..n], e.u[..n]), cNorm, cfg.epsUnbounded) then Stop(Unbounded)
    else if RayCertified(d.dualRayNorm, Dot(s.h[n..], e.u[n..nm]), bNorm, cfg.epsInfeasible) then Stop(Infeasible)
    else Continue
  }

  /** While `u[-1] <= 0` the residual values are never consulted: only the
      certificate tests can stop the loop. */
  lemma ResidualsIgnoredUntilTauPositive(s: Setup, e: Embedding, d1: Diagnostics, d2: Diagnostics,
                                          cNorm: real, bNorm: real, cfg: Config)
    requires SetupValid(s) && Shaped(s, e) && e.u[|s.h|] <= 0.0
    requires d1.primalRayNorm == d2.primalRayNorm && d1.dualRayNorm == d2.dualRayNorm
    ensures Classify(s, e, d1, cNorm, bNorm, cfg) == Classify(s, e, d2, cNorm, bNorm, cfg)
    ensures Classify(s, e, d1, cNorm, bNorm, cfg) != Stop(Optimal)
  {
  }

  /** The verdict at a check, diagnostics taken from the probe. */
  function CheckAt(s: Setup, num: Numerics, cfg: Config, e: Embedding): Verdict
    requires SetupValid(s) && Shaped(s, e)
  {
    Classify(s, e, num.probe(e.u, e.v), num.cNorm, num.bNorm, cfg)
  }

  // ---------------------------------------------------------------------
  // Outer loop

  /** The loop body as a total map on pairs; shapes the model never reaches
      are left alone. */
  function StepFn(s: Setup, cg: Ops.InnerSolve): Embedding -> Embedding
    requires SetupValid(s) && Ops.PreservesLength(cg)
  {
    e => if Shaped(s, e) && Denominator(s) != 0.0 then Step(s, cg, e) else e
  }

  /** The stopping test at a check: some verdict fires. */
  function StopFn(s: Setup, num: Numerics, cfg: Config): Embedding -> bool
    requires SetupValid(s)
  {
    e => Shaped(s, e) && CheckAt(s, num, cfg, e).Stop?
  }

  /** Every checkpoint the loop went past had its verdict at `Continue`. */
  lemma PassedCheckContinues(s: Setup, num: Numerics, cfg: Config, k: nat, j: nat)
    requires SetupValid(s) && Ops.PreservesLength(num.cg) && Denominator(s) != 0.0 && cfg.tolcheck != 0
    requires Cadence.PassedAll(StepFn(s, num.cg), StopFn(s, num, cfg), Initial(s), 0, cfg.tolcheck, k)
    requires 1 <= j <= k && j % cfg.tolcheck == 0
    ensures CheckAt(s, num, cfg, Run(s, num.cg, j)) == Continue
  {
    Cadence.PassedAllAt(StepFn(s, num.cg), StopFn(s, num, cfg), Initial(s), 0, cfg.tolcheck, k, j);
  }

  datatype Failure =
    | FormatNotRecognized   // the format assertion fails
    | ZeroModulus           // `itr % tolcheck` with `tolcheck == 0`
    | NonFiniteCorrection   // `1 + h.T Minvh == 0`: the iterates become non-finite

  /** `x` is `u[:n] / u[-1]` (absent when non-finite); `iterations` is the
      final `itr`; `limitHit` is whether "Iteration limit hit" is reported. */
  datatype Report = Report(x: Option<Vector>, status: Status, iterations: int, limitHit: bool, final: Embedding)

  ghost predicate KeepsShape(s: Setup, step: Embedding -> Embedding) {
    forall e :: Shaped(s, e) ==> Shaped(s, step(e))
  }

  lemma StepFnKeepsShape(s: Setup, cg: Ops.InnerSolve)
    requires SetupValid(s) && Ops.PreservesLength(cg)
    ensures KeepsShape(s, StepFn(s, cg))
  {
  }

  /** `rep` is what the loop of lines 48-95 reports when each iteration is
      `step`: at most `max_itr` iterations from the initial pair, a verdict
      at every multiple of `tolcheck`, the loop ending at the first firing
      verdict with its status, every earlier checkpoint having continued,
      and otherwise ending with the iteration limit. */
  ghost predicate Describes(s: Setup, step: Embedding -> Embedding, num: Numerics, cfg: Config, rep: Report)
    requires SetupValid(s)
  {
    var k := rep.iterations;
    && 0 <= k <= Cadence.Bound(cfg.maxItr)
    && rep.final == Cadence.Iterate(step, Initial(s), k)
    && Shaped(s, rep.final)
    && (rep.limitHit <==> k == cfg.maxItr)
    && (k >= 1 ==> cfg.tolcheck != 0)
    && (rep.status == IterationLimit ==> k == Cadence.Bound(cfg.maxItr))
    && (rep.status == IterationLimit && k >= 1 ==>
          Cadence.PassedAll(step, StopFn(s, num, cfg), Initial(s), 0, cfg.tolcheck, k))
    && (rep.status != IterationLimit ==>
          && k >= 1 && Cadence.Checkpoint(k, 0, cfg.tolcheck)
          && CheckAt(s, num, cfg, rep.final) == Stop(rep.status)
          && Cadence.PassedAll(step, StopFn(s, num, cfg), Initial(s), 0, cfg.tolcheck, k - 1))
    && rep.x == Quotient(rep.final.u[..N(s.lp)], rep.final.u[|s.h|])
  }

  /** The outer loop for a given iteration. A loop that stops as optimal
      has a finite point. */
  method Drive(s: Setup, step: Embedding -> Embedding, num: Numerics, cfg: Config) returns (rep: Report)
    requires SetupValid(s) && KeepsShape(s, step) && (cfg.maxItr >= 1 ==> cfg.tolcheck != 0)
    ensures Describes(s, step, num, cfg, rep)
    ensures rep.status == Optimal ==> rep.x.Some?
  {
    var itr, fired, e := Cadence.Loop(step, StopFn(s, num, cfg), Initial(s), 0, cfg.tolcheck, cfg.maxItr);
    Cadence.IterateKeeps(step, (e: Embedding) => Shaped(s, e), Initial(s), itr);
    var status := if fired then CheckAt(s, num, cfg, e).status else IterationLimit;
    var x := Quotient(e.u[..N(s.lp)], e.u[|s.h|]);
    return Report(x, status, itr, itr == cfg.maxItr, e);
  }

  /** `linprog10`: the format assertion, the setup, then the outer loop over
      the iteration of lines 52-67. */
  method Solve(lp: Lp, eqKind: Storage, ubKind: Storage, num: Numerics, cfg: Config) returns (r: Result<Report, Failure>)
    requires WellFormed(lp) && Ops.PreservesLength(num.cg)
    ensures r == Failure(FormatNotRecognized) <==> !FormatAccepted(eqKind, ubKind)
    ensures r == Failure(ZeroModulus) <==> FormatAccepted(eqKind, ubKind) && cfg.maxItr >= 1 && cfg.tolcheck == 0
    ensures r == Failure(NonFiniteCorrection) <==>
              FormatAccepted(eqKind, ubKind) && cfg.maxItr >= 1 && cfg.tolcheck != 0
              && Denominator(MakeSetup(lp, num.cg)) == 0.0
    ensures r.Success? ==>
              var s := MakeSetup(lp, num.cg);
              && Describes(s, StepFn(s, num.cg), num, cfg, r.value)
              && (r.value.iterations == 0 || Denominator(s) != 0.0)
              && (r.value.status == Optimal ==> r.value.x.Some?)
  {
    if !FormatAccepted(eqKind, ubKind) {
      return Failure(FormatNotRecognized);
    }
    var s := MakeSetup(lp, num.cg);
    if cfg.maxItr >= 1 && cfg.tolcheck == 0 {
      return Failure(ZeroModulus);
    }
    if cfg.maxItr >= 1 && Denominator(s) == 0.0 {
      return Failure(NonFiniteCorrection);
    }
    StepFnKeepsShape(s, num.cg);
    var rep := Drive(s, StepFn(s, num.cg), num, cfg);
    return Success(rep);
  }
}
