/** The primal-dual hybrid gradient solver (`pdlp_gpu`): the primal step,
    the extrapolated dual step with its projection, the fixed points of that
    iteration, and the `for` loop with its convergence checks and the
    iteration-limit flag. */
module PdlpSolver {
  import opened Wrappers
  import opened LinAlg
  import opened Termination
  import Cone
  import Cadence
  import PdlpUtils
  import PdlpKernels

  /** The operator pair built outside the solver: `forward` is `K x` and
      `adjoint` is `K.T y`. */
  datatype Operator = Operator(forward: Vector -> Vector, adjoint: Vector -> Vector)

  /** `K` maps length `n` to length `m` and `K.T` back. */
  ghost predicate Conforms(op: Operator, n: nat, m: nat) {
    && (forall x: Vector :: |x| == n ==> |op.forward(x)| == m)
    && (forall y: Vector :: |y| == m ==> |op.adjoint(y)| == n)
  }

  /** The operator pair of a dense `K` with `cols` columns, through the
      kernels; arguments of the wrong length, which the solver never passes,
      go to zero. */
  function KernelOperator(K: Matrix, cols: nat): (op: Operator)
    requires IsMatrix(K, |K|, cols)
    ensures Conforms(op, cols, |K|)
    ensures forall x :: |x| == cols ==> op.forward(x) == PdlpKernels.ApplyKKernel(x, K)
    ensures forall y :: |y| == |K| ==> op.adjoint(y) == PdlpKernels.ApplyKtKernel(y, K, cols)
  {
    Operator(x => if |x| == cols then PdlpKernels.ApplyKKernel(x, K) else Zeros(|K|),
             y => if |y| == |K| then PdlpKernels.ApplyKtKernel(y, K, cols) else Zeros(cols))
  }

  /** Everything the iteration reads: the cost `c`, the right-hand side `q`,
      the number `m_eq = b_eq.shape[0]` of equality rows, the operator and
      the step sizes `tau` and `sigma`. */
  datatype Data = Data(c: Vector, q: Vector, meq: nat, op: Operator, tau: real, sigma: real)

  ghost predicate Valid(d: Data) {
    Conforms(d.op, |d.c|, |d.q|)
  }

  /** The iterate: primal `x` (length `n`) and dual `y` (length `m`). */
  datatype PrimalDual = PrimalDual(x: Vector, y: Vector)

  predicate Shaped(d: Data, p: PrimalDual) {
    |p.x| == |d.c| && |p.y| == |d.q|
  }

  /** Line 28: `x' = x - tau (c - K.T y)`, with the old `y`. */
  function PrimalStep(d: Data, p: PrimalDual): (x': Vector)
    requires Valid(d) && Shaped(d, p)
    ensures |x'| == |p.x|
    ensures forall i :: 0 <= i < |x'| ==> x'[i] == p.x[i] - d.tau * (d.c[i] - d.op.adjoint(p.y)[i])
  {
    Sub(p.x, Scale(d.tau, Sub(d.c, d.op.adjoint(p.y))))
  }

  /** Line 29 before the projection: `y + sigma (q - K (2 x' - x))`, the
      extrapolation using the old `x`. */
  function RawDual(d: Data, p: PrimalDual, x': Vector): (r: Vector)
    requires Valid(d) && Shaped(d, p) && |x'| == |p.x|
    ensures |r| == |p.y|
    ensures forall i :: 0 <= i < |r| ==>
              r[i] == p.y[i] + d.sigma * (d.q[i] - d.op.forward(Sub(Scale(2.0, x'), p.x))[i])
  {
    Add(p.y, Scale(d.sigma, Sub(d.q, d.op.forward(Sub(Scale(2.0, x'), p.x)))))
  }

  /** Lines 28-31: the primal step, the dual step, the clip of
      `y[m_eq:]` at zero, and `x` replaced by `x'`. The equality block of
      `y` keeps the raw value, whatever its sign. */
  function Step(d: Data, p: PrimalDual): (r: PrimalDual)
    requires Valid(d) && Shaped(d, p)
    ensures Shaped(d, r)
    ensures r.x == PrimalStep(d, p)
    ensures forall i :: 0 <= i < |r.y| && i < d.meq ==> r.y[i] == RawDual(d, p, r.x)[i]
    ensures forall i :: d.meq <= i < |r.y| ==> r.y[i] == PosPart(RawDual(d, p, r.x)[i])
    ensures Cone.InCone(r.y, d.meq)
  {
    var x' := PrimalStep(d, p);
    PrimalDual(x', Cone.Project(RawDual(d, p, x'), d.meq))
  }

  /** An equality dual can come out negative: one variable, one equality
      row, `K = I`, `c = 0`, `q = -1`, unit steps, from zero. */
  lemma EqualityDualCanBeNegative()
    ensures var d := Data([0.0], [-1.0], 1, Operator(x => x, y => y), 1.0, 1.0);
            && Valid(d)
            && Step(d, PrimalDual([0.0], [0.0])).y == [-1.0]
  {
    var d := Data([0.0], [-1.0], 1, Operator(x => x, y => y), 1.0, 1.0);
    var p := PrimalDual([0.0], [0.0]);
    var x' := PrimalStep(d, p);
    assert x' == [0.0];
    var raw := RawDual(d, p, x');
    assert raw == [-1.0];
  }

  // ---------------------------------------------------------------------
  // Fixed points

  /** `K x - q`, the constraint slack. */
  function Slack(d: Data, x: Vector): (s: Vector)
    requires Valid(d) && |x| == |d.c|
    ensures |s| == |d.q|
  {
    Sub(d.op.forward(x), d.q)
  }

  /** The optimality conditions of `min c.x` subject to `(K x)[i] = q[i]`
      on the equality rows and `(K x)[i] >= q[i]` on the others: dual
      feasibility `K.T y = c`, primal feasibility, `y >= 0` on the
      inequality rows, and complementary slackness there. */
  ghost predicate Kkt(d: Data, p: PrimalDual)
    requires Valid(d) && Shaped(d, p)
  {
    && d.op.adjoint(p.y) == d.c
    && (forall i :: 0 <= i < |d.q| && i < d.meq ==> Slack(d, p.x)[i] == 0.0)
    && (forall i :: d.meq <= i < |d.q| ==> Slack(d, p.x)[i] >= 0.0 && p.y[i] >= 0.0 && p.y[i] * Slack(d, p.x)[i] == 0.0)
  }

  /** A step with positive step sizes leaves `(x, y)` in place exactly when
      `(x, y)` satisfies the optimality conditions. */
  lemma FixedPointsAreKkt(d: Data, p: PrimalDual)
    requires Valid(d) && Shaped(d, p) && d.tau > 0.0 && d.sigma > 0.0
    ensures Step(d, p) == p <==> Kkt(d, p)
  {
    PrimalFixed(d, p);
    if PrimalStep(d, p) == p.x {
      DualFixed(d, p);
    }
  }

  /** The primal step stands still exactly when `K.T y = c`. */
  lemma PrimalFixed(d: Data, p: PrimalDual)
    requires Valid(d) && Shaped(d, p) && d.tau > 0.0
    ensures PrimalStep(d, p) == p.x <==> d.op.adjoint(p.y) == d.c
  {
    var x', g := PrimalStep(d, p), d.op.adjoint(p.y);
    if x' == p.x {
      forall i | 0 <= i < |g|
        ensures g[i] == d.c[i]
      {
        assert x'[i] == p.x[i] - d.tau * (d.c[i] - g[i]);
      }
    }
  }

  /** Once the primal step stands still, the dual step stands still exactly
      when `x` is feasible, `y` is nonnegative on the inequality rows and
      the two are complementary there. */
  lemma DualFixed(d: Data, p: PrimalDual)
    requires Valid(d) && Shaped(d, p) && d.sigma > 0.0 && PrimalStep(d, p) == p.x
    ensures Step(d, p).y == p.y <==>
              && (forall i :: 0 <= i < |d.q| && i < d.meq ==> Slack(d, p.x)[i] == 0.0)
              && (forall i :: d.meq <= i < |d.q| ==> Slack(d, p.x)[i] >= 0.0 && p.y[i] >= 0.0 && p.y[i] * Slack(d, p.x)[i] == 0.0)
  {
    var s, y' := Slack(d, p.x), Step(d, p).y;
    forall i | 0 <= i < |p.y|
      ensures i < d.meq ==> (y'[i] == p.y[i] <==> s[i] == 0.0)
      ensures d.meq <= i ==> (y'[i] == p.y[i] <==> s[i] >= 0.0 && p.y[i] >= 0.0 && p.y[i] * s[i] == 0.0)
    {
      DualFixedAt(d, p, i);
    }
    assert y' == p.y <==> forall i :: 0 <= i < |p.y| ==> y'[i] == p.y[i];
  }

  /** `DualFixed` at one coordinate. */
  lemma DualFixedAt(d: Data, p: PrimalDual, i: nat)
    requires Valid(d) && Shaped(d, p) && d.sigma > 0.0 && PrimalStep(d, p) == p.x && i < |p.y|
    ensures i < d.meq ==> (Step(d, p).y[i] == p.y[i] <==> Slack(d, p.x)[i] == 0.0)
    ensures d.meq <= i ==> (Step(d, p).y[i] == p.y[i] <==>
              Slack(d, p.x)[i] >= 0.0 && p.y[i] >= 0.0 && p.y[i] * Slack(d, p.x)[i] == 0.0)
  {
    var s := Slack(d, p.x);
    assert Sub(Scale(2.0, p.x), p.x) == p.x;
    assert RawDual(d, p, p.x)[i] == p.y[i] - d.sigma * s[i];
    if d.meq <= i {
      FixedClip(p.y[i], s[i], d.sigma);
    }
  }

  /** `y = max(0, y - sigma s)` with `sigma > 0` exactly when `y >= 0`,
      `s >= 0` and `y s = 0`. */
  lemma FixedClip(y: real, s: real, sigma: real)
    requires sigma > 0.0
    ensures PosPart(y - sigma * s) == y <==> s >= 0.0 && y >= 0.0 && y * s == 0.0
  {
    if y > 0.0 && s != 0.0 {
      assert y * s != 0.0;
    }
    if y == 0.0 && s < 0.0 {
      assert sigma * s < 0.0;
    }
  }

  /** `proj_y` clips the prefix `y[:m_eq]` where the solver clips the
      suffix `y[m_eq:]`: the two agree exactly on vectors with no negative
      entry. */
  lemma ProjYDisagreesWithSolver(y: Vector, meq: nat)
    ensures PdlpUtils.ProjY(y, meq) == Cone.Project(y, meq) <==> forall i :: 0 <= i < |y| ==> y[i] >= 0.0
  {
    var a, b := PdlpUtils.ProjY(y, meq), Cone.Project(y, meq);
    if a == b {
      forall i | 0 <= i < |y|
        ensures y[i] >= 0.0
      {
        assert a[i] == b[i];
      }
    }
  }

  // ---------------------------------------------------------------------
  // Outer loop

  datatype PdlpError =
    | NoIterations   // `max_itr <= 0`: `itr` is unbound at line 46
    | ZeroModulus    // `itr % tolcheck` with `tolcheck == 0`

  /** What `pdlp_gpu` returns (`x`), with the final loop index `itr`,
      whether the convergence test broke the loop, whether "Iteration limit
      hit" is reported, and the final iterate. */
  datatype Outcome = Outcome(x: Vector, lastIndex: int, converged: bool, limitHit: bool, final: PrimalDual)

  /** The iteration as a total map on pairs. */
  function StepFn(d: Data): PrimalDual -> PrimalDual
    requires Valid(d)
  {
    p => if Shaped(d, p) then Step(d, p) else p
  }

  /** The convergence test of lines 35-42: all three residuals strictly
      below tolerance. The residual values come from outside the model. */
  function StopFn(probe: PrimalDual -> Residuals, eps: Tolerances): PrimalDual -> bool {
    p => AllBelow(probe(p), eps)
  }

  ghost predicate KeepsShape(d: Data, step: PrimalDual -> PrimalDual) {
    forall p :: Shaped(d, p) ==> Shaped(d, step(p))
  }

  lemma StepFnKeepsShape(d: Data)
    requires Valid(d)
    ensures KeepsShape(d, StepFn(d))
  {
  }

  /** `pdlp_gpu` with `step` as the loop body (`StepFn` gives the solver's
      own) from the initial pair `start`: `for itr in range(max_itr)`, a
      convergence check whenever `itr % tolcheck == 0` (so at `itr = 0`
      too), a break when it passes, and the limit flag whenever the final
      index is `max_itr - 1`, even after a break on that very iteration. */
  method Solve(d: Data, step: PrimalDual -> PrimalDual, start: PrimalDual, probe: PrimalDual -> Residuals,
               maxItr: int, tolcheck: int, eps: Tolerances)
    returns (r: Result<Outcome, PdlpError>)
    requires Shaped(d, start) && KeepsShape(d, step)
    ensures r == Failure(NoIterations) <==> maxItr <= 0
    ensures r == Failure(ZeroModulus) <==> maxItr >= 1 && tolcheck == 0
    ensures r.Success? ==>
              var k := r.value.lastIndex + 1;
              && 1 <= k <= maxItr
              && r.value.final == Cadence.Iterate(step, start, k)
              && Shaped(d, r.value.final)
              && r.value.x == r.value.final.x
              && (r.value.converged ==> Cadence.Checkpoint(k, 1, tolcheck) && AllBelow(probe(r.value.final), eps))
              && (!r.value.converged ==> k == maxItr)
              && (r.value.converged ==> Cadence.PassedAll(step, StopFn(probe, eps), start, 1, tolcheck, k - 1))
              && (!r.value.converged ==> Cadence.PassedAll(step, StopFn(probe, eps), start, 1, tolcheck, k))
              && (r.value.limitHit <==> r.value.lastIndex == maxItr - 1)
  {
    if maxItr >= 1 && tolcheck == 0 {
      return Failure(ZeroModulus);
    }
    var count, fired, final := Cadence.Loop(step, StopFn(probe, eps), start, 1, tolcheck, maxItr);
    if count == 0 {
      return Failure(NoIterations);
    }
    Cadence.IterateKeeps(step, (p: PrimalDual) => Shaped(d, p), start, count);
    var itr := count - 1;
    return Success(Outcome(final.x, itr, fired, itr == maxItr - 1, final));
  }

  /** `pdlp_gpu` with its own iteration: every run that gets going ends on
      a step's output, so the returned dual is nonnegative on the
      inequality rows and the returned point is that step's primal update. */
  method SolveWithOwnStep(d: Data, start: PrimalDual, probe: PrimalDual -> Residuals,
                          maxItr: int, tolcheck: int, eps: Tolerances)
    returns (r: Result<Outcome, PdlpError>)
    requires Valid(d) && Shaped(d, start)
    ensures r == Failure(NoIterations) <==> maxItr <= 0
    ensures r == Failure(ZeroModulus) <==> maxItr >= 1 && tolcheck == 0
    ensures r.Success? ==> 0 <= r.value.lastIndex < maxItr
    ensures r.Success? ==>
              var prev := Cadence.Iterate(StepFn(d), start, r.value.lastIndex);
              && Shaped(d, prev)
              && Cone.InCone(r.value.final.y, d.meq)
              && r.value.x == PrimalStep(d, prev)
  {
    StepFnKeepsShape(d);
    r := Solve(d, StepFn(d), start, probe, maxItr, tolcheck, eps);
    if r.Success? {
      Cadence.IterateKeeps(StepFn(d), (p: PrimalDual) => Shaped(d, p), start, r.value.lastIndex);
    }
  }
}
