/** The class-based splitting solver (`SCSSolver`): construction, the
    intermediate `utilde`, the primal-dual update, the residual test and the
    outer loop. Two iterations are modelled side by side: the update as
    written, which never touches the homogenizing coordinate `u[-1]` and
    leaves `utilde[-1]` uninitialised, and a corrected update that projects
    every coordinate and fills `utilde[-1]` the way the experiment script
    does. */
module ScsClass {
  import opened Wrappers
  import opened LinAlg
  import opened Problem
  import opened Termination
  import Ops = ScsKernels
  import Cone
  import Cadence
  import opened SelfDual

  // ---------------------------------------------------------------------
  // Construction

  datatype ClassError =
    | MatrixFormatNotRecognized   // `ValueError` from `_convert_matrices`
    | ZeroModulus                 // `itr % tolcheck` with `tolcheck == 0`

  /** `_convert_matrices`: two device dense arrays are kept dense, two
      device sparse matrices become CSR, any other pair is refused. Host
      (NumPy / SciPy) inputs are neither `cp.ndarray` nor CuPy sparse. */
  function ConvertMatrices(eqKind: Storage, ubKind: Storage): (r: Result<Storage, ClassError>)
    ensures r.Success? <==> eqKind == ubKind && (eqKind == DeviceDense || eqKind == DeviceSparse)
    ensures r.Success? ==> r.value == eqKind
    ensures r.Failure? ==> r.error == MatrixFormatNotRecognized
  {
    if eqKind.DeviceDense? && ubKind.DeviceDense? then Success(DeviceDense)
    else if eqKind.DeviceSparse? && ubKind.DeviceSparse? then Success(DeviceSparse)
    else Failure(MatrixFormatNotRecognized)
  }

  /** The solver object: the problem, `h`, the views `c = h[:n]` and
      `b = h[n:]`, and the storage the matrices were converted to. */
  datatype Solver = Solver(lp: Lp, h: Vector, c: Vector, b: Vector, storage: Storage)

  predicate Valid(sv: Solver) {
    WellFormed(sv.lp) && sv.h == Stacked(sv.lp) && sv.c == sv.lp.c && sv.b == Rhs(sv.lp)
  }

  /** `__init__`: `b = b_eq ++ b_ub`, `h = c ++ b`, then `c` and `b` are
      rebound to the prefix and suffix of `h`, which give back the inputs. */
  function New(lp: Lp, eqKind: Storage, ubKind: Storage): (r: Result<Solver, ClassError>)
    requires WellFormed(lp)
    ensures r.Success? <==> ConvertMatrices(eqKind, ubKind).Success?
    ensures r.Failure? ==> r.error == MatrixFormatNotRecognized
    ensures r.Success? ==> Valid(r.value) && r.value.c + r.value.b == r.value.h
  {
    var b := lp.beq + lp.bub;
    var h := lp.c + b;
    match ConvertMatrices(eqKind, ubKind)
    case Failure(err) => Failure(err)
    case Success(kind) => Success(Solver(lp, h, h[..|lp.c|], h[|lp.c|..], kind))
  }

  // ---------------------------------------------------------------------
  // One iteration

  predicate Shaped(sv: Solver, e: Embedding) {
    Sized(e, |sv.h|)
  }

  /** The starting pair for this problem. */
  function Initial(sv: Solver): Embedding {
    Start(|sv.h|)
  }

  /** Which update the iteration performs. `AsWritten` carries the value
      found in the never-written `utilde[-1]` of `cp.empty_like`, taken as an
      arbitrary function of the current pair. */
  datatype Variant = AsWritten(stale: Embedding -> real) | Corrected

  /** The written part `utilde[:-1]` of `_compute_utilde`: the inner solve
      on `rhs[:n]` fills the primal block, and `rhs[n:] + A utilde[:n]` the
      constraint block, so the constraint rows hold exactly. */
  function UtildeHead(sv: Solver, cg: Ops.InnerSolve, e: Embedding): (r: Vector)
    requires Valid(sv) && Ops.PreservesLength(cg) && Shaped(sv, e)
    ensures |r| == |sv.h|
    ensures r[..N(sv.lp)] == cg(StepRhs(e, sv.h)[..N(sv.lp)])
    ensures Sub(r[N(sv.lp)..], Ops.Forward(sv.lp.Aeq, sv.lp.Aub, r[..N(sv.lp)])) == StepRhs(e, sv.h)[N(sv.lp)..]
  {
    var n, rhs := N(sv.lp), StepRhs(e, sv.h);
    var z := cg(rhs[..n]);
    assert |z| == n && |rhs[n..]| == |sv.lp.Aeq| + |sv.lp.Aub|;
    var t := Add(rhs[n..], Ops.Forward(sv.lp.Aeq, sv.lp.Aub, z));
    SubAddCancel(rhs[n..], Ops.Forward(sv.lp.Aeq, sv.lp.Aub, z));
    assert (z + t)[..n] == z && (z + t)[n..] == t;
    z + t
  }

  /** `_compute_utilde`. As written the last entry is whatever `empty_like`
      left there; corrected, it is `w[-1] + h.T utilde[:-1]`. */
  function ComputeUtilde(sv: Solver, cg: Ops.InnerSolve, variant: Variant, e: Embedding): (ut: Vector)
    requires Valid(sv) && Ops.PreservesLength(cg) && Shaped(sv, e)
    ensures |ut| == |sv.h| + 1
    ensures ut[..|sv.h|] == UtildeHead(sv, cg, e)
    ensures variant.AsWritten? ==> ut[|sv.h|] == variant.stale(e)
    ensures variant.Corrected? ==> ut[|sv.h|] == (e.u[|sv.h|] + e.v[|sv.h|]) + Dot(sv.h, ut[..|sv.h|])
  {
    var head := UtildeHead(sv, cg, e);
    var last := if variant.AsWritten? then variant.stale(e) else (e.u[|sv.h|] + e.v[|sv.h|]) + Dot(sv.h, head);
    assert (head + [last])[..|sv.h|] == head;
    head + [last]
  }

  /** `_update_primal_dual` as written: `u[:-1] = max(0, utilde[:-1] - v[:-1])`
      clips every coordinate but the last, which keeps its old value; then
      `v += u - utilde` with the updated `u`. */
  function UpdatePrimalDual(ut: Vector, e: Embedding): (r: Embedding)
    requires |ut| == |e.u| == |e.v| >= 1
    ensures |r.u| == |ut| && |r.v| == |ut|
    ensures forall i :: 0 <= i < |ut| - 1 ==> r.u[i] == PosPart(ut[i] - e.v[i])
    ensures r.u[|ut| - 1] == e.u[|ut| - 1]
    ensures r.v == Add(e.v, Sub(r.u, ut))
  {
    var last := |ut| - 1;
    var u' := Cone.Project(Sub(ut, e.v)[..last], 0) + [e.u[last]];
    Embedding(u', Add(e.v, Sub(u', ut)))
  }

  /** Below the last coordinate the as-written update still leaves a
      complementary pair: `u[i] >= 0`, `v[i] >= 0`, `u[i] v[i] = 0`. */
  lemma UpdateComplementaryBelowLast(ut: Vector, e: Embedding)
    requires |ut| == |e.u| == |e.v| >= 1
    ensures var r := UpdatePrimalDual(ut, e);
            forall i :: 0 <= i < |ut| - 1 ==> r.u[i] >= 0.0 && r.v[i] >= 0.0 && r.u[i] * r.v[i] == 0.0
  {
    var r := UpdatePrimalDual(ut, e);
    forall i | 0 <= i < |ut| - 1
      ensures r.u[i] >= 0.0 && r.v[i] >= 0.0 && r.u[i] * r.v[i] == 0.0
    {
      assert r.v[i] == r.u[i] - (ut[i] - e.v[i]);
    }
  }

  /** The corrected update: every coordinate, `u[-1]` included, is clipped,
      so the pair lands in `R_+^(n+m+1)` and its dual and is complementary. */
  function UpdatePrimalDualCorrected(ut: Vector, e: Embedding): (r: Embedding)
    requires |ut| == |e.v|
    ensures |r.u| == |ut| && |r.v| == |ut|
    ensures forall i :: 0 <= i < |ut| ==> r.u[i] == PosPart(ut[i] - e.v[i])
    ensures r.v == Add(e.v, Sub(r.u, ut))
    ensures Cone.Complementary(r.u, r.v, 0)
  {
    var next := Cone.Update(ut, e.v, 0);
    Embedding(next.0, next.1)
  }

  /** One loop iteration: `utilde`, then the update. */
  function Step(sv: Solver, cg: Ops.InnerSolve, variant: Variant, e: Embedding): (r: Embedding)
    requires Valid(sv) && Ops.PreservesLength(cg) && Shaped(sv, e)
    ensures Shaped(sv, r)
    ensures variant.AsWritten? ==> r.u[|sv.h|] == e.u[|sv.h|]
  {
    var ut := ComputeUtilde(sv, cg, variant, e);
    if variant.AsWritten? then UpdatePrimalDual(ut, e) else UpdatePrimalDualCorrected(ut, e)
  }

  /** The iteration as a total map on pairs. */
  function StepFn(sv: Solver, cg: Ops.InnerSolve, variant: Variant): Embedding -> Embedding
    requires Valid(sv) && Ops.PreservesLength(cg)
  {
    e => if Shaped(sv, e) then Step(sv, cg, variant, e) else e
  }

  /** The pair after `k` iterations. */
  function Run(sv: Solver, cg: Ops.InnerSolve, variant: Variant, k: nat): Embedding
    requires Valid(sv) && Ops.PreservesLength(cg)
  {
    Cadence.Iterate(StepFn(sv, cg, variant), Initial(sv), k)
  }

  /** As written, `u[-1]` keeps its initial zero through every iteration. */
  lemma {:induction false} TauStaysZero(sv: Solver, cg: Ops.InnerSolve, stale: Embedding -> real, k: nat)
    requires Valid(sv) && Ops.PreservesLength(cg)
    ensures Shaped(sv, Run(sv, cg, AsWritten(stale), k))
    ensures Run(sv, cg, AsWritten(stale), k).u[|sv.h|] == 0.0
  {
    if k > 0 {
      TauStaysZero(sv, cg, stale, k - 1);
    }
  }

  /** With the corrected update every iterate after the first is a
      complementary pair of the nonnegative orthant. */
  lemma {:induction false} CorrectedRunComplementary(sv: Solver, cg: Ops.InnerSolve, k: nat)
    requires Valid(sv) && Ops.PreservesLength(cg)
    ensures Shaped(sv, Run(sv, cg, Corrected, k))
    ensures k > 0 ==> Cone.Complementary(Run(sv, cg, Corrected, k).u, Run(sv, cg, Corrected, k).v, 0)
  {
    if k > 0 {
      CorrectedRunComplementary(sv, cg, k - 1);
    }
  }

  // ---------------------------------------------------------------------
  // Residual test and outer loop

  /** `_check_termination`: `x = u[:n] / u[-1]`, `y = u[n:n+m] / u[-1]`,
      then all three residuals strictly below tolerance. With a zero
      divisor and `n + m >= 1` some entry of `x` or `y` is infinite or NaN;
      the gap's numerator and denominator are then NaN or infinite, the gap
      is NaN and the test is false. The residual values are opaque. */
  function CheckTermination(sv: Solver, probe: (Vector, Vector) -> Residuals, eps: Tolerances, e: Embedding): (ok: bool)
    requires Shaped(sv, e)
    ensures ok <==> (e.u[|sv.h|] != 0.0 || |sv.h| == 0) && AllBelow(probe(e.u, e.v), eps)
  {
    Quotient(e.u[..|sv.h|], e.u[|sv.h|]).Some? && AllBelow(probe(e.u, e.v), eps)
  }

  function StopFn(sv: Solver, probe: (Vector, Vector) -> Residuals, eps: Tolerances): Embedding -> bool {
    e => Shaped(sv, e) && CheckTermination(sv, probe, eps, e)
  }

  /** As written, a problem with a variable or a constraint never passes the
      residual test. */
  lemma AsWrittenNeverStops(sv: Solver, cg: Ops.InnerSolve, stale: Embedding -> real,
                            probe: (Vector, Vector) -> Residuals, eps: Tolerances, k: nat)
    requires Valid(sv) && Ops.PreservesLength(cg) && |sv.h| >= 1
    ensures Shaped(sv, Run(sv, cg, AsWritten(stale), k))
    ensures !CheckTermination(sv, probe, eps, Run(sv, cg, AsWritten(stale), k))
  {
    TauStaysZero(sv, cg, stale, k);
  }

  /** As written, the point `solve` returns is never finite once there is a
      variable: it divides by the zero `u[-1]`. */
  lemma AsWrittenReturnsNonFinite(sv: Solver, cg: Ops.InnerSolve, stale: Embedding -> real, k: nat)
    requires Valid(sv) && Ops.PreservesLength(cg) && N(sv.lp) >= 1
    ensures Shaped(sv, Run(sv, cg, AsWritten(stale), k))
    ensures Quotient(Run(sv, cg, AsWritten(stale), k).u[..N(sv.lp)], Run(sv, cg, AsWritten(stale), k).u[|sv.h|]) == None
  {
    TauStaysZero(sv, cg, stale, k);
  }

  /** What `solve` returns, `u[:n] / u[-1]` (absent when non-finite), with
      the number of iterations, whether the residual test ended the loop,
      and the final pair. */
  datatype Outcome = Outcome(x: Option<Vector>, iterations: nat, stopped: bool, final: Embedding)

  ghost predicate KeepsShape(sv: Solver, step: Embedding -> Embedding) {
    forall e :: Shaped(sv, e) ==> Shaped(sv, step(e))
  }

  lemma StepFnKeepsShape(sv: Solver, cg: Ops.InnerSolve, variant: Variant)
    requires Valid(sv) && Ops.PreservesLength(cg)
    ensures KeepsShape(sv, StepFn(sv, cg, variant))
  {
  }

  /** `solve` with `step` as the loop body (`StepFn` gives the class's own):
      at most `max_itr` iterations from the initial pair, the residual test
      at every multiple of `tolcheck`, the loop ending at the first test
      that passes and otherwise after `max_itr` iterations, and
      `u[:n] / u[-1]` returned. */
  method Solve(sv: Solver, step: Embedding -> Embedding, probe: (Vector, Vector) -> Residuals,
               maxItr: int, tolcheck: int, eps: Tolerances)
    returns (r: Result<Outcome, ClassError>)
    requires Valid(sv) && KeepsShape(sv, step)
    ensures r.Failure? <==> maxItr >= 1 && tolcheck == 0
    ensures r.Failure? ==> r.error == ZeroModulus
    ensures r.Success? ==>
              var k := r.value.iterations;
              && k <= Cadence.Bound(maxItr)
              && r.value.final == Cadence.Iterate(step, Initial(sv), k)
              && Shaped(sv, r.value.final)
              && (r.value.stopped ==> k >= 1 && Cadence.Checkpoint(k, 0, tolcheck) && CheckTermination(sv, probe, eps, r.value.final))
              && (!r.value.stopped ==> k == Cadence.Bound(maxItr))
              && (r.value.stopped ==> Cadence.PassedAll(step, StopFn(sv, probe, eps), Initial(sv), 0, tolcheck, k - 1))
              && (!r.value.stopped && k >= 1 ==> Cadence.PassedAll(step, StopFn(sv, probe, eps), Initial(sv), 0, tolcheck, k))
              && r.value.x == Quotient(r.value.final.u[..N(sv.lp)], r.value.final.u[|sv.h|])
  {
    if maxItr >= 1 && tolcheck == 0 {
      return Failure(ZeroModulus);
    }
    var k, fired, e := Cadence.Loop(step, StopFn(sv, probe, eps), Initial(sv), 0, tolcheck, maxItr);
    Cadence.IterateKeeps(step, (e: Embedding) => Shaped(sv, e), Initial(sv), k);
    var x := Quotient(e.u[..N(sv.lp)], e.u[|sv.h|]);
    return Success(Outcome(x, k, fired, e));
  }

  /** `solve` as written: unless `tolcheck == 0` trips the modulus, it runs
      all `max_itr` iterations without the residual test ever passing (once
      `h` is non-empty) and returns a non-finite point exactly when there is
      a variable. */
  method SolveAsWritten(sv: Solver, cg: Ops.InnerSolve, stale: Embedding -> real,
                        probe: (Vector, Vector) -> Residuals, maxItr: int, tolcheck: int, eps: Tolerances)
    returns (r: Result<Outcome, ClassError>)
    requires Valid(sv) && Ops.PreservesLength(cg)
    ensures r.Failure? <==> maxItr >= 1 && tolcheck == 0
    ensures r.Success? && |sv.h| >= 1 ==> !r.value.stopped && r.value.iterations == Cadence.Bound(maxItr)
    ensures r.Success? ==> (r.value.x == None <==> N(sv.lp) >= 1)
  {
    StepFnKeepsShape(sv, cg, AsWritten(stale));
    r := Solve(sv, StepFn(sv, cg, AsWritten(stale)), probe, maxItr, tolcheck, eps);
    if r.Success? {
      TauStaysZero(sv, cg, stale, r.value.iterations);
      if |sv.h| >= 1 {
        AsWrittenNeverStops(sv, cg, stale, probe, eps, r.value.iterations);
      }
    }
  }
}
