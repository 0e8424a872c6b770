# GPU linear-program solvers, modelled in Dafny

This project models the algebraic core of two GPU solvers for linear programs

    minimise c.x  subject to  A_eq x = b_eq,  A_ub x <= b_ub

over idealised real numbers. Vectors are `seq<real>` and matrices are `seq<seq<real>>` (lists of rows).

- **The splitting solver (SCS)** works on the homogeneous self-dual embedding `(u, v)` of length `n + m + 1`, where `h = c ++ b_eq ++ b_ub`. It has two variants:
  - the standalone script `linprog10` (module `ScsExperiment`). It covers the operator closures `apply_A`, `apply_At` and `apply_IpAtA`, the vector `M^-1 h`, the iteration with its rank-one correction and cone projection, and the termination cascade (optimal, then unbounded, then infeasible). It also covers the outer loop and the returned `u[:n] / u[-1]`;
  - the class `SCSSolver` (module `ScsClass`). It covers matrix conversion, the constructor's `h`, `c` and `b`, `_compute_utilde`, `_update_primal_dual`, the strict-below residual test and `solve`.
  - Both use the block-stacked kernels of `ScsKernels`: `A` is `A_eq` stacked on `A_ub`, written into a preallocated buffer.
- **The primal-dual hybrid gradient solver (PDLP)** is module `PdlpSolver`. It covers the primal step, the extrapolated dual step, the clip of the inequality duals, and the `for` loop with its convergence checks and iteration-limit flag. Its kernels are in `PdlpKernels` and its projections `proj_x` and `proj_y` are in `PdlpUtils`.

Shared modules:

- `LinAlg`: vectors, matrices, inner products, the adjoint identity, and entrywise division with non-finite results as `None`.
- `SelfDual`: the embedding pair `(u, v)` and its starting point, shared by both splitting solvers.
- `Cone`: the projection onto a free block followed by a nonnegative block.
- `Problem`: the LP record and the matrix storage kinds.
- `Termination`: the residual triple and statuses.
- `Cadence`: the loop shared by all three solvers. It takes a step, tests at every `tolcheck`-th iteration, and runs for at most `max_itr` iterations.

Some things are parameters of the model and are not computed by it:

- The inner conjugate-gradient solve is an arbitrary function that returns a vector of its argument's length.
- Residual values and certificate norms come from a probe function of the iterate. The norms `|c|` and `|b|` used by the script's certificate tests are constant parameters (`Numerics.cNorm`, `Numerics.bNorm`), because the script computes them once before its loop.
- For PDLP, the operator pair `K` / `K.T`, `q`, `tau`, `sigma`, the starting point and the residuals are parameters. `PdlpSolver.KernelOperator` builds the pair from a dense `K` through the kernels.

The loop methods take the iteration step as a parameter that must keep shapes. Each solver's own step (`StepFn`) is one such step.

The PDLP model reads `K x >= q` on the inequality rows and `K x = q` on the equality rows. That is the form its dual clip (`y[m_eq:] >= 0`) implies. How `A_ub`, `b_ub` become `K`, `q` is decided by `prepare_gpu_data`, which is not part of this model.

## Model

| member | source | states |
|---|---|---|
| ScsKernels.Overwrite | development/scs_implementation/src/gpu_kernels.py:5-6 | A slice assignment replaces exactly the slice and keeps the rest of the buffer; writing the whole buffer leaves only the written values |
| ScsKernels.ApplyAKernel | development/scs_implementation/src/gpu_kernels.py:3-7 | The first `m_eq` entries are `A_eq x`, the rest `A_ub x`, so the output has `rows(A_eq) + rows(A_ub)` entries and is the stacked matrix times `x` |
| ScsKernels.ApplyAtKernel | development/scs_implementation/src/gpu_kernels.py:9-12 | The output has length `n` and is the transpose of the stacked matrix applied to `y` |
| ScsKernels.BuffersOverwritten | development/scs_implementation/src/gpu_kernels.py:3-12 | Both kernels give the same result whatever the output buffer held before |
| ScsKernels.BackwardAdditive | development/scs_implementation/src/gpu_kernels.py:9-12 | The transpose of the stacked matrix distributes over a sum: `A.T (a + b) = A.T a + A.T b` |
| ScsKernels.ForwardSubScale | development/scs_implementation/src/gpu_kernels.py:3-7 | The stacked matrix is linear: `A (a - k b) = A a - k (A b)` |
| ScsKernels.BackwardSubScale | development/scs_implementation/src/gpu_kernels.py:9-12 | Its transpose is linear: `A.T (a - k b) = A.T a - k (A.T b)` |
| ScsKernels.StackedAdjoint | development/scs_implementation/src/gpu_kernels.py:3-12 | Adjoint identity `<A x, y> = <x, A.T y>` for the block-stacked operator |
| ScsKernels.IpAtAPositiveDefinite | experiments/gpu_scs_solver/scs.py:35-38 | `<x, (I + A.T A) x> = <x, x> + <A x, A x>`, hence at least `<x, x>`: the operator is positive definite |
| ScsKernels.IpAtASymmetric | experiments/gpu_scs_solver/scs.py:35-39 | `I + A.T A` is symmetric, which the conjugate-gradient operator built from it needs |
| PdlpKernels.ApplyKKernel | development/pdlp_implementation/src/gpu_kernels.py:3-5 | `K @ x` has one entry per row of `K`, that row's inner product with `x` |
| PdlpKernels.ApplyKtKernel | development/pdlp_implementation/src/gpu_kernels.py:7-9 | `K.T @ y` has one entry per column and equals the independently defined row combination `sum y[i] K[i]` |
| PdlpKernels.KernelsAdjoint | development/pdlp_implementation/src/gpu_kernels.py:3-9 | Adjoint identity `<K x, y> = <x, K.T y>` |
| PdlpKernels.KernelsLinear | development/pdlp_implementation/src/gpu_kernels.py:3-9 | Both kernels are additive and homogeneous and send zero to zero |
| PdlpUtils.ProjX | development/pdlp_implementation/src/utils.py:7-9 | The box clip keeps length. With ordered bounds every entry lands in the box. In-box entries are unchanged. With crossed bounds every entry becomes the upper bound. With the infinite defaults it is the identity |
| PdlpUtils.ProjXIdempotent | development/pdlp_implementation/src/utils.py:7-9 | Clipping twice equals clipping once |
| PdlpUtils.SliceEnd | development/pdlp_implementation/src/utils.py:13 | Python's `[:m]` end index: negative `m` counts from the end and oversized `m` stops at the length |
| PdlpUtils.ProjY | development/pdlp_implementation/src/utils.py:11-14 | Length is kept. Prefix entries become nonnegative: negative ones go to zero and others are unchanged. Entries past the prefix are unchanged |
| PdlpUtils.ProjYIdempotent | development/pdlp_implementation/src/utils.py:11-14 | Projecting twice equals projecting once |
| Cone.Project | experiments/gpu_scs_solver/scs.py:61-65 | Coordinates below the free count pass through; the rest are clipped to `max(0, .)` |
| Cone.ProjectIdempotent | experiments/gpu_scs_solver/scs.py:61-65 | The projection is idempotent |
| Cone.ProjectIsNearest | experiments/gpu_scs_solver/scs.py:61-65 | The projection lies in the cone and is no farther from `z` than any point of the cone |
| Cone.ProjectComplementary | experiments/gpu_scs_solver/scs.py:61-67 | Moreau decomposition: `p - z` vanishes on the free block, is nonnegative elsewhere and is orthogonal to `p` |
| Cone.Update | experiments/gpu_scs_solver/scs.py:61-67 | Whatever `utilde` and `v` are, the update splits `utilde - v` as `u' - v'` with the pair complementary: `u'` in the cone, `v'` zero on the free block and nonnegative elsewhere, `u'[i] v'[i] = 0` |
| Cone.UpdateUnique | experiments/gpu_scs_solver/scs.py:61-67 | That split is unique: any complementary pair whose difference is `utilde - v` is the update's pair |
| ScsExperiment.FormatAccepted | experiments/gpu_scs_solver/scs.py:18-23 | Accepted exactly when both matrices are host dense arrays or both are host sparse; mixed input is refused |
| ScsExperiment.AccumulateAt | experiments/gpu_scs_solver/scs.py:30-34 | The two-pass overwrite-then-accumulate equals the transpose of the stacked matrix applied to `y`, whatever the buffer held |
| ScsExperiment.ApplyIpAtAClosure | experiments/gpu_scs_solver/scs.py:35-38 | `apply_IpAtA(x)` is `x + A.T (A x)` and `<x, apply_IpAtA(x)> >= <x, x>` |
| ScsExperiment.ClosuresAdjoint | experiments/gpu_scs_solver/scs.py:26-34 | `<apply_A(x), y> = <x, apply_At(y)>` whatever the buffers hold |
| ScsExperiment.EliminationSolvesFirstRow | experiments/gpu_scs_solver/scs.py:40-42 | Block elimination for `[I A.T; -A I] [z; t] = rhs`: if `z` solves `(I + A.T A) z = rhs[:n] - A.T rhs[n:]` and `t = rhs[n:] + A z`, then `z + A.T t = rhs[:n]` |
| ScsExperiment.MinvHSolvesEmbedding | experiments/gpu_scs_solver/scs.py:40-42 | With an exact inner solve `Minvh` solves the embedding system for `h`: `Minvh[:n] + A.T Minvh[n:] = c` and `Minvh[n:] - A Minvh[:n] = b` |
| ScsExperiment.ExactSolveKeepsDenominatorPositive | experiments/gpu_scs_solver/scs.py:58 | With an exact inner solve, the divisor `1 + h.T Minvh` of the rank-one correction is at least one |
| SelfDual.Start | experiments/gpu_scs_solver/scs.py:43-46 | The starting pair of both splitting solvers: `u` is all zero and `v` is zero except its last entry, which is one. Both have length `n + m + 1` |
| SelfDual.StepRhs | experiments/gpu_scs_solver/scs.py:54-55 | `rhs[i] = (u + v)[i] - (u + v)[-1] h[i]`, the same in both splitting solvers (`scs_solver.py` lines 61-62) |
| ScsExperiment.Solved | experiments/gpu_scs_solver/scs.py:56-57 | The primal block is the inner solve of `rhs[:n] - A.T rhs[n:]`, and the constraint rows hold exactly: `utilde[n:-1] - A utilde[:n] = rhs[n:]` |
| ScsExperiment.SolvedSolvesEmbedding | experiments/gpu_scs_solver/scs.py:56-57 | With an inner solve exact on the step's reduced system, `utilde[:-1]` before the correction solves the embedding system for `rhs`: both block rows hold |
| ScsExperiment.Correct | experiments/gpu_scs_solver/scs.py:58 | The rank-one correction divides the component along `h` by `1 + h.T Minvh`: `h.T x' (1 + h.T Minvh) = h.T x`, so `h.T x'` is the correction's own coefficient `h.T x / (1 + h.T Minvh)` |
| ScsExperiment.Utilde | experiments/gpu_scs_solver/scs.py:54-60 | `utilde[:-1]` is the corrected solve, and the last entry is `w[-1] + h.T utilde[:-1]` with `w = u + v` |
| ScsExperiment.EmbedSubScale | experiments/gpu_scs_solver/scs.py:56-58 | The embedding operator `[I A.T; -A I]` is linear: `E (a - k b) = E a - k (E b)`, which is what lets the correction subtract a multiple of `Minvh` after the solve |
| ScsExperiment.CorrectedHead | experiments/gpu_scs_solver/scs.py:53-58 | With exact inner solves the corrected `utilde[:-1]` solves the embedding system with the `h` column moved right: `E utilde[:-1] = (w[:-1] - w[-1] h) - (h.T utilde[:-1]) h`, and `1 + h.T Minvh >= 1` |
| ScsExperiment.UtildeSolvesSelfDual | experiments/gpu_scs_solver/scs.py:53-60 | With exact inner solves `utilde` solves the whole self-dual system `(I + Q) utilde = w`: `[I A.T; -A I] utilde[:-1] + utilde[-1] h = w[:-1]` and `utilde[-1] - h.T utilde[:-1] = w[-1]` |
| ScsExperiment.Step | experiments/gpu_scs_solver/scs.py:61-67 | Below `n + m_eq`, `u'` is `utilde - v`, unclipped. From there on, the last entry included, `u'` is `max(0, utilde - v)`. `v' = v + u' - utilde` |
| ScsExperiment.StepComplementary | experiments/gpu_scs_solver/scs.py:61-67 | After any iteration `(u, v)` is a complementary pair of the cone and its dual |
| ScsExperiment.Run | experiments/gpu_scs_solver/scs.py:52-67 | Every iterate keeps its shape and has `u[-1] >= 0`; after the first iteration each one is complementary |
| ScsExperiment.RayCertified | experiments/gpu_scs_solver/scs.py:82-89 | A certificate test `norm(ray) <= (-inner / norm(data)) eps` holds exactly when `norm(ray) norm(data) <= -inner eps` for nonzero data, and never for zero data |
| ScsExperiment.Classify | experiments/gpu_scs_solver/scs.py:69-92 | Optimal iff `u[-1] > 0` and all residuals are strictly below tolerance. Otherwise unbounded iff the primal ray test holds. Otherwise infeasible iff the dual ray test holds. The cascade never yields the iteration limit |
| ScsExperiment.ResidualsIgnoredUntilTauPositive | experiments/gpu_scs_solver/scs.py:70-81 | While `u[-1] <= 0` the residual values cannot change the verdict, and the verdict is never optimal |
| ScsExperiment.PassedCheckContinues | experiments/gpu_scs_solver/scs.py:69-92 | Every checkpoint the loop went past had the verdict "continue" |
| ScsExperiment.Drive | experiments/gpu_scs_solver/scs.py:52-95 | At most `max_itr` iterations. The loop stops at the first checkpoint whose cascade fires, with that status, every earlier checkpoint having continued; otherwise it runs the full `max_itr`. The limit flag is raised iff `itr == max_itr`. An optimal stop returns a finite point |
| ScsExperiment.Solve | experiments/gpu_scs_solver/scs.py:8-95 | Fails exactly on a refused format, on `tolcheck == 0` with at least one iteration, or on a zero correction divisor. Otherwise the run is described as for `Drive` with the script's own iteration |
| LinAlg.Quotient | development/scs_implementation/src/scs_solver.py:57 | Division by zero is non-finite exactly when the vector is nonempty; otherwise each entry times the divisor gives back the numerator |
| ScsClass.ConvertMatrices | development/scs_implementation/src/scs_solver.py:24-31 | Succeeds exactly for two device dense arrays or two device sparse matrices and keeps that kind; anything else is a `ValueError` |
| ScsClass.New | development/scs_implementation/src/scs_solver.py:7-17 | Succeeds exactly when conversion succeeds. `h = c ++ b_eq ++ b_ub`, and the rebound `c` and `b` are its prefix and suffix, which concatenate back to `h` |
| ScsClass.UtildeHead | development/scs_implementation/src/scs_solver.py:63-65 | The primal block is the inner solve of `rhs[:n]`, and the constraint rows hold: `utilde[n:-1] - A utilde[:n] = rhs[n:]` |
| ScsClass.ComputeUtilde | development/scs_implementation/src/scs_solver.py:59-66 | The written part is `UtildeHead`. As written, the last entry is whatever `empty_like` left; corrected, it is `w[-1] + h.T utilde[:-1]` |
| ScsClass.UpdatePrimalDual | development/scs_implementation/src/scs_solver.py:68-72 | As written, every `u[i]` below the last is `max(0, utilde[i] - v[i])`, the last keeps its old value, and `v' = v + u' - utilde` with the updated `u` |
| ScsClass.UpdateComplementaryBelowLast | development/scs_implementation/src/scs_solver.py:70-71 | Below the last coordinate the as-written update leaves `u >= 0`, `v >= 0` and `u v = 0` |
| ScsClass.UpdatePrimalDualCorrected | development/scs_implementation/src/scs_solver.py:70-71 | Corrected update: every coordinate is clipped, and the pair is complementary in the nonnegative orthant |
| ScsClass.Step | development/scs_implementation/src/scs_solver.py:50-51 | An iteration keeps shapes; as written it never changes `u[-1]` |
| ScsClass.TauStaysZero | development/scs_implementation/src/scs_solver.py:68-72 | As written, `u[-1]` stays at its initial zero through every iteration |
| ScsClass.CorrectedRunComplementary | development/scs_implementation/src/scs_solver.py:47-51 | With the corrected update every iterate after the first is complementary |
| ScsClass.CheckTermination | development/scs_implementation/src/scs_solver.py:74-84 | The test passes iff `x` and `y` are finite (`u[-1] != 0`, or there is nothing to divide) and all three residuals are strictly below tolerance |
| ScsClass.AsWrittenNeverStops | development/scs_implementation/src/scs_solver.py:74-84 | As written, with at least one variable or constraint, the residual test fails at every iterate |
| ScsClass.AsWrittenReturnsNonFinite | development/scs_implementation/src/scs_solver.py:57 | As written, with at least one variable, the returned `u[:n] / u[-1]` is non-finite after any number of iterations |
| ScsClass.Solve | development/scs_implementation/src/scs_solver.py:41-57 | Fails exactly when `tolcheck == 0` with at least one iteration. Otherwise at most `max_itr` iterations; a stop only at a multiple of `tolcheck` whose test passes, every earlier check having failed; no stop means `max_itr` iterations; `u[:n] / u[-1]` is returned |
| ScsClass.SolveAsWritten | development/scs_implementation/src/scs_solver.py:41-57 | With the class's own iteration as written: it fails exactly when `tolcheck == 0` with at least one iteration. Otherwise, with a nonempty `h`, the residual test never stops the loop and all `max_itr` iterations run, and the returned point is non-finite exactly when there is a variable |
| Cadence.Loop | development/scs_implementation/src/scs_solver.py:45-55 | The shared loop: the final state is the iterate after `count` steps, `count <= max(max_itr, 0)`, a stop only at a checkpoint whose test fires with all earlier checkpoints passed, and otherwise exactly `max(max_itr, 0)` steps |
| PdlpSolver.KernelOperator | development/pdlp_implementation/src/pdlp_solver.py:15-16 | The operator pair of a dense `K` conforms to `n -> m` and `m -> n` and agrees with the two kernels |
| PdlpSolver.PrimalStep | development/pdlp_implementation/src/pdlp_solver.py:28 | `x'[i] = x[i] - tau (c[i] - (K.T y)[i])`, using the old `y` |
| PdlpSolver.RawDual | development/pdlp_implementation/src/pdlp_solver.py:29 | `y[i] + sigma (q[i] - (K (2 x' - x))[i])`, extrapolating with the old `x` |
| PdlpSolver.Step | development/pdlp_implementation/src/pdlp_solver.py:28-31 | `x` becomes `x'`. `y[:m_eq]` is the raw dual value, unclipped. `y[m_eq:]` is its positive part, so nonnegative. Lengths are kept |
| PdlpSolver.EqualityDualCanBeNegative | development/pdlp_implementation/src/pdlp_solver.py:29-30 | A concrete one-variable, one-equality instance whose equality dual comes out `-1` |
| PdlpSolver.FixedPointsAreKkt | development/pdlp_implementation/src/pdlp_solver.py:28-31 | With `tau, sigma > 0`, a pair is left in place by the step iff it satisfies the optimality conditions: `K.T y = c`, feasibility, `y >= 0` on inequality rows, complementary slackness |
| PdlpSolver.PrimalFixed | development/pdlp_implementation/src/pdlp_solver.py:28 | The primal step stands still iff `K.T y = c` |
| PdlpSolver.DualFixed | development/pdlp_implementation/src/pdlp_solver.py:29-30 | Once `x` stands still, `y` stands still iff `x` is feasible, `y >= 0` on inequality rows, and complementary slackness holds |
| PdlpSolver.ProjYDisagreesWithSolver | development/pdlp_implementation/src/pdlp_solver.py:30 | The helper `proj_y` clips the prefix `y[:m_eq]`, where the solver clips the suffix `y[m_eq:]`; the two agree iff `y` has no negative entry |
| PdlpSolver.Solve | development/pdlp_implementation/src/pdlp_solver.py:26-49 | `max_itr <= 0` fails because `itr` is unbound. `tolcheck == 0` fails. Otherwise `itr + 1` steps run. A check happens at every `itr` divisible by `tolcheck`, `itr = 0` included, and the loop breaks iff all residuals are strictly below tolerance, every earlier check having failed. With no break the loop runs all `max_itr` steps. The limit flag is raised iff the final `itr` is `max_itr - 1`, even after a break there. `x` is returned |
| PdlpSolver.SolveWithOwnStep | development/pdlp_implementation/src/pdlp_solver.py:26-49 | With the solver's own iteration, the failures are those of `Solve`. A run that gets going returns the primal step of the previous pair, and its dual is nonnegative on the inequality rows |

## Left out

- The conjugate-gradient solve is a library routine with numerical tolerances. It is an arbitrary length-preserving function. Its operator argument is therefore not modelled: `scs.py` passes `I + A.T A`, while `scs_solver.py` line 64 passes `apply_At`.
- The numeric residual and certificate values, with the norms and absolute values inside them, come from a probe function of the iterate. `|c|` and `|b|` (`scs.py` lines 12-13) are constant parameters rather than computed. Only the comparisons, their order and the loop cadence are modelled.
- Problem shapes are assumed consistent (`Problem.WellFormed`: `A_eq` has `|b_eq|` rows, `A_ub` has `|b_ub|` rows, both have `|c|` columns). Every SCS entry point (`ScsExperiment.MakeSetup`, `ScsExperiment.Solve`, `ScsClass.New`) requires it. Neither `linprog10` nor `SCSSolver.__init__` checks shapes. A column-count mismatch first fails inside `A_eq.dot` during the first `cg` call (`scs.py` line 41). If `b_eq` and `b_ub` are split differently from the matrices' rows but have the same total length, the script runs without error on misaligned rows: `h` pairs `b` entries with the wrong rows, while the free block (`scs.py` line 61) and the `y` split (lines 31-32) follow `A_eq.shape`. The model, where `m_eq` is `|b_eq|`, does not represent such a run.
- float32 rounding, device transfer, `dtype`, timing and every `print` are not modelled.
- The print at `scs_solver.py` line 82 names `itr`, which is not defined in `_check_termination`. As written, the first residual check raises `NameError`; the model treats the print as having no effect.
- Buffer aliasing is left out: `apply_At` and `apply_IpAtA` share one output buffer in `scs.py`, and the kernels write into one in the class. The kernels are modelled as pure functions, and `ScsKernels.BuffersOverwritten` shows the earlier buffer contents never matter.
- `prepare_gpu_data`, `initialize_parameters`, `initialize_variables`, `check_convergence` and `create_linear_operators` are not part of this model. Their results (`K`, `K.T`, `q`, `tau`, `sigma`, the starting pair and the residuals) are parameters.
- `eps_ubdd` and `eps_infeas` of `pdlp_gpu` are never read by its loop, so they are not modelled.
- `get_xp` in the PDLP utilities only chooses between NumPy and CuPy. It is not modelled.
- The `None` defaults of `A_ub`, `b_ub`, `A_eq` and `b_eq` are not modelled. The class refuses `None` matrices with `ValueError`, modelled as the `Unrecognised` storage kind. The concatenations and `b_eq.shape` fail before any solving.
- Arbitrary NumPy / CuPy array types beyond the five storage kinds are not modelled.
- Data generation, profiling, scaffolding, the shape-only tests and the dissertation figure are outside the solvers.
- ScsExperiment.Solve: a zero divisor `1 + h.T Minvh` makes the script's iterates non-finite without raising. The model reports this as the failure `NonFiniteCorrection` and does not follow the NaN values further.
- ScsClass.ComputeUtilde: the value `empty_like` leaves in `utilde[-1]` is modelled as an arbitrary function of the current pair, not as the actual contents of device memory.
- ScsClass.CheckTermination: the residuals computed from non-finite `x` and `y` are NaN, and a NaN comparison is false. The model states this directly rather than deriving it from floating-point rules.
- PdlpUtils.ProjY: `proj_y` clips its argument in place and returns that same array. The model returns a fresh vector and leaves the argument as it was, so a caller that still holds the argument would see different contents. `pdlp_gpu` does its own clip and never calls `proj_y`.
- A negative `tolcheck` is modelled through divisibility. Python's floored `%` and Dafny's Euclidean `%` agree on whether the remainder is zero.

## Findings

| source | as written | input that shows it | evidently intended | confidence | as-written member | corrected member |
|---|---|---|---|---|---|---|
| development/scs_implementation/src/scs_solver.py:70 | The update clips `u[:-1]` only, so `u[-1]` keeps its initial zero forever. `utilde[-1]` (line 63) is never written. `solve` then returns `u[:n] / 0` (line 57), and the residual test never passes | any problem with at least one variable, any inner solve, any number of iterations | Clip `u[-1]` as well, extending the class's own clipping of every other coordinate to the nonnegative orthant (unlike `scs.py` lines 61-62, which leave the first `n + m_eq` coordinates unclipped). Set `utilde[-1] = w[-1] + h.T utilde[:-1]`, the formula of `scs.py` line 60. The pair then stays complementary in that orthant | not executed | ScsClass.UpdatePrimalDual (with ScsClass.TauStaysZero, ScsClass.AsWrittenReturnsNonFinite, ScsClass.AsWrittenNeverStops) | ScsClass.UpdatePrimalDualCorrected (with ScsClass.CorrectedRunComplementary) |
