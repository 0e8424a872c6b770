/** Stopping vocabulary shared by the solvers: the residual triple, the
    tolerances it is compared against and the terminal statuses. */
module Termination {

  /** Primal feasibility, dual feasibility and duality gap at a check. Their
      numeric values come from norms outside the model. */
  datatype Residuals = Residuals(primal: real, dual: real, gap: real)

  /** `eps_pri`, `eps_dual`, `eps_gap`. */
  datatype Tolerances = Tolerances(primal: real, dual: real, gap: real)

  /** The optimality test: every residual strictly below its tolerance. */
  predicate AllBelow(r: Residuals, eps: Tolerances) {
    r.primal < eps.primal && r.dual < eps.dual && r.gap < eps.gap
  }

  datatype Status = Optimal | Unbounded | Infeasible | IterationLimit
}
