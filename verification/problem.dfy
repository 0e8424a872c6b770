/** The linear-program record both solvers read: cost `c`, equality block
    `A_eq x = b_eq` and inequality block `A_ub x <= b_ub`. */
module Problem {
  import opened LinAlg

  datatype Lp = Lp(c: Vector, Aeq: Matrix, beq: Vector, Aub: Matrix, bub: Vector)

  /** Both constraint matrices are `rows x n` with `n = |c|`, and their row
      counts match their right-hand sides. */
  predicate WellFormed(lp: Lp) {
    IsMatrix(lp.Aeq, |lp.beq|, |lp.c|) && IsMatrix(lp.Aub, |lp.bub|, |lp.c|)
  }

  /** Number of primal variables. */
  function N(lp: Lp): nat { |lp.c| }

  /** Number of equality rows. */
  function Meq(lp: Lp): nat { |lp.beq| }

  /** Total number of constraint rows. */
  function M(lp: Lp): nat { |lp.beq| + |lp.bub| }

  /** `b = concatenate(b_eq, b_ub)`. */
  function Rhs(lp: Lp): Vector { lp.beq + lp.bub }

  /** `h = concatenate(c, b)`, the stacked cost and right-hand side. */
  function Stacked(lp: Lp): Vector { lp.c + Rhs(lp) }

  /** How a constraint-matrix argument is stored: a host (NumPy / SciPy)
      array or sparse matrix, a device (CuPy) array or sparse matrix, or
      anything else, `None` included. */
  datatype Storage = HostDense | HostSparse | DeviceDense | DeviceSparse | Unrecognised
}
