/** The outer-loop cadence shared by the solvers: take a step, and at every
    `tolcheck`-th iteration run a stopping test that may end the loop, for at
    most `max_itr` iterations. The step and the test are opaque here; each
    solver supplies its own. */
module Cadence {

  /** The state after `k` steps from `init`. */
  function Iterate<S>(step: S -> S, init: S, k: nat): S {
    if k == 0 then init else step(Iterate(step, init, k - 1))
  }

  /** An invariant of the step holds of every iterate. */
  lemma {:induction false} IterateKeeps<S>(step: S -> S, inv: S -> bool, init: S, k: nat)
    requires inv(init) && forall s :: inv(s) ==> inv(step(s))
    ensures inv(Iterate(step, init, k))
  {
    if k > 0 {
      IterateKeeps(step, inv, init, k - 1);
    }
  }

  /** Iteration number `count` (counting from one) is a checkpoint when
      `(count - offset) % tolcheck == 0`. A loop whose counter is bumped
      before the test has offset 0; a `for` loop over `range(max_itr)`,
      whose index lags the number of steps taken by one, has offset 1. */
  predicate Checkpoint(count: int, offset: int, tolcheck: int)
    requires tolcheck != 0
  {
    (count - offset) % tolcheck == 0
  }

  /** Iteration `count` let the loop continue: it was no checkpoint, or its
      stopping test did not fire. */
  predicate Passes<S>(step: S -> S, stop: S -> bool, init: S, offset: int, tolcheck: int, count: nat)
    requires tolcheck != 0
  {
    !Checkpoint(count, offset, tolcheck) || !stop(Iterate(step, init, count))
  }

  /** Iterations one to `count` all let the loop continue. */
  predicate PassedAll<S>(step: S -> S, stop: S -> bool, init: S, offset: int, tolcheck: int, count: nat)
    requires tolcheck != 0
  {
    count == 0 || (PassedAll(step, stop, init, offset, tolcheck, count - 1) && Passes(step, stop, init, offset, tolcheck, count))
  }

  /** Each iteration up to `count` passed. */
  lemma {:induction false} PassedAllAt<S>(step: S -> S, stop: S -> bool, init: S, offset: int, tolcheck: int, count: nat, c: nat)
    requires tolcheck != 0 && PassedAll(step, stop, init, offset, tolcheck, count) && 1 <= c <= count
    ensures Passes(step, stop, init, offset, tolcheck, c)
  {
    if c < count {
      PassedAllAt(step, stop, init, offset, tolcheck, count - 1, c);
    }
  }

  /** The number of iterations a loop bounded by `maxItr` can run. */
  function Bound(maxItr: int): nat {
    if maxItr < 0 then 0 else maxItr
  }

  /** Runs the loop. `count` is the number of steps taken and `fired` tells
      whether the stopping test ended the loop. The loop stops early only at
      a checkpoint whose test fires, every earlier checkpoint having passed,
      and otherwise runs exactly `max(maxItr, 0)` steps. */
  method Loop<S>(step: S -> S, stop: S -> bool, init: S, offset: int, tolcheck: int, maxItr: int)
    returns (count: nat, fired: bool, final: S)
    requires maxItr >= 1 ==> tolcheck != 0
    ensures count <= Bound(maxItr)
    ensures final == Iterate(step, init, count)
    ensures count >= 1 ==> tolcheck != 0
    ensures fired ==> count >= 1 && Checkpoint(count, offset, tolcheck) && stop(final)
    ensures !fired ==> count == Bound(maxItr)
    ensures fired ==> PassedAll(step, stop, init, offset, tolcheck, count - 1)
    ensures !fired && count >= 1 ==> PassedAll(step, stop, init, offset, tolcheck, count)
  {
    count, fired, final := 0, false, init;
    while count < maxItr
      invariant count <= Bound(maxItr)
      invariant final == Iterate(step, init, count)
      invariant count >= 1 ==> tolcheck != 0
      invariant maxItr >= 1 ==> PassedAll(step, stop, init, offset, tolcheck, count)
      decreases maxItr - count
    {
      count := count + 1;
      final := step(final);
      if (count - offset) % tolcheck == 0 && stop(final) {
        fired := true;
        return;
      }
    }
  }
}
