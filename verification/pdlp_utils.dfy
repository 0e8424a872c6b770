/** The primal-dual solver's projections: a box clip of the primal vector and
    a nonnegative clip of a prefix of the dual vector. */
module PdlpUtils {
  import opened LinAlg
  import opened Wrappers

  /** `lo <= x <= hi`, a `None` bound being infinite on its side. */
  predicate InBox(x: real, lo: Option<real>, hi: Option<real>) {
    (lo.None? || lo.value <= x) && (hi.None? || x <= hi.value)
  }

  /** One entry of `cp.clip(x, a_min, a_max)`, which is
      `minimum(maximum(x, a_min), a_max)`; `None` is the infinite default.
      With crossed bounds the upper bound wins. */
  function Clip(x: real, lo: Option<real>, hi: Option<real>): real {
    var raised := if lo.Some? && x < lo.value then lo.value else x;
    if hi.Some? && hi.value < raised then hi.value else raised
  }

  /** `proj_x`: entrywise box clip. */
  function ProjX(x: Vector, lo: Option<real>, hi: Option<real>): (r: Vector)
    ensures |r| == |x|
    ensures lo.Some? && hi.Some? && lo.value <= hi.value ==>
              forall i :: 0 <= i < |r| ==> InBox(r[i], lo, hi)
    ensures lo.Some? ==> hi.None? || lo.value <= hi.value ==>
              forall i :: 0 <= i < |r| ==> lo.value <= r[i]
    ensures hi.Some? ==> forall i :: 0 <= i < |r| ==> r[i] <= hi.value
    ensures forall i :: 0 <= i < |x| && InBox(x[i], lo, hi) ==> r[i] == x[i]
    ensures lo.Some? && hi.Some? && hi.value < lo.value ==> forall i :: 0 <= i < |r| ==> r[i] == hi.value
    ensures lo.None? && hi.None? ==> r == x
  {
    seq(|x|, i requires 0 <= i < |x| => Clip(x[i], lo, hi))
  }

  lemma ProjXIdempotent(x: Vector, lo: Option<real>, hi: Option<real>)
    ensures ProjX(ProjX(x, lo, hi), lo, hi) == ProjX(x, lo, hi)
  {
    var once := ProjX(x, lo, hi);
    forall i | 0 <= i < |x|
      ensures ProjX(once, lo, hi)[i] == once[i]
    {
      if lo.Some? && hi.Some? && hi.value < lo.value {
        assert once[i] == hi.value;
      } else {
        assert InBox(once[i], lo, hi);
      }
    }
  }

  /** End index of the Python slice `y[:m]` on a sequence of length `len`: a
      negative `m` counts from the end, an oversized one stops at the end. */
  function SliceEnd(m: int, len: nat): (k: nat)
    ensures k <= len
    ensures 0 <= m <= len ==> k == m
    ensures m > len ==> k == len
    ensures m < 0 ==> k == if len + m < 0 then 0 else len + m
  {
    if m >= 0 then (if m <= len then m else len)
    else if len + m >= 0 then len + m else 0
  }

  /** `proj_y`: `y[:m] = maximum(y[:m], 0)`, returning the mutated array. */
  function ProjY(y: Vector, m: int): (r: Vector)
    ensures |r| == |y|
    ensures forall i :: 0 <= i < SliceEnd(m, |y|) ==> r[i] >= 0.0
    ensures forall i :: 0 <= i < SliceEnd(m, |y|) && y[i] >= 0.0 ==> r[i] == y[i]
    ensures forall i :: 0 <= i < SliceEnd(m, |y|) && y[i] < 0.0 ==> r[i] == 0.0
    ensures forall i :: SliceEnd(m, |y|) <= i < |y| ==> r[i] == y[i]
  {
    var k := SliceEnd(m, |y|);
    seq(|y|, i requires 0 <= i < |y| => if i < k then PosPart(y[i]) else y[i])
  }

  lemma ProjYIdempotent(y: Vector, m: int)
    ensures ProjY(ProjY(y, m), m) == ProjY(y, m)
  {
  }
}
