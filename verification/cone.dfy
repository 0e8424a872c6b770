/** The cone the splitting and primal-dual solvers project onto: a block of
    free coordinates followed by a block of nonnegative ones. */
module Cone {
  import opened LinAlg

  /** Projection of `z` onto `R^free x R_+^(|z| - free)`: coordinates before
      `free` pass through, the rest are clipped at zero (`max(0, .)`). */
  function Project(z: Vector, free: nat): (r: Vector)
    ensures |r| == |z|
    ensures forall i :: 0 <= i < |z| && i < free ==> r[i] == z[i]
    ensures forall i :: free <= i < |z| ==> r[i] >= 0.0
    ensures forall i :: free <= i < |z| && z[i] >= 0.0 ==> r[i] == z[i]
    ensures forall i :: free <= i < |z| && z[i] < 0.0 ==> r[i] == 0.0
  {
    seq(|z|, i requires 0 <= i < |z| => if i < free then z[i] else PosPart(z[i]))
  }

  /** `q` lies in the cone. */
  predicate InCone(q: Vector, free: nat) {
    forall i :: free <= i < |q| ==> q[i] >= 0.0
  }

  lemma ProjectIdempotent(z: Vector, free: nat)
    ensures Project(Project(z, free), free) == Project(z, free)
  {
  }

  /** The projection is the nearest point of the cone in Euclidean distance. */
  lemma ProjectIsNearest(z: Vector, free: nat, q: Vector)
    requires |q| == |z| && InCone(q, free)
    ensures InCone(Project(z, free), free)
    ensures Dot(Sub(z, Project(z, free)), Sub(z, Project(z, free))) <= Dot(Sub(z, q), Sub(z, q))
  {
    var p := Project(z, free);
    var a := Sub(z, p);
    var b := Sub(z, q);
    forall i | 0 <= i < |a|
      ensures a[i] * a[i] <= b[i] * b[i]
    {
      if i >= free && z[i] < 0.0 {
        assert a[i] == z[i];
        assert q[i] >= 0.0;
        assert b[i] <= a[i] <= 0.0;
      }
    }
    DotSelfMonotone(a, b);
  }

  /** Moreau decomposition: `z = p - d` with `p` the projection and `d = p - z`
      zero on the free block, nonnegative on the clipped block and
      complementary to `p` there, so `<p, d> = 0`. */
  lemma ProjectComplementary(z: Vector, free: nat)
    ensures forall i :: 0 <= i < |z| && i < free ==> Sub(Project(z, free), z)[i] == 0.0
    ensures forall i :: free <= i < |z| ==> Sub(Project(z, free), z)[i] >= 0.0
    ensures forall i :: 0 <= i < |z| ==> Project(z, free)[i] * Sub(Project(z, free), z)[i] == 0.0
    ensures Dot(Project(z, free), Sub(Project(z, free), z)) == 0.0
    ensures Complementary(Project(z, free), Sub(Project(z, free), z), free)
  {
    var p := Project(z, free);
    var d := Sub(p, z);
    forall i | 0 <= i < |z|
      ensures p[i] * d[i] == 0.0
    {
      if i < free || z[i] >= 0.0 {
        assert d[i] == 0.0;
      } else {
        assert p[i] == 0.0;
      }
    }
    DotPointwiseZero(p, d);
  }

  /** `u` in the cone, `v` in its dual cone (zero on the free block,
      nonnegative on the rest), coordinatewise orthogonal. */
  predicate Complementary(u: Vector, v: Vector, free: nat)
    requires |u| == |v|
  {
    && InCone(u, free)
    && (forall i :: 0 <= i < |v| && i < free ==> v[i] == 0.0)
    && (forall i :: free <= i < |v| ==> v[i] >= 0.0)
    && (forall i :: 0 <= i < |u| ==> u[i] * v[i] == 0.0)
  }

  /** The projection step of a splitting iteration, `u' = Project(ut - v)`
      and `v' = v + u' - ut`: it splits `ut - v` into a complementary pair
      `u' - v'`, whatever `ut` and `v` are. */
  function Update(ut: Vector, v: Vector, free: nat): (r: (Vector, Vector))
    requires |ut| == |v|
    ensures |r.0| == |ut| && |r.1| == |ut|
    ensures Sub(r.0, r.1) == Sub(ut, v)
    ensures Complementary(r.0, r.1, free)
  {
    var z := Sub(ut, v);
    var u' := Project(z, free);
    ProjectComplementary(z, free);
    DualRearranged(ut, v, u');
    (u', Add(v, Sub(u', ut)))
  }

  /** `v + p - ut` is `p - (ut - v)`, so `p` minus it is `ut - v` again. */
  lemma DualRearranged(ut: Vector, v: Vector, p: Vector)
    requires |ut| == |v| == |p|
    ensures Add(v, Sub(p, ut)) == Sub(p, Sub(ut, v))
    ensures Sub(p, Add(v, Sub(p, ut))) == Sub(ut, v)
  {
    assert forall i :: 0 <= i < |p| ==> Add(v, Sub(p, ut))[i] == Sub(p, Sub(ut, v))[i];
    assert forall i :: 0 <= i < |p| ==> Sub(p, Add(v, Sub(p, ut)))[i] == Sub(ut, v)[i];
  }

  /** The complementary split of `ut - v` is unique, so `Update` is the only
      pair its contract allows. */
  lemma UpdateUnique(ut: Vector, v: Vector, free: nat, p: Vector, d: Vector)
    requires |ut| == |v| == |p| == |d|
    requires Sub(p, d) == Sub(ut, v) && Complementary(p, d, free)
    ensures p == Update(ut, v, free).0 && d == Update(ut, v, free).1
  {
    var r := Update(ut, v, free);
    forall i | 0 <= i < |p|
      ensures p[i] == r.0[i] && d[i] == r.1[i]
    {
      assert p[i] - d[i] == ut[i] - v[i] == r.0[i] - r.1[i] by {
        assert Sub(p, d)[i] == Sub(r.0, r.1)[i];
      }
      if i >= free {
        assert p[i] * d[i] == 0.0;
        if p[i] == 0.0 {
          assert ut[i] - v[i] <= 0.0;
        } else {
          assert d[i] == 0.0;
        }
      }
    }
  }
}
