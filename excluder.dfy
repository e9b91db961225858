// The spatial-constraint container of a pharmacophore search: exclusion
// spheres (a hit may overlap none), inclusion spheres (a hit must overlap
// all) and two occupancy grids.  Coordinates are reals: the source computes
// in single-precision floating point, which this model idealises.

module Excluder {

  /** A sphere, stored by its centre and its squared radius. */
  datatype Sphere = Sphere(x: real, y: real, z: real, rSq: real)

  /** Squared Euclidean distance between two points. */
  function DistSq(a: real, b: real, c: real, x: real, y: real, z: real): (d: real)
  {
    (a - x) * (a - x) + (b - y) * (b - y) + (c - z) * (c - z)
  }

  /**
   * Whether the point (a, b, c) lies in the sphere, boundary included.  A
   * squared distance is never negative, so a sphere whose rSq is negative
   * contains nothing, and the centre is inside exactly when rSq >= 0.
   */
  predicate Contains(s: Sphere, a: real, b: real, c: real): (inside: bool)
    ensures s.rSq < 0.0 ==> !inside
    ensures a == s.x && b == s.y && c == s.z ==> (inside <==> s.rSq >= 0.0)
  {
    assert a == s.x && b == s.y && c == s.z ==> DistSq(a, b, c, s.x, s.y, s.z) == 0.0;
    DistSq(a, b, c, s.x, s.y, s.z) <= s.rSq
  }

  /** The default sphere: the origin, with squared radius 0. */
  function DefaultSphere(): (s: Sphere)
    ensures Contains(s, 0.0, 0.0, 0.0)
    ensures s.rSq == 0.0
  {
    Sphere(0.0, 0.0, 0.0, 0.0)
  }

  /** The sphere of centre (x, y, z) and radius r; only r's square is kept. */
  function MakeSphere(x: real, y: real, z: real, r: real): (s: Sphere)
    ensures s.rSq >= 0.0
    ensures Contains(s, x, y, z)
  {
    Sphere(x, y, z, r * r)
  }

  lemma NonNegProduct(u: real, v: real)
    requires u >= 0.0 && v >= 0.0
    ensures u * v >= 0.0
  {
  }

  /**
   * Along an axis, a point at offset d from the centre is contained exactly
   * when d * d <= r * r: the test is inclusive, so the points at distance
   * exactly |r| are inside.
   */
  lemma AxisContains(x: real, y: real, z: real, r: real, d: real)
    ensures Contains(MakeSphere(x, y, z, r), x + d, y, z) <==> d * d <= r * r
    ensures Contains(MakeSphere(x, y, z, r), x, y + d, z) <==> d * d <= r * r
    ensures Contains(MakeSphere(x, y, z, r), x, y, z + d) <==> d * d <= r * r
  {
    assert (x + d) - x == d;
    assert (y + d) - y == d;
    assert (z + d) - z == d;
  }

  /**
   * The test is inclusive: every point at squared distance exactly r * r
   * from the centre lies in the sphere, among them the two at offset r and
   * -r along the x axis.
   */
  lemma BoundaryContained(x: real, y: real, z: real, r: real)
    ensures forall a: real, b: real, c: real :: DistSq(a, b, c, x, y, z) == r * r ==> Contains(MakeSphere(x, y, z, r), a, b, c)
    ensures Contains(MakeSphere(x, y, z, r), x + r, y, z)
    ensures Contains(MakeSphere(x, y, z, r), x - r, y, z)
  {
    AxisContains(x, y, z, r, r);
    AxisContains(x, y, z, r, -r);
    assert x + -r == x - r;
    assert (-r) * (-r) == r * r;
  }

  /** Negating the radius gives the same sphere. */
  lemma RadiusSign(x: real, y: real, z: real, r: real)
    ensures MakeSphere(x, y, z, -r) == MakeSphere(x, y, z, r)
  {
    assert (-r) * (-r) == r * r;
  }

  /** A sphere of larger radius about the same centre contains every point of a smaller one. */
  lemma Monotone(x: real, y: real, z: real, r1: real, r2: real, a: real, b: real, c: real)
    requires 0.0 <= r1 <= r2
    requires Contains(MakeSphere(x, y, z, r1), a, b, c)
    ensures Contains(MakeSphere(x, y, z, r2), a, b, c)
  {
    NonNegProduct(r2 - r1, r2 + r1);
    assert r2 * r2 - r1 * r1 == (r2 - r1) * (r2 + r1);
  }

  /**
   * The constraint container.  The occupancy grids are represented only by
   * their numbers of set cells, which the operations modelled here never
   * change.
   */
  class Excluder {
    /** Exclusion spheres: a hit may not overlap any. */
    var exspheres: seq<Sphere>
    /** Inclusion spheres: a hit must overlap all. */
    var inspheres: seq<Sphere>
    /** Set cells of the exclusion grid. */
    var excludeGridSet: nat
    /** Set cells of the inclusion grid. */
    var includeGridSet: nat

    /** A fresh container holds no spheres and two empty grids. */
    constructor ()
      ensures exspheres == [] && inspheres == []
      ensures excludeGridSet == 0 && includeGridSet == 0
      ensures !IsDefined()
    {
      exspheres := [];
      inspheres := [];
      excludeGridSet := 0;
      includeGridSet := 0;
    }

    /** Whether any constraint is present: a sphere in either list or a set cell in either grid. */
    predicate IsDefined(): (defined: bool)
      reads this
      ensures defined <==> exspheres != [] || inspheres != [] || excludeGridSet != 0 || includeGridSet != 0
    {
      |exspheres| > 0 || |inspheres| > 0 || excludeGridSet > 0 || includeGridSet > 0
    }

    /** Removes every sphere; the grids stay as they are. */
    method Clear()
      modifies this
      ensures exspheres == [] && inspheres == []
      ensures excludeGridSet == old(excludeGridSet) && includeGridSet == old(includeGridSet)
      ensures IsDefined() <==> excludeGridSet > 0 || includeGridSet > 0
    {
      exspheres := [];
      inspheres := [];
    }

    /** Appends one exclusion sphere; nothing else changes. */
    method AddExclusionSphere(x: real, y: real, z: real, r: real)
      modifies this
      ensures exspheres == old(exspheres) + [MakeSphere(x, y, z, r)]
      ensures inspheres == old(inspheres)
      ensures excludeGridSet == old(excludeGridSet) && includeGridSet == old(includeGridSet)
      ensures IsDefined()
    {
      exspheres := exspheres + [MakeSphere(x, y, z, r)];
    }

    /** Appends one inclusion sphere; nothing else changes. */
    method AddInclusionSphere(x: real, y: real, z: real, r: real)
      modifies this
      ensures inspheres == old(inspheres) + [MakeSphere(x, y, z, r)]
      ensures exspheres == old(exspheres)
      ensures excludeGridSet == old(excludeGridSet) && includeGridSet == old(includeGridSet)
      ensures IsDefined()
    {
      inspheres := inspheres + [MakeSphere(x, y, z, r)];
    }
  }
}
