/**
 * The geometric primitives of the 2-sphere that the region tree consumes, kept
 * symbolic: a convex area is the list of half-sphere constraints it was cut
 * from, so that every statement about the tree is about its structure and not
 * about spherical trigonometry.
 */
module Geometry {

  /** Pi to the 16 significant digits `Math.PI` is written with, as used for the area of the whole sphere. */
  const PI: real := 3.141592653589793

  /** Area of the full 2-sphere: 4 * pi. */
  const FULL_SIZE: real := 4.0 * PI

  datatype Vector3 = Vector3(x: real, y: real, z: real)

  const ZERO: Vector3 := Vector3(0.0, 0.0, 0.0)

  function Add(u: Vector3, v: Vector3): Vector3 {
    Vector3(u.x + v.x, u.y + v.y, u.z + v.z)
  }

  function Scale(k: real, v: Vector3): Vector3 {
    Vector3(k * v.x, k * v.y, k * v.z)
  }

  /** a * u + b * v, computed exactly (no rounding is modelled). */
  function LinearCombination(a: real, u: Vector3, b: real, v: Vector3): Vector3 {
    Add(Scale(a, u), Scale(b, v))
  }

  /** A point on the sphere in spherical coordinates. */
  datatype Point2S = Point2S(azimuth: real, polar: real)

  /** Strict "comes first" in polar-then-azimuth order. */
  predicate PolarAzimuthBefore(a: Point2S, b: Point2S) {
    a.polar < b.polar || (a.polar == b.polar && a.azimuth < b.azimuth)
  }

  /**
   * The comparator that sorts points by polar angle first and breaks ties by
   * azimuth: negative, zero or positive as a comes before, equals or comes
   * after b.
   */
  function ComparePolarAzimuth(a: Point2S, b: Point2S): (cmp: int)
    ensures cmp < 0 <==> PolarAzimuthBefore(a, b)
    ensures cmp > 0 <==> PolarAzimuthBefore(b, a)
    ensures cmp == 0 <==> a == b
  {
    if a.polar < b.polar then -1
    else if a.polar > b.polar then 1
    else if a.azimuth < b.azimuth then -1
    else if a.azimuth > b.azimuth then 1
    else 0
  }

  /** A great circle, named by its pole; it is the hyperplane of the 2-sphere. */
  datatype GreatCircle = GreatCircle(pole: Vector3)

  /** The two open half-spheres a great circle separates. */
  datatype Side = Minus | Plus

  /** "Lies on the given side of the given great circle". */
  datatype Constraint = Constraint(circle: GreatCircle, side: Side)

  /**
   * A convex area of the sphere, as the conjunction of the constraints that
   * produced it. The empty list is the full sphere.
   */
  datatype ConvexArea = ConvexArea(constraints: seq<Constraint>)

  /** The two parts of a split; either part is an area. */
  datatype Split = Split(minus: ConvexArea, plus: ConvexArea)

  /** An oriented arc of a great circle, interior on its minus side. */
  datatype GreatArc = GreatArc(circle: GreatCircle, start: Point2S, end: Point2S)

  /** A connected sequence of great arcs. */
  datatype GreatArcPath = GreatArcPath(arcs: seq<GreatArc>)

  /** The area covering the whole sphere: no constraint at all. */
  function FullArea(): (area: ConvexArea)
    ensures forall sideOf: GreatCircle -> Side :: ContainsPoint(area, sideOf)
  {
    ConvexArea([])
  }

  /** Splits an area by a great circle into its minus and plus parts. */
  function SplitArea(area: ConvexArea, splitter: GreatCircle): Split {
    Split(ConvexArea(area.constraints + [Constraint(splitter, Minus)]),
          ConvexArea(area.constraints + [Constraint(splitter, Plus)]))
  }

  /**
   * Whether an area contains a point that lies on none of the great circles,
   * the point being given by the side of every great circle it lies on.
   */
  predicate ContainsPoint(area: ConvexArea, sideOf: GreatCircle -> Side) {
    forall c :: c in area.constraints ==> sideOf(c.circle) == c.side
  }

  /** The two parts of a split are the area cut down to each half-sphere. */
  lemma SplitKeepsSides(area: ConvexArea, splitter: GreatCircle, sideOf: GreatCircle -> Side)
    ensures ContainsPoint(SplitArea(area, splitter).minus, sideOf)
            <==> ContainsPoint(area, sideOf) && sideOf(splitter) == Minus
    ensures ContainsPoint(SplitArea(area, splitter).plus, sideOf)
            <==> ContainsPoint(area, sideOf) && sideOf(splitter) == Plus
  {
    var s := SplitArea(area, splitter);
    assert Constraint(splitter, Minus) in s.minus.constraints;
    assert Constraint(splitter, Plus) in s.plus.constraints;
  }
}
