/**
 * The tie-break the boundary projector of the spherical region tree uses
 * when two boundary points are equally close to the point being projected.
 */
module Projection {
  import opened Geometry

  /**
   * Chooses between two equidistant candidates: the one that comes first in
   * polar-then-azimuth order, and the second one when neither comes first.
   * The target point plays no part in the choice.
   */
  function DisambiguateClosestPoint(target: Point2S, a: Point2S, b: Point2S): (r: Point2S)
    ensures r == a || r == b
    ensures r == a <==> PolarAzimuthBefore(a, b) || a == b
    ensures !PolarAzimuthBefore(a, r) && !PolarAzimuthBefore(b, r)
  {
    var cmp := ComparePolarAzimuth(a, b);
    if cmp < 0 then a else b
  }

  /** The choice does not depend on the order the two candidates are met in. */
  lemma DisambiguateCommutes(target: Point2S, a: Point2S, b: Point2S)
    ensures DisambiguateClosestPoint(target, a, b) == DisambiguateClosestPoint(target, b, a)
  {
  }

  /**
   * Nor on how three tied candidates are grouped: folding the tie-break
   * over candidates gives the same point whatever the visiting order.
   */
  lemma DisambiguateAssociates(target: Point2S, a: Point2S, b: Point2S, c: Point2S)
    ensures DisambiguateClosestPoint(target, DisambiguateClosestPoint(target, a, b), c)
            == DisambiguateClosestPoint(target, a, DisambiguateClosestPoint(target, b, c))
  {
  }
}
