/**
 * Specification of the size aggregation over a convex decomposition: the
 * total size is the sum of the cell sizes and the barycenter accumulator is
 * the size-weighted sum of the cell barycenters, both taken in list order.
 * The size and barycenter of a single convex area are spherical geometry and
 * stay parameters.
 */
module RegionSize {
  import opened Geometry
  import opened BspTree

  /** Sum of the sizes of the areas, added first to last. */
  function SumSizes(areas: seq<ConvexArea>, size: ConvexArea -> real): real {
    if areas == [] then 0.0
    else SumSizes(areas[..|areas| - 1], size) + size(areas[|areas| - 1])
  }

  /** The barycenter accumulator: 1 * sum so far + size * barycenter, first to last. */
  function WeightedBarycenter(areas: seq<ConvexArea>, size: ConvexArea -> real,
                              barycenter: ConvexArea -> Vector3): Vector3 {
    if areas == [] then ZERO
    else
      var last := areas[|areas| - 1];
      LinearCombination(1.0, WeightedBarycenter(areas[..|areas| - 1], size, barycenter),
                        size(last), barycenter(last))
  }

  /** Size is additive over concatenated lists of cells. */
  lemma {:induction false} SumSizesAppend(a: seq<ConvexArea>, b: seq<ConvexArea>, size: ConvexArea -> real)
    ensures SumSizes(a + b, size) == SumSizes(a, size) + SumSizes(b, size)
  {
    if b != [] {
      assert (a + b)[..|a + b| - 1] == a + b[..|b| - 1];
      SumSizesAppend(a, b[..|b| - 1], size);
    } else {
      assert a + b == a;
    }
  }

  /** The barycenter accumulator is additive over concatenated lists of cells. */
  lemma {:induction false} WeightedBarycenterAppend(a: seq<ConvexArea>, b: seq<ConvexArea>,
                                                    size: ConvexArea -> real, barycenter: ConvexArea -> Vector3)
    ensures WeightedBarycenter(a + b, size, barycenter)
            == Add(WeightedBarycenter(a, size, barycenter), WeightedBarycenter(b, size, barycenter))
  {
    if b != [] {
      assert (a + b)[..|a + b| - 1] == a + b[..|b| - 1];
      assert (a + b)[|a + b| - 1] == b[|b| - 1];
      WeightedBarycenterAppend(a, b[..|b| - 1], size, barycenter);
    } else {
      assert a + b == a;
    }
  }

  /** Splitting an area never creates or loses size. */
  ghost predicate SizeAdditive(size: ConvexArea -> real) {
    forall area, splitter ::
      size(SplitArea(area, splitter).minus) + size(SplitArea(area, splitter).plus) == size(area)
  }

  ghost predicate SizeNonNegative(size: ConvexArea -> real) {
    forall area :: size(area) >= 0.0
  }

  /**
   * With an additive size, the cells of a node sum to the size of its area
   * when every leaf below it is inside.
   */
  lemma {:induction false} AllInsideSize(t: Tree, area: ConvexArea, size: ConvexArea -> real)
    requires SizeAdditive(size)
    requires AllLeavesInside(t)
    ensures SumSizes(Cells(t, area), size) == size(area)
  {
    match t
    case Leaf(_) =>
      assert Cells(t, area) == [area];
      assert Cells(t, area)[..0] == [];
    case Node(cut, minus, plus) =>
      var split := SplitArea(area, cut);
      AllInsideSize(minus, split.minus, size);
      AllInsideSize(plus, split.plus, size);
      SumSizesAppend(Cells(minus, split.minus), Cells(plus, split.plus), size);
  }

  /**
   * With an additive, non-negative size, the cells of a node sum to at least
   * zero and at most the size of its area: a region is never larger than
   * the full sphere.
   */
  lemma {:induction false} SizeBounds(t: Tree, area: ConvexArea, size: ConvexArea -> real)
    requires SizeAdditive(size) && SizeNonNegative(size)
    ensures 0.0 <= SumSizes(Cells(t, area), size) <= size(area)
  {
    match t
    case Leaf(inside) =>
      if inside {
        assert Cells(t, area)[..0] == [];
      }
    case Node(cut, minus, plus) =>
      var split := SplitArea(area, cut);
      SizeBounds(minus, split.minus, size);
      SizeBounds(plus, split.plus, size);
      SumSizesAppend(Cells(minus, split.minus), Cells(plus, split.plus), size);
  }

  /**
   * The direct answers for a full and an empty region agree with the
   * decomposition: with an additive size that gives the full sphere its
   * area of 4 pi, a tree with no outside leaf decomposes into cells summing
   * to 4 pi, and a tree with no inside leaf into cells summing to 0.
   */
  lemma ShortCircuitAgreesWithDecomposition(t: Tree, size: ConvexArea -> real)
    requires SizeAdditive(size) && size(FullArea()) == FULL_SIZE
    ensures AllLeavesInside(t) ==> SumSizes(Cells(t, FullArea()), size) == FULL_SIZE
    ensures InsideLeafCount(t) == 0 ==> SumSizes(Cells(t, FullArea()), size) == 0.0
  {
    if AllLeavesInside(t) {
      AllInsideSize(t, FullArea(), size);
    }
    if InsideLeafCount(t) == 0 {
      assert Cells(t, FullArea()) == [];
    }
  }
}
