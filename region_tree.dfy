/**
 * The region BSP tree of the 2-sphere: a tree of great-circle cuts with
 * inside/outside leaves, its lazily computed boundary paths, and the walks
 * over the tree that decompose it into convex areas, give the area of a
 * node and aggregate the region's size and barycenter.
 */
module RegionTree2S {
  import opened Wrappers
  import opened Geometry
  import opened BspTree
  import opened RegionSize

  /** Size of a region and its barycenter; no barycenter when it is not defined. */
  datatype RegionSizeProperties = RegionSizeProperties(size: real, barycenter: Option<Point2S>)

  /** The list the convex decomposition appends its areas to. */
  class ConvexAreaList {
    var items: seq<ConvexArea>

    constructor ()
      ensures items == []
    {
      items := [];
    }

    method Add(area: ConvexArea)
      modifies this
      ensures items == old(items) + [area]
    {
      items := items + [area];
    }
  }

  class RegionBSPTree2S {
    /** The root node; the whole tree is held as one value below it. */
    var root: Tree
    /** The boundary as connected paths, once computed; None when not (yet) computed. */
    var boundaryPaths: Option<seq<GreatArcPath>>

    /** A tree covering the whole sphere when `full`, and nothing otherwise. */
    constructor (full: bool)
      ensures root == Leaf(full) && boundaryPaths == None
      ensures forall f :: CacheValid(f)
    {
      root := Leaf(full);
      boundaryPaths := None;
    }

    static method Empty() returns (tree: RegionBSPTree2S)
      ensures fresh(tree) && tree.root == Leaf(false) && tree.boundaryPaths == None
      ensures forall f :: tree.CacheValid(f)
    {
      tree := new RegionBSPTree2S(false);
    }

    static method Full() returns (tree: RegionBSPTree2S)
      ensures fresh(tree) && tree.root == Leaf(true) && tree.boundaryPaths == None
      ensures forall f :: tree.CacheValid(f)
    {
      tree := new RegionBSPTree2S(true);
    }

    /** The tree of a convex area, built by inserting its boundary into a full tree. */
    static method From(boundaries: seq<GreatCircle>) returns (tree: RegionBSPTree2S)
      ensures fresh(tree) && tree.root == ConvexTree(boundaries) && tree.boundaryPaths == None
      ensures forall f :: tree.CacheValid(f)
    {
      tree := Full();
      tree.ReplaceRoot(ConvexTree(boundaries));
    }

    /** An independent copy of this tree, with nothing cached. */
    method Copy() returns (copy: RegionBSPTree2S)
      ensures fresh(copy) && copy.root == root && copy.boundaryPaths == None
      ensures forall f :: copy.CacheValid(f)
    {
      copy := Empty();
      copy.CopyFrom(this);
    }

    /** Makes this tree a copy of the given one. */
    method CopyFrom(tree: RegionBSPTree2S)
      modifies this
      ensures root == old(tree.root) && boundaryPaths == None
      ensures forall f :: CacheValid(f)
    {
      ReplaceRoot(tree.root);
    }

    /** A structural change: the nodes are replaced and derived data is dropped. */
    method ReplaceRoot(newRoot: Tree)
      modifies this
      ensures root == newRoot && boundaryPaths == None
      ensures forall f :: CacheValid(f)
    {
      root := newRoot;
      Invalidate();
    }

    /**
     * The region is the whole sphere: no leaf is outside. A tree left
     * unsimplified after insertion can be full without being a single leaf.
     */
    predicate IsFull()
      reads this
      ensures IsFull() ==> forall sideOf: GreatCircle -> Side :: Classify(root, sideOf)
      ensures IsFull() ==> |Cells(root, FullArea())| > 0
    {
      if AllLeavesInside(root) then
        AllInsideClassifiesInside(root);
        assert InsideLeafCount(root) > 0 by { AllInsideHasInsideLeaf(root); }
        true
      else false
    }

    /** The region is empty: no leaf is inside. */
    predicate IsEmpty()
      reads this
      ensures IsEmpty() <==> Cells(root, FullArea()) == []
      ensures IsEmpty() ==> forall sideOf: GreatCircle -> Side :: !Classify(root, sideOf)
    {
      if InsideLeafCount(root) == 0 then
        NoInsideClassifiesOutside(root);
        true
      else false
    }

    /** The cache agrees with the tree it was computed from. */
    ghost predicate CacheValid(connectAll: Tree -> seq<GreatArcPath>)
      reads this
    {
      boundaryPaths.Some? ==> boundaryPaths.value == connectAll(root)
    }

    /**
     * The boundary as connected paths: computed by `connectAll` on the first
     * call and cached, then returned from the cache until invalidated.
     */
    method GetBoundaryPaths(connectAll: Tree -> seq<GreatArcPath>) returns (paths: seq<GreatArcPath>)
      modifies this`boundaryPaths
      ensures old(boundaryPaths).Some? ==> paths == old(boundaryPaths).value
      ensures old(boundaryPaths).None? ==> paths == connectAll(root)
      ensures boundaryPaths == Some(paths)
      ensures old(CacheValid(connectAll)) ==> CacheValid(connectAll) && paths == connectAll(root)
    {
      if boundaryPaths.None? {
        boundaryPaths := Some(connectAll(root));
      }
      paths := boundaryPaths.value;
    }

    /** Drops the cached boundary paths; the tree itself is unchanged. */
    method Invalidate()
      modifies this`boundaryPaths
      ensures boundaryPaths == None
      ensures forall f :: CacheValid(f)
    {
      boundaryPaths := None;
    }

    /** The convex areas of the inside leaves, in tree order. */
    method ToConvex() returns (areas: seq<ConvexArea>)
      ensures areas == Cells(root, FullArea())
    {
      var result := new ConvexAreaList();
      ToConvexRecursive(root, FullArea(), result);
      areas := result.items;
    }

    /**
     * Appends to `result` the convex areas of the inside leaves below
     * `node`, whose own area is `nodeArea`.
     */
    method ToConvexRecursive(node: Tree, nodeArea: ConvexArea, result: ConvexAreaList)
      modifies result
      ensures result.items == old(result.items) + Cells(node, nodeArea)
      decreases node
    {
      if node.Leaf? {
        if node.inside {
          result.Add(nodeArea);
        }
      } else {
        var split := SplitArea(nodeArea, node.cut);
        ToConvexRecursive(node.minus, split.minus, result);
        ToConvexRecursive(node.plus, split.plus, result);
      }
    }

    /**
     * The size of the region and its barycenter. `size` and `barycenter`
     * measure one convex area, `isZero` compares a vector with zero under the
     * precision of a cut, and `pointFrom` turns a vector into a point.
     */
    method ComputeRegionSizeProperties(size: ConvexArea -> real, barycenter: ConvexArea -> Vector3,
                                       isZero: (GreatCircle, Vector3) -> bool, pointFrom: Vector3 -> Point2S)
      returns (props: RegionSizeProperties)
      ensures IsFull() ==> props == RegionSizeProperties(FULL_SIZE, None)
      ensures IsEmpty() ==> props == RegionSizeProperties(0.0, None)
      ensures !IsFull() && !IsEmpty() ==> root.Node?
      ensures !IsFull() && !IsEmpty() ==> props.size == SumSizes(Cells(root, FullArea()), size)
      ensures !IsFull() && !IsEmpty() ==>
                var sum := WeightedBarycenter(Cells(root, FullArea()), size, barycenter);
                props.barycenter == if isZero(root.cut, sum) then None else Some(pointFrom(sum))
    {
      if IsFull() {
        return RegionSizeProperties(FULL_SIZE, None);
      } else if IsEmpty() {
        return RegionSizeProperties(0.0, None);
      }

      var areas := ToConvex();
      var sizeSum := 0.0;
      var barycenterVector := ZERO;
      for i := 0 to |areas|
        invariant sizeSum == SumSizes(areas[..i], size)
        invariant barycenterVector == WeightedBarycenter(areas[..i], size, barycenter)
      {
        var area := areas[i];
        var areaSize := size(area);
        sizeSum := sizeSum + areaSize;
        barycenterVector := LinearCombination(1.0, barycenterVector, areaSize, barycenter(area));
        assert areas[..i + 1][..i] == areas[..i];
      }
      assert areas[..|areas|] == areas;

      var center := if isZero(root.cut, barycenterVector) then None else Some(pointFrom(barycenterVector));
      props := RegionSizeProperties(sizeSum, center);
    }

    /**
     * The area of a node: the full sphere cut down by each ancestor's cut,
     * on the side of it the node lies, walking up from the node to the root.
     */
    method ComputeNodeRegion(node: Path) returns (area: ConvexArea)
      requires ValidPath(root, node)
      ensures area.constraints == Reverse(PathConstraints(root, node))
      ensures node == [] ==> area == FullArea()
    {
      area := FullArea();
      var child := node;
      while child != []
        invariant |child| <= |node| && child == node[..|child|]
        invariant area.constraints == Reverse(PathConstraints(root, node)[|child|..])
        decreases |child|
      {
        var parent := child[..|child| - 1];
        NodeRegionStep(root, node, |child|, area.constraints);
        assert parent == node[..|child| - 1];
        assert child[|child| - 1] == node[|child| - 1];
        var split := SplitArea(area, Subtree(root, parent).cut);
        area := if child[|child| - 1] == Minus then split.minus else split.plus;
        child := parent;
      }
    }
  }
}
