# Spherical region BSP tree

A model of `RegionBSPTree2S`, the binary space-partitioning tree that stores
a region of the 2-sphere. Interior nodes carry a cut (a great circle) that
separates a minus child from a plus child. Leaves are marked inside or
outside. The model covers the algorithms this class adds on top of the
generic tree:

- the convex decomposition (`toConvex`, `toConvexRecursive`);
- the area of a node, computed by walking from the node up to the root
  (`computeNodeRegion`, `getNodeRegion`);
- the size and barycenter aggregation over the convex cells
  (`computeRegionSizeProperties`);
- the lazily computed boundary-path cache (`getBoundaryPaths`, `invalidate`);
- the `empty`, `full`, `from` and `copy` factories;
- the projector's tie-break between equidistant points
  (`BoundaryProjector2S.disambiguateClosestPoint`).

Geometry stays symbolic. A convex area is the list of (great circle, side)
constraints it was cut from, and the full sphere is the empty list.
Splitting an area by a circle appends one constraint to each part. A point
that lies on none of the cuts is given by the side of each circle it lies on,
and an area contains it when it meets every constraint. The size and
barycenter of one convex area, the comparison of a vector with zero and the
conversion of a vector to a point are parameters of the operations that use
them. A node of the tree is named by its path from the root, a sequence of
minus/plus steps. Its parent is the path without the last step.

Modules:

- `Geometry` (`geometry.dfy`): points, vectors, great circles, symbolic
  convex areas and their split.
- `BspTree` (`bsp_tree.dfy`): the tree datatype, paths, the specification
  `Cells` of the decomposition, and point classification. It also holds the
  lemmas relating these.
- `RegionSize` (`region_size.dfy`): the specification of the size and
  barycenter sums, with their additivity and bounds.
- `Projection` (`projection.dfy`): the tie-break.
- `RegionTree2S` (`region_tree.dfy`): the class `RegionBSPTree2S`. It holds
  the root and the `boundaryPaths` cache, and its methods are proved against
  the functions above. `ConvexAreaList` is the list the decomposition
  appends to.
- `Wrappers` (`wrappers.dfy`): `Option`, a value that may be absent.

## Model

| member | source | states |
|---|---|---|
| `Geometry.ComparePolarAzimuth` | commons-geometry-spherical/src/main/java/org/apache/commons/geometry/spherical/twod/RegionBSPTree2S.java:287 | the comparator is negative exactly when the first point comes first in polar-then-azimuth order, positive exactly when the second does, and zero exactly for equal points |
| `Geometry.FullArea` | commons-geometry-spherical/src/main/java/org/apache/commons/geometry/spherical/twod/RegionBSPTree2S.java:99 | the starting area of the decomposition contains every point |
| `Geometry.SplitKeepsSides` | commons-geometry-spherical/src/main/java/org/apache/commons/geometry/spherical/twod/RegionBSPTree2S.java:120-123 | the minus (plus) part of a split holds exactly the points of the area on the minus (plus) side of the splitter |
| `BspTree.PathConstraintAt` | commons-geometry-spherical/src/main/java/org/apache/commons/geometry/spherical/twod/RegionBSPTree2S.java:201-206 | every proper prefix of a node's path names an interior node; the i-th constraint on the way down is that ancestor's cut with the i-th step's side |
| `BspTree.InsideLeaves` | commons-geometry-spherical/src/main/java/org/apache/commons/geometry/spherical/twod/RegionBSPTree2S.java:90-93 | lists one path per inside leaf, and each listed path names an inside leaf of the tree |
| `BspTree.InsideLeavesComplete` | commons-geometry-spherical/src/main/java/org/apache/commons/geometry/spherical/twod/RegionBSPTree2S.java:90-93 | every inside leaf of the tree is listed |
| `BspTree.InsideLeavesInTreeOrder` | commons-geometry-spherical/src/main/java/org/apache/commons/geometry/spherical/twod/RegionBSPTree2S.java:122-123 | the inside leaves are listed strictly in tree order: a leaf comes before every leaf of the plus side of any node whose minus side holds it, so no leaf is listed twice |
| `BspTree.Cells` | commons-geometry-spherical/src/main/java/org/apache/commons/geometry/spherical/twod/RegionBSPTree2S.java:111-125 | the decomposition holds exactly one area per inside leaf; a full tree gives one area and an empty tree none |
| `BspTree.CellsAreLeafAreas` | commons-geometry-spherical/src/main/java/org/apache/commons/geometry/spherical/twod/RegionBSPTree2S.java:111-125 | the k-th area emitted is the starting area cut by the constraints on the way to the k-th inside leaf, in root-to-leaf order |
| `BspTree.CellsCoverInside` | commons-geometry-spherical/src/main/java/org/apache/commons/geometry/spherical/twod/RegionBSPTree2S.java:90-95 | a point lies in some emitted area if and only if it lies in the starting area and the tree classifies it as inside |
| `BspTree.CellsDisjoint` | commons-geometry-spherical/src/main/java/org/apache/commons/geometry/spherical/twod/RegionBSPTree2S.java:90-95 | no point lies in two emitted areas |
| `BspTree.NodeRegionOfInsideLeaf` | commons-geometry-spherical/src/main/java/org/apache/commons/geometry/spherical/twod/RegionBSPTree2S.java:195-210 | the node area of the k-th inside leaf, built bottom-up, has the same constraints (as a multiset) as the k-th emitted area, and a point lies in one exactly when it lies in the other |
| `BspTree.ConvexTreeRoundTrip` | commons-geometry-spherical/src/main/java/org/apache/commons/geometry/spherical/twod/RegionBSPTree2S.java:240-245 | decomposing the tree built from a convex area's boundary circles gives back exactly one area, the one bounded by those circles |
| `BspTree.MinusAreaContains` | commons-geometry-spherical/src/main/java/org/apache/commons/geometry/spherical/twod/RegionBSPTree2S.java:240-245 | the convex area a tree is built from holds exactly the points on the minus side of each of its boundary circles, which is the single area the round trip gives back |
| `RegionSize.SumSizesAppend` | commons-geometry-spherical/src/main/java/org/apache/commons/geometry/spherical/twod/RegionBSPTree2S.java:157-168 | the size sum over two lists of areas in a row is the sum of the two sums |
| `RegionSize.WeightedBarycenterAppend` | commons-geometry-spherical/src/main/java/org/apache/commons/geometry/spherical/twod/RegionBSPTree2S.java:158-168 | the barycenter accumulator over two lists of areas in a row is the vector sum of the two accumulators |
| `RegionSize.AllInsideSize` | commons-geometry-spherical/src/main/java/org/apache/commons/geometry/spherical/twod/RegionBSPTree2S.java:146-168 | when splitting preserves size, a tree whose leaves are all inside decomposes into areas whose sizes sum to the starting area's size |
| `RegionSize.ShortCircuitAgreesWithDecomposition` | commons-geometry-spherical/src/main/java/org/apache/commons/geometry/spherical/twod/RegionBSPTree2S.java:146-168 | when splitting preserves size and the full sphere has size 4 pi, the full and empty short-circuits give what decomposing the tree would give: 4 pi for a tree with no outside leaf, 0 for a tree with no inside leaf |
| `RegionSize.SizeBounds` | commons-geometry-spherical/src/main/java/org/apache/commons/geometry/spherical/twod/RegionBSPTree2S.java:154-168 | when splitting preserves size and sizes are non-negative, the summed size lies between zero and the size of the starting area |
| `Projection.DisambiguateClosestPoint` | commons-geometry-spherical/src/main/java/org/apache/commons/geometry/spherical/twod/RegionBSPTree2S.java:285-289 | returns one of the two candidates; the first exactly when it strictly precedes the second in polar-then-azimuth order (or equals it); the result never comes after either candidate |
| `Projection.DisambiguateCommutes` | commons-geometry-spherical/src/main/java/org/apache/commons/geometry/spherical/twod/RegionBSPTree2S.java:285-289 | the choice does not depend on the order of the two candidates |
| `Projection.DisambiguateAssociates` | commons-geometry-spherical/src/main/java/org/apache/commons/geometry/spherical/twod/RegionBSPTree2S.java:285-289 | folding the choice over three candidates gives the same point however they are grouped |
| `RegionTree2S.ConvexAreaList.constructor` | commons-geometry-spherical/src/main/java/org/apache/commons/geometry/spherical/twod/RegionBSPTree2S.java:97 | a new result list is empty |
| `RegionTree2S.ConvexAreaList.Add` | commons-geometry-spherical/src/main/java/org/apache/commons/geometry/spherical/twod/RegionBSPTree2S.java:116 | adding appends one area and keeps every existing entry |
| `RegionTree2S.RegionBSPTree2S.constructor` | commons-geometry-spherical/src/main/java/org/apache/commons/geometry/spherical/twod/RegionBSPTree2S.java:51-53 | a new tree is one leaf, inside exactly when `full`, with no cached boundary paths |
| `RegionTree2S.RegionBSPTree2S.Empty` | commons-geometry-spherical/src/main/java/org/apache/commons/geometry/spherical/twod/RegionBSPTree2S.java:223-225 | a fresh tree made of one outside leaf |
| `RegionTree2S.RegionBSPTree2S.Full` | commons-geometry-spherical/src/main/java/org/apache/commons/geometry/spherical/twod/RegionBSPTree2S.java:231-233 | a fresh tree made of one inside leaf |
| `RegionTree2S.RegionBSPTree2S.From` | commons-geometry-spherical/src/main/java/org/apache/commons/geometry/spherical/twod/RegionBSPTree2S.java:240-245 | a fresh tree holding the chain of the convex area's boundary cuts, with nothing cached |
| `RegionTree2S.RegionBSPTree2S.Copy` | commons-geometry-spherical/src/main/java/org/apache/commons/geometry/spherical/twod/RegionBSPTree2S.java:59-64 | a fresh tree with the same structure and nothing cached; this tree is unchanged |
| `RegionTree2S.RegionBSPTree2S.CopyFrom` | commons-geometry-spherical/src/main/java/org/apache/commons/geometry/spherical/twod/RegionBSPTree2S.java:61 | copying takes the other tree's structure and drops this tree's cached paths |
| `RegionTree2S.RegionBSPTree2S.ReplaceRoot` | commons-geometry-spherical/src/main/java/org/apache/commons/geometry/spherical/twod/RegionBSPTree2S.java:185-189 | a structural change installs the new nodes and clears the boundary-path cache |
| `RegionTree2S.RegionBSPTree2S.GetBoundaryPaths` | commons-geometry-spherical/src/main/java/org/apache/commons/geometry/spherical/twod/RegionBSPTree2S.java:83-88 | a cached value is returned as it is, without recomputation; otherwise the paths are computed from the tree and cached; a cache consistent with the tree stays so and the result is never stale |
| `RegionTree2S.RegionBSPTree2S.Invalidate` | commons-geometry-spherical/src/main/java/org/apache/commons/geometry/spherical/twod/RegionBSPTree2S.java:185-189 | the cached paths are cleared and the tree is untouched |
| `RegionTree2S.RegionBSPTree2S.ToConvex` | commons-geometry-spherical/src/main/java/org/apache/commons/geometry/spherical/twod/RegionBSPTree2S.java:96-102 | returns the decomposition `Cells` of the whole tree from the full sphere |
| `RegionTree2S.RegionBSPTree2S.ToConvexRecursive` | commons-geometry-spherical/src/main/java/org/apache/commons/geometry/spherical/twod/RegionBSPTree2S.java:111-125 | only appends: the list afterwards is the list before followed by the areas of the inside leaves below the node |
| `RegionTree2S.RegionBSPTree2S.IsFull` | commons-geometry-spherical/src/main/java/org/apache/commons/geometry/spherical/twod/RegionBSPTree2S.java:148-149 | a tree with no outside leaf classifies every point as inside and has at least one convex cell |
| `RegionTree2S.RegionBSPTree2S.IsEmpty` | commons-geometry-spherical/src/main/java/org/apache/commons/geometry/spherical/twod/RegionBSPTree2S.java:150-152 | a tree is empty exactly when its decomposition has no cell; it then classifies every point as outside |
| `RegionTree2S.RegionBSPTree2S.ComputeRegionSizeProperties` | commons-geometry-spherical/src/main/java/org/apache/commons/geometry/spherical/twod/RegionBSPTree2S.java:146-175 | full tree (no outside leaf): 4 pi and no barycenter; empty tree (no inside leaf): 0 and no barycenter; otherwise the root is a cut, the size is the sum of the sizes of the decomposition's areas, and the barycenter is absent when the size-weighted vector sum is zero under the root cut's precision |
| `RegionTree2S.RegionBSPTree2S.ComputeNodeRegion` | commons-geometry-spherical/src/main/java/org/apache/commons/geometry/spherical/twod/RegionBSPTree2S.java:195-210 | the area of a node is built from its ancestors' (cut, side) constraints in leaf-to-root order, the reverse of the decomposition's order; the root's area is the full sphere |

## Left out

- Spherical geometry. `split`, `getSize` and `getBarycenter` of a convex area, great-circle arithmetic, `Point2S.from` and `Vector3D.eq` with a precision context are left out. The split is symbolic and the others are parameters.
- The symbolic split always yields two areas. The geometric split can yield no area on a side the area does not reach. A well-formed tree, whose every cut crosses its node's area, never does this.
- Floating point. Sizes and vectors are exact reals. `FULL_SIZE` is 4 times the 16-digit decimal of `Math.PI`. `Double.compare`'s treatment of NaN and signed zeros is not modelled.
- `boundaries()` and `getBoundaries()` (lines 68-76). They come from the generic tree's boundary extraction, which is not part of this model.
- `computeBoundaryPaths` (lines 215-218) and the arc connector it uses are not part of this model. The connector is the parameter `connectAll`, a function of the tree.
- `split(splitter)` (lines 129-131), `project` (lines 135-142) and the visitor behind it, and `createNode` (lines 179-181). They rest on the generic tree's algorithms, which are not part of this model. Only the projector's tie-break is modelled.
- `RegionNode2S.getNodeRegion` (lines 262-264) is the call of `computeNodeRegion` with the node. Nodes are paths from the root, so parent links and node identity are not modelled.
- `RegionTree2S.RegionBSPTree2S.From`: the generic `insert` is not part of this model. The tree is taken to be the shape insertion gives when each boundary arc lies on the minus side of the circles inserted before it, as a convex area's boundary does.
- `RegionTree2S.RegionBSPTree2S.CopyFrom` and `ReplaceRoot` stand for the generic tree's `copy(tree)` and structural changes. The one thing modelled is that they clear derived data.
- `super.invalidate()` (line 186) and the generic tree's cache of size properties are not modelled. Only the `boundaryPaths` field is.
- `isFull()` and `isEmpty()` belong to the generic tree, which is not part of this model. `IsFull` is read as "no leaf is outside" and `IsEmpty` as "no leaf is inside", so an unsimplified tree whose leaves are all inside (or all outside) is short-circuited like a single leaf.
- Classification of points lying on a cut is not modelled. `Classify` and the cell lemmas are about points on none of the cuts.
