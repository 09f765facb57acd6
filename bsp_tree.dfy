/**
 * The shape of a region BSP tree on the 2-sphere and the specifications of
 * the walks the region tree makes over it: the convex decomposition, the
 * constraints on the way down to a node, and the inside/outside
 * classification of points.
 */
module BspTree {
  import opened Geometry

  /**
   * A node of the tree: a leaf marked inside or outside, or an interior node
   * whose cut separates its minus child from its plus child.
   */
  datatype Tree = Leaf(inside: bool) | Node(cut: GreatCircle, minus: Tree, plus: Tree)

  /**
   * A node of a tree, named by the steps from the root down to it. Its parent
   * is the path without its last step; the last step says whether it is the
   * minus or the plus child of that parent.
   */
  type Path = seq<Side>

  function Child(t: Tree, side: Side): Tree
    requires t.Node?
  {
    if side == Minus then t.minus else t.plus
  }

  /** Whether the path names a node of the tree. */
  predicate ValidPath(t: Tree, p: Path) {
    p == [] || (t.Node? && ValidPath(Child(t, p[0]), p[1..]))
  }

  /** The node a path names. */
  function Subtree(t: Tree, p: Path): Tree
    requires ValidPath(t, p)
  {
    if p == [] then t else Subtree(Child(t, p[0]), p[1..])
  }

  /**
   * The constraints met on the way from the root down to the node: at each
   * ancestor, its cut with the side the path takes.
   */
  function PathConstraints(t: Tree, p: Path): (cs: seq<Constraint>)
    requires ValidPath(t, p)
    ensures |cs| == |p|
  {
    if p == [] then [] else [Constraint(t.cut, p[0])] + PathConstraints(Child(t, p[0]), p[1..])
  }

  /** The i-th constraint on the way down is the cut of the i-th ancestor, with the i-th step. */
  lemma {:induction false} PathConstraintAt(t: Tree, p: Path, i: nat)
    requires ValidPath(t, p) && i < |p|
    ensures ValidPath(t, p[..i]) && Subtree(t, p[..i]).Node?
    ensures PathConstraints(t, p)[i] == Constraint(Subtree(t, p[..i]).cut, p[i])
  {
    if i > 0 {
      PathConstraintAt(Child(t, p[0]), p[1..], i - 1);
      assert p[..i][1..] == p[1..][..i - 1];
    }
  }

  function InsideLeafCount(t: Tree): nat {
    match t
    case Leaf(inside) => if inside then 1 else 0
    case Node(_, minus, plus) => InsideLeafCount(minus) + InsideLeafCount(plus)
  }

  predicate AllLeavesInside(t: Tree) {
    match t
    case Leaf(inside) => inside
    case Node(_, minus, plus) => AllLeavesInside(minus) && AllLeavesInside(plus)
  }

  /** Puts one more step in front of every path. */
  function Prefixed(side: Side, ps: seq<Path>): seq<Path> {
    seq(|ps|, k requires 0 <= k < |ps| => [side] + ps[k])
  }

  lemma PrefixedAt(side: Side, ps: seq<Path>, k: nat)
    requires k < |ps|
    ensures |Prefixed(side, ps)| == |ps| && Prefixed(side, ps)[k] == [side] + ps[k]
  {
  }

  /** A path under a child of a node, with that step in front, is a path of the node. */
  lemma PrefixedPathsValid(t: Tree, side: Side, ps: seq<Path>)
    requires t.Node?
    requires forall k :: 0 <= k < |ps| ==> ValidPath(Child(t, side), ps[k]) && Subtree(Child(t, side), ps[k]) == Leaf(true)
    ensures forall k :: 0 <= k < |ps| ==> ValidPath(t, Prefixed(side, ps)[k]) && Subtree(t, Prefixed(side, ps)[k]) == Leaf(true)
  {
    forall k | 0 <= k < |ps|
      ensures ValidPath(t, Prefixed(side, ps)[k]) && Subtree(t, Prefixed(side, ps)[k]) == Leaf(true)
    {
      var p := Prefixed(side, ps)[k];
      assert p[0] == side && p[1..] == ps[k];
    }
  }

  /**
   * The inside leaves of the tree, in tree order (all of a node's minus
   * subtree before all of its plus subtree).
   */
  function InsideLeaves(t: Tree): (ps: seq<Path>)
    ensures |ps| == InsideLeafCount(t)
    ensures forall k :: 0 <= k < |ps| ==> ValidPath(t, ps[k]) && Subtree(t, ps[k]) == Leaf(true)
  {
    match t
    case Leaf(inside) => if inside then [[]] else []
    case Node(_, minus, plus) =>
      var lm, lp := InsideLeaves(minus), InsideLeaves(plus);
      PrefixedPathsValid(t, Minus, lm);
      PrefixedPathsValid(t, Plus, lp);
      Prefixed(Minus, lm) + Prefixed(Plus, lp)
  }

  /**
   * Specification of the convex decomposition: the cells of the inside
   * leaves below a node whose area is `area`, splitting the area by each
   * cut on the way down, minus side first.
   */
  function Cells(t: Tree, area: ConvexArea): (cells: seq<ConvexArea>)
    ensures |cells| == InsideLeafCount(t)
  {
    match t
    case Leaf(inside) => if inside then [area] else []
    case Node(cut, minus, plus) =>
      var split := SplitArea(area, cut);
      Cells(minus, split.minus) + Cells(plus, split.plus)
  }

  /**
   * Inside/outside classification of a point lying on none of the cuts:
   * descend on the side of each cut the point lies on.
   */
  predicate Classify(t: Tree, sideOf: GreatCircle -> Side) {
    match t
    case Leaf(inside) => inside
    case Node(cut, minus, plus) =>
      if sideOf(cut) == Minus then Classify(minus, sideOf) else Classify(plus, sideOf)
  }

  /** A tree with no outside leaf has at least one inside leaf. */
  lemma {:induction false} AllInsideHasInsideLeaf(t: Tree)
    requires AllLeavesInside(t)
    ensures InsideLeafCount(t) > 0
  {
    if t.Node? {
      AllInsideHasInsideLeaf(t.minus);
    }
  }

  /** A tree with no outside leaf classifies every point as inside. */
  lemma {:induction false} AllInsideClassifiesInside(t: Tree)
    requires AllLeavesInside(t)
    ensures forall sideOf: GreatCircle -> Side :: Classify(t, sideOf)
  {
    if t.Node? {
      AllInsideClassifiesInside(t.minus);
      AllInsideClassifiesInside(t.plus);
    }
  }

  /** A tree with no inside leaf classifies every point as outside. */
  lemma {:induction false} NoInsideClassifiesOutside(t: Tree)
    requires InsideLeafCount(t) == 0
    ensures forall sideOf: GreatCircle -> Side :: !Classify(t, sideOf)
  {
    if t.Node? {
      NoInsideClassifiesOutside(t.minus);
      NoInsideClassifiesOutside(t.plus);
    }
  }

  /** Strictly earlier in tree order: the paths agree up to a step where the first goes minus and the second plus. */
  predicate PathBefore(p: Path, q: Path) {
    |p| > 0 && |q| > 0 &&
    ((p[0] == Minus && q[0] == Plus) || (p[0] == q[0] && PathBefore(p[1..], q[1..])))
  }

  /** Every inside leaf of the tree appears among the inside leaves. */
  lemma {:induction false} InsideLeavesComplete(t: Tree, p: Path)
    requires ValidPath(t, p) && Subtree(t, p) == Leaf(true)
    ensures p in InsideLeaves(t)
  {
    if p != [] {
      var side, q := p[0], p[1..];
      var lm := InsideLeaves(t.minus);
      var lc := InsideLeaves(Child(t, side));
      InsideLeavesComplete(Child(t, side), q);
      var j :| 0 <= j < |lc| && lc[j] == q;
      var k := if side == Minus then j else |lm| + j;
      InsideLeafOfNode(t, k);
      assert InsideLeaves(t)[k] == [side] + q == p;
    }
  }

  /** The inside leaves are listed strictly in tree order, hence each exactly once. */
  lemma {:induction false} InsideLeavesInTreeOrder(t: Tree)
    ensures forall i, j :: 0 <= i < j < |InsideLeaves(t)| ==> PathBefore(InsideLeaves(t)[i], InsideLeaves(t)[j])
  {
    if t.Node? {
      var lm, lp := InsideLeaves(t.minus), InsideLeaves(t.plus);
      var r := InsideLeaves(t);
      InsideLeavesInTreeOrder(t.minus);
      InsideLeavesInTreeOrder(t.plus);
      forall i, j | 0 <= i < j < |r| ensures PathBefore(r[i], r[j]) {
        if j < |lm| {
          assert r[i][1..] == lm[i] && r[j][1..] == lm[j];
        } else if |lm| <= i {
          assert r[i][1..] == lp[i - |lm|] && r[j][1..] == lp[j - |lm|];
        }
      }
    }
  }

  /** The path constraints of a path through a node's child, with that step in front. */
  lemma PathConstraintsCons(t: Tree, side: Side, q: Path)
    requires t.Node? && ValidPath(Child(t, side), q)
    ensures ValidPath(t, [side] + q)
    ensures PathConstraints(t, [side] + q) == [Constraint(t.cut, side)] + PathConstraints(Child(t, side), q)
  {
    assert ([side] + q)[0] == side && ([side] + q)[1..] == q;
  }

  /** The k-th inside leaf of a node is the k-th of its minus child, or the next ones of its plus child. */
  lemma InsideLeafOfNode(t: Tree, k: nat)
    requires t.Node? && k < InsideLeafCount(t)
    ensures k < InsideLeafCount(t.minus) ==> InsideLeaves(t)[k] == [Minus] + InsideLeaves(t.minus)[k]
    ensures k >= InsideLeafCount(t.minus) ==>
              InsideLeaves(t)[k] == [Plus] + InsideLeaves(t.plus)[k - InsideLeafCount(t.minus)]
  {
    var lm, lp := InsideLeaves(t.minus), InsideLeaves(t.plus);
    assert InsideLeaves(t) == Prefixed(Minus, lm) + Prefixed(Plus, lp);
    if k < |lm| {
      PrefixedAt(Minus, lm, k);
    } else {
      PrefixedAt(Plus, lp, k - |lm|);
    }
  }

  /** The k-th cell of a node is the k-th of its minus child, or the next ones of its plus child. */
  lemma CellOfNode(t: Tree, area: ConvexArea, k: nat)
    requires t.Node? && k < InsideLeafCount(t)
    ensures k < InsideLeafCount(t.minus) ==> Cells(t, area)[k] == Cells(t.minus, SplitArea(area, t.cut).minus)[k]
    ensures k >= InsideLeafCount(t.minus) ==>
              Cells(t, area)[k] == Cells(t.plus, SplitArea(area, t.cut).plus)[k - InsideLeafCount(t.minus)]
  {
  }

  /**
   * The k-th cell is the starting area cut down by the constraints on the
   * way to the k-th inside leaf, in root-to-leaf order.
   */
  lemma {:induction false} CellsAreLeafAreas(t: Tree, area: ConvexArea, k: nat)
    requires k < |Cells(t, area)|
    decreases t, 1
    ensures k < |InsideLeaves(t)|
    ensures Cells(t, area)[k] == ConvexArea(area.constraints + PathConstraints(t, InsideLeaves(t)[k]))
  {
    if t.Leaf? {
      assert area.constraints + [] == area.constraints;
    } else if k < InsideLeafCount(t.minus) {
      CellsAreLeafAreasBelow(t, area, k, Minus, k);
    } else {
      CellsAreLeafAreasBelow(t, area, k, Plus, k - InsideLeafCount(t.minus));
    }
  }

  /** The inductive step of CellsAreLeafAreas, through the child on the given side. */
  lemma {:induction false} CellsAreLeafAreasBelow(t: Tree, area: ConvexArea, k: nat, side: Side, j: nat)
    requires t.Node? && k < InsideLeafCount(t)
    requires side == Minus ==> k < InsideLeafCount(t.minus) && j == k
    requires side == Plus ==> k >= InsideLeafCount(t.minus) && j == k - InsideLeafCount(t.minus)
    decreases t, 0
    ensures Cells(t, area)[k] == ConvexArea(area.constraints + PathConstraints(t, InsideLeaves(t)[k]))
  {
    var child := Child(t, side);
    var c := Constraint(t.cut, side);
    var childArea := ConvexArea(area.constraints + [c]);
    var cs := LeafConstraintsOfNode(t, k, side, j);
    CellOfNodeOnSide(t, area, k, side, j);
    CellsAreLeafAreas(child, childArea, j);
    assert (area.constraints + [c]) + cs == area.constraints + ([c] + cs);
  }

  /** The k-th cell of a node is the j-th cell of the child on the given side, in that child's area. */
  lemma CellOfNodeOnSide(t: Tree, area: ConvexArea, k: nat, side: Side, j: nat)
    requires t.Node? && k < InsideLeafCount(t)
    requires side == Minus ==> k < InsideLeafCount(t.minus) && j == k
    requires side == Plus ==> k >= InsideLeafCount(t.minus) && j == k - InsideLeafCount(t.minus)
    ensures j < |Cells(Child(t, side), ConvexArea(area.constraints + [Constraint(t.cut, side)]))|
    ensures Cells(t, area)[k] == Cells(Child(t, side), ConvexArea(area.constraints + [Constraint(t.cut, side)]))[j]
  {
    CellOfNode(t, area, k);
  }

  /**
   * The constraints on the way to the k-th inside leaf of a node: the node's
   * cut, then those on the way to the j-th inside leaf of the child on the
   * given side.
   */
  lemma LeafConstraintsOfNode(t: Tree, k: nat, side: Side, j: nat) returns (cs: seq<Constraint>)
    requires t.Node? && k < InsideLeafCount(t)
    requires side == Minus ==> k < InsideLeafCount(t.minus) && j == k
    requires side == Plus ==> k >= InsideLeafCount(t.minus) && j == k - InsideLeafCount(t.minus)
    ensures j < |InsideLeaves(Child(t, side))|
    ensures cs == PathConstraints(Child(t, side), InsideLeaves(Child(t, side))[j])
    ensures PathConstraints(t, InsideLeaves(t)[k]) == [Constraint(t.cut, side)] + cs
  {
    var q := InsideLeaves(Child(t, side))[j];
    InsideLeafOfNode(t, k);
    PathConstraintsCons(t, side, q);
    cs := PathConstraints(Child(t, side), q);
  }

  /** Some cell of the list contains the point. */
  predicate SomeCellContains(cells: seq<ConvexArea>, sideOf: GreatCircle -> Side) {
    exists k :: 0 <= k < |cells| && ContainsPoint(cells[k], sideOf)
  }

  /** A point is in some cell of two lists in a row exactly when it is in some cell of either. */
  lemma SomeCellContainsAppend(a: seq<ConvexArea>, b: seq<ConvexArea>, sideOf: GreatCircle -> Side)
    ensures SomeCellContains(a + b, sideOf) <==> SomeCellContains(a, sideOf) || SomeCellContains(b, sideOf)
  {
    if SomeCellContains(a + b, sideOf) {
      var k :| 0 <= k < |a + b| && ContainsPoint((a + b)[k], sideOf);
      if k < |a| {
        assert (a + b)[k] == a[k];
      } else {
        assert (a + b)[k] == b[k - |a|];
      }
    }
    if SomeCellContains(a, sideOf) {
      var k :| 0 <= k < |a| && ContainsPoint(a[k], sideOf);
      assert (a + b)[k] == a[k];
    }
    if SomeCellContains(b, sideOf) {
      var k :| 0 <= k < |b| && ContainsPoint(b[k], sideOf);
      assert (a + b)[|a| + k] == b[k];
    }
  }

  /**
   * The cells cover exactly the inside of the region within the starting
   * area: a point lies in some cell if and only if it lies in the area and
   * the tree classifies it as inside.
   */
  lemma {:induction false} CellsCoverInside(t: Tree, area: ConvexArea, sideOf: GreatCircle -> Side)
    ensures SomeCellContains(Cells(t, area), sideOf) <==> ContainsPoint(area, sideOf) && Classify(t, sideOf)
  {
    match t
    case Leaf(inside) =>
      if inside {
        assert Cells(t, area)[0] == area;
      }
    case Node(cut, minus, plus) =>
      var split := SplitArea(area, cut);
      CellsCoverInside(minus, split.minus, sideOf);
      CellsCoverInside(plus, split.plus, sideOf);
      SplitKeepsSides(area, cut, sideOf);
      SomeCellContainsAppend(Cells(minus, split.minus), Cells(plus, split.plus), sideOf);
  }

  /** No point lies in two cells: the decomposition does not overlap. */
  lemma {:induction false} CellsDisjoint(t: Tree, area: ConvexArea, sideOf: GreatCircle -> Side, i: nat, j: nat)
    requires i < j < |Cells(t, area)|
    ensures !(ContainsPoint(Cells(t, area)[i], sideOf) && ContainsPoint(Cells(t, area)[j], sideOf))
  {
    var cells := Cells(t, area);
    match t
    case Leaf(_) =>
    case Node(cut, minus, plus) =>
      var split := SplitArea(area, cut);
      var cm, cp := Cells(minus, split.minus), Cells(plus, split.plus);
      if j < |cm| {
        CellsDisjoint(minus, split.minus, sideOf, i, j);
        assert cells[i] == cm[i] && cells[j] == cm[j];
      } else if |cm| <= i {
        CellsDisjoint(plus, split.plus, sideOf, i - |cm|, j - |cm|);
        assert cells[i] == cp[i - |cm|] && cells[j] == cp[j - |cm|];
      } else {
        // the two cells lie on opposite sides of this node's cut
        CellsCoverInside(minus, split.minus, sideOf);
        CellsCoverInside(plus, split.plus, sideOf);
        SplitKeepsSides(area, cut, sideOf);
        assert cells[i] == cm[i] && cells[j] == cp[j - |cm|];
        assert ContainsPoint(cm[i], sideOf) ==> SomeCellContains(cm, sideOf);
        assert ContainsPoint(cp[j - |cm|], sideOf) ==> SomeCellContains(cp, sideOf);
      }
  }

  /** The sequence in reverse order. */
  function Reverse<T>(s: seq<T>): (r: seq<T>)
    ensures |r| == |s|
    ensures multiset(r) == multiset(s)
  {
    if s == [] then [] else
      assert s == [s[0]] + s[1..];
      Reverse(s[1..]) + [s[0]]
  }

  /** Reversing a suffix one element longer puts that element last. */
  lemma ReverseSuffixStep<T>(s: seq<T>, d: nat)
    requires 0 < d <= |s|
    ensures Reverse(s[d - 1..]) == Reverse(s[d..]) + [s[d - 1]]
  {
    assert s[d - 1..][1..] == s[d..];
  }

  /**
   * One step of the walk from a node up to the root: the constraints
   * gathered below the d-th ancestor, reversed, followed by that ancestor's
   * cut with the side the node lies on, are the constraints below the
   * (d-1)-th ancestor, reversed.
   */
  lemma NodeRegionStep(t: Tree, node: Path, d: nat, cs: seq<Constraint>)
    requires ValidPath(t, node) && 0 < d <= |node|
    requires cs == Reverse(PathConstraints(t, node)[d..])
    ensures ValidPath(t, node[..d - 1]) && Subtree(t, node[..d - 1]).Node?
    ensures cs + [Constraint(Subtree(t, node[..d - 1]).cut, node[d - 1])]
            == Reverse(PathConstraints(t, node)[d - 1..])
  {
    PathConstraintAt(t, node, d - 1);
    ReverseSuffixStep(PathConstraints(t, node), d);
  }

  /**
   * The area of a node computed bottom-up, from the node to the root, is
   * the one obtained top-down on the way to an inside leaf: for the k-th
   * inside leaf it has the same constraints, in reverse order, as the k-th
   * cell of the decomposition, so it contains the same points.
   */
  lemma NodeRegionOfInsideLeaf(t: Tree, k: nat, sideOf: GreatCircle -> Side)
    requires k < InsideLeafCount(t)
    ensures ValidPath(t, InsideLeaves(t)[k])
    ensures multiset(Reverse(PathConstraints(t, InsideLeaves(t)[k])))
            == multiset(Cells(t, FullArea())[k].constraints)
    ensures ContainsPoint(ConvexArea(Reverse(PathConstraints(t, InsideLeaves(t)[k]))), sideOf)
            <==> ContainsPoint(Cells(t, FullArea())[k], sideOf)
  {
    var cs := PathConstraints(t, InsideLeaves(t)[k]);
    CellsAreLeafAreas(t, FullArea(), k);
    assert [] + cs == cs;
    forall c ensures c in Reverse(cs) <==> c in cs {
      assert c in Reverse(cs) <==> c in multiset(Reverse(cs));
    }
  }

  /**
   * The tree obtained by inserting, into a full tree, the boundary circles of
   * a convex area, each lying on the minus side of the ones before it: a
   * chain of cuts whose minus children lead to the one inside leaf.
   */
  function ConvexTree(boundaries: seq<GreatCircle>): Tree {
    if boundaries == [] then Leaf(true)
    else Node(boundaries[0], ConvexTree(boundaries[1..]), Leaf(false))
  }

  /** The convex area bounded by the given circles, interior on their minus sides. */
  function MinusConstraints(boundaries: seq<GreatCircle>): seq<Constraint> {
    seq(|boundaries|, i requires 0 <= i < |boundaries| => Constraint(boundaries[i], Minus))
  }

  /** The area bounded by the circles holds exactly the points on the minus side of every one of them. */
  lemma MinusAreaContains(boundaries: seq<GreatCircle>, sideOf: GreatCircle -> Side)
    ensures ContainsPoint(ConvexArea(MinusConstraints(boundaries)), sideOf)
            <==> forall i :: 0 <= i < |boundaries| ==> sideOf(boundaries[i]) == Minus
  {
    var cs := MinusConstraints(boundaries);
    if ContainsPoint(ConvexArea(cs), sideOf) {
      forall i | 0 <= i < |boundaries| ensures sideOf(boundaries[i]) == Minus {
        assert cs[i] in cs;
      }
    }
  }

  /**
   * Round trip: decomposing the tree built from a convex area's boundaries
   * gives back exactly one cell, that area.
   */
  lemma {:induction false} ConvexTreeRoundTrip(boundaries: seq<GreatCircle>, area: ConvexArea)
    ensures Cells(ConvexTree(boundaries), area) == [ConvexArea(area.constraints + MinusConstraints(boundaries))]
  {
    if boundaries == [] {
      assert area.constraints + [] == area.constraints;
    } else {
      var split := SplitArea(area, boundaries[0]);
      ConvexTreeRoundTrip(boundaries[1..], split.minus);
      assert split.minus.constraints + MinusConstraints(boundaries[1..])
          == area.constraints + MinusConstraints(boundaries);
    }
  }
}
