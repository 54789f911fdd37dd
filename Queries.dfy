/** The static structural queries of PhyloTree: nodeDepth, nodeHeight,
    weightedNodeHeight, weightedNodeDepth, findTreeNodeByLabel and
    findLeastCommonAncestor, each over an arena of nodes. Depth and LCA walk the
    parent links upward; height and search recurse into the children. */
module Queries {
  import opened JavaLang
  import opened TreeNode

  function Max(a: int, b: int): (m: int)
  {
    if a >= b then a else b
  }

  // ---------------------------------------------------------------------------
  // Upward: ancestors and depth

  /** `a` is `d` or is reached from `d` by following parent links. */
  predicate IsAncestorOrSelf(t: Arena, a: NodeId, d: NodeId)
    requires Valid(t) && d < |t|
    decreases |t| - d
  {
    assert ValidAt(t, d);
    a == d || (t[d].parent.Some? && IsAncestorOrSelf(t, a, t[d].parent.value))
  }

  /** The number of parent links from node `i` up to the first node without a parent. */
  function Depth(t: Arena, i: NodeId): (d: nat)
    requires Valid(t) && i < |t|
    ensures d < |t| - i
    decreases |t| - i
  {
    assert ValidAt(t, i);
    match t[i].parent
    case None => 0
    case Some(p) => 1 + Depth(t, p)
  }

  /** nodeDepth: -1 for null, otherwise the depth of the node. */
  function NodeDepth(t: Arena, n: Option<NodeId>): (d: int)
    requires Valid(t) && InArena(t, n)
  {
    match n
    case None => -1
    case Some(i) => Depth(t, i)
  }

  /** nodeDepth is -1 exactly for null, 0 exactly for a node without a parent,
      and one more than the parent's depth otherwise. */
  lemma NodeDepthCases(t: Arena, n: Option<NodeId>)
    requires Valid(t) && InArena(t, n)
    ensures NodeDepth(t, n) == -1 <==> n.None?
    ensures n.Some? ==> (NodeDepth(t, n) == 0 <==> t[n.value].parent.None?)
    ensures n.Some? && t[n.value].parent.Some? ==> NodeDepth(t, n) == 1 + NodeDepth(t, t[n.value].parent)
  {
    if n.Some? {
      assert ValidAt(t, n.value);
    }
  }

  /** Ancestors lie higher up: their depth is smaller unless they are the node itself. */
  lemma {:induction false} AncestorIsShallower(t: Arena, a: NodeId, d: NodeId)
    requires Valid(t) && d < |t| && IsAncestorOrSelf(t, a, d)
    ensures d <= a < |t| && Depth(t, a) <= Depth(t, d)
    ensures Depth(t, a) == Depth(t, d) ==> a == d
    decreases |t| - d
  {
    assert ValidAt(t, d);
    if a != d {
      AncestorIsShallower(t, a, t[d].parent.value);
    }
  }

  /** The ancestor relation is transitive. */
  lemma {:induction false} AncestorTransitive(t: Arena, a: NodeId, c: NodeId, d: NodeId)
    requires Valid(t) && c < |t| && d < |t|
    requires IsAncestorOrSelf(t, a, c) && IsAncestorOrSelf(t, c, d)
    ensures IsAncestorOrSelf(t, a, d)
    decreases |t| - d
  {
    assert ValidAt(t, d);
    if c != d {
      AncestorTransitive(t, a, c, t[d].parent.value);
    }
  }

  /** The ancestor relation is antisymmetric. */
  lemma AncestorAntisymmetric(t: Arena, a: NodeId, b: NodeId)
    requires Valid(t) && a < |t| && b < |t|
    requires IsAncestorOrSelf(t, a, b) && IsAncestorOrSelf(t, b, a)
    ensures a == b
  {
    AncestorIsShallower(t, a, b);
    AncestorIsShallower(t, b, a);
  }

  /** The nodes on the way up from `i`, `i` included. */
  ghost function Ancestors(t: Arena, i: NodeId): (s: set<NodeId>)
    requires Valid(t) && i < |t|
  {
    set a | 0 <= a < |t| && IsAncestorOrSelf(t, a, i)
  }

  /** The depth of a node is the number of its proper ancestors, i.e. the number
      of edges between it and the top of its tree. */
  lemma {:induction false} DepthCountsAncestors(t: Arena, i: NodeId)
    requires Valid(t) && i < |t|
    ensures |Ancestors(t, i)| == Depth(t, i) + 1
    decreases |t| - i
  {
    assert ValidAt(t, i);
    match t[i].parent
    case None =>
      assert Ancestors(t, i) == {i};
    case Some(p) =>
      DepthCountsAncestors(t, p);
      assert Ancestors(t, i) == {i} + Ancestors(t, p);
      if i in Ancestors(t, p) {
        AncestorIsShallower(t, i, p);
        assert false;
      }
  }

  // ---------------------------------------------------------------------------
  // Downward: subtrees and heights

  /** `d` is `i` or lies below one of its children. */
  predicate InSubtree(t: Arena, d: NodeId, i: NodeId)
    requires Valid(t) && i < |t|
    decreases i
  {
    assert ValidAt(t, i);
    d == i
    || (t[i].kind.Internal? && (InSubtree(t, d, t[i].kind.left) || InSubtree(t, d, t[i].kind.right)))
  }

  /** A subtree contains the children of each of its nodes. */
  lemma {:induction false} SubtreeHasChildren(t: Arena, d: NodeId, p: NodeId, i: NodeId)
    requires Valid(t) && d < |t| && i < |t|
    requires t[d].parent == Some(p) && InSubtree(t, p, i)
    ensures InSubtree(t, d, i)
    decreases i
  {
    assert ValidAt(t, d) && ValidAt(t, i);
    if p != i {
      if InSubtree(t, p, t[i].kind.left) {
        SubtreeHasChildren(t, d, p, t[i].kind.left);
      } else {
        SubtreeHasChildren(t, d, p, t[i].kind.right);
      }
    } else {
      assert InSubtree(t, d, d);
    }
  }

  lemma {:induction false} SubtreeToAncestor(t: Arena, d: NodeId, i: NodeId)
    requires Valid(t) && d < |t| && i < |t| && InSubtree(t, d, i)
    ensures IsAncestorOrSelf(t, i, d)
    decreases i
  {
    assert ValidAt(t, i);
    if d != i {
      var c := if InSubtree(t, d, t[i].kind.left) then t[i].kind.left else t[i].kind.right;
      assert ValidAt(t, c);
      SubtreeToAncestor(t, d, c);
      assert IsAncestorOrSelf(t, i, c);
      AncestorTransitive(t, i, c, d);
    }
  }

  lemma {:induction false} AncestorToSubtree(t: Arena, d: NodeId, i: NodeId)
    requires Valid(t) && d < |t| && i < |t| && IsAncestorOrSelf(t, i, d)
    ensures InSubtree(t, d, i)
    decreases |t| - d
  {
    assert ValidAt(t, d);
    if d != i {
      var p := t[d].parent.value;
      AncestorToSubtree(t, p, i);
      SubtreeHasChildren(t, d, p, i);
    }
  }

  /** Searching down from `i` and climbing up to `i` find the same nodes. */
  lemma SubtreeIsAncestry(t: Arena, d: NodeId, i: NodeId)
    requires Valid(t) && d < |t| && i < |t|
    ensures InSubtree(t, d, i) <==> IsAncestorOrSelf(t, i, d)
  {
    if InSubtree(t, d, i) {
      SubtreeToAncestor(t, d, i);
    }
    if IsAncestorOrSelf(t, i, d) {
      AncestorToSubtree(t, d, i);
    }
  }

  /** The number of edges on the longest path from node `i` down to a leaf. */
  function Height(t: Arena, i: NodeId): (h: nat)
    requires Valid(t) && i < |t|
    decreases i
  {
    assert ValidAt(t, i);
    match t[i].kind
    case Leaf(_) => 0
    case Internal(l, r, _) => 1 + Max(Height(t, l), Height(t, r))
  }

  /** nodeHeight: -1 for null, otherwise the height of the node. */
  function NodeHeight(t: Arena, n: Option<NodeId>): (h: int)
    requires Valid(t) && InArena(t, n)
  {
    match n
    case None => -1
    case Some(i) => Height(t, i)
  }

  /** nodeHeight is -1 for null, 0 for a leaf, and one more than the taller child's
      height for an internal node. */
  lemma NodeHeightCases(t: Arena, n: Option<NodeId>)
    requires Valid(t) && InArena(t, n)
    ensures NodeHeight(t, n) == -1 <==> n.None?
    ensures n.Some? ==> (NodeHeight(t, n) == 0 <==> t[n.value].kind.Leaf?)
    ensures n.Some? && t[n.value].kind.Internal? ==> t[n.value].kind.left < n.value && t[n.value].kind.right < n.value
    ensures n.Some? && t[n.value].kind.Internal? ==>
      NodeHeight(t, n) == 1 + Max(NodeHeight(t, Some(t[n.value].kind.left)), NodeHeight(t, Some(t[n.value].kind.right)))
  {
    if n.Some? {
      assert ValidAt(t, n.value);
    }
  }

  /** A child is one level deeper than its parent. */
  lemma ChildDepth(t: Arena, i: NodeId, c: NodeId)
    requires Valid(t) && i < |t| && t[i].kind.Internal?
    requires c == t[i].kind.left || c == t[i].kind.right
    ensures c < i && Depth(t, c) == Depth(t, i) + 1
  {
    assert ValidAt(t, i);
  }

  /** The height of `i` is the largest depth below it, counted from `i`, and some
      leaf below `i` attains it. */
  lemma {:induction false} HeightIsLongestPath(t: Arena, i: NodeId)
    requires Valid(t) && i < |t|
    ensures forall d | 0 <= d < |t| && InSubtree(t, d, i) :: Depth(t, d) - Depth(t, i) + Height(t, d) <= Height(t, i)
    ensures exists d | 0 <= d < |t| && InSubtree(t, d, i) :: t[d].kind.Leaf? && Depth(t, d) - Depth(t, i) == Height(t, i)
    decreases i
  {
    assert ValidAt(t, i);
    match t[i].kind
    case Leaf(_) =>
      assert InSubtree(t, i, i);
    case Internal(l, r, _) =>
      HeightIsLongestPath(t, l);
      HeightIsLongestPath(t, r);
      ChildDepth(t, i, l);
      ChildDepth(t, i, r);
      var c := if Height(t, l) >= Height(t, r) then l else r;
      var d :| 0 <= d < |t| && InSubtree(t, d, c) && t[d].kind.Leaf? && Depth(t, d) - Depth(t, c) == Height(t, c);
      assert InSubtree(t, d, i);
  }

  /** A strictly binary tree of height h has more than h leaves. */
  lemma {:induction false} HeightBelowLeafCount(t: Arena, i: NodeId)
    requires Valid(t) && i < |t|
    ensures Height(t, i) < t[i].numLeafs
    decreases i
  {
    assert ValidAt(t, i);
    match t[i].kind
    case Leaf(_) =>
    case Internal(l, r, _) =>
      HeightBelowLeafCount(t, l);
      HeightBelowLeafCount(t, r);
  }

  // ---------------------------------------------------------------------------
  // Edge weights: weighted depth and weighted height

  /** The sum of the edge weights from the top of the tree down to node `i`. */
  function WeightedDepth(t: Arena, i: NodeId): (d: real)
    requires Valid(t) && i < |t|
    decreases |t| - i
  {
    assert ValidAt(t, i);
    match t[i].parent
    case None => 0.0
    case Some(p) => t[p].kind.distanceToChild + WeightedDepth(t, p)
  }

  /** weightedNodeDepth: negative infinity for null, otherwise the weighted depth. */
  function WeightedNodeDepth(t: Arena, n: Option<NodeId>): (d: ExtReal)
    requires Valid(t) && InArena(t, n)
  {
    match n
    case None => NegInf
    case Some(i) => Finite(WeightedDepth(t, i))
  }

  /** weightedNodeDepth is negative infinity exactly for null, 0.0 for a node without a
      parent, and otherwise the parent's weighted depth plus the parent's edge weight. */
  lemma WeightedNodeDepthCases(t: Arena, n: Option<NodeId>)
    requires Valid(t) && InArena(t, n)
    ensures n.None? <==> WeightedNodeDepth(t, n) == NegInf
    ensures n.Some? && t[n.value].parent.None? ==> WeightedNodeDepth(t, n) == Finite(0.0)
    ensures n.Some? && t[n.value].parent.Some? ==>
      var p := t[n.value].parent.value;
      && p < |t| && t[p].kind.Internal?
      && WeightedNodeDepth(t, n) == Finite(WeightedDepth(t, p) + t[p].kind.distanceToChild)
  {
    if n.Some? {
      assert ValidAt(t, n.value);
    }
  }

  /** The heaviest sum of edge weights on a path from `i` down to a leaf. */
  function WeightedHeight(t: Arena, i: NodeId): (h: real)
    requires Valid(t) && i < |t|
    decreases i
  {
    assert ValidAt(t, i);
    match t[i].kind
    case Leaf(_) => 0.0
    case Internal(l, r, w) =>
      var rightSide := w + WeightedHeight(t, r);
      var leftSide := w + WeightedHeight(t, l);
      if rightSide >= leftSide then rightSide else leftSide
  }

  /** weightedNodeHeight: negative infinity for null, otherwise the weighted height. */
  function WeightedNodeHeight(t: Arena, n: Option<NodeId>): (h: ExtReal)
    requires Valid(t) && InArena(t, n)
  {
    match n
    case None => NegInf
    case Some(i) => Finite(WeightedHeight(t, i))
  }

  /** weightedNodeHeight is negative infinity for null, 0.0 for a leaf, and for an
      internal node its edge weight plus the heavier child's weighted height. */
  lemma WeightedNodeHeightCases(t: Arena, n: Option<NodeId>)
    requires Valid(t) && InArena(t, n)
    ensures n.None? <==> WeightedNodeHeight(t, n) == NegInf
    ensures n.Some? && t[n.value].kind.Leaf? ==> WeightedNodeHeight(t, n) == Finite(0.0)
    ensures n.Some? && t[n.value].kind.Internal? ==> t[n.value].kind.left < n.value && t[n.value].kind.right < n.value
    ensures n.Some? && t[n.value].kind.Internal? ==>
      var k := t[n.value].kind;
      && WeightedHeight(t, n.value) >= k.distanceToChild + WeightedHeight(t, k.left)
      && WeightedHeight(t, n.value) >= k.distanceToChild + WeightedHeight(t, k.right)
      && (WeightedHeight(t, n.value) == k.distanceToChild + WeightedHeight(t, k.left)
          || WeightedHeight(t, n.value) == k.distanceToChild + WeightedHeight(t, k.right))
  {
    if n.Some? {
      assert ValidAt(t, n.value);
    }
  }

  /** A child's weighted depth is its parent's plus the parent's edge weight. */
  lemma ChildWeightedDepth(t: Arena, i: NodeId, c: NodeId)
    requires Valid(t) && i < |t| && t[i].kind.Internal?
    requires c == t[i].kind.left || c == t[i].kind.right
    ensures c < i && WeightedDepth(t, c) == WeightedDepth(t, i) + t[i].kind.distanceToChild
  {
    assert ValidAt(t, i);
    assert ValidAt(t, c);
  }

  /** The weighted height of `i` is the heaviest weighted path from `i` down to a
      leaf: no node below `i` lies deeper (counting its own weighted height), and
      some leaf attains it. */
  lemma {:induction false} WeightedHeightIsHeaviestPath(t: Arena, i: NodeId)
    requires Valid(t) && i < |t|
    ensures forall d | 0 <= d < |t| && InSubtree(t, d, i) ::
      WeightedDepth(t, d) - WeightedDepth(t, i) + WeightedHeight(t, d) <= WeightedHeight(t, i)
    ensures exists d | 0 <= d < |t| && InSubtree(t, d, i) ::
      t[d].kind.Leaf? && WeightedDepth(t, d) - WeightedDepth(t, i) == WeightedHeight(t, i)
    decreases i
  {
    assert ValidAt(t, i);
    match t[i].kind
    case Leaf(_) =>
      assert InSubtree(t, i, i);
    case Internal(l, r, w) =>
      WeightedHeightIsHeaviestPath(t, l);
      WeightedHeightIsHeaviestPath(t, r);
      ChildWeightedDepth(t, i, l);
      ChildWeightedDepth(t, i, r);
      var c := if w + WeightedHeight(t, r) >= w + WeightedHeight(t, l) then r else l;
      var d :| 0 <= d < |t| && InSubtree(t, d, c) && t[d].kind.Leaf?
               && WeightedDepth(t, d) - WeightedDepth(t, c) == WeightedHeight(t, c);
      assert InSubtree(t, d, i);
  }

  /** With non-negative edge weights, weighted heights are non-negative and an
      internal node's weighted height is at least its own edge weight. */
  lemma {:induction false} WeightedHeightAtLeastEdge(t: Arena, i: NodeId)
    requires Valid(t) && i < |t| && WeightsNonNegative(t)
    ensures 0.0 <= WeightedHeight(t, i)
    ensures t[i].kind.Internal? ==> t[i].kind.distanceToChild <= WeightedHeight(t, i)
    decreases i
  {
    assert ValidAt(t, i);
    if t[i].kind.Internal? {
      WeightedHeightAtLeastEdge(t, t[i].kind.left);
    }
  }

  /** With non-negative edge weights, weighted depth only grows going down. */
  lemma {:induction false} WeightedDepthMonotone(t: Arena, a: NodeId, d: NodeId)
    requires Valid(t) && d < |t| && WeightsNonNegative(t) && IsAncestorOrSelf(t, a, d)
    ensures a < |t| && 0.0 <= WeightedDepth(t, a) <= WeightedDepth(t, d)
    decreases |t| - d
  {
    assert ValidAt(t, d);
    match t[d].parent
    case None =>
    case Some(p) =>
      assert ValidAt(t, p);
      if a == d {
        WeightedDepthMonotone(t, p, p);
      } else {
        WeightedDepthMonotone(t, a, p);
      }
  }

  // ---------------------------------------------------------------------------
  // Search by label

  /** findTreeNodeByLabel(node, label): the node itself when its label matches,
      otherwise a match from the left subtree in preference to one from the right. */
  function FindTreeNodeByLabel(t: Arena, i: NodeId, target: string): (r: Option<NodeId>)
    requires Valid(t) && i < |t|
    ensures InArena(t, r)
    ensures r.Some? ==> InSubtree(t, r.value, i) && t[r.value].nodeLabel == target
    ensures r.None? ==> forall d | 0 <= d < |t| && InSubtree(t, d, i) :: t[d].nodeLabel != target
    decreases i
  {
    assert ValidAt(t, i);
    if t[i].nodeLabel == target then Some(i)
    else if t[i].kind.Leaf? then None
    else
      var right := FindTreeNodeByLabel(t, t[i].kind.right, target);
      var left := FindTreeNodeByLabel(t, t[i].kind.left, target);
      if left.Some? then left else right
  }

  // ---------------------------------------------------------------------------
  // Least common ancestor

  /** `a` lies on the way up from both `x` and `y`. */
  ghost predicate CommonAncestor(t: Arena, a: NodeId, x: NodeId, y: NodeId)
    requires Valid(t) && x < |t| && y < |t|
  {
    IsAncestorOrSelf(t, a, x) && IsAncestorOrSelf(t, a, y)
  }

  /** findLeastCommonAncestor(node1, node2): null if either is null; otherwise lift
      the deeper node (the second one as the first argument when it is the deeper)
      until both are level, then lift both until they meet. */
  function FindLeastCommonAncestor(t: Arena, n1: Option<NodeId>, n2: Option<NodeId>): (r: Option<NodeId>)
    requires Valid(t) && InArena(t, n1) && InArena(t, n2)
    ensures InArena(t, r)
    ensures n1.None? || n2.None? ==> r.None?
    decreases NodeDepth(t, n1) + NodeDepth(t, n2) + 2
  {
    if n1.None? || n2.None? then None
    else
      var x, y := n1.value, n2.value;
      assert ValidAt(t, x) && ValidAt(t, y);
      if Depth(t, x) > Depth(t, y) then FindLeastCommonAncestor(t, t[x].parent, n2)
      else if Depth(t, x) < Depth(t, y) then FindLeastCommonAncestor(t, t[y].parent, n1)
      else if x == y then n1
      else FindLeastCommonAncestor(t, t[x].parent, t[y].parent)
  }

  /** The least common ancestor is a common ancestor of both nodes and lies below
      every other one; the result is null exactly when the nodes share no ancestor. */
  lemma {:induction false} LeastCommonAncestorCorrect(t: Arena, x: NodeId, y: NodeId)
    requires Valid(t) && x < |t| && y < |t|
    ensures var r := FindLeastCommonAncestor(t, Some(x), Some(y));
      && (r.None? ==> forall a :: !CommonAncestor(t, a, x, y))
      && (r.Some? ==> CommonAncestor(t, r.value, x, y)
                      && forall c :: CommonAncestor(t, c, x, y) ==> IsAncestorOrSelf(t, c, r.value))
    decreases Depth(t, x) + Depth(t, y)
  {
    assert ValidAt(t, x) && ValidAt(t, y);
    if Depth(t, x) > Depth(t, y) {
      var p := t[x].parent.value;
      LeastCommonAncestorCorrect(t, p, y);
      forall c | CommonAncestor(t, c, x, y) ensures CommonAncestor(t, c, p, y) {
        if c == x {
          AncestorIsShallower(t, x, y);
        }
      }
    } else if Depth(t, x) < Depth(t, y) {
      var q := t[y].parent.value;
      LeastCommonAncestorCorrect(t, q, x);
      forall c | CommonAncestor(t, c, x, y) ensures CommonAncestor(t, c, q, x) {
        if c == y {
          AncestorIsShallower(t, y, x);
        }
      }
    } else if x == y {
    } else if t[x].parent.None? {
      forall a | CommonAncestor(t, a, x, y) ensures false {
        AncestorIsShallower(t, a, y);
      }
    } else {
      var p, q := t[x].parent.value, t[y].parent.value;
      LeastCommonAncestorCorrect(t, p, q);
      forall c | CommonAncestor(t, c, x, y) ensures CommonAncestor(t, c, p, q) {
        if c == x {
          AncestorIsShallower(t, x, y);
        }
        if c == y {
          AncestorIsShallower(t, y, x);
        }
      }
    }
  }

  /** findLeastCommonAncestor gives the same node whichever argument comes first. */
  lemma LeastCommonAncestorSymmetric(t: Arena, n1: Option<NodeId>, n2: Option<NodeId>)
    requires Valid(t) && InArena(t, n1) && InArena(t, n2)
    ensures FindLeastCommonAncestor(t, n1, n2) == FindLeastCommonAncestor(t, n2, n1)
  {
    if n1.Some? && n2.Some? {
      var x, y := n1.value, n2.value;
      LeastCommonAncestorCorrect(t, x, y);
      LeastCommonAncestorCorrect(t, y, x);
      var r1, r2 := FindLeastCommonAncestor(t, n1, n2), FindLeastCommonAncestor(t, n2, n1);
      if r1.Some? && r2.Some? {
        assert CommonAncestor(t, r2.value, x, y);
        assert CommonAncestor(t, r1.value, y, x);
        AncestorAntisymmetric(t, r1.value, r2.value);
      } else if r1.Some? {
        assert CommonAncestor(t, r1.value, y, x);
      } else if r2.Some? {
        assert CommonAncestor(t, r2.value, x, y);
      }
    }
  }

  /** findLeastCommonAncestor(x, x) is x. */
  lemma LeastCommonAncestorOfSelf(t: Arena, n: Option<NodeId>)
    requires Valid(t) && InArena(t, n)
    ensures FindLeastCommonAncestor(t, n, n) == n
  {
  }

  // ---------------------------------------------------------------------------
  // Whole trees and the evolutionary distance

  /** A single tree: `root` has no parent and lies above every node of the arena. */
  ghost predicate TreeValid(t: Arena, root: NodeId)
  {
    && Valid(t) && root < |t| && t[root].parent.None?
    && forall i | 0 <= i < |t| :: IsAncestorOrSelf(t, root, i)
  }

  /** In a single tree the root is the only node without a parent. */
  lemma OnlyRootIsParentless(t: Arena, root: NodeId, i: NodeId)
    requires TreeValid(t, root) && i < |t| && t[i].parent.None?
    ensures i == root
  {
    assert IsAncestorOrSelf(t, root, i);
  }

  /** In a single tree any two nodes have a least common ancestor. */
  lemma LeastCommonAncestorExists(t: Arena, root: NodeId, x: NodeId, y: NodeId)
    requires TreeValid(t, root) && x < |t| && y < |t|
    ensures FindLeastCommonAncestor(t, Some(x), Some(y)).Some?
  {
    LeastCommonAncestorCorrect(t, x, y);
    assert CommonAncestor(t, root, x, y);
  }

  /** The weight of the path between two nodes: up from `x` to their least common
      ancestor, then down to `y`. */
  function PathWeight(t: Arena, root: NodeId, x: NodeId, y: NodeId): (w: real)
    requires TreeValid(t, root) && x < |t| && y < |t|
  {
    LeastCommonAncestorExists(t, root, x, y);
    var a := FindLeastCommonAncestor(t, Some(x), Some(y)).value;
    (WeightedDepth(t, x) - WeightedDepth(t, a)) + (WeightedDepth(t, y) - WeightedDepth(t, a))
  }

  /** findEvolutionaryDistance(label1, label2): positive infinity when either label
      names no node of the tree, otherwise the weight of the path between them. */
  function EvolutionaryDistance(t: Arena, root: NodeId, label1: string, label2: string): (d: ExtReal)
    requires TreeValid(t, root)
  {
    var n1 := FindTreeNodeByLabel(t, root, label1);
    var n2 := FindTreeNodeByLabel(t, root, label2);
    if n1.None? || n2.None? then PosInf
    else Finite(PathWeight(t, root, n1.value, n2.value))
  }

  /** The distance is infinite exactly when one of the labels is not in the tree. */
  lemma EvolutionaryDistanceInfinite(t: Arena, root: NodeId, label1: string, label2: string)
    requires TreeValid(t, root)
    ensures EvolutionaryDistance(t, root, label1, label2) == PosInf
        <==> (forall d | 0 <= d < |t| :: t[d].nodeLabel != label1)
             || (forall d | 0 <= d < |t| :: t[d].nodeLabel != label2)
  {
    forall d | 0 <= d < |t| ensures InSubtree(t, d, root) {
      SubtreeIsAncestry(t, d, root);
    }
  }

  /** The distance does not depend on the order of the labels. */
  lemma EvolutionaryDistanceSymmetric(t: Arena, root: NodeId, label1: string, label2: string)
    requires TreeValid(t, root)
    ensures EvolutionaryDistance(t, root, label1, label2) == EvolutionaryDistance(t, root, label2, label1)
  {
    var n1 := FindTreeNodeByLabel(t, root, label1);
    var n2 := FindTreeNodeByLabel(t, root, label2);
    LeastCommonAncestorSymmetric(t, n1, n2);
  }

  /** A label present in the tree is at distance zero from itself. */
  lemma EvolutionaryDistanceToSelf(t: Arena, root: NodeId, name: string, i: NodeId)
    requires TreeValid(t, root) && i < |t| && t[i].nodeLabel == name
    ensures EvolutionaryDistance(t, root, name, name) == Finite(0.0)
  {
    SubtreeIsAncestry(t, i, root);
  }

  /** With non-negative edge weights no two nodes are at negative distance. */
  lemma PathWeightNonNegative(t: Arena, root: NodeId, x: NodeId, y: NodeId)
    requires TreeValid(t, root) && WeightsNonNegative(t) && x < |t| && y < |t|
    ensures 0.0 <= PathWeight(t, root, x, y)
  {
    LeastCommonAncestorExists(t, root, x, y);
    LeastCommonAncestorCorrect(t, x, y);
    var a := FindLeastCommonAncestor(t, Some(x), Some(y)).value;
    WeightedDepthMonotone(t, a, x);
    WeightedDepthMonotone(t, a, y);
  }
}
