/** The two textual forms of a tree. The indented form lists one line per node in
    reverse in-order (right subtree, node, left subtree), each indented by dots in
    proportion to the node's weighted depth; the tree form is the parenthesised
    `(right,left):weight` form, with no weight after the overall root. Number
    formatting (String.format "%.2f" and "%.5f") is a parameter. */
module Rendering {
  import opened JavaLang
  import opened TreeNode
  import opened Queries

  /** The indentation: `k` dots, none when `k` is not positive. */
  function Dots(k: int): (s: string)
    ensures |s| == if k <= 0 then 0 else k
    ensures forall j | 0 <= j < |s| :: s[j] == '.'
  {
    if k <= 0 then "" else Dots(k - 1) + "."
  }

  /** `(int) (printingDepth * (weightedDepth / maxDepth))` in Java doubles: a zero
      `maxDepth` gives NaN (cast to 0) or an infinity (cast to the int bound). */
  function IndentWidth(printingDepth: int, weightedDepth: real, maxDepth: real): (k: int)
  {
    if maxDepth == 0.0 then
      if weightedDepth == 0.0 || printingDepth == 0 then 0
      else if (0.0 < weightedDepth) == (0 < printingDepth) then IntMax
      else IntMin
    else IntCast(printingDepth as real * (weightedDepth / maxDepth))
  }

  /** With a weighted depth between zero and the maximum, the indentation lies
      between none and the full printing depth. */
  lemma IndentWidthBounds(printingDepth: int, weightedDepth: real, maxDepth: real)
    requires 0 <= printingDepth <= IntMax && 0.0 <= weightedDepth <= maxDepth
    ensures 0 <= IndentWidth(printingDepth, weightedDepth, maxDepth) <= printingDepth
    ensures maxDepth != 0.0 ==> IndentWidth(printingDepth, maxDepth, maxDepth) == printingDepth
  {
    if maxDepth != 0.0 {
      var q := weightedDepth / maxDepth;
      assert q * maxDepth == weightedDepth;
      MulNonNegative(q, maxDepth);
      if q < 0.0 {
        MulNonNegative(-q, maxDepth);
      }
      if q > 1.0 {
        MulNonNegative(q - 1.0, maxDepth);
      }
      var x := printingDepth as real * q;
      MulNonNegative(printingDepth as real, q);
      MulNonNegative(printingDepth as real, 1.0 - q);
      assert 0.0 <= x <= printingDepth as real;
      assert maxDepth / maxDepth == 1.0;
    }
  }

  /** The line the indented form gives node `n` when it is reached with `weightedDepth`. */
  function Line(t: Arena, n: NodeId, weightedDepth: real, maxDepth: real, printingDepth: int,
                format2: real -> string): (s: string)
    requires n < |t|
  {
    var dots := Dots(IndentWidth(printingDepth, weightedDepth, maxDepth));
    match t[n].kind
    case Internal(_, _, w) => dots + "[NONTERM " + format2(w) + "]" + "\n"
    case Leaf(_) => dots + t[n].nodeLabel + "\n"
  }

  /** The private toString(node, weightedDepth, maxDepth) for a non-null node: the
      children are reached with their own weighted depths. */
  function Indented(t: Arena, i: NodeId, weightedDepth: real, maxDepth: real, printingDepth: int,
                    format2: real -> string): (s: string)
    requires Valid(t) && i < |t|
    decreases i
  {
    assert ValidAt(t, i);
    match t[i].kind
    case Internal(l, r, _) =>
      Indented(t, r, WeightedDepth(t, r), maxDepth, printingDepth, format2)
      + Line(t, i, weightedDepth, maxDepth, printingDepth, format2)
      + Indented(t, l, WeightedDepth(t, l), maxDepth, printingDepth, format2)
    case Leaf(_) => Line(t, i, weightedDepth, maxDepth, printingDepth, format2)
  }

  /** Reverse in-order: the right subtree, then the node, then the left subtree. */
  function Rnl(t: Arena, i: NodeId): (order: seq<NodeId>)
    requires Valid(t) && i < |t|
    ensures forall k | 0 <= k < |order| :: order[k] <= i
    decreases i
  {
    assert ValidAt(t, i);
    match t[i].kind
    case Internal(l, r, _) => Rnl(t, r) + [i] + Rnl(t, l)
    case Leaf(_) => [i]
  }

  predicate NoDuplicates(s: seq<NodeId>)
  {
    forall j, k | 0 <= j < k < |s| :: s[j] != s[k]
  }

  /** Two ancestors of a node at the same depth are the same node. */
  lemma {:induction false} AncestorAtDepthUnique(t: Arena, a: NodeId, b: NodeId, x: NodeId)
    requires Valid(t) && a < |t| && b < |t| && x < |t|
    requires IsAncestorOrSelf(t, a, x) && IsAncestorOrSelf(t, b, x)
    requires Depth(t, a) == Depth(t, b)
    ensures a == b
    decreases |t| - x
  {
    AncestorIsShallower(t, a, x);
    AncestorIsShallower(t, b, x);
    assert ValidAt(t, x);
    if a != x && b != x {
      AncestorAtDepthUnique(t, a, b, t[x].parent.value);
    }
  }

  /** The subtrees of the two children of a node share no node. */
  lemma SiblingSubtreesDisjoint(t: Arena, i: NodeId, x: NodeId)
    requires Valid(t) && i < |t| && t[i].kind.Internal? && x < |t|
    ensures var k := t[i].kind;
      k.left < |t| && k.right < |t| && !(InSubtree(t, x, k.left) && InSubtree(t, x, k.right))
  {
    var l, r := t[i].kind.left, t[i].kind.right;
    ChildDepth(t, i, l);
    ChildDepth(t, i, r);
    assert ValidAt(t, i);
    if InSubtree(t, x, l) && InSubtree(t, x, r) {
      SubtreeIsAncestry(t, x, l);
      SubtreeIsAncestry(t, x, r);
      AncestorIsShallower(t, l, x);
      AncestorIsShallower(t, r, x);
      AncestorAtDepthUnique(t, l, r, x);
      assert false;
    }
  }

  /** The reverse in-order lists every node of the subtree exactly once: the indented
      form has one line per node. */
  lemma {:induction false} RnlListsSubtree(t: Arena, i: NodeId)
    requires Valid(t) && i < |t|
    ensures forall k | 0 <= k < |Rnl(t, i)| :: InSubtree(t, Rnl(t, i)[k], i)
    ensures forall d | 0 <= d < |t| && InSubtree(t, d, i) :: d in Rnl(t, i)
    ensures NoDuplicates(Rnl(t, i))
    ensures |Rnl(t, i)| == 2 * t[i].numLeafs - 1
    decreases i
  {
    assert ValidAt(t, i);
    match t[i].kind
    case Leaf(_) =>
    case Internal(l, r, _) =>
      RnlListsSubtree(t, l);
      RnlListsSubtree(t, r);
      var a, b := Rnl(t, r), Rnl(t, l);
      var s := a + [i] + b;
      assert Rnl(t, i) == s;
      forall k | 0 <= k < |s| ensures InSubtree(t, s[k], i) {
        if k < |a| {
          assert InSubtree(t, a[k], r);
        } else if k > |a| {
          assert InSubtree(t, b[k - |a| - 1], l);
        }
      }
      forall j, k | 0 <= j < k < |s| ensures s[j] != s[k] {
        if j < |a| && k > |a| {
          SiblingSubtreesDisjoint(t, i, s[j]);
          assert InSubtree(t, s[j], r) && InSubtree(t, s[k], l);
        } else if j == |a| {
          assert s[k] <= l;
        } else if k == |a| {
          assert s[j] <= r;
        } else if j > |a| {
          assert s[j] == b[j - |a| - 1] && s[k] == b[k - |a| - 1];
        }
      }
  }

  /** The lines of the nodes `ns`, each indented by the node's own weighted depth. */
  function Lines(t: Arena, ns: seq<NodeId>, maxDepth: real, printingDepth: int,
                 format2: real -> string): (s: string)
    requires Valid(t) && forall k | 0 <= k < |ns| :: ns[k] < |t|
  {
    if ns == [] then ""
    else Line(t, ns[0], WeightedDepth(t, ns[0]), maxDepth, printingDepth, format2)
         + Lines(t, ns[1..], maxDepth, printingDepth, format2)
  }

  lemma {:induction false} LinesAppend(t: Arena, a: seq<NodeId>, b: seq<NodeId>, maxDepth: real,
                                       printingDepth: int, format2: real -> string)
    requires Valid(t) && (forall k | 0 <= k < |a| :: a[k] < |t|) && (forall k | 0 <= k < |b| :: b[k] < |t|)
    ensures Lines(t, a + b, maxDepth, printingDepth, format2)
         == Lines(t, a, maxDepth, printingDepth, format2) + Lines(t, b, maxDepth, printingDepth, format2)
  {
    if a != [] {
      assert (a + b)[1..] == a[1..] + b;
      LinesAppend(t, a[1..], b, maxDepth, printingDepth, format2);
    } else {
      assert a + b == b;
    }
  }

  /** The indented form of a subtree reached with its own weighted depth is the
      line of each of its nodes, in reverse in-order. */
  lemma {:induction false} IndentedFollowsRnl(t: Arena, i: NodeId, maxDepth: real, printingDepth: int,
                                              format2: real -> string)
    requires Valid(t) && i < |t|
    ensures Indented(t, i, WeightedDepth(t, i), maxDepth, printingDepth, format2)
         == Lines(t, Rnl(t, i), maxDepth, printingDepth, format2)
    decreases i
  {
    assert ValidAt(t, i);
    match t[i].kind
    case Leaf(_) =>
      assert Rnl(t, i)[1..] == [];
    case Internal(l, r, _) =>
      IndentedFollowsRnl(t, l, maxDepth, printingDepth, format2);
      IndentedFollowsRnl(t, r, maxDepth, printingDepth, format2);
      var a, b := Rnl(t, r), Rnl(t, l);
      assert Rnl(t, i) == a + [i] + b;
      LinesAppend(t, a, [i], maxDepth, printingDepth, format2);
      LinesAppend(t, a + [i], b, maxDepth, printingDepth, format2);
      assert [i][1..] == [];
      var own := Line(t, i, WeightedDepth(t, i), maxDepth, printingDepth, format2);
      assert Lines(t, [i], maxDepth, printingDepth, format2) == own;
      assert Indented(t, i, WeightedDepth(t, i), maxDepth, printingDepth, format2)
          == Indented(t, r, WeightedDepth(t, r), maxDepth, printingDepth, format2) + own
             + Indented(t, l, WeightedDepth(t, l), maxDepth, printingDepth, format2);
  }

  /** toString() starts the walk at the overall root with weightedDepth equal to the
      weighted height: the children's lines follow the reverse in-order, and the
      root's own line gets the full printing depth of dots. */
  lemma ToStringLayout(t: Arena, root: NodeId, printingDepth: int, format2: real -> string)
    requires TreeValid(t, root) && t[root].kind.Internal? && WeightsNonNegative(t)
    requires 0 <= printingDepth <= IntMax
    ensures var h := WeightedHeight(t, root);
      var k := t[root].kind;
      && k.left < root && k.right < root
      && Indented(t, root, h, h, printingDepth, format2)
         == Lines(t, Rnl(t, k.right), h, printingDepth, format2)
            + Line(t, root, h, h, printingDepth, format2)
            + Lines(t, Rnl(t, k.left), h, printingDepth, format2)
      && (h != 0.0 ==> IndentWidth(printingDepth, h, h) == printingDepth)
  {
    var h := WeightedHeight(t, root);
    assert ValidAt(t, root);
    IndentedFollowsRnl(t, t[root].kind.left, h, printingDepth, format2);
    IndentedFollowsRnl(t, t[root].kind.right, h, printingDepth, format2);
    WeightedHeightAtLeastEdge(t, root);
    IndentWidthBounds(printingDepth, h, h);
  }

  /** As written, toString() hands the root the weighted height as its weighted depth,
      so with a positive printing depth and a non-zero weighted height the root's line
      carries the full printing depth of dots instead of none, and the output is not
      the one that indents the root by its own weighted depth. */
  lemma RootLineOverIndented(t: Arena, root: NodeId, printingDepth: int, format2: real -> string)
    requires TreeValid(t, root) && t[root].kind.Internal? && WeightsNonNegative(t)
    requires 0 < printingDepth <= IntMax && WeightedHeight(t, root) != 0.0
    ensures var h := WeightedHeight(t, root);
      Indented(t, root, h, h, printingDepth, format2) != Indented(t, root, 0.0, h, printingDepth, format2)
  {
    var h := WeightedHeight(t, root);
    ToStringLayout(t, root, printingDepth, format2);
    assert ValidAt(t, root);
    var k := t[root].kind;
    var a := Indented(t, k.right, WeightedDepth(t, k.right), h, printingDepth, format2);
    var b := Indented(t, k.left, WeightedDepth(t, k.left), h, printingDepth, format2);
    var tail := "[NONTERM " + format2(k.distanceToChild) + "]" + "\n";
    assert IndentWidth(printingDepth, 0.0, h) == 0;
    assert |Line(t, root, h, h, printingDepth, format2)| == printingDepth + |tail|;
    assert |Line(t, root, 0.0, h, printingDepth, format2)| == |tail|;
    assert |Indented(t, root, h, h, printingDepth, format2)| == |a| + printingDepth + |tail| + |b|;
    assert |Indented(t, root, 0.0, h, printingDepth, format2)| == |a| + |tail| + |b|;
  }

  /** Started at the root with the root's own weighted depth, 0, the walk gives every
      node's line in reverse in-order, each indented by its own weighted depth, and
      the root's line by none. */
  lemma CorrectedLayout(t: Arena, root: NodeId, printingDepth: int, format2: real -> string)
    requires TreeValid(t, root)
    ensures var h := WeightedHeight(t, root);
      && Indented(t, root, 0.0, h, printingDepth, format2) == Lines(t, Rnl(t, root), h, printingDepth, format2)
      && IndentWidth(printingDepth, 0.0, h) == 0
  {
    IndentedFollowsRnl(t, root, WeightedHeight(t, root), printingDepth, format2);
  }

  /** In a tree with non-negative weights every node below the root is indented by
      at most the printing depth. */
  lemma IndentWithinPrintingDepth(t: Arena, root: NodeId, d: NodeId, printingDepth: int)
    requires TreeValid(t, root) && WeightsNonNegative(t) && d < |t| && 0 <= printingDepth <= IntMax
    ensures 0 <= IndentWidth(printingDepth, WeightedDepth(t, d), WeightedHeight(t, root)) <= printingDepth
  {
    assert IsAncestorOrSelf(t, root, d);
    SubtreeIsAncestry(t, d, root);
    WeightedHeightIsHeaviestPath(t, root);
    WeightedHeightAtLeastEdge(t, d);
    WeightedDepthMonotone(t, root, d);
    assert ValidAt(t, root);
    IndentWidthBounds(printingDepth, WeightedDepth(t, d), WeightedHeight(t, root));
  }

  // ---------------------------------------------------------------------------
  // The parenthesised tree form

  /** toTreeString(node): a leaf is `label:weight` with the weight of the edge from its
      parent; an internal node is `(right,left)` followed by `:weight` unless it is the
      overall root. A leaf needs a parent to read the weight from. */
  function TreeString(t: Arena, i: NodeId, root: NodeId, format5: real -> string): (s: string)
    requires Valid(t) && i < |t|
    requires t[i].kind.Internal? || t[i].parent.Some?
    decreases i
  {
    assert ValidAt(t, i);
    match t[i].kind
    case Leaf(_) =>
      var p := t[i].parent.value;
      assert ValidAt(t, p);
      t[i].nodeLabel + ":" + format5(t[p].kind.distanceToChild)
    case Internal(l, r, w) =>
      assert ValidAt(t, l) && ValidAt(t, r);
      "(" + TreeString(t, r, root, format5) + "," + TreeString(t, l, root, format5)
      + (if i == root then ")" else "):" + format5(w))
  }

  /** No bracket or comma in a string. */
  predicate Plain(s: string)
  {
    '(' !in s && ')' !in s && ',' !in s
  }

  /** The number of occurrences of `c` in `s`. */
  function Occurrences(s: string, c: char): (n: nat)
  {
    multiset(s)[c]
  }

  /** One of the characters that give the tree form its structure. */
  predicate Structural(c: char)
  {
    c == '(' || c == ',' || c == ')'
  }

  lemma LeafBrackets(name: string, w: string, c: char)
    requires Plain(name) && Plain(w) && Structural(c)
    ensures Occurrences(name + ":" + w, c) == 0
  {
    assert multiset(name + ":" + w) == multiset(name) + multiset(":") + multiset(w);
  }

  lemma PairBrackets(sr: string, sl: string, w: string, atRoot: bool, c: char)
    requires Plain(w) && Structural(c)
    ensures Occurrences("(" + sr + "," + sl + (if atRoot then ")" else "):" + w), c)
         == Occurrences(sr, c) + Occurrences(sl, c) + 1
  {
    var tail := if atRoot then ")" else "):" + w;
    if !atRoot {
      assert multiset(tail) == multiset("):") + multiset(w);
    }
    assert multiset("(" + sr + "," + sl + tail)
        == multiset("(") + multiset(sr) + multiset(",") + multiset(sl) + multiset(tail);
  }

  /** When neither the leaf labels nor the formatted weights contain brackets or
      commas, the tree form has exactly one '(', one ',' and one ')' per internal node. */
  lemma {:induction false} TreeStringBrackets(t: Arena, i: NodeId, root: NodeId, format5: real -> string, c: char)
    requires Valid(t) && i < |t| && (t[i].kind.Internal? || t[i].parent.Some?)
    requires forall x :: Plain(format5(x))
    requires forall d | 0 <= d < |t| && InSubtree(t, d, i) && t[d].kind.Leaf? :: Plain(t[d].nodeLabel)
    requires Structural(c)
    ensures Occurrences(TreeString(t, i, root, format5), c) == t[i].numLeafs - 1
    decreases i
  {
    assert ValidAt(t, i);
    match t[i].kind
    case Leaf(_) =>
      assert InSubtree(t, i, i);
      var p := t[i].parent.value;
      assert ValidAt(t, p);
      LeafBrackets(t[i].nodeLabel, format5(t[p].kind.distanceToChild), c);
    case Internal(l, r, w) =>
      assert ValidAt(t, l) && ValidAt(t, r);
      TreeStringBrackets(t, l, root, format5, c);
      TreeStringBrackets(t, r, root, format5, c);
      var sr, sl := TreeString(t, r, root, format5), TreeString(t, l, root, format5);
      PairBrackets(sr, sl, format5(w), i == root, c);
  }

  /** `u` occurs in `s` from position `k` on. */
  predicate PieceAt(s: string, u: string, k: int)
  {
    0 <= k <= |s| - |u| && s[k..k + |u|] == u
  }

  /** `u` occurs in `s` as a contiguous piece. */
  ghost predicate Contains(s: string, u: string)
  {
    exists k :: PieceAt(s, u, k)
  }

  /** A piece of `x` is a piece of any string that has `x` inside it. */
  lemma ContainedInside(a: string, x: string, b: string, u: string)
    requires Contains(x, u)
    ensures Contains(a + x + b, u)
  {
    var k :| PieceAt(x, u, k);
    assert (a + x + b)[|a| + k..|a| + k + |u|] == u;
    assert PieceAt(a + x + b, u, |a| + k);
  }

  /** Every leaf below `i` shows in the tree form of `i` as its label, ':' and the
      formatted weight of the edge from its parent. */
  lemma {:induction false} TreeStringShowsLeaves(t: Arena, i: NodeId, root: NodeId, format5: real -> string, d: NodeId)
    requires Valid(t) && i < |t| && (t[i].kind.Internal? || t[i].parent.Some?)
    requires d < |t| && InSubtree(t, d, i) && t[d].kind.Leaf?
    ensures var p := t[d].parent;
      && p.Some? && p.value < |t| && t[p.value].kind.Internal?
      && Contains(TreeString(t, i, root, format5), t[d].nodeLabel + ":" + format5(t[p.value].kind.distanceToChild))
    decreases i
  {
    assert ValidAt(t, i);
    if d == i {
      var p := t[i].parent.value;
      assert ValidAt(t, p);
      var u := t[i].nodeLabel + ":" + format5(t[p].kind.distanceToChild);
      assert PieceAt(TreeString(t, i, root, format5), u, 0);
    } else {
      var l, r := t[i].kind.left, t[i].kind.right;
      assert ValidAt(t, l) && ValidAt(t, r);
      var tail := if i == root then ")" else "):" + format5(t[i].kind.distanceToChild);
      var sr, sl := TreeString(t, r, root, format5), TreeString(t, l, root, format5);
      if InSubtree(t, d, r) {
        TreeStringShowsLeaves(t, r, root, format5, d);
        ContainedInside("(", sr, "," + sl + tail, t[d].nodeLabel + ":" + format5(t[t[d].parent.value].kind.distanceToChild));
        assert TreeString(t, i, root, format5) == "(" + sr + ("," + sl + tail);
      } else {
        TreeStringShowsLeaves(t, l, root, format5, d);
        ContainedInside("(" + sr + ",", sl, tail, t[d].nodeLabel + ":" + format5(t[t[d].parent.value].kind.distanceToChild));
      }
    }
  }

  /** The overall root's form is closed by its ')' with no weight after it. */
  lemma TreeStringOfRoot(t: Arena, root: NodeId, format5: real -> string)
    requires Valid(t) && root < |t| && t[root].kind.Internal?
    ensures var s := TreeString(t, root, root, format5);
      |s| >= 2 && s[0] == '(' && s[|s| - 1] == ')'
  {
  }
}
