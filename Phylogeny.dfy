/** The PhyloTree object: the tree buildTree infers, the printing depth, and the
    public queries and printers over them. */
module Phylogeny {
  import opened JavaLang
  import opened TreeNode
  import opened ClusterLabels
  import opened Clustering
  import opened Queries
  import opened Rendering
  import opened Build

  // ---------------------------------------------------------------------------
  // Facts about the built tree that the public queries rely on

  /** Every node of a single tree lies below its root. */
  lemma AllBelowRoot(t: Arena, root: NodeId, d: NodeId)
    requires TreeValid(t, root) && d < |t|
    ensures InSubtree(t, d, root)
  {
    SubtreeIsAncestry(t, d, root);
  }

  /** The first N nodes carry the species names; every later node is internal and its
      label holds the separator. */
  lemma InternalLabelsJoined(species: seq<Species>, nonNegative: bool, nodes: Arena, root: NodeId, d: NodeId)
    requires BuiltTree(species, nonNegative, nodes, root) && d < |nodes|
    ensures d < |species| ==> nodes[d].nodeLabel == species[d].name
    ensures d >= |species| ==> Separator in nodes[d].nodeLabel
  {
    if d >= |species| {
      assert CanonicalAt(nodes, d);
      var a, b := nodes[nodes[d].kind.left].nodeLabel, nodes[nodes[d].kind.right].nodeLabel;
      assert nodes[d].nodeLabel == a + [Separator] + b;
      assert nodes[d].nodeLabel[|a|] == Separator;
    }
  }

  /** A species name labels that species' leaf and no other node: other leaves carry
      other names, and internal labels contain the separator, which names do not. */
  lemma SpeciesLabelUnique(species: seq<Species>, nonNegative: bool, nodes: Arena, root: NodeId,
                           i: nat, d: NodeId)
    requires BuiltTree(species, nonNegative, nodes, root)
    requires NamesDistinct(species) && NamesPlain(species)
    requires i < |species| && d < |nodes| && nodes[d].nodeLabel == species[i].name
    ensures d == i
  {
    InternalLabelsJoined(species, nonNegative, nodes, root, d);
  }

  /** Searching the built tree for a species name finds the leaf of that species. */
  lemma FindSpecies(species: seq<Species>, nonNegative: bool, nodes: Arena, root: NodeId, i: nat)
    requires BuiltTree(species, nonNegative, nodes, root)
    requires NamesDistinct(species) && NamesPlain(species)
    requires i < |species|
    ensures Queries.FindTreeNodeByLabel(nodes, root, species[i].name) == Some(i)
  {
    AllBelowRoot(nodes, root, i);
    var r := Queries.FindTreeNodeByLabel(nodes, root, species[i].name);
    if r.Some? {
      SpeciesLabelUnique(species, nonNegative, nodes, root, i, r.value);
    }
  }

  /** The height of the built tree is the depth of its deepest node, which is a leaf;
      with N species it lies between 1 and N - 1. */
  lemma HeightOfBuiltTree(species: seq<Species>, nonNegative: bool, nodes: Arena, root: NodeId)
    requires BuiltTree(species, nonNegative, nodes, root)
    ensures forall d | 0 <= d < |nodes| :: Depth(nodes, d) <= Height(nodes, root)
    ensures exists d | 0 <= d < |nodes| :: nodes[d].kind.Leaf? && Depth(nodes, d) == Height(nodes, root)
    ensures 1 <= Height(nodes, root) < |species|
  {
    HeightIsLongestPath(nodes, root);
    forall d | 0 <= d < |nodes| ensures Depth(nodes, d) <= Height(nodes, root) {
      AllBelowRoot(nodes, root, d);
    }
    HeightBelowLeafCount(nodes, root);
    assert ValidAt(nodes, root);
  }

  /** The weighted height of the built tree is the heaviest weighted depth of a leaf,
      and is not negative when the weights are not. */
  lemma WeightedHeightOfBuiltTree(species: seq<Species>, nonNegative: bool, nodes: Arena, root: NodeId)
    requires BuiltTree(species, nonNegative, nodes, root)
    ensures forall d | 0 <= d < |nodes| && nodes[d].kind.Leaf? :: WeightedDepth(nodes, d) <= WeightedHeight(nodes, root)
    ensures exists d | 0 <= d < |nodes| :: nodes[d].kind.Leaf? && WeightedDepth(nodes, d) == WeightedHeight(nodes, root)
    ensures nonNegative ==> 0.0 <= WeightedHeight(nodes, root)
  {
    WeightedHeightIsHeaviestPath(nodes, root);
    forall d | 0 <= d < |nodes| && nodes[d].kind.Leaf?
      ensures WeightedDepth(nodes, d) <= WeightedHeight(nodes, root)
    {
      AllBelowRoot(nodes, root, d);
    }
    if nonNegative {
      WeightedHeightAtLeastEdge(nodes, root);
    }
  }

  /** The indentation loop of toString: `k` dots. */
  method Indentation(k: int) returns (dots: string)
    ensures dots == Dots(k)
  {
    dots := "";
    var i := 0;
    while i < k
      invariant 0 <= i && (i <= k || i == 0)
      invariant dots == Dots(i)
    {
      assert Dots(i + 1) == Dots(i) + ".";
      dots := dots + ".";
      i := i + 1;
    }
  }

  /** The two loops of findEvolutionaryDistance: lift the deeper node until both are
      level, then lift both until they meet, adding the weight of every edge climbed. */
  method Climb(t: Arena, root: NodeId, x: NodeId, y: NodeId) returns (sum: real)
    requires TreeValid(t, root) && x < |t| && y < |t|
    ensures sum == PathWeight(t, root, x, y)
  {
    LeastCommonAncestorExists(t, root, x, y);
    ghost var meet := FindLeastCommonAncestor(t, Some(x), Some(y));
    var node1: NodeId, node2: NodeId := x, y;
    sum := 0.0;
    while Depth(t, node1) != Depth(t, node2)
      invariant node1 < |t| && node2 < |t|
      invariant FindLeastCommonAncestor(t, Some(node1), Some(node2)) == meet
      invariant sum == (WeightedDepth(t, x) - WeightedDepth(t, node1)) + (WeightedDepth(t, y) - WeightedDepth(t, node2))
      decreases Depth(t, node1) + Depth(t, node2)
    {
      assert ValidAt(t, node1) && ValidAt(t, node2);
      if Depth(t, node1) > Depth(t, node2) {
        node1 := t[node1].parent.value;
        sum := sum + t[node1].kind.distanceToChild;
      } else {
        LeastCommonAncestorSymmetric(t, Some(node1), t[node2].parent);
        node2 := t[node2].parent.value;
        sum := sum + t[node2].kind.distanceToChild;
      }
    }
    while node2 != node1
      invariant node1 < |t| && node2 < |t|
      invariant Depth(t, node1) == Depth(t, node2)
      invariant FindLeastCommonAncestor(t, Some(node1), Some(node2)) == meet
      invariant sum == (WeightedDepth(t, x) - WeightedDepth(t, node1)) + (WeightedDepth(t, y) - WeightedDepth(t, node2))
      decreases Depth(t, node1)
    {
      assert ValidAt(t, node1) && ValidAt(t, node2);
      node1 := t[node1].parent.value;
      sum := sum + t[node1].kind.distanceToChild;
      node2 := t[node2].parent.value;
      sum := sum + t[node2].kind.distanceToChild;
    }
  }

  // ---------------------------------------------------------------------------
  // The tree object

  class PhyloTree {
    var nodes: Arena
    var overallRoot: Option<NodeId>
    var printingDepth: int
    /** The species the tree was built from, in input order. */
    ghost var species: seq<Species>
    /** Whether the distances the tree was built from were all non-negative. */
    ghost var nonNegative: bool
    /** The distance function the tree was built with. */
    ghost var distance: (Species, Species) -> real
    /** The states between the rounds of buildTree, and what each round merged. */
    ghost var rounds: seq<State>
    ghost var merges: seq<Merge>

    /** The tree buildTree leaves: null for fewer than two species, otherwise a single
        tree whose leaves are the species. */
    ghost predicate Valid()
      reads this
    {
      && TreeNode.Valid(nodes)
      && NamesDistinct(species) && NamesPlain(species)
      && (overallRoot.None? <==> |species| <= 1)
      && (overallRoot.Some? ==> BuiltTree(species, nonNegative, nodes, overallRoot.value))
    }

    /** The nodes are those the rounds of buildTree left: each round merged a closest
        pair, internal node N + k is the node of round k, and the merge weights never
        decrease. */
    ghost predicate Clustered()
      reads this
    {
      Explained(species, distance, nodes, rounds, merges)
    }

    /** The constructor once the species file is read: build the tree, then keep the
        printing depth. */
    constructor (species: seq<Species>, printingDepth: int, distance: (Species, Species) -> real,
                 ghost nonNegative: bool)
      requires GoodInput(species, distance, nonNegative)
      ensures Valid()
      ensures Clustered()
      ensures this.species == species && this.nonNegative == nonNegative && this.distance == distance
      ensures this.printingDepth == printingDepth
    {
      var t, root, trace, steps := Cluster(nonNegative, species, distance);
      this.species := species;
      this.nonNegative := nonNegative;
      this.distance := distance;
      rounds, merges := trace, steps;
      nodes := t;
      overallRoot := root;
      this.printingDepth := printingDepth;
    }

    /** getHeight: -1 without a tree, otherwise the depth of the deepest node. */
    function GetHeight(): (h: int)
      reads this
      requires Valid()
      ensures overallRoot.None? ==> h == -1
      ensures overallRoot.Some? ==>
        && (forall d | 0 <= d < |nodes| :: Depth(nodes, d) <= h)
        && (exists d | 0 <= d < |nodes| :: nodes[d].kind.Leaf? && Depth(nodes, d) == h)
        && 1 <= h < |species|
    {
      if overallRoot.Some? then
        HeightOfBuiltTree(species, nonNegative, nodes, overallRoot.value);
        NodeHeight(nodes, overallRoot)
      else
        NodeHeight(nodes, overallRoot)
    }

    /** getWeightedHeight: negative infinity without a tree, otherwise the heaviest
        weighted depth of a leaf. */
    function GetWeightedHeight(): (h: ExtReal)
      reads this
      requires Valid()
      ensures overallRoot.None? <==> h == NegInf
      ensures overallRoot.Some? ==>
        && h.Finite?
        && (forall d | 0 <= d < |nodes| && nodes[d].kind.Leaf? :: WeightedDepth(nodes, d) <= h.r)
        && (exists d | 0 <= d < |nodes| :: nodes[d].kind.Leaf? && WeightedDepth(nodes, d) == h.r)
        && (nonNegative ==> 0.0 <= h.r)
    {
      if overallRoot.Some? then
        WeightedHeightOfBuiltTree(species, nonNegative, nodes, overallRoot.value);
        WeightedNodeHeight(nodes, overallRoot)
      else
        WeightedNodeHeight(nodes, overallRoot)
    }

    /** countAllSpecies: the number of leaves under the root, which is the number of
        species the tree was built from. */
    function CountAllSpecies(): (n: int)
      reads this
      requires Valid() && overallRoot.Some?
      ensures n == |species|
    {
      nodes[overallRoot.value].numLeafs
    }

    /** findTreeNodeByLabel(label): the node labelled `target`, null when there is none;
        a species name finds the species' own leaf. */
    function FindTreeNodeByLabel(target: string): (r: Option<NodeId>)
      reads this
      requires Valid() && overallRoot.Some?
      ensures r.Some? ==> r.value < |nodes| && nodes[r.value].nodeLabel == target
      ensures r.None? <==> forall d | 0 <= d < |nodes| :: nodes[d].nodeLabel != target
      ensures forall i | 0 <= i < |species| && species[i].name == target :: r == Some(i)
    {
      var root := overallRoot.value;
      var r := Queries.FindTreeNodeByLabel(nodes, root, target);
      assert r.None? ==> forall d | 0 <= d < |nodes| :: nodes[d].nodeLabel != target by {
        forall d | 0 <= d < |nodes| ensures InSubtree(nodes, d, root) {
          AllBelowRoot(nodes, root, d);
        }
      }
      assert forall i | 0 <= i < |species| && species[i].name == target :: r == Some(i) by {
        forall i | 0 <= i < |species| && species[i].name == target ensures r == Some(i) {
          FindSpecies(species, nonNegative, nodes, root, i);
        }
      }
      r
    }

    /** findLeastCommonAncestor(label1, label2): null when a label is missing,
        otherwise the common ancestor of the two nodes that lies below all others. */
    function FindLeastCommonAncestor(label1: string, label2: string): (r: Option<NodeId>)
      reads this
      requires Valid() && overallRoot.Some?
      ensures InArena(nodes, r)
      ensures var n1, n2 := FindTreeNodeByLabel(label1), FindTreeNodeByLabel(label2);
        && (r.None? <==> n1.None? || n2.None?)
        && (r.Some? ==>
              && CommonAncestor(nodes, r.value, n1.value, n2.value)
              && forall c :: CommonAncestor(nodes, c, n1.value, n2.value) ==> IsAncestorOrSelf(nodes, c, r.value))
    {
      var n1, n2 := FindTreeNodeByLabel(label1), FindTreeNodeByLabel(label2);
      if n1.Some? && n2.Some? then
        LeastCommonAncestorCorrect(nodes, n1.value, n2.value);
        LeastCommonAncestorExists(nodes, overallRoot.value, n1.value, n2.value);
        Queries.FindLeastCommonAncestor(nodes, n1, n2)
      else
        Queries.FindLeastCommonAncestor(nodes, n1, n2)
    }

    /** findEvolutionaryDistance(label1, label2): positive infinity when a label is
        missing, otherwise the weight of the path between the two nodes. */
    method FindEvolutionaryDistance(label1: string, label2: string) returns (d: ExtReal)
      requires Valid() && overallRoot.Some?
      ensures d == EvolutionaryDistance(nodes, overallRoot.value, label1, label2)
    {
      var n1 := FindTreeNodeByLabel(label1);
      var n2 := FindTreeNodeByLabel(label2);
      if n1.None? || n2.None? {
        return PosInf;
      }
      var sum := Climb(nodes, overallRoot.value, n1.value, n2.value);
      d := Finite(sum);
    }

    /** toString(): the indented form, starting at the root with the weighted height
        as both its weighted depth and the maximum; nothing without a tree. */
    method ToString(format2: real -> string) returns (s: string)
      requires Valid()
      ensures overallRoot.None? ==> s == ""
      ensures overallRoot.Some? ==>
        var h := WeightedHeight(nodes, overallRoot.value);
        s == Indented(nodes, overallRoot.value, h, h, printingDepth, format2)
    {
      var maxDepth := GetWeightedHeight();
      if overallRoot.None? {
        return "";
      }
      s := IndentedText(overallRoot.value, maxDepth.r, maxDepth.r, format2);
    }

    /** toString() as evidently intended: the root is reached with its own weighted
        depth, so each node's line is indented by that node's weighted depth. */
    method ToStringCorrected(format2: real -> string) returns (s: string)
      requires Valid()
      ensures overallRoot.None? ==> s == ""
      ensures overallRoot.Some? ==>
        var h := WeightedHeight(nodes, overallRoot.value);
        s == Lines(nodes, Rnl(nodes, overallRoot.value), h, printingDepth, format2)
    {
      var maxDepth := GetWeightedHeight();
      if overallRoot.None? {
        return "";
      }
      var root := overallRoot.value;
      s := IndentedText(root, WeightedNodeDepth(nodes, overallRoot).r, maxDepth.r, format2);
      CorrectedLayout(nodes, root, printingDepth, format2);
    }

    /** The private toString(node, weightedDepth, maxDepth) for a non-null node. The
        method keeps the source's recursion as a member of the class, one call and one
        concatenation per statement; Rendering.Indented is the same recursion as a
        function, which the layout lemmas are about, and the postcondition ties the two. */
    method IndentedText(i: NodeId, weightedDepth: real, maxDepth: real, format2: real -> string)
      returns (s: string)
      requires TreeNode.Valid(nodes) && i < |nodes|
      ensures s == Indented(nodes, i, weightedDepth, maxDepth, printingDepth, format2)
      decreases i
    {
      assert ValidAt(nodes, i);
      var dots := Indentation(IndentWidth(printingDepth, weightedDepth, maxDepth));
      match nodes[i].kind
      case Internal(l, r, w) =>
        var right := IndentedText(r, WeightedNodeDepth(nodes, Some(r)).r, maxDepth, format2);
        var line := dots + "[NONTERM " + format2(w) + "]" + "\n";
        var left := IndentedText(l, WeightedNodeDepth(nodes, Some(l)).r, maxDepth, format2);
        s := right + line + left;
      case Leaf(_) =>
        s := dots + nodes[i].nodeLabel + "\n";
    }

    /** toTreeString(): the parenthesised form of the whole tree. */
    method ToTreeString(format5: real -> string) returns (s: string)
      requires Valid() && overallRoot.Some?
      ensures s == TreeString(nodes, overallRoot.value, overallRoot.value, format5)
      ensures |s| >= 2 && s[0] == '(' && s[|s| - 1] == ')'
    {
      TreeStringOfRoot(nodes, overallRoot.value, format5);
      s := TreeText(overallRoot.value, format5);
    }

    /** The private toTreeString(node). As with IndentedText, the method keeps the
        source's recursion as a member of the class, and the postcondition ties it to
        Rendering.TreeString, the function the lemmas about the tree form are about. */
    method TreeText(i: NodeId, format5: real -> string) returns (s: string)
      requires TreeNode.Valid(nodes) && i < |nodes| && overallRoot.Some?
      requires nodes[i].kind.Internal? || nodes[i].parent.Some?
      ensures s == TreeString(nodes, i, overallRoot.value, format5)
      decreases i
    {
      assert ValidAt(nodes, i);
      match nodes[i].kind
      case Leaf(_) =>
        var p := nodes[i].parent.value;
        assert ValidAt(nodes, p);
        s := nodes[i].nodeLabel + ":" + format5(nodes[p].kind.distanceToChild);
      case Internal(l, r, w) =>
        assert ValidAt(nodes, l) && ValidAt(nodes, r);
        var right := TreeText(r, format5);
        var left := TreeText(l, format5);
        var close := if i == overallRoot.value then ")" else "):" + format5(w);
        s := "(" + right + "," + left + close;
    }
  }
}
