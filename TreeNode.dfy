/** The nodes of a phylogenetic tree (the PhyloTreeNode objects) held in an arena:
    a node is named by its index, and its parent back-reference is an index too.
    Nodes are created bottom-up, so a node's children have smaller indices and its
    parent a larger one. */
module TreeNode {
  import opened JavaLang

  /** A named sequence read from the input; only the distance function looks at the sequence. */
  datatype Species = Species(name: string, sequence: seq<string>)

  type NodeId = nat

  /** A leaf holds its species; an internal node its two children and the single
      weight of both edges down to them. */
  datatype Kind =
    | Leaf(species: Species)
    | Internal(left: NodeId, right: NodeId, distanceToChild: real)

  datatype Node = Node(nodeLabel: string, kind: Kind, parent: Option<NodeId>, numLeafs: nat)

  type Arena = seq<Node>

  /** The fresh leaf buildTree makes for a species: labelled by its name, no parent. */
  function LeafNode(s: Species): (n: Node)
  {
    Node(s.name, Leaf(s), None, 1)
  }

  /** Node `i` agrees with its children and its parent. */
  ghost predicate ValidAt(t: Arena, i: nat)
    requires i < |t|
  {
    var n := t[i];
    && (match n.kind
        case Leaf(_) => n.numLeafs == 1
        case Internal(l, r, _) =>
          && l < i && r < i && l != r
          && t[l].parent == Some(i) && t[r].parent == Some(i)
          && n.numLeafs == t[l].numLeafs + t[r].numLeafs)
    && (n.parent.Some? ==>
          && i < n.parent.value < |t|
          && t[n.parent.value].kind.Internal?
          && (t[n.parent.value].kind.left == i || t[n.parent.value].kind.right == i))
  }

  /** Every parent link is matched by a child link and the other way round. */
  ghost predicate Valid(t: Arena)
  {
    forall i | 0 <= i < |t| :: ValidAt(t, i)
  }

  /** A node reference of `t`: null, or the index of one of its nodes. */
  predicate InArena(t: Arena, n: Option<NodeId>)
  {
    n.Some? ==> n.value < |t|
  }

  /** Every edge weight is non-negative, as it is when distances are. */
  ghost predicate WeightsNonNegative(t: Arena)
  {
    forall i | 0 <= i < |t| && t[i].kind.Internal? :: 0.0 <= t[i].kind.distanceToChild
  }

  /** getNumLeafs is at least one for every node. */
  lemma {:induction false} NumLeafsPositive(t: Arena, i: NodeId)
    requires Valid(t) && i < |t|
    ensures t[i].numLeafs >= 1
    decreases i
  {
    assert ValidAt(t, i);
    if t[i].kind.Internal? {
      NumLeafsPositive(t, t[i].kind.left);
    }
  }

  /** Hang two parentless nodes under a new internal node appended to the arena:
      the `new PhyloTreeNode(label, null, left, right, weight)` and the two
      `setParent` calls of one merge. */
  function Attach(t: Arena, left: NodeId, right: NodeId, mergedLabel: string, weight: real): (r: Arena)
    requires Valid(t)
    requires left < |t| && right < |t| && left != right
    requires t[left].parent.None? && t[right].parent.None?
    ensures Valid(r)
    ensures |r| == |t| + 1
    ensures r[|t|] == Node(mergedLabel, Internal(left, right, weight), None, t[left].numLeafs + t[right].numLeafs)
    ensures r[left] == t[left].(parent := Some(|t|)) && r[right] == t[right].(parent := Some(|t|))
    ensures forall i | 0 <= i < |t| && i != left && i != right :: r[i] == t[i]
  {
    var p := |t|;
    var grown := t + [Node(mergedLabel, Internal(left, right, weight), None, t[left].numLeafs + t[right].numLeafs)];
    var r := grown[left := t[left].(parent := Some(p))][right := t[right].(parent := Some(p))];
    assert forall i | 0 <= i < |t| :: ValidAt(t, i);
    assert forall i | 0 <= i < |r| :: ValidAt(r, i) by {
      forall i | 0 <= i < |r| ensures ValidAt(r, i) {
        if i < p {
          assert ValidAt(t, i);
          if t[i].kind.Internal? {
            assert ValidAt(t, t[i].kind.left) && ValidAt(t, t[i].kind.right);
          }
        }
      }
    }
    r
  }
}
