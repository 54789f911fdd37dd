/** The agglomerative clustering of buildTree: a forest of parentless nodes keyed by
    label and a table of distances between labels. Each round merges the closest two
    labels under a new internal node and gives the merged label the leaf-count
    weighted average of their distances to every other label. */
module Clustering {
  import opened JavaLang
  import opened TreeNode
  import opened ClusterLabels
  import opened MultiKeyMap

  /** The HashMap from labels to the roots of the trees built so far. */
  type Forest = map<string, NodeId>

  /** No two species share a name. */
  predicate NamesDistinct(species: seq<Species>)
  {
    forall p, q | 0 <= p < q < |species| :: species[p].name != species[q].name
  }

  /** No species name contains the separator of merged labels. */
  predicate NamesPlain(species: seq<Species>)
  {
    forall p | 0 <= p < |species| :: Separator !in species[p].name
  }

  /** The first loop of buildTree: a parentless leaf per species, entered in the forest
      under the species name (a later species overwrites an earlier one of the same name). */
  method NewForest(species: seq<Species>) returns (nodes: Arena, forest: Forest)
    ensures |nodes| == |species|
    ensures forall i | 0 <= i < |species| :: nodes[i] == LeafNode(species[i])
    ensures forall k | k in forest :: forest[k] < |species| && species[forest[k]].name == k
    ensures forall i | 0 <= i < |species| :: species[i].name in forest
    ensures NamesDistinct(species) ==> forall i | 0 <= i < |species| :: forest[species[i].name] == i
  {
    nodes, forest := [], map[];
    var i := 0;
    while i < |species|
      invariant 0 <= i <= |species| && |nodes| == i
      invariant forall j | 0 <= j < i :: nodes[j] == LeafNode(species[j])
      invariant forall k | k in forest :: forest[k] < i && species[forest[k]].name == k
      invariant forall j | 0 <= j < i :: species[j].name in forest
      invariant NamesDistinct(species) ==> forall j | 0 <= j < i :: forest[species[j].name] == j
    {
      nodes := nodes + [LeafNode(species[i])];
      forest := forest[species[i].name := i];
      i := i + 1;
    }
  }

  /** The distance function is symmetric on the given species. */
  ghost predicate DistanceSymmetric(species: seq<Species>, distance: (Species, Species) -> real)
  {
    forall p, q | 0 <= p < |species| && 0 <= q < |species| ::
      distance(species[p], species[q]) == distance(species[q], species[p])
  }

  /** The second loop of buildTree: the distance of every ordered pair of species,
      stored under their names. */
  method AllPairDistances(species: seq<Species>, distance: (Species, Species) -> real) returns (table: Table)
    requires NamesDistinct(species) && DistanceSymmetric(species, distance)
    ensures Symmetric(table)
    ensures forall p, q | 0 <= p < |species| && 0 <= q < |species| ::
      Get(table, species[p].name, species[q].name) == Some(distance(species[p], species[q]))
  {
    table := map[];
    var i := 0;
    while i < |species|
      invariant 0 <= i <= |species| && Symmetric(table)
      invariant forall p, q | 0 <= p < |species| && 0 <= q < |species| && (p < i || q < i) ::
        Get(table, species[p].name, species[q].name) == Some(distance(species[p], species[q]))
    {
      var j := 0;
      while j < |species|
        invariant 0 <= j <= |species| && Symmetric(table)
        invariant forall p, q | 0 <= p < |species| && 0 <= q < |species|
                                && (p < i || q < i || (p == i && q < j) || (q == i && p < j)) ::
          Get(table, species[p].name, species[q].name) == Some(distance(species[p], species[q]))
      {
        PutKeepsSymmetric(table, species[i].name, species[j].name, distance(species[i], species[j]));
        table := Put(table, species[i].name, species[j].name, distance(species[i], species[j]));
        j := j + 1;
      }
      i := i + 1;
    }
  }

  /** The scan of one round: over every ordered pair of forest labels, keep the first
      pair of distinct labels with a stored distance strictly below the best so far,
      starting from Double.MAX_VALUE. The HashMap iteration order is left open. */
  method ClosestPair(forest: Forest, table: Table) returns (best: Option<(string, string)>, shortDistance: real)
    ensures best.Some? ==>
      && best.value.0 in forest && best.value.1 in forest && best.value.0 != best.value.1
      && Get(table, best.value.0, best.value.1) == Some(shortDistance)
      && shortDistance < DoubleMaxValue
    ensures best.None? ==> shortDistance == DoubleMaxValue
    ensures forall a, b | a in forest && b in forest && a != b && (a, b) in table :: shortDistance <= table[(a, b)]
  {
    best, shortDistance := None, DoubleMaxValue;
    var firsts := forest.Keys;
    while firsts != {}
      invariant firsts <= forest.Keys
      invariant best.Some? ==>
        && best.value.0 in forest && best.value.1 in forest && best.value.0 != best.value.1
        && Get(table, best.value.0, best.value.1) == Some(shortDistance)
        && shortDistance < DoubleMaxValue
      invariant best.None? ==> shortDistance == DoubleMaxValue
      invariant forall a, b | a in forest && a !in firsts && b in forest && a != b && (a, b) in table ::
        shortDistance <= table[(a, b)]
      decreases firsts
    {
      var a :| a in firsts;
      var seconds := forest.Keys;
      while seconds != {}
        invariant seconds <= forest.Keys
        invariant best.Some? ==>
          && best.value.0 in forest && best.value.1 in forest && best.value.0 != best.value.1
          && Get(table, best.value.0, best.value.1) == Some(shortDistance)
          && shortDistance < DoubleMaxValue
        invariant best.None? ==> shortDistance == DoubleMaxValue
        invariant forall a, b | a in forest && a !in firsts && b in forest && a != b && (a, b) in table ::
          shortDistance <= table[(a, b)]
        invariant forall b | b in forest && b !in seconds && a != b && (a, b) in table :: shortDistance <= table[(a, b)]
        decreases seconds
      {
        var b :| b in seconds;
        var d := Get(table, a, b);
        if d.Some? {
          if d.value < shortDistance && a != b {
            shortDistance := d.value;
            best := Some((a, b));
          }
        }
        seconds := seconds - {b};
      }
      firsts := firsts - {a};
    }
  }

  /** The scan as evidently intended: the first pair of distinct labels with a stored
      distance is taken whatever that distance is, and a later pair only when it is
      strictly closer. Unlike ClosestPair, it finds a pair whenever two forest labels
      have a stored distance, even at Double.MAX_VALUE. */
  method ClosestPairCorrected(forest: Forest, table: Table) returns (best: Option<(string, string)>, shortDistance: real)
    ensures best.Some? ==> ClosestPairOf(forest, table, best.value.0, best.value.1, shortDistance)
    ensures best.None? ==> forall a, b | a in forest && b in forest && a != b :: (a, b) !in table
  {
    best, shortDistance := None, 0.0;
    var firsts := forest.Keys;
    while firsts != {}
      invariant firsts <= forest.Keys
      invariant best.Some? ==>
        && best.value.0 in forest && best.value.1 in forest && best.value.0 != best.value.1
        && Get(table, best.value.0, best.value.1) == Some(shortDistance)
      invariant forall a, b | a in forest && a !in firsts && b in forest && a != b && (a, b) in table ::
        best.Some? && shortDistance <= table[(a, b)]
      decreases firsts
    {
      var a :| a in firsts;
      var seconds := forest.Keys;
      while seconds != {}
        invariant seconds <= forest.Keys
        invariant best.Some? ==>
          && best.value.0 in forest && best.value.1 in forest && best.value.0 != best.value.1
          && Get(table, best.value.0, best.value.1) == Some(shortDistance)
        invariant forall a, b | a in forest && a !in firsts && b in forest && a != b && (a, b) in table ::
          best.Some? && shortDistance <= table[(a, b)]
        invariant forall b | b in forest && b !in seconds && a != b && (a, b) in table ::
          best.Some? && shortDistance <= table[(a, b)]
        decreases seconds
      {
        var b :| b in seconds;
        var d := Get(table, a, b);
        if d.Some? && a != b && (best.None? || d.value < shortDistance) {
          shortDistance := d.value;
          best := Some((a, b));
        }
        seconds := seconds - {b};
      }
      firsts := firsts - {a};
    }
  }

  /** The distance of the merged cluster to another: each old distance weighted by the
      share of leaves its cluster brings. */
  function WeightedAverage(n1: nat, n2: nat, d1: real, d2: real): (d: real)
    requires 0 < n1 + n2
  {
    (n1 as real / (n2 as real + n1 as real)) * d1 + (n2 as real / (n2 as real + n1 as real)) * d2
  }

  /** The average lies between the two distances it combines. */
  lemma WeightedAverageBetween(n1: nat, n2: nat, d1: real, d2: real)
    requires 0 < n1 + n2
    ensures d1 <= d2 ==> d1 <= WeightedAverage(n1, n2, d1, d2) <= d2
    ensures d2 <= d1 ==> d2 <= WeightedAverage(n1, n2, d1, d2) <= d1
  {
    var total := n2 as real + n1 as real;
    var a, b := n1 as real / total, n2 as real / total;
    assert a * total == n1 as real && b * total == n2 as real;
    assert a + b == 1.0 by {
      assert (a + b) * total == total;
    }
    MulNonNegative(n1 as real, 1.0 / total);
    MulNonNegative(n2 as real, 1.0 / total);
    assert 0.0 <= a && 0.0 <= b;
    var avg := WeightedAverage(n1, n2, d1, d2);
    assert avg - d1 == b * (d2 - d1);
    assert d2 - avg == a * (d2 - d1);
    if d1 <= d2 {
      MulNonNegative(b, d2 - d1);
      MulNonNegative(a, d2 - d1);
    } else {
      MulNonNegative(b, d1 - d2);
      MulNonNegative(a, d1 - d2);
    }
  }

  /** The update loop of one round: for every surviving label other than the merged
      one, store the weighted average of its distances to the two merged labels. */
  method UpdateDistances(table: Table, survivors: set<string>, space1: string, space2: string,
                         mergedLabel: string, n1: nat, n2: nat) returns (updated: Table)
    requires Symmetric(table) && 0 < n1 + n2
    requires space1 != mergedLabel && space2 != mergedLabel
    requires forall x | x in survivors && x != mergedLabel :: (space1, x) in table && (space2, x) in table
    ensures Symmetric(updated)
    ensures forall x | x in survivors && x != mergedLabel ::
      Get(updated, mergedLabel, x) == Some(WeightedAverage(n1, n2, table[(space1, x)], table[(space2, x)]))
    ensures forall k | k in table :: k in updated
    ensures forall k | k in updated ::
      || (k in table && updated[k] == table[k])
      || (k.0 == mergedLabel && k.1 in survivors && k.1 != mergedLabel)
      || (k.1 == mergedLabel && k.0 in survivors && k.0 != mergedLabel)
  {
    updated := table;
    var todo := survivors;
    while todo != {}
      invariant todo <= survivors && Symmetric(updated)
      invariant forall x | x in survivors && x !in todo && x != mergedLabel ::
        Get(updated, mergedLabel, x) == Some(WeightedAverage(n1, n2, table[(space1, x)], table[(space2, x)]))
      invariant forall k | k in table :: k in updated
      invariant forall k | k in updated ::
        || (k in table && updated[k] == table[k])
        || (k.0 == mergedLabel && k.1 in survivors && k.1 != mergedLabel)
        || (k.1 == mergedLabel && k.0 in survivors && k.0 != mergedLabel)
      decreases todo
    {
      var x :| x in todo;
      if x != mergedLabel {
        assert (space1, x) in updated && updated[(space1, x)] == table[(space1, x)];
        assert (space2, x) in updated && updated[(space2, x)] == table[(space2, x)];
        var d1 := Get(updated, space1, x).value;
        var d2 := Get(updated, space2, x).value;
        PutKeepsSymmetric(updated, mergedLabel, x, WeightedAverage(n1, n2, d1, d2));
        updated := Put(updated, mergedLabel, x, WeightedAverage(n1, n2, d1, d2));
      }
      todo := todo - {x};
    }
  }

  // ---------------------------------------------------------------------------
  // The state between rounds

  /** The leaves of the species come first, in order; every later node is internal. */
  ghost predicate LeafLayout(species: seq<Species>, nodes: Arena)
  {
    && |species| <= |nodes|
    && (forall i | 0 <= i < |species| :: nodes[i].kind == Leaf(species[i]) && nodes[i].nodeLabel == species[i].name)
    && (forall i | |species| <= i < |nodes| :: nodes[i].kind.Internal?)
  }

  /** Forest entry `k` names a parentless node labelled `k`. */
  ghost predicate EntryMatches(nodes: Arena, forest: Forest, k: string)
    requires k in forest
  {
    forest[k] < |nodes| && nodes[forest[k]].parent.None? && nodes[forest[k]].nodeLabel == k
  }

  /** Node `i`, when parentless, is in the forest under its label. */
  ghost predicate NodeListed(nodes: Arena, forest: Forest, i: nat)
    requires i < |nodes|
  {
    nodes[i].parent.None? ==> nodes[i].nodeLabel in forest && forest[nodes[i].nodeLabel] == i
  }

  /** The forest holds exactly the parentless nodes, each under its own label. */
  ghost predicate ForestMatches(nodes: Arena, forest: Forest)
  {
    && (forall k | k in forest :: EntryMatches(nodes, forest, k))
    && (forall i | 0 <= i < |nodes| :: NodeListed(nodes, forest, i))
  }

  /** Every pair of distinct forest labels has a stored distance below Double.MAX_VALUE. */
  ghost predicate DistancesKnown(forest: Forest, table: Table)
  {
    forall a, b | a in forest && b in forest && a != b :: (a, b) in table && table[(a, b)] < DoubleMaxValue
  }

  /** Every pair of distinct forest labels has a stored distance. */
  ghost predicate DistancesStored(forest: Forest, table: Table)
  {
    forall a, b | a in forest && b in forest && a != b :: (a, b) in table
  }

  ghost predicate DistancesNonNegative(forest: Forest, table: Table)
  {
    forall a, b | a in forest && b in forest && a != b && (a, b) in table :: 0.0 <= table[(a, b)]
  }

  /** Distinct forest labels are built from disjoint sets of species names. */
  ghost predicate LabelsApart(forest: Forest)
  {
    forall a, b | a in forest && b in forest && a != b :: PiecesDisjoint(a, b)
  }

  /** Node `i`, when internal, is labelled by its children's labels, the left one not
      greater than the right one under compareTo. */
  ghost predicate CanonicalAt(nodes: Arena, i: nat)
    requires i < |nodes|
  {
    nodes[i].kind.Internal? ==>
      var l, r := nodes[i].kind.left, nodes[i].kind.right;
      && l < |nodes| && r < |nodes|
      && nodes[i].nodeLabel == Join(nodes[l].nodeLabel, nodes[r].nodeLabel)
      && CompareTo(nodes[l].nodeLabel, nodes[r].nodeLabel) <= 0
  }

  ghost predicate LabelsCanonical(nodes: Arena)
  {
    forall i | 0 <= i < |nodes| :: CanonicalAt(nodes, i)
  }

  /** The nodes and the forest between two rounds of buildTree. With non-negative input
      distances (`nonNegative`) the edge weights stay non-negative. */
  ghost predicate TreeInv(species: seq<Species>, nonNegative: bool, nodes: Arena, forest: Forest)
  {
    && Valid(nodes)
    && LeafLayout(species, nodes)
    && ForestMatches(nodes, forest)
    && |forest| + |nodes| == 2 * |species|
    && LabelsApart(forest)
    && LabelsCanonical(nodes)
    && (nonNegative ==> WeightsNonNegative(nodes))
  }

  /** The distance table between two rounds: symmetric, and known for every pair of
      forest labels (non-negative when the input distances are). */
  ghost predicate TableInv(nonNegative: bool, forest: Forest, table: Table)
  {
    && DistancesKnown(forest, table)
    && Symmetric(table)
    && (nonNegative ==> DistancesNonNegative(forest, table))
  }

  /** The table part of the invariant without the bound Double.MAX_VALUE, which is
      what the rounds of the corrected scan keep. */
  ghost predicate TableStored(nonNegative: bool, forest: Forest, table: Table)
  {
    && DistancesStored(forest, table)
    && Symmetric(table)
    && (nonNegative ==> DistancesNonNegative(forest, table))
  }

  /** What holds between two rounds of buildTree. */
  ghost predicate BuildInv(species: seq<Species>, nonNegative: bool, nodes: Arena, forest: Forest, table: Table)
  {
    TreeInv(species, nonNegative, nodes, forest) && TableInv(nonNegative, forest, table)
  }

  /** A forest of two or more labels has two distinct ones. */
  lemma TwoLabels(forest: Forest) returns (a: string, b: string)
    requires |forest| > 1
    ensures a in forest && b in forest && a != b
  {
    a :| a in forest;
    var rest := forest.Keys - {a};
    assert |rest| == |forest.Keys| - 1;
    b :| b in rest;
  }

  /** The merged label is new to the forest and shares no species name with the
      labels that survive the round. */
  lemma MergedLabelFresh(forest: Forest, space1: string, space2: string, mergedLabel: string)
    requires LabelsApart(forest) && space1 in forest && space2 in forest && space1 != space2
    requires mergedLabel == Join(space1, space2) || mergedLabel == Join(space2, space1)
    ensures mergedLabel !in forest
    ensures forall x | x in forest && x != space1 && x != space2 ::
      PiecesDisjoint(mergedLabel, x) && PiecesDisjoint(x, mergedLabel)
  {
    forall x | x in forest && x != space1 && x != space2
      ensures PiecesDisjoint(mergedLabel, x) && PiecesDisjoint(x, mergedLabel) && mergedLabel != x
    {
      JoinIsFresh(space1, space2, x);
      JoinIsFresh(space2, space1, x);
    }
  }

  /** `survivors` is `forest` without the entries of `space1` and `space2`. */
  ghost predicate Without(forest: Forest, survivors: Forest, space1: string, space2: string)
  {
    && (forall k :: k in survivors <==> k in forest && k != space1 && k != space2)
    && (forall k | k in survivors :: survivors[k] == forest[k])
  }

  /** The two `forest.remove` calls of a merge. */
  method RemovePair(forest: Forest, space1: string, space2: string) returns (survivors: Forest)
    ensures Without(forest, survivors, space1, space2)
  {
    survivors := forest - {space1} - {space2};
  }

  /** `forest'` is `forest` with the labels `space1` and `space2` taken out and
      `mergedLabel` entered for node `id`. */
  ghost predicate Replaced(forest: Forest, forest': Forest, space1: string, space2: string, mergedLabel: string, id: NodeId)
  {
    && (forall k :: k in forest' <==> k == mergedLabel || (k in forest && k != space1 && k != space2))
    && mergedLabel in forest' && forest'[mergedLabel] == id
    && (forall k | k in forest' && k != mergedLabel :: forest'[k] == forest[k])
  }

  /** The merged label keeps the forest labels apart. */
  lemma MergeKeepsApart(forest: Forest, forest': Forest, space1: string, space2: string,
                        mergedLabel: string, id: NodeId)
    requires LabelsApart(forest) && space1 in forest && space2 in forest && space1 != space2
    requires mergedLabel == Join(space1, space2) || mergedLabel == Join(space2, space1)
    requires Replaced(forest, forest', space1, space2, mergedLabel, id)
    ensures LabelsApart(forest')
  {
    MergedLabelFresh(forest, space1, space2, mergedLabel);
    forall a, b | a in forest' && b in forest' && a != b ensures PiecesDisjoint(a, b) {
      if a != mergedLabel && b != mergedLabel {
        assert a in forest && b in forest;
      }
    }
  }

  /** Attaching keeps the leaves in place and the new node's label canonical. */
  lemma AttachKeepsLabels(species: seq<Species>, nodes: Arena, left: NodeId, right: NodeId,
                          smaller: string, larger: string, mergedLabel: string, weight: real)
    requires Valid(nodes) && LeafLayout(species, nodes) && LabelsCanonical(nodes)
    requires left < |nodes| && right < |nodes| && left != right
    requires nodes[left].parent.None? && nodes[right].parent.None?
    requires nodes[left].nodeLabel == smaller && nodes[right].nodeLabel == larger
    requires mergedLabel == Join(smaller, larger) && CompareTo(smaller, larger) <= 0
    ensures var nodes' := Attach(nodes, left, right, mergedLabel, weight);
      LeafLayout(species, nodes') && LabelsCanonical(nodes')
    ensures WeightsNonNegative(nodes) && 0.0 <= weight ==> WeightsNonNegative(Attach(nodes, left, right, mergedLabel, weight))
  {
    var nodes' := Attach(nodes, left, right, mergedLabel, weight);
    forall i | 0 <= i < |nodes'| ensures CanonicalAt(nodes', i) {
      if i < |nodes| {
        assert CanonicalAt(nodes, i);
        assert ValidAt(nodes, i);
        if nodes[i].kind.Internal? {
          var l, r := nodes[i].kind.left, nodes[i].kind.right;
          assert nodes'[l].nodeLabel == nodes[l].nodeLabel && nodes'[r].nodeLabel == nodes[r].nodeLabel;
        }
      }
    }
  }

  /** Taking out two labels and entering a new one shrinks the forest by one. */
  lemma MergedForestKeys(forest: Forest, forest': Forest, space1: string, space2: string,
                         mergedLabel: string, id: NodeId)
    requires space1 in forest && space2 in forest && space1 != space2 && mergedLabel !in forest
    requires Replaced(forest, forest', space1, space2, mergedLabel, id)
    ensures |forest'| == |forest| - 1
  {
    assert forest'.Keys == forest.Keys - {space1, space2} + {mergedLabel};
    assert |forest.Keys - {space1, space2}| == |forest.Keys| - 2;
  }

  /** After the merge the forest again holds exactly the parentless nodes. */
  lemma AttachKeepsForest(nodes: Arena, forest: Forest, forest': Forest, space1: string, space2: string,
                          mergedLabel: string, weight: real)
    requires Valid(nodes) && ForestMatches(nodes, forest)
    requires space1 in forest && space2 in forest && space1 != space2 && mergedLabel !in forest
    requires Replaced(forest, forest', space1, space2, mergedLabel, |nodes|)
    ensures forest[space1] < |nodes| && forest[space2] < |nodes| && forest[space1] != forest[space2]
    ensures nodes[forest[space1]].parent.None? && nodes[forest[space2]].parent.None?
    ensures ForestMatches(Attach(nodes, forest[space1], forest[space2], mergedLabel, weight), forest')
  {
    var left, right := forest[space1], forest[space2];
    assert EntryMatches(nodes, forest, space1) && EntryMatches(nodes, forest, space2);
    var nodes' := Attach(nodes, left, right, mergedLabel, weight);
    forall k | k in forest' ensures EntryMatches(nodes', forest', k) {
      if k != mergedLabel {
        assert EntryMatches(nodes, forest, k);
        assert forest[k] != left && forest[k] != right;
      }
    }
    forall i | 0 <= i < |nodes'| ensures NodeListed(nodes', forest', i) {
      if i < |nodes| && nodes'[i].parent.None? {
        assert i != left && i != right && nodes[i] == nodes'[i];
        assert NodeListed(nodes, forest, i);
      }
    }
  }

  /** The merged label's distances to the survivors, which are its distances in `updated`. */
  ghost predicate AveragesStored(forest': Forest, table: Table, updated: Table,
                                 space1: string, space2: string, mergedLabel: string, n1: nat, n2: nat)
    requires 0 < n1 + n2
  {
    forall x | x in forest' && x != mergedLabel ::
      && (space1, x) in table && (space2, x) in table
      && Get(updated, mergedLabel, x) == Some(WeightedAverage(n1, n2, table[(space1, x)], table[(space2, x)]))
  }

  /** `updated` keeps every entry of `table` and changes only those of `mergedLabel`
      against a survivor. */
  ghost predicate OnlyMergedChanged(forest': Forest, table: Table, updated: Table, mergedLabel: string)
  {
    && (forall k | k in table :: k in updated)
    && (forall k | k in updated ::
         || (k in table && updated[k] == table[k])
         || (k.0 == mergedLabel && k.1 in forest' && k.1 != mergedLabel)
         || (k.1 == mergedLabel && k.0 in forest' && k.0 != mergedLabel))
  }

  /** The stored distances between surviving labels are unchanged and those of the
      merged label lie between the two it averages, so the round keeps every forest
      pair's distance known, below Double.MAX_VALUE, and non-negative when it was. */
  lemma UpdateKeepsDistances(forest: Forest, forest': Forest, table: Table, updated: Table,
                             space1: string, space2: string, mergedLabel: string, n1: nat, n2: nat, id: NodeId)
    requires DistancesKnown(forest, table) && 0 < n1 + n2
    requires space1 in forest && space2 in forest && space1 != space2
    requires Replaced(forest, forest', space1, space2, mergedLabel, id)
    requires AveragesStored(forest', table, updated, space1, space2, mergedLabel, n1, n2)
    requires OnlyMergedChanged(forest', table, updated, mergedLabel)
    requires Symmetric(updated)
    ensures DistancesKnown(forest', updated)
    ensures DistancesNonNegative(forest, table) ==> DistancesNonNegative(forest', updated)
  {
    forall a, b | a in forest' && b in forest' && a != b
      ensures (a, b) in updated && updated[(a, b)] < DoubleMaxValue
      ensures DistancesNonNegative(forest, table) ==> 0.0 <= updated[(a, b)]
    {
      if a == mergedLabel || b == mergedLabel {
        var x := if a == mergedLabel then b else a;
        assert (mergedLabel, x) in updated && (x, mergedLabel) in updated;
        var d1, d2 := table[(space1, x)], table[(space2, x)];
        WeightedAverageBetween(n1, n2, d1, d2);
        assert updated[(a, b)] == WeightedAverage(n1, n2, d1, d2);
      } else {
        assert (a, b) in table;
      }
    }
  }

  /** Hanging the forest nodes of `smaller` and `larger` under a new node labelled
      `smaller+larger` and entering that node in the forest in their place keeps the
      tree part of the invariant. */
  lemma MergeKeepsTree(species: seq<Species>, nonNegative: bool, nodes: Arena, forest: Forest,
                       nodes': Arena, forest': Forest, smaller: string, larger: string, mergedLabel: string, weight: real)
    requires TreeInv(species, nonNegative, nodes, forest)
    requires smaller in forest && larger in forest && smaller != larger
    requires mergedLabel == Join(smaller, larger) && CompareTo(smaller, larger) <= 0
    requires Replaced(forest, forest', smaller, larger, mergedLabel, |nodes|)
    requires nonNegative ==> 0.0 <= weight
    requires forest[smaller] < |nodes| && forest[larger] < |nodes| && forest[smaller] != forest[larger]
    requires nodes[forest[smaller]].parent.None? && nodes[forest[larger]].parent.None?
    requires nodes' == Attach(nodes, forest[smaller], forest[larger], mergedLabel, weight)
    ensures TreeInv(species, nonNegative, nodes', forest')
  {
    var left, right := forest[smaller], forest[larger];
    MergedLabelFresh(forest, smaller, larger, mergedLabel);
    assert ForestMatches(nodes', forest') by {
      AttachKeepsForest(nodes, forest, forest', smaller, larger, mergedLabel, weight);
    }
    assert |forest'| == |forest| - 1 by {
      MergedForestKeys(forest, forest', smaller, larger, mergedLabel, |nodes|);
    }
    assert LeafLayout(species, nodes') && LabelsCanonical(nodes')
        && (nonNegative ==> WeightsNonNegative(nodes')) by {
      assert EntryMatches(nodes, forest, smaller) && EntryMatches(nodes, forest, larger);
      AttachKeepsLabels(species, nodes, left, right, smaller, larger, mergedLabel, weight);
    }
    MergeKeepsApart(forest, forest', smaller, larger, mergedLabel, |nodes|);
  }

  /** Giving the merged label the weighted averages of the distances of `space1` and
      `space2` keeps the table part of the invariant. */
  lemma MergeKeepsTable(nonNegative: bool, forest: Forest, forest': Forest, table: Table, updated: Table,
                        space1: string, space2: string, mergedLabel: string, n1: nat, n2: nat, id: NodeId)
    requires TableInv(nonNegative, forest, table) && 0 < n1 + n2
    requires space1 in forest && space2 in forest && space1 != space2
    requires Replaced(forest, forest', space1, space2, mergedLabel, id)
    requires AveragesStored(forest', table, updated, space1, space2, mergedLabel, n1, n2)
    requires OnlyMergedChanged(forest', table, updated, mergedLabel)
    requires Symmetric(updated)
    ensures TableInv(nonNegative, forest', updated)
  {
    UpdateKeepsDistances(forest, forest', table, updated, space1, space2, mergedLabel, n1, n2, id);
  }

  // ---------------------------------------------------------------------------
  // One round

  /** The label of the node merging `space1` and `space2`: both labels joined, the
      smaller under compareTo first. */
  function MergedLabel(space1: string, space2: string): (r: string)
  {
    if CompareTo(space1, space2) <= 0 then Join(space1, space2) else Join(space2, space1)
  }

  /** The merged label does not depend on which of the two labels the scan met first. */
  lemma MergedLabelSymmetric(space1: string, space2: string)
    ensures MergedLabel(space1, space2) == MergedLabel(space2, space1)
  {
    CompareToAntisymmetric(space1, space2);
    CompareToZero(space1, space2);
  }

  /** `space1` and `space2` are a closest pair of distinct forest labels, at distance
      `shortDistance`. */
  ghost predicate ClosestPairOf(forest: Forest, table: Table, space1: string, space2: string, shortDistance: real)
  {
    && space1 in forest && space2 in forest && space1 != space2
    && Get(table, space1, space2) == Some(shortDistance)
    && (forall a, b | a in forest && b in forest && a != b && (a, b) in table :: shortDistance <= table[(a, b)])
  }

  /** The nodes of `space1` and `space2`, the one with the compareTo-smaller label on
      the left, hang under a new parentless node labelled `smaller+larger` with edge
      weight `weight`, and the forest trades the two labels for the merged one. */
  ghost predicate NodesMerged(nodes: Arena, forest: Forest, nodes': Arena, forest': Forest,
                              space1: string, space2: string, mergedLabel: string, weight: real)
  {
    && space1 in forest && space2 in forest
    && mergedLabel == MergedLabel(space1, space2)
    && var node1, node2 := forest[space1], forest[space2];
    && var (left, right) := if CompareTo(space1, space2) <= 0 then (node1, node2) else (node2, node1);
    && Valid(nodes) && left < |nodes| && right < |nodes| && left != right
    && nodes[left].parent.None? && nodes[right].parent.None?
    && nodes' == Attach(nodes, left, right, mergedLabel, weight)
    && Replaced(forest, forest', space1, space2, mergedLabel, |nodes|)
  }

  /** The table gains the merged label's leaf-count weighted averages to every
      survivor, nothing else changing, and stays symmetric. */
  ghost predicate DistancesMerged(nodes: Arena, forest: Forest, table: Table, forest': Forest, table': Table,
                                  space1: string, space2: string, mergedLabel: string)
  {
    && space1 in forest && space2 in forest
    && var node1, node2 := forest[space1], forest[space2];
    && node1 < |nodes| && node2 < |nodes|
    && 0 < nodes[node1].numLeafs && 0 < nodes[node2].numLeafs
    && AveragesStored(forest', table, table', space1, space2, mergedLabel, nodes[node1].numLeafs, nodes[node2].numLeafs)
    && OnlyMergedChanged(forest', table, table', mergedLabel)
    && Symmetric(table')
  }

  /** One iteration of the buildTree loop, from (`nodes`, `forest`, `table`) to
      (`nodes'`, `forest'`, `table'`): a closest pair is merged at half its distance. */
  ghost predicate MergeStep(nodes: Arena, forest: Forest, table: Table,
                            nodes': Arena, forest': Forest, table': Table,
                            space1: string, space2: string, shortDistance: real, mergedLabel: string)
  {
    && ClosestPairOf(forest, table, space1, space2, shortDistance)
    && NodesMerged(nodes, forest, nodes', forest', space1, space2, mergedLabel, shortDistance / 2.0)
    && DistancesMerged(nodes, forest, table, forest', table', space1, space2, mergedLabel)
  }

  /** A round keeps the tree part of the invariant. */
  lemma StepKeepsTree(species: seq<Species>, nonNegative: bool, nodes: Arena, forest: Forest,
                      nodes': Arena, forest': Forest, space1: string, space2: string, mergedLabel: string, weight: real)
    requires TreeInv(species, nonNegative, nodes, forest)
    requires space1 != space2 && (nonNegative ==> 0.0 <= weight)
    requires NodesMerged(nodes, forest, nodes', forest', space1, space2, mergedLabel, weight)
    ensures TreeInv(species, nonNegative, nodes', forest')
  {
    if CompareTo(space1, space2) <= 0 {
      MergeKeepsTree(species, nonNegative, nodes, forest, nodes', forest', space1, space2, mergedLabel, weight);
    } else {
      CompareToAntisymmetric(space1, space2);
      MergeKeepsTree(species, nonNegative, nodes, forest, nodes', forest', space2, space1, mergedLabel, weight);
    }
  }

  /** A round keeps the table part of the invariant. */
  lemma StepKeepsTable(nonNegative: bool, nodes: Arena, forest: Forest, table: Table, forest': Forest, table': Table,
                       space1: string, space2: string, mergedLabel: string, id: NodeId)
    requires TableInv(nonNegative, forest, table) && space1 != space2
    requires Replaced(forest, forest', space1, space2, mergedLabel, id)
    requires DistancesMerged(nodes, forest, table, forest', table', space1, space2, mergedLabel)
    ensures TableInv(nonNegative, forest', table')
  {
    var node1, node2 := forest[space1], forest[space2];
    MergeKeepsTable(nonNegative, forest, forest', table, table', space1, space2, mergedLabel,
                    nodes[node1].numLeafs, nodes[node2].numLeafs, id);
  }

  /** A round keeps the invariant of buildTree, and takes one label out of the forest
      while adding one node. */
  lemma MergeKeepsInv(species: seq<Species>, nonNegative: bool, nodes: Arena, forest: Forest, table: Table,
                      nodes': Arena, forest': Forest, table': Table,
                      space1: string, space2: string, shortDistance: real, mergedLabel: string)
    requires BuildInv(species, nonNegative, nodes, forest, table)
    requires MergeStep(nodes, forest, table, nodes', forest', table', space1, space2, shortDistance, mergedLabel)
    ensures BuildInv(species, nonNegative, nodes', forest', table')
    ensures |forest'| == |forest| - 1 && |nodes'| == |nodes| + 1
  {
    assert nonNegative ==> 0.0 <= shortDistance / 2.0 by {
      assert (space1, space2) in table;
    }
    StepKeepsTree(species, nonNegative, nodes, forest, nodes', forest', space1, space2, mergedLabel, shortDistance / 2.0);
    StepKeepsTable(nonNegative, nodes, forest, table, forest', table', space1, space2, mergedLabel, |nodes|);
  }

  /** The loop body of buildTree once the scan has chosen `space1` and `space2`: both
      removals, the new node over the two old ones (the compareTo-smaller label on the
      left) at half their distance, the averages, and the merged label's forest entry. */
  method MergePair(nodes: Arena, forest: Forest, table: Table, space1: string, space2: string, shortDistance: real)
    returns (nodes': Arena, forest': Forest, table': Table, mergedLabel: string)
    requires Valid(nodes) && ForestMatches(nodes, forest) && DistancesStored(forest, table) && Symmetric(table)
    requires ClosestPairOf(forest, table, space1, space2, shortDistance)
    ensures MergeStep(nodes, forest, table, nodes', forest', table', space1, space2, shortDistance, mergedLabel)
  {
    var node1, node2 := forest[space1], forest[space2];
    assert EntryMatches(nodes, forest, space1) && EntryMatches(nodes, forest, space2);
    var left, right := node1, node2;
    if CompareTo(space1, space2) > 0 {
      left, right := node2, node1;
    }
    mergedLabel := MergedLabel(space1, space2);
    var survivors := RemovePair(forest, space1, space2);
    nodes' := Attach(nodes, left, right, mergedLabel, shortDistance / 2.0);
    forest' := survivors[mergedLabel := |nodes|];
    NumLeafsPositive(nodes, node1);
    NumLeafsPositive(nodes, node2);
    table' := UpdateDistances(table, survivors.Keys, space1, space2, mergedLabel,
                              nodes[node1].numLeafs, nodes[node2].numLeafs);
  }

  /** The body of the buildTree loop. The scan, written out in ClosestPair, finds a
      pair because the forest holds two labels whose distance is below
      Double.MAX_VALUE. */
  method MergeClosestPair(nodes: Arena, forest: Forest, table: Table)
    returns (nodes': Arena, forest': Forest, table': Table, space1: string, space2: string,
             shortDistance: real, mergedLabel: string)
    requires Valid(nodes) && ForestMatches(nodes, forest) && DistancesKnown(forest, table) && Symmetric(table)
    requires |forest| > 1
    ensures MergeStep(nodes, forest, table, nodes', forest', table', space1, space2, shortDistance, mergedLabel)
  {
    var best;
    best, shortDistance := ClosestPair(forest, table);
    assert best.Some? by {
      var a, b := TwoLabels(forest);
      assert (a, b) in table && table[(a, b)] < DoubleMaxValue;
    }
    space1, space2 := best.value.0, best.value.1;
    nodes', forest', table', mergedLabel := MergePair(nodes, forest, table, space1, space2, shortDistance);
  }

  /** The loop body with the corrected scan: it needs only a stored distance for every
      two forest labels, whatever their size. */
  method MergeClosestPairCorrected(nodes: Arena, forest: Forest, table: Table)
    returns (nodes': Arena, forest': Forest, table': Table, space1: string, space2: string,
             shortDistance: real, mergedLabel: string)
    requires Valid(nodes) && ForestMatches(nodes, forest) && DistancesStored(forest, table) && Symmetric(table)
    requires |forest| > 1
    ensures MergeStep(nodes, forest, table, nodes', forest', table', space1, space2, shortDistance, mergedLabel)
  {
    var best;
    best, shortDistance := ClosestPairCorrected(forest, table);
    assert best.Some? by {
      var a, b := TwoLabels(forest);
      assert (a, b) in table;
    }
    space1, space2 := best.value.0, best.value.1;
    nodes', forest', table', mergedLabel := MergePair(nodes, forest, table, space1, space2, shortDistance);
  }

  /** The stored distances between surviving labels are kept and the merged label gets
      one to every survivor, so a round keeps every forest pair's distance stored, and
      non-negative when it was. */
  lemma UpdateKeepsStored(forest: Forest, forest': Forest, table: Table, updated: Table,
                          space1: string, space2: string, mergedLabel: string, n1: nat, n2: nat, id: NodeId)
    requires DistancesStored(forest, table) && 0 < n1 + n2
    requires space1 in forest && space2 in forest && space1 != space2
    requires Replaced(forest, forest', space1, space2, mergedLabel, id)
    requires AveragesStored(forest', table, updated, space1, space2, mergedLabel, n1, n2)
    requires OnlyMergedChanged(forest', table, updated, mergedLabel)
    requires Symmetric(updated)
    ensures DistancesStored(forest', updated)
    ensures DistancesNonNegative(forest, table) ==> DistancesNonNegative(forest', updated)
  {
    forall a, b | a in forest' && b in forest' && a != b
      ensures (a, b) in updated
      ensures DistancesNonNegative(forest, table) ==> 0.0 <= updated[(a, b)]
    {
      if a == mergedLabel || b == mergedLabel {
        var x := if a == mergedLabel then b else a;
        assert (mergedLabel, x) in updated && (x, mergedLabel) in updated;
        var d1, d2 := table[(space1, x)], table[(space2, x)];
        WeightedAverageBetween(n1, n2, d1, d2);
        assert updated[(a, b)] == WeightedAverage(n1, n2, d1, d2);
      } else {
        assert (a, b) in table;
      }
    }
  }

  /** A round keeps the tree part of the invariant and the table part without the
      bound Double.MAX_VALUE, and takes one label out of the forest while adding one
      node, whatever the distance it merges at. */
  lemma MergeKeepsStored(species: seq<Species>, nonNegative: bool, nodes: Arena, forest: Forest, table: Table,
                         nodes': Arena, forest': Forest, table': Table,
                         space1: string, space2: string, shortDistance: real, mergedLabel: string)
    requires TreeInv(species, nonNegative, nodes, forest) && TableStored(nonNegative, forest, table)
    requires MergeStep(nodes, forest, table, nodes', forest', table', space1, space2, shortDistance, mergedLabel)
    ensures TreeInv(species, nonNegative, nodes', forest') && TableStored(nonNegative, forest', table')
    ensures |forest'| == |forest| - 1 && |nodes'| == |nodes| + 1
  {
    assert nonNegative ==> 0.0 <= shortDistance / 2.0 by {
      assert (space1, space2) in table;
    }
    StepKeepsTree(species, nonNegative, nodes, forest, nodes', forest', space1, space2, mergedLabel, shortDistance / 2.0);
    var node1, node2 := forest[space1], forest[space2];
    UpdateKeepsStored(forest, forest', table, table', space1, space2, mergedLabel,
                      nodes[node1].numLeafs, nodes[node2].numLeafs, |nodes|);
  }

  // ---------------------------------------------------------------------------
  // The order of the merges

  /** The internal nodes, in the order the rounds made them, have non-decreasing edge
      weights. */
  ghost predicate WeightsOrdered(species: seq<Species>, nodes: Arena)
  {
    forall i, j | |species| <= i < j < |nodes| ::
      && nodes[i].kind.Internal? && nodes[j].kind.Internal?
      && nodes[i].kind.distanceToChild <= nodes[j].kind.distanceToChild
  }

  /** Twice the weight of the last merge is at most every stored distance between two
      forest labels, so no later round can merge at a smaller weight. */
  ghost predicate NextMergeNotLighter(species: seq<Species>, nodes: Arena, forest: Forest, table: Table)
  {
    |species| < |nodes| ==>
      && nodes[|nodes| - 1].kind.Internal?
      && forall a, b | a in forest && b in forest && a != b && (a, b) in table ::
           2.0 * nodes[|nodes| - 1].kind.distanceToChild <= table[(a, b)]
  }

  ghost predicate MergesOrdered(species: seq<Species>, nodes: Arena, forest: Forest, table: Table)
  {
    WeightsOrdered(species, nodes) && NextMergeNotLighter(species, nodes, forest, table)
  }

  /** A weighted average of a distance with itself is that distance. */
  lemma WeightedAverageOfSame(n1: nat, n2: nat, d: real)
    requires 0 < n1 + n2
    ensures WeightedAverage(n1, n2, d, d) == d
  {
    WeightedAverageBetween(n1, n2, d, d);
  }

  /** What a round does to the arena: it appends the merged node, labelled with the
      merged label and weighted half the distance of the pair, and keeps every other
      node's label and kind. */
  lemma RoundAppends(nodes: Arena, forest: Forest, table: Table,
                     nodes': Arena, forest': Forest, table': Table,
                     space1: string, space2: string, shortDistance: real, mergedLabel: string)
    requires MergeStep(nodes, forest, table, nodes', forest', table', space1, space2, shortDistance, mergedLabel)
    ensures |nodes'| == |nodes| + 1
    ensures nodes'[|nodes|].nodeLabel == mergedLabel && nodes'[|nodes|].kind.Internal?
    ensures nodes'[|nodes|].kind.distanceToChild == shortDistance / 2.0
    ensures forall i | 0 <= i < |nodes| :: nodes'[i].nodeLabel == nodes[i].nodeLabel && nodes'[i].kind == nodes[i].kind
  {
    var node1, node2 := forest[space1], forest[space2];
    var (left, right) := if CompareTo(space1, space2) <= 0 then (node1, node2) else (node2, node1);
    assert nodes' == Attach(nodes, left, right, mergedLabel, shortDistance / 2.0);
  }

  /** The new node's weight, half the smallest distance between forest labels, is at
      least that of every earlier merge. */
  lemma MergeKeepsWeightsOrdered(species: seq<Species>, nodes: Arena, forest: Forest, table: Table,
                                 nodes': Arena, forest': Forest, table': Table,
                                 space1: string, space2: string, shortDistance: real, mergedLabel: string)
    requires |species| <= |nodes|
    requires MergesOrdered(species, nodes, forest, table)
    requires MergeStep(nodes, forest, table, nodes', forest', table', space1, space2, shortDistance, mergedLabel)
    ensures WeightsOrdered(species, nodes')
  {
    RoundAppends(nodes, forest, table, nodes', forest', table', space1, space2, shortDistance, mergedLabel);
    assert (space1, space2) in table && table[(space1, space2)] == shortDistance;
    forall i, j | |species| <= i < j < |nodes'|
      ensures && nodes'[i].kind.Internal? && nodes'[j].kind.Internal?
              && nodes'[i].kind.distanceToChild <= nodes'[j].kind.distanceToChild
    {
      if j == |nodes| && i < |nodes| - 1 {
        assert nodes[i].kind.distanceToChild <= nodes[|nodes| - 1].kind.distanceToChild;
      }
    }
  }

  /** Every distance the round leaves between forest labels is at least the distance
      it merged at: the survivors' were, and the merged label's averages lie between
      two such distances. */
  lemma MergeKeepsNextNotLighter(species: seq<Species>, nodes: Arena, forest: Forest, table: Table,
                                 nodes': Arena, forest': Forest, table': Table,
                                 space1: string, space2: string, shortDistance: real, mergedLabel: string)
    requires |species| <= |nodes| && DistancesStored(forest, table)
    requires MergeStep(nodes, forest, table, nodes', forest', table', space1, space2, shortDistance, mergedLabel)
    ensures NextMergeNotLighter(species, nodes', forest', table')
  {
    RoundAppends(nodes, forest, table, nodes', forest', table', space1, space2, shortDistance, mergedLabel);
    var n1, n2 := nodes[forest[space1]].numLeafs, nodes[forest[space2]].numLeafs;
    forall a, b | a in forest' && b in forest' && a != b && (a, b) in table'
      ensures shortDistance <= table'[(a, b)]
    {
      if a == mergedLabel || b == mergedLabel {
        var x := if a == mergedLabel then b else a;
        assert x in forest && x != space1 && x != space2;
        var d1, d2 := table[(space1, x)], table[(space2, x)];
        assert shortDistance <= d1 && shortDistance <= d2;
        WeightedAverageBetween(n1, n2, d1, d2);
        assert (mergedLabel, x) in table' && table'[(mergedLabel, x)] == WeightedAverage(n1, n2, d1, d2);
      } else {
        assert a in forest && b in forest;
      }
    }
  }

  /** The merge weights never decrease: a round merges at half the smallest distance
      between forest labels, and every average it stores lies between two distances no
      smaller than that one. */
  lemma MergeKeepsOrder(species: seq<Species>, nodes: Arena, forest: Forest, table: Table,
                        nodes': Arena, forest': Forest, table': Table,
                        space1: string, space2: string, shortDistance: real, mergedLabel: string)
    requires |species| <= |nodes| && DistancesStored(forest, table)
    requires MergesOrdered(species, nodes, forest, table)
    requires MergeStep(nodes, forest, table, nodes', forest', table', space1, space2, shortDistance, mergedLabel)
    ensures MergesOrdered(species, nodes', forest', table')
  {
    MergeKeepsWeightsOrdered(species, nodes, forest, table, nodes', forest', table',
                             space1, space2, shortDistance, mergedLabel);
    MergeKeepsNextNotLighter(species, nodes, forest, table, nodes', forest', table',
                             space1, space2, shortDistance, mergedLabel);
  }
}
