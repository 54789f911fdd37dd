/** buildTree as a whole: the two set-up loops, the merge rounds until one label is
    left, and the tree they leave behind. */
module Build {
  import opened JavaLang
  import opened TreeNode
  import opened ClusterLabels
  import opened MultiKeyMap
  import opened Clustering
  import opened Queries
  import opened Rendering

  /** Every pair of different species is closer than Double.MAX_VALUE. Then every
      round's scan finds a pair (the averages stay below Double.MAX_VALUE as well).
      When a scan finds none, the code as written dereferences a null node in the
      first round, and in a later round merges the previous round's pair again, which
      can go on forever (StaleRoundRepeats). */
  ghost predicate DistancesBelowMax(species: seq<Species>, distance: (Species, Species) -> real)
  {
    forall p, q | 0 <= p < |species| && 0 <= q < |species| && p != q ::
      distance(species[p], species[q]) < DoubleMaxValue
  }

  /** Every pair distance is non-negative; the code never checks this, so it is tracked by a ghost flag. */
  ghost predicate DistancesAtLeastZero(species: seq<Species>, distance: (Species, Species) -> real)
  {
    forall p, q | 0 <= p < |species| && 0 <= q < |species| :: 0.0 <= distance(species[p], species[q])
  }

  /** What the set-up loops and the corrected rounds need of the input: distinct names
      free of the separator and a symmetric distance (non-negative as well when
      `nonNegative` is set). */
  ghost predicate PlainInput(species: seq<Species>, distance: (Species, Species) -> real, nonNegative: bool)
  {
    && NamesDistinct(species) && NamesPlain(species)
    && DistanceSymmetric(species, distance)
    && (nonNegative ==> DistancesAtLeastZero(species, distance))
  }

  /** What buildTree as written needs of its input: a plain input whose different
      species are closer than Double.MAX_VALUE. */
  ghost predicate GoodInput(species: seq<Species>, distance: (Species, Species) -> real, nonNegative: bool)
  {
    PlainInput(species, distance, nonNegative) && DistancesBelowMax(species, distance)
  }

  // ---------------------------------------------------------------------------
  // Counting

  /** Distinct names make as many forest labels as species. */
  lemma {:induction false} NameSetSize(species: seq<Species>, n: nat)
    requires n <= |species| && NamesDistinct(species)
    ensures |set i | 0 <= i < n :: species[i].name| == n
  {
    if n > 0 {
      NameSetSize(species, n - 1);
      var s := set i | 0 <= i < n - 1 :: species[i].name;
      assert (set i | 0 <= i < n :: species[i].name) == s + {species[n - 1].name};
      assert species[n - 1].name !in s;
    }
  }

  /** The numbers below `n`. */
  function Below(n: nat): (r: set<nat>)
    ensures forall i: nat :: i in r <==> i < n
  {
    if n == 0 then {} else Below(n - 1) + {n - 1}
  }

  lemma {:induction false} BelowSize(n: nat)
    ensures |Below(n)| == n
  {
    if n > 0 {
      BelowSize(n - 1);
      var smaller := Below(n - 1);
      assert n - 1 !in smaller;
      assert Below(n) == smaller + {n - 1};
    }
  }

  /** The elements of a listing of nodes, as a set. */
  function Elements(s: seq<NodeId>): (r: set<NodeId>)
    ensures forall x :: x in r <==> x in s
  {
    if |s| == 0 then {} else Elements(s[..|s| - 1]) + {s[|s| - 1]}
  }

  /** A sequence without duplicates has as many distinct elements as positions. */
  lemma {:induction false} DistinctElements(s: seq<NodeId>)
    requires NoDuplicates(s)
    ensures |Elements(s)| == |s|
  {
    if |s| > 0 {
      var init := s[..|s| - 1];
      assert NoDuplicates(init) by {
        forall j, k | 0 <= j < k < |init| ensures init[j] != init[k] {
          assert init[j] == s[j] && init[k] == s[k];
        }
      }
      DistinctElements(init);
      assert s[|s| - 1] !in init by {
        forall k | 0 <= k < |init| ensures init[k] != s[|s| - 1] {
          assert init[k] == s[k];
        }
      }
    }
  }

  /** A duplicate-free listing of exactly the numbers below `n` has length `n`. */
  lemma ListingLength(s: seq<NodeId>, n: nat)
    requires NoDuplicates(s)
    requires forall k | 0 <= k < |s| :: s[k] < n
    requires forall d: nat | d < n :: d in s
    ensures |s| == n
  {
    DistinctElements(s);
    BelowSize(n);
    assert Elements(s) == Below(n);
  }

  // ---------------------------------------------------------------------------
  // Before the first round

  /** The leaves made by the first set-up loop, and the forest listing them by name. */
  ghost predicate LeafForest(species: seq<Species>, nodes: Arena, forest: Forest)
  {
    && |nodes| == |species|
    && (forall i | 0 <= i < |species| :: nodes[i] == LeafNode(species[i]))
    && (forall k | k in forest :: forest[k] < |species| && species[forest[k]].name == k)
    && (forall i | 0 <= i < |species| :: species[i].name in forest && forest[species[i].name] == i)
  }

  /** The leaves satisfy the tree part of the invariant. */
  lemma InitialTree(species: seq<Species>, nonNegative: bool, nodes: Arena, forest: Forest)
    requires NamesDistinct(species) && NamesPlain(species)
    requires LeafForest(species, nodes, forest)
    ensures TreeInv(species, nonNegative, nodes, forest)
  {
    forall i | 0 <= i < |nodes| ensures ValidAt(nodes, i) && CanonicalAt(nodes, i) && NodeListed(nodes, forest, i) {
      assert nodes[i] == LeafNode(species[i]);
    }
    forall k | k in forest ensures EntryMatches(nodes, forest, k) {
      assert nodes[forest[k]] == LeafNode(species[forest[k]]);
    }
    assert |forest| == |species| by {
      assert forest.Keys == set i | 0 <= i < |species| :: species[i].name;
      NameSetSize(species, |species|);
    }
    forall a, b | a in forest && b in forest && a != b ensures PiecesDisjoint(a, b) {
      PiecesOfName(a);
      PiecesOfName(b);
    }
  }

  /** The table of the second set-up loop stores the distance of every two forest
      labels, and satisfies the table part of the invariant when the input's distances
      are below Double.MAX_VALUE. */
  lemma InitialTable(species: seq<Species>, distance: (Species, Species) -> real, nonNegative: bool,
                     forest: Forest, table: Table)
    requires nonNegative ==> DistancesAtLeastZero(species, distance)
    requires forall k | k in forest :: forest[k] < |species| && species[forest[k]].name == k
    requires Symmetric(table)
    requires forall p, q | 0 <= p < |species| && 0 <= q < |species| ::
      Get(table, species[p].name, species[q].name) == Some(distance(species[p], species[q]))
    ensures TableStored(nonNegative, forest, table)
    ensures DistancesBelowMax(species, distance) ==> TableInv(nonNegative, forest, table)
  {
    forall a, b | a in forest && b in forest && a != b
      ensures (a, b) in table
      ensures DistancesBelowMax(species, distance) ==> table[(a, b)] < DoubleMaxValue
      ensures nonNegative ==> 0.0 <= table[(a, b)]
    {
      var p, q := forest[a], forest[b];
      assert Get(table, species[p].name, species[q].name) == Some(distance(species[p], species[q]));
    }
  }

  // ---------------------------------------------------------------------------
  // After the last round

  /** Following parent links from any node ends at a node without a parent. */
  lemma {:induction false} ReachesParentless(t: Arena, i: NodeId) returns (top: NodeId)
    requires Valid(t) && i < |t|
    ensures top < |t| && t[top].parent.None? && IsAncestorOrSelf(t, top, i)
    decreases |t| - i
  {
    assert ValidAt(t, i);
    if t[i].parent.None? {
      top := i;
    } else {
      top := ReachesParentless(t, t[i].parent.value);
    }
  }

  /** A forest of size one has a single label. */
  lemma OnlyLabel(forest: Forest) returns (k: string)
    requires |forest| == 1
    ensures k in forest && forall j | j in forest :: j == k
  {
    k :| k in forest;
    var others := forest.Keys - {k};
    assert |others| == 0;
    assert forall j | j in forest && j != k :: j in others;
  }

  /** When one label is left, the last node made is the only parentless node, so
      every node lies below it. */
  lemma LastNodeIsRoot(nodes: Arena, forest: Forest)
    requires Valid(nodes) && ForestMatches(nodes, forest)
    requires |forest| == 1 && |nodes| > 0
    requires forall k | k in forest :: forest[k] == |nodes| - 1
    ensures TreeValid(nodes, |nodes| - 1)
  {
    var root := |nodes| - 1;
    assert ValidAt(nodes, root);
    var k := OnlyLabel(forest);
    forall i | 0 <= i < |nodes| ensures IsAncestorOrSelf(nodes, root, i) {
      var top := ReachesParentless(nodes, i);
      assert NodeListed(nodes, forest, top);
    }
  }

  /** A single tree over all the nodes counts, at its root, half of them rounded up
      as leaves. */
  lemma RootCountsLeaves(nodes: Arena, root: NodeId)
    requires TreeValid(nodes, root)
    ensures 2 * nodes[root].numLeafs - 1 == |nodes|
  {
    RnlListsSubtree(nodes, root);
    forall d: nat | d < |nodes| ensures d in Rnl(nodes, root) {
      SubtreeIsAncestry(nodes, d, root);
    }
    ListingLength(Rnl(nodes, root), |nodes|);
  }

  /** The tree buildTree leaves behind for N >= 2 species: a single tree over 2N - 1
      nodes rooted at the last node made, with the species as leaves 0 .. N - 1 in
      input order, every internal label canonical, and N leaves under the root. */
  ghost predicate BuiltTree(species: seq<Species>, nonNegative: bool, nodes: Arena, root: NodeId)
  {
    && |nodes| == 2 * |species| - 1 && root == |nodes| - 1
    && TreeValid(nodes, root)
    && nodes[root].kind.Internal? && nodes[root].numLeafs == |species|
    && LeafLayout(species, nodes) && LabelsCanonical(nodes)
    && (nonNegative ==> WeightsNonNegative(nodes))
  }

  /** When the loop stops with N >= 2 species, the last node made is the root of a
      single tree over all 2N - 1 nodes, and it counts all N species as leaves. */
  lemma FinalTree(species: seq<Species>, nonNegative: bool, nodes: Arena, forest: Forest)
    requires TreeInv(species, nonNegative, nodes, forest)
    requires |forest| == 1 && |species| >= 2
    ensures BuiltTree(species, nonNegative, nodes, |nodes| - 1)
  {
    var root := |nodes| - 1;
    var k := OnlyLabel(forest);
    assert EntryMatches(nodes, forest, k);
    assert NodeListed(nodes, forest, root) by { assert ValidAt(nodes, root); }
    LastNodeIsRoot(nodes, forest);
    RootCountsLeaves(nodes, root);
  }

  // ---------------------------------------------------------------------------
  // The rounds

  /** The state of buildTree between two rounds. */
  datatype State = State(nodes: Arena, forest: Forest, table: Table)

  /** What one round did: the pair it merged, their distance, and the merged label. */
  datatype Merge = Merge(space1: string, space2: string, shortDistance: real, mergedLabel: string)

  /** The state the two set-up loops leave: a parentless leaf per species in input
      order, entered under the species name, and the distance of every two species
      stored under their names. */
  ghost predicate InitialState(species: seq<Species>, distance: (Species, Species) -> real, s: State)
  {
    && LeafForest(species, s.nodes, s.forest)
    && Symmetric(s.table)
    && forall p, q | 0 <= p < |species| && 0 <= q < |species| ::
         Get(s.table, species[p].name, species[q].name) == Some(distance(species[p], species[q]))
  }

  /** Round `k` of `merges` leads from state `k` of `trace` to state `k + 1`. */
  ghost predicate StepAt(trace: seq<State>, merges: seq<Merge>, k: nat)
    requires k < |merges| < |trace|
  {
    var s, s', m := trace[k], trace[k + 1], merges[k];
    MergeStep(s.nodes, s.forest, s.table, s'.nodes, s'.forest, s'.table,
              m.space1, m.space2, m.shortDistance, m.mergedLabel)
  }

  /** The states of buildTree from the end of the set-up on: each round merges a
      closest pair of forest labels at half their distance and stores the averages. */
  ghost predicate Rounds(species: seq<Species>, distance: (Species, Species) -> real,
                         trace: seq<State>, merges: seq<Merge>)
  {
    && |trace| == |merges| + 1
    && InitialState(species, distance, trace[0])
    && forall k | 0 <= k < |merges| :: StepAt(trace, merges, k)
  }

  /** Internal node N + k is the node of round k: it carries the merged label and half
      the distance of the merged pair as its edge weight. */
  ghost predicate MergesRecorded(species: seq<Species>, nodes: Arena, merges: seq<Merge>)
  {
    forall k | 0 <= k < |merges| ::
      && |species| + k < |nodes|
      && nodes[|species| + k].nodeLabel == merges[k].mergedLabel
      && nodes[|species| + k].kind.Internal?
      && nodes[|species| + k].kind.distanceToChild == merges[k].shortDistance / 2.0
  }

  /** The history the loop of buildTree keeps beside BuildInv: the rounds so far, which
      end in the current state, and the order of their merges. */
  ghost predicate History(species: seq<Species>, distance: (Species, Species) -> real,
                          nodes: Arena, forest: Forest, table: Table, trace: seq<State>, merges: seq<Merge>)
  {
    && Rounds(species, distance, trace, merges)
    && trace[|trace| - 1] == State(nodes, forest, table)
    && |nodes| == |species| + |merges|
    && MergesRecorded(species, nodes, merges)
    && MergesOrdered(species, nodes, forest, table)
  }

  /** A round extends the trace by its state and its merge. */
  lemma RoundsExtend(species: seq<Species>, distance: (Species, Species) -> real,
                     trace: seq<State>, merges: seq<Merge>, s': State, m: Merge)
    requires Rounds(species, distance, trace, merges)
    requires var s := trace[|trace| - 1];
      MergeStep(s.nodes, s.forest, s.table, s'.nodes, s'.forest, s'.table, m.space1, m.space2, m.shortDistance, m.mergedLabel)
    ensures Rounds(species, distance, trace + [s'], merges + [m])
  {
    var trace', merges' := trace + [s'], merges + [m];
    assert trace'[0] == trace[0];
    forall k | 0 <= k < |merges'| ensures StepAt(trace', merges', k) {
      if k < |merges| {
        assert StepAt(trace, merges, k);
        assert trace'[k] == trace[k] && trace'[k + 1] == trace[k + 1] && merges'[k] == merges[k];
      }
    }
  }

  /** The node a round appends records that round. */
  lemma RecordExtends(species: seq<Species>, nodes: Arena, forest: Forest, table: Table, merges: seq<Merge>,
                      nodes': Arena, forest': Forest, table': Table, m: Merge)
    requires |nodes| == |species| + |merges| && MergesRecorded(species, nodes, merges)
    requires MergeStep(nodes, forest, table, nodes', forest', table', m.space1, m.space2, m.shortDistance, m.mergedLabel)
    ensures MergesRecorded(species, nodes', merges + [m])
  {
    RoundAppends(nodes, forest, table, nodes', forest', table', m.space1, m.space2, m.shortDistance, m.mergedLabel);
    var merges' := merges + [m];
    forall k | 0 <= k < |merges'|
      ensures && |species| + k < |nodes'|
              && nodes'[|species| + k].nodeLabel == merges'[k].mergedLabel
              && nodes'[|species| + k].kind.Internal?
              && nodes'[|species| + k].kind.distanceToChild == merges'[k].shortDistance / 2.0
    {
      if k < |merges| {
        assert merges'[k] == merges[k];
      }
    }
  }

  /** A round extends the history by its state and its merge. */
  lemma HistoryExtends(species: seq<Species>, distance: (Species, Species) -> real,
                       nodes: Arena, forest: Forest, table: Table, trace: seq<State>, merges: seq<Merge>,
                       nodes': Arena, forest': Forest, table': Table, m: Merge)
    requires History(species, distance, nodes, forest, table, trace, merges)
    requires DistancesStored(forest, table)
    requires MergeStep(nodes, forest, table, nodes', forest', table', m.space1, m.space2, m.shortDistance, m.mergedLabel)
    ensures History(species, distance, nodes', forest', table', trace + [State(nodes', forest', table')], merges + [m])
  {
    RoundsExtend(species, distance, trace, merges, State(nodes', forest', table'), m);
    RecordExtends(species, nodes, forest, table, merges, nodes', forest', table', m);
    MergeKeepsOrder(species, nodes, forest, table, nodes', forest', table',
                    m.space1, m.space2, m.shortDistance, m.mergedLabel);
    RoundAppends(nodes, forest, table, nodes', forest', table', m.space1, m.space2, m.shortDistance, m.mergedLabel);
  }

  /** What buildTree leaves, as its rounds explain it: every round merged a closest
      pair, the last state has a single label (or none) and holds the final nodes,
      internal node N + k is the node of round k, and the merge weights never decrease. */
  ghost predicate Explained(species: seq<Species>, distance: (Species, Species) -> real,
                            nodes: Arena, trace: seq<State>, merges: seq<Merge>)
  {
    && Rounds(species, distance, trace, merges)
    && trace[|trace| - 1].nodes == nodes && |trace[|trace| - 1].forest| <= 1
    && |nodes| == |species| + |merges|
    && MergesRecorded(species, nodes, merges)
    && WeightsOrdered(species, nodes)
  }

  /** When the loop stops, its history explains the tree. */
  lemma HistoryExplains(species: seq<Species>, distance: (Species, Species) -> real,
                        nodes: Arena, forest: Forest, table: Table, trace: seq<State>, merges: seq<Merge>)
    requires History(species, distance, nodes, forest, table, trace, merges) && |forest| <= 1
    ensures Explained(species, distance, nodes, trace, merges)
  {
  }

  /** When the loop stops, its history explains the tree it leaves, and with two or
      more species that tree is the single tree over 2N - 1 nodes. */
  lemma LoopEnd(species: seq<Species>, distance: (Species, Species) -> real, nonNegative: bool,
                nodes: Arena, forest: Forest, table: Table, root: Option<NodeId>,
                trace: seq<State>, merges: seq<Merge>)
    requires TreeInv(species, nonNegative, nodes, forest)
    requires History(species, distance, nodes, forest, table, trace, merges)
    requires |forest| <= 1 && (|species| >= 1 ==> |forest| == 1)
    requires root.None? <==> |nodes| == |species|
    requires root.Some? ==> root.value == |nodes| - 1
    ensures Valid(nodes)
    ensures |species| <= 1 <==> root.None?
    ensures root.Some? ==> BuiltTree(species, nonNegative, nodes, root.value)
    ensures Explained(species, distance, nodes, trace, merges)
  {
    if |species| >= 2 {
      FinalTree(species, nonNegative, nodes, forest);
    }
    HistoryExplains(species, distance, nodes, forest, table, trace, merges);
  }

  // ---------------------------------------------------------------------------
  // The whole construction

  /** The two set-up loops of buildTree: a leaf per species, in input order, and the
      distance between every two of them; the invariant holds before the first round,
      and the history starts with this state. The invariant's bound Double.MAX_VALUE
      holds when the input's distances are below it. */
  method Setup(species: seq<Species>, distance: (Species, Species) -> real, ghost nonNegative: bool)
    returns (nodes: Arena, forest: Forest, table: Table)
    requires PlainInput(species, distance, nonNegative)
    ensures TreeInv(species, nonNegative, nodes, forest) && TableStored(nonNegative, forest, table)
    ensures DistancesBelowMax(species, distance) ==> BuildInv(species, nonNegative, nodes, forest, table)
    ensures |nodes| == |species| && |forest| == |species|
    ensures History(species, distance, nodes, forest, table, [State(nodes, forest, table)], [])
  {
    nodes, forest := NewForest(species);
    table := AllPairDistances(species, distance);
    InitialTree(species, nonNegative, nodes, forest);
    InitialTable(species, distance, nonNegative, forest, table);
  }

  /** One round of buildTree's loop: a closest pair merged, as `m` records, with the
      invariant kept, one label fewer, one node more, and the history extended. */
  method Round(ghost species: seq<Species>, ghost distance: (Species, Species) -> real, ghost nonNegative: bool,
               nodes: Arena, forest: Forest, table: Table, ghost trace: seq<State>, ghost merges: seq<Merge>)
    returns (nodes': Arena, forest': Forest, table': Table, ghost m: Merge)
    requires BuildInv(species, nonNegative, nodes, forest, table) && |forest| > 1
    requires History(species, distance, nodes, forest, table, trace, merges)
    ensures MergeStep(nodes, forest, table, nodes', forest', table', m.space1, m.space2, m.shortDistance, m.mergedLabel)
    ensures BuildInv(species, nonNegative, nodes', forest', table')
    ensures |forest'| == |forest| - 1 && |nodes'| == |nodes| + 1
    ensures History(species, distance, nodes', forest', table', trace + [State(nodes', forest', table')], merges + [m])
  {
    var space1, space2, shortDistance, mergedLabel;
    nodes', forest', table', space1, space2, shortDistance, mergedLabel := MergeClosestPair(nodes, forest, table);
    m := Merge(space1, space2, shortDistance, mergedLabel);
    MergeKeepsInv(species, nonNegative, nodes, forest, table, nodes', forest', table',
                  space1, space2, shortDistance, mergedLabel);
    HistoryExtends(species, distance, nodes, forest, table, trace, merges, nodes', forest', table', m);
  }

  /** The loop of buildTree: merge closest pairs until one label is left. The root is
      the node of the last round, and stays null when no round runs. */
  method MergeAll(ghost species: seq<Species>, ghost distance: (Species, Species) -> real, ghost nonNegative: bool,
                  nodes0: Arena, forest0: Forest, table0: Table)
    returns (nodes: Arena, forest: Forest, table: Table, root: Option<NodeId>,
             ghost trace: seq<State>, ghost merges: seq<Merge>)
    requires BuildInv(species, nonNegative, nodes0, forest0, table0)
    requires History(species, distance, nodes0, forest0, table0, [State(nodes0, forest0, table0)], [])
    requires |forest0| == |species|
    ensures BuildInv(species, nonNegative, nodes, forest, table)
    ensures History(species, distance, nodes, forest, table, trace, merges)
    ensures |forest| <= 1 && (|species| >= 1 ==> |forest| == 1)
    ensures root.None? <==> |nodes| == |species|
    ensures root.Some? ==> root.value == |nodes| - 1
  {
    nodes, forest, table := nodes0, forest0, table0;
    trace, merges := [State(nodes, forest, table)], [];
    root := None;
    while |forest| > 1
      invariant BuildInv(species, nonNegative, nodes, forest, table)
      invariant History(species, distance, nodes, forest, table, trace, merges)
      invariant |species| >= 1 ==> |forest| >= 1
      invariant root.None? <==> |nodes| == |species|
      invariant root.Some? ==> root.value == |nodes| - 1
      decreases |forest|
    {
      root := Some(|nodes|);
      ghost var m;
      nodes, forest, table, m := Round(species, distance, nonNegative, nodes, forest, table, trace, merges);
      trace, merges := trace + [State(nodes, forest, table)], merges + [m];
    }
  }

  /** buildTree: the set-up loops, then the rounds until one label is left. The root
      is the last node made, and stays null when there are fewer than two species.
      `trace` and `merges` are the states and the merges of the rounds: every round
      merges a closest pair, the last state is the one left when a single label
      remains, and the merge weights never decrease. */
  method Cluster(ghost nonNegative: bool, species: seq<Species>, distance: (Species, Species) -> real)
    returns (nodes: Arena, root: Option<NodeId>, ghost trace: seq<State>, ghost merges: seq<Merge>)
    requires GoodInput(species, distance, nonNegative)
    ensures Valid(nodes)
    ensures |species| <= 1 <==> root.None?
    ensures root.Some? ==> BuiltTree(species, nonNegative, nodes, root.value)
    ensures Explained(species, distance, nodes, trace, merges)
  {
    var nodes0, forest0, table0 := Setup(species, distance, nonNegative);
    var forest, table;
    nodes, forest, table, root, trace, merges := MergeAll(species, distance, nonNegative, nodes0, forest0, table0);
    LoopEnd(species, distance, nonNegative, nodes, forest, table, root, trace, merges);
  }

  // ---------------------------------------------------------------------------
  // A round whose scan finds no pair

  /** A round of the loop as written when the scan finds no pair below
      Double.MAX_VALUE: `space1`, `space2` and their nodes keep the values of the
      previous round, both removals find nothing, the averages are taken again from
      the two old labels, and the re-merged label replaces its own forest entry. (The
      nodes are left out: the forest alone decides whether the loop goes on.) */
  ghost predicate StaleRound(forest: Forest, table: Table, forest': Forest, table': Table,
                             space1: string, space2: string, n1: nat, n2: nat, id: NodeId)
  {
    var mergedLabel := MergedLabel(space1, space2);
    && 0 < n1 + n2
    && forest' == (forest - {space1} - {space2})[mergedLabel := id]
    && AveragesStored(forest', table, table', space1, space2, mergedLabel, n1, n2)
    && OnlyMergedChanged(forest', table, table', mergedLabel)
    && Symmetric(table')
  }

  /** Three species: A and B at distance 1, and C at Double.MAX_VALUE from both. */
  const Trio: seq<Species> := [Species("A", []), Species("B", []), Species("C", [])]

  function TrioDistance(x: Species, y: Species): (d: real)
  {
    if x.name == y.name then 0.0
    else if {x.name, y.name} == {"A", "B"} then 1.0
    else DoubleMaxValue
  }

  /** Trio is a proper input except that C is not closer than Double.MAX_VALUE to the
      others. */
  lemma TrioOnlyTooFar()
    ensures NamesDistinct(Trio) && NamesPlain(Trio) && DistanceSymmetric(Trio, TrioDistance)
    ensures !DistancesBelowMax(Trio, TrioDistance)
  {
    assert TrioDistance(Trio[0], Trio[2]) == DoubleMaxValue;
  }

  /** Trio is an input of the corrected buildTree, with non-negative distances. */
  lemma TrioPlain()
    ensures PlainInput(Trio, TrioDistance, true)
  {
    TrioOnlyTooFar();
    forall p, q | 0 <= p < |Trio| && 0 <= q < |Trio| ensures 0.0 <= TrioDistance(Trio[p], Trio[q]) {
    }
  }

  /** The state after the first round on Trio: the forest holds A+B and C, and C is
      at Double.MAX_VALUE from A+B, from A and from B. */
  ghost predicate Stuck(forest: Forest, table: Table)
  {
    && forest.Keys == {"A+B", "C"}
    && Symmetric(table)
    && Get(table, "A+B", "C") == Some(DoubleMaxValue)
    && Get(table, "A", "C") == Some(DoubleMaxValue) && Get(table, "B", "C") == Some(DoubleMaxValue)
  }

  /** A and B, in either order, merge under the label A+B. */
  lemma MergedAB(space1: string, space2: string)
    requires {space1, space2} == {"A", "B"}
    ensures space1 != space2 && MergedLabel(space1, space2) == "A+B"
  {
    assert CompareTo("A", "B") < 0;
    assert Join("A", "B") == "A+B";
    assert space1 == "A" || space1 == "B";
    MergedLabelSymmetric(space1, space2);
  }

  /** The first set-up loop on Trio enters A, B and C. */
  lemma TrioForest(s: State)
    requires LeafForest(Trio, s.nodes, s.forest)
    ensures s.forest.Keys == {"A", "B", "C"}
  {
    assert Trio[0].name == "A" && Trio[1].name == "B" && Trio[2].name == "C";
    forall k | k in s.forest ensures k == "A" || k == "B" || k == "C" {
      assert k == Trio[s.forest[k]].name;
    }
    assert Trio[0].name in s.forest && Trio[1].name in s.forest && Trio[2].name in s.forest;
  }

  /** The second set-up loop on Trio stores the distances Trio gives. */
  lemma TrioTable(table: Table)
    requires forall p, q | 0 <= p < |Trio| && 0 <= q < |Trio| ::
      Get(table, Trio[p].name, Trio[q].name) == Some(TrioDistance(Trio[p], Trio[q]))
    ensures Get(table, "A", "B") == Some(1.0)
    ensures Get(table, "A", "C") == Some(DoubleMaxValue) && Get(table, "B", "C") == Some(DoubleMaxValue)
  {
    var a, b, c := Trio[0], Trio[1], Trio[2];
    assert a.name == "A" && b.name == "B" && c.name == "C";
    assert Get(table, a.name, b.name) == Some(TrioDistance(a, b));
    assert Get(table, a.name, c.name) == Some(TrioDistance(a, c));
    assert Get(table, b.name, c.name) == Some(TrioDistance(b, c));
  }

  /** The set-up loops on Trio enter A, B and C, at the distances Trio gives. */
  lemma TrioStart(s: State)
    requires InitialState(Trio, TrioDistance, s)
    ensures s.forest.Keys == {"A", "B", "C"} && Symmetric(s.table)
    ensures Get(s.table, "A", "B") == Some(1.0)
    ensures Get(s.table, "A", "C") == Some(DoubleMaxValue) && Get(s.table, "B", "C") == Some(DoubleMaxValue)
  {
    TrioForest(s);
    TrioTable(s.table);
  }

  /** On Trio the closest pair is A and B. */
  lemma TrioClosest(forest: Forest, table: Table, space1: string, space2: string, shortDistance: real)
    requires forest.Keys == {"A", "B", "C"} && Symmetric(table)
    requires Get(table, "A", "B") == Some(1.0)
    requires Get(table, "A", "C") == Some(DoubleMaxValue) && Get(table, "B", "C") == Some(DoubleMaxValue)
    requires ClosestPairOf(forest, table, space1, space2, shortDistance)
    ensures {space1, space2} == {"A", "B"}
  {
    assert shortDistance <= 1.0 by { assert ("A", "B") in table; }
    assert space1 != "C" && space2 != "C" by {
      assert ("A", "C") in table && ("B", "C") in table;
    }
  }

  /** Merging A and B on Trio leaves the stuck state. */
  lemma TrioAfterMerge(forest: Forest, table: Table, forest': Forest, table': Table,
                       space1: string, space2: string, n1: nat, n2: nat, id: NodeId)
    requires forest.Keys == {"A", "B", "C"} && {space1, space2} == {"A", "B"} && 0 < n1 + n2
    requires Get(table, "A", "C") == Some(DoubleMaxValue) && Get(table, "B", "C") == Some(DoubleMaxValue)
    requires Replaced(forest, forest', space1, space2, "A+B", id)
    requires AveragesStored(forest', table, table', space1, space2, "A+B", n1, n2)
    requires OnlyMergedChanged(forest', table, table', "A+B") && Symmetric(table')
    ensures Stuck(forest', table')
  {
    assert forest'.Keys == {"A+B", "C"};
    WeightedAverageOfSame(n1, n2, DoubleMaxValue);
    assert table[(space1, "C")] == DoubleMaxValue && table[(space2, "C")] == DoubleMaxValue;
    assert ("A", "C") in table' && ("B", "C") in table';
  }

  /** The first round on Trio merges A and B, and leaves the stuck state. */
  lemma FirstRoundSticks(s: State, s': State, m: Merge)
    requires InitialState(Trio, TrioDistance, s)
    requires MergeStep(s.nodes, s.forest, s.table, s'.nodes, s'.forest, s'.table,
                       m.space1, m.space2, m.shortDistance, m.mergedLabel)
    ensures {m.space1, m.space2} == {"A", "B"} && m.mergedLabel == "A+B"
    ensures Stuck(s'.forest, s'.table)
  {
    TrioStart(s);
    TrioClosest(s.forest, s.table, m.space1, m.space2, m.shortDistance);
    MergedAB(m.space1, m.space2);
    var n1, n2 := s.nodes[s.forest[m.space1]].numLeafs, s.nodes[s.forest[m.space2]].numLeafs;
    TrioAfterMerge(s.forest, s.table, s'.forest, s'.table, m.space1, m.space2, n1, n2, |s.nodes|);
  }

  /** From the stuck state the scan finds nothing: no two forest labels are closer than
      Double.MAX_VALUE, the best distance the scan starts from. */
  lemma StuckScanFindsNothing(forest: Forest, table: Table)
    requires Stuck(forest, table)
    ensures forall a, b | a in forest && b in forest && a != b && (a, b) in table :: DoubleMaxValue <= table[(a, b)]
  {
    forall a, b | a in forest && b in forest && a != b && (a, b) in table
      ensures DoubleMaxValue <= table[(a, b)]
    {
      assert (a, b) == ("A+B", "C") || (a, b) == ("C", "A+B");
      assert ("A+B", "C") in table;
    }
  }

  /** As written, a round from the stuck state re-merges A and B and is stuck again,
      with two forest labels: `forest.size() > 1` holds forever and buildTree does not
      return. */
  lemma StaleRoundRepeats(forest: Forest, table: Table, forest': Forest, table': Table,
                          space1: string, space2: string, n1: nat, n2: nat, id: NodeId)
    requires Stuck(forest, table) && {space1, space2} == {"A", "B"}
    requires StaleRound(forest, table, forest', table', space1, space2, n1, n2, id)
    ensures Stuck(forest', table') && |forest'| == 2
  {
    MergedAB(space1, space2);
    assert "A" !in forest && "B" !in forest;
    assert forest'.Keys == {"A+B", "C"};
    assert |forest'.Keys| == 2;
    WeightedAverageOfSame(n1, n2, DoubleMaxValue);
    assert table[(space1, "C")] == DoubleMaxValue && table[(space2, "C")] == DoubleMaxValue;
    assert ("A", "C") in table' && ("B", "C") in table';
  }

  // ---------------------------------------------------------------------------
  // buildTree with the corrected scan

  /** One round with the corrected scan: a closest pair merged, as `m` records, whatever
      its distance, with the invariant kept without the bound Double.MAX_VALUE, one
      label fewer, one node more, and the history extended. */
  method RoundCorrected(ghost species: seq<Species>, ghost distance: (Species, Species) -> real, ghost nonNegative: bool,
                        nodes: Arena, forest: Forest, table: Table, ghost trace: seq<State>, ghost merges: seq<Merge>)
    returns (nodes': Arena, forest': Forest, table': Table, ghost m: Merge)
    requires TreeInv(species, nonNegative, nodes, forest) && TableStored(nonNegative, forest, table)
    requires |forest| > 1
    requires History(species, distance, nodes, forest, table, trace, merges)
    ensures MergeStep(nodes, forest, table, nodes', forest', table', m.space1, m.space2, m.shortDistance, m.mergedLabel)
    ensures TreeInv(species, nonNegative, nodes', forest') && TableStored(nonNegative, forest', table')
    ensures |forest'| == |forest| - 1 && |nodes'| == |nodes| + 1
    ensures History(species, distance, nodes', forest', table', trace + [State(nodes', forest', table')], merges + [m])
  {
    var space1, space2, shortDistance, mergedLabel;
    nodes', forest', table', space1, space2, shortDistance, mergedLabel := MergeClosestPairCorrected(nodes, forest, table);
    m := Merge(space1, space2, shortDistance, mergedLabel);
    MergeKeepsStored(species, nonNegative, nodes, forest, table, nodes', forest', table',
                     space1, space2, shortDistance, mergedLabel);
    HistoryExtends(species, distance, nodes, forest, table, trace, merges, nodes', forest', table', m);
  }

  /** The loop of buildTree with the corrected scan: every round takes a label out of
      the forest, so the loop ends after N - 1 rounds. */
  method MergeAllCorrected(ghost species: seq<Species>, ghost distance: (Species, Species) -> real, ghost nonNegative: bool,
                           nodes0: Arena, forest0: Forest, table0: Table)
    returns (nodes: Arena, forest: Forest, table: Table, root: Option<NodeId>,
             ghost trace: seq<State>, ghost merges: seq<Merge>)
    requires TreeInv(species, nonNegative, nodes0, forest0) && TableStored(nonNegative, forest0, table0)
    requires History(species, distance, nodes0, forest0, table0, [State(nodes0, forest0, table0)], [])
    requires |forest0| == |species|
    ensures TreeInv(species, nonNegative, nodes, forest) && TableStored(nonNegative, forest, table)
    ensures History(species, distance, nodes, forest, table, trace, merges)
    ensures |forest| <= 1 && (|species| >= 1 ==> |forest| == 1)
    ensures root.None? <==> |nodes| == |species|
    ensures root.Some? ==> root.value == |nodes| - 1
  {
    nodes, forest, table := nodes0, forest0, table0;
    trace, merges := [State(nodes, forest, table)], [];
    root := None;
    while |forest| > 1
      invariant TreeInv(species, nonNegative, nodes, forest) && TableStored(nonNegative, forest, table)
      invariant History(species, distance, nodes, forest, table, trace, merges)
      invariant |species| >= 1 ==> |forest| >= 1
      invariant root.None? <==> |nodes| == |species|
      invariant root.Some? ==> root.value == |nodes| - 1
      decreases |forest|
    {
      root := Some(|nodes|);
      ghost var m;
      nodes, forest, table, m := RoundCorrected(species, distance, nonNegative, nodes, forest, table, trace, merges);
      trace, merges := trace + [State(nodes, forest, table)], merges + [m];
    }
  }

  /** buildTree with the corrected scan. It needs no bound on the distances: the
      result is the tree Cluster promises, explained by rounds that each merged a
      closest pair, for every plain input, Trio included. */
  method ClusterCorrected(ghost nonNegative: bool, species: seq<Species>, distance: (Species, Species) -> real)
    returns (nodes: Arena, root: Option<NodeId>, ghost trace: seq<State>, ghost merges: seq<Merge>)
    requires PlainInput(species, distance, nonNegative)
    ensures Valid(nodes)
    ensures |species| <= 1 <==> root.None?
    ensures root.Some? ==> BuiltTree(species, nonNegative, nodes, root.value)
    ensures Explained(species, distance, nodes, trace, merges)
  {
    var nodes0, forest0, table0 := Setup(species, distance, nonNegative);
    var forest, table;
    nodes, forest, table, root, trace, merges := MergeAllCorrected(species, distance, nonNegative, nodes0, forest0, table0);
    LoopEnd(species, distance, nonNegative, nodes, forest, table, root, trace, merges);
  }

  /** From the stuck state, the round the corrected scan makes possible merges A+B and
      C at Double.MAX_VALUE and leaves a single label, so the loop ends. */
  lemma StuckCorrectedRoundEnds(nodes: Arena, forest: Forest, table: Table,
                                nodes': Arena, forest': Forest, table': Table, m: Merge)
    requires Stuck(forest, table)
    requires MergeStep(nodes, forest, table, nodes', forest', table', m.space1, m.space2, m.shortDistance, m.mergedLabel)
    ensures {m.space1, m.space2} == {"A+B", "C"} && m.shortDistance == DoubleMaxValue
    ensures forest'.Keys == {m.mergedLabel} && |forest'| == 1
  {
    assert m.space1 in forest.Keys && m.space2 in forest.Keys;
    assert ("A+B", "C") in table;
    assert forest'.Keys == {m.mergedLabel};
  }
}
