# PhyloTree in Dafny

A model of `PhyloTree.java`, which infers a phylogenetic tree from named species
and a pairwise distance function, then answers structural queries and prints the
tree.

**Construction.** `buildTree` starts with one parentless leaf per species, keyed by
name in a forest. It stores the distance of every pair of names in a two-key table.
Then it repeats a round until one label is left:

- it scans for the closest pair of distinct labels;
- it hangs their two nodes under a new internal node, labelled `smaller+larger`,
  with the compareTo-smaller label on the left and edge weight half the distance;
- it gives the new label the leaf-count weighted average of the two old distances
  to every survivor.

The model records the rounds in a ghost trace: the state after each round, and the
pair, distance and label each round merged. Every round merges a closest pair, and
the merge weights never decrease. Because each average lies between two distances
no smaller than the one just merged, the next closest distance cannot be smaller.

**Queries and printers.** The static queries walk the tree: `nodeDepth` and
`weightedNodeDepth` go up the parent links, while `nodeHeight`,
`weightedNodeHeight` and `findTreeNodeByLabel` go down into the children.
`findLeastCommonAncestor` lifts the deeper node first. On top of these sit:

- `findEvolutionaryDistance`;
- the two printers: the indented reverse in-order form and the parenthesised tree
  form (in the parenthesised form a leaf carries the weight of the edge above it,
  while an internal node carries its own weight, that of the edges below it; the
  Newick convention puts the weight of the edge above a node after every node);
- the accessors `getHeight`, `getWeightedHeight` and `countAllSpecies`.

**How the model is built.**

- Nodes live in an arena, a sequence indexed by node id. Parent and child links are
  ids, and a null reference is `None`.
- Nodes are created bottom-up, so a child's id is smaller than its parent's.
- Doubles are `real`. The infinities that the queries return are an `ExtReal`
  datatype.
- Number formatting (`String.format`) is passed in as a function parameter.

**Modules.**

- `JavaLang`: null references, the double sentinels, `compareTo` and the `(int)`
  cast.
- `TreeNode`: nodes, the arena, and `Attach`, which creates a parent and sets both
  children's parent links.
- `ClusterLabels`: merged labels and why they never collide.
- `MultiKeyMap`: the two-key distance table.
- `Clustering`: one round of `buildTree` and the invariant it keeps.
- `Build`: the whole of `buildTree`.
- `Queries`: the static queries.
- `Rendering`: the two printed forms.
- `Phylogeny`: the `PhyloTree` class, holding its nodes, its root and its printing
  depth.

**Two discrepancies between the code and its evident intent.** The code is followed
here, and both are recorded under "## Findings".

The first concerns `buildTree`. When a round's scan finds no pair closer than
`Double.MAX_VALUE`, `space1`, `space2`, `node1` and `node2` keep the previous
round's values. The round then merges that old pair again, and the forest keeps
its size. For example, take A and B at distance 1 and C at `Double.MAX_VALUE` from
both: the loop never ends. The model of the code as written requires every two
species to be closer than `Double.MAX_VALUE`, and under that requirement every
round finds a pair. A corrected scan takes the first pair with a stored distance,
whatever that distance is. With it, the loop ends after N-1 rounds on every input
with distinct plain names and a symmetric distance, this one included.

The second concerns the indented printer. The public `toString()`
starts the walk at the overall root with the weighted *height* as the root's
weighted depth. As a result, the root's line is indented by the full printing
depth, not by none. The comment on the private `toString` says the weighted depth
is the sum of the edge weights from the overall root, which is 0 at the root.

## Model

| member | source | states |
|---|---|---|
| JavaLang.IntCast | PhyloTree.java:110 | the `(int)` cast of the indentation ratio truncates toward zero (the integer part for positive and negative values alike) and saturates at Integer.MAX_VALUE and Integer.MIN_VALUE |
| JavaLang.CompareToAntisymmetric | PhyloTree.java:351 | CompareTo, the model of String.compareTo (first differing characters, else lengths): swapping the operands negates the result |
| JavaLang.CompareToZero | PhyloTree.java:351 | compareTo is zero exactly for equal labels |
| TreeNode.NumLeafsPositive | PhyloTree.java:361-362 | every node counts at least one leaf, so the weights of the average have a positive denominator |
| TreeNode.Attach | PhyloTree.java:351-359 | the new node holds both children, has no parent and counts their leaves; both children now point to it; every other node is unchanged, and parent and child links still agree |
| ClusterLabels.Join | PhyloTree.java:351-357 | a merged label is one character longer than its two parts together |
| ClusterLabels.PiecesOfJoin | PhyloTree.java:351-357 | splitting a merged label at every '+' gives the pieces of its left part, then those of its right part |
| ClusterLabels.PiecesOfName | PhyloTree.java:316-319 | a species name without '+' is a single piece |
| ClusterLabels.JoinIsFresh | PhyloTree.java:351-357 | a merged label differs from every label that shares no piece with either of its parts |
| MultiKeyMap.Put | PhyloTree.java:320-324 | after put, both orders of the pair read the value and every other entry is kept |
| MultiKeyMap.PutKeepsSymmetric | PhyloTree.java:360-366 | storing a pair keeps the table readable either way round |
| Clustering.NewForest | PhyloTree.java:316-319 | one parentless leaf per species, in order, entered under the species name; with distinct names, name i maps to leaf i |
| Clustering.AllPairDistances | PhyloTree.java:320-324 | the table holds the distance of every ordered pair of species under their names, and is symmetric |
| Clustering.ClosestPairCorrected | PhyloTree.java:334-348 | the scan as intended: a pair it returns is a closest pair of distinct forest labels with a stored distance, whatever that distance is; it returns none only when no two distinct forest labels have a stored distance |
| Clustering.ClosestPair | PhyloTree.java:334-348 | a pair is found only if its labels are distinct forest labels with that stored distance below Double.MAX_VALUE; that distance is at most that of every stored pair of distinct forest labels; with no pair found it stays Double.MAX_VALUE |
| Clustering.WeightedAverageBetween | PhyloTree.java:360-366 | WeightedAverage, the distance of lines 362-364 (each old distance weighted by its cluster's share of the leaves), lies between the two distances it combines |
| Clustering.WeightedAverageOfSame | PhyloTree.java:360-366 | averaging a distance with itself gives that distance |
| Clustering.UpdateDistances | PhyloTree.java:360-366 | the merged label gets the weighted average to every survivor other than itself; no entry is lost, nothing else changes, and the table stays symmetric |
| Clustering.TwoLabels | PhyloTree.java:333 | a forest of more than one entry has two distinct labels |
| Clustering.MergedLabelFresh | PhyloTree.java:351-357 | the merged label is not already in the forest and shares no species name with any surviving label |
| Clustering.MergeKeepsApart | PhyloTree.java:349-367 | after a merge, distinct forest labels still share no species name |
| Clustering.AttachKeepsLabels | PhyloTree.java:351-359 | attaching keeps the species leaves first and in order and every internal label canonical (left child's label not greater, label = left+'+'+right), and keeps edge weights non-negative when the new one is |
| Clustering.MergedForestKeys | PhyloTree.java:349-367 | removing two labels and putting the merged one shrinks the forest by exactly one |
| Clustering.AttachKeepsForest | PhyloTree.java:349-367 | the two merged forest entries are distinct parentless nodes, and afterwards the forest again lists exactly the parentless nodes under their labels |
| Clustering.UpdateKeepsDistances | PhyloTree.java:360-366 | after the update every pair of forest labels has a stored distance below Double.MAX_VALUE, non-negative if all were |
| Clustering.MergeKeepsTree | PhyloTree.java:349-367 | a merge keeps the tree part of the invariant: links consistent, leaves in input order, forest = parentless nodes, forest size + node count = 2N, labels apart and canonical |
| Clustering.MergeKeepsTable | PhyloTree.java:360-366 | a merge keeps the table part of the invariant: symmetric, every forest pair known and below Double.MAX_VALUE |
| Clustering.MergedLabelSymmetric | PhyloTree.java:351-357 | MergedLabel, the parentLabel of lines 351-357 (compareTo-smaller label, '+', larger label), is the same whichever of the two labels the scan met first |
| Clustering.StepKeepsTree | PhyloTree.java:334-367 | a round keeps the tree part of the invariant, whichever way compareTo orders the pair |
| Clustering.StepKeepsTable | PhyloTree.java:360-366 | a round keeps the table part of the invariant |
| Clustering.MergeKeepsInv | PhyloTree.java:334-368 | a round keeps the whole invariant, takes exactly one label out of the forest and adds exactly one node |
| Clustering.MergePair | PhyloTree.java:349-367 | the rest of the loop body, for a closest pair the scan chose: the removals, the new node at half the distance with the compareTo-smaller label on the left, the averages and the merged label's entry together make a round (MergeStep) |
| Clustering.MergeClosestPairCorrected | PhyloTree.java:334-367 | with the corrected scan, the loop body is a round (MergeStep) whenever every two forest labels have a stored distance, even at Double.MAX_VALUE |
| Clustering.UpdateKeepsStored | PhyloTree.java:360-366 | after the update every pair of forest labels has a stored distance, non-negative if all were, with no bound assumed |
| Clustering.MergeKeepsStored | PhyloTree.java:334-368 | a round at any distance keeps the tree part of the invariant and the table part without the Double.MAX_VALUE bound, takes one label out of the forest and adds one node |
| Clustering.MergeClosestPair | PhyloTree.java:334-367 | one loop iteration: a closest pair of distinct labels is merged under a new node (smaller label on the left, weight half the distance, label smaller+larger), the forest trades the pair for the merged label, and the table gains the weighted averages |
| Clustering.RoundAppends | PhyloTree.java:351-359 | a round appends one node, carrying the merged label and half the merged distance as its weight, and keeps every other node's label and children |
| Clustering.MergeKeepsWeightsOrdered | PhyloTree.java:334-359 | the node a round makes weighs no less than any earlier internal node: its weight is half the smallest forest distance, which bounds every earlier merge |
| Clustering.MergeKeepsNextNotLighter | PhyloTree.java:334-366 | after a round every distance between forest labels is at least the distance just merged: survivors' distances were, and each new average lies between two such distances |
| Clustering.MergeKeepsOrder | PhyloTree.java:334-367 | a round keeps the merge weights in non-decreasing order, with twice the last weight bounding every forest distance |
| Build.NameSetSize | PhyloTree.java:316-319 | N distinct names make N forest entries |
| Build.InitialTree | PhyloTree.java:316-319 | the leaves and the forest of the first set-up loop satisfy the tree part of the invariant |
| Build.InitialTable | PhyloTree.java:320-324 | the table of the second set-up loop is symmetric and stores every forest pair's distance; below Double.MAX_VALUE, and so the table part of the invariant, when the input's distances are |
| Build.OnlyLabel | PhyloTree.java:333 | when the loop stops, the forest holds a single label |
| Build.LastNodeIsRoot | PhyloTree.java:369 | when one label is left, the last node made lies above every node |
| Build.RootCountsLeaves | PhyloTree.java:215-217 | a tree over 2N-1 nodes counts N leaves at its root |
| Build.FinalTree | PhyloTree.java:333-369 | when the loop stops with N >= 2 species, the nodes form one tree of 2N-1 nodes rooted at the last node made, which counts all N species |
| Build.Setup | PhyloTree.java:316-324 | the set-up loops establish the invariant with N leaves and N forest entries (its Double.MAX_VALUE bound when the input's distances are below it), and start the history with their state: a leaf per species under its name, every pair's distance stored |
| Build.LoopEnd | PhyloTree.java:333-371 | when the loop stops, the history explains the tree, and with two or more species the nodes form one tree of 2N-1 nodes rooted at the last node made |
| Build.RoundsExtend | PhyloTree.java:333-367 | a round that merges a closest pair from the last state extends the trace of rounds |
| Build.RecordExtends | PhyloTree.java:351-359 | the node a round appends is recorded as that round's node: merged label, and half the merged distance as weight |
| Build.HistoryExtends | PhyloTree.java:333-367 | a round extends the whole history: trace, node records and merge order |
| Build.Round | PhyloTree.java:334-367 | one loop iteration: the merge it returns is a closest pair merged at half its distance with the averages stored (MergeStep); the invariant is kept, with one label fewer, one node more, and the history extended |
| Build.MergeAll | PhyloTree.java:333-369 | the loop runs until at most one label is left, keeping the invariant and the history; the root is null exactly when no round ran, otherwise the last node made |
| Build.Cluster | PhyloTree.java:313-371 | the root is null exactly for fewer than two species; otherwise it is the root of one tree over 2N-1 nodes whose leaves are the species in order, whose internal labels are canonical and whose edge weights are non-negative when the distances are; the trace starts from the set-up state and each of its N-1 rounds merges a closest pair of the state before it (MergeStep); internal node N+k is round k's node, weighted half its distance; the merge weights never decrease |
| Build.TrioOnlyTooFar | PhyloTree.java:313-371 | the three-species input (A, B at distance 1, C at Double.MAX_VALUE from both) has distinct plain names and a symmetric distance, and fails only the below-Double.MAX_VALUE requirement |
| Build.TrioPlain | PhyloTree.java:313-371 | that input, with its non-negative distances, is one ClusterCorrected accepts |
| Build.TrioStart | PhyloTree.java:316-324 | on that input the set-up enters A, B and C with their distances |
| Build.TrioClosest | PhyloTree.java:334-348 | on that input the first closest pair is A and B |
| Build.TrioAfterMerge | PhyloTree.java:349-367 | merging A and B leaves A+B and C, at Double.MAX_VALUE from each other and from A and B |
| Build.FirstRoundSticks | PhyloTree.java:333-367 | the first round on that input merges A and B into A+B and leaves that stuck state |
| Build.StuckScanFindsNothing | PhyloTree.java:334-348 | in the stuck state no two forest labels are closer than Double.MAX_VALUE, so the scan, which keeps only distances strictly below its best so far, finds no pair |
| Build.MergedAB | PhyloTree.java:351-357 | A and B, in either order, merge under the label A+B |
| Build.StaleRoundRepeats | PhyloTree.java:326-367 | as written, a round from the stuck state merges the old A and B again (StaleRound): the removals find nothing, A+B replaces itself, C stays at Double.MAX_VALUE, so the forest keeps two labels and the loop does not end |
| Build.RoundCorrected | PhyloTree.java:334-367 | a round with the corrected scan: the merge it returns is a closest pair at any distance (MergeStep); the invariant without the Double.MAX_VALUE bound is kept, with one label fewer, one node more, and the history extended |
| Build.MergeAllCorrected | PhyloTree.java:333-369 | the loop with the corrected scan runs until at most one label is left, keeping the invariant and the history; each round removes a label, so it ends |
| Build.ClusterCorrected | PhyloTree.java:313-371 | buildTree with the corrected scan, for any distinct plain names and symmetric distance, with no bound on the distances: it ends with the tree Cluster promises (2N-1 nodes, species leaves in order, canonical labels), explained by N-1 rounds that each merged a closest pair, with non-decreasing weights |
| Build.StuckCorrectedRoundEnds | PhyloTree.java:333-367 | from the stuck state, the round the corrected scan finds merges A+B and C at Double.MAX_VALUE and leaves a single label, so the loop ends |
| Queries.NodeDepthCases | PhyloTree.java:381-391 | NodeDepth, the model of nodeDepth (Depth on a non-null node), is -1 exactly for null, 0 exactly for a parentless node, and otherwise one more than the parent's depth |
| Queries.ChildDepth | PhyloTree.java:381-391 | a child is one level deeper than its parent |
| Queries.AncestorIsShallower | PhyloTree.java:381-391 | an ancestor has a smaller depth unless it is the node itself |
| Queries.DepthCountsAncestors | PhyloTree.java:381-391 | Depth, the depth of a node, is the number of its proper ancestors |
| Queries.AncestorTransitive | PhyloTree.java:540-554 | the ancestor relation is transitive |
| Queries.AncestorAntisymmetric | PhyloTree.java:540-554 | two nodes that are each other's ancestors are the same node |
| Queries.SubtreeIsAncestry | PhyloTree.java:516-531 | a node lies in the subtree searched from `i` exactly when `i` is its ancestor or itself |
| Queries.NodeHeightCases | PhyloTree.java:400-410 | NodeHeight, the model of nodeHeight (Height on a non-null node), is -1 for null, 0 exactly for a leaf, and one more than the taller child's height otherwise |
| Queries.HeightIsLongestPath | PhyloTree.java:400-410 | Height, the height of a node, is the largest depth of a node below it, counted from it, and some leaf attains it |
| Queries.HeightBelowLeafCount | PhyloTree.java:400-410 | a node's height is smaller than the number of leaves under it |
| Queries.WeightedNodeHeightCases | PhyloTree.java:421-437 | WeightedNodeHeight, the model of weightedNodeHeight (WeightedHeight on a non-null node), is negative infinity exactly for null, 0.0 for a leaf, and the edge weight plus the heavier child's weighted height otherwise |
| Queries.WeightedHeightIsHeaviestPath | PhyloTree.java:421-437 | WeightedHeight is the heaviest weighted path down to a leaf, and some leaf attains it |
| Queries.WeightedHeightAtLeastEdge | PhyloTree.java:421-437 | with non-negative weights the weighted height is non-negative and at least the node's own edge weight |
| Queries.WeightedNodeDepthCases | PhyloTree.java:131-140 | WeightedNodeDepth, the model of weightedNodeDepth (WeightedDepth on a non-null node), is negative infinity exactly for null, 0.0 for a parentless node, and otherwise the parent's weighted depth plus the parent's edge weight |
| Queries.ChildWeightedDepth | PhyloTree.java:131-140 | WeightedDepth of a child is its parent's plus the parent's edge weight |
| Queries.WeightedDepthMonotone | PhyloTree.java:131-140 | with non-negative weights, weighted depth only grows going down |
| Queries.FindTreeNodeByLabel | PhyloTree.java:516-531 | a found node lies below the start node and carries the label; null means no node below carries it |
| Queries.FindLeastCommonAncestor | PhyloTree.java:537-554 | null when either node is null; otherwise null or a node of the tree, which LeastCommonAncestorCorrect pins down |
| Queries.LeastCommonAncestorCorrect | PhyloTree.java:540-554 | FindLeastCommonAncestor, the model of the static findLeastCommonAncestor, returns a common ancestor of both nodes lying below every other common ancestor; null exactly when they share none |
| Queries.LeastCommonAncestorSymmetric | PhyloTree.java:540-554 | the result does not depend on the order of the arguments |
| Queries.LeastCommonAncestorExists | PhyloTree.java:255-257 | in one tree, any two nodes have a least common ancestor |
| Queries.EvolutionaryDistanceInfinite | PhyloTree.java:267-272 | EvolutionaryDistance, the value findEvolutionaryDistance computes (PathWeight of the two found nodes: their weighted depths less twice their least common ancestor's), is positive infinity exactly when one of the labels is on no node |
| Queries.EvolutionaryDistanceSymmetric | PhyloTree.java:267-291 | the distance does not depend on the order of the labels |
| Queries.EvolutionaryDistanceToSelf | PhyloTree.java:267-291 | a label in the tree is at distance 0 from itself |
| Queries.PathWeightNonNegative | PhyloTree.java:267-291 | with non-negative weights PathWeight, the weight of the path between two nodes, is never negative |
| Rendering.Dots | PhyloTree.java:113-115 | the indentation is k dots, none when k is not positive |
| Rendering.IndentWidthBounds | PhyloTree.java:110 | IndentWidth, the `k` of line 110, is between 0 and the printing depth for a weighted depth between 0 and the maximum, and exactly the printing depth at the maximum |
| Rendering.RnlListsSubtree | PhyloTree.java:106-127 | the reverse in-order visit lists every node of the subtree exactly once, 2n-1 nodes for n leaves |
| Rendering.IndentedFollowsRnl | PhyloTree.java:106-127 | Indented, the model of the private toString, prints a subtree reached with its own weighted depth as Lines over its reverse in-order list: each node's Line (its dots, then `[NONTERM w]` or its label) in that order |
| Rendering.ToStringLayout | PhyloTree.java:92-127 | toString() prints the right subtree's lines, then the root's line with the full printing depth of dots, then the left subtree's lines |
| Rendering.IndentWithinPrintingDepth | PhyloTree.java:106-127 | with non-negative weights, no node below the root is indented by more than the printing depth |
| Rendering.TreeStringShowsLeaves | PhyloTree.java:161-180 | every leaf below a node shows in that node's tree form as its label, ':' and the formatted weight of the edge from its parent |
| Rendering.TreeStringBrackets | PhyloTree.java:161-180 | TreeString, the model of the private toTreeString, has one '(', one ')' and one ',' per internal node when labels and numbers are bracket-free |
| Rendering.RootLineOverIndented | PhyloTree.java:92-94 | as written, with a positive printing depth and a non-zero weighted height, the output differs from the one that indents the root by its weighted depth 0 |
| Rendering.CorrectedLayout | PhyloTree.java:92-94 | starting at the root with weighted depth 0 prints every node's line in reverse in-order, each indented by its own weighted depth and the root by none |
| Phylogeny.InternalLabelsJoined | PhyloTree.java:351-357 | the first N nodes carry the species names; every later node's label contains '+' |
| Phylogeny.SpeciesLabelUnique | PhyloTree.java:516-531 | a species name labels its own leaf and no other node |
| Phylogeny.FindSpecies | PhyloTree.java:516-531 | searching the built tree for a species name finds that species' leaf |
| Phylogeny.HeightOfBuiltTree | PhyloTree.java:189-191 | the tree height is the depth of the deepest node, a leaf, and lies between 1 and N-1 |
| Phylogeny.WeightedHeightOfBuiltTree | PhyloTree.java:202-204 | the weighted height is the heaviest weighted depth of a leaf, and non-negative with non-negative distances |
| Phylogeny.Indentation | PhyloTree.java:113-115 | the dot loop produces exactly the indentation for k |
| Phylogeny.Climb | PhyloTree.java:273-289 | the two loops add up the edge weights from both nodes up to their least common ancestor |
| Phylogeny.PhyloTree.constructor | PhyloTree.java:51-70 | the object holds the tree buildTree builds from the species, explained by its rounds (each merged a closest pair; merge weights never decrease), and the printing depth |
| Phylogeny.PhyloTree.GetHeight | PhyloTree.java:189-191 | -1 without a tree; otherwise the largest depth of any node, attained at a leaf, between 1 and N-1 |
| Phylogeny.PhyloTree.GetWeightedHeight | PhyloTree.java:202-204 | negative infinity exactly without a tree; otherwise the heaviest weighted depth of a leaf, non-negative with non-negative distances |
| Phylogeny.PhyloTree.CountAllSpecies | PhyloTree.java:215-217 | the root's leaf count is the number of species the tree was built from |
| Phylogeny.PhyloTree.FindTreeNodeByLabel | PhyloTree.java:239-241 | a found node carries the label; null exactly when no node does; a species name finds that species' leaf |
| Phylogeny.PhyloTree.FindLeastCommonAncestor | PhyloTree.java:255-257 | null exactly when a label is missing; otherwise a common ancestor of both found nodes lying below every other one |
| Phylogeny.PhyloTree.FindEvolutionaryDistance | PhyloTree.java:267-291 | positive infinity when a label is missing, otherwise the weight of the path between the two nodes through their least common ancestor |
| Phylogeny.PhyloTree.ToString | PhyloTree.java:92-94 | empty without a tree; otherwise the walk from the root with the weighted height as both its depth and the maximum |
| Phylogeny.PhyloTree.IndentedText | PhyloTree.java:106-127 | the private toString builds the right subtree, the node's dotted line, then the left subtree |
| Phylogeny.PhyloTree.ToStringCorrected | PhyloTree.java:92-94 | empty without a tree; otherwise every node's line in reverse in-order, each indented by its own weighted depth |
| Phylogeny.PhyloTree.ToTreeString | PhyloTree.java:150-152 | the tree form of the whole tree, opened by '(' and closed by ')' with no weight after the root |
| Phylogeny.PhyloTree.TreeText | PhyloTree.java:161-180 | the private toTreeString: `label:weight` for a leaf, with the weight of the edge above it (its parent's distanceToChild, line 165); `(right,left):weight` for an internal node, with its own distanceToChild, the weight of the edges below it (line 175), and no weight at the overall root |

## Left out

- **Species file.** The constructor's file handling is not modelled: opening the
  file, counting `>` tokens into `numSpecies`, `System.exit`, and `loadSpeciesFile`.
  Phylogeny.PhyloTree.constructor takes the species sequence and the distance
  function as parameters.
- **Descendant lists.** `getAllSpecies`, `getAllDescendantSpecies` and the static
  `descendents` list are not modelled. The helper never fills its argument and
  mutates process-wide state, so there is no contract to state.
- **External classes.** `Species`, `PhyloTreeNode` and `MultiKeyMap` are not part of
  this model; they are modelled from how they are used.
  - `Species.distance` is a function parameter.
  - The node accessors are fields of `TreeNode.Node`.
  - `getOverallRoot` is the `overallRoot` field.
- **Formatting.** `String.format("%.2f")` and `String.format("%.5f")` are function
  parameters. No claim is made about the digits they print.
- **Doubles are reals.** Rounding in the averages, the halving and the path sums is
  not modelled. `Double.MAX_VALUE` is its exact value, and the infinities are
  `ExtReal` cases.
- JavaLang.CompareTo compares Dafny characters. Java compares UTF-16 code units, so
  labels with characters outside the Basic Multilingual Plane can order differently.
- Clustering.ClosestPair leaves the HashMap iteration order open. Among equally
  close pairs, the one it returns is any pair that the order could produce, not
  Java's specific choice.
- MultiKeyMap.Get and Clustering.RemovePair are the library's `get` and the two
  `HashMap.remove` calls, taken as given. Their contracts only say what they
  return.
- Clustering.UpdateDistances and MultiKeyMap.Put store both orders of a pair.
  `MultiKeyMap` is not part of this model, and the code only ever stores
  `(parentLabel, x)`. The later lookups of `(x, …)` assume the table is symmetric,
  so the model makes it symmetric by construction.
- Build.Cluster requires:
  - distinct species names;
  - names without '+';
  - a symmetric distance;
  - a distance below Double.MAX_VALUE between every two species.

  For other input the code misbehaves:
  - a repeated name overwrites a forest entry and leaves an orphan leaf;
  - a '+' in a name lets merged labels collide;
  - when a round's scan finds no pair below Double.MAX_VALUE, the code dereferences
    a null node in the first round. In a later round it merges the previous round's
    pair again and can loop forever (see "## Findings").

  The last requirement is stronger than the code needs. An input with one pair at
  Double.MAX_VALUE can still complete, when the averages bring that pair below
  Double.MAX_VALUE before it is the only one left. Build.Cluster does not model
  such inputs as written. Build.ClusterCorrected covers them. When a round's closest
  distance is below Double.MAX_VALUE, both scans return a closest pair
  (ClosestPairOf), so that round is one the code can make. Build.Cluster's termination rests on the requirement: every round then
  finds a pair.
- Build.Cluster with zero or one species: the loop never runs and the root stays
  null. This is modelled as such, not treated as an error.
- Phylogeny.PhyloTree.FindTreeNodeByLabel, Phylogeny.PhyloTree.FindLeastCommonAncestor,
  Phylogeny.PhyloTree.FindEvolutionaryDistance, Phylogeny.PhyloTree.CountAllSpecies
  and Phylogeny.PhyloTree.ToTreeString require a non-null root. With fewer than two
  species, the code dereferences the null root in each of them.
- The non-negative-weight facts depend on a ghost `nonNegative` flag. They hold only
  when every input distance is non-negative, which the code never checks.

## Findings

| source | as written | input that shows it | evidently intended | confidence | as-written member | corrected member |
|---|---|---|---|---|---|---|
| PhyloTree.java:92-94 | `toString()` calls the private `toString` with `getWeightedHeight()` as the root's weighted depth, so the root's line gets `printingDepth` dots | two species at distance 2.0 with printing depth 10: the root's line is indented by 10 dots while its weighted depth is 0 | the root is reached with its own weighted depth, 0 (the private method's comment says the weighted depth is the sum of edge weights from the overall root), so its line has no dots | high; not executed | Rendering.RootLineOverIndented | Phylogeny.PhyloTree.ToStringCorrected |
| PhyloTree.java:326-348 | `space1`, `space2`, `node1` and `node2` are declared before the loop and set only when the scan finds a pair below Double.MAX_VALUE; a round whose scan finds none merges the previous round's pair again, both removals find nothing, and the re-merged label replaces its own entry, so the forest keeps its size | A, B at distance 1 and C at Double.MAX_VALUE from both: the first round merges A and B, and every later round re-merges them while A+B and C stay at Double.MAX_VALUE, so the loop never ends | every round merges two labels in the forest, so the loop ends after N-1 rounds | high; not executed | Build.StaleRoundRepeats | Build.ClusterCorrected |
