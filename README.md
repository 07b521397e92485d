# HiDeF weaver, modelled in Dafny

HiDeF ("hierarchical community decoding framework") builds a hierarchy of clusters from a
stack of partitions of the same set of terminal nodes. The `Weaver` object of
`hidef/weaver.py` does this in three steps:

1. `weave` checks and expands the input. Each partition is a list of labels. In boolean
   mode each partition becomes one membership row, a *cluster*, whose members are its
   non-zero entries. In label mode every distinct label of a partition becomes a cluster.
   Each cluster gets a level and a label.
2. `_build` computes the graph of all plausible parents:
   - Every ordered pair of clusters gets a containment index `CI[i, j]`, the fraction of
     cluster `i` that lies in cluster `j`.
   - A pair whose index reaches the cutoff proposes the edge `(j, 0) → (i, 0)`. Of two
     opposite proposals, the larger index wins.
   - A synthetic root is added when there are several sources.
   - Redundant "grandparent" edges are removed.
   - Every terminal is attached below the smallest clusters holding it.
   - For every node with several parents, all in-edges but the best are ranked as
     *secondary* edges. Clusters rank parents by Jaccard index, terminals by the parent's depth.
3. `pick` copies the full graph and works on the copy:
   - It keeps only the top percentage of the secondary edges.
   - It adds requested edges, optionally replacing a node's parents.
   - It prunes the result: dead-end clusters go first, then single-branch clusters are
     contracted into their parent.
   - It finally records each node's breadth-first depth from the root.

The hierarchy is then read back:

- `get_root` and `traverse_topdown` return the root and a top-down traversal.
- `relabel` renames clusters as `(depth or level, index)`.
- `get_levels` returns the levels present.
- `node_cluster`, `has_any_terminal`, `depth_cluster` and `level_cluster` recover a
  cluster or a whole partition.

## How the model is organised

Each module follows one part of the source. Everything is in `hidef/weaver.py`.

- **Value modules (datatypes, functions and lemmas):**
  - `Containment`: `containment_indices_boolean`.
  - `Assignments`: the expanded input and the pair relation of `_build`.
  - `Expansion`: the label expansion of `weave`.
  - `Helpers`: `all_equal` and `boolize`.
  - `Graph`: reachability and shortest paths, the meaning of networkx's `has_path`,
    `ancestors`, `descendants` and `shortest_path_length`.
- **Imperative modules:**
  - `Digraphs.Digraph` is a class with the mutable state of a `networkx.DiGraph`:
    - the node list and edge list, in insertion order;
    - the weights;
    - the node attributes `index`/`level`/`label`;
    - the `depth` attribute.

    Its methods change the graph as the networkx calls do, with the orders listed under
    "Left out".
  - `Candidates`, `Rooting`, `Redundancy`, `Attaching`, `Secondary`, `Pruning`, `Depths`,
    `Recovery`, `Picking` and `Relabelling` hold the loops of `_build`, `prune`,
    `update_depth`, the recovery functions, `pick` and `relabel`. They are methods with
    loop invariants over a `Digraph`. Each method is specified by a pure function of the
    old state, and the source's promises are lemmas about that function.
- **`Weaving.Weaver`** is a class with the nine slots of the Python object. Its methods `Weave`,
  `Build`, `Pick`, `UpdateDepth`, `Relabel`, `GetLevels`, `HasAnyTerminal`, `NodeCluster`,
  `DepthCluster` and `LevelCluster` raise `NotBuilt` where the source raises "hierarchy not
  built".

### Modelling choices

- **Nodes.** A node is `Internal(idx, occ)`, the Python tuple `(idx, occ)`, or `Terminal(name)`.
  The synthetic root is `Internal(-1, 0)`.
- **Labels.** Partition labels and levels are integers. A terminal name is
  `Name = Str(s) | Num(k)`: a string given by the caller, or the integer `k` that
  `set_terminals(None)` assigns to the `k`-th terminal by default.
- **Exceptions.** Every exception is an `Error` value inside a `Result`.
- **Empty clusters.** The containment index of an empty row is `None`, standing for numpy's
  `nan`. Every comparison with it is false.
- **Integer conversion.** Python's `int()` on a float truncates toward zero (`Seqs.Trunc`).
- **Sorting.** Python's sort is stable; `Secondary.SortDesc` is specified as ordered, a
  permutation, and stable.

### Where the code and its documentation differ (the model follows the code)

- The redundancy pass of `_build` (lines 326-350) drops `a → v` whenever `a` has an edge
  to another ancestor of `v`. In an acyclic graph this is a full transitive reduction, not a
  partial one. `Redundancy.ReductionKeepsReach`, `ReductionMinimal` and `ReductionSmallest`
  prove it.
- With `strict_single_branch` (lines 988-993), a cluster whose only child is a terminal is
  still contracted. The out-degree is reset to 0 and then read again as 1. So "strict" means
  in-degree 1 and out-degree 1 (`Pruning.SingleBranch`).
- In label mode a cutoff of 0 or less can create cycles in the candidate graph. Disjoint
  clusters tie at index 0, and a tie goes to the lower index. The acyclicity results
  therefore assume levels, or a positive cutoff (`Assignments.CandidateAcyclic`).
- `neq` (lines 915-925) returns `True` for any two tuples. Since the graph has no self-loops,
  the redundancy test is the same as `a != b`.
- When no pair is enumerated, for example with a single cluster, `roots[0]` raises
  `IndexError` (the error `NoRoot`).
- `weave` sets `assume_levels` before it checks the length of `levels`, so that error path
  changes the object's state. `Weaver.Store` models this.

## Model

| member | source | states |
|---|---|---|
| `Containment.CIndex` | hidef/weaver.py:871-879 | The index is undefined (`nan`) exactly when the row is empty. Otherwise it lies in [0, 1] and is the overlap divided by the row's size. |
| `Containment.ContainmentIndices` | hidef/weaver.py:871-879 | The matrix has one row per cluster of `A` and one column per cluster of `B`. Entry `[i][j]` is the containment index of `A[i]` in `B[j]`. |
| `Containment.OverlapFullIffSubset` | hidef/weaver.py:876-878 | The overlap equals the row's size exactly when the row is a subset of the other. |
| `Containment.CIndexOneIffSubset` | hidef/weaver.py:871-879 | For a non-empty row, the index is 1 exactly when the row is a subset of the other. |
| `Containment.CIndexDiagonal` | hidef/weaver.py:871-879 | A non-empty cluster is fully contained in itself. |
| `Containment.CIndexAtLeast` | hidef/weaver.py:296 | Reaching the cutoff means the overlap is at least cutoff × the row's size, in both directions. |
| `Containment.CIndexOrder` | hidef/weaver.py:296-299 | Between two overlapping clusters, the smaller one has the larger index in the other. The indices tie exactly when the sizes tie. |
| `Containment.OverlapSymmetric` | hidef/weaver.py:876 | The overlap of two rows does not depend on their order. |
| `Containment.UnionCount` | hidef/weaver.py:413-414 | The size of the union is the sum of the sizes minus the overlap. |
| `Assignments.KeptDescends` | hidef/weaver.py:273-305 | Every kept candidate edge goes from a strictly higher level. Without levels and with a positive cutoff, it goes from a strictly larger cluster, or an equally large one with a larger index. |
| `Assignments.CandidateAcyclic` | hidef/weaver.py:285-305 | With levels, or with a positive cutoff, the candidate graph has no cycle. This is why the `has_path` test at line 304 can stay commented out. |
| `Candidates.AddCandidates` | hidef/weaver.py:283-305 | After the pair loop, the edge set is exactly the kept pairs `(j,0) → (i,0)`. Each edge weighs the index `CI[i, j]`. The nodes are the clusters enumerated in some pair, each carrying its index, level and label. |
| `Candidates.ProcessRow` | hidef/weaver.py:285-305 | Handling one row of the pair enumeration establishes the loop state for the next row. |
| `Candidates.ProcessPair` | hidef/weaver.py:286-305 | One pair adds its two nodes when missing and updates the edge set and weights as `KeptStep` describes. |
| `Candidates.ProposeEdge` | hidef/weaver.py:296-305 | When `CI[i, j]` reaches the cutoff, the opposite edge is replaced only by a strictly larger index, and otherwise the new edge is added. |
| `Candidates.WithNode` | hidef/weaver.py:290-294 | Adding a node that may already be present gives the old nodes plus that one, still without duplicates. |
| `Candidates.NodesUpToMembers` | hidef/weaver.py:285-294 | After any prefix of the enumeration, a cluster is a node exactly when it took part in an enumerated pair. |
| `Candidates.SeenAll` | hidef/weaver.py:273-294 | At the end of the loop, the nodes are the clusters that take part in some enumerated pair. |
| `Candidates.KeptStep` | hidef/weaver.py:296-305 | One pair's effect on the kept pairs. Unrelated pairs keep their status. The opposite edge survives only when the new index does not beat it. The pair itself is kept when it is proposed and not beaten. |
| `Candidates.FinalEdges` | hidef/weaver.py:285-305 | The edges left by the loop are exactly the candidate edges. |
| `Rooting.SourcesMembers` | hidef/weaver.py:310-313 | The roots list holds exactly the nodes with in-degree 0. |
| `Rooting.FindRoots` | hidef/weaver.py:310-313 | The loop collects the sources in node order. |
| `Rooting.LinkRoots` | hidef/weaver.py:315-319 | Adding the root edges appends `(-1,0) → r` for every root `r`, each with weight 1. Nothing else changes. |
| `Rooting.AddRoot` | hidef/weaver.py:309-321 | The top node is the synthetic root when there are several sources, the single source otherwise, and `NoRoot` when there is none. The graph gains the root and its edges only in the first case. |
| `Rooting.RootIsOnlySource` | hidef/weaver.py:315-321 | After rooting, the top node is the one and only node with no parent. |
| `Rooting.RootReachesAll` | hidef/weaver.py:309-321 | For an acyclic graph, a top node exists exactly when the graph has nodes. Rooting then keeps the graph acyclic, and every node is reachable from the top node. |
| `Rooting.RootedAcyclic` | hidef/weaver.py:315-319 | The root edges create no cycle. |
| `Rooting.RootedReach` | hidef/weaver.py:315-321 | Every node lies below the top node. |
| `Redundancy.Redundant` | hidef/weaver.py:328-337 | The flagged edges `a → v` are edges of the graph. They are the edges where `a` also has an edge to another ancestor of `v`. |
| `Redundancy.IsGrandparent` | hidef/weaver.py:333-337 | The inner loop finds an edge from `a` into the ancestor list exactly when one exists. |
| `Redundancy.RedundantInto` | hidef/weaver.py:329-337 | The edges collected for a node are exactly its redundant in-edges. |
| `Redundancy.FindRedundant` | hidef/weaver.py:326-337 | The collected list holds exactly the redundant edges of the graph. |
| `Redundancy.RemoveRedundant` | hidef/weaver.py:326-350 | Removal leaves the edge list, the edge set and the weights without the redundant edges. Nodes, attributes and depths are unchanged. |
| `Redundancy.ReductionKeepsReach` | hidef/weaver.py:326-350 | In an acyclic graph, removing the redundant edges changes no node's descendants. |
| `Redundancy.ReductionMinimal` | hidef/weaver.py:326-350 | After removal, no edge is redundant any more. |
| `Redundancy.ReductionSmallest` | hidef/weaver.py:326-350 | Every sub-graph with the same reachability keeps all the non-redundant edges, so the result is the transitive reduction. |
| `Redundancy.ReductionKeepsParents` | hidef/weaver.py:326-350 | A node with an ancestor still has a parent after removal, and the result is acyclic. |
| `Attaching.Scan` | hidef/weaver.py:374-382 | The scan over the attached clusters keeps only clusters already attached. It stops (`skip`) whenever the node is among them, and keeps the list free of duplicates. |
| `Attaching.ScanSkip` | hidef/weaver.py:376-378 | When an attached cluster lies below the node, the scan stops with the list unchanged. |
| `Attaching.ScanKeep` | hidef/weaver.py:376-381 | Without such a cluster, the scan removes exactly the attached clusters that lie above the node. |
| `Attaching.AttachStep` | hidef/weaver.py:374-385 | One attachment leaves a non-empty list, made of the old clusters and the node, without duplicates. |
| `Attaching.StepMinimal` | hidef/weaver.py:374-385 | If the attached clusters are the minimal holders seen so far, then after the step they are the minimal holders including the new node. |
| `Attaching.MinimalAntichain` | hidef/weaver.py:374-385 | The minimal holders are pairwise unrelated: no attached cluster lies below another. |
| `Attaching.AttachFromMinimal` | hidef/weaver.py:370-385 | Attaching a sequence of holders in turn leaves exactly their minimal elements, without duplicates. |
| `Attaching.AttachFromAppend` | hidef/weaver.py:363-385 | Attaching two sequences one after the other is the same as attaching their concatenation. |
| `Attaching.OffersMembers` | hidef/weaver.py:363-370 | The clusters offered to a terminal by the node loop are exactly the clusters whose row holds it. |
| `Attaching.AttachedMinimal` | hidef/weaver.py:359-385 | After the loop, each terminal is attached exactly to the minimal clusters holding it, without duplicates, and they form an antichain. |
| `Attaching.AttachedCover` | hidef/weaver.py:359-385 | A terminal is attached exactly when some cluster holds it, and then only below clusters that hold it. |
| `Attaching.ClusterPaths` | hidef/weaver.py:377-379 | Edges into terminals never create a path between clusters, so the `has_path` tests read the cluster graph. |
| `Attaching.AttachTerminals` | hidef/weaver.py:359-385 | The attachment record is the value-level attachment of the old node list. The graph gains exactly the record's terminal edges and nodes, each new edge with weight 1. Old weights, attributes and depths are unchanged. |
| `Attaching.AttachRow` | hidef/weaver.py:368-385 | One cluster's terminals are attached column by column, as the record function says. The graph tracks the record. |
| `Attaching.AttachCell` | hidef/weaver.py:370-385 | One terminal of one cluster: the record entry becomes that terminal's attachment step, and the graph's edges follow it. |
| `Attaching.AttachOne` | hidef/weaver.py:371-385 | The scan and the final `add_edge` replace the terminal's in-edges from the old list by edges from the new one, adding the terminal node when missing. |
| `Attaching.ScanAttached` | hidef/weaver.py:374-382 | The reversed loop over the attached list computes the scan. It removes the terminal edges of exactly the dropped clusters and leaves every other edge and weight unchanged. |
| `Attaching.DropAttached` | hidef/weaver.py:379-381 | `attached.remove` and `remove_edge` drop one cluster from the list and its edge from the graph. |
| `Secondary.SortDesc` | hidef/weaver.py:418-432 | The sort by descending key returns a permutation of its input, in non-increasing key order. |
| `Secondary.SortStable` | hidef/weaver.py:418-432 | The sort is stable: the elements with any one key keep their input order. |
| `Secondary.SortHead` | hidef/weaver.py:418-420 | The first sorted element has the largest key. It is the first such element in input order. |
| `Secondary.JaccardIsIndex` | hidef/weaver.py:410-415 | When the weight is the containment index of the child in the parent, the score is their Jaccard index, overlap over union, and is always defined. |
| `Secondary.TerminalKey` | hidef/weaver.py:423-426 | A terminal's parent has a key exactly when it lies below the top node. The key is then the parent's distance from the top node, a whole number. |
| `Secondary.RankingShape` | hidef/weaver.py:409-426 | The ranking succeeds exactly when every parent has a key. It then lists `((p, v), key)` for the parents in order. |
| `Secondary.RankingStep` | hidef/weaver.py:410-415 | One more parent either raises its key's error or appends its ranked edge. |
| `Secondary.ParentKey` | hidef/weaver.py:410-426 | The loop body computes a parent's key: a Jaccard score for a cluster, a path length for a terminal. |
| `Secondary.RankParents` | hidef/weaver.py:409-426 | The loop over the parents computes the ranking. |
| `Secondary.DemotedInto` | hidef/weaver.py:404-429 | For a node with several parents, every in-edge is ranked. The kept parent has the largest key and comes first in parent order among equals. Every other in-edge is set aside, with its key. |
| `Secondary.CollectMembers` | hidef/weaver.py:401-429 | The node loop succeeds exactly when every node's ranking does. The first list then holds the demoted in-edges of clusters, and the second those of terminals. |
| `Secondary.ClusterKey` | hidef/weaver.py:410-415 | When a ranked cluster edge weighs the containment index of the child in the parent, the parent's key is always defined. It is the Jaccard index of the two rows, overlap over union. |
| `Secondary.RankingNoPath` | hidef/weaver.py:409-426 | When every failing key fails with `NoPath`, a failing ranking does too. |
| `Secondary.DemotedNoPath` | hidef/weaver.py:404-429 | With such weights, the ranking of a cluster's parents never fails. That of a terminal's parents fails only with `NoPath`. |
| `Secondary.CollectNoPath` | hidef/weaver.py:401-429 | With such weights, the node loop fails only with `NoPath`. |
| `Secondary.SecondaryNoPath` | hidef/weaver.py:392-435 | With such weights, finding the secondary edges fails only when a terminal's parent has no path from the top node (`shortest_path_length` raising). Division by zero never happens. |
| `Secondary.FindSecondary` | hidef/weaver.py:392-435 | The loop and the two final sorts compute the secondary edge lists of the full graph. |
| `Picking.RankedEdges` | hidef/weaver.py:476-477 | The edge lists keep the ranked edges in order, without their keys. |
| `Picking.DroppedTop` | hidef/weaver.py:479-493 | `pick` removes exactly the ranked edges after the first `int(len × p / 100)`. |
| `Picking.DroppedSuffix` | hidef/weaver.py:479-493 | Whatever the percentage, the removed edges are a suffix of the ranking: all of them at 0, none from 100. |
| `Picking.CountMonotone` | hidef/weaver.py:483 | A larger percentage keeps at least as many edges. |
| `Picking.DroppedMonotone` | hidef/weaver.py:479-493 | A larger percentage removes a subset of what a smaller one removes. |
| `Picking.InEdges` | hidef/weaver.py:501-503 | The replaced edges are exactly the current in-edges of the target. |
| `Picking.LastInto` | hidef/weaver.py:495-505 | The last requested parent of a node is absent exactly when no requested edge enters it. Otherwise it is one of the requested edges. |
| `Picking.AddAllKeeps` | hidef/weaver.py:495-505 | Without `replace`, the edges afterwards are the old ones plus the requested ones. Requested edges weigh 1 and the others keep their weight. |
| `Picking.AddAllReplaces` | hidef/weaver.py:500-505 | With `replace`, a node that a requested edge enters keeps exactly one parent, the last requested one, with weight 1. Other nodes keep their parents and weights. |
| `Picking.AddEdgeTo` | hidef/weaver.py:500-505 | One requested edge, with or without replacement, changes the copy's edges and weights as the one-edge function says. |
| `Picking.AddAdditional` | hidef/weaver.py:495-505 | Raises `MissingEdge` exactly when some requested edge is not in the full graph. Otherwise the copy's edges and weights are the fold of the requested edges. |
| `Pruning.OutDegrees` | hidef/weaver.py:970 | The out-degree list pairs each internal node with its number of children. |
| `Pruning.ZeroDegree` | hidef/weaver.py:970-972 | The `while` guard holds exactly when some listed node has no child. |
| `Pruning.DropDeadEnd` | hidef/weaver.py:975-977 | Removing a childless cluster keeps the remaining graph the restriction of the original, and everything removed so far dead. |
| `Pruning.SweepDeadEnds` | hidef/weaver.py:973-977 | One reversed sweep removes every listed cluster without a child at the start of the sweep. The graph remains the restriction of the original to the kept nodes, and every removed node is dead. |
| `Pruning.NoDeadLeft` | hidef/weaver.py:972-979 | In an acyclic graph, take a node set in which every cluster keeps a child inside the set. Every node of that set has a terminal below it. |
| `Pruning.RemoveDeadEnds` | hidef/weaver.py:969-979 | Afterwards every cluster has a child and no terminal was removed. Every removed node was a cluster with no terminal below it. The graph is the original restricted to the kept nodes. In an acyclic graph every kept node has a terminal below it. |
| `Pruning.SingleBranch` | hidef/weaver.py:982-1007 | The code's answer is `IsSingleBranch`: in-degree 1 and, when strict, out-degree 1; otherwise one cluster child, or no cluster child and one child. A single branch always has a child. |
| `Pruning.LinkChild` | hidef/weaver.py:1020-1021 | One child is linked to the parent, with weight `w1 + w2`. |
| `Pruning.LinkChildren` | hidef/weaver.py:1019-1021 | Every child of the node gets an edge from the parent. The new weights are the sums through the node, and the other weights are unchanged. |
| `Pruning.LinkAndRemove` | hidef/weaver.py:1019-1023 | Linking and then removing the node contracts it into its parent: the edge set is the contraction, and the node's attributes are gone. |
| `Pruning.Collapse` | hidef/weaver.py:1013-1023 | The parent found is the node's only parent. The new graph is `Collapsed` of the old one: each child is linked to the parent with weight `w1 + w2`, an existing parent edge is overwritten, and the node goes with its edges and attributes. |
| `Pruning.Collapsed` | hidef/weaver.py:1013-1023 | Contracting a node with one parent into that parent yields a well-formed graph value. |
| `Pruning.CollapsedMapIs` | hidef/weaver.py:1017-1021 | Weights that match the collapse pointwise on the contracted edges are exactly `CollapsedMap`. |
| `Pruning.LinkedContracted` | hidef/weaver.py:1014-1023 | The edge list after linking and removal has the contracted edge set. |
| `Pruning.ContractedTails` | hidef/weaver.py:1013-1023 | A contraction changes no other node's having a child. |
| `Pruning.CollapseReach` | hidef/weaver.py:1013-1023 | In an acyclic graph, a contraction keeps every other node's descendants, less the removed node. |
| `Pruning.AcyclicCollapse` | hidef/weaver.py:1013-1023 | Contracting a single-parent node keeps the graph acyclic. |
| `Pruning.VisitBranch` | hidef/weaver.py:1012-1023 | One visit is `BranchStep`: the graph is `Collapsed` at the node when `_single_branch` holds for it there, and is unchanged otherwise. |
| `Pruning.BranchStep` | hidef/weaver.py:1012-1023 | One visit of the loop keeps the graph value well formed. |
| `Pruning.BranchFold` | hidef/weaver.py:1012-1023 | The loop over a node order, as visits in that order, keeps the graph value well formed. |
| `Pruning.BranchFoldStep` | hidef/weaver.py:1012-1023 | Folding one more node of the order is one more `BranchStep`. |
| `Pruning.BranchFoldKept` | hidef/weaver.py:1009-1023 | Whatever the order, the loop keeps a subset of the nodes in their order, every leaf and every source, whether each node has a child, and, in an acyclic graph, acyclicity and the paths among the kept nodes. |
| `Pruning.KeptBranch` | hidef/weaver.py:1013-1023 | One collapse of a single branch keeps the loop's `Kept` relation with the original. |
| `Pruning.CollapsedShape` | hidef/weaver.py:1013-1023 | A single branch has one parent and a child. Collapsing it removes exactly that node and leaves the contracted edge set. |
| `Pruning.CollapseBranches` | hidef/weaver.py:1012-1023 | After the loop the graph is `BranchFold` of the old graph over the given order. |
| `Pruning.RemoveSingleBranches` | hidef/weaver.py:1009-1023 | Without a root, the traversal fails with `MissingNode` and nothing changes. Otherwise the graph is `BranchFold` of the old graph over its breadth-first order `Topdown`, and keeps `Kept` with the old graph. |
| `Pruning.PruneKeeps` | hidef/weaver.py:962-1025 | The two passes together keep the graph acyclic and keep reachability among kept nodes. Every kept node has a terminal below it. |
| `Pruning.Prune` | hidef/weaver.py:962-1025 | Terminals with no children are never removed. On success, every cluster has a child and the result `PrunesTo` the input: the dead-end phase keeps a set of nodes outside of which every node is a dead cluster, and the single-branch fold over the breadth-first order of what is left gives the result. For an acyclic input whose terminals are leaves, the result is acyclic, keeps the input's reachability among the kept nodes, and has a terminal below every node. |
| `Pruning.PrunedByLive` | hidef/weaver.py:969-979 | On an acyclic graph the dead-end phase keeps exactly the nodes with a terminal below them. |
| `Depths.UpdateTopdown` | hidef/weaver.py:531-545 | From a fresh depth map, the queue loop ends in a finished breadth-first search from the root. |
| `Depths.RelaxChildren` | hidef/weaver.py:535-545 | Processing one dequeued parent keeps the breadth-first invariant and makes the termination measure decrease or leaves the state unchanged. |
| `Depths.RelaxEach` | hidef/weaver.py:538-545 | The loop over the children computes the fold of the relaxation over them. |
| `Depths.RelaxChild` | hidef/weaver.py:539-545 | A child already at depth `par_depth + 1` or less is skipped. Otherwise it gets that depth and is queued. |
| `Depths.RelaxAllKeeps` | hidef/weaver.py:538-545 | Relaxing all children of the current parent keeps the breadth-first invariant. |
| `Depths.RelaxAllShrinks` | hidef/weaver.py:538-545 | Relaxing the children lowers the measure (unvisited nodes, total depth) or changes nothing, so the queue loop ends. |
| `Depths.BfsDone` | hidef/weaver.py:534-545 | When the queue is empty, the recorded nodes are exactly those reachable from the root. |
| `Depths.ExactDepths` | hidef/weaver.py:548-550 | The root has depth 0, and each edge deepens by at most one. Every recorded depth is the shortest-path length from the root. |
| `Depths.DepthIsShortestPath` | hidef/weaver.py:525-550 | A recorded depth equals networkx's `shortest_path_length` from the root. |
| `Depths.UpdateDepth` | hidef/weaver.py:525-550 | Fails with `MissingNode` exactly when there is no root, changing nothing. Otherwise, starting from no depths, the nodes given a depth are exactly those below the root, each at its shortest distance. Only the depths change. |
| `Recovery.HasAnyTerminal` | hidef/weaver.py:685-693 | A node absent from the graph raises `MissingNode`. Otherwise the answer is whether some child is a terminal. |
| `Recovery.ClusterRow` | hidef/weaver.py:668-681 | The recovered row has one entry per terminal name. It is true exactly at the positions of the marked terminals, when names are distinct. |
| `Recovery.MarksAreMarked` | hidef/weaver.py:671-681 | The marked nodes are the terminal descendants of the node, or the node itself when it has none. |
| `Recovery.MarkAll` | hidef/weaver.py:674-681 | Marking succeeds exactly when every marked node is a listed terminal, else it fails with `NotATerminal`. The result is the cluster row. |
| `Recovery.NodeCluster` | hidef/weaver.py:651-683 | An absent node raises `MissingNode`. Otherwise the call succeeds exactly when the marked nodes are listed terminals, and returns the row of the node's terminal descendants. |
| `Recovery.Attrs` | hidef/weaver.py:713 | The attribute map holds the level of every node with attributes, or the depth map. |
| `Recovery.Visit` | hidef/weaver.py:722-745 | A visited cluster without the attribute raises `MissingNode`. Otherwise the node joins the clusters exactly when it is a boundary node. It queues `QueuedChildren`: its successors in `T.successors` order, without terminals when it stops before them. |
| `Recovery.QueuedDescent` | hidef/weaver.py:732-737 | The queued children are exactly the heads of the edges the traversal follows out of the node. |
| `Recovery.Turn` | hidef/weaver.py:718-745 | One turn of the loop keeps its invariant: the nodes visited and the clusters collected so far, followed by what the loop collects from the queue, make the whole boundary list. A failure means a reachable cluster lacks the attribute. |
| `Recovery.Boundary` | hidef/weaver.py:716-745 | The traversal fails exactly when it reaches a cluster without the attribute. Otherwise it collects, without duplicates, exactly the reachable boundary nodes of the graph, in the first-in first-out order of `BoundaryOrder`. |
| `Recovery.ClusterRows` | hidef/weaver.py:747-750 | The matrix holds the row of each collected node, in order, and fails with `NotATerminal` exactly when one of them marks an unknown name. |
| `Recovery.Flatten` | hidef/weaver.py:752-757 | The flat labels have one entry per terminal, each at most the number of clusters. |
| `Recovery.HighestZero` | hidef/weaver.py:752-757 | A terminal's flat label is 0 exactly when no cluster covers it. |
| `Recovery.HighestLast` | hidef/weaver.py:752-757 | A nonzero flat label is the 1-based position of the last cluster covering the terminal. |
| `Recovery.HighestDisjoint` | hidef/weaver.py:752-757 | For disjoint clusters, a terminal's label is `i + 1` exactly when cluster `i` covers it. |
| `Recovery.TopdownCluster` | hidef/weaver.py:695-759 | Reports the error cases: `MissingNode` exactly when the traversal meets a cluster without the attribute or finds no root; `NotATerminal` exactly when a boundary node marks an unknown name; `EmptyReduction` for a flat result with no clusters. Otherwise the result is the flat labels or the rows of exactly the boundary nodes, numbered in the first-in first-out order of `BoundaryOrder`. |
| `Recovery.GetLevels` | hidef/weaver.py:110-125 | Fails exactly when a cluster has no level. Otherwise it returns the distinct levels of the clusters in strictly increasing order. |
| `Relabelling.Mapping` | hidef/weaver.py:92-105 | The loop maps every cluster with an attribute, and only those, to `(value, k)`. Here `k` counts the earlier clusters with the same value. |
| `Relabelling.MappingStep` | hidef/weaver.py:99-105 | One more node extends the mapping by its new name exactly when it is a cluster with the attribute. |
| `Relabelling.EarlierGrows` | hidef/weaver.py:102-105 | A later cluster with the same value gets a strictly larger index. |
| `Relabelling.MappingInjective` | hidef/weaver.py:99-105 | No two clusters get the same new name. |
| `Relabelling.RelabelMergesNothing` | hidef/weaver.py:99-107 | The renaming is injective on the graph's nodes, so `relabel_nodes` merges no nodes. |
| `Relabelling.RenamedNodes` | hidef/weaver.py:107 | The renamed node list holds exactly the images of the old nodes, without duplicates. |
| `Relabelling.RenamedEdges` | hidef/weaver.py:107 | The renamed edge list holds exactly the images of the old edges, without duplicates. |
| `Relabelling.RenamedWeight` | hidef/weaver.py:107 | The renamed weights are keyed by exactly the images of the weighted edges. |
| `Relabelling.RenamedAttr` | hidef/weaver.py:107 | Every renamed attribute belongs to the image of an old node that had it. |
| `Relabelling.RenamedNodesCount` | hidef/weaver.py:107 | An injective renaming keeps the number of nodes. |
| `Relabelling.RenamedEdgesKeep` | hidef/weaver.py:107 | Under an injective renaming, two nodes are joined after renaming exactly when they were joined before. |
| `Relabelling.RenamedWeightKeeps` | hidef/weaver.py:107 | Under an injective renaming, every edge keeps its weight. |
| `Relabelling.RenamedAttrKeeps` | hidef/weaver.py:107 | Under an injective renaming, every node keeps its attributes. |
| `Relabelling.RenamedShape` | hidef/weaver.py:107 | The renamed edges join renamed nodes, and the weights cover exactly the renamed edges. |
| `Relabelling.RelabelNodes` | hidef/weaver.py:107 | `relabel_nodes(copy=True)` returns a fresh graph with the renamed nodes, edges, weights and attributes. |
| `Expansion.ExpandBoolean` | hidef/weaver.py:219-223 | In boolean mode, each partition is one row, true where the label is nonzero. It keeps its level and has label `True`. |
| `Expansion.UniqueLabels` | hidef/weaver.py:228 | The labels of each partition are visited as numpy's `unique`: distinct, in increasing order. |
| `Expansion.ExpandAt` | hidef/weaver.py:226-232 | The `m`-th distinct label of partition `i` becomes the row at offset `m` of partition `i`'s block: `p == label`, with that level and label. |
| `Expansion.ExpandSound` | hidef/weaver.py:224-235 | Every expanded row is `p == label` for a label occurring in its partition, and carries the partition's level. |
| `Expansion.ExpandCovers` | hidef/weaver.py:224-235 | Every label of every partition has its own expanded row, which holds the terminal carrying that label. |
| `Expansion.ExpandShape` | hidef/weaver.py:224-235 | Every expanded row has one entry per terminal. There are no rows exactly when there are no terminals, the case where `np.vstack` raises. |
| `Expansion.ExpandOne` | hidef/weaver.py:228-232 | The inner loop appends one row, level and label per distinct label of the partition. |
| `Expansion.ExpandAll` | hidef/weaver.py:226-232 | The outer loop computes the blocks of all partitions in order. |
| `Expansion.ExpandPartitions` | hidef/weaver.py:224-235 | The label-mode loop computes the expansion. |
| `Helpers.RunKeys` | hidef/weaver.py:905 | `groupby` yields the run keys: the first and last elements are kept and adjacent keys differ. |
| `Helpers.AllEqualIff` | hidef/weaver.py:900-906 | `all_equal` holds exactly when all elements are pairwise equal, including for the empty sequence. |
| `Helpers.BoolizeFloat` | hidef/weaver.py:908-913 | A float boolizes to true exactly when its magnitude is at least 1, because `int` truncates toward zero. |
| `Helpers.BoolizeWhole` | hidef/weaver.py:908-913 | A whole float and the integer it holds boolize alike. |
| `Seqs.Trunc` | hidef/weaver.py:483 | `int()` of a non-negative float is its floor, within one of the value. For a negative float it is at most 0 and not below the value. |
| `Seqs.Unique` | hidef/weaver.py:228 | numpy's `unique` returns the distinct values, strictly increasing. |
| `Seqs.IndexOf` | hidef/weaver.py:948-953 | `find` gives the first position of the value, and is absent exactly when the value does not occur. |
| `Graph.Reach` | hidef/weaver.py:377-379 | The descendants-or-self set contains the start and is closed under successors. It is the least such set (`Graph.ReachLeast`). |
| `Graph.ReachLeast` | hidef/weaver.py:671-672 | Any successor-closed set containing the start contains all its descendants. |
| `Graph.ShortestPathLength` | hidef/weaver.py:425 | The length is absent exactly when the target is unreachable. Otherwise it is a shortest path's length. |
| `Digraphs.Digraph.constructor` | hidef/weaver.py:284 | A new graph has no nodes, edges, weights or attributes. |
| `Digraphs.Digraph.AddNode` | hidef/weaver.py:290-294 | `add_node` appends a missing node and sets its attributes, changing nothing else. |
| `Digraphs.Digraph.AddEdge` | hidef/weaver.py:305 | `add_edge` appends missing end nodes and a missing edge, and sets the edge's weight, changing nothing else. |
| `Digraphs.Digraph.RemoveEdge` | hidef/weaver.py:300 | `remove_edge` drops the edge and its weight, changing nothing else. |
| `Digraphs.Digraph.RemoveEdges` | hidef/weaver.py:350 | `remove_edges_from` drops the listed edges and their weights, changing nothing else. |
| `Digraphs.Digraph.RemoveNode` | hidef/weaver.py:976 | `remove_node` drops the node, its attributes, and every edge at it with its weight. |
| `Digraphs.Digraph.SetDepth` | hidef/weaver.py:544 | Setting a node's `depth` attribute changes only that entry. |
| `Digraphs.Digraph.Copy` | hidef/weaver.py:473 | `copy` returns a fresh graph with the same nodes, edges, weights and attributes. |
| `Digraphs.Digraph.Successors` | hidef/weaver.py:538 | The successors are exactly the targets of the node's out-edges. |
| `Digraphs.Digraph.Predecessors` | hidef/weaver.py:329 | The predecessors are exactly the sources of the node's in-edges. |
| `Digraphs.FirstSource` | hidef/weaver.py:955-960 | The position of the first node with no in-edge, absent exactly when every node has one. |
| `Digraphs.GetRoot` | hidef/weaver.py:955-960 | The root is `None` exactly when every node has a parent. Otherwise it is the first node, in node order, with in-degree 0. |
| `Digraphs.SourceNoEdgeInto` | hidef/weaver.py:955-960 | The root has no in-edge at all. |
| `Digraphs.Pop` | hidef/weaver.py:1039 | `Q.pop(0)` takes the front and `Q.pop(-1)` the back, and the rest keeps every other element. |
| `Digraphs.Sweep` | hidef/weaver.py:1036-1048 | The yielded order is `Visits` from the root: pop from the front (breadth) or the back (depth), skip a visited node, otherwise yield it and queue its successors. It starts at the root, has no repeats, and its node set is closed under successors. |
| `Digraphs.TraverseTopdown` | hidef/weaver.py:1027-1048 | Any mode other than `depth` or `breadth` raises `BadMode`, and a graph without root gives `MissingNode`. Otherwise the result is `Topdown`, the breadth- or depth-first order from the root; it yields each node once, starts at the root, and covers exactly the nodes reachable from it. |
| `Weaving.SetTerminalsAsWritten` | hidef/weaver.py:66-76 | The setter as written: an ndarray value fails with `UnboundTerminals`, and a success has one name per terminal. |
| `Weaving.SetTerminals` | hidef/weaver.py:66-76 | The evidently intended setter. It fails with `TerminalsMismatch` exactly when a given list or array has the wrong length. Otherwise it stores the given names, or `0 .. n-1` for `None`. |
| `Weaving.SetTerminalsArray` | hidef/weaver.py:66-76 | The two setters agree on everything but arrays. On an array of the right length, the code as written fails where the intended setter succeeds. |
| `Weaving.LevelsFor` | hidef/weaver.py:210-215 | Without explicit levels, partition `i` has level `i`. |
| `Weaving.InputShape` | hidef/weaver.py:219-235 | The stored input has one level and one label per row, and one column per terminal. It has no rows exactly in label mode with no terminals. |
| `Weaving.PreparedErrors` | hidef/weaver.py:191-237 | `weave`'s checks, in order: empty input, partitions of different lengths, a wrong number of levels, no rows to stack in label mode, a terminal list of the wrong length. Each one fails exactly in its case. |
| `Weaving.PreparedWellFormed` | hidef/weaver.py:191-237 | A successful preparation yields a well-formed assignment with one column per terminal. |
| `Weaving.Prepare` | hidef/weaver.py:191-237 | The checks and expansion of `weave` compute exactly the prepared input, with the same error on each failure. |
| `Weaving.PrepareChecked` | hidef/weaver.py:219-237 | Once the input passes the first three checks, the expansion and the terminals setter give the prepared input. |
| `Weaving.ExpandInput` | hidef/weaver.py:219-235 | The boolean or label expansion of the partitions. |
| `Weaving.PairingOf` | hidef/weaver.py:283 | The matrix `_build` reads is the containment index of every pair of rows. |
| `Weaving.FullGraph` | hidef/weaver.py:262-321 | Builds the candidate graph from the pairs and roots it, with no depths. On success every node reads a row. A candidate edge `(j, 0) → (i, 0)` weighs `CI[i, j]` (line 305) and an edge out of the synthetic root weighs 1 (line 319). |
| `Weaving.Thin` | hidef/weaver.py:323-385 | Removing redundant edges and attaching terminals turns the rooted candidate graph into the full graph. The weights keep their meaning, and every terminal edge weighs 1 (line 384). |
| `Weaving.RootChildAlone` | hidef/weaver.py:309-321 | A cluster below the synthetic root has no other parent in the full graph, so it is never ranked. |
| `Weaving.BuiltIndexWeighted` | hidef/weaver.py:305-417 | In the full graph, every in-edge of a cluster with several parents is a candidate edge weighted by the containment index of the child in the parent, as the Jaccard score assumes. |
| `Weaving.BuildFrom` | hidef/weaver.py:247-438 | Without a top node no graph is returned. Otherwise a fresh full graph is assembled from the candidates, with the weights `_build` gives, and the secondary edges are those of that graph. Ranking them fails only with `NoPath`. |
| `Weaving.PickedKeeps` | hidef/weaver.py:476-493 | Without additional edges, an edge stays exactly when it was in the full graph and dropped from neither ranking. |
| `Weaving.PickedMonotone` | hidef/weaver.py:479-493 | Larger percentages keep a superset of the edges. |
| `Weaving.PickedCopy` | hidef/weaver.py:472-505 | The copy fails with `MissingEdge` exactly when a requested edge is missing. Otherwise it is a fresh graph with the full graph's nodes and the picked edges and weights. |
| `Weaving.PickFrom` | hidef/weaver.py:472-508 | The picked copy is pruned. The result is a fresh graph that `PrunesTo` from the picked edges: dead ends removed, then the single branches collapsed in breadth-first order. The errors are `MissingEdge` or `MissingNode`. |
| `Weaving.PickHierarchy` | hidef/weaver.py:440-514 | `pick` after its checks: a requested edge outside the full graph gives `MissingEdge`. On success the hierarchy `PrunesTo` from the picked edges, up to its depths, which are the breadth-first distances from its root. |
| `Weaving.RelabelHierarchy` | hidef/weaver.py:89-108 | Renames the clusters of the hierarchy by the mapping of depths or levels into a fresh graph. |
| `Weaving.Weaver.constructor` | hidef/weaver.py:48-57 | A new weaver has nothing stored, nothing built, and does not assume levels. |
| `Weaving.Weaver.Store` | hidef/weaver.py:188-237 | The checks and stores of `weave`. `assume_levels` is set once the partitions pass their two checks. The expansion is stored when it exists. On failure the error is the prepared one and the terminals are untouched. On success the stored input is well formed. |
| `Weaving.Weaver.Build` | hidef/weaver.py:247-438 | `_build` raises `NoRoot` without a top node, leaving the full graph untouched. Otherwise it stores a fresh full graph assembled from the candidates, with the weights `_build` gives. The secondary edge lists are set exactly when ranking succeeds. Otherwise the ranking's error, which can only be `NoPath`, is returned. |
| `Weaving.Weaver.Keep` | hidef/weaver.py:386-436 | The stores of `_build`: `_full` is the new graph, and the secondary edge lists are replaced only when they were ranked. Nothing else changes. |
| `Weaving.Weaver.Pick` | hidef/weaver.py:440-514 | `pick` raises `NotBuilt` before `_build`, and `MissingEdge` for a requested edge outside the full graph, leaving the hierarchy untouched. On success it stores and returns the hierarchy that `PrunesTo` from the picked edges, with its depths from the root. |
| `Weaving.Weaver.UpdateDepth` | hidef/weaver.py:525-550 | Raises `NotBuilt` without a hierarchy, and `MissingNode` exactly when it has no root. Only depths change, and from no depths they become the shortest distances from the root. |
| `Weaving.Weaver.RootNode` | hidef/weaver.py:516-521 | Raises `NotBuilt` without a hierarchy. Otherwise it returns `get_root` of the hierarchy: a node of in-degree 0, or `None` when every node has a parent. |
| `Weaving.Weaver.Relabel` | hidef/weaver.py:89-108 | Raises `NotBuilt` without a hierarchy. Otherwise it replaces the hierarchy by a fresh relabelled copy and returns the mapping. |
| `Weaving.Weaver.GetLevels` | hidef/weaver.py:110-125 | Raises `NotBuilt` without a hierarchy. Otherwise it returns the distinct cluster levels in increasing order, or `MissingNode` when a cluster has no level. |
| `Weaving.Weaver.HasAnyTerminal` | hidef/weaver.py:685-693 | Raises `NotBuilt` without a hierarchy. A node absent from it raises `MissingNode`. Otherwise the answer is whether some child is a terminal. |
| `Weaving.Weaver.NodeCluster` | hidef/weaver.py:651-683 | Raises `NotBuilt` without a hierarchy. Otherwise it returns the node's cluster row over the stored terminals, or the error cases of `node_cluster`. |
| `Weaving.Weaver.DepthCluster` | hidef/weaver.py:761-770 | Raises `NotBuilt` without a hierarchy. Otherwise it returns the top-down recovery by depth, with the boundary in traversal order. |
| `Weaving.Weaver.LevelCluster` | hidef/weaver.py:772-785 | Raises `NotBuilt` without a hierarchy. Otherwise it returns the top-down recovery by level, with the boundary in traversal order. |
| `Weaving.Weaver.Weave` | hidef/weaver.py:139-245 | `weave` fails with the preparation's error before building anything. On success it returns the stored hierarchy, picked from a full graph that `_build` assembled from the candidates, with its weights. |

## Left out

- Logging: `LOGGER` timing and messages are not modelled. This includes the warning of
  `level_cluster` (lines 782-783) and the one in `_topdown_cluster` (line 744).
- `update_depthr` (lines 552-577), a recursive twin of `update_depth` that nothing calls, is
  not part of this model.
- `node_cluster`'s `out` argument is not modelled; the row is always freshly allocated.
  `_topdown_cluster` passes a row of its matrix, which is then filled the same way.
- The copy of the partitions into a list of lists (lines 200-207) only converts the input's
  type. The model takes the partitions as integer lists from the start.
- Labels are integers. Strings such as `'1'`, which `astype(bool)` and `boolize` also accept,
  are not modelled.
- `n_terminals` is the width of the stored rows (lines 59-62). The model reads it from the
  partitions' common length.
- Accessors and output helpers are not part of this model: `some_node`, `get_attribute`,
  `depth`, `level`, `maxdepth`, `all_depths`, `show`, `write`, `stuff_dummies` and
  `show_hierarchy`. The same goes for the legacy, sparse and plain variants of
  `containment_indices`, for `n_simple_paths`, and for the module-level `weave` function
  (line 1217).
- Keyword arguments are explicit parameters: `top`, `cutoff`, `additional`, `replace`,
  `strict_single_branch`, `flat` and `stop_before_terminal`.
- networkx's node and edge orders are modelled as insertion order. `relabel_nodes` orders
  are not modelled beyond the sets of nodes and edges.
- Digraphs.Digraph.Copy: keeps the edge list in insertion order. networkx's `copy()` rebuilds
  the adjacency by source node, so the copy's predecessor order can differ from the
  original's. The model does not capture that reordering.
- Secondary.Jaccard: floating-point division by zero gives `inf` or `nan` in numpy; the model
  returns `ZeroDivision` instead. On the full graph `_build` makes this case does not arise:
  `Weaving.BuiltIndexWeighted` shows the weights are containment indices, `ClusterKey` that
  the score is then the Jaccard index, and `SecondaryNoPath`, `BuildFrom` and `Weaver.Build`
  that the only ranking error left is `NoPath`.
- Weaving.FullGraph, Weaving.Thin, Weaving.BuildFrom and Weaving.Weaver.Build: the edges
  and nodes of the full graph are stated as sets (`Assembled`), not as sequences. Their
  insertion order, which decides the order of the parents and so the ties broken by the
  stable sorts (`SortHead`, `SortStable`), is not pinned down.
- Floating point is modelled by exact reals throughout, for containment indices, weights
  and Jaccard scores.
- Depths.UpdateDepth: full correctness (depths equal to shortest distances) is stated only
  when the depth map is empty at the start, which is how `pick` calls it. With depths already
  present, only the frame and the error cases are stated.
- Weaving.Weaver.UpdateDepth: the same restriction to an initially empty depth map.
- Pruning.Prune: acyclicity and kept reachability are stated only for an acyclic input whose
  terminals are leaves, which is what `_build` produces. The dead-end phase is stated through
  the set of nodes it keeps (`PrunesTo`): every removed node is a dead cluster and every kept
  cluster has a child. `PrunedByLive` shows that on an acyclic graph this set is exactly the
  nodes with a terminal below them. On a cyclic graph the set is not pinned down further.
- Weaving.PickFrom, Weaving.PickHierarchy and Weaving.Weaver.Pick: the pruned hierarchy is
  stated through `Pruning.PrunesTo`, so they share the dead-end restriction of
  `Pruning.Prune` above.
- Weaving.PickFrom: says only that an error is `MissingEdge` or `MissingNode`, not when
  `MissingNode` happens. `Pruning.Prune` states that cause: after the dead ends are removed,
  every node has a parent. It states it on that intermediate graph, which `PickFrom` discards.
- Weaving.Weaver.Weave: states the failure cases of the checks and that a success comes from
  `_build` followed by `pick`. The details of the stored fields are stated by
  `Weaving.Weaver.Store`, `Build` and `Pick`.

## Findings

| source | as written | input that shows it | evidently intended | confidence | as-written member | corrected member |
|---|---|---|---|---|---|---|
| hidef/weaver.py:66-76 | `set_terminals` binds the local `terminals` only for `None` or a non-array value, so a numpy array raises `UnboundLocalError` at the length check | `weaver.terminals = np.array(['a', 'b'])` with two terminals | an array of the right length is stored like a list | not executed | `Weaving.SetTerminalsAsWritten`, shown by `Weaving.SetTerminalsArray` | `Weaving.SetTerminals` |
