# Ranking reconciliation and tree relations, in Dafny

This project models two pure components of a system-analysis coursework
repository and proves properties about them.

**Ranking reconciliation** (`task3/main.py`). A ranking is a list of slots.
Each slot holds one object or a group of objects tied with each other.
Given two rankings `a` and `b`, `find_core_and_consistent_ranking` does five things:

- builds the sorted object list of `a` (`flatten_ranking`);
- builds each ranking's "not worse than" matrix (`ranking_to_matrix`);
- collects the "core" pairs from the matrix `P`;
- forces the core pairs into the agreement matrix `C`, symmetrises it to `E`,
  closes `E` transitively, and splits the object indices into clusters by a
  stack walk;
- stably sorts the clusters by the sum of their first slot positions in `a`
  and in `b`, and emits singleton clusters bare and larger ones as groups.

**Tree relations** (`task1/task1.py`).

- `build_tree` orients an undirected edge list away from a root by a
  breadth-first walk. It lists the nodes root first, then the other
  endpoints ascending. The model states the walk's discovery order and
  proves that it leaves exactly one possible tree.
- `build_matrices` derives six 0/1 matrices over that node list:
  - `A`, the adjacency matrix;
  - `r1`, a copy of `A`, and `r2`, its transpose;
  - `r3`, descendants at any depth, and `r4`, its transpose;
  - `r5`, siblings.

Objects and node names are `int`s. Matrices are `seq<seq<bool>>`.

Modules, following the program's structure:

| file | module | models |
|---|---|---|
| matrix.dfy | `BoolMatrix` | boolean matrices, relation properties, paths (`Reach`) |
| sorting.dfy | `Sorting` | the `sorted(...)` calls and the stable `list.sort(key=...)` |
| ranking.dfy | `Ranking` | slots, `flatten_ranking`, `ranking_to_matrix` |
| core.dfy | `Core` | `P`, the core pairs, `C`, `E` |
| closure.dfy | `Closure` | the Warshall triple loop giving `E_star` |
| clusters.dfy | `Clusters` | the stack walk that extracts clusters |
| lists.dfy | `Lists` | permutation facts about concatenated lists |
| consensus.dfy | `Consensus` | `get_cluster_position`, the sort, the output shape |
| pipeline.dfy | `Pipeline` | `find_core_and_consistent_ranking` end to end |
| scenarios.dfy | `Scenarios` | identical, reversed, empty and one-object inputs |
| tree.dfy | `Tree` | `build_tree` |
| tree_unique.dfy | `TreeUnique` | why the breadth-first tree is the only one meeting `build_tree`'s contract |
| tree_matrices.dfy | `TreeMatrices` | `build_matrices` |
| hierarchy.dfy | `Hierarchy` | `main` of `task1/task1.py` |

**What the core pairs are.** The source's docstring and comments call the
core the pairs on which the two rankings *contradict* each other. The model
follows the code:

- `P[i][j] = (Y_A & Y_B.T) | (Y_A.T & Y_B)` holds when the pair is tied in
  either ranking, or when the two rankings order it in opposite directions.
- So the pairs collected where `P` is false are exactly those that BOTH
  rankings order strictly the SAME way (`Core.CoreMembers`).
- Identical strict rankings therefore put every pair in the core and end in
  a single cluster (`Scenarios.IdenticalOutput`).
- A full reversal gives an empty core and all singletons
  (`Scenarios.ReversedOutput`).

**Definitions stated through lemmas.** Some functions only compute, and
separate lemmas state what their results mean:

- `Core.PairMatrix` and `Core.P`: `Core.PairMatrixFalseIffAlike`;
- `Core.CorePairs`: `Core.CoreIndicesAbove`, `Core.PairsFrom` and `Core.CoreMembers`;
- `Core.Forced`: `Core.ForcedCellsIff`;
- `Core.Tolerance`: `Core.ToleranceEntries` and `Core.ToleranceIsTolerance`;
- `Consensus.Key`: `Consensus.Order` and `Scenarios.ReversedKey`;
- `Consensus.Assemble`: `Consensus.AssembleShape`, `Consensus.AssembleTies` and `Consensus.AssembleLinked`.

## Model

| member | source | states |
|---|---|---|
| Ranking.Concat | task3/main.py:7-12 | the slot contents laid end to end hold exactly the objects occurring in the ranking |
| Ranking.Flatten | task3/main.py:5-13 | the object list is ascending, holds every slot's objects with their multiplicity (a permutation of the slot contents laid end to end), and holds exactly the objects occurring in the ranking |
| Ranking.Positions | task3/main.py:20-26 | the map's keys are exactly the ranking's objects, and each object maps to the last slot that holds it |
| Ranking.OrderMatrix | task3/main.py:28-31 | an n×n matrix over the listed objects whose cell (i, j) is set exactly when object i's slot is not after object j's slot |
| Ranking.OrderMatrixPreorder | task3/main.py:15-32 | the "not worse than" matrix is reflexive, total and transitive, i.e. a total preorder |
| Ranking.OrderMatrixTies | task3/tests/test_main.py:51-72 | both (i, j) and (j, i) are set exactly when the two objects share a slot; when no object sits in two slots, exactly when some slot holds both |
| Ranking.PreorderByNumbers | task3/main.py:28-31 | any matrix defined by comparing numbers with `<=` is reflexive, total and transitive |
| Core.PairMatrixFalseIffAlike | task3/main.py:45-48 | `P[i][j]` is false exactly when both rankings put the two objects strictly in the same order |
| Core.CoreIndicesAbove | task3/main.py:50-54 | the index pairs collected are exactly the (i, j) with i < j < n and `P[i][j]` false |
| Core.PairsFrom | task3/main.py:52-55 | the pairs from row i on are exactly the cells above the diagonal where `P` is false, in lexicographic (i, j) order |
| Core.CoreMembers | task3/main.py:50-55 | (x, y) is a core pair exactly when x and y are objects of `a`, x < y, and both rankings order x and y strictly the same way |
| Core.IdenticalStrictCoreIsEverything | task3/tests/test_main.py:78-91 | with two identical rankings of single objects, every pair of distinct objects is in the core |
| Core.ReversedCoreIsEmpty | task3/tests/test_main.py:93-112 | a ranking of single objects against its reversal gives an empty core |
| Core.AllTiedCoreIsEmpty | task3/tests/test_main.py:325-336 | when `a` is one tied group, the core is empty whatever `b` is |
| Core.OneSlotNotAlike | task3/main.py:48 | two objects sharing a slot are never ordered alike, so a pair tied in a ranking never enters the core |
| Sorting.Sort | task3/main.py:13 | `sorted` returns an ascending permutation of its input |
| Sorting.StableSortByKey | task3/main.py:100-102 | the keyed sort returns a permutation ascending by key in which the elements of each key keep their input order |
| Sorting.IndexOf | task3/main.py:60-61 | `objects.index` gives the first position holding the value |
| Core.ForcedCells | task3/main.py:59-62 | the cells set by the forcing loop are exactly both orientations of each core pair, at the first positions of its two objects |
| Core.Force | task3/main.py:57-62 | a forced cell is set exactly when it was set before or it is a forced core cell |
| Core.ForcedCellsIff | task3/main.py:57-62 | `C[i][j]` is set exactly when both rankings put object i not after object j, or i and j are first positions of two objects ordered alike by both rankings |
| Core.ToleranceEntries | task3/main.py:64 | `E[i][j]` is set exactly when the two objects are tied in both rankings, or they sit at first positions and are ordered alike by both |
| Core.ToleranceIsTolerance | task3/main.py:64 | `E` is reflexive and symmetric |
| Core.CorePairTolerated | task3/main.py:59-64 | both objects of each core pair occur, and `E` links their first positions, so the pair survives into `E` |
| Closure.Round | task3/main.py:68-71 | the in-place i-j loops for pivot k give the same matrix as setting (i, j) whenever (i, k) and (k, j) were set at the start of the round, because row k and column k do not change during it |
| Closure.StepClosesPivot | task3/main.py:67-71 | after pivot k, every path through intermediate nodes up to k is shortcut |
| Closure.StepSound | task3/main.py:67-71 | a pivot step sets only cells that are reachable in the original matrix |
| Closure.Warshall | task3/main.py:66-71 | `E_star` contains `E`, is transitive, and (i, j) is set exactly when j is reachable from i in `E`; it stays reflexive and symmetric when `E` is, so it is an equivalence |
| Clusters.PushUnvisited | task3/main.py:85-88 | afterwards a node is visited exactly when it was before or is a neighbour of `node`; the pushed nodes are exactly the previously unvisited neighbours, in ascending order; the unvisited count falls by the number pushed |
| Clusters.DfsStep | task3/main.py:82-88 | one pop-and-push keeps the walk's invariant and strictly decreases the (unvisited, stack size) measure |
| Clusters.ExpandFrom | task3/main.py:78-88 | the cluster starts at the seed, repeats no index, holds only indices not visited before, and the visited marks afterwards are the old ones plus the cluster; for an equivalence with a visited set closed under it, the cluster is exactly the seed's class |
| Clusters.ExtractClusters | task3/main.py:73-90 | the clusters are nonempty and pairwise disjoint, every index lies in one of them, each starts with its smallest index and those seeds ascend; for an equivalence each cluster is a class |
| Lists.FlatPermutes | task3/main.py:104-109 | concatenating a permutation of a list of lists gives a permutation of the objects |
| Lists.PermutationOfRange | task3/main.py:73-90 | indices below n, without repeats and holding every index, form a permutation of 0..n-1 |
| Consensus.Gather | task3/main.py:84 | the gathered cluster has one object per index, the object at that index |
| Consensus.ValueClusters | task3/main.py:84-90 | each cluster of objects is ascending and is a permutation of the objects at the cluster's indices |
| Consensus.ValueClustersPermute | task3/tests/test_integration.py:79-97 | the object clusters laid end to end are a permutation of the object list: nothing lost, nothing duplicated |
| Consensus.ClusterPosition | task3/main.py:92-98 | the position is at most the ranking's length; below it, no slot holds a cluster object; at it (when not the length), a slot does hold one |
| Consensus.ClusterPositionBounds | task3/main.py:92-98 | when some cluster object occurs in the ranking, the position is at most that object's slot, and so below the length |
| Consensus.ClusterPositionAbsent | task3/main.py:98 | the position equals the ranking's length exactly when no cluster object occurs in the ranking |
| Consensus.Order | task3/main.py:100-102 | the sorted clusters are a permutation of the clusters, ascending by the summed positions, and clusters with equal keys keep their relative order (stability) |
| Consensus.OrderKeepsLeads | task3/main.py:100-102 | when the clusters arrive with ascending smallest objects, clusters with equal keys stay in that order after the sort |
| Consensus.Shape | task3/main.py:106-109 | a cluster is emitted bare exactly when it has one object, and the slot's objects are the cluster's |
| Consensus.Render | task3/main.py:104-109 | one output slot per cluster, in the clusters' order, each bare exactly when its cluster has one object |
| Consensus.ConcatRender | task3/main.py:104-109 | the emitted ranking's slot contents laid end to end are the clusters laid end to end |
| Consensus.ClusterIsClass | task3/main.py:73-90 | an object cluster holds exactly the objects related by the closed relation to any one of its members |
| Consensus.AssembleShape | task3/main.py:100-109 | the output slots are nonempty and ascending, bare exactly when they hold one object, ordered by key, and together a permutation of the object list |
| Consensus.AssembleTies | task3/main.py:100-102 | output slots with equal keys come in ascending order of their smallest object |
| Consensus.Cluster | task3/main.py:64-90 | the closed relation is exactly reachability in `E`, and the clusters partition the object indices into its classes |
| Consensus.TiedOrCoreLinked | task3/main.py:57-71 | objects tied in both rankings, and the two objects of a core pair, are linked by the closure |
| Consensus.AssembleLinked | task3/main.py:66-109 | an output slot holding x holds exactly the objects linked to x through `E` |
| Pipeline.Reconcile | task3/main.py:34-114 | the core is exactly the pairs ordered alike by both rankings; the output holds exactly the objects of `a`; its slots are well shaped, ordered by key with ties by smallest object, and are the classes of the closure; tied and core pairs share a slot; plus the empty, one-object, identical and reversed cases below |
| Pipeline.CoreIff | task3/main.py:50-55 | the computed core is exactly the pairs of `a`'s objects, smaller first, that both rankings order alike |
| Pipeline.AssembleSound | task3/main.py:66-109 | the assembled output satisfies every output property `Reconcile` promises |
| Pipeline.SharedSlot | task3/main.py:57-71 | when the output's slots are the classes of the closure, each tied pair and each core pair sits in one slot |
| Pipeline.EmptyCase | task3/tests/test_main.py:241-249 | empty rankings give an empty core and an empty output |
| Pipeline.SingleCase | task3/tests/test_main.py:251-259 | a one-object ranking gives an empty core and that object emitted bare |
| Pipeline.IdenticalCase | task3/tests/test_main.py:78-91 | identical nonempty rankings of single objects give one slot holding every object |
| Pipeline.ReversedCase | task3/tests/test_main.py:93-112 | a ranking of single objects against its reversal gives an empty core and every object alone, in ascending order |
| Scenarios.IdenticalTolerance | task3/tests/test_main.py:78-91 | with identical strict rankings, `E` is full |
| Scenarios.ReversedTolerance | task3/tests/test_main.py:93-112 | with a strict ranking against its reversal, `E` is the identity |
| Scenarios.ReversedClosureDiagonal | task3/tests/test_main.py:93-112 | with a strict ranking against its reversal, the closure relates only each index to itself |
| Scenarios.FullRelationOneCluster | task3/tests/test_main.py:325-336 | a full relation over a nonempty index set yields exactly one cluster |
| Scenarios.IdentityRelationSingletons | task3/tests/test_integration.py:79-97 | the identity relation yields only singleton clusters |
| Scenarios.IdenticalOutput | task3/tests/test_main.py:78-91 | two identical nonempty rankings of single objects give one slot holding every object |
| Scenarios.OneClusterOutput | task3/tests/test_main.py:325-336 | when everything is linked, the output is one slot holding every object in ascending order |
| Scenarios.SingleObjectOutput | task3/tests/test_main.py:251-259 | one object is emitted bare |
| Scenarios.ReversedOutput | task3/tests/test_integration.py:79-97 | a strict ranking against its reversal gives one bare slot per object, in object order, so no object repeats |
| Scenarios.ReversedAscending | task3/tests/test_main.py:93-112 | with all singletons against the reversal, the output objects ascend |
| Scenarios.ReversedKey | task3/main.py:100-102 | against its reversal, every single object of a strict ranking has the same summed key, the length minus one |
| Tree.Neighbours | task1/task1.py:50-54 | a node's undirected neighbour list holds exactly the nodes sharing an edge with it |
| Tree.AllNodes | task1/task1.py:51-55 | the node set is exactly the endpoints of the edges |
| Tree.Others | task1/task1.py:72 | the other nodes are strictly ascending and are exactly the endpoints other than the root |
| Tree.NodeOrder | task1/task1.py:72-73 | the node list starts with the root, continues strictly ascending, repeats nothing, and holds exactly the root and the endpoints |
| Tree.BuildTree | task1/task1.py:40-74 | fails exactly when the root is not an endpoint (in particular with no edges); otherwise returns the node list above and the breadth-first tree that `Tree.Orient` describes |
| Tree.Orient | task1/task1.py:61-70 | the result is the breadth-first tree: every reachable node other than the root is listed once as a child, each child list is nonempty, follows the parent's neighbour order and hangs from a reachable parent along an input edge, the tree has no cycle, and there is a discovery order (the root, then the child lists in that order) in which each child's parent is the first node found adjacent to it |
| TreeUnique.AdoptableIfAdopted | task1/task1.py:64-70 | a child of the i-th node found is adjacent to it, reachable, not the root, and adjacent to no node found earlier |
| TreeUnique.AdoptedIfAdoptable | task1/task1.py:64-70 | conversely, a reachable node other than the root that is adjacent to the i-th node found and to no earlier one is that node's child |
| TreeUnique.OrientedUnique | task1/task1.py:60-70 | two children maps that both meet `Tree.Orient`'s contract for the same edges and root are equal, so that contract fixes the breadth-first tree completely |
| TreeUnique.RootAdoptsNeighbours | task1/task1.py:65-70 | every neighbour of the root, other than the root itself, becomes the root's child |
| TreeUnique.Triangle | task1/task1.py:60-70 | for the edges (1, 2), (1, 3), (2, 3) and root 1 the only tree meeting the contract is {1: [2, 3]} |
| Tree.Visit | task1/task1.py:66-70 | an unvisited neighbour is marked, queued and appended to its parent's children; a visited one changes nothing |
| Tree.AllReached | task1/task1.py:64-70 | when the queue runs empty, every node reachable from the root has been visited |
| Tree.AddChild | task1/task1.py:69 | appending a child changes only the parent's list, which gains the child at its end |
| TreeMatrices.Last | task1/task1.py:93 | a node's index is its LAST position in the node list, as the dict comprehension keeps the last assignment |
| TreeMatrices.Adjacency | task1/task1.py:95-99 | an n×n matrix whose cell (i, j) is set exactly when node j is a child of node i (at the positions the index map uses) |
| TreeMatrices.Explore | task1/task1.py:115-120 | the stack walk from one node sets, in that node's row, exactly the cells of its descendants, and changes nothing else |
| TreeMatrices.Descendants | task1/task1.py:107-120 | `r3[i][j]` is set exactly when node j is a descendant of node i at depth at least one; the leaf shortcut at line 112 skips only rows that would stay empty |
| TreeMatrices.SiblingMatrix | task1/task1.py:125-133 | `r5[i][j]` is set exactly when nodes i and j stand at two different places of one child list |
| TreeMatrices.BuildMatrices | task1/task1.py:77-135 | fails (the missing key) exactly when some parent or child is not in the node list; otherwise `A` is the child relation, `r1 = A`, `r2` its transpose, `r3` the descendants, `r4` its transpose and `r5` the siblings, all n×n |
| TreeMatrices.DescendantsCoverChildren | task1/task1.py:107-120 | `r3` contains `r1` |
| TreeMatrices.DescendantsTransitive | task1/task1.py:107-120 | `r3` is transitive |
| TreeMatrices.DescendantsIrreflexive | task1/task1.py:107-120 | on a tree without cycles, `r3` has a zero diagonal |
| TreeMatrices.DescendantsAreClosure | task1/task1.py:107-120 | `r3[i][j]` is set exactly when j is reachable from i along `r1` |
| TreeMatrices.SiblingsSymmetric | task1/task1.py:132-133 | `r5` is symmetric |
| TreeMatrices.SiblingsIrreflexive | task1/task1.py:128-133 | when no node is listed twice as a child, `r5` has a zero diagonal |
| TreeMatrices.SiblingsShareParent | task1/task1.py:126-133 | when no node is listed twice as a child, `r5[i][j]` is set exactly when i ≠ j and some node is the parent of both in `A` |
| Hierarchy.OrientedRooted | task1/task1.py:61-70 | an oriented tree hangs from the root, has no cycle, and lists each child once |
| Hierarchy.BelowRoot | task1/task1.py:107-120 | below the root lie exactly the nodes that are children |
| Hierarchy.OrientedShape | task1/task1.py:92-133 | over an oriented tree the root's column of `r1` is empty; every other node has a superior exactly when it is reachable, and at most one; row 0 of `r3` marks exactly the reachable nodes |
| Hierarchy.Analyse | task1/task1.py:138-143 | finds the root exactly when it is an endpoint; then returns the node list and the breadth-first tree, and matrices with the shape above, where `r3` is the transitive, irreflexive closure of `r1` and `r5` is symmetric and irreflexive |

## Left out

- Parsing: the JSON decoding in `find_core_and_consistent_ranking` (task3/main.py:37-38) is not modelled. Rankings are given as `seq<Slot>`, with objects as `int`s instead of arbitrary JSON scalars such as strings.
- `read_edges_from_csv` (task1/task1.py:18-37) reads a file. Edges are a parameter, and node names are `int`s instead of strings.
- The `__main__` demos (task3/main.py:116-126, task1/task1.py:146-166) only print.
- `task2/task2.py` is not part of this model. It computes a floating-point entropy from a CSV file.
- numpy arrays become `seq<seq<bool>>`, and the 0/1 integers become booleans.
- Consensus.Key: the sort key drops the division by 2 of task3/main.py:102. Halving both sides does not change any comparison, so the order is the same.
- Sorting.Sort and Sorting.StableSortByKey: Python's Timsort is modelled by insertion sort. The contracts determine the result uniquely: an ascending permutation, and for the keyed sort a key-ascending permutation that keeps each key's elements in input order.
- Pipeline.Reconcile: requires that every object of `a` occurs in `b` (`Covers`). Without it, the source raises `KeyError` at task3/main.py:30. Objects only in `b` are ignored, as in the source.
- TreeMatrices.BuildMatrices: requires a tree without cycles (`Acyclic`) whenever every parent and child is in the node list. On such a cyclic child map the source's stack walk at task1/task1.py:116-120 does not terminate. A child map with a node missing from the list raises `KeyError` in the first loop (task1/task1.py:97-99), before the walk, and is accepted cyclic or not. Trees from `build_tree` are always acyclic (`Hierarchy.OrientedRooted`).
- TreeMatrices.BuildMatrices: the two loops over `tree.items()` (task1/task1.py:97, 127) visit the parents in node-list order, not in dict insertion order. The matrices they set do not depend on the order.
- `ValueError` in `build_tree` becomes the `RootMissing` result. The `KeyError` of `idx[...]` in `build_matrices` becomes the `MissingNode` result.
- The `defaultdict` behaviour of `tree` is modelled by `Kids`, which gives `[]` for a node with no entry. Entries the walk never creates are never read.
- Duplicate objects in a ranking are allowed, as in the source. `flatten_ranking` keeps them, positions take the last slot, and `objects.index` takes the first copy. The end-to-end properties speak of occurrence, which holds either way.
