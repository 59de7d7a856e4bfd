# Five small graph, tree and streaming programs, modelled in Dafny

This project models the algorithmic core of five Java programs from a
collection of data-structure exercises, as pure Dafny functions and methods
over immutable values, and proves what each program promises.

- **Closeness centrality** (`vertex-centrality/ClosenessCentrality.java`):
  a directed weighted graph, an adaptable priority queue that groups entries
  in per-key FIFO buckets and caches the minimum key, Dijkstra's algorithm
  from every vertex, the sum of reciprocal distances per target, and the
  choice of the most central vertex (highest centrality, then lowest id).
  Modules `AdaptableQueue`, `WeightedGraph`, `ShortestPaths` and `Centrality`.
- **Even-subtree pruning** (`binary-tree-deletion/EvenSubtreePruner.java`):
  `isAllEven` and `deleteTree` (module `EvenSubtree`), the level-order
  `buildTree` walk (module `TreeBuild`, on an arena of cells), and
  `printTreeLevelOrder` (module `TreePrint`, as a token sequence).
- **Kahn's feasibility check** (`topological-sorting/KahnTopologicalCheck.java`):
  the course graph with its in-degree counters, `addPrerequisite`, and
  `isCompletionPossible` (module `KahnCheck`).
- **Streaming maximum index** (`max-value-tracker/MaxValueTracker.java` and
  `max-value-streaming/ArrayMaxTracker.java`): an array updated one slot at a
  time, a priority queue of (index, value) entries with lazy removal of stale
  entries, and the printed index of the maximum (modules `MaxValueTracker`
  and `ArrayMaxTracker`).

The Dafny modules follow the Java classes. `AdaptableQueue` is
`HeapAdaptablePriorityQueue`. `WeightedGraph` is `Graph`'s constructor,
`addEdge`, `Vertex` and `Edge`. `ShortestPaths` is `Graph.dijkstra`.
`Centrality` is `getMostInfluentialVertex` and `Vertex.compareTo`. All four
come from the one file `ClosenessCentrality.java`. The other programs get one
module per routine group, as listed above.

Shared definitions live in `Wrappers`: `Option`, `Result` with the Java
exceptions the callers can observe, `Distinct` and `Integer.compare`.

Modelling choices:

- Object graphs become values. A queue handle is the vertex id. The queue is a
  map from key to bucket, plus a list of the keys present in the order a scan
  of the hash map meets them. A graph is one association list of `(to, weight)`
  edges per vertex. A tree is an algebraic datatype. `buildTree` builds an
  arena of cells that refer to their children by position.
- Java's `Integer.MAX_VALUE` distance sentinel is kept as `INF`. Distances are
  unbounded integers.
- Centrality scores are exact reals, plus the two IEEE values that can arise:
  positive infinity, when a distance is 0, and NaN. Addition, the `(n - 1)`
  scaling and `Double.compare`'s total order are written out on them.
- Every operation that throws in Java returns a `Result`. The error names the
  exception:
  - `NegativeArraySize` for `new int[size]` with a negative size;
  - `IllegalArgument` for `new ArrayList<>(size)` with a negative size;
  - `IndexOutOfBounds` for `List.get` or an array store with a bad index, and
    for `vertices.get(0)` on an empty graph.
- The Dijkstra routine has no precondition on weights. What it always
  guarantees (source at 0, every distance witnessed by a walk) holds for all
  weights. Shortest-path correctness is stated under `NonNegative(g)`.
- `isCompletionPossible` is specified for every state that the constructor and
  `addPrerequisite` can reach (`Consistent`: each counter equals the number of
  listed edges into its course). It is not specified for arbitrary counters.
  `AddAllCounts` and `FreshCounts` prove that those operations keep the state
  consistent.
- The set of array indices that have a queue entry is a ghost parameter of the
  trackers' update step. It holds index 0 and every index written so far.

Two behaviours of the code that a reader might not expect, modelled as written:

- `addEdge` does not reject negative weights.
- An empty graph makes `getMostInfluentialVertex` throw rather than return a
  sentinel.

## Model

| member | source | states |
|---|---|---|
| Wrappers.IntCompare | max-value-tracker/MaxValueTracker.java:26-28 | `Integer.compare` is zero exactly on equal ints, negative exactly when the first is smaller, and always -1, 0 or 1 |
| AdaptableQueue.Empty | vertex-centrality/ClosenessCentrality.java:74-75 | a new queue is valid and holds no entry |
| AdaptableQueue.ScanMin | vertex-centrality/ClosenessCentrality.java:116-123 | the scan's result is absent only for no keys and no seed, is one of the keys or the seed, and is at most every key and the seed |
| AdaptableQueue.RecalculateMinKey | vertex-centrality/ClosenessCentrality.java:116-123 | a full scan yields the least key present, or none when the map is empty |
| AdaptableQueue.IsEmpty | vertex-centrality/ClosenessCentrality.java:86-88 | an empty bucket map means that no entry is left in the queue |
| AdaptableQueue.EmptyIffNoKeys | vertex-centrality/ClosenessCentrality.java:86-88 | in a valid queue, no key, no cached minimum and no entry are the same condition, and every entry's key is listed |
| AdaptableQueue.Insert | vertex-centrality/ClosenessCentrality.java:77-84 | the new entry joins the back of its key's bucket, other buckets are untouched, and the queue stays valid (the cached minimum is the least key) |
| AdaptableQueue.InsertValid | vertex-centrality/ClosenessCentrality.java:77-84 | `computeIfAbsent` plus `add` plus the minimum update keeps the representation invariant |
| AdaptableQueue.InsertHandles | vertex-centrality/ClosenessCentrality.java:79 | after appending a fresh handle, every handle sits in exactly the bucket of its key |
| AdaptableQueue.RemoveFirst | vertex-centrality/ClosenessCentrality.java:104 | `Queue.remove(Object)` drops one occurrence when present, keeps every other element, and keeps a duplicate-free list duplicate-free |
| AdaptableQueue.RemoveMin | vertex-centrality/ClosenessCentrality.java:90-99 | an empty queue yields nothing and is unchanged; otherwise the head of the least key's bucket leaves with that key, nothing else changes, and the queue stays valid |
| AdaptableQueue.MinKeyIsLeast | vertex-centrality/ClosenessCentrality.java:90-92 | the cached minimum names a present bucket, and no entry has a smaller key |
| AdaptableQueue.PollIsDetach | vertex-centrality/ClosenessCentrality.java:92-97 | polling the minimum bucket's head is the same as detaching that handle |
| AdaptableQueue.Detach | vertex-centrality/ClosenessCentrality.java:102-108 | the handle leaves its bucket, other buckets are untouched, and the minimum is recomputed when its bucket was dropped |
| AdaptableQueue.DetachValid | vertex-centrality/ClosenessCentrality.java:102-108 | removing one entry, dropping an emptied bucket and recomputing the minimum keeps the invariant |
| AdaptableQueue.DropBucketValid | vertex-centrality/ClosenessCentrality.java:105-108 | dropping the emptied bucket and its key keeps the invariant |
| AdaptableQueue.DropBucketHandles | vertex-centrality/ClosenessCentrality.java:105-106 | after the drop, every remaining handle is in exactly the bucket of its key |
| AdaptableQueue.DropBucketKeys | vertex-centrality/ClosenessCentrality.java:106-107 | after the drop, the key list matches the map and the recomputed minimum is the least key |
| AdaptableQueue.ShrinkBucketValid | vertex-centrality/ClosenessCentrality.java:103-104 | removing an entry from a bucket that stays non-empty keeps the invariant without touching the minimum |
| AdaptableQueue.ReplaceKey | vertex-centrality/ClosenessCentrality.java:101-114 | the entry moves to the back of the new key's bucket, the old bucket only loses it, the entry count and other keys are unchanged, and the queue stays valid |
| AdaptableQueue.ReplaceThenRemoveMin | vertex-centrality/ClosenessCentrality.java:101-114 | after lowering a key below all others, the next `removeMin` returns that entry with its new key, never a stale minimum |
| WeightedGraph.IndexOf | vertex-centrality/ClosenessCentrality.java:140 | the position of a target's edge exists exactly when some edge ends there, and it is the first such position |
| WeightedGraph.Lookup | vertex-centrality/ClosenessCentrality.java:140 | `outgoing.get(to)` is absent exactly when no edge ends there, and with distinct targets it is that edge's weight |
| WeightedGraph.NewGraph | vertex-centrality/ClosenessCentrality.java:130-135 | a negative size fails; otherwise there are that many vertices, well formed, without edges |
| WeightedGraph.Put | vertex-centrality/ClosenessCentrality.java:140 | `HashMap.put` maps the target to the new weight, leaves every other target's weight alone, and keeps targets distinct |
| WeightedGraph.LookupAppend | vertex-centrality/ClosenessCentrality.java:140 | appending an edge adds its target's weight only if the target was absent |
| WeightedGraph.IndexOfAppend | vertex-centrality/ClosenessCentrality.java:140 | appending an edge keeps existing positions and places a new target last |
| WeightedGraph.LookupUpdate | vertex-centrality/ClosenessCentrality.java:140 | overwriting an edge's weight in place changes only that target's weight |
| WeightedGraph.IndexOfUpdate | vertex-centrality/ClosenessCentrality.java:140 | overwriting a weight in place moves no position |
| WeightedGraph.AddEdge | vertex-centrality/ClosenessCentrality.java:137-141 | an id outside the vertex list fails; otherwise the source maps the target to the new weight (last write wins) and nothing else changes |
| WeightedGraph.Extend | vertex-centrality/ClosenessCentrality.java:164-173 | a walk extended by an existing edge is a walk, heavier by that edge's weight |
| WeightedGraph.Split | vertex-centrality/ClosenessCentrality.java:164-173 | a walk of two or more vertices is a shorter walk plus its last edge |
| WeightedGraph.WeightNonNegative | vertex-centrality/ClosenessCentrality.java:167 | with non-negative weights, no walk weighs less than zero |
| WeightedGraph.DistanceMapUnique | vertex-centrality/ClosenessCentrality.java:144-178 | there is exactly one shortest-distance map per source |
| WeightedGraph.ShortestAgrees | vertex-centrality/ClosenessCentrality.java:144-178 | two shortest-distance maps agree on every vertex of the first |
| ShortestPaths.Frontier | vertex-centrality/ClosenessCentrality.java:156-175 | with non-negative weights, every walk to a still-queued vertex weighs at least the least queued key |
| ShortestPaths.Visit | vertex-centrality/ClosenessCentrality.java:157-162 | marking the least-key vertex visited keeps the partition, the witnesses and (for non-negative weights) the lower bounds |
| ShortestPaths.Keep | vertex-centrality/ClosenessCentrality.java:164-173 | an edge into a visited vertex, or into one already keyed low enough, counts as relaxed without any change |
| ShortestPaths.Lower | vertex-centrality/ClosenessCentrality.java:167-171 | lowering a target's key to the cost through `u` keeps every key witnessed by a walk of that weight |
| ShortestPaths.LowerRelaxes | vertex-centrality/ClosenessCentrality.java:167-171 | the lowered key relaxes that edge and keeps every earlier edge relaxed |
| ShortestPaths.CutOff | vertex-centrality/ClosenessCentrality.java:160 | when the least key is `INF`, every unvisited vertex is unreachable below `INF`, so the early `break` loses nothing |
| ShortestPaths.Seed | vertex-centrality/ClosenessCentrality.java:149-154 | after seeding, every vertex is queued, the source with key 0 and every other vertex with `INF` |
| ShortestPaths.SeedStep | vertex-centrality/ClosenessCentrality.java:149-153 | one seeding step queues the next vertex with its key |
| ShortestPaths.RelaxEdges | vertex-centrality/ClosenessCentrality.java:164-174 | after the inner loop every edge out of a visited vertex is relaxed, keys stay witnessed, and no vertex enters or leaves the queue |
| ShortestPaths.RelaxOne | vertex-centrality/ClosenessCentrality.java:165-173 | one edge is relaxed with `replaceKey` only when the cost through `u` is smaller, and the invariant is kept |
| ShortestPaths.PopMin | vertex-centrality/ClosenessCentrality.java:157-159 | `removeMin` yields a vertex of least key and leaves the others queued |
| ShortestPaths.Initial | vertex-centrality/ClosenessCentrality.java:149-154 | the seeded queue with nothing visited satisfies the main loop's invariant |
| ShortestPaths.SourceFirst | vertex-centrality/ClosenessCentrality.java:156-162 | the first vertex visited is the source, at distance 0 |
| ShortestPaths.Step | vertex-centrality/ClosenessCentrality.java:157-174 | one pass keeps the invariant, and it either stops at an `INF` minimum or shrinks the queue |
| ShortestPaths.Advance | vertex-centrality/ClosenessCentrality.java:162-174 | visiting the removed vertex and relaxing its edges keeps the invariant |
| ShortestPaths.Finish | vertex-centrality/ClosenessCentrality.java:156-177 | when the loop ends, the visited map holds the source at 0 and witnessed distances, and it is the shortest-distance map when weights are non-negative |
| ShortestPaths.Dijkstra | vertex-centrality/ClosenessCentrality.java:144-178 | for any weights, the source maps to 0 and every visited distance below `INF` is the weight of some walk; with non-negative weights, the result holds exactly the vertices reachable below `INF`, each with its shortest distance |
| ShortestPaths.Conclude | vertex-centrality/ClosenessCentrality.java:175-177 | witnesses plus lower bounds plus the cut-off make the visited map the distance map |
| ShortestPaths.Reached | vertex-centrality/ClosenessCentrality.java:162 | each visited vertex has a walk of its recorded weight |
| ShortestPaths.Settled | vertex-centrality/ClosenessCentrality.java:156-175 | a witnessed distance that no walk undercuts is the shortest distance |
| Centrality.Scores | vertex-centrality/ClosenessCentrality.java:196-198 | there is one score per vertex, its reciprocal-distance sum scaled by `n - 1` |
| Centrality.DoubleCompare | vertex-centrality/ClosenessCentrality.java:32 | `Double.compare` is zero exactly on equal values and orders finite values below infinity below NaN, antisymmetrically |
| Centrality.VertexCompareTotal | vertex-centrality/ClosenessCentrality.java:31-34 | `Vertex.compareTo` is antisymmetric and transitive, and ties only on equal (centrality, id) |
| Centrality.BestUnique | vertex-centrality/ClosenessCentrality.java:196-204 | only one vertex has the highest centrality with the smallest id among its ties |
| Centrality.SelectBest | vertex-centrality/ClosenessCentrality.java:196-204 | the selection loop ends on the vertex of highest centrality, lowest id among ties |
| Centrality.AddRun | vertex-centrality/ClosenessCentrality.java:187-193 | each target's sum gains `1/d` for a finite distance from another source, and nothing otherwise |
| Centrality.PlusZero | vertex-centrality/ClosenessCentrality.java:183 | the zero-initialised sums are the identity of addition |
| Centrality.MostInfluentialVertex | vertex-centrality/ClosenessCentrality.java:181-205 | an empty graph fails; otherwise the chosen id ranks first and no score is NaN. The scores are those of the runs it made. With non-negative weights those runs are the shortest-distance tables, no score is negative, and every complete set of tables gives the same scores |
| Centrality.CentralitySums | vertex-centrality/ClosenessCentrality.java:185-194 | one run per source, each the source's distance map for non-negative weights, and each sum adds every run's contribution |
| Centrality.TablesStep | vertex-centrality/ClosenessCentrality.java:185-186 | appending the next source's run keeps every run its source's distance map |
| Centrality.SumsStep | vertex-centrality/ClosenessCentrality.java:187-193 | adding the next run's contributions extends every sum by that run |
| Centrality.SameRuns | vertex-centrality/ClosenessCentrality.java:185-186 | any two complete sets of distance tables are equal, so the scores do not depend on the run |
| Centrality.SumNotNaN | vertex-centrality/ClosenessCentrality.java:190-191 | a sum of reciprocal distances is never NaN |
| Centrality.NeverNaN | vertex-centrality/ClosenessCentrality.java:198 | scaling by `n - 1` never gives NaN: a one-vertex graph has no other-source contribution, so infinity is never multiplied by 0 |
| Centrality.UnreachedScoresZero | vertex-centrality/ClosenessCentrality.java:190-191 | a vertex that no other vertex reaches below `INF` scores 0 |
| Centrality.ScoreZeroIff | vertex-centrality/ClosenessCentrality.java:185-198 | with non-negative weights a score is never negative, and it is 0 exactly when no other vertex reaches the vertex below `INF` |
| Centrality.ScoresNonNegative | vertex-centrality/ClosenessCentrality.java:185-198 | with non-negative weights no score is NaN or below zero |
| Centrality.ReachedScoresPositive | vertex-centrality/ClosenessCentrality.java:185-198 | with non-negative weights, a vertex that another vertex reaches below `INF` scores above zero or infinity |
| Centrality.ScaleNonNeg | vertex-centrality/ClosenessCentrality.java:198 | multiplying a sum that is zero or more by `n - 1` gives zero or more, unless it gives NaN |
| Centrality.ScalePositive | vertex-centrality/ClosenessCentrality.java:198 | multiplying a positive sum by `n - 1 >= 1` keeps it positive |
| Centrality.ContribNonNeg | vertex-centrality/ClosenessCentrality.java:190-191 | with non-negative weights each run adds zero or more |
| Centrality.ContribPositive | vertex-centrality/ClosenessCentrality.java:190-191 | a run from another source that reaches the target adds `1/d > 0`, or infinity when `d` is 0 |
| Centrality.DistanceNonNeg | vertex-centrality/ClosenessCentrality.java:189 | with non-negative weights every recorded distance lies in `[0, INF)` |
| Centrality.SumNonNeg | vertex-centrality/ClosenessCentrality.java:185-194 | every prefix of a sum is zero or more |
| Centrality.SumPositive | vertex-centrality/ClosenessCentrality.java:185-194 | a prefix of a sum that includes a reaching source's run is positive |
| Centrality.UnreachedSumZero | vertex-centrality/ClosenessCentrality.java:185-194 | the sum of such a vertex stays 0 over every prefix of the runs |
| Centrality.NotReached | vertex-centrality/ClosenessCentrality.java:190 | an unreachable vertex is absent from the distance map |
| EvenSubtree.DeleteTree | binary-tree-deletion/EvenSubtreePruner.java:39-46 | the result is empty exactly when the input is all even, and the result holds no all-even subtree |
| EvenSubtree.AllEvenIffNoOdd | binary-tree-deletion/EvenSubtreePruner.java:30-34 | `isAllEven` holds exactly when no path leads to an odd value |
| EvenSubtree.AllEvenBelow | binary-tree-deletion/EvenSubtreePruner.java:30-34 | every subtree of an all-even tree is all even |
| EvenSubtree.DeleteTreeAt | binary-tree-deletion/EvenSubtreePruner.java:39-46 | the node at a path survives, with its value, exactly when its subtree holds an odd value; nothing new appears |
| EvenSubtree.OddSurvives | binary-tree-deletion/EvenSubtreePruner.java:39-46 | every odd value stays at its path |
| EvenSubtree.PrunedFixed | binary-tree-deletion/EvenSubtreePruner.java:39-46 | a tree with nothing to prune comes back unchanged |
| EvenSubtree.DeleteTreeIdempotent | binary-tree-deletion/EvenSubtreePruner.java:39-46 | pruning twice is the same as pruning once |
| TreeBuild.BuildArena | binary-tree-deletion/EvenSubtreePruner.java:78-103 | node `k` gets its children from entries `2k+1` and `2k+2` (null means missing), each non-null entry read becomes the node numbered by the non-null entries before it, and children follow their parents |
| TreeBuild.Finished | binary-tree-deletion/EvenSubtreePruner.java:83 | when the queue empties or the input runs out, every node's children are settled |
| TreeBuild.Attach | binary-tree-deletion/EvenSubtreePruner.java:86-102 | reading one child entry settles that child and queues a new node exactly when the entry is non-null |
| TreeBuild.Skipped | binary-tree-deletion/EvenSubtreePruner.java:87-93 | a null entry, or an exhausted input, settles the child as missing |
| TreeBuild.Grown | binary-tree-deletion/EvenSubtreePruner.java:89-92 | a non-null entry becomes the next node, linked as the child |
| TreeBuild.ValuesAfter | binary-tree-deletion/EvenSubtreePruner.java:90 | the new node holds its entry's value and no earlier value moves |
| TreeBuild.LinkedAfter | binary-tree-deletion/EvenSubtreePruner.java:90-91 | linking the new last node keeps every child after its parent |
| TreeBuild.LeftsAfter | binary-tree-deletion/EvenSubtreePruner.java:86-93 | a left-child step settles at most the current node's left child |
| TreeBuild.RightsAfter | binary-tree-deletion/EvenSubtreePruner.java:95-102 | a right-child step settles at most the current node's right child |
| TreeBuild.BuildTree | binary-tree-deletion/EvenSubtreePruner.java:75-106 | an empty listing, or one starting with null, gives the empty tree. Otherwise the tree is read from an arena of at most `Count(a)` nodes, and node `k`'s children are the nodes that entries `2k+1` and `2k+2` became, missing for null. Each such node holds its entry's value. In particular the root holds entry 0, and its children hold entries 1 and 2 |
| TreePrint.LevelLength | binary-tree-deletion/EvenSubtreePruner.java:124-140 | level `k` prints `2^k` tokens |
| TreePrint.RenderLength | binary-tree-deletion/EvenSubtreePruner.java:111-144 | a tree of height `h` prints `2^h - 1` tokens |
| TreePrint.LevelsLength | binary-tree-deletion/EvenSubtreePruner.java:123-141 | the first `k` levels print `2^k - 1` tokens |
| TreePrint.Tokens | binary-tree-deletion/EvenSubtreePruner.java:128-133 | one token per polled entry: `null` for a missing node, the value otherwise |
| TreePrint.ExpandStep | binary-tree-deletion/EvenSubtreePruner.java:126-140 | polling one more entry queues its two children after those already queued |
| TreePrint.ExpandAppend | binary-tree-deletion/EvenSubtreePruner.java:126-140 | the next level of two concatenated levels is the concatenation of their next levels |
| TreePrint.ExpandNulls | binary-tree-deletion/EvenSubtreePruner.java:128-131 | `n` missing nodes queue `2n` missing nodes |
| TreePrint.FrontierNil | binary-tree-deletion/EvenSubtreePruner.java:128-131 | below an empty subtree every level holds only missing nodes, `2^k` of them |
| TreePrint.FrontierNode | binary-tree-deletion/EvenSubtreePruner.java:133-135 | a node's level `k+1` is its left subtree's level `k` followed by its right subtree's |
| TreePrint.FrontierTokens | binary-tree-deletion/EvenSubtreePruner.java:123-141 | the queue's tokens in round `k` are exactly level `k` of the tree, read from its shape |
| TreePrint.FrontierSplit | binary-tree-deletion/EvenSubtreePruner.java:133-135 | for `k > 0`, a node's queue in round `k` is its subtrees' queues in round `k - 1`, left then right |
| TreePrint.TokensAppend | binary-tree-deletion/EvenSubtreePruner.java:128-133 | printing two runs of entries prints their tokens one after the other |
| TreePrint.FrontierHasNode | binary-tree-deletion/EvenSubtreePruner.java:136-138 | round `k`'s queue holds a node exactly when the tree has more than `k` levels |
| TreePrint.PrintLevelOrder | binary-tree-deletion/EvenSubtreePruner.java:111-144 | the printed tokens are `null` for the empty tree, else every level down to the deepest, at full width with `null` for missing nodes |
| TreePrint.Round | binary-tree-deletion/EvenSubtreePruner.java:123-141 | one round adds a level to the output, leaves the next level queued, and continues exactly when a deeper level exists |
| TreePrint.PrintLevel | binary-tree-deletion/EvenSubtreePruner.java:124-140 | a round prints each polled entry, queues its two children, and sets `hasMore` exactly when the next level holds a node |
| TreePrint.LevelStep | binary-tree-deletion/EvenSubtreePruner.java:127-139 | each poll extends the output, the queue and `hasMore` by that entry's share |
| TreePrint.HasNodeAppend | binary-tree-deletion/EvenSubtreePruner.java:136-138 | two queued runs hold a node exactly when one of them does |
| KahnCheck.NewCourseGraph | topological-sorting/KahnTopologicalCheck.java:21-28 | a negative size fails; otherwise every list is empty, every counter zero, and the state consistent |
| KahnCheck.AddPrerequisite | topological-sorting/KahnTopologicalCheck.java:33-36 | a course number outside the graph fails; otherwise `course` joins the end of `prereq`'s list, its counter grows by one, and nothing else changes |
| KahnCheck.AddKeepsConsistent | topological-sorting/KahnTopologicalCheck.java:33-36 | each counter still equals the number of listed edges into its course |
| KahnCheck.AddAll | topological-sorting/KahnTopologicalCheck.java:77-82 | a run of `addPrerequisite` calls keeps the list and counter array lengths |
| KahnCheck.AddAllFails | topological-sorting/KahnTopologicalCheck.java:77-82 | the run fails exactly when some edge names a course outside the graph |
| KahnCheck.AddAllCounts | topological-sorting/KahnTopologicalCheck.java:77-82 | after a successful run each counter has grown by the edges into its course, duplicates included, each list gained its edges in order, and the state is consistent |
| KahnCheck.FreshCounts | topological-sorting/KahnTopologicalCheck.java:75-82 | on a fresh graph, each counter is the number of added edges into its course and each list is exactly its edges, in order |
| KahnCheck.NoEdges | topological-sorting/KahnTopologicalCheck.java:21-28 | with empty lists no edge comes into any course |
| KahnCheck.IncomingAppend | topological-sorting/KahnTopologicalCheck.java:34-35 | appending a course to a list adds one incoming edge to it, and to no other course |
| KahnCheck.IncomingVisit | topological-sorting/KahnTopologicalCheck.java:50-54 | visiting a course removes its outgoing edges from every count |
| KahnCheck.IncomingPositive | topological-sorting/KahnTopologicalCheck.java:53-55 | an edge from an unvisited course keeps the target's counter above zero |
| KahnCheck.PredOf | topological-sorting/KahnTopologicalCheck.java:53-55 | a positive counter has an unvisited prerequisite behind it |
| KahnCheck.CountTrue | topological-sorting/KahnTopologicalCheck.java:51 | the visited count never exceeds the number of courses |
| KahnCheck.CountTrueSet | topological-sorting/KahnTopologicalCheck.java:51 | visiting a new course adds one to the count |
| KahnCheck.CountTrueNone | topological-sorting/KahnTopologicalCheck.java:48 | the count starts at zero |
| KahnCheck.Unvisited | topological-sorting/KahnTopologicalCheck.java:61 | fewer visits than courses leaves an unvisited course |
| KahnCheck.Pigeonhole | topological-sorting/KahnTopologicalCheck.java:61 | a list of distinct courses is no longer than the number of courses |
| KahnCheck.Back | topological-sorting/KahnTopologicalCheck.java:49-59 | when every unvisited course has an unvisited prerequisite, a backward walk of any length stays among the unvisited courses |
| KahnCheck.StuckCycle | topological-sorting/KahnTopologicalCheck.java:49-61 | a walk that stops before visiting every course proves a cycle |
| KahnCheck.IndexOf | topological-sorting/KahnTopologicalCheck.java:50 | a course's position in the dequeue order is where it first occurs |
| KahnCheck.WalkRises | topological-sorting/KahnTopologicalCheck.java:49-59 | along any walk, positions in a topological order strictly rise |
| KahnCheck.OrderedAcyclic | topological-sorting/KahnTopologicalCheck.java:61 | a topological order of all courses rules out every cycle |
| KahnCheck.IsCompletionPossible | topological-sorting/KahnTopologicalCheck.java:42-62 | the answer is true exactly when the prerequisites form no cycle; a self-prerequisite makes it false, and no prerequisites make it true |
| KahnCheck.SelfLoop | topological-sorting/KahnTopologicalCheck.java:42-62 | a course that is its own prerequisite is a cycle |
| KahnCheck.NoEdgesAcyclic | topological-sorting/KahnTopologicalCheck.java:44-46 | without prerequisites there is no cycle |
| KahnCheck.Kahn | topological-sorting/KahnTopologicalCheck.java:42-61 | every course is dequeued at most once, after all its prerequisites, and the visited count equals the number of courses exactly when there is no cycle |
| KahnCheck.Ready | topological-sorting/KahnTopologicalCheck.java:44-46 | the seeding loop queues exactly the courses whose counter is zero, each once |
| KahnCheck.Dequeue | topological-sorting/KahnTopologicalCheck.java:50-51 | dequeuing a course visits it after all its prerequisites |
| KahnCheck.Release | topological-sorting/KahnTopologicalCheck.java:53-58 | after the inner loop each counter holds the edges from courses not yet dequeued, and a course is queued exactly when its counter reached zero |
| KahnCheck.ReleaseStep | topological-sorting/KahnTopologicalCheck.java:54-57 | one decrement releases one pending edge and queues its target if that was the last one |
| KahnCheck.PendingStep | topological-sorting/KahnTopologicalCheck.java:54 | a decrement releases the first pending edge, and the counter was positive before it |
| KahnCheck.ReadyStep | topological-sorting/KahnTopologicalCheck.java:55-57 | a counter that reaches zero queues a course that was neither visited nor queued |
| KahnCheck.Conclude | topological-sorting/KahnTopologicalCheck.java:49-61 | when the queue runs dry, every course was visited exactly when no cycle exists |
| KahnCheck.AllVisited | topological-sorting/KahnTopologicalCheck.java:61 | a visited count equal to the number of courses means every course was visited |
| MaxValueTracker.Compare | max-value-tracker/MaxValueTracker.java:25-31 | `compareTo` puts the larger value first and, among equal values, the smaller index; only equal entries tie |
| MaxValueTracker.CompareTotal | max-value-tracker/MaxValueTracker.java:25-31 | `compareTo` is a strict total order |
| MaxValueTracker.Top | max-value-tracker/MaxValueTracker.java:63 | `peek` returns a queued entry that no queued entry ranks before |
| MaxValueTracker.Poll | max-value-tracker/MaxValueTracker.java:64 | `poll` removes one copy of the top entry and keeps every other entry |
| MaxValueTracker.Init | max-value-tracker/MaxValueTracker.java:50-52 | a negative size fails; otherwise the array is all zeros and the queue holds the single entry (0, 0) |
| MaxValueTracker.InitValid | max-value-tracker/MaxValueTracker.java:50-52 | for a non-empty array, the initial state satisfies the update loop's invariant with index 0 tracked |
| MaxValueTracker.DropStale | max-value-tracker/MaxValueTracker.java:63-65 | the loop stops on a live top and keeps every live entry. The queue only shrinks, and every copy it loses is stale |
| MaxValueTracker.PollStale | max-value-tracker/MaxValueTracker.java:63-65 | polling a stale top keeps every live entry and every index in range, and every copy dropped so far is still stale |
| MaxValueTracker.Update | max-value-tracker/MaxValueTracker.java:59-67 | a bad index fails. Otherwise only the written slot changes, and the printed index is the live top's. The new queue is the old one plus `(i, v)`, less stale copies only. Under the invariant the printed index is the smallest tracked index holding the largest tracked value |
| MaxValueTracker.UpdateValid | max-value-tracker/MaxValueTracker.java:59-67 | an update keeps the invariant with the written index now tracked, and the live top is the tracked maximum |
| MaxValueTracker.StillCovered | max-value-tracker/MaxValueTracker.java:59-65 | after the update each tracked index still has its live entry queued |
| MaxValueTracker.StillConfined | max-value-tracker/MaxValueTracker.java:60-65 | every queued entry is still at a tracked index |
| MaxValueTracker.TopIsMax | max-value-tracker/MaxValueTracker.java:63-67 | a live top is the tracked maximum |
| MaxValueTracker.ZeroSlotsHidden | max-value-tracker/MaxValueTracker.java:50-52 | as written, writing -1 to slot 0 of a three-slot array prints 0, although the array's maximum 0 sits first at slot 1 |
| MaxValueTracker.InitAll | max-value-tracker/MaxValueTracker.java:50-52 | the corrected start queues a zero entry for every slot, so every index is tracked |
| MaxValueTracker.UpdateAll | max-value-tracker/MaxValueTracker.java:59-67 | from the corrected start, every update prints the smallest index holding the whole array's largest value |
| MaxValueTracker.TrackedMaxUnique | max-value-tracker/MaxValueTracker.java:4-8 | the maximum with its tie-break is unique |
| MaxValueTracker.PositiveMaxAgrees | max-value-tracker/MaxValueTracker.java:50-67 | when the tracked maximum is positive, the unwritten zero slots cannot beat it and the printed index is the whole array's |
| ArrayMaxTracker.CompareTo | max-value-streaming/ArrayMaxTracker.java:21-27 | this copy of `compareTo` orders entries exactly as the other tracker's does |
| ArrayMaxTracker.Update | max-value-streaming/ArrayMaxTracker.java:47-55 | a bad index fails. Otherwise only the written slot changes, and the printed index is the live top's. The new queue is the old one plus `(i, v)`, less stale copies only. Under the invariant the printed index is the tracked maximum |
| ArrayMaxTracker.SameAsMaxValueTracker | max-value-streaming/ArrayMaxTracker.java:38-55 | from the same state both trackers fail alike, and on success they leave the same array and print the same index |

## Left out

- Input parsing, `main`, the reader and writer, and the printed text: outputs are returned as values, so `printTreeLevelOrder` returns tokens rather than a spaced string.
- 32-bit overflow is not modelled: `dist + e.weight` in `dijkstra`, the in-degree counters and `visitedCount` are unbounded here. The `INF` sentinel is kept as a constant; a sum at or above it is treated like any other value.
- Floating-point rounding: centrality sums are exact reals. The comparison order on infinity and NaN follows `Double.compare`.
- Hash-map iteration order. Bucket keys are scanned in insertion order, and outgoing edges in insertion order with overwrites in place. With non-negative weights the distances and scores do not depend on these orders, because the distance map is unique (`WeightedGraph.DistanceMapUnique`).
- The `distance` and `parent` fields that `dijkstra` sets on vertices: no result is read from them.
- `PriorityQueue` internals: the heap is a bag (a sequence compared as a multiset) with `peek` and `poll` specified by the order. The two trackers' queues are not shown equal as sequences, only their printed index and array.
- Calling `isCompletionPossible` twice: Java decrements `inDegree` in place, so a second call on the same object sees spent counters. The model works on a copy of the counters and specifies one call per graph state.
- KahnCheck.AddPrerequisite: a `course` outside the graph with a valid `prereq` makes Java append to `prereq`'s list before the array store throws. The model fails without that partial change.
- KahnCheck.IsCompletionPossible: specified only for states the constructor and `addPrerequisite` can reach (`Consistent`), not for arbitrary counter arrays.
- MaxValueTracker.Update and ArrayMaxTracker.Update: the printed index is promised to be the maximum over the tracked indices only (index 0 and those written so far), because that is all either program guarantees (see Findings).
- AdaptableQueue.ReplaceKey: requires a handle that is still queued. Dijkstra never re-keys a polled vertex, because of the `visited` test at ClosenessCentrality.java:166. For a handle that `removeMin` has already polled, Java does one of two things. If the old key's bucket is gone, `oldBucket.remove(entry)` throws a NullPointerException (line 104). Otherwise `remove` returns false, and lines 108-109 put the polled entry back in the queue. Neither outcome is modelled.
- An array of size 0 in the trackers: every update fails with an index error, as the array store does; the lone `(0, 0)` entry is never inspected.

## Findings

| source | as written | input that shows it | evidently intended | confidence | as-written member | corrected member |
|---|---|---|---|---|---|---|
| max-value-tracker/MaxValueTracker.java:50-52 (same in max-value-streaming/ArrayMaxTracker.java:38-40) | only index 0 gets an initial entry, so never-written zero slots are invisible to the queue | `M = 3`, one update `0 -1`: prints `0` | prints `1`, the smallest index holding the maximum value 0 | not executed | MaxValueTracker.ZeroSlotsHidden | MaxValueTracker.UpdateAll |
