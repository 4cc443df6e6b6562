# Greedy longest path (Pongrácz heuristic), modelled in Dafny

The program reads an undirected, unweighted graph and looks for a long simple
path with L. L. Pongrácz's greedy heuristic. Every vertex is tried as a root:

1. `createAuxiliaryGraph` labels every vertex reachable from the root with its
   breadth-first distance and returns the first-discovered vertex with the
   greatest label, or -1 when the root discovers nothing.
2. `findLongPathFromRoot` starts at that farthest vertex and repeatedly moves
   to the first unused neighbour with the strictly greatest label, until no
   unused neighbour is left.
3. `findLongPathInRange` keeps the longest of these walks over a range of roots.
   It replaces its current path only with a strictly longer one.
4. `main` splits the roots into one range below 1000 vertices, or ten ranges of
   length n / 10 otherwise. It runs the ranges and writes the result with
   `writeGraphPath`.

The project has six modules:

- `Adjacency` (adjacency.dfy): the neighbour lists built from the edge list, as functions and lemmas.
- `Paths` (paths.dfy): simple paths and the greedy choice rule. It also defines the
  greedy walk as a predicate and proves that a greedy walk is a unique simple path.
- `Labelling` (labelling.dfy): what a breadth-first run leaves in the used flags
  and the distance labels. This is stated over snapshots of the arrays. It also
  holds `Bfs`, a reference definition of the discovery record that a
  first-in first-out queue produces.
- `LongestPath` (longest_path.dfy): the graph as a class with three arrays.
  It holds the imperative traversals, the range driver, the fold `Accumulate`
  that states what the driver keeps, and `Run`, the model of `main`.
- `Partition` (partition.dfy): the range arithmetic of `main`.
- `PathOutput` (path_output.dfy): the text `writeGraphPath` produces, plus a
  decoder that reads it back.

The `Vertex` records of the source are modelled as three arrays indexed by
vertex id: `adj`, `used` and `distance`.

## Model

| member | source | states |
|---|---|---|
| LongestPath.Graph.constructor | LongestPathProblem/LongestPathProblem.cpp:19-35 | the graph has n vertices, the list of each vertex is `Neighbours(edges, v)` (edges read in order, both directions), every entry is a vertex id, flags are false and labels 0 |
| Adjacency.NeighbourMultiplicity | LongestPathProblem/LongestPathProblem.cpp:27-34 | u occurs in the list of v exactly as often as lines (v, u) plus lines (u, v); a self-loop line stores v twice under v |
| Adjacency.SymmetricStorage | LongestPathProblem/LongestPathProblem.cpp:32-33 | u is listed under v exactly as often as v is listed under u |
| Adjacency.NeighbourIff | LongestPathProblem/LongestPathProblem.cpp:27-34 | u is a neighbour of v if and only if some input line joins them, in either order |
| Adjacency.OccurrencesPositive | LongestPathProblem/LongestPathProblem.cpp:27-31 | a pair is counted if and only if some input line holds it |
| Adjacency.NeighboursInRange | LongestPathProblem/LongestPathProblem.cpp:29-33 | with every id in [0, n), every stored neighbour is in [0, n) |
| LongestPath.Graph.ResetUsed | LongestPathProblem/LongestPathProblem.cpp:81-82 | every used flag is false afterwards |
| LongestPath.Graph.CreateAuxiliaryGraph | LongestPathProblem/LongestPathProblem.cpp:79-116 | the discovery order and discoverer positions are exactly `Bfs(adj, root)`: the record a first-in first-out queue gives when each dequeued vertex pushes its not yet used neighbours in list order. Root has label 0, each discovered vertex has its discoverer's label + 1, and the discovered set is closed under edges. Undiscovered vertices keep their old labels. The result is -1 if and only if nothing beyond root is discovered, if and only if root is isolated. Otherwise it is the first-discovered vertex with the greatest label; it is not root and has label at least 1 |
| LongestPath.Graph.Traverse | LongestPathProblem/LongestPathProblem.cpp:93-113 | popping and scanning until the queue is empty keeps the search state (labelling so far, queue = order from the head on, record on course to `Bfs(adj, root)`) |
| LongestPath.Graph.PopAndScan | LongestPathProblem/LongestPathProblem.cpp:95-112 | one round (take the front of the queue, scan its list) keeps that search state with the head one further |
| Labelling.SearchStart | LongestPathProblem/LongestPathProblem.cpp:84-91 | root alone marked, labelled 0 and queued is a valid start of the search, on course to `Bfs(adj, root)` |
| Labelling.SearchDone | LongestPathProblem/LongestPathProblem.cpp:93-115 | when the queue is empty the labelling is complete, the record equals `Bfs(adj, root)`, and the result is -1 exactly when root is isolated, the farthest vertex otherwise |
| Labelling.BfsExpand | LongestPathProblem/LongestPathProblem.cpp:98-112 | appending the fresh neighbours of the vertex at the head, each with the head's position as parent, is the reference definition's step, so the record stays on course |
| Labelling.QueuedDone | LongestPathProblem/LongestPathProblem.cpp:93 | once every queued position is expanded, the record is the reference record |
| Labelling.ChildrenFit | LongestPathProblem/LongestPathProblem.cpp:98-103 | appending the vertices one scan pushes keeps the order duplicate-free and within [0, n) |
| LongestPath.Graph.Discover | LongestPathProblem/LongestPathProblem.cpp:98-111 | a used neighbour changes nothing. An unused one is marked, appended to the queue and the record with label parent + 1, and replaces the farthest vertex only on a strictly larger label. No used flag is cleared |
| LongestPath.Graph.ScanNeighbours | LongestPathProblem/LongestPathProblem.cpp:95-112 | the record grows by exactly `Fresh(list, flags before)` (the not yet used entries of the dequeued vertex's list, each once, in list order), each with the dequeued position as parent. All its neighbours are then used, and the labelling, stale labels and farthest vertex are maintained |
| Labelling.FreshVertices | LongestPathProblem/LongestPathProblem.cpp:98-103 | the vertices one scan pushes are entries of the list that were not used, every entry is either used before or pushed, and none is pushed twice |
| Labelling.ScanStep | LongestPathProblem/LongestPathProblem.cpp:98-111 | handling one entry (nothing when used, pushed with parent pos otherwise) leaves what the rest of the list pushes equal to what the whole scan pushes |
| Labelling.ScanComplete | LongestPathProblem/LongestPathProblem.cpp:98-112 | after the whole list is scanned, every entry of it is used |
| Labelling.DiscoverLabelled | LongestPathProblem/LongestPathProblem.cpp:100-104 | a discovery keeps the record consistent (distinct, flags match, label = parent + 1) and keeps it within n vertices |
| Labelling.DiscoverExpanded | LongestPathProblem/LongestPathProblem.cpp:102-103 | a discovery keeps every already dequeued vertex fully expanded |
| Labelling.DiscoverFarthest | LongestPathProblem/LongestPathProblem.cpp:106-110 | the strict `<` update keeps the first-discovered vertex of greatest label |
| Labelling.Expand | LongestPathProblem/LongestPathProblem.cpp:98-112 | once all neighbours of the dequeued vertex are used, one more queue position is expanded |
| Labelling.LabellingResult | LongestPathProblem/LongestPathProblem.cpp:93-115 | when the queue is empty the record is a complete labelling. The result is -1 if and only if only root was discovered, if and only if root is isolated. Otherwise it is the farthest vertex |
| Labelling.FarthestIsMaximal | LongestPathProblem/LongestPathProblem.cpp:106-115 | the returned vertex is not root, has label at least 1, and no used vertex has a greater label |
| Labelling.ClosedUnderEdges | LongestPathProblem/LongestPathProblem.cpp:93-113 | after the run every neighbour of a used vertex is used |
| Labelling.NothingDiscoveredIffIsolated | LongestPathProblem/LongestPathProblem.cpp:90-115 | only root discovered if and only if root has no neighbour other than itself |
| Labelling.ReachableDiscovered | LongestPathProblem/LongestPathProblem.cpp:93-113 | every vertex on a walk from root is used |
| Labelling.DiscoveredReachable | LongestPathProblem/LongestPathProblem.cpp:103-104 | every discovered vertex is the end of a walk from root with exactly label + 1 vertices |
| LongestPath.Graph.FarthestUnusedNeighbour | LongestPathProblem/LongestPathProblem.cpp:139-148 | the result is -1 if and only if every neighbour is used; otherwise it is the first unused neighbour in list order with the strictly greatest label |
| LongestPath.Graph.FindLongPathFromRoot | LongestPathProblem/LongestPathProblem.cpp:122-155 | the result is the greedy walk from root over the current labels. It is a simple path of at most n vertices starting at root, and the used flags mark exactly its vertices |
| Paths.DistinctBounded | LongestPathProblem/LongestPathProblem.cpp:132-152 | a sequence of distinct ids in [0, n) has at most n elements, which bounds both traversals |
| Paths.FirstFarthestUnique | LongestPathProblem/LongestPathProblem.cpp:141-148 | the choice rule picks at most one list position |
| Paths.StepUnique | LongestPathProblem/LongestPathProblem.cpp:139-151 | after a given prefix at most one vertex is the greedy next vertex |
| Paths.GreedyWalkIsSimplePath | LongestPathProblem/LongestPathProblem.cpp:132-154 | a greedy walk is linked along the edge lists, repeats no vertex and has at most n vertices |
| Paths.GreedyWalkUnique | LongestPathProblem/LongestPathProblem.cpp:122-155 | for given lists, labels and start there is exactly one greedy walk |
| Paths.AgreeUpTo | LongestPathProblem/LongestPathProblem.cpp:132-152 | two greedy walks from the same start agree on every common position |
| Paths.StuckPrefixCannotStep | LongestPathProblem/LongestPathProblem.cpp:150-152 | a walk that stopped cannot be a proper prefix of another greedy walk |
| Paths.StepsExtend | LongestPathProblem/LongestPathProblem.cpp:134-137 | appending the greedy choice keeps every move greedy |
| Paths.WalkAdvance | LongestPathProblem/LongestPathProblem.cpp:132-152 | one pop, use and push keeps the walk state: stack holds at most one vertex, which is the greedy choice or absent when stuck |
| Paths.WalkFinished | LongestPathProblem/LongestPathProblem.cpp:132-154 | an empty stack means the result is the complete greedy walk |
| LongestPath.Graph.CandidateFor | LongestPathProblem/LongestPathProblem.cpp:172-178 | the candidate of one root is empty if and only if the root is isolated. Otherwise it is a simple path of at most n vertices and it is the greedy walk from the farthest vertex of the labelling from that root, whose record is `Bfs(adj, root)` (`IsCandidate`) |
| LongestPath.CandidateFound | LongestPathProblem/LongestPathProblem.cpp:172-178 | the walk from the farthest vertex of a finished labelling from root, over the same labels, is that root's candidate |
| LongestPath.Graph.FindLongPathInRange | LongestPathProblem/LongestPathProblem.cpp:166-190 | per root of [from, to), the recorded candidate is empty if and only if the root is isolated, and otherwise a simple path that is `IsCandidate` for that root. The result is the fold `Accumulate` of the incoming path with the candidates |
| LongestPath.RecordedAppend | LongestPathProblem/LongestPathProblem.cpp:170-189 | adding the candidate of the next root to the record keeps it a record of root-by-root candidates |
| LongestPath.RecordedConcat | LongestPathProblem/LongestPathProblem.cpp:214-224 | the records of two consecutive ranges of roots join into the record of both |
| LongestPath.Graph.Copy | LongestPathProblem/LongestPathProblem.cpp:166-168 | a worker's graph (passed by value, and copied again at line 220) is a fresh graph with the same lists, flags and labels |
| LongestPath.AccumulateFirstLongest | LongestPathProblem/LongestPathProblem.cpp:183-188 | the kept path is at least as long as the start and every candidate. It is the start when nothing is strictly longer, else the first candidate of greatest length |
| LongestPath.AccumulateAppend | LongestPathProblem/LongestPathProblem.cpp:214-224 | folding the ranges one after the other equals folding their concatenation |
| LongestPath.RunRange | LongestPathProblem/LongestPathProblem.cpp:206-220 | one worker on a copy of the graph extends the candidates by one per root of its range, each the root's candidate (`IsCandidate`) or empty for an isolated root, and keeps the fold |
| LongestPath.Run | LongestPathProblem/LongestPathProblem.cpp:192-233 | exactly the roots below `CoveredUpTo(n)` get a candidate. A candidate is empty if and only if its root is isolated, and otherwise a simple path and the greedy walk from the farthest vertex of the breadth-first labelling from that root. The path written is the first longest candidate (or empty), and the output is its `Format` |
| LongestPath.OneVertexWritesZero | LongestPathProblem/LongestPathProblem.cpp:170-176 | for one vertex every edge line is a self-loop, root 0 is isolated and skipped, so the kept path is empty and the text written is "0" and a line end |
| Partition.PartitionRanges | LongestPathProblem/LongestPathProblem.cpp:206-221 | the loop of main hands out exactly `Sections(n)`: [(0, n)] below 1000, else [k*s, k*s + s) for k < 10 with s = n / 10. The largest value its int variables take is n + n / 10 from 1000 vertices on, and n below that |
| Partition.SectionsContiguous | LongestPathProblem/LongestPathProblem.cpp:210-221 | the ranges start at 0 and are contiguous and in bounds. Above 1000 vertices they are non-empty, and the last one ends at `CoveredUpTo(n)` <= n |
| Partition.CoveredIff | LongestPathProblem/LongestPathProblem.cpp:212-221 | a root lies in some range if and only if it is in [0, 10 * (n / 10)) (all of [0, n) below 1000) |
| Partition.SectionsDisjoint | LongestPathProblem/LongestPathProblem.cpp:214-221 | no root lies in two ranges |
| Partition.LastVertexSkipped | LongestPathProblem/LongestPathProblem.cpp:214-220 | for n >= 1000 not divisible by 10, vertex n - 1 is never a root |
| PathOutput.WriteGraphPath | LongestPathProblem/LongestPathProblem.cpp:37-53 | the text written is `Format(path)`: the count and a line end, then for a non-empty path the vertices separated by single spaces and a line end |
| PathOutput.FormatRoundTrip | LongestPathProblem/LongestPathProblem.cpp:37-53 | reading the output back gives the path written, so the format loses nothing |
| PathOutput.JoinedSplits | LongestPathProblem/LongestPathProblem.cpp:43-51 | the vertex line holds no line end, and splitting it at spaces gives the vertex texts in order (no leading, trailing or double space) |
| PathOutput.IntTextRoundTrip | LongestPathProblem/LongestPathProblem.cpp:39-50 | the text of an int reads back as that int and holds no space or line end |

## Left out

- Reading the input streams: `Run` and the constructor take the vertex count and
  the edge list as values. Ids outside [0, n) are not modelled; the constructor
  requires every id to be in range, which the source takes for granted at line 29.
- Threads, the mutex and `join`: the ten workers run one after the other in range
  order, each on its own fresh copy of the graph. The unlocked size comparison at
  line 183 is a data race in the source. With real concurrency, which path is kept
  on a tie, or even a shorter path, depends on the interleaving. This is not modelled.
- LongestPath.Graph.CreateAuxiliaryGraph: the labels are proved to follow the
  first-in first-out record `Bfs(adj, root)` (each label is its discoverer's plus
  one), not to equal shortest-path lengths as the comment at line 75 says. The
  walk only uses the labels as the code computes them.
- LongestPath.Run: does not claim the path is a longest path of the graph. The
  heuristic promises none, and the model proves only what the code does.
- `isValidPath` (lines 55-70) is commented out in the source. It is modelled only
  as the predicate `Paths.Linked`.
- Integer widths: `int` and `size_t` are unbounded here. Vertex ids and labels stay
  below n. The `int r` of main's partition loop does not: it reaches n + n / 10
  after the last step (`Partition.PartitionRanges` returns this peak as a ghost
  result), which overflows a 32-bit `int` from n = 1 952 257 862 on, undefined
  behaviour in the source. The model gives the ranges the loop would hand out
  without that overflow.
- The walk is specified against the labels present when it runs. Within a range
  the labels of vertices outside the current component are left over from earlier
  roots. The walk never reaches them because the discovered set is closed under
  edges.
- Some descriptions of the program say the last range absorbs the remainder of n
  / 10. The code passes `l + sectionLength` instead of the adjusted `r`. The
  model follows the code, so the last n mod 10 vertices are never roots
  (`Partition.LastVertexSkipped`).
- Some descriptions say a graph of one vertex and no edges yields the path made
  of that vertex. In the code root 0 is isolated, createAuxiliaryGraph returns -1
  and the root is skipped (lines 175-176), so only the count 0 and a line end are
  written (`LongestPath.OneVertexWritesZero`).
- Some descriptions also say the walk skips an already used vertex when it pops
  it. The code has no such check. None is needed, because the stack never
  holds more than one vertex and only unused vertices are pushed.
