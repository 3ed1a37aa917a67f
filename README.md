# Swap puzzle: a verified model of the grid, the graph search and the heuristics

The swap puzzle is an m x n grid of numbered tiles. One move exchanges two
tiles in cells at Manhattan distance 1. The goal is the sorted grid, whose
cell (i, j) holds i*n + j + 1. This project models three Python files in
Dafny and proves what they promise:

- `swap_puzzle/grid.py`: the `Grid` class. It covers the sorted default
  state, the sortedness scan, the checked swap and the swap sequence, the
  row-major flattening, the base-(m*n+1) state key `id`, copying, the
  recursive permutation generator, and the keys of the states one swap away
  (`nextperm`, `adj_grids`).
- `swap_puzzle/graph.py`: the `Graph` class. It covers adjacency lists built
  by `add_edge`, breadth-first search over nodes numbered 1..nb_nodes with
  the `explored` and `prev` lists, path reconstruction from `prev`, and
  `fact`.
- `swap_puzzle/heuristics.py`: the four heuristics that compare two grids.
  These are the cell-wise absolute-difference sum, the "sup norm", the
  largest tile displacement and the key difference.

Modules:

- `Common` (common.dfy): `Option`, `Reverse`, `NoDup`.
- `GridState` (grid_state.dfy): grid states as values (`seq<seq<int>>`),
  flattening, sortedness, swapping cells and folding swaps.
- `StateKey` (state_key.dfy): the key `id` computes, its decoder, and the
  proof that the key is injective.
- `Moves` (moves.dfy): the cells `nextperm` offers, the keys it yields, the
  order `adj_grids` collects them in, and the deduplication.
- `Grids` (grid.dfy): the `Grid` class. Its `state` field is updated in
  place by `Swap` and `SwapSeq`, and its loops are methods proved against
  the functions above.
- `Permutations` (permutations.dfy): the generator's output, as the sequence
  of yielded lists.
- `AdjacencyLists` (adjacency.dfy), `Search` (search.dfy), `Graphs`
  (graph.dfy): the adjacency map, the invariants of the breadth-first
  search, and the `Graph` class.
- `PathExample` (path_example.dfy): the seven-node graph of
  `tests/test_path.py`, built through the `Graph` class, and the answer
  that test expects.
- `Heuristics` (heuristics.dfy): the heuristics as loop methods, with the
  functions they are proved against.

Python's unbounded integers are Dafny's `int`, so no width is modelled. A
raised `IllegalMove` is the `SwapResult.IllegalMove` value, and a `None`
result is `Option.None`.

## Model

| member | source | states |
|---|---|---|
| Grids.Grid.constructor | swap_puzzle/grid.py:26-43 | an empty initial state becomes the sorted m x n state, and any other is kept as given |
| GridState.SortedState | swap_puzzle/grid.py:41-42 | the default state has m rows of n tiles |
| GridState.SortedStateFlat | swap_puzzle/grid.py:41-42 | the default state has m rows of n tiles, flattens to [1, ..., m*n], and is therefore sorted |
| Grids.Grid.IsSorted | swap_puzzle/grid.py:60-73 | returns true exactly when every tile of the row-major order is its predecessor plus 1; the first tile need not be 1 |
| GridState.SortedAtIffConsecutive | swap_puzzle/grid.py:64-73 | the cell-by-cell test, which crosses a row end through state[i+1][0], holds at every cell exactly when the flattening goes up by 1 at each step |
| GridState.ConsecutiveSortedAt | swap_puzzle/grid.py:67-72 | a cell that fails its test refutes sortedness, so the early `return False` is right |
| Grids.Grid.Swap | swap_puzzle/grid.py:75-89 | succeeds exactly when the cells are at Manhattan distance 1, and then exchanges the two tiles; otherwise (the same cell twice included) reports IllegalMove and leaves the state as it was |
| GridState.SwapCells | swap_puzzle/grid.py:85-87 | the swapped state has the same shape, holds each cell's old tile at the other cell, and every other cell is unchanged |
| GridState.SwapCellsShaped | swap_puzzle/grid.py:85-87 | swapping two in-bounds cells keeps an m x n state m x n |
| GridState.SwapCellsTwice | swap_puzzle/grid.py:85-87 | the same swap done twice restores the state |
| Grids.Grid.SwapSeq | swap_puzzle/grid.py:91-102 | the new state is the fold of swap over the list, which stops at the first illegal pair with the earlier swaps kept; the result is IllegalMove exactly when some pair is not adjacent |
| GridState.ApplySwaps | swap_puzzle/grid.py:101-102 | the fold of swap that swap_seq performs, which stops at the first illegal pair, keeps an m x n state m x n |
| GridState.ApplySwapsAppend | swap_puzzle/grid.py:101-102 | when the first list is all legal, swapping along a + b equals swapping along a and then along b |
| GridState.ApplySwapsUndo | swap_puzzle/grid.py:101-102 | a legal sequence of swaps is undone by the same swaps in reverse order |
| GridState.ReverseLegal | swap_puzzle/grid.py:101-102 | reversing a list of swaps keeps it in bounds and keeps it legal |
| StateKey.Decode | swap_puzzle/grid.py:132-136 | the decoder, the inverse of id, gives len digits, each in 0 .. base-1 |
| StateKey.Horner | swap_puzzle/grid.py:136 | the key of a list is its first entry plus base times the key of the rest |
| StateKey.DecodeKeySum | swap_puzzle/grid.py:132-136 | the key of a list of digits is non-negative and decodes back to the list |
| StateKey.KeySumInjective | swap_puzzle/grid.py:132-136 | two lists of digits of one length with the same key are equal |
| StateKey.StateKeyInjective | swap_puzzle/grid.py:132-136 | two m x n states whose tiles lie in 0 .. m*n and whose flattenings have the same key are the same state |
| Grids.Grid.Id | swap_puzzle/grid.py:132-136 | id, in base m*n+1, of a list of digits is non-negative and decodes back to the list, so it is injective on such lists of one length |
| Grids.Grid.Flatten | swap_puzzle/grid.py:138-144 | returns the rows concatenated in order |
| GridState.FlatLength | swap_puzzle/grid.py:138-144 | an m x n state flattens to m*n tiles |
| GridState.FlatAt | swap_puzzle/grid.py:138-144 | cell (i, j) is entry i*n + j of the flattening |
| GridState.FlatInjective | swap_puzzle/grid.py:138-144 | two m x n states with the same flattening are equal |
| Grids.Grid.Copy | swap_puzzle/grid.py:146-151 | a fresh grid with the same size and tiles |
| Permutations.Permutations | swap_puzzle/grid.py:153-159 | permutations(l) yields at least one list, and the first one is l unchanged |
| Permutations.Insertions | swap_puzzle/grid.py:158-159 | inserting the head at positions 0 .. len(perm) gives len(perm)+1 lists |
| Permutations.SpreadLength | swap_puzzle/grid.py:157-159 | spreading the head over lists of length k gives k+1 lists per list |
| Permutations.SpreadMembers | swap_puzzle/grid.py:157-159 | each list yielded in the loop is a permutation of the tail with the head added |
| Permutations.PermutationsRearrange | swap_puzzle/grid.py:153-159 | every list permutations(l) yields has the same multiset of entries as l |
| Permutations.PermutationsCount | swap_puzzle/grid.py:153-159 | permutations(l) yields exactly len(l)! lists |
| Moves.OfferedInBounds | swap_puzzle/grid.py:164-179 | each of the four tests, with rows bounded by m and columns by n, offers an in-bounds cell adjacent to (i, j) |
| Moves.NeighbourCellsUnfold | swap_puzzle/grid.py:164-179 | the offered cells are those of the four tests in the source's order: down, up, right, left |
| Moves.NeighbourCellsExact | swap_puzzle/grid.py:164-179 | a cell is offered exactly when it is in bounds and adjacent to (i, j) |
| Moves.NeighbourCellsDistinct | swap_puzzle/grid.py:164-179 | no cell is offered twice |
| Moves.WrittenNeighbourCells | swap_puzzle/grid.py:164-179 | the four tests with the bounds as written offer at most four cells, each at distance 1 from (i, j); which ones is WrittenIsTransposed |
| Moves.WrittenIsTransposed | swap_puzzle/grid.py:164-172 | the tests as written on an m x n grid are the intended tests of an n x m grid |
| Moves.WrittenSquareAgrees | swap_puzzle/grid.py:164-172 | on a square grid the tests as written offer exactly the intended cells |
| Moves.WrittenMissesMove | swap_puzzle/grid.py:164-166 | on a 3 x 2 grid the tests as written do not offer the legal move from (1, 0) to (2, 0) |
| Moves.WrittenLeavesGrid | swap_puzzle/grid.py:164-166 | on a 2 x 3 grid the tests as written offer (2, 0), which is off the grid |
| Moves.ShapedCells | swap_puzzle/grid.py:164-179 | (i, j) and every offered cell are cells of the state |
| Moves.NeighbourKeys | swap_puzzle/grid.py:180-181 | nextperm yields one key per offered cell |
| Moves.FlatsUpToAt | swap_puzzle/grid.py:165-179 | entry k of the collected list is the flattening of the state with (i, j) swapped with the k-th offered cell |
| Moves.FlatsGrow | swap_puzzle/grid.py:165-179 | one passing test appends the flattening of its swapped copy |
| Moves.FlatsSkip | swap_puzzle/grid.py:164-179 | a failing test appends nothing |
| Moves.KeysOfMoves | swap_puzzle/grid.py:180 | keying the collected flattenings with id gives the keys of the offered swaps |
| Grids.Grid.Moved | swap_puzzle/grid.py:165-167 | one passing test appends the flattening of a copy with (i, j) swapped with the test's cell, and self.state is unchanged |
| Grids.Grid.MovedStates | swap_puzzle/grid.py:162-179 | the four tests collect, in order, the flattenings of the states one swap of (i, j) away |
| Grids.Grid.NextPerm | swap_puzzle/grid.py:161-181 | returns the keys of the states one legal swap of (i, j) away, in test order, and leaves the state unchanged |
| Moves.KeysBeforeNext | swap_puzzle/grid.py:187-189 | the keys seen after cell (i, j) are those seen before it followed by its nextperm keys |
| Moves.KeysRowEnds | swap_puzzle/grid.py:187-189 | a row starts with nothing new and ends having added all its cells' keys |
| Moves.Dedup | swap_puzzle/grid.py:190-192 | the list with later repeats dropped is never longer than the list |
| Moves.DedupSpec | swap_puzzle/grid.py:190-192 | the kept keys have no repeats and are exactly the keys seen |
| Moves.DedupStep | swap_puzzle/grid.py:190-192 | appending a key only when it is not yet kept extends the deduplication by one key |
| Grids.Grid.AddNew | swap_puzzle/grid.py:190-192 | the inner loop leaves exactly the deduplication of the keys seen so far |
| Grids.Grid.AdjRow | swap_puzzle/grid.py:188-192 | one pass of the row loop adds the keys of row i's cells, keeping first occurrences only |
| Grids.Grid.AdjGrids | swap_puzzle/grid.py:184-193 | returns the keys nextperm yields over all cells, row by row, each kept at its first occurrence |
| Moves.RowKeysComplete | swap_puzzle/grid.py:187-189 | every key nextperm yields at a cell already visited in the row has been seen |
| Moves.GridKeysHasRow | swap_puzzle/grid.py:187-189 | every key read in a row already visited has been seen |
| Moves.GridKeysComplete | swap_puzzle/grid.py:187-189 | every key nextperm yields at a cell already visited has been seen |
| Moves.RowKeysSound | swap_puzzle/grid.py:187-189 | every key seen in a row is the key of a state one legal swap away |
| Moves.GridKeysSound | swap_puzzle/grid.py:187-189 | every key seen is the key of a state one legal swap away |
| Moves.GridKeysExact | swap_puzzle/grid.py:184-193 | a key is seen exactly when it is the key of a state one legal swap away |
| Moves.AdjKeysExact | swap_puzzle/grid.py:184-193 | adj_grids has no duplicate keys, and a key is in it exactly when it is the key of a state one legal swap away |
| Moves.NeighbourSymmetric | swap_puzzle/grid.py:184-193 | when one legal swap turns s into t, t's key is among adj_grids(s) and s's key is among adj_grids(t): the state graph is undirected |
| Graphs.Fact | swap_puzzle/graph.py:166-170 | fact(n) is at least 1 and at least n |
| Graphs.Graph.constructor | swap_puzzle/graph.py:27-40 | the given nodes, each with an empty list, no edges, and counters to match; the invariant holds when the nodes are distinct |
| AdjacencyLists.Link | swap_puzzle/graph.py:72-82 | after add_edge the nodes are the old ones plus both endpoints |
| AdjacencyLists.LinkLists | swap_puzzle/graph.py:72-82 | add_edge appends node2 to node1's list and node1 to node2's (both to a self-loop's), creates missing lists empty, and leaves every other list unchanged |
| AdjacencyLists.LinkExisting | swap_puzzle/graph.py:81-82 | between two distinct existing nodes add_edge only extends their two lists |
| AdjacencyLists.LinkCount | swap_puzzle/graph.py:81-82 | each list gains one entry per edge end it receives, and no other |
| AdjacencyLists.LinkClosed | swap_puzzle/graph.py:72-82 | add_edge keeps every listed neighbour a node |
| AdjacencyLists.LinkPairSymmetric | swap_puzzle/graph.py:81-82 | after add_edge, u occurs in v's list as often as v occurs in u's |
| AdjacencyLists.LinkSymmetric | swap_puzzle/graph.py:81-82 | add_edge keeps the lists closed and symmetric |
| AdjacencyLists.NewEndsNoDup | swap_puzzle/graph.py:72-79 | the endpoints appended to nodes are new, so nodes stays free of repeats |
| AdjacencyLists.NewEndsCard | swap_puzzle/graph.py:72-79 | nb_nodes grows by one per created endpoint, as the key set does |
| AdjacencyLists.NewEndsNodeList | swap_puzzle/graph.py:72-79 | after add_edge, nodes still lists every key exactly once |
| AdjacencyLists.LinkValid | swap_puzzle/graph.py:72-84 | add_edge keeps the node list exact and the lists closed |
| AdjacencyLists.DistinctCard | swap_puzzle/graph.py:36-38 | nb_nodes = len(nodes) counts the keys when the nodes are distinct |
| Graphs.Graph.AddEdge | swap_puzzle/graph.py:60-84 | the lists become those of the edge added, nodes gains the created endpoints in order, nb_edges grows by 1 and (node1, node2) is appended to edges |
| Search.Neighbour | swap_puzzle/graph.py:96-97 | a listed neighbour is a node in 1..nb_nodes, so explored[n-1] is in range |
| Search.ListInRange | swap_puzzle/graph.py:96-97 | every entry of a scanned list indexes explored and prev |
| Search.Start | swap_puzzle/graph.py:87-91 | the state before the loop meets the search invariant |
| Search.Pop | swap_puzzle/graph.py:93-96 | popping a head other than dst starts the scan of its list with the invariant kept |
| Search.PopQueue | swap_puzzle/graph.py:93 | the rest of the queue is at least as deep as the popped node, and at most one level deeper |
| Search.PopCovered | swap_puzzle/graph.py:93 | every explored node is done, queued or being expanded |
| Search.Discover | swap_puzzle/graph.py:97-100 | an unexplored neighbour is marked, gets prev v and one more level, and is queued once, with the invariant kept |
| Search.DiscoverQueue | swap_puzzle/graph.py:97-100 | a newly discovered node joins the back of the queue one level down |
| Search.DiscoverDone | swap_puzzle/graph.py:97-100 | discovering a node does not disturb the nodes already expanded |
| Search.DiscoverTree | swap_puzzle/graph.py:97-100 | prev stays a tree rooted at src whose parents are explored nodes one level up |
| Search.Skip | swap_puzzle/graph.py:97 | an explored neighbour changes nothing |
| Search.Finish | swap_puzzle/graph.py:96-100 | a node whose list has been scanned is done, and the invariant holds again |
| Search.FalsesFlip | swap_puzzle/graph.py:97-98 | marking a node explored lowers the number of unexplored nodes by one, which bounds the loop |
| Search.ParentInTree | swap_puzzle/graph.py:99 | a node's parent is in the tree, one level up |
| Search.TreeReach | swap_puzzle/graph.py:96-100 | every node in the prev tree is reachable from src |
| Search.WalkNodes | swap_puzzle/graph.py:96-97 | every entry of a walk from a node is numbered 1..nb_nodes |
| Search.Frontier | swap_puzzle/graph.py:92-100 | any walk from src is either covered by the expanded nodes or crosses the queue no deeper than its own position |
| Search.FoundAtHead | swap_puzzle/graph.py:94-95 | when dst is popped, it is in the tree and no walk from src reaches it in fewer steps than its depth |
| Search.Exhausted | swap_puzzle/graph.py:92-101 | when the queue runs dry without dst, dst is unreachable from src |
| Graphs.Graph.BfsAux | swap_puzzle/graph.py:86-101 | returns [] exactly when dst is unreachable from src; otherwise a prev tree holding dst at its shortest-walk depth |
| Search.ReverseBackWalk | swap_puzzle/graph.py:109 | reversing the collected path turns a walk back to src into a walk from src |
| Graphs.Graph.GetPath | swap_puzzle/graph.py:103-110 | the path starts at src, ends at dst, joins each entry to the next by an edge, and has dst's depth plus one entries |
| Graphs.Graph.Bfs | swap_puzzle/graph.py:112-132 | None exactly when dst is unreachable; otherwise a walk from src to dst no longer than any other; bfs(src, src) is [src] |
| PathExample.TestAdjacency | tests/test_path.py:8-15 | the lists of the test graph: its nodes are 1..7 and it lists only nodes, as bfs requires |
| PathExample.TestLinksFirst | tests/test_path.py:8-11 | Graph([1..7]) followed by add_edge(1, 2), (1, 3), (1, 4) gives 1 the list [2, 3, 4] and 2, 3, 4 the list [1] |
| PathExample.TestLinksMiddle | tests/test_path.py:12-13 | add_edge(2, 4) and add_edge(3, 5) extend the lists of 2, 4, 3 and 5 |
| PathExample.TestLinksLast | tests/test_path.py:14-15 | add_edge(3, 7) and add_edge(6, 7) complete the lists of the test graph |
| PathExample.TestLinks | tests/test_path.py:8-15 | the seven add_edge calls on the lists of Graph([1..7]) build exactly the test graph's lists |
| PathExample.BuildTestGraph | tests/test_path.py:8-15 | the Graph object the test builds satisfies the invariant, has 7 nodes and holds the test graph's lists |
| PathExample.OnlyShortWalk | tests/test_path.py:8-20 | the only walk of at most four nodes from 1 to 6 in the test graph is 1, 3, 7, 6 |
| PathExample.TestShortestPath | tests/test_path.py:17-20 | any shortest walk from 1 to 6, and so bfs(1, 6), is [1, 3, 7, 6] |
| PathExample.TestBfs | tests/test_path.py:17-20 | running bfs(1, 6) on the graph the test builds returns [1, 3, 7, 6], as test1 asserts |
| Heuristics.ManhattanDistance | swap_puzzle/heuristics.py:3-11 | the accumulated value is the sum over all cells of the absolute difference of the two grids' tiles |
| Heuristics.RowGapZero | swap_puzzle/heuristics.py:9-10 | a row's sum is 0 exactly when the two rows agree |
| Heuristics.GridGapZero | swap_puzzle/heuristics.py:8-10 | the sum over the first rows is 0 exactly when those rows agree |
| Heuristics.ManhattanZero | swap_puzzle/heuristics.py:3-11 | manhattan_distance is 0 exactly when the two grids are equal |
| Heuristics.RowGapSymmetric | swap_puzzle/heuristics.py:10 | a row's sum does not depend on the order of the rows |
| Heuristics.ManhattanSymmetric | swap_puzzle/heuristics.py:3-11 | manhattan_distance(g1, g2) = manhattan_distance(g2, g1) |
| Heuristics.RowGapTriangle | swap_puzzle/heuristics.py:10 | the row sums satisfy the triangle inequality |
| Heuristics.ManhattanTriangle | swap_puzzle/heuristics.py:3-11 | manhattan_distance satisfies the triangle inequality |
| Heuristics.MaxCellGap | swap_puzzle/heuristics.py:18-22 | the loop over the given rows returns the largest cell-wise gap, or 0 when it scans nothing |
| Heuristics.SupNorm | swap_puzzle/heuristics.py:13-23 | as written, supnorm returns 0 for every pair of grids |
| Heuristics.SupNormMissesGap | swap_puzzle/heuristics.py:17-18 | the grids [[1, 2]] and [[2, 1]] have largest gap 1, where supnorm as written gives 0 |
| Heuristics.SupNormIntended | swap_puzzle/heuristics.py:13-23 | the corrected supnorm scans all m rows and returns the largest cell-wise gap |
| Heuristics.RowMaxIsMax | swap_puzzle/heuristics.py:19-22 | a row's largest gap bounds every gap of the row and is one of them, or 0 |
| Heuristics.MaxGapIsMax | swap_puzzle/heuristics.py:18-22 | the corrected supnorm bounds every cell-wise gap and is one of them, or 0 |
| Heuristics.FarthestMatch | swap_puzzle/heuristics.py:33-38 | the two inner loops raise h to the largest distance from (i, j) to a cell of g2 holding the same tile |
| Heuristics.MaxSwap | swap_puzzle/heuristics.py:25-39 | h is at least 0, bounds the distance between every tile's cell in g1 and every cell of g2 holding it, and is 0 or one such distance |
| Heuristics.MaxSwapBound | swap_puzzle/heuristics.py:29-38 | maxswap_h lies between 0 and (m-1)+(n-1) |
| Heuristics.MaxSwapSame | swap_puzzle/heuristics.py:32-38 | maxswap_h of a grid with distinct tiles and itself is 0 |
| Heuristics.MaxSwapUnique | swap_puzzle/heuristics.py:29-38 | the contract of maxswap_h fixes one value, the maximum |
| Heuristics.HashH | swap_puzzle/heuristics.py:41-42 | hash_h(p, q) is 0 exactly when p = q, and negative exactly when p < q |
| Heuristics.HashHAntisymmetric | swap_puzzle/heuristics.py:41-42 | hash_h(p, q) = -hash_h(q, p) |

## Left out

- File input (`grid_from_file`, `graph_from_file`), the text renderings (`__str__`, `__repr__`) and the message `bfs` prints are left out: they are I/O.
- `Grid.graph_from_grid` is left out: it is unfinished and returns nothing.
- `Graph.bfs_generate_graph` is left out: as written it cannot run. It uses `Grid` without importing it, calls `id_to_grid`, which is not defined, and calls `flatten` with an argument.
- `swap_puzzle/solver.py` and `tests/test_solver.py` are not part of this model: the solver methods call members that do not exist or raise `NotImplementedError`.
- `Grid.id_to_grid` is not defined in the source. The heuristics therefore take the two decoded grids, and `hash_h` takes the two keys. `StateKey.Decode` is the inverse of `id` that the model uses to state injectivity.
- Grids.Grid.Swap: requires both cells in bounds when they are adjacent. It does not model Python's negative-index wrap-around or the IndexError an off-grid cell raises.
- Grids.Grid.SwapSeq: requires every adjacent pair of the list to be in bounds, as `Swap` does. This also excludes an adjacent off-grid pair placed after the first non-adjacent pair, which the source never reaches because IllegalMove is raised first.
- Graphs.Fact: takes a natural number. Called on a negative n, the source's `fact` recurses until Python raises RecursionError, which is not modelled.
- Grids.Grid.NextPerm: uses the intended bounds (rows against m, columns against n). The bounds as written are modelled by `Moves.WrittenNeighbourCells`; see Findings.
- Grids.Grid.MovedStates: holds the four tests of `nextperm`, and `NextPerm` keys their result. They are split in two only to keep each proof small.
- Grids.Grid.AdjGrids: states that the result is the deduplication of all nextperm keys. That it has no repeats and holds exactly the keys one swap away is the separate lemma `Moves.AdjKeysExact`.
- Grids.Grid.AddNew: the innermost loop of `adj_grids`, written as its own method. `p not in allswaps` on a Python list is `!in` on a sequence.
- Permutations.Permutations: the generator is modelled as the sequence of the lists it yields, in yield order. Laziness is not modelled.
- Graphs.Graph.constructor: the shared mutable default `nodes=[]` is modelled as a fresh empty list. The aliasing between the caller's list and `self.nodes` is not modelled.
- Graphs.Graph.BfsAux: requires what its indexing needs. The nodes must be exactly 1..nb_nodes, and every listed neighbour must be a node (`Numbered`, `Closed`). Otherwise the source raises IndexError or KeyError, or reads a wrong slot.
- Graphs.Graph.Bfs: returns `None` where the source prints a message and falls off the end.
- Graphs.Graph.Valid: does not include symmetry of the lists. That `add_edge` keeps them symmetric is stated by `AdjacencyLists.LinkSymmetric`.
- Heuristics.ManhattanDistance: models the code, a cell-wise sum of tile differences. A per-tile distance between positions, which the name suggests, is not what the code computes.
- Grids.Grid.AdjRow: the row loop of `adj_grids`, written as its own method. This only keeps each proof small.
- Heuristics.MaxSwap: its inner two loops are the method `FarthestMatch`. This only keeps each proof small.
- `heapq` is imported by graph.py but never used. A* search is not in the source.

## Findings

| source | as written | input that shows it | evidently intended | confidence | as-written member | corrected member |
|---|---|---|---|---|---|---|
| swap_puzzle/grid.py:164-172 | nextperm tests the row index against n - 1 and the column index against m - 1 | a 3 x 2 grid at cell (1, 0): the legal move to (2, 0) is not offered. A 2 x 3 grid at cell (1, 0): the off-grid cell (2, 0) is offered | rows tested against m - 1 and columns against n - 1 | not executed | Moves.WrittenMissesMove, Moves.WrittenLeavesGrid | Moves.NeighbourCellsExact |
| swap_puzzle/heuristics.py:17-18 | supnorm sets m to 0 before range(m), so no row is scanned | the grids [[1, 2]] and [[2, 1]] give 0, although every cell differs by 1 | a separate accumulator, with all m rows scanned | not executed | Heuristics.SupNorm, Heuristics.SupNormMissesGap | Heuristics.SupNormIntended, Heuristics.MaxGapIsMax |
