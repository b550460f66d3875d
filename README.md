# Grouping algorithm: splitting a graph into two groups

This project models the grouping algorithm of `Code/grouping_algorithm.py`. The algorithm splits the nodes of an undirected weighted graph into two groups, A and B. The graph is given as a symmetric N x N adjacency matrix. The goal is little edge weight between the groups.

The model follows the code step by step:

- **Initial split.** The shuffled node list is cut after its first N / 2 entries.
- **Control parameter.** On copies of the groups, the code makes |A| cumulative single-element exchanges. The parameter is 5 times the mean absolute change of the connection cost. It is computed and then never used.
- **Search loop.** Each pass (except the first) exchanges one element of A with one element of B in the working groups. The exchange is kept whatever it costs. The pass then computes the cost of the working groups. If the connection cost is strictly lower than the best so far, the code records a copy as the new best solution and resets a stagnation counter. Otherwise the counter goes up by one. The loop stops when the counter reaches N * N, or right after a pass that leaves a best connection cost of 0.
- **Cost.** `calculate_cost` returns two parts: the sum of `m[i][j]` over i in A and j in B, and a penalty of 5 · ||A| − |B||.

The random draws are parameters:

- `shuffled` is the shuffled list of the nodes 0..N-1.
- `trials` holds the positions picked while estimating the control parameter.
- `choices` holds the positions picked by the search. The exchange of pass k >= 1 uses `choices(k - 1)`.

The modules are:

- `Partition` (`partition.dfy`): the two groups as values, the single-element exchange, the walk of repeated exchanges, and the partition invariant (A followed by B is a reordering of 0..N-1).
- `CostEvaluator` (`cost_evaluator.dfy`): `calculate_cost` as a method with nested loops. It is proved equal to the recursive cross sum `CrossSum`, together with the properties of that sum.
- `GroupingAlgorithm` (`grouping_algorithm.dfy`): the in-place swap on arrays, the initial split, the control parameter, and the search loop of `split_into_groups`.

The search loop is specified against the function `Run`, which is the loop written as a recursion over its state (best solution, iteration counter, stagnation counter). `Run` reads a trace, where entry k is the solution that pass k would record: a copy of the working groups after k exchanges, with their cost. `RunKeepsPromises` and the `Split…` lemmas prove what the loop promises about `Run`.

The code announces simulated annealing (line 26), but it has no temperature, no acceptance probability and no cooling. It performs a first-improvement random walk whose swaps are never undone. It computes a control parameter and ignores it, and it raises a division by zero for N < 2. The model follows the code.

## Model

| member | source | states |
|---|---|---|
| CostEvaluator.CalculateCost | Code/grouping_algorithm.py:120-130 | the connection cost equals the sum of m[i][j] over i in A and j in B (`CrossSum`), and the uneven cost equals 5 · abs(\|A\| − \|B\|) |
| CostEvaluator.CrossSumNonNegative | Code/grouping_algorithm.py:122-125 | with non-negative weights the connection cost is at least 0 |
| CostEvaluator.CostNonNegative | Code/grouping_algorithm.py:120-130 | with non-negative weights both parts of the cost are at least 0 |
| CostEvaluator.CrossSumAppend | Code/grouping_algorithm.py:123-125 | adding a node y to B adds the column of y over A to the connection cost |
| CostEvaluator.ColumnSumIsRowSum | Code/grouping_algorithm.py:123-125 | with a symmetric matrix, the column sum of j over A equals the row sum of j over A |
| CostEvaluator.CrossSumSymmetric | Code/grouping_algorithm.py:24 | with a symmetric matrix, the connection cost is unchanged when A and B are exchanged |
| CostEvaluator.CostOfSwappedGroups | Code/grouping_algorithm.py:120-130 | with a symmetric matrix, the whole cost is unchanged when A and B are exchanged |
| CostEvaluator.CrossSumAtMost | Code/grouping_algorithm.py:122-125 | with every weight at most w, the connection cost is at most \|A\| · \|B\| · w |
| Partition.PartitionIsDisjointCover | Code/grouping_algorithm.py:110-116 | the partition invariant means that the sizes add up to N, A and B are disjoint, neither repeats a node, and together they hold exactly the nodes 0..N-1 |
| Partition.Exchange | Code/grouping_algorithm.py:104-106 | the exchange keeps both lengths, puts B[indexB] at A[indexA] and A[indexA] at B[indexB], and leaves every other position unchanged |
| Partition.ExchangeKeepsElements | Code/grouping_algorithm.py:101-106 | the exchange keeps the multiset of all elements of A and B |
| Partition.ExchangeFits | Code/grouping_algorithm.py:101-106 | the exchange keeps every element a node of the graph |
| Partition.ExchangeIsInvolution | Code/grouping_algorithm.py:101-106 | exchanging the same two positions twice restores the groups |
| Partition.ExchangeKeepsPartition | Code/grouping_algorithm.py:101-106 | the exchange keeps the partition invariant |
| Partition.Walked | Code/grouping_algorithm.py:48-53 | any number of kept exchanges leaves both group sizes unchanged |
| Partition.WalkedKeepsElements | Code/grouping_algorithm.py:48-53 | any number of kept exchanges keeps the multiset of all elements |
| Partition.WalkedFits | Code/grouping_algorithm.py:48-53 | every state of the walk holds only nodes of the graph |
| Partition.WalkedKeepsPartition | Code/grouping_algorithm.py:48-53 | every state of the walk from a partition is a partition |
| GroupingAlgorithm.SwapOneItemBetweenGroups | Code/grouping_algorithm.py:101-106 | the arrays afterwards hold exactly the exchange of their old contents at the two picked positions |
| GroupingAlgorithm.InitialComponentGroups | Code/grouping_algorithm.py:108-118 | A has N / 2 (floor) nodes and B has N − N / 2; A followed by B is the shuffled list; the result is a partition of 0..N-1 |
| GroupingAlgorithm.DeltaSum | Code/grouping_algorithm.py:93-97 | the sum of the absolute cost changes is at least 0 |
| GroupingAlgorithm.ControlParameter | Code/grouping_algorithm.py:84-99 | the result is a division by zero exactly when A is empty, and otherwise at least 0 |
| GroupingAlgorithm.ScaledMean | Code/grouping_algorithm.py:99 | 5 times the mean of a non-negative sum is at least 0 |
| GroupingAlgorithm.Copy | Code/grouping_algorithm.py:90-91 | the copy is a fresh array with the same contents |
| GroupingAlgorithm.InitialControlParameter | Code/grouping_algorithm.py:84-99 | the result is 5 · (Σ_{k=1..\|A\|} abs(cost0 − cost_k)) / \|A\| after k cumulative exchanges on copies, or a division by zero when A is empty; the input groups are not modified |
| GroupingAlgorithm.SumCostChanges | Code/grouping_algorithm.py:93-97 | after `count` cumulative exchanges on the copies, the returned sum is `DeltaSum` and the copies hold the walk after `count` exchanges |
| GroupingAlgorithm.SumAfterStep | Code/grouping_algorithm.py:93-97 | one more exchange extends the walk by one step and the sum by the absolute change of the new cost |
| GroupingAlgorithm.ExchangeAndMeasure | Code/grouping_algorithm.py:94-96 | the copies hold the exchange of their old contents, and the result is the absolute change of the connection cost from the initial one |
| GroupingAlgorithm.ConsecutiveWorseCostMax | Code/grouping_algorithm.py:32 | the stagnation limit N * N is positive exactly when the graph has a node; `SplitIsOutcome` uses this to show that the loop makes its first pass |
| GroupingAlgorithm.Xor | Code/grouping_algorithm.py:40 | defines Python's `^` on naturals bit by bit; `XorTwo` gives its value for y = 2 |
| GroupingAlgorithm.XorTwo | Code/grouping_algorithm.py:40 | N xor 2 is N + 2 when bit 1 of N is clear, and N − 2 otherwise |
| GroupingAlgorithm.InitialBestCost | Code/grouping_algorithm.py:40 | the starting best cost 9 * (N xor 2) is 9 · (N ± 2) according to bit 1 of N, and it is 0 for N = 2 |
| GroupingAlgorithm.IntendedInitialBestCost | Code/grouping_algorithm.py:40 | the corrected starting cost 9 · N² exceeds (N / 2) · (N − N / 2), the number of node pairs across the initial split, for every N >= 1 |
| GroupingAlgorithm.Unrecorded | Code/grouping_algorithm.py:40 | defines the best solution before any pass: empty groups, with the starting cost in both parts of the cost |
| GroupingAlgorithm.Start | Code/grouping_algorithm.py:40-42 | defines the loop state before the first pass: the unrecorded solution, iteration 1 and a stagnation counter of 0 |
| GroupingAlgorithm.Recorded | Code/grouping_algorithm.py:48-62 | the solution pass k records (a copy of the working groups after k exchanges, with their cost) holds nodes of the graph, keeps the initial group sizes, carries its true cost, and is a partition when the initial split is one |
| GroupingAlgorithm.Trace | Code/grouping_algorithm.py:48-62 | entry k of the trace is the solution pass k would record; every entry holds nodes of the graph, keeps the initial group sizes, carries its true cost, and is a partition when the initial split is one |
| GroupingAlgorithm.TraceIsWalk | Code/grouping_algorithm.py:48-62 | entry k is the working groups after k exchanges with their true cost and the starting sizes, and it is a partition when the start is one |
| GroupingAlgorithm.TraceNonNegative | Code/grouping_algorithm.py:56 | with non-negative weights every recorded connection cost is at least 0 |
| GroupingAlgorithm.UnevenCostIsConstant | Code/grouping_algorithm.py:128 | the uneven cost of every visited split equals that of the initial split |
| GroupingAlgorithm.Pass | Code/grouping_algorithm.py:56-67 | one pass keeps the iteration counter and never raises the best connection cost; it either records the solution of the pass, with a strictly lower cost, and resets the counter to 0, or keeps the best solution and adds one to the counter |
| GroupingAlgorithm.Run | Code/grouping_algorithm.py:46-78 | the loop as a recursion over its state; it never lowers the iteration counter, ends with the counter at most N * N, either equal to it or with a best cost of 0, and never raises the best connection cost nor makes it negative |
| GroupingAlgorithm.RunStops | Code/grouping_algorithm.py:75-76 | the loop ends right after a pass that leaves a best cost of 0 |
| GroupingAlgorithm.RunContinues | Code/grouping_algorithm.py:75-78 | otherwise the loop goes on from the state with the iteration counter advanced |
| GroupingAlgorithm.PassBounds | Code/grouping_algorithm.py:58-67 | on a trace of non-negative costs, a pass keeps the best connection cost non-negative (the other bounds of a pass are in the contract of `Pass`) |
| GroupingAlgorithm.StartIsLoopState | Code/grouping_algorithm.py:40-42 | the starting state (empty groups, iteration 1, counter 0) is a consistent loop state |
| GroupingAlgorithm.PassKeepsBestSoFar | Code/grouping_algorithm.py:58-67 | after each pass, the best solution is the first visited split of least cost and the counter counts the passes since then, or no split was recorded yet |
| GroupingAlgorithm.BoundExtends | Code/grouping_algorithm.py:65-67 | a best cost no higher than the new pass stays a lower bound of all passes |
| GroupingAlgorithm.LowerBoundDescends | Code/grouping_algorithm.py:59-62 | a strictly lower new cost is strictly below every earlier pass and a lower bound of all passes |
| GroupingAlgorithm.RunKeepsPromises | Code/grouping_algorithm.py:46-78 | from every consistent state, the loop ends with a counter of at most N * N, either equal to it or with a best cost of 0, and with the best solution being the least of all passes |
| GroupingAlgorithm.SearchPass | Code/grouping_algorithm.py:47-67 | the pass makes one kept exchange (none on the first iteration) so that the arrays hold the walk after iteration − 1 exchanges, and updates the best solution and the counter as one step of `Run` |
| GroupingAlgorithm.Search | Code/grouping_algorithm.py:41-78 | the returned best solution, iteration counter and stagnation counter are those of `Run` from the starting state |
| GroupingAlgorithm.SplitWith | Code/grouping_algorithm.py:29-82 | fails with a division by zero exactly when N < 2, and otherwise returns the best solution of the search from the initial split |
| GroupingAlgorithm.SplitIntoGroups | Code/grouping_algorithm.py:20-82 | the same with the starting cost 9 * (N xor 2); for N = 2 the result has two empty groups |
| GroupingAlgorithm.SplitIntoGroupsCorrected | Code/grouping_algorithm.py:40 | with the starting cost 9 · N² and weights in {0, 1}, the result is a partition of 0..N-1 with the initial sizes and its true cost |
| GroupingAlgorithm.SplitIsOutcome | Code/grouping_algorithm.py:46-78 | the outcome of the search keeps all the promises of `IsOutcomeOf` for the trace of its walk |
| GroupingAlgorithm.SplitStops | Code/grouping_algorithm.py:46-76 | the search makes at least one pass, and it stops with the counter at most N * N, either equal to it or with a best connection cost of 0 |
| GroupingAlgorithm.SplitBestIsLeast | Code/grouping_algorithm.py:58-67 | the best connection cost is at most that of every split the search visited |
| GroupingAlgorithm.SplitBestIsPartition | Code/grouping_algorithm.py:58-62 | the best solution is either the starting one or a visited partition with the initial sizes, its true cost, and a cost strictly below the starting cost |
| GroupingAlgorithm.BestIsLeast | Code/grouping_algorithm.py:58-67 | a best-so-far state is at most the cost of every visited split |
| GroupingAlgorithm.BestIsVisitedPartition | Code/grouping_algorithm.py:58-62 | a recorded best solution is a visited partition with the starting sizes and its true cost |
| GroupingAlgorithm.PairIsNeverRecorded | Code/grouping_algorithm.py:40 | for N = 2 the best solution stays the unrecorded one with empty groups |
| GroupingAlgorithm.CorrectedRecordsPartition | Code/grouping_algorithm.py:40 | with the sentinel 9 · N² and weights in {0, 1}, the best solution is always a partition with the initial sizes and its true cost |
| GroupingAlgorithm.SplitBelowIntended | Code/grouping_algorithm.py:40 | with weights in {0, 1}, every split with the initial sizes costs less than 9 · N² |

## Left out

- Console output (lines 26-27, 71-72 and 80-81), wall-clock timing (lines 44 and 81) and interruption by CTRL-C: these are I/O and signal handling.
- `print_final_solution` (lines 132-140): this is an interactive prompt followed by a sorted, 1-based display of the groups, so it is presentation only.
- `Code/cost_plotter.py` is not part of this model. It is a plotting wrapper with no logic of its own.
- The `random` module: `random.shuffle` becomes the parameter `shuffled`, and `random.choice` becomes the pick streams `trials` and `choices`. One global generator feeds both the control-parameter estimate and the search, and any such run is covered by one choice of the two streams.
- SwapOneItemBetweenGroups: `random.choice` on an empty group raises an IndexError. The model instead requires the picked positions to lie inside the groups. Both groups are non-empty whenever the code reaches a swap, since N >= 2 there.
- The control parameter is computed but not used by the search, so no temperature, acceptance probability or cooling is modelled. The code has none.
- InitialControlParameter: the Python division is floating point, and the model computes it exactly in `real`.
- The `better_solution_found` flag (lines 43, 60, 66) only decides what is printed.
- Search: the contract does not state the final contents of the working groups. In the code they are local lists that are dropped when the function returns. The returned best solution is stated in full.
- SplitIntoGroupsCorrected: the partition guarantee is stated only for weights in {0, 1}. With heavier weights, even the corrected sentinel can lie below the cost of every visited split. In that case the result keeps its empty groups, as `SplitBestIsPartition` allows.
- Matrix weights are unbounded integers. Fixed-width overflow of numpy integer arrays is not modelled.

## Findings

| source | as written | input that shows it | evidently intended | confidence | as-written member | corrected member |
|---|---|---|---|---|---|---|
| Code/grouping_algorithm.py:40 | the starting best cost is `9 * (graph_size ^ 2)`, where `^` is exclusive or, so it is 9 · (N xor 2), which is 0 for N = 2 | N = 2, m = [[0, 1], [1, 0]], any shuffle: no split costs less than 0, so the result is the unrecorded solution with empty groups A = [] and B = [] | `9 * graph_size ** 2`, a cost above that of every split of an unweighted graph, so the first pass is always recorded | not executed | GroupingAlgorithm.PairIsNeverRecorded | GroupingAlgorithm.CorrectedRecordsPartition |
