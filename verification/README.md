# TSP solvers of `algorithms.py`, modelled in Dafny

This project models the five travelling-salesman solvers of `algorithms.py` and proves what each promises. All of them work on city labels 1..n.

- `path_length`: the cost of a tour.
- `approx_tsp_tour`: Prim's spanning tree from city 1, a preorder walk, and the walk closed at city 1.
- `held_karp`: the exact subset dynamic program.
- `christofides`, in four steps:
  - Prim's tree;
  - the odd-degree cities;
  - a greedy matching among them;
  - Hierholzer's circuit, shortcut to a tour.
- `two_opt` and `three_opt`: local search over segment reversals and segment moves.
- `fuzzopt`: iterated local search that perturbs a tour by one swap per round.

Distance is an abstract function `Dist = (int, int) -> real` on labels, and comparisons are exact. The numpy distance matrix is a `seq<seq<real>>`. Tours are `seq<int>`. Adjacency lists are `map<int, seq<int>>`, where `pop()` takes the last entry and `remove(u)` deletes the first occurrence.

Every exception the solvers raise on the inputs the model admits is an explicit result. The few runs the model does not admit are listed under "Left out".

| exception | where it is modelled |
|---|---|
| `min` over an empty set in `held_karp` | `HeldKarp.Outcome.ValueError` |
| `min` over an empty set in the greedy matching | `Christofides.Matching.Unpaired` |
| `remove` of a missing neighbour in Hierholzer's walk | `Euler.Circuit.Stuck` |
| `three_opt` reading past a tour it shortened | `ThreeOpt.Outcome.IndexError`, with the tour being swept |
| the same, surfacing in `fuzzopt` | `FuzzOpt.Outcome.Raised` |

The model also proves when the first three cannot happen.

Modules:

- `Tours`: tours, path length, swaps, reversal, the distance matrix.
- `Graph`: adjacency lists and their edits.
- `Masks`: the subset bit masks of `held_karp`.
- `Mst`: Prim's loop, the preorder walk, `approx_tsp_tour`.
- `HeldKarp`: the dynamic program.
- `Euler`: Hierholzer's circuit and the first-visit shortcut.
- `Christofides`: odd set, matching, the whole heuristic.
- `TwoOpt`, `ThreeOpt`, `FuzzOpt`: the local searches.

Three behaviours of the code are modelled as written:

- **`held_karp`'s tour.** It returns the optimal cost but always the tour `[1, 2, …, n, 1]`.
- **`held_karp` with fewer than two cities.** It raises `ValueError`. With one city this is the `min` over an empty generator at algorithms.py:92-95. With no cities, or a negative count, it is the negative shift count of `1<<(n-1)` at algorithms.py:90, raised before that `min`. So a single city does not give `[1, 1]` here, unlike in the other solvers.
- **`three_opt`'s moves.**
  - Case 1 (algorithms.py:238) uses the negative-step slice `tour[j-1:k-1:-1]`, which is empty, so the move drops positions j..k-1 (`ThreeOpt.Case1Drops`).
  - Case 4 (algorithms.py:265) repeats `tour[j]` and loses `tour[i]` (`ThreeOpt.Case4Dup`).
  - The loop keeps the `n` computed at entry, so a later sweep can read past a shortened tour.
  - The acceptance estimates do not measure the edges the moves create, so termination is not guaranteed. The outer loop therefore runs with a fuel bound.

`two_opt` builds every candidate from its input tour, never from the best one found so far. So a second pass never beats the first: the `while` loop is proved to stop after at most two passes, and the result is the input or one reversal of it that passed the matrix estimate and is strictly shorter than the input.

## Model

| member | source | states |
|---|---|---|
| Tours.PathLengthLoop | algorithms.py:9-14 | the loop over `zip(tour, tour[1:])` returns the sum of dist over consecutive pairs (`PathLength`), which is 0 for a tour of at most one entry |
| Tours.PathLengthSnoc | algorithms.py:11-13 | appending one city adds exactly the distance of the new last leg |
| Tours.Reverse | algorithms.py:196 | `s[::-1]`: entry k is entry \|s\|-1-k of the input; the length and multiset are unchanged |
| Tours.Swap | algorithms.py:309 | `xn[u], xn[v] = xn[v], xn[u]` exchanges the two positions, leaves every other position alone and keeps the multiset |
| Tours.DistMatrix | algorithms.py:290-293 | the matrix has n rows of n entries and entry [i-1][j-1] is dist(i, j) for all labels 1..n |
| Tours.ClosedTourOfOrdering | algorithms.py:296 | `[1] + permutation(2..n) + [1]` is a closed tour over 1..n |
| Tours.IotaOrdersInterior | algorithms.py:102 | `range(2, n+1)` lists each city 2..n exactly once |
| Tours.TourRearranged | algorithms.py:305-312 | a rearrangement of a closed tour that keeps its first and last entries is again a closed tour |
| Graph.AddArc | algorithms.py:42 | `adj[u].append(v)` extends u's list by v and changes no other list |
| Graph.AddEdgeDegreeSum | algorithms.py:42-43 | recording an edge in both lists raises the degree sum over 1..n by exactly two |
| Graph.AddEdgeKeepsSymmetric | algorithms.py:141-142 | adding a matching edge between distinct cities to both lists keeps the multigraph symmetric and loop-free |
| Graph.PopArc | algorithms.py:156 | `adj[u].pop()` returns u's last neighbour and leaves the rest of u's list, and every other list, unchanged |
| Graph.FirstIndex | algorithms.py:157 | the index it names holds x, and x occurs nowhere before it |
| Graph.RemoveFirst | algorithms.py:157 | `list.remove(x)` deletes exactly the first occurrence of x: the entries before and after it keep their order, and the multiset loses one x |
| Graph.DropArc | algorithms.py:157 | `adj[v].remove(u)` deletes the first occurrence of u from v's list, keeps the order of the rest, and changes no other list |
| Graph.RemoveEdgeKeepsSymmetric | algorithms.py:156-157 | in a symmetric loop-free multigraph the back edge is always present, so `remove` cannot raise, and removing the edge both ways keeps the graph symmetric and loop-free |
| Masks.MaskBit | algorithms.py:82 | bit j-2 of the mask of S is set exactly when city j is in S |
| Masks.MaskInjective | algorithms.py:82 | two subsets of 2..n with the same mask are equal, so table keys never collide |
| Masks.MaskSingleton | algorithms.py:77 | `1<<(j-2)` is the mask of {j} |
| Masks.PrevMask | algorithms.py:84 | `mask ^ (1<<(j-2))` is the mask of S without j |
| Masks.MaskFull | algorithms.py:90 | `full_mask = (1<<(n-1)) - 1` is the mask of the whole of 2..n |
| Masks.TupleMaskIsMask | algorithms.py:82 | the sum of the bits of a repeat-free tuple of cities is the mask of its set |
| Mst.PopMin | algorithms.py:37 | `heappop` yields an entry no other entry precedes in tuple order, and the heap keeps all the other entries |
| Mst.Pushes | algorithms.py:45-47 | the pushes from v are exactly the entries (dist(v, w), v, w) for every unvisited w in range |
| Mst.Prim | algorithms.py:29-47 | the lists form a tree rooted at 1 that spans 1..n, in which every non-root city hangs off an earlier one; the degree sum is 2(n-1) |
| Mst.TreeIsUndirected | algorithms.py:42-43 | Prim's lists are symmetric and loop-free, and they belong to cities 1..n |
| Mst.PreorderVisitsAll | algorithms.py:50-57 | the preorder walk from the root lists every city 1..n exactly once and starts with 1 |
| Mst.ApproxTour | algorithms.py:17-67 | `approx_tsp_tour` returns a closed tour over 1..n (a permutation of 2..n between two 1s), with cost equal to its path length; one city gives [1, 1] |
| HeldKarp.BestIntoMin | algorithms.py:85-88 | the `min` over k in the subset exists exactly when some candidate exists, is attained by the k it names, and no candidate undercuts it |
| HeldKarp.DpStep | algorithms.py:85-88 | the recurrence: dp[S, j] is at most dp[S-{j}, k] + dist(k, j) for every other k in S |
| HeldKarp.DpLowerBound | algorithms.py:73 | dp[S, j] is no more than the length of any path from 1 through exactly S that ends at j |
| HeldKarp.OptPath | algorithms.py:73 | some path from 1 through exactly S, ending at j, has length dp[S, j] |
| HeldKarp.HeldKarpOptimal | algorithms.py:90-95 | the closing minimum is at most the length of every closed tour over 1..n and is the length of one of them |
| HeldKarp.Combinations | algorithms.py:81 | every tuple of `combinations(xs, k)` has k entries |
| HeldKarp.CombinationsWithin | algorithms.py:81 | every combination draws its entries from xs and has no repeats when xs has none |
| HeldKarp.CombinationsComplete | algorithms.py:81 | every k-element subset of a repeat-free xs is the set of some combination |
| HeldKarp.FillBase | algorithms.py:76-77 | after the base loop, every singleton {j} has dp[{j}, j] = dist(1, j) |
| HeldKarp.MinOver | algorithms.py:85-88 | the loop over the subset's cities finds the minimising k and its value, and no other k undercuts it |
| HeldKarp.MinInto | algorithms.py:83-88 | the value written for (mask, j) is the minimum cost of a path from 1 through the subset ending at j, read only from the smaller subset's entries |
| HeldKarp.FillTuple | algorithms.py:82-88 | one subset's pass writes its entry for every endpoint and leaves every correct earlier entry in place |
| HeldKarp.FillSize | algorithms.py:79-88 | after the pass for one size, every subset of up to that size has all its correct entries |
| HeldKarp.Table | algorithms.py:76-88 | the filled table holds the correct entry for every subset of 2..n and each of its endpoints |
| HeldKarp.Close | algorithms.py:90-95 | the closing loop returns the least `dp[full, j] + dist(j, 1)` and the first end attaining it |
| HeldKarp.HeldKarp | algorithms.py:70-103 | ValueError exactly when n < 2; otherwise the cost is the minimum over all closed tours, attained by one of them, and the tour is [1, 2, …, n, 1] |
| Euler.EulerStep | algorithms.py:154-158 | descending along an edge removes it from both lists, so the degree sum drops by two and the walk's state is kept |
| Euler.EmptiedStep | algorithms.py:154-158 | consuming an edge touches only the lists of its two ends, so every city already in the circuit keeps an empty list |
| Euler.EulerBack | algorithms.py:159-160 | backtracking moves the stack's top, whose list is used up, to the circuit and keeps the walk's state |
| Euler.EulerianTour | algorithms.py:144-162 | on a symmetric loop-free multigraph the walk never raises; the circuit starts at `start`, has one more entry than the edges it consumed, visits only listed cities, leaves a symmetric remainder, and every city on it has no edge left in the remainder |
| Euler.Dedup | algorithms.py:166-171 | the first-visit sequence has no repeats and holds exactly the circuit's cities |
| Euler.DedupOrder | algorithms.py:166-171 | cities appear in the order of their first visit in the circuit |
| Euler.DedupHead | algorithms.py:166-171 | the first city of the circuit stays first |
| Euler.DedupNoDup | algorithms.py:166-171 | a sequence without repeats is its own shortcut |
| Euler.Shortcut | algorithms.py:166-172 | the loop with the `seen` set yields the first-visit sequence followed by 1 |
| Christofides.OddVerticesUpTo | algorithms.py:130 | when every list belongs to a city 1..n, the odd set is exactly the odd-degree cities among 1..n |
| Christofides.Handshake | algorithms.py:130 | the degree sum exceeds the number of odd-degree cities by an even number |
| Christofides.OddCountEven | algorithms.py:129-130 | a graph on 1..n with an even degree sum has an even number of odd-degree cities |
| Christofides.NearestExists | algorithms.py:138 | a non-empty set has a member at least as near to u as every other |
| Christofides.Pick | algorithms.py:137-138 | `pop` takes some unmatched u; the `min` raises exactly when u was the last one, and otherwise returns a nearest other unmatched city |
| Christofides.MatchStep | algorithms.py:137-142 | pairing u with a nearest unmatched v keeps the loop state: unmatched = odd minus the pairs' ends, the pairs are greedy, degrees grew by one per end, symmetry is kept |
| Christofides.GreedyMatching | algorithms.py:134-142 | it raises exactly when the odd set has odd size; otherwise every odd city ends exactly one greedy pair of distinct cities, gains exactly one neighbour, and the graph stays symmetric |
| Christofides.MatchingEvensDegrees | algorithms.py:141-142 | after one new neighbour per odd city, every degree is even |
| Christofides.MatchedTree | algorithms.py:110-142 | Prim's tree plus the matching never raises and is a symmetric loop-free multigraph on 1..n in which every degree is even |
| Christofides.ShortcutTour | algorithms.py:166-172 | the shortcut of a circuit from city 1 starts and ends at 1, repeats no city in between and uses labels 1..n; one city gives [1, 1] |
| Christofides.Christofides | algorithms.py:106-174 | the walk never gets stuck; the tour starts and ends at 1, repeats no city in between, uses labels 1..n, and its reported cost is its path length; one city gives [1, 1] |
| TwoOpt.Move2 | algorithms.py:196 | the reversal keeps positions before i and after j and puts entry i+j-k at position k in between |
| TwoOpt.Move2Perm | algorithms.py:196 | the reversal is a permutation of the input |
| TwoOpt.Row | algorithms.py:190-201 | the loop over j keeps as best tour the input or a reversal that passed the estimate and is strictly shorter than the input, with its length measured, and leaves no promising reversal of row i shorter than the best |
| TwoOpt.Pass | algorithms.py:188-201 | one pass keeps as best tour the input or a promising, strictly shorter reversal, and leaves no promising reversal of the input shorter than the best |
| TwoOpt.MoveOfShape | algorithms.py:189-196 | a reversal in range keeps length, multiset, first and last entries; with at most three cities none is in range |
| TwoOpt.TwoOpt | algorithms.py:177-202 | the result is the input or one reversal of it that passed the estimate and is strictly shorter than the input, with the first and last entries fixed; it is a permutation of the input, its length is its path length and no more than the input's, and no promising reversal is shorter; tours of at most three cities come back unchanged |
| TwoOpt.TwoOptKeepsTour | algorithms.py:196-199 | the 2-opt result of a closed tour is a closed tour |
| ThreeOpt.DownSlice | algorithms.py:238 | `s[start:stop:-1]` has max(0, start-stop) entries, the x-th being s[start-x] |
| ThreeOpt.DownSliceReverse | algorithms.py:256 | a negative-step slice over s[lo..hi] is that segment reversed |
| ThreeOpt.Move3Keeps | algorithms.py:238-265 | every case keeps `tour[:i]` in front and `tour[k:]` at the back |
| ThreeOpt.Case1Drops | algorithms.py:238 | case 1 yields `tour[:j] + tour[k:]`, losing k-j positions |
| ThreeOpt.Case2Perm | algorithms.py:247 | case 2 is a permutation of the tour |
| ThreeOpt.Case3Perm | algorithms.py:256 | case 3 reverses two adjacent segments and is a permutation of the tour |
| ThreeOpt.Case4Dup | algorithms.py:265 | case 4 has the tour's length, but as a multiset it gains `tour[j]` and loses `tour[i]` |
| ThreeOpt.SweepK | algorithms.py:226-269 | the k loop stops at the first case taken or at the first out-of-range read, or else leaves every k of the row calm |
| ThreeOpt.SweepJ | algorithms.py:225-272 | the j loop does the same for every j of row i |
| ThreeOpt.SweepAll | algorithms.py:224-274 | a sweep returns the first event in loop order: the case taken, an out-of-range read, or that no triple takes a case; below six cities no triple exists |
| ThreeOpt.SweepDetermined | algorithms.py:224-274 | two sweep results that both meet the first-event description are equal, so the description fixes what a sweep returns |
| ThreeOpt.StepDetermined | algorithms.py:224-276 | a restart has one outcome: the move the sweep finds is fixed by the tour |
| ThreeOpt.ChainDetermined | algorithms.py:222-276 | two chains of restarts of the same length from the same tour are equal |
| ThreeOpt.ChainMaximal | algorithms.py:222-276 | a chain that ends at a tour whose sweep takes no case is the longest chain from its first tour |
| ThreeOpt.ChainSnoc | algorithms.py:238-276 | taking the move a sweep found extends the chain of restarts by that move |
| ThreeOpt.MoveKeeps | algorithms.py:238-276 | a taken move keeps the first and last entries and uses only cities of the input |
| ThreeOpt.ThreeOpt | algorithms.py:205-278 | the tours it passes through form the unique chain of first-found moves from the input, ending at the returned tour, with exactly fuel + 1 tours when the fuel runs out; a stop comes after a sweep with no case, and an IndexError after a sweep that reads past the end; the ends are kept, only input cities appear and the tour never grows; unless it raises, the length reported is the tour's path length; if the first sweep takes no case the input comes back unchanged; it raises only on a tour of at least seven entries, after a first sweep, on a tour at least two shorter than the input (only case 1 shortens); below seven entries the input comes back unchanged |
| FuzzOpt.SwapKeepsTour | algorithms.py:305-309 | swapping two positions among 1..n-1 keeps a closed tour a closed tour |
| FuzzOpt.MatrixFitsTour | algorithms.py:290-293 | the matrix covers every label of a tour over 1..n |
| FuzzOpt.Perturb | algorithms.py:305-312 | the round is exactly the one its draws allow: a swap position past the end of a shortened incumbent raises; otherwise 2-opt or 3-opt of the swapped tour decides the round (`RoundOf`). With 2-opt it always yields a candidate closed tour of measured length. With 3-opt it yields a candidate from 1 with labels 1..n, no longer than the incumbent, unless it raises |
| FuzzOpt.PerturbTwo | algorithms.py:305-312 | the result is 2-opt's on the swapped tour: the swapped tour itself or one promising reversal of it that is strictly shorter, with its path length; no promising reversal of the swapped tour is shorter; it is a closed tour |
| FuzzOpt.PerturbThree | algorithms.py:305-312 | the result is 3-opt's on the swapped tour. Its restarts form the chain of first-found moves from the swapped tour, at most fuel + 1 long. A candidate is the chain's last tour, whose sweep takes no case, with its path length. An exception comes after a sweep that reads past the end. Running out of fuel means the chain holds fuel + 1 tours |
| FuzzOpt.ThreeOptRoundDetermined | algorithms.py:305-312 | two results that both meet that description of a 3-opt round from the same swapped tour and fuel are equal |
| FuzzOpt.TrailSettles | algorithms.py:312 | a 3-opt round either spends all its fuel or ends at a tour whose sweep takes no case |
| FuzzOpt.Accept | algorithms.py:314-316 | taking a strictly shorter candidate keeps the incumbent no longer than the initial tour |
| FuzzOpt.RaiseNeedsThreeOpt | algorithms.py:305-312 | a round can raise only with 3-opt, on six or more cities, with fuel for two sweeps |
| FuzzOpt.Keep | algorithms.py:314-316 | the incumbent becomes the candidate exactly when the candidate is strictly shorter, and the recorded lengths never increase |
| FuzzOpt.LeadsSnoc | algorithms.py:303-316 | one more completed round extends a run by the `if fn < fx` update |
| FuzzOpt.LeadsDetermined | algorithms.py:303-316 | under 3-opt, equally many completed rounds from the same incumbent and draws are the same rounds and end at the same incumbent |
| FuzzOpt.Run | algorithms.py:303-316 | the loop's completed rounds lead from the initial tour to the returned incumbent, each allowed by its draws; a raise or a fuel stop is the round after them, from that incumbent, and happens only with 3-opt |
| FuzzOpt.FuzzOpt | algorithms.py:281-318 | with 2-opt it always finishes with a closed tour; whenever it finishes, it ran exactly `max_iterations or n` rounds, fx is x's path length, no more than the initial tour's and no more than after any earlier round, and x starts at 1 with labels 1..n; it raises only with 3-opt on six or more cities; `rounds` are the completed rounds: on finishing they lead from the initial tour to (fx, x) through every draw (`Leads`), and on a raise or a fuel stop the next draw's round from the incumbent they reach is that raise or that stop (`Stalled`) |

## Left out

- main.py and argparser.py (command-line handling, file discovery, printing) are not part of this model. Neither is the `city` module's `distance`: distance is an abstract function, and floating-point rounding is not modelled.
- Randomness: the permutation of `np.random.permutation` and the `randint` swap positions are inputs to `FuzzOpt.FuzzOpt`. The redraw loop of algorithms.py:307-308 is replaced by the requirement that each swap names two distinct positions.
- FuzzOpt.FuzzOpt: requires n ≥ 3. With n = 2 the redraw loop never ends, and with n = 1 `randint(1, 0)` raises ValueError (algorithms.py:306); neither run is modelled.
- FuzzOpt.FuzzOpt: the `lengths` output is an observation the source does not return: fx at the start and after every completed round. The same goes for `rounds`, the result of every completed round.
- Mst.Dfs: the preorder walk is total. The recursive `dfs` of algorithms.py:50-56 can exceed Python's recursion limit on a deep tree and raise RecursionError; the recursion limit is not modelled.
- TwoOpt.TwoOpt: requires every label to index the matrix. With an n × n matrix, a label above n or below 1 - n makes numpy raise IndexError, and a label from 1 - n to 0 wraps round to the end of a row; those runs are not modelled. The solvers only pass tours over 1..n.
- ThreeOpt.ThreeOpt: requires every label to index the matrix, for the same reason as TwoOpt.TwoOpt.
- heapq internals and set iteration order are not modelled. `heappop` is "an entry no other precedes in tuple order", `set.pop` is "some member" and `min` with a key is "some nearest member".
- Mst.Prim: minimality of the spanning tree is not proved.
- Approximation ratios (the 2× bound of `approx_tsp_tour`, the 1.5× of the help text) are not proved. They need metric reasoning and the tree's minimality.
- Mst.Prim: requires n ≥ 1. A tour over no cities is not a TSP instance, so the n ≤ 0 runs of `approx_tsp_tour` and `christofides` are not modelled.
- Christofides.Christofides: does not prove that the tour visits every city. That needs the multigraph to be connected and the walk to consume every edge, neither of which is proved.
- Euler.EulerianTour: proves how many edges the circuit consumed, but not that it consumed all of them.
- Euler.EulerianTour: does not prove that consecutive circuit entries are joined by an edge of the graph. That needs the even-degree argument that every detour closes where it began.
- Euler.EulerianTour: the bound n on the labels is a ghost parameter, so the walk's termination can be measured by the degree sum over 1..n.
- ThreeOpt.ThreeOpt: the `trail` output is an observation the source does not return: the input and the tour after every restart.
- ThreeOpt.ThreeOpt: runs at most `fuel` sweeps. The outer loop at algorithms.py:222 need not terminate, because accepted moves are not checked to shorten the tour, and `OutOfFuel` stands for a run longer than the bound.
- ThreeOpt.ThreeOpt: no length decrease is stated. The estimates of algorithms.py:236-263 do not measure the edges the moves create, so no decrease follows.
- TwoOpt.TwoOpt: the matrix is any matrix covering the tour's labels, not necessarily one that agrees with dist. The properties hold for every such matrix; `fuzzopt` passes one built from dist.
