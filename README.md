# Navigator A* search, modelled in Dafny

Navigator finds a route between two cities. Its search is A*. The open list
is a heap of `(f, g, city, path)` entries, where `g` is the cost so far and
`f = g + heuristic`. The search also keeps a closed set. Each pop either
skips a city that is already closed, or extends the entry's path by the
city. If that city is the goal, the search returns the path and its cost.
Otherwise it closes the city and pushes an entry for every road to a city
that is not closed yet. When the open list runs dry, it returns
`(None, inf)`. The searched graph is built by the distance loader. The
loader turns every `City1, City2, Distance` row into two entries of a nested
dictionary, one per direction.

The model is split into these modules:

- `Graphs` (graphs.dfy): cities are strings and the distance table is a
  `map<City, map<City, nat>>`. The module defines walks (`IsPath`,
  `PathFromTo`), their cost (`PathCost`), reachability, a consistent
  heuristic, and lemmas about cutting and extending walks.
- `LoadDistances` (load_distances.dfy): the row loop of `load_distances`.
  `Load` folds the rows, and `InsertRow` performs one pass of the loop.
  Both are checked against an independent description of the table: one
  key per city named in a row, and for each pair the distance of the last
  row about that pair (`Describes`). The table is then proved symmetric.
- `Frontier` (frontier.dfy): open-list entries, and the extract-min that
  `heappop` performs (`MinIndex`, `Remove`).
- `AStarSearch` (a_star_search.dfy): the search loop of `a_star_search`.
  It is a `while` loop over a sequence open list and a set of closed
  cities, and its invariant is the predicate `Inv`.
- `ThreeCities` (three_cities.dfy): a client of the search. On a triangle
  whose direct road is the dearer one, `Search`'s contract alone forces the
  result `["A", "B", "C"]` at cost 2.

The heuristic becomes a parameter `h: (City, City) -> nat`. The Python
`heuristic` is straight-line distance over the coordinate table, and the
model abstracts it away. Weights are `nat`.

Three points of the code's behaviour shape the model:

- The code returns `(None, inf)` when there is no path, not an empty path.
  The model returns `NoPath`.
- A city without a row in `distances` raises `KeyError` when it is
  expanded. There is no dedicated unknown-node error. The model returns
  this case as `MissingKey(city)`.
- With a closed set, an admissible heuristic does not make the result
  optimal. A consistent one does, `h(u) <= w(u, v) + h(v)`, and the code
  enforces neither. The model proves optimality under consistency.

## Model

| member | source | states |
|---|---|---|
| AStarSearch.Search | A_star_search.py:38-61 | A found path starts at `start`, ends at `goal`, follows roads of the table, repeats no city, and its cost is the sum of its road weights. Every city on it before `goal` was expanded. If the heuristic is consistent, no walk from `start` to `goal` costs less. "No path" means `goal` is unreachable from `start`, and every city reachable from `start` was expanded, so each of them has a row. A missing row belongs to a city other than `goal` that is reachable from `start`. If `start == goal` the result is `([start], 0)`. The trace of expanded cities repeats no city, holds only cities with a row, and never holds `goal`. The loop terminates. |
| AStarSearch.PushNeighbours | A_star_search.py:56-59 | The entries already in the open list are kept in front. After them comes exactly one new entry per neighbour of the popped city that is not closed, and no other. Each new entry has cost = popped cost + road weight, estimate = that cost + `h`, and path = popped path + popped city. Every entry stays well formed. |
| AStarSearch.AppendedStep | A_star_search.py:56-59 | Pushing the entry for one more neighbour that is not closed keeps the account of the pushed entries: one per handled neighbour, each as the loop builds it, no city twice. |
| AStarSearch.AppendedHasEntries | A_star_search.py:56-59 | Once every road is handled, each neighbour that is not closed has an entry costing the popped cost plus the road weight. |
| AStarSearch.PushedEntryOk | A_star_search.py:49-59 | An entry pushed for a road to a city that is not closed carries `f = g + h` and a path extended by the popped city. That path plus the new city is a walk from `start` without repeats, and its cost is `g`. |
| AStarSearch.PoppedWalk | A_star_search.py:44-52 | A popped entry for a city that is not closed, extended by that city, is a repeat-free walk from `start` whose cost is the entry's `g`. Under consistency no walk to that city is cheaper. While `start` is not closed, the popped entry is the seed `(start, [], 0)`. |
| AStarSearch.PoppedIsOptimal | A_star_search.py:43-59 | Under a consistent heuristic, the least `(f, g)` entry for a city that is not closed has the least cost of any walk from `start` to that city. |
| AStarSearch.PoppedBeatsWalk | A_star_search.py:43-59 | The same bound, for one given walk: the popped cost is at most the cost of that walk. |
| AStarSearch.EntryOnWalk | A_star_search.py:54-59 | A walk from `start` to a city that is not closed has a first city outside the closed set: every city before it is closed. That city has an entry no dearer than the walk up to it. |
| AStarSearch.StepOutOfClosed | A_star_search.py:56-59 | When a walk crosses from a city expanded at its least cost to the next city, that city has an entry no dearer than the walk up to it. |
| AStarSearch.SeedInv | A_star_search.py:39-41 | The seed entry `(h(start), 0, start, [])` with an empty closed set satisfies the loop invariant. |
| AStarSearch.DiscardKeepsInv | A_star_search.py:46-47 | Skipping an entry whose city is already closed keeps the loop invariant. |
| AStarSearch.RestEntriesOk | A_star_search.py:44-54 | The entries left after a pop stay well formed once the popped city is closed. |
| AStarSearch.ExpandKeepsInv | A_star_search.py:54-59 | Closing the popped city and pushing its roads keeps the loop invariant. It also keeps the recorded closing cost of each city, which is optimal under consistency. |
| AStarSearch.NothingLeftMeansUnreachable | A_star_search.py:43-61 | When the open list is empty, every city reachable from `start` is closed and `goal` is not, so no walk leads from `start` to `goal` and `(None, inf)` is correct. |
| AStarSearch.TraceExtend | A_star_search.py:54 | Closing a city that is not closed yet extends the expansion trace without repeating a city. |
| Frontier.MinIndex | A_star_search.py:44 | The index returned holds an entry with the least `(f, g)`, and every earlier entry is strictly greater. |
| Frontier.Remove | A_star_search.py:44 | Popping removes exactly one occurrence of the popped entry and keeps every other entry: as multisets, the rest is the open list minus that entry. |
| Frontier.HasEntryRemove | A_star_search.py:44 | Removing an entry for another city keeps the entries for a city. |
| Frontier.HasEntryExtend | A_star_search.py:59 | Pushing keeps every entry already in the open list. |
| LoadDistances.Load | A_star_search.py:22-28 | After all rows, the keys are exactly the cities named in rows. `d[a][b]` exists exactly when some row joins `a` and `b`, and it holds the distance of the last such row. Both cities of every row are keys, the table is symmetric, and every neighbour has a row. |
| LoadDistances.InsertRow | A_star_search.py:23-28 | One row adds both of its cities as keys and sets the weight of its pair in both directions. Every other entry is unchanged. |
| LoadDistances.RowStep | A_star_search.py:22-28 | Writing one row into a table that the earlier rows describe gives the table that all the rows describe, with the later row winning. |
| LoadDistances.DescribedIsSymmetric | A_star_search.py:27-28 | A described table has `d[b][a] == d[a][b]` for every entry, and every neighbour is a key. |
| LoadDistances.DescribedHasEveryCity | A_star_search.py:23-26 | Both cities of every row are keys of a described table. |
| LoadDistances.LastWeightSymmetric | A_star_search.py:27-28 | The last row about a pair is the same whichever direction is asked. |
| LoadDistances.LastWeightEndpoints | A_star_search.py:23-28 | A pair that some row is about consists of two cities named in rows. |
| LoadDistances.EndpointsOfRow | A_star_search.py:23-26 | Both cities of every row are among the endpoints. |
| Graphs.PathCostAppend | A_star_search.py:58-59 | Extending a walk by one road adds that road's weight to its cost, which is `new_cost = cost + distance`. |
| Graphs.PathCostSplit | A_star_search.py:58 | Cutting a walk at any city splits its cost between the two halves. |
| Graphs.ConsistentAlong | A_star_search.py:32-35 | Under a consistent heuristic, the estimate at the start of a walk is at most the walk's cost plus the estimate at its end. |
| Graphs.WalkStaysInside | A_star_search.py:56-57 | A walk that starts in a set of cities closed under roads ends in that set. |
| Graphs.ReachableHasRow | A_star_search.py:56 | If every neighbour has a row, every city reachable from a city with a row has one too. So on a loaded table, a search from a city with a row never hits the `KeyError` of the `distances` lookup. The heuristic's own lookup is outside this statement. |
| Graphs.DistinctAppend | A_star_search.py:49 | Appending a city that is not in a repeat-free path keeps it repeat-free. |
| ThreeCities.SearchTriangle | A_star_search.py:38-61 | The roads are A-B 1, B-C 1 and A-C 5, and the estimate is zero. From `Search`'s contract alone, the search from A to C returns `["A", "B", "C"]` at cost 2. |

## Left out

- CSV reading, file encodings, the header prints and `load_cities`: these are I/O only. The model starts from a sequence of rows.
- `float(...)` parsing and floating-point arithmetic: weights and estimates are `nat`, and `float('inf')` becomes the `NoPath` outcome.
- `heuristic`: the Euclidean distance over the coordinate table becomes the parameter `h`. Its `KeyError` for a city without coordinates is not modelled, because `h` is total.
- The module-level script: the hardcoded paths, the example call and the printing.
- AStarSearch.Search: ties on `(f, g)` pop the earliest entry in the open list. `heapq` compares city names and then paths, so the model may pop a different entry among equals. No contract depends on that choice.
- AStarSearch.Search: roads out of a city are pushed in an unspecified order, not in dictionary insertion order. Every ensures holds for every order, so the model does not prove that repeated runs return the same path.
- AStarSearch.Search: optimality is proved only for a consistent heuristic. Nothing in the code guarantees one, and with a closed set an admissible one is not enough.
- AStarSearch.Search: the closed city is added before the failing `distances[current_city]` lookup. The model checks for the row first and returns `MissingKey`. The closed set is discarded either way, so the result is the same.
- The heap's logarithmic cost: the open list is a sequence scanned for its least entry.
- Negative distances cannot be represented, because weights are `nat`.
