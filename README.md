# Greedy route builder, modelled in Dafny

This project models the route-building core of a small route-optimisation web
service (`app.py`). A client posts a list of waypoints, each a
`[longitude, latitude]` pair, and gets back a visiting order and a timing trace.
The core is two functions:

- `build_cost_matrix` fills an n-by-n table with the pairwise distances of a
  list of waypoints. Each unordered pair is computed once and stored at
  both `[i][j]` and `[j][i]`, and the diagonal stays zero.
- `solve_tsp_qaoa` keeps the first waypoint (the anchor) first. It then runs
  a greedy nearest-neighbour loop over the rest (the pool), starting from
  pool index 0. Each iteration marks the current index visited and scans
  the cost row for the strictly cheapest unvisited index, so the lowest
  index wins ties. It appends that waypoint and moves there. Around every
  scan it reads the wall clock, adds the elapsed time times 100 to a running
  total, and appends the total to the trace. After the loop a fallback pass
  appends, in pool order, every pool waypoint the route does not yet hold
  (compared by value).

The model is imperative where the source is:

- `CostMatrix.BuildCostMatrix` fills an `array2<real>` with the same nested
  loops.
- `RouteBuilder.ClosestUnvisited`, `TimedScan`, `GreedyLoop` and
  `AppendMissing` follow the scan, the timed iteration, the `while` loop and
  the fallback loop.

Each method is proved against a specification function:

- `Nearest` is the scan.
- `Walk` is the sequence of pool indices the loop picks.
- `Fill` is the fallback pass.
- `Total` and `Cumulative` are the running total and the trace.
- `Route` is the returned route.

The lemmas in `RouteProperties` then state what the source promises about
those functions. The distance function is a parameter `dist`, so every result
holds for any distance, haversine included. The clock is a parameter `clock`:
`clock(k)` is the k-th reading, and iteration s reads positions 2s and 2s+1.

Some consequences of the code that a reader might not expect:

- **Trace length.** With real-valued distances the loop runs once per pool
  waypoint, so for a pool of n waypoints the trace has n entries, not
  n − 1 (`GreedyRoute`: `|trace| == |locs| - 1`). The last iteration
  visits the final index and finds nothing. With a NaN distance the loop
  does not end at all (see Findings).
- **Route order.** The loop never appends pool index 0 (`locations[1]`),
  because it starts there already marked as the current index. The loop
  therefore always leaves the route one short (`GreedyPrefixLength`), and
  the fallback pass always runs. Its only effect is to append `locations[1]`
  at the end when no other waypoint equals it (`RouteShape`). In that case
  the result is a permutation of the input that ends at `locations[1]`
  (`RouteIsPermutation`).
- **Duplicate waypoints.** The route holds every input waypoint exactly
  once exactly when no other input waypoint equals `locations[1]`
  (`RoutePermutationIff`). Other repeated waypoints are harmless: the loop
  works on pool indices, so each copy is appended once. The fallback pass
  compares by value, so when another waypoint equals `locations[1]` it
  appends nothing. The route then holds the same set of waypoints
  (`RouteHoldsInput`) but is one shorter than the input.

## Model

| member | source | states |
|---|---|---|
| CostMatrix.BuildCostMatrix | app.py:36-47 | the table is n by n; entry [i, j] is the distance of the pair with the lower index as first argument; the table is symmetric; its diagonal is zero |
| RouteBuilder.Nearest | app.py:87-96 | the scan finds nothing exactly when every index is visited, and otherwise returns an unvisited index in range |
| RouteProperties.NearestIsArgmin | app.py:88-96 | the index the scan returns costs no more than any unvisited index and strictly less than every unvisited index below it (strict `<` keeps the first of equal costs) |
| RouteProperties.NearestUnique | app.py:88-96 | conversely, an unvisited index that is cheapest, and strictly cheaper than every lower unvisited index, is the one the scan returns |
| RouteBuilder.ClosestUnvisited | app.py:87-96 | the `for i in range(n)` scan over row cur of the table, with the best distance starting at infinity, returns exactly `Nearest` of that cost row |
| RouteBuilder.Walk | app.py:82-105 | every pool index the loop picks is in range, was not visited when the walk started, and differs from the starting index |
| RouteBuilder.WalkStep | app.py:82-105 | one iteration: marking cur visited adds one index; when the scan finds nothing every index is visited and the route is complete; otherwise appending the found waypoint leaves the rest of the walk to go |
| RouteBuilder.TimedScan | app.py:84-101 | one timed iteration: cur is added to visited, the scan result is `Nearest` over the new visited set, and the trace gains one entry, the running total after this many iterations |
| RouteBuilder.GreedyLoop | app.py:79-105 | the loop ends with the anchor followed by the waypoints of the walk from pool index 0, and with a trace of one running total per pool waypoint |
| RouteBuilder.Fill | app.py:107-111 | the fallback pass keeps the route as a prefix, and the result holds exactly the waypoints of the route and the pool |
| RouteBuilder.AppendMissing | app.py:107-111 | the `for loc in remaining_locations` loop computes `Fill` of the route and the pool |
| RouteBuilder.GreedyRoute | app.py:56-114 | for more than two waypoints the method returns `Route` and a trace of `len(locations) - 1` running totals |
| RouteBuilder.SolveTspAsWritten | app.py:50-54 | as written, two waypoints or fewer end in a NameError on `qaoa_execution_times`; longer inputs return the route and the trace |
| RouteBuilder.SolveTsp | app.py:50-114 | as intended, two waypoints or fewer come back unchanged with one zero per waypoint; longer inputs return the route and the trace |
| RouteProperties.WalkLength | app.py:82-105 | starting with `visited` visited and cur current, the walk picks exactly the pool size minus those, minus one, indices |
| RouteProperties.WalkCovers | app.py:82-105 | every pool index is visited before the walk, is its start, or is picked by it: the loop stops only when nothing is left |
| RouteProperties.WalkDistinct | app.py:85-105 | the walk never picks an index twice |
| RouteProperties.WalkCoversPool | app.py:81-105 | from pool index 0 the walk picks each of the other n - 1 pool indices exactly once and never index 0 |
| RouteProperties.WalkPicksNearest | app.py:85-105 | pick t of the walk is what the scan returns from the previous position over the start, the initially visited indices and the earlier picks |
| RouteProperties.GreedyPrefixLength | app.py:82-107 | the greedy loop leaves the route one waypoint short of the input, so the fallback guard always holds |
| RouteProperties.GreedyPrefixContents | app.py:79-105 | when the loop exits the route starts at the anchor, holds every input waypoint except possibly `locations[1]`, and nothing else |
| RouteProperties.FillOnlyHead | app.py:107-111 | when every pool waypoint after the first is already in the route, the fallback pass appends only the first, and only if it is missing |
| RouteProperties.FillKeepsNoDup | app.py:107-111 | the fallback pass appends only missing waypoints, so a duplicate-free route stays duplicate-free |
| RouteProperties.RouteShape | app.py:107-111 | the returned route is the loop's route, with `locations[1]` appended exactly when no equal waypoint is already in it |
| RouteProperties.RouteHoldsInput | app.py:56-111 | the route starts at the anchor and holds exactly the input waypoints, by value, for any input of more than two |
| RouteProperties.PickPermutation | app.py:104-105 | appending the waypoints at a reordering of the same pool indices gives a reordering of the same waypoints (equal multisets) |
| RouteProperties.TourMultiset | app.py:79-105 | when the loop exits, the route is, as a multiset, the anchor plus `locations[2..]`: every input waypoint except `locations[1]`, each copy once |
| RouteProperties.RoutePermutationIff | app.py:56-111 | the route is a permutation of the input exactly when no other input waypoint equals `locations[1]`; otherwise it is the loop's route, one waypoint shorter than the input |
| RouteProperties.RouteIsPermutation | app.py:56-111 | when no other waypoint equals `locations[1]` (in particular when all are pairwise distinct), the route is a permutation of the input (same multiset, same length) that starts at `locations[0]` and ends at `locations[1]` |
| NanScan.ScanAsWritten | app.py:87-96 | with NaN among the distances, the scan finds nothing exactly when every unvisited entry is NaN, and never returns a NaN entry |
| NanScan.ScanAgreesOnNumbers | app.py:87-96 | on distances without NaN the scan as written returns what `Nearest` returns |
| NanScan.StepAsWritten | app.py:84-105 | one iteration adds the current index to the visited set and moves only to an unvisited index with a numeric distance |
| NanScan.StepStalls | app.py:84-105 | from a visited current index whose unvisited distances are all NaN, an iteration changes neither the current index nor the visited set |
| NanScan.LoopNeverEnds | app.py:84-105 | from such a state, any number of iterations leaves the current index and the visited set unchanged |
| NanScan.NanWaypointLoopsForever | app.py:84-105 | for the input `[[0, 0], [NaN, 0], [1, 1]]`, after any number of iterations one of two pool indices is visited, so the `while len(visited) < n` guard never fails |
| RouteProperties.TotalMonotone | app.py:98-100 | when no iteration measures a negative time, the running total is non-negative and never decreases |
| RouteProperties.TraceNonDecreasing | app.py:98-101 | under the same condition every trace entry is non-negative and the trace is non-decreasing |

## Left out

- The haversine formula of `calculate_distance` (app.py:19-34) is not modelled. Distance is the parameter `dist`, and no property depends on its formula.
- RouteBuilder.GreedyLoop: models real-valued distances only. A NaN coordinate in the pool makes the source loop forever, which is modelled separately in `NanScan` (see Findings).
- Floating point is otherwise not modelled. Distances and times are exact reals: infinite distances (a row of them would stall the scan the same way), `round(end_time - start_time, 6)`, and float addition of the running total are not captured.
- The wall clock is not modelled. `time.time()` is the parameter `clock`, read at positions 2s and 2s+1 in iteration s.
- The quadratic program (app.py:63-77) is left out because its result is never used. The unused solver imports are left out for the same reason.
- The Flask layer is left out: the page route, the `/optimize` request validation, JSON encoding, and the handler that turns any exception into a 500 response (app.py:119-147). A consequence is that, with the defect below, a two-waypoint request gets an error response.
- The write to the global `qaoa_execution_times` cache is left out. The name is never defined, and only the resulting failure is modelled.
- RouteBuilder.SolveTsp: the short-input trace is `[0] * len(locations)`, a list of integer zeros, and is modelled as real zeros.

## Findings

| source | as written | input that shows it | evidently intended | confidence | as-written member | corrected member |
|---|---|---|---|---|---|---|
| app.py:52-54 | the short-input branch stores into `qaoa_execution_times`, a name never defined anywhere, so the call raises NameError before it can return | `[[0, 0], [10, 10]]` (any list of two waypoints or fewer) | return the waypoints unchanged with a trace of one zero per waypoint | high; not executed | RouteBuilder.SolveTspAsWritten | RouteBuilder.SolveTsp |
| app.py:84-105 | the scan compares with `<`, which is false for NaN; when every unvisited distance from the current waypoint is NaN the scan finds nothing, and the `while len(visited) < n` loop repeats with the same state forever | `[[0, 0], [NaN, 0], [1, 1]]` (a NaN longitude in the pool) | the loop ends after one iteration per pool waypoint | high; not executed | NanScan.NanWaypointLoopsForever | RouteBuilder.GreedyLoop |
