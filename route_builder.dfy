/** The route builder `solve_tsp_qaoa`: the first waypoint stays first, the
    others (the pool) are visited by a greedy nearest-neighbour walk over their
    cost table, and a fallback pass appends any pool waypoint the route still
    lacks. The quadratic program the function also builds is never used and is
    not modelled. */
module RouteBuilder {
  import opened IndexSets
  import opened CostMatrix

  datatype Option<T> = None | Some(value: T)

  /** The fault raised by the short-input branch. */
  datatype Error = NameError(name: string)

  datatype Result<T> = Success(value: T) | Failure(error: Error)

  /** The running minimum of the scan; it starts at `float("inf")`. */
  datatype Bound = Infinity | Finite(value: real)

  predicate Below(d: real, b: Bound)
  {
    b.Infinity? || d < b.value
  }

  // ---------------------------------------------------------------------------
  // Specification of one selection step

  /** The index an ascending scan settles on when it keeps a candidate only if
      it is unvisited and strictly cheaper than the best so far: the cheapest
      unvisited index, the lowest one among equally cheap ones, or None when
      every index is visited. */
  function Nearest(costs: seq<real>, visited: set<nat>): (r: Option<nat>)
    ensures r.None? <==> forall i: nat :: i < |costs| ==> i in visited
    ensures r.Some? ==> r.value < |costs| && r.value !in visited
    decreases |costs|
  {
    if |costs| == 0 then None
    else
      var last := |costs| - 1;
      var best := Nearest(costs[..last], visited);
      if last in visited then best
      else if best.None? || costs[last] < costs[best.value] then Some(last)
      else best
  }

  /** The pool indices that the greedy loop appends, from the top of an
      iteration whose current index is cur and whose visited set is visited:
      mark cur visited, step to the nearest unvisited index, and stop when
      there is none. */
  function Walk(pool: seq<Coord>, dist: Metric, cur: nat, visited: set<nat>): (ks: seq<nat>)
    requires cur < |pool| && cur !in visited && visited <= Range(|pool|)
    ensures forall t :: 0 <= t < |ks| ==> ks[t] < |pool| && ks[t] !in visited && ks[t] != cur
    decreases Range(|pool|) - visited
  {
    var seen := visited + {cur};
    match Nearest(CostRow(pool, dist, cur), seen)
    case None => []
    case Some(k) => [k] + Walk(pool, dist, k, seen)
  }

  /** The waypoints at the given pool indices. */
  function Pick(pool: seq<Coord>, ks: seq<nat>): seq<Coord>
    requires forall t :: 0 <= t < |ks| ==> ks[t] < |pool|
  {
    seq(|ks|, t requires 0 <= t < |ks| => pool[ks[t]])
  }

  /** The route when the greedy loop exits: the anchor, then the pool in the
      order of the walk that starts at pool index 0. */
  function GreedyPrefix(locs: seq<Coord>, dist: Metric): seq<Coord>
    requires |locs| > 1
  {
    var pool := locs[1..];
    [locs[0]] + Pick(pool, Walk(pool, dist, 0, {}))
  }

  /** The fallback pass: every waypoint of pool that the route does not hold
      yet is appended, in pool order; the route is kept as a prefix, nothing
      is lost and nothing new is invented. */
  function Fill(route: seq<Coord>, pool: seq<Coord>): (r: seq<Coord>)
    ensures |route| <= |r| && r[..|route|] == route
    ensures forall x :: x in r <==> x in route || x in pool
    decreases |pool|
  {
    if pool == [] then route
    else
      var r := Fill(route, pool[..|pool| - 1]);
      var x := pool[|pool| - 1];
      if x in r then r else r + [x]
  }

  /** The route returned for more than two waypoints. */
  function Route(locs: seq<Coord>, dist: Metric): seq<Coord>
    requires |locs| > 2
  {
    var prefix := GreedyPrefix(locs, dist);
    if |prefix| < |locs| then Fill(prefix, locs[1..]) else prefix
  }

  // ---------------------------------------------------------------------------
  // Specification of the timing trace

  /** The time measured by iteration s: `clock(i)` is the i-th reading of the
      wall clock (`time.time()`), and iteration s reads it twice, before and
      after its scan. */
  function Elapsed(clock: nat -> real, s: nat): real
  {
    clock(2 * s + 1) - clock(2 * s)
  }

  /** The running total after k iterations; each adds its elapsed time times 100. */
  function Total(clock: nat -> real, k: nat): real
  {
    if k == 0 then 0.0 else Total(clock, k - 1) + Elapsed(clock, k - 1) * 100.0
  }

  /** The trace of k iterations: the running total after each of them. */
  function Cumulative(clock: nat -> real, k: nat): (trace: seq<real>)
  {
    seq(k, i requires 0 <= i < k => Total(clock, i + 1))
  }

  /** The running total and the trace agree with the clock after |trace|
      iterations. */
  predicate Timed(clock: nat -> real, trace: seq<real>, total: real)
  {
    total == Total(clock, |trace|) && trace == Cumulative(clock, |trace|)
  }

  /** One iteration of the greedy loop, read off the definition of Walk: with
      no unvisited index left the walk is complete and every pool index is
      visited; otherwise the walk continues from the nearest unvisited index. */
  lemma WalkStep(pool: seq<Coord>, dist: Metric, visited: set<nat>, cur: nat, route: seq<Coord>, goal: seq<Coord>)
    requires visited <= Range(|pool|) && cur < |pool| && cur !in visited
    requires route + Pick(pool, Walk(pool, dist, cur, visited)) == goal
    ensures var seen := visited + {cur};
      var closest := Nearest(CostRow(pool, dist, cur), seen);
      && seen <= Range(|pool|) && |seen| == |visited| + 1
      && (closest.None? ==> |seen| == |pool| && route == goal)
      && (closest.Some? ==>
            && closest.value < |pool| && closest.value !in seen && |seen| < |pool|
            && (route + [pool[closest.value]]) + Pick(pool, Walk(pool, dist, closest.value, seen)) == goal)
  {
    var seen := visited + {cur};
    SeenStep(pool, dist, visited, cur);
    match Nearest(CostRow(pool, dist, cur), seen)
    case None =>
      assert Walk(pool, dist, cur, visited) == [];
    case Some(k) =>
      var rest := Walk(pool, dist, k, seen);
      assert Walk(pool, dist, cur, visited) == [k] + rest;
      PickCons(pool, k, rest);
      assert route + ([pool[k]] + Pick(pool, rest)) == (route + [pool[k]]) + Pick(pool, rest);
  }

  /** Marking cur visited adds one index, and the scan finds nothing exactly
      when that leaves no index unvisited. */
  lemma SeenStep(pool: seq<Coord>, dist: Metric, visited: set<nat>, cur: nat)
    requires visited <= Range(|pool|) && cur < |pool| && cur !in visited
    ensures var seen := visited + {cur};
      var closest := Nearest(CostRow(pool, dist, cur), seen);
      && seen <= Range(|pool|) && |seen| == |visited| + 1
      && (closest.None? ==> |seen| == |pool|)
      && (closest.Some? ==> |seen| < |pool|)
  {
    var seen := visited + {cur};
    FullRange(seen, |pool|);
  }

  lemma PickCons(pool: seq<Coord>, k: nat, rest: seq<nat>)
    requires k < |pool| && forall t :: 0 <= t < |rest| ==> rest[t] < |pool|
    ensures Pick(pool, [k] + rest) == [pool[k]] + Pick(pool, rest)
  {
  }

  // ---------------------------------------------------------------------------
  // The code

  /** One selection scan: `for i in range(n)` over row cur of the cost table,
      keeping an unvisited index whenever its cost is strictly below the best
      so far. */
  method ClosestUnvisited(m: array2<real>, pool: seq<Coord>, dist: Metric, cur: nat, visited: set<nat>)
    returns (closest: Option<nat>)
    requires cur < |pool| && m.Length0 == |pool| && m.Length1 == |pool|
    requires forall i, j :: 0 <= i < |pool| && 0 <= j < |pool| ==> m[i, j] == Cost(pool, dist, i, j)
    ensures closest == Nearest(CostRow(pool, dist, cur), visited)
  {
    ghost var row := CostRow(pool, dist, cur);
    var closestDistance := Infinity;
    closest := None;
    for i := 0 to |pool|
      invariant closest == Nearest(row[..i], visited)
      invariant closest.None? <==> closestDistance == Infinity
      invariant closest.Some? ==> closest.value < i && closestDistance == Finite(row[closest.value])
    {
      assert row[..i + 1][..i] == row[..i];
      if i !in visited {
        var distance := m[cur, i];
        if Below(distance, closestDistance) {
          closestDistance := Finite(distance);
          closest := Some(i);
        }
      }
    }
    assert row[..|pool|] == row;
  }

  /** The fallback pass: `for loc in remaining_locations`, append loc when it
      is not in the route yet. */
  method AppendMissing(route: seq<Coord>, pool: seq<Coord>) returns (r: seq<Coord>)
    ensures r == Fill(route, pool)
  {
    r := route;
    for i := 0 to |pool|
      invariant r == Fill(route, pool[..i])
    {
      assert pool[..i + 1][..i] == pool[..i];
      var loc := pool[i];
      if loc !in r {
        r := r + [loc];
      }
    }
    assert pool[..|pool|] == pool;
  }

  /** One timed selection scan: read the clock, scan row cur, read the clock
      again, and add the elapsed time, times 100, to the running total and to
      the trace. The iteration number is the length of the trace so far. */
  method TimedScan(m: array2<real>, pool: seq<Coord>, dist: Metric, cur: nat, visited: set<nat>,
                   clock: nat -> real, trace: seq<real>, total: real)
    returns (visited': set<nat>, closest: Option<nat>, trace': seq<real>, total': real)
    requires cur < |pool| && m.Length0 == |pool| && m.Length1 == |pool|
    requires forall i, j :: 0 <= i < |pool| && 0 <= j < |pool| ==> m[i, j] == Cost(pool, dist, i, j)
    requires Timed(clock, trace, total)
    ensures visited' == visited + {cur}
    ensures closest == Nearest(CostRow(pool, dist, cur), visited')
    ensures |trace'| == |trace| + 1 && Timed(clock, trace', total')
  {
    var startTime := clock(2 * |trace|);
    visited' := visited + {cur};
    closest := ClosestUnvisited(m, pool, dist, cur, visited');
    var endTime := clock(2 * |trace| + 1);
    var executionTime := endTime - startTime;
    total' := total + executionTime * 100.0;
    trace' := trace + [total'];
  }

  /** The greedy loop of `solve_tsp_qaoa`: starting from pool index 0 with
      nothing visited, each iteration marks the current index visited, scans
      for the nearest unvisited index, appends the running time total to the
      trace and, when an index was found, appends its waypoint to the route and
      moves to it. It stops once all n pool indices are visited. */
  method GreedyLoop(first: Coord, pool: seq<Coord>, dist: Metric, m: array2<real>, clock: nat -> real)
    returns (route: seq<Coord>, trace: seq<real>)
    requires |pool| > 0
    requires m.Length0 == |pool| && m.Length1 == |pool|
    requires forall i, j :: 0 <= i < |pool| && 0 <= j < |pool| ==> m[i, j] == Cost(pool, dist, i, j)
    ensures route == [first] + Pick(pool, Walk(pool, dist, 0, {}))
    ensures trace == Cumulative(clock, |pool|)
  {
    var n := |pool|;
    trace := [];
    route := [first];
    var visited: set<nat> := {};
    var cur: nat := 0;
    var total := 0.0;
    ghost var goal := [first] + Pick(pool, Walk(pool, dist, 0, {}));
    while |visited| < n
      invariant visited <= Range(n) && cur < n
      invariant |visited| < n ==> cur !in visited && route + Pick(pool, Walk(pool, dist, cur, visited)) == goal
      invariant |visited| == n ==> route == goal
      invariant |trace| == |visited| && Timed(clock, trace, total)
      decreases n - |visited|
    {
      WalkStep(pool, dist, visited, cur, route, goal);
      var closest;
      visited, closest, trace, total := TimedScan(m, pool, dist, cur, visited, clock, trace, total);
      if closest.Some? {
        route := route + [pool[closest.value]];
        cur := closest.value;
      }
    }
    FullRange(visited, n);
  }

  /** The general case of `solve_tsp_qaoa` (more than two waypoints): build the
      cost table of the pool, run the greedy loop, then run the fallback pass
      when the route is shorter than the input. */
  method GreedyRoute(locs: seq<Coord>, dist: Metric, clock: nat -> real)
    returns (route: seq<Coord>, trace: seq<real>)
    requires |locs| > 2
    ensures route == Route(locs, dist)
    ensures trace == Cumulative(clock, |locs| - 1) && |trace| == |locs| - 1
  {
    var firstLocation := locs[0];
    var remainingLocations := locs[1..];
    var costMatrix := BuildCostMatrix(remainingLocations, dist);
    route, trace := GreedyLoop(firstLocation, remainingLocations, dist, costMatrix, clock);
    if |route| < |locs| {
      route := AppendMissing(route, remainingLocations);
    }
  }

  /** `solve_tsp_qaoa` as written: for two waypoints or fewer it stores into
      `qaoa_execution_times`, a name that is never defined, and so fails. */
  method SolveTspAsWritten(locs: seq<Coord>, dist: Metric, clock: nat -> real)
    returns (r: Result<(seq<Coord>, seq<real>)>)
    ensures |locs| <= 2 ==> r == Failure(NameError("qaoa_execution_times"))
    ensures |locs| > 2 ==> r == Success((Route(locs, dist), Cumulative(clock, |locs| - 1)))
  {
    if |locs| <= 2 {
      return Failure(NameError("qaoa_execution_times"));
    }
    var route, trace := GreedyRoute(locs, dist, clock);
    r := Success((route, trace));
  }

  /** `solve_tsp_qaoa` as intended: two waypoints or fewer come back unchanged
      with one zero per waypoint in the trace. */
  method SolveTsp(locs: seq<Coord>, dist: Metric, clock: nat -> real)
    returns (route: seq<Coord>, trace: seq<real>)
    ensures |locs| <= 2 ==> route == locs && trace == seq(|locs|, _ => 0.0)
    ensures |locs| > 2 ==> route == Route(locs, dist) && trace == Cumulative(clock, |locs| - 1)
  {
    if |locs| <= 2 {
      return locs, seq(|locs|, _ => 0.0);
    }
    route, trace := GreedyRoute(locs, dist, clock);
  }
}
