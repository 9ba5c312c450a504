/** The greedy loop of `solve_tsp_qaoa` over the distances the source really
    compares: IEEE doubles, which include NaN. Python's `<` is false whenever
    one side is NaN, so a current waypoint whose unvisited distances are all
    NaN yields no candidate, and the loop then changes neither the current
    index nor the visited set while its guard `len(visited) < n` stays true.
    The rest of the model uses real-valued distances, where this cannot
    happen (`RouteBuilder.GreedyLoop` exits after one iteration per pool
    waypoint). */
module NanScan {
  import opened RouteBuilder

  /** A distance as the source holds it: a number or NaN. */
  datatype Double = Num(value: real) | NaN

  /** Python's `d < b` where b is the running minimum: false when d is NaN. */
  predicate Less(d: Double, b: Bound)
  {
    d.Num? && (b.Infinity? || d.value < b.value)
  }

  /** The inner `for` loop as written: an ascending scan that keeps an
      unvisited candidate only when it compares strictly below the running
      minimum. NaN entries are never kept, so the scan finds nothing exactly
      when every unvisited entry is NaN. */
  function ScanAsWritten(costs: seq<Double>, visited: set<nat>): (r: Option<nat>)
    ensures r.None? <==> forall i: nat :: i < |costs| && i !in visited ==> costs[i].NaN?
    ensures r.Some? ==> r.value < |costs| && r.value !in visited && costs[r.value].Num?
    decreases |costs|
  {
    if |costs| == 0 then None
    else
      var last := |costs| - 1;
      var best := ScanAsWritten(costs[..last], visited);
      if last in visited then best
      else if Less(costs[last], if best.None? then Infinity else Finite(costs[best.value].value)) then Some(last)
      else best
  }

  /** Real distances seen as doubles. */
  function Lift(costs: seq<real>): (ds: seq<Double>)
    ensures |ds| == |costs| && forall i :: 0 <= i < |ds| ==> ds[i] == Num(costs[i])
  {
    seq(|costs|, i requires 0 <= i < |costs| => Num(costs[i]))
  }

  /** Without NaN the scan as written is the scan of the real-valued model. */
  lemma {:induction false} ScanAgreesOnNumbers(costs: seq<real>, visited: set<nat>)
    ensures ScanAsWritten(Lift(costs), visited) == Nearest(costs, visited)
    decreases |costs|
  {
    if |costs| > 0 {
      var last := |costs| - 1;
      assert Lift(costs)[..last] == Lift(costs[..last]);
      ScanAgreesOnNumbers(costs[..last], visited);
    }
  }

  predicate Square(table: seq<seq<Double>>)
  {
    forall i :: 0 <= i < |table| ==> |table[i]| == |table|
  }

  /** One iteration of the `while` loop as written, from current index cur
      and visited set visited: mark cur visited, scan its row, and move to the
      candidate if there is one. Returns the new current index and visited
      set. */
  function StepAsWritten(table: seq<seq<Double>>, cur: nat, visited: set<nat>): (r: (nat, set<nat>))
    requires Square(table) && cur < |table|
    ensures r.1 == visited + {cur} && r.0 < |table|
    ensures r.0 != cur ==> r.0 !in r.1 && table[cur][r.0].Num?
  {
    var seen := visited + {cur};
    match ScanAsWritten(table[cur], seen)
    case None => (cur, seen)
    case Some(k) => (k, seen)
  }

  /** The state after k iterations of the loop body. */
  function Run(table: seq<seq<Double>>, cur: nat, visited: set<nat>, k: nat): (r: (nat, set<nat>))
    requires Square(table) && cur < |table|
    ensures r.0 < |table| && visited <= r.1
    decreases k
  {
    if k == 0 then (cur, visited)
    else
      var next := StepAsWritten(table, cur, visited);
      Run(table, next.0, next.1, k - 1)
  }

  /** A current waypoint that is already visited and whose unvisited
      distances are all NaN is a fixed point of the loop body. */
  lemma StepStalls(table: seq<seq<Double>>, cur: nat, visited: set<nat>)
    requires Square(table) && cur < |table| && cur in visited
    requires forall i: nat :: i < |table| && i !in visited ==> table[cur][i].NaN?
    ensures StepAsWritten(table, cur, visited) == (cur, visited)
  {
    assert visited + {cur} == visited;
  }

  /** From such a state every number of iterations leaves the current index
      and the visited set as they are; when fewer than n indices are visited
      the guard `len(visited) < n` therefore never fails. */
  lemma {:induction false} LoopNeverEnds(table: seq<seq<Double>>, cur: nat, visited: set<nat>, k: nat)
    requires Square(table) && cur < |table| && cur in visited
    requires forall i: nat :: i < |table| && i !in visited ==> table[cur][i].NaN?
    ensures Run(table, cur, visited, k) == (cur, visited)
    decreases k
  {
    if k > 0 {
      StepStalls(table, cur, visited);
      LoopNeverEnds(table, cur, visited, k - 1);
    }
  }

  /** The cost table `build_cost_matrix` gives the pool `[[NaN, 0], [1, 1]]`
      of the input `[[0, 0], [NaN, 0], [1, 1]]`: zeros on the diagonal (the
      matrix starts as zeros) and NaN between the two waypoints (the
      haversine of a NaN longitude). */
  function NanTable(): (table: seq<seq<Double>>)
    ensures Square(table) && |table| == 2
  {
    [[Num(0.0), NaN], [NaN, Num(0.0)]]
  }

  /** On that input the first iteration visits pool index 0 and finds no
      candidate; after any number of further iterations only one of the two
      pool indices is visited, so the loop never exits. */
  lemma NanWaypointLoopsForever(k: nat)
    ensures Run(NanTable(), 0, {}, k + 1) == (0, {0})
    ensures |Run(NanTable(), 0, {}, k + 1).1| < |NanTable()|
  {
    var table := NanTable();
    var none: set<nat> := {};
    assert none + {0} == {0};
    assert ScanAsWritten(table[0], {0}) == None;
    assert StepAsWritten(table, 0, none) == (0, {0});
    LoopNeverEnds(table, 0, {0}, k);
  }
}
