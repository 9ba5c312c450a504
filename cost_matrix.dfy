/** Waypoints, the distance between them, and the pairwise cost table that
    `build_cost_matrix` fills in place. */
module CostMatrix {

  /** A waypoint as the client sends it: index 0 is the longitude, index 1 the
      latitude. Waypoints are compared by value. */
  datatype Coord = Coord(lon: real, lat: real)

  /** The distance between two waypoints. The haversine formula is not part of
      this model: the route builder only compares distances with `<`. */
  type Metric = (Coord, Coord) -> real

  /** The entry that the table holds at row i, column j: the distance of each
      unordered pair is computed once, with the lower index as the first
      argument, and the diagonal keeps its initial zero. */
  function Cost(locs: seq<Coord>, dist: Metric, i: nat, j: nat): real
    requires i < |locs| && j < |locs|
  {
    if i < j then dist(locs[i], locs[j])
    else if j < i then dist(locs[j], locs[i])
    else 0.0
  }

  /** Row i of the table, as a sequence. */
  function CostRow(locs: seq<Coord>, dist: Metric, i: nat): (row: seq<real>)
    requires i < |locs|
  {
    seq(|locs|, j requires 0 <= j < |locs| => Cost(locs, dist, i, j))
  }

  /** Fills a zero-initialised n-by-n table: for every i and every j above i the
      distance is computed once and stored at [i, j] and at [j, i]. */
  method BuildCostMatrix(locs: seq<Coord>, dist: Metric) returns (m: array2<real>)
    ensures m.Length0 == |locs| && m.Length1 == |locs|
    ensures forall i, j :: 0 <= i < |locs| && 0 <= j < |locs| ==> m[i, j] == Cost(locs, dist, i, j)
    ensures forall i, j :: 0 <= i < |locs| && 0 <= j < |locs| ==> m[i, j] == m[j, i]
    ensures forall i :: 0 <= i < |locs| ==> m[i, i] == 0.0
  {
    var n := |locs|;
    m := new real[n, n]((_, _) => 0.0);
    for i := 0 to n
      invariant forall p, q :: 0 <= p < n && 0 <= q < n ==>
        m[p, q] == if p != q && (p < i || q < i) then Cost(locs, dist, p, q) else 0.0
    {
      for j := i + 1 to n
        invariant forall p, q :: 0 <= p < n && 0 <= q < n ==>
          m[p, q] == if p != q && (p < i || q < i || (p == i && q < j) || (q == i && p < j))
                     then Cost(locs, dist, p, q) else 0.0
      {
        var distance := dist(locs[i], locs[j]);
        m[i, j] := distance;
        m[j, i] := distance;
      }
    }
  }
}
