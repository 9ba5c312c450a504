/** What the route builder guarantees, stated about its specification: how
    many waypoints the greedy loop places, which ones, how each is chosen, what
    the fallback pass adds, and when the result is a permutation of the input. */
module RouteProperties {
  import opened IndexSets
  import opened CostMatrix
  import opened RouteBuilder

  predicate NoDup<T(==)>(s: seq<T>)
  {
    forall i, j :: 0 <= i < j < |s| ==> s[i] != s[j]
  }

  // ---------------------------------------------------------------------------
  // One selection step

  /** The scan settles on the cheapest unvisited index, and on the lowest one
      among equally cheap ones: every unvisited index costs at least as much,
      and every unvisited index below it costs strictly more. */
  lemma {:induction false} NearestIsArgmin(costs: seq<real>, visited: set<nat>)
    ensures var r := Nearest(costs, visited);
      r.Some? ==>
        && (forall i: nat :: i < |costs| && i !in visited ==> costs[r.value] <= costs[i])
        && (forall i: nat :: i < r.value && i !in visited ==> costs[r.value] < costs[i])
    decreases |costs|
  {
    if |costs| > 0 {
      var last := |costs| - 1;
      var init := costs[..last];
      NearestIsArgmin(init, visited);
      var best := Nearest(init, visited);
      if best.Some? {
        assert forall i: nat :: i < last ==> init[i] == costs[i];
      }
    }
  }

  /** Conversely, an unvisited index that is that cheapest-then-lowest index
      is what the scan returns. */
  lemma {:induction false} NearestUnique(costs: seq<real>, visited: set<nat>, k: nat)
    requires k < |costs| && k !in visited
    requires forall i: nat :: i < |costs| && i !in visited ==> costs[k] <= costs[i]
    requires forall i: nat :: i < k && i !in visited ==> costs[k] < costs[i]
    ensures Nearest(costs, visited) == Some(k)
  {
    NearestIsArgmin(costs, visited);
  }

  // ---------------------------------------------------------------------------
  // The greedy walk

  /** Every iteration but the last picks an index, so the walk from a state
      with |visited| indices visited (plus cur) picks all the others. */
  lemma {:induction false} WalkLength(pool: seq<Coord>, dist: Metric, cur: nat, visited: set<nat>)
    requires cur < |pool| && cur !in visited && visited <= Range(|pool|)
    ensures |Walk(pool, dist, cur, visited)| == |pool| - |visited| - 1
    decreases Range(|pool|) - visited
  {
    var seen := visited + {cur};
    match Nearest(CostRow(pool, dist, cur), seen)
    case None =>
      assert seen == Range(|pool|);
    case Some(k) =>
      WalkLength(pool, dist, k, seen);
  }

  /** Every pool index is visited before the walk starts, is its starting
      index, or is picked by it: the loop stops only when nothing is left. */
  lemma {:induction false} WalkCovers(pool: seq<Coord>, dist: Metric, cur: nat, visited: set<nat>)
    requires cur < |pool| && cur !in visited && visited <= Range(|pool|)
    ensures forall i :: 0 <= i < |pool| ==> i in visited || i == cur || i in Walk(pool, dist, cur, visited)
    decreases Range(|pool|) - visited
  {
    var seen := visited + {cur};
    match Nearest(CostRow(pool, dist, cur), seen)
    case None =>
    case Some(k) =>
      WalkCovers(pool, dist, k, seen);
      assert Walk(pool, dist, cur, visited) == [k] + Walk(pool, dist, k, seen);
  }

  /** The walk never picks an index twice: each pick is unvisited when it is
      made and is visited from then on. */
  lemma {:induction false} WalkDistinct(pool: seq<Coord>, dist: Metric, cur: nat, visited: set<nat>)
    requires cur < |pool| && cur !in visited && visited <= Range(|pool|)
    ensures NoDup(Walk(pool, dist, cur, visited))
    decreases Range(|pool|) - visited
  {
    var seen := visited + {cur};
    match Nearest(CostRow(pool, dist, cur), seen)
    case None =>
    case Some(k) =>
      WalkDistinct(pool, dist, k, seen);
      assert Walk(pool, dist, cur, visited) == [k] + Walk(pool, dist, k, seen);
  }

  /** The walk from pool index 0 picks every other pool index exactly once, and
      never index 0 itself: the greedy loop never appends `remaining_locations[0]`. */
  lemma WalkCoversPool(pool: seq<Coord>, dist: Metric)
    requires |pool| > 0
    ensures var ks := Walk(pool, dist, 0, {});
      && |ks| == |pool| - 1 && NoDup(ks)
      && (forall t :: 0 <= t < |ks| ==> 0 < ks[t] < |pool|)
      && (forall i :: 0 < i < |pool| ==> i in ks)
  {
    WalkLength(pool, dist, 0, {});
    WalkDistinct(pool, dist, 0, {});
    WalkCovers(pool, dist, 0, {});
  }

  /** The indices visited before pick t of a walk: those visited when it
      started, its starting index, and the picks before t. */
  function SeenBefore(ks: seq<nat>, cur: nat, visited: set<nat>, t: nat): set<nat>
    requires t <= |ks|
  {
    visited + {cur} + set s | 0 <= s < t :: ks[s]
  }

  /** Each pick of the walk is what the selection scan returns from the
      previous position over the indices visited so far: the cheapest
      unvisited index, the lowest one among equally cheap ones. */
  lemma {:induction false} WalkPicksNearest(pool: seq<Coord>, dist: Metric, cur: nat, visited: set<nat>, t: nat)
    requires cur < |pool| && cur !in visited && visited <= Range(|pool|)
    requires t < |Walk(pool, dist, cur, visited)|
    ensures var ks := Walk(pool, dist, cur, visited);
      var prev := if t == 0 then cur else ks[t - 1];
      Nearest(CostRow(pool, dist, prev), SeenBefore(ks, cur, visited, t)) == Some(ks[t])
    decreases t
  {
    var ks := Walk(pool, dist, cur, visited);
    var seen := visited + {cur};
    var k := ks[0];
    assert Nearest(CostRow(pool, dist, cur), seen) == Some(k);
    if t == 0 {
      assert SeenBefore(ks, cur, visited, 0) == seen;
    } else {
      var rest := Walk(pool, dist, k, seen);
      assert ks == [k] + rest;
      WalkPicksNearest(pool, dist, k, seen, t - 1);
      SeenBeforeShift(ks, rest, k, cur, visited, t);
    }
  }

  /** Shifting a walk by its first pick: what was visited before pick t of the
      whole walk is what was visited before pick t-1 of the rest. */
  lemma SeenBeforeShift(ks: seq<nat>, rest: seq<nat>, k: nat, cur: nat, visited: set<nat>, t: nat)
    requires ks == [k] + rest && 0 < t <= |ks|
    ensures SeenBefore(rest, k, visited + {cur}, t - 1) == SeenBefore(ks, cur, visited, t)
  {
    var seen := visited + {cur};
    forall x ensures x in SeenBefore(rest, k, seen, t - 1) <==> x in SeenBefore(ks, cur, visited, t) {
      if x == k {
        assert ks[0] == x;
      }
      if x in SeenBefore(ks, cur, visited, t) && x !in seen && x != k {
        var s :| 0 <= s < t && ks[s] == x;
        assert rest[s - 1] == x;
      }
      if x in SeenBefore(rest, k, seen, t - 1) && x !in seen && x != k {
        var s :| 0 <= s < t - 1 && rest[s] == x;
        assert ks[s + 1] == x;
      }
    }
  }

  // ---------------------------------------------------------------------------
  // The fallback pass

  /** Appending only waypoints the route lacks keeps a duplicate-free route
      duplicate-free. */
  lemma {:induction false} FillKeepsNoDup(route: seq<Coord>, pool: seq<Coord>)
    requires NoDup(route)
    ensures NoDup(Fill(route, pool))
    decreases |pool|
  {
    if pool != [] {
      FillKeepsNoDup(route, pool[..|pool| - 1]);
    }
  }

  /** When every pool waypoint after the first is already in the route, the
      fallback pass appends at most the first one, and only if it is missing. */
  lemma {:induction false} FillOnlyHead(route: seq<Coord>, pool: seq<Coord>)
    requires |pool| > 0
    requires forall i :: 0 < i < |pool| ==> pool[i] in route
    ensures Fill(route, pool) == if pool[0] in route then route else route + [pool[0]]
    decreases |pool|
  {
    if |pool| > 1 {
      var init := pool[..|pool| - 1];
      FillOnlyHead(route, init);
      assert pool[|pool| - 1] in route;
    } else {
      assert pool[..0] == [];
    }
  }

  // ---------------------------------------------------------------------------
  // The route

  /** The greedy loop leaves the route one short of the input, so the guard
      of the fallback pass always holds. */
  lemma GreedyPrefixLength(locs: seq<Coord>, dist: Metric)
    requires |locs| > 2
    ensures |GreedyPrefix(locs, dist)| == |locs| - 1
  {
    WalkLength(locs[1..], dist, 0, {});
  }

  /** The anchor followed by the waypoints at a list of pool indices that
      names every pool index but 0 exactly once. */
  predicate Tour(locs: seq<Coord>, ks: seq<nat>, prefix: seq<Coord>)
    requires |locs| > 1
  {
    && |ks| == |locs| - 2 && NoDup(ks)
    && (forall t :: 0 <= t < |ks| ==> 0 < ks[t] < |locs| - 1)
    && (forall i :: 0 < i < |locs| - 1 ==> i in ks)
    && prefix == [locs[0]] + Pick(locs[1..], ks)
  }

  lemma GreedyPrefixIsTour(locs: seq<Coord>, dist: Metric)
    requires |locs| > 2
    ensures Tour(locs, Walk(locs[1..], dist, 0, {}), GreedyPrefix(locs, dist))
  {
    WalkCoversPool(locs[1..], dist);
  }

  /** Such a list holds the anchor first, every input waypoint but
      `locations[1]`, and nothing else. */
  lemma TourContents(locs: seq<Coord>, ks: seq<nat>, prefix: seq<Coord>)
    requires |locs| > 2 && Tour(locs, ks, prefix)
    ensures prefix[0] == locs[0]
    ensures forall i :: 0 <= i < |locs| && i != 1 ==> locs[i] in prefix
    ensures forall x :: x in prefix ==> x in locs
  {
    forall i | 2 <= i < |locs| ensures locs[i] in prefix {
      assert i - 1 in ks;
      var t :| 0 <= t < |ks| && ks[t] == i - 1;
      assert prefix[t + 1] == locs[i];
    }
    forall x | x in prefix ensures x in locs {
      var p :| 0 <= p < |prefix| && prefix[p] == x;
      if p > 0 {
        assert x == locs[ks[p - 1] + 1];
      }
    }
  }

  /** The indices lo, ..., hi-1 in ascending order. */
  function Iota(lo: nat, hi: nat): (ks: seq<nat>)
    requires lo <= hi
    ensures |ks| == hi - lo && forall t :: 0 <= t < |ks| ==> ks[t] == lo + t
  {
    seq(hi - lo, t requires 0 <= t < hi - lo => lo + t)
  }

  lemma PickAppend(pool: seq<Coord>, a: seq<nat>, b: seq<nat>)
    requires forall t :: 0 <= t < |a| ==> a[t] < |pool|
    requires forall t :: 0 <= t < |b| ==> b[t] < |pool|
    ensures Pick(pool, a + b) == Pick(pool, a) + Pick(pool, b)
  {
  }

  /** Reordering the indices reorders the picked waypoints: index lists with
      the same multiset pick the same multiset of waypoints. */
  lemma {:induction false} PickPermutation(pool: seq<Coord>, ks: seq<nat>, js: seq<nat>)
    requires forall t :: 0 <= t < |ks| ==> ks[t] < |pool|
    requires forall t :: 0 <= t < |js| ==> js[t] < |pool|
    requires multiset(ks) == multiset(js)
    ensures multiset(Pick(pool, ks)) == multiset(Pick(pool, js))
    decreases |ks|
  {
    if ks == [] {
      assert |multiset(js)| == 0;
    } else {
      var k := ks[0];
      assert k in multiset(js);
      var p :| 0 <= p < |js| && js[p] == k;
      var ksRest, jsRest := ks[..0] + ks[1..], js[..p] + js[p + 1..];
      RemoveAt(ks, 0);
      RemoveAt(js, p);
      CancelOne(multiset(ksRest), multiset(jsRest), k);
      RestInBounds(ks, 0, ksRest, |pool|);
      RestInBounds(js, p, jsRest, |pool|);
      PickPermutation(pool, ksRest, jsRest);
      PickRemoveAt(pool, ks, 0);
      PickRemoveAt(pool, js, p);
    }
  }

  /** Dropping the element at position p removes one copy of it. */
  lemma RemoveAt<T>(s: seq<T>, p: nat)
    requires p < |s|
    ensures multiset(s) == multiset(s[..p] + s[p + 1..]) + multiset{s[p]}
  {
    assert s == s[..p] + [s[p]] + s[p + 1..];
  }

  lemma RestInBounds(ks: seq<nat>, p: nat, rest: seq<nat>, n: nat)
    requires p < |ks| && forall t :: 0 <= t < |ks| ==> ks[t] < n
    requires rest == ks[..p] + ks[p + 1..]
    ensures forall t :: 0 <= t < |rest| ==> rest[t] < n
  {
  }

  lemma CancelOne<T>(a: multiset<T>, b: multiset<T>, x: T)
    requires a + multiset{x} == b + multiset{x}
    ensures a == b
  {
    assert a == (a + multiset{x}) - multiset{x};
    assert b == (b + multiset{x}) - multiset{x};
  }

  /** Dropping the index at position p drops one copy of the waypoint it
      names. */
  lemma PickRemoveAt(pool: seq<Coord>, ks: seq<nat>, p: nat)
    requires forall t :: 0 <= t < |ks| ==> ks[t] < |pool|
    requires p < |ks|
    ensures multiset(Pick(pool, ks)) == multiset(Pick(pool, ks[..p] + ks[p + 1..])) + multiset{pool[ks[p]]}
  {
    var picked := Pick(pool, ks);
    RemoveAt(picked, p);
    assert Pick(pool, ks[..p] + ks[p + 1..]) == picked[..p] + picked[p + 1..];
  }

  /** Two duplicate-free sequences with the same elements have the same
      multiset. */
  lemma SameElements<T>(s: seq<T>, r: seq<T>)
    requires NoDup(s) && NoDup(r)
    requires forall x :: x in s <==> x in r
    ensures multiset(s) == multiset(r)
  {
    forall x ensures multiset(s)[x] == multiset(r)[x] {
      NoDupCount(s, x);
      NoDupCount(r, x);
    }
  }

  /** Such a list is the input without `locations[1]`, reordered: as a
      multiset it is the anchor plus `locations[2..]`. */
  lemma TourMultiset(locs: seq<Coord>, ks: seq<nat>, prefix: seq<Coord>)
    requires |locs| > 2 && Tour(locs, ks, prefix)
    ensures multiset(prefix) == multiset(locs[..1] + locs[2..])
  {
    var pool := locs[1..];
    var iota := Iota(1, |pool|);
    assert NoDup(iota);
    forall i ensures i in ks <==> i in iota {
      if i in iota {
        var t :| 0 <= t < |iota| && iota[t] == i;
      }
      if i in ks {
        var t :| 0 <= t < |ks| && ks[t] == i;
        assert iota[i - 1] == i;
      }
    }
    SameElements(ks, iota);
    PickPermutation(pool, ks, iota);
    assert Pick(pool, iota) == locs[2..];
    assert locs[..1] == [locs[0]];
  }

  /** Every input waypoint except `locations[1]` is in the route when the
      greedy loop exits, and nothing else is. */
  lemma GreedyPrefixContents(locs: seq<Coord>, dist: Metric)
    requires |locs| > 2
    ensures GreedyPrefix(locs, dist)[0] == locs[0]
    ensures forall i :: 0 <= i < |locs| && i != 1 ==> locs[i] in GreedyPrefix(locs, dist)
    ensures forall x :: x in GreedyPrefix(locs, dist) ==> x in locs
  {
    GreedyPrefixIsTour(locs, dist);
    TourContents(locs, Walk(locs[1..], dist, 0, {}), GreedyPrefix(locs, dist));
  }

  /** The returned route is the route of the greedy loop with
      `locations[1]` appended if and only if the loop did not already place an
      equal waypoint. */
  lemma RouteShape(locs: seq<Coord>, dist: Metric)
    requires |locs| > 2
    ensures var prefix := GreedyPrefix(locs, dist);
      Route(locs, dist) == if locs[1] in prefix then prefix else prefix + [locs[1]]
  {
    var prefix := GreedyPrefix(locs, dist);
    GreedyPrefixLength(locs, dist);
    GreedyPrefixContents(locs, dist);
    FillOnlyHead(prefix, locs[1..]);
  }

  /** The route starts at the anchor and holds exactly the input waypoints, by
      value, whatever the input. */
  lemma RouteHoldsInput(locs: seq<Coord>, dist: Metric)
    requires |locs| > 2
    ensures Route(locs, dist)[0] == locs[0]
    ensures forall x :: x in Route(locs, dist) <==> x in locs
  {
    RouteShape(locs, dist);
    GreedyPrefixContents(locs, dist);
    var prefix := GreedyPrefix(locs, dist);
    forall x | x in locs ensures x in Route(locs, dist) {
      var i :| 0 <= i < |locs| && locs[i] == x;
      if i != 1 {
        assert x in prefix;
      }
    }
  }

  lemma {:induction false} NoDupCount<T>(s: seq<T>, x: T)
    requires NoDup(s)
    ensures multiset(s)[x] == if x in s then 1 else 0
  {
    if s != [] {
      var init := s[..|s| - 1];
      assert s == init + [s[|s| - 1]];
      NoDupCount(init, x);
    }
  }

  /** Appending `x` only when it is missing restores a multiset that lacked
      one copy of `x` exactly when no other copy was already present. */
  lemma AppendMissingCount<T>(prefix: seq<T>, others: seq<T>, x: T, whole: seq<T>, route: seq<T>)
    requires multiset(prefix) == multiset(others)
    requires multiset(whole) == multiset(others) + multiset{x}
    requires route == if x in prefix then prefix else prefix + [x]
    ensures multiset(route) == multiset(whole) <==> x !in others
    ensures x in others ==> route == prefix
  {
    assert x in prefix <==> x in multiset(others);
    if x in others {
      assert |multiset(route)| < |multiset(whole)|;
    }
  }

  /** The route is a permutation of the input exactly when no other input
      waypoint equals `locations[1]`; otherwise the fallback pass skips it and
      the route is one waypoint short. */
  lemma RoutePermutationIff(locs: seq<Coord>, dist: Metric)
    requires |locs| > 2
    ensures multiset(Route(locs, dist)) == multiset(locs) <==> locs[1] !in locs[..1] + locs[2..]
    ensures locs[1] in locs[..1] + locs[2..] ==> Route(locs, dist) == GreedyPrefix(locs, dist)
    ensures locs[1] in locs[..1] + locs[2..] ==> |Route(locs, dist)| == |locs| - 1
  {
    var prefix := GreedyPrefix(locs, dist);
    var others := locs[..1] + locs[2..];
    GreedyPrefixIsTour(locs, dist);
    GreedyPrefixLength(locs, dist);
    TourMultiset(locs, Walk(locs[1..], dist, 0, {}), prefix);
    RouteShape(locs, dist);
    assert locs == locs[..1] + [locs[1]] + locs[2..];
    AppendMissingCount(prefix, others, locs[1], locs, Route(locs, dist));
  }

  /** When no other waypoint equals `locations[1]` (in particular when all
      waypoints are pairwise distinct), the route is a permutation of the
      input that starts at `locations[0]` and ends at `locations[1]`. */
  lemma RouteIsPermutation(locs: seq<Coord>, dist: Metric)
    requires |locs| > 2 && locs[1] !in locs[..1] + locs[2..]
    ensures multiset(Route(locs, dist)) == multiset(locs)
    ensures |Route(locs, dist)| == |locs|
    ensures Route(locs, dist)[0] == locs[0] && Route(locs, dist)[|locs| - 1] == locs[1]
  {
    RoutePermutationIff(locs, dist);
    RouteShape(locs, dist);
    RouteHoldsInput(locs, dist);
    var route := Route(locs, dist);
    assert |multiset(route)| == |multiset(locs)|;
  }

  // ---------------------------------------------------------------------------
  // The trace

  /** When no iteration measures a negative time, the trace is non-negative
      and non-decreasing. */
  lemma TraceNonDecreasing(clock: nat -> real, k: nat)
    requires forall s :: Elapsed(clock, s) >= 0.0
    ensures forall i, j :: 0 <= i <= j < k ==> 0.0 <= Cumulative(clock, k)[i] <= Cumulative(clock, k)[j]
  {
    forall a, b | 1 <= a <= b <= k ensures 0.0 <= Total(clock, a) <= Total(clock, b) {
      TotalMonotone(clock, a, b);
    }
  }

  lemma {:induction false} TotalMonotone(clock: nat -> real, a: nat, b: nat)
    requires forall s :: Elapsed(clock, s) >= 0.0
    requires a <= b
    ensures 0.0 <= Total(clock, a) <= Total(clock, b)
    decreases b
  {
    if a < b {
      TotalMonotone(clock, a, b - 1);
    } else if a > 0 {
      TotalMonotone(clock, a - 1, a - 1);
    }
  }
}
