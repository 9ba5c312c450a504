/** Finite sets of indices: the facts about their sizes that the greedy loop's
    `len(visited) < n` test relies on. */
module IndexSets {

  /** The indices 0, ..., n-1. */
  function Range(n: nat): (s: set<nat>)
    ensures forall i: nat :: i in s <==> i < n
    ensures |s| == n
  {
    if n == 0 then {} else Range(n - 1) + {n - 1}
  }

  lemma {:induction false} SubsetSize(a: set<nat>, b: set<nat>)
    requires a <= b
    ensures |a| <= |b|
    decreases a
  {
    if a != {} {
      var x :| x in a;
      SubsetSize(a - {x}, b - {x});
    }
  }

  /** A subset as large as its superset is the superset itself. */
  lemma SubsetSameSize(a: set<nat>, b: set<nat>)
    requires a <= b && |a| == |b|
    ensures a == b
  {
    if a != b {
      var x :| x in b && x !in a;
      SubsetSize(a + {x}, b);
    }
  }

  /** A set of indices below n has at most n elements, and exactly n only
      when it holds every index below n. */
  lemma FullRange(s: set<nat>, n: nat)
    requires s <= Range(n)
    ensures |s| <= n
    ensures |s| == n <==> s == Range(n)
  {
    SubsetSize(s, Range(n));
    if |s| == n {
      SubsetSameSize(s, Range(n));
    }
  }
}
