// Walks over the distance table and what they cost.

module Graphs {

  /** A city name: the key of the coordinate table and of the distance table. */
  type City = string

  /** distances[a][b] is the weight of the road from a to b. */
  type Distances = map<City, map<City, nat>>

  /** p is a walk: each city but the last has a row in the table naming the next one. */
  predicate IsPath(d: Distances, p: seq<City>) {
    forall i :: 0 <= i < |p| - 1 ==> p[i] in d && p[i + 1] in d[p[i]]
  }

  /** The sum of the weights of the roads along the walk p. */
  function PathCost(d: Distances, p: seq<City>): nat
    requires IsPath(d, p)
  {
    if |p| <= 1 then 0
    else
      assert IsPath(d, p[..|p| - 1]);
      PathCost(d, p[..|p| - 1]) + d[p[|p| - 2]][p[|p| - 1]]
  }

  /** p is a walk from a to b. */
  predicate PathFromTo(d: Distances, p: seq<City>, a: City, b: City) {
    |p| > 0 && p[0] == a && p[|p| - 1] == b && IsPath(d, p)
  }

  /** Some walk leads from a to b. */
  ghost predicate Reachable(d: Distances, a: City, b: City) {
    exists p :: PathFromTo(d, p, a, b)
  }

  /** g is no more than the cost of any walk from start to c. */
  ghost predicate OptimalFor(d: Distances, start: City, c: City, g: nat) {
    forall q :: PathFromTo(d, q, start, c) ==> g <= PathCost(d, q)
  }

  /** The estimate never drops by more than the weight of a road (a consistent heuristic). */
  ghost predicate Consistent(d: Distances, h: (City, City) -> nat, goal: City) {
    forall u, v :: u in d && v in d[u] ==> h(u, goal) <= d[u][v] + h(v, goal)
  }

  /** No city occurs twice in s. */
  predicate Distinct(s: seq<City>) {
    forall i, j :: 0 <= i < j < |s| ==> s[i] != s[j]
  }

  /** Appending a city that is not in s keeps s free of repeats. */
  lemma DistinctAppend(s: seq<City>, c: City)
    requires Distinct(s) && c !in s
    ensures Distinct(s + [c])
  {
    var t := s + [c];
    forall i, j | 0 <= i < j < |t|
      ensures t[i] != t[j]
    {
      assert t[i] == s[i];
    }
  }

  /** Every road out of a city of s that has a row leads back into s. */
  ghost predicate ClosedUnderRoads(d: Distances, s: set<City>) {
    forall c, m :: c in s && c in d && m in d[c] ==> m in s
  }

  /** Every city named as a neighbour has a row of its own. */
  ghost predicate EveryNeighbourHasRow(d: Distances) {
    forall c, m :: c in d && m in d[c] ==> m in d
  }

  /** Extending a walk by one road adds that road's weight to its cost. */
  lemma PathCostAppend(d: Distances, p: seq<City>, c: City)
    requires IsPath(d, p) && |p| > 0
    requires p[|p| - 1] in d && c in d[p[|p| - 1]]
    ensures IsPath(d, p + [c])
    ensures PathCost(d, p + [c]) == PathCost(d, p) + d[p[|p| - 1]][c]
  {
    assert (p + [c])[..|p|] == p;
  }

  /** Cutting a walk at position i splits its cost between the two halves. */
  lemma {:induction false} PathCostSplit(d: Distances, p: seq<City>, i: nat)
    requires IsPath(d, p) && i < |p|
    ensures IsPath(d, p[..i + 1]) && IsPath(d, p[i..])
    ensures PathCost(d, p) == PathCost(d, p[..i + 1]) + PathCost(d, p[i..])
  {
    assert IsPath(d, p[..i + 1]);
    assert IsPath(d, p[i..]);
    if i == |p| - 1 {
      assert p[..i + 1] == p;
    } else {
      var q := p[..|p| - 1];
      assert IsPath(d, q);
      PathCostSplit(d, q, i);
      assert q[..i + 1] == p[..i + 1];
      assert p[i..][..|p[i..]| - 1] == q[i..];
    }
  }

  /** Along a walk, a consistent estimate falls by no more than the walk's cost. */
  lemma {:induction false} ConsistentAlong(d: Distances, h: (City, City) -> nat, goal: City, p: seq<City>)
    requires Consistent(d, h, goal) && IsPath(d, p) && |p| > 0
    ensures h(p[0], goal) <= PathCost(d, p) + h(p[|p| - 1], goal)
  {
    if |p| > 1 {
      var q := p[..|p| - 1];
      assert IsPath(d, q);
      ConsistentAlong(d, h, goal, q);
    }
  }

  /** A walk that starts inside a set closed under roads never leaves it. */
  lemma {:induction false} WalkStaysInside(d: Distances, s: set<City>, p: seq<City>)
    requires ClosedUnderRoads(d, s) && IsPath(d, p) && |p| > 0 && p[0] in s
    ensures p[|p| - 1] in s
  {
    if |p| > 1 {
      var q := p[..|p| - 1];
      assert IsPath(d, q);
      WalkStaysInside(d, s, q);
      assert p[|p| - 2] == q[|q| - 1];
    }
  }

  /** In a table where every neighbour has a row, every city reachable from a city with a row has one too. */
  lemma ReachableHasRow(d: Distances, start: City, c: City)
    requires EveryNeighbourHasRow(d) && start in d && Reachable(d, start, c)
    ensures c in d
  {
    var p :| PathFromTo(d, p, start, c);
    var s := d.Keys;
    assert ClosedUnderRoads(d, s);
    WalkStaysInside(d, s, p);
  }
}
