// The A* point-to-point search over the distance table.

module AStarSearch {
  import opened Graphs
  import opened Frontier

  /** What the search hands back: a path and its cost; "no path" (the
      (None, inf) pair); or the city whose missing row aborts the search. */
  datatype Outcome = Found(path: seq<City>, cost: nat) | NoPath | MissingKey(city: City)

  /** What every open-list entry satisfies: its estimate is its cost plus the
      heuristic, its path followed by its city is a walk from start whose cost
      is g, and that walk repeats no city and passes only through closed cities. */
  ghost predicate EntryOk(graph: Distances, h: (City, City) -> nat, start: City, goal: City,
                          closed: set<City>, e: Entry)
  {
    && e.f == e.g + h(e.city, goal)
    && PathFromTo(graph, e.path + [e.city], start, e.city)
    && e.g == PathCost(graph, e.path + [e.city])
    && Distinct(e.path) && e.city !in e.path
    && (forall c :: c in e.path ==> c in closed)
  }

  /** The loop invariant of the search. gOf records the cost at which each
      closed city was expanded. Every road out of a closed city ends at a closed
      city or at a city with an entry at most that expensive; start is closed or
      still has its seed entry; under a consistent heuristic every closed city
      was expanded at its least cost. */
  ghost predicate Inv(graph: Distances, h: (City, City) -> nat, start: City, goal: City,
                      open: seq<Entry>, closed: set<City>, gOf: map<City, nat>)
  {
    && closed <= graph.Keys && gOf.Keys == closed && goal !in closed
    && (forall k :: 0 <= k < |open| ==> EntryOk(graph, h, start, goal, closed, open[k]))
    && (forall c, m :: c in closed && m in graph[c] ==>
          m in closed || HasEntry(open, m, gOf[c] + graph[c][m]))
    && (start in closed || HasEntry(open, start, 0))
    && (Consistent(graph, h, goal) ==>
          forall c :: c in closed ==> OptimalFor(graph, start, c, gOf[c]))
  }

  /** The search: pop the least entry; skip it if its city is closed; extend
      its path by its city; stop at goal; otherwise close the city and push an
      entry for every road to a city not closed yet. */
  method Search(graph: Distances, h: (City, City) -> nat, start: City, goal: City)
    returns (r: Outcome, ghost expanded: seq<City>)
    ensures r.Found? ==> PathFromTo(graph, r.path, start, goal) && r.cost == PathCost(graph, r.path)
    ensures r.Found? ==> Distinct(r.path)
    ensures r.Found? && Consistent(graph, h, goal) ==> OptimalFor(graph, start, goal, r.cost)
    ensures r.NoPath? ==> !Reachable(graph, start, goal)
    ensures r.MissingKey? ==> r.city !in graph && r.city != goal && Reachable(graph, start, r.city)
    ensures start == goal ==> r == Found([start], 0)
    ensures Distinct(expanded) && goal !in expanded
    ensures forall c :: c in expanded ==> c in graph
    ensures r.NoPath? ==> forall c :: Reachable(graph, start, c) ==> c in expanded
    ensures r.Found? ==> forall c :: c in r.path[..|r.path| - 1] ==> c in expanded
  {
    var open := [Entry(0 + h(start, goal), 0, start, [])];
    var closed: set<City> := {};
    ghost var gOf: map<City, nat> := map[];
    expanded := [];
    SeedInv(graph, h, start, goal);
    while open != []
      invariant Inv(graph, h, start, goal, open, closed, gOf)
      invariant Trace(expanded, closed)
      decreases graph.Keys - closed, |open|
    {
      var i := MinIndex(open);
      var e := open[i];
      var rest := Remove(open, i);
      if e.city in closed {
        DiscardKeepsInv(graph, h, start, goal, open, closed, gOf, i);
        open := rest;
      } else {
        var path := e.path + [e.city];
        PoppedWalk(graph, h, start, goal, open, closed, gOf, i);
        if e.city == goal {
          assert EntryOk(graph, h, start, goal, closed, e);
          assert path[..|path| - 1] == e.path;
          return Found(path, e.g), expanded;
        }
        if e.city !in graph {
          return MissingKey(e.city), expanded;
        }
        var closed' := closed + {e.city};
        RestEntriesOk(graph, h, start, goal, open, closed, gOf, i, e.city);
        var open' := PushNeighbours(graph, h, start, goal, closed', e, rest);
        ExpandKeepsInv(graph, h, start, goal, open, closed, gOf, i, open');
        TraceExtend(expanded, closed, e.city);
        open, closed := open', closed';
        gOf := gOf[e.city := e.g];
        expanded := expanded + [e.city];
      }
    }
    NothingLeftMeansUnreachable(graph, h, start, goal, closed, gOf);
    r := NoPath;
  }

  /** expanded lists the closed cities in the order they were closed, each once. */
  ghost predicate Trace(expanded: seq<City>, closed: set<City>) {
    Distinct(expanded) && forall c :: c in closed <==> c in expanded
  }

  /** Closing a city not closed yet extends the trace by that city. */
  lemma TraceExtend(expanded: seq<City>, closed: set<City>, c: City)
    requires Trace(expanded, closed) && c !in closed
    ensures Trace(expanded + [c], closed + {c})
  {
    DistinctAppend(expanded, c);
  }

  /** The loop over the roads out of the popped city: an entry for every
      neighbour not closed yet, at the popped cost plus the road's weight, with
      the popped path extended by the popped city. */
  method PushNeighbours(graph: Distances, h: (City, City) -> nat, start: City, goal: City,
                        closed: set<City>, e: Entry, rest: seq<Entry>)
    returns (open: seq<Entry>)
    requires e.city in graph && e.city in closed
    requires EntryOk(graph, h, start, goal, closed - {e.city}, e)
    requires forall k :: 0 <= k < |rest| ==> EntryOk(graph, h, start, goal, closed, rest[k])
    ensures |open| >= |rest| && open[..|rest|] == rest
    ensures forall k :: |rest| <= k < |open| ==>
              open[k].city in graph[e.city] && open[k].city !in closed &&
              open[k] == Successor(graph, h, goal, e, open[k].city)
    ensures forall m :: m in graph[e.city] && m !in closed ==>
              exists k :: |rest| <= k < |open| && open[k].city == m
    ensures forall k, k' :: |rest| <= k < k' < |open| ==> open[k].city != open[k'].city
    ensures forall k :: 0 <= k < |open| ==> EntryOk(graph, h, start, goal, closed, open[k])
    ensures forall m :: m in graph[e.city] && m !in closed ==> HasEntry(open, m, e.g + graph[e.city][m])
  {
    var path := e.path + [e.city];
    var neighbours := graph[e.city];
    var todo := neighbours.Keys;
    open := rest;
    while todo != {}
      invariant todo <= neighbours.Keys
      invariant Appended(graph, h, goal, closed, e, rest, open, todo)
      invariant forall k :: 0 <= k < |open| ==> EntryOk(graph, h, start, goal, closed, open[k])
      decreases todo
    {
      var m :| m in todo;
      if m !in closed {
        var newCost := e.g + neighbours[m];
        var pushed := Entry(newCost + h(m, goal), newCost, m, path);
        assert pushed == Successor(graph, h, goal, e, m);
        PushedEntryOk(graph, h, start, goal, closed, e, m);
        AppendedStep(graph, h, goal, closed, e, rest, open, todo, m);
        open := open + [pushed];
        assert open[|open| - 1] == pushed;
      }
      todo := todo - {m};
    }
    AppendedHasEntries(graph, h, goal, closed, e, rest, open);
  }

  /** Where the open list stands in the loop over the roads out of e's city:
      rest comes first; after it, for each neighbour handled so far (not in
      todo) and not closed, exactly one entry, the one Successor builds. */
  ghost predicate Appended(graph: Distances, h: (City, City) -> nat, goal: City, closed: set<City>,
                           e: Entry, rest: seq<Entry>, open: seq<Entry>, todo: set<City>)
    requires e.city in graph
  {
    && |open| >= |rest| && open[..|rest|] == rest
    && (forall k :: |rest| <= k < |open| ==>
          open[k].city in graph[e.city] && open[k].city !in closed && open[k].city !in todo &&
          open[k] == Successor(graph, h, goal, e, open[k].city))
    && (forall m :: m in graph[e.city] && m !in todo && m !in closed ==>
          exists k :: |rest| <= k < |open| && open[k].city == m)
    && (forall k, k' :: |rest| <= k < k' < |open| ==> open[k].city != open[k'].city)
  }

  /** Handling neighbour m: pushing its entry when it is not closed, or
      nothing when it is, keeps the loop's account of the open list. */
  lemma AppendedStep(graph: Distances, h: (City, City) -> nat, goal: City, closed: set<City>,
                     e: Entry, rest: seq<Entry>, open: seq<Entry>, todo: set<City>, m: City)
    requires e.city in graph && m in todo && todo <= graph[e.city].Keys && m !in closed
    requires Appended(graph, h, goal, closed, e, rest, open, todo)
    ensures Appended(graph, h, goal, closed, e, rest, open + [Successor(graph, h, goal, e, m)], todo - {m})
  {
    var open' := open + [Successor(graph, h, goal, e, m)];
    assert open'[..|rest|] == rest by {
      assert open'[..|open|] == open;
    }
    forall m' | m' in graph[e.city] && m' !in todo - {m} && m' !in closed
      ensures exists k :: |rest| <= k < |open'| && open'[k].city == m'
    {
      if m' == m {
        assert open'[|open|].city == m;
      } else {
        var k :| |rest| <= k < |open| && open[k].city == m';
        assert open'[k] == open[k];
      }
    }
  }

  /** Once every road is handled, each neighbour not closed has an entry
      costing the popped cost plus the road's weight. */
  lemma AppendedHasEntries(graph: Distances, h: (City, City) -> nat, goal: City, closed: set<City>,
                           e: Entry, rest: seq<Entry>, open: seq<Entry>)
    requires e.city in graph && Appended(graph, h, goal, closed, e, rest, open, {})
    ensures forall m :: m in graph[e.city] && m !in closed ==> HasEntry(open, m, e.g + graph[e.city][m])
  {
    forall m | m in graph[e.city] && m !in closed
      ensures HasEntry(open, m, e.g + graph[e.city][m])
    {
      var k :| |rest| <= k < |open| && open[k].city == m;
      assert open[k] == Successor(graph, h, goal, e, m);
    }
  }

  /** The entry pushed for the road from the popped entry's city to m: its cost
      is the popped cost plus the road's weight, its estimate that cost plus
      the heuristic at m, and its path the popped path extended by the popped city. */
  function Successor(graph: Distances, h: (City, City) -> nat, goal: City, e: Entry, m: City): Entry
    requires e.city in graph && m in graph[e.city]
  {
    var g := e.g + graph[e.city][m];
    Entry(g + h(m, goal), g, m, e.path + [e.city])
  }

  /** The entry pushed for a road out of the popped city to a city not closed
      yet is well formed. */
  lemma PushedEntryOk(graph: Distances, h: (City, City) -> nat, start: City, goal: City,
                      closed: set<City>, e: Entry, m: City)
    requires e.city in graph && e.city in closed && m in graph[e.city] && m !in closed
    requires EntryOk(graph, h, start, goal, closed - {e.city}, e)
    ensures EntryOk(graph, h, start, goal, closed, Successor(graph, h, goal, e, m))
  {
    var path := e.path + [e.city];
    PathCostAppend(graph, path, m);
    assert (path + [m])[0] == path[0];
    DistinctAppend(e.path, e.city);
  }

  /** The first position of q whose city lies outside s. */
  lemma FirstOutside(q: seq<City>, s: set<City>) returns (j: nat)
    requires |q| > 0 && q[|q| - 1] !in s
    ensures j < |q| && q[j] !in s
    ensures forall k :: 0 <= k < j ==> q[k] in s
  {
    j := 0;
    while q[j] in s
      invariant j < |q|
      invariant forall k :: 0 <= k < j ==> q[k] in s
      decreases |q| - j
    {
      j := j + 1;
    }
  }

  /** A walk from start to a city not closed yet leaves the closed cities at
      some position j, and an entry for the city there costs no more than the
      walk up to it. */
  lemma EntryOnWalk(graph: Distances, h: (City, City) -> nat, start: City, goal: City,
                    open: seq<Entry>, closed: set<City>, gOf: map<City, nat>,
                    q: seq<City>, n: City)
    returns (j: nat, k: nat)
    requires Inv(graph, h, start, goal, open, closed, gOf) && Consistent(graph, h, goal)
    requires PathFromTo(graph, q, start, n) && n !in closed
    ensures j < |q| && k < |open| && open[k].city == q[j]
    ensures q[j] !in closed && forall t :: 0 <= t < j ==> q[t] in closed
    ensures IsPath(graph, q[..j + 1]) && open[k].g <= PathCost(graph, q[..j + 1])
  {
    j := FirstOutside(q, closed);
    assert IsPath(graph, q[..j + 1]);
    if j == 0 {
      assert q[..1] == [start];
      assert HasEntry(open, q[j], PathCost(graph, q[..j + 1]));
    } else {
      var c := q[j - 1];
      assert c in closed && q[j] in graph[c];
      assert HasEntry(open, q[j], gOf[c] + graph[c][q[j]]);
      assert OptimalFor(graph, start, c, gOf[c]);
      StepOutOfClosed(graph, start, open, q, j, gOf[c]);
    }
    k :| 0 <= k < |open| && open[k].city == q[j] && open[k].g <= PathCost(graph, q[..j + 1]);
  }

  /** The road from q[j - 1], reached at its least cost gc, to q[j]: an entry
      for q[j] at most gc plus the road's weight costs no more than the walk q
      up to position j. */
  lemma StepOutOfClosed(graph: Distances, start: City, open: seq<Entry>,
                        q: seq<City>, j: nat, gc: nat)
    requires IsPath(graph, q) && 0 < j < |q| && q[0] == start
    requires OptimalFor(graph, start, q[j - 1], gc)
    requires HasEntry(open, q[j], gc + graph[q[j - 1]][q[j]])
    ensures IsPath(graph, q[..j + 1]) && HasEntry(open, q[j], PathCost(graph, q[..j + 1]))
  {
    var p := q[..j];
    assert IsPath(graph, p) && PathFromTo(graph, p, start, q[j - 1]);
    PathCostAppend(graph, p, q[j]);
    assert p + [q[j]] == q[..j + 1];
  }

  /** Under a consistent heuristic, the least entry for a city not closed yet
      costs no more than a given walk from start to that city: the walk leaves
      the closed cities somewhere, an entry waits there no dearer than the walk
      so far, and consistency bounds the estimate for the rest of the walk. */
  lemma PoppedBeatsWalk(graph: Distances, h: (City, City) -> nat, start: City, goal: City,
                        open: seq<Entry>, closed: set<City>, gOf: map<City, nat>, i: nat,
                        q: seq<City>)
    requires Inv(graph, h, start, goal, open, closed, gOf) && Consistent(graph, h, goal)
    requires i < |open| && open[i].city !in closed
    requires forall k :: 0 <= k < |open| ==> !Before(open[k], open[i])
    requires PathFromTo(graph, q, start, open[i].city)
    ensures open[i].g <= PathCost(graph, q)
  {
    var j, k := EntryOnWalk(graph, h, start, goal, open, closed, gOf, q, open[i].city);
    var m, n := q[j], open[i].city;
    var tail := q[j..];
    PathCostSplit(graph, q, j);
    assert tail[0] == m && tail[|tail| - 1] == n;
    ConsistentAlong(graph, h, goal, tail);
    assert EntryOk(graph, h, start, goal, closed, open[k]);
    assert EntryOk(graph, h, start, goal, closed, open[i]);
    assert !Before(open[k], open[i]);
  }

  /** Under a consistent heuristic, the least entry for a city not closed yet
      carries the least cost of any walk from start to that city. */
  lemma PoppedIsOptimal(graph: Distances, h: (City, City) -> nat, start: City, goal: City,
                        open: seq<Entry>, closed: set<City>, gOf: map<City, nat>, i: nat)
    requires Inv(graph, h, start, goal, open, closed, gOf) && Consistent(graph, h, goal)
    requires i < |open| && open[i].city !in closed
    requires forall k :: 0 <= k < |open| ==> !Before(open[k], open[i])
    ensures OptimalFor(graph, start, open[i].city, open[i].g)
  {
    forall q | PathFromTo(graph, q, start, open[i].city)
      ensures open[i].g <= PathCost(graph, q)
    {
      PoppedBeatsWalk(graph, h, start, goal, open, closed, gOf, i, q);
    }
  }

  /** The path of a popped entry for a city not closed yet, extended by that
      city, is a walk from start without repeats whose cost is the entry's
      cost, and under a consistent heuristic no walk to that city is cheaper.
      While start is not closed, the only entries are its seed. */
  lemma PoppedWalk(graph: Distances, h: (City, City) -> nat, start: City, goal: City,
                   open: seq<Entry>, closed: set<City>, gOf: map<City, nat>, i: nat)
    requires Inv(graph, h, start, goal, open, closed, gOf)
    requires i < |open| && open[i].city !in closed
    requires forall k :: 0 <= k < |open| ==> !Before(open[k], open[i])
    ensures var e := open[i];
      && PathFromTo(graph, e.path + [e.city], start, e.city)
      && e.g == PathCost(graph, e.path + [e.city])
      && Distinct(e.path + [e.city])
      && Reachable(graph, start, e.city)
      && (Consistent(graph, h, goal) ==> OptimalFor(graph, start, e.city, e.g))
      && (start !in closed ==> e.city == start && e.path == [] && e.g == 0)
  {
    var e := open[i];
    var path := e.path + [e.city];
    assert EntryOk(graph, h, start, goal, closed, e);
    assert path[0] == start;
    DistinctAppend(e.path, e.city);
    if Consistent(graph, h, goal) {
      PoppedIsOptimal(graph, h, start, goal, open, closed, gOf, i);
    }
  }

  /** The seed entry alone, with nothing closed, satisfies the invariant. */
  lemma SeedInv(graph: Distances, h: (City, City) -> nat, start: City, goal: City)
    ensures Inv(graph, h, start, goal, [Entry(0 + h(start, goal), 0, start, [])], {}, map[])
  {
    var seed := Entry(0 + h(start, goal), 0, start, []);
    assert seed.path + [seed.city] == [start];
    assert EntryOk(graph, h, start, goal, {}, seed);
    assert [seed][0] == seed;
  }

  /** The entries left after a pop stay well formed when one more city is closed. */
  lemma RestEntriesOk(graph: Distances, h: (City, City) -> nat, start: City, goal: City,
                      open: seq<Entry>, closed: set<City>, gOf: map<City, nat>, i: nat, c: City)
    requires Inv(graph, h, start, goal, open, closed, gOf) && i < |open|
    ensures forall k :: 0 <= k < |Remove(open, i)| ==>
              EntryOk(graph, h, start, goal, closed + {c}, Remove(open, i)[k])
  {
    var rest := Remove(open, i);
    forall k | 0 <= k < |rest|
      ensures EntryOk(graph, h, start, goal, closed + {c}, rest[k])
    {
      assert rest[k] in open;
    }
  }

  /** Discarding an entry whose city is already closed keeps the invariant. */
  lemma DiscardKeepsInv(graph: Distances, h: (City, City) -> nat, start: City, goal: City,
                        open: seq<Entry>, closed: set<City>, gOf: map<City, nat>, i: nat)
    requires Inv(graph, h, start, goal, open, closed, gOf)
    requires i < |open| && open[i].city in closed
    ensures Inv(graph, h, start, goal, Remove(open, i), closed, gOf)
  {
    var rest := Remove(open, i);
    forall k | 0 <= k < |rest|
      ensures EntryOk(graph, h, start, goal, closed, rest[k])
    {
      assert rest[k] in open;
    }
    forall c, m | c in closed && m in graph[c] && m !in closed
      ensures HasEntry(rest, m, gOf[c] + graph[c][m])
    {
      HasEntryRemove(open, i, m, gOf[c] + graph[c][m]);
    }
    var e := open[i];
    assert EntryOk(graph, h, start, goal, closed, e);
    assert (e.path + [e.city])[0] == start;
  }

  /** Closing the popped city and pushing its roads keeps the invariant. */
  lemma ExpandKeepsInv(graph: Distances, h: (City, City) -> nat, start: City, goal: City,
                       open: seq<Entry>, closed: set<City>, gOf: map<City, nat>, i: nat,
                       open': seq<Entry>)
    requires Inv(graph, h, start, goal, open, closed, gOf)
    requires i < |open| && open[i].city !in closed && open[i].city != goal && open[i].city in graph
    requires forall k :: 0 <= k < |open| ==> !Before(open[k], open[i])
    requires |open'| >= |open| - 1 && open'[..|open| - 1] == Remove(open, i)
    requires forall k :: 0 <= k < |open'| ==>
               EntryOk(graph, h, start, goal, closed + {open[i].city}, open'[k])
    requires forall m :: m in graph[open[i].city] && m !in closed + {open[i].city} ==>
               HasEntry(open', m, open[i].g + graph[open[i].city][m])
    ensures Inv(graph, h, start, goal, open', closed + {open[i].city}, gOf[open[i].city := open[i].g])
  {
    var e := open[i];
    var rest := Remove(open, i);
    var closed' := closed + {e.city};
    var gOf' := gOf[e.city := e.g];
    assert open' == rest + open'[|rest|..];
    forall c, m | c in closed' && m in graph[c] && m !in closed'
      ensures HasEntry(open', m, gOf'[c] + graph[c][m])
    {
      if c != e.city {
        HasEntryRemove(open, i, m, gOf[c] + graph[c][m]);
        HasEntryExtend(rest, open'[|rest|..], m, gOf[c] + graph[c][m]);
      }
    }
    assert EntryOk(graph, h, start, goal, closed, e);
    assert (e.path + [e.city])[0] == start;
    if Consistent(graph, h, goal) {
      PoppedIsOptimal(graph, h, start, goal, open, closed, gOf, i);
    }
  }

  /** When the open list runs dry, the closed cities hold start and are
      closed under roads, so they hold every city reachable from start; goal
      is not among them, so no walk reaches goal. */
  lemma NothingLeftMeansUnreachable(graph: Distances, h: (City, City) -> nat, start: City, goal: City,
                                    closed: set<City>, gOf: map<City, nat>)
    requires Inv(graph, h, start, goal, [], closed, gOf)
    ensures forall c :: Reachable(graph, start, c) ==> c in closed
    ensures !Reachable(graph, start, goal)
  {
    assert start in closed;
    assert ClosedUnderRoads(graph, closed);
    forall c | Reachable(graph, start, c)
      ensures c in closed
    {
      var p :| PathFromTo(graph, p, start, c);
      WalkStaysInside(graph, closed, p);
    }
  }
}
