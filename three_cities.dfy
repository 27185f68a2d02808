// A small client of the search: three cities where the direct road is the
// dearer one. Its result follows from the search's contract alone.

module ThreeCities {
  import opened Graphs
  import opened AStarSearch

  /** Roads A-B and B-C weigh 1, road A-C weighs 5, in both directions. */
  function Triangle(): Distances {
    map["A" := map["B" := 1, "C" := 5],
        "B" := map["A" := 1, "C" := 1],
        "C" := map["A" := 5, "B" := 1]]
  }

  /** Where every road weighs at least 1, a walk costs at least its number of roads. */
  lemma {:induction false} CostAtLeastRoads(d: Distances, p: seq<City>)
    requires IsPath(d, p) && |p| > 0
    requires forall a, b :: a in d && b in d[a] ==> d[a][b] >= 1
    ensures PathCost(d, p) >= |p| - 1
  {
    if |p| > 1 {
      var q := p[..|p| - 1];
      assert IsPath(d, q);
      CostAtLeastRoads(d, q);
    }
  }

  /** Every walk from A to C costs at least 2, and only A, B, C costs exactly 2. */
  lemma CheapestTriangleWalk(p: seq<City>)
    requires PathFromTo(Triangle(), p, "A", "C")
    ensures PathCost(Triangle(), p) >= 2
    ensures PathCost(Triangle(), p) == 2 ==> p == ["A", "B", "C"]
  {
    var d := Triangle();
    CostAtLeastRoads(d, p);
    if |p| == 2 {
      assert p == ["A", "C"];
      assert p[..1] == ["A"];
    } else if |p| == 3 {
      assert p[1] in d["A"] && "C" in d[p[1]];
      assert p[1] == "B";
      assert p == ["A", "B", "C"];
      assert p[..2] == ["A", "B"];
      assert p[..2][..1] == ["A"];
    }
  }

  /** The walk A, B, C costs 2; the zero estimate is consistent; every
      neighbour has a row. */
  lemma TriangleFacts()
    ensures PathFromTo(Triangle(), ["A", "B", "C"], "A", "C")
    ensures PathCost(Triangle(), ["A", "B", "C"]) == 2
    ensures Consistent(Triangle(), (a: City, b: City) => 0, "C")
    ensures EveryNeighbourHasRow(Triangle())
  {
    var abc := ["A", "B", "C"];
    assert abc[..2] == ["A", "B"] && abc[..2][..1] == ["A"];
  }

  /** With a zero estimate, the search from A to C takes the two short roads. */
  method SearchTriangle() returns (r: Outcome)
    ensures r == Found(["A", "B", "C"], 2)
  {
    var d := Triangle();
    var h := (a: City, b: City) => 0;
    ghost var expanded;
    r, expanded := Search(d, h, "A", "C");
    TriangleFacts();
    if r.MissingKey? {
      ReachableHasRow(d, "A", r.city);
    }
    assert r.Found?;
    CheapestTriangleWalk(r.path);
  }
}
