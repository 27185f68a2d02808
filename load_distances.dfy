// Building the symmetric distance table from the rows of the distance file.

module LoadDistances {
  import opened Graphs

  datatype Option<T> = None | Some(value: T)

  /** One row of the distance file: City1, City2, Distance. */
  datatype Row = Row(city1: City, city2: City, distance: nat)

  /** The row is about the road between a and b, in either direction. */
  predicate Joins(row: Row, a: City, b: City) {
    (row.city1 == a && row.city2 == b) || (row.city1 == b && row.city2 == a)
  }

  /** Every city named in some row, as either endpoint. */
  function Endpoints(rows: seq<Row>): set<City> {
    if rows == [] then {}
    else Endpoints(rows[..|rows| - 1]) + {rows[|rows| - 1].city1, rows[|rows| - 1].city2}
  }

  /** The distance of the last row about the road between a and b, if any. */
  function LastWeight(rows: seq<Row>, a: City, b: City): Option<nat> {
    if rows == [] then None
    else if Joins(rows[|rows| - 1], a, b) then Some(rows[|rows| - 1].distance)
    else LastWeight(rows[..|rows| - 1], a, b)
  }

  /** d is the table the rows describe: one key per endpoint, and for each
      pair the distance of the last row about that pair. */
  ghost predicate Describes(d: Distances, rows: seq<Row>) {
    && d.Keys == Endpoints(rows)
    && (forall a, b :: a in d ==> (b in d[a] <==> LastWeight(rows, a, b).Some?))
    && (forall a, b :: a in d && b in d[a] ==> d[a][b] == LastWeight(rows, a, b).value)
  }

  /** The road from a to b weighs the same as the road from b to a. */
  ghost predicate Symmetric(d: Distances) {
    forall a, b :: a in d && b in d[a] ==> b in d && a in d[b] && d[b][a] == d[a][b]
  }

  /** The row loop of the loader: every row of the file is written into the
      table in turn. */
  method Load(rows: seq<Row>) returns (distances: Distances)
    ensures Describes(distances, rows)
    ensures forall i :: 0 <= i < |rows| ==> rows[i].city1 in distances && rows[i].city2 in distances
    ensures Symmetric(distances) && EveryNeighbourHasRow(distances)
  {
    distances := map[];
    for i := 0 to |rows|
      invariant Describes(distances, rows[..i])
    {
      ghost var before := distances;
      distances := InsertRow(distances, rows[i]);
      assert rows[..i + 1] == rows[..i] + [rows[i]];
      RowStep(before, distances, rows[..i], rows[i]);
    }
    assert rows[..|rows|] == rows;
    DescribedHasEveryCity(distances, rows);
    DescribedIsSymmetric(distances, rows);
  }

  /** One pass of the row loop: create empty neighbour tables for cities not
      seen yet, then write the distance in both directions. Afterwards the
      table has both cities as keys, the pair of the row carries its distance,
      and every other entry is as before. */
  method InsertRow(d: Distances, row: Row) returns (d': Distances)
    ensures d'.Keys == d.Keys + {row.city1, row.city2}
    ensures forall a, b :: a in d' ==> (b in d'[a] <==> (Joins(row, a, b) || (a in d && b in d[a])))
    ensures forall a, b :: a in d' && b in d'[a] ==>
      d'[a][b] == if Joins(row, a, b) then row.distance else d[a][b]
  {
    d' := d;
    if row.city1 !in d' {
      d' := d'[row.city1 := map[]];
    }
    if row.city2 !in d' {
      d' := d'[row.city2 := map[]];
    }
    var from1: map<City, nat> := d'[row.city1][row.city2 := row.distance];
    d' := d'[row.city1 := from1];
    var from2: map<City, nat> := d'[row.city2][row.city1 := row.distance];
    d' := d'[row.city2 := from2];
  }

  /** Writing one row into a table the earlier rows describe gives the table
      that all the rows describe. */
  lemma RowStep(d: Distances, d': Distances, rows: seq<Row>, row: Row)
    requires Describes(d, rows)
    requires d'.Keys == d.Keys + {row.city1, row.city2}
    requires forall a, b :: a in d' ==> (b in d'[a] <==> (Joins(row, a, b) || (a in d && b in d[a])))
    requires forall a, b :: a in d' && b in d'[a] ==>
      d'[a][b] == if Joins(row, a, b) then row.distance else d[a][b]
    ensures Describes(d', rows + [row])
  {
    var rows' := rows + [row];
    assert rows'[..|rows'| - 1] == rows;
    forall a, b | a in d'
      ensures b in d'[a] <==> LastWeight(rows', a, b).Some?
    {
      if LastWeight(rows, a, b).Some? {
        LastWeightEndpoints(rows, a, b);
      }
    }
  }

  /** Both cities of every row are endpoints. */
  lemma {:induction false} EndpointsOfRow(rows: seq<Row>, i: nat)
    requires i < |rows|
    ensures rows[i].city1 in Endpoints(rows) && rows[i].city2 in Endpoints(rows)
  {
    if i < |rows| - 1 {
      EndpointsOfRow(rows[..|rows| - 1], i);
    }
  }

  /** A pair some row is about consists of two endpoints. */
  lemma {:induction false} LastWeightEndpoints(rows: seq<Row>, a: City, b: City)
    requires LastWeight(rows, a, b).Some?
    ensures a in Endpoints(rows) && b in Endpoints(rows)
  {
    if !Joins(rows[|rows| - 1], a, b) {
      LastWeightEndpoints(rows[..|rows| - 1], a, b);
    }
  }

  /** The last row about a pair does not depend on the direction asked. */
  lemma {:induction false} LastWeightSymmetric(rows: seq<Row>, a: City, b: City)
    ensures LastWeight(rows, a, b) == LastWeight(rows, b, a)
  {
    if rows != [] {
      LastWeightSymmetric(rows[..|rows| - 1], a, b);
    }
  }

  /** A table the rows describe has a key for both cities of every row. */
  lemma DescribedHasEveryCity(d: Distances, rows: seq<Row>)
    requires Describes(d, rows)
    ensures forall i :: 0 <= i < |rows| ==> rows[i].city1 in d && rows[i].city2 in d
  {
    forall i | 0 <= i < |rows|
      ensures rows[i].city1 in d && rows[i].city2 in d
    {
      EndpointsOfRow(rows, i);
    }
  }

  /** A table the rows describe is symmetric and names only cities that have rows. */
  lemma DescribedIsSymmetric(d: Distances, rows: seq<Row>)
    requires Describes(d, rows)
    ensures Symmetric(d) && EveryNeighbourHasRow(d)
  {
    forall a, b | a in d && b in d[a]
      ensures b in d && a in d[b] && d[b][a] == d[a][b]
    {
      LastWeightSymmetric(rows, a, b);
      LastWeightEndpoints(rows, a, b);
    }
  }
}
