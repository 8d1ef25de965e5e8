/**
  What `Board.addValuesToDictionaries` knows part-way through its row-major
  scan: the tables count exactly the digits of the cells scanned so far, and
  no two of those cells clash. At the end of the scan this is `Consistent`
  and `NoDuplicates`; at an early return it exhibits the repeated digit.
*/
module Occupancy {
  import opened Geometry
  import opened Grids
  import opened Candidates

  /** Some cell of row u before (i, j) holds v. */
  ghost predicate SeenInRow(g: Grid, u: nat, v: int, i: nat, j: nat)
    requires WellFormed(g) && u < g.n
  {
    exists b :: 0 <= b < g.n && Before(u, b, i, j) && g.values[u][b] == v
  }

  /** Some cell of column u before (i, j) holds v. */
  ghost predicate SeenInCol(g: Grid, u: nat, v: int, i: nat, j: nat)
    requires WellFormed(g) && u < g.n
  {
    exists a :: 0 <= a < g.n && Before(a, u, i, j) && g.values[a][u] == v
  }

  /** Some cell of box u before (i, j) holds v. */
  ghost predicate SeenInBox(g: Grid, u: nat, v: int, i: nat, j: nat)
    requires WellFormed(g)
  {
    exists a, b :: 0 <= a < g.n && 0 <= b < g.n && Before(a, b, i, j) && FindBox(g.n, a, b) == u && g.values[a][b] == v
  }

  /** Each counter of t is 1 exactly when its unit of g holds its digit among the cells before (i, j). */
  ghost predicate CountsBefore(t: Tables, g: Grid, i: nat, j: nat)
    requires WellFormed(g) && Shaped(t, g.n)
  {
    forall u, d :: 0 <= u < g.n && 0 <= d < g.n ==>
      && t.rows[u][d] == Flag(SeenInRow(g, u, d + 1, i, j))
      && t.cols[u][d] == Flag(SeenInCol(g, u, d + 1, i, j))
      && t.boxes[u][d] == Flag(SeenInBox(g, u, d + 1, i, j))
  }

  /** No two cells before (i, j) clash. */
  ghost predicate DistinctBefore(g: Grid, i: nat, j: nat)
    requires WellFormed(g)
  {
    forall a, b, c, d ::
      (0 <= a < g.n && 0 <= b < g.n && 0 <= c < g.n && 0 <= d < g.n && Before(a, b, i, j) && Before(c, d, i, j)) ==>
        !Clash(g, a, b, c, d)
  }

  /** Every counter of the table is 0 or 1. */
  predicate Binary(t: seq<seq<int>>, n: nat)
    requires IsTable(t, n)
  {
    forall u, d :: 0 <= u < n && 0 <= d < n ==> 0 <= t[u][d] <= 1
  }

  /** Before the scan: zero tables count the empty prefix. */
  lemma ScanStart(g: Grid)
    requires WellFormed(g)
    ensures CountsBefore(Tables(ZeroTable(g.n), ZeroTable(g.n), ZeroTable(g.n)), g, 0, 0)
    ensures DistinctBefore(g, 0, 0)
  {
  }

  /** Counters that are presence flags are 0 or 1. */
  lemma CountsAreBinary(t: Tables, g: Grid, i: nat, j: nat)
    requires WellFormed(g) && Shaped(t, g.n) && CountsBefore(t, g, i, j)
    ensures Binary(t.rows, g.n) && Binary(t.cols, g.n) && Binary(t.boxes, g.n)
  {
  }

  /** Passing an empty cell changes neither what has been seen nor whether it clashes. */
  lemma ScanEmpty(t: Tables, g: Grid, i: nat, j: nat)
    requires WellFormed(g) && Shaped(t, g.n) && i < g.n && j < g.n && g.values[i][j] == 0
    requires CountsBefore(t, g, i, j) && DistinctBefore(g, i, j)
    ensures CountsBefore(t, g, i, j + 1) && DistinctBefore(g, i, j + 1)
  {
    forall u, v | 0 <= u < g.n && 1 <= v <= g.n
      ensures SeenInRow(g, u, v, i, j + 1) == SeenInRow(g, u, v, i, j)
      ensures SeenInCol(g, u, v, i, j + 1) == SeenInCol(g, u, v, i, j)
      ensures SeenInBox(g, u, v, i, j + 1) == SeenInBox(g, u, v, i, j)
    {
    }
  }

  /**
    A filled cell whose digit already has a count of 1 in its row, column or
    box repeats a digit of an earlier cell: the board has a duplicate.
  */
  lemma ScanRepeat(t: Tables, g: Grid, i: nat, j: nat)
    requires WellFormed(g) && Shaped(t, g.n) && i < g.n && j < g.n && 1 <= g.values[i][j] <= g.n
    requires CountsBefore(t, g, i, j)
    requires var v := g.values[i][j];
      t.rows[i][v - 1] == 1 || t.cols[j][v - 1] == 1 || t.boxes[FindBox(g.n, i, j)][v - 1] == 1
    ensures !NoDuplicates(g) && !NoDuplicates(g.(occ := t))
  {
    var v := g.values[i][j];
    if t.rows[i][v - 1] == 1 {
      assert SeenInRow(g, i, v, i, j);
      var b :| 0 <= b < g.n && Before(i, b, i, j) && g.values[i][b] == v;
      assert Clash(g, i, b, i, j) && Clash(g.(occ := t), i, b, i, j);
    } else if t.cols[j][v - 1] == 1 {
      assert SeenInCol(g, j, v, i, j);
      var a :| 0 <= a < g.n && Before(a, j, i, j) && g.values[a][j] == v;
      assert Clash(g, a, j, i, j) && Clash(g.(occ := t), a, j, i, j);
    } else {
      assert SeenInBox(g, FindBox(g.n, i, j), v, i, j);
      var a, b :| 0 <= a < g.n && 0 <= b < g.n && Before(a, b, i, j) && FindBox(g.n, a, b) == FindBox(g.n, i, j) && g.values[a][b] == v;
      assert Clash(g, a, b, i, j) && Clash(g.(occ := t), a, b, i, j);
    }
  }

  /** Scanning filled cell (i, j) adds its digit, and only it, to what its row has seen. */
  lemma SeenAfter(g: Grid, i: nat, j: nat, u: nat, v: int)
    requires WellFormed(g) && i < g.n && j < g.n && u < g.n
    ensures SeenInRow(g, u, v, i, j + 1) == (SeenInRow(g, u, v, i, j) || (u == i && g.values[i][j] == v))
    ensures SeenInCol(g, u, v, i, j + 1) == (SeenInCol(g, u, v, i, j) || (u == j && g.values[i][j] == v))
    ensures SeenInBox(g, u, v, i, j + 1) ==
              (SeenInBox(g, u, v, i, j) || (u == FindBox(g.n, i, j) && g.values[i][j] == v))
  {
    if u == i && g.values[i][j] == v {
      assert Before(i, j, i, j + 1);
    }
    if u == j && g.values[i][j] == v {
      assert Before(i, j, i, j + 1);
    }
    if u == FindBox(g.n, i, j) && g.values[i][j] == v {
      assert Before(i, j, i, j + 1);
    }
  }

  /** The tables after counting a new digit v at (i, j) see it exactly in that cell's three units. */
  lemma ScanCountsNew(t: Tables, g: Grid, i: nat, j: nat)
    requires WellFormed(g) && Shaped(t, g.n) && i < g.n && j < g.n && 1 <= g.values[i][j] <= g.n
    requires CountsBefore(t, g, i, j)
    requires var v := g.values[i][j];
      t.rows[i][v - 1] != 1 && t.cols[j][v - 1] != 1 && t.boxes[FindBox(g.n, i, j)][v - 1] != 1
    ensures CountsBefore(Record(t, g.n, i, j, g.values[i][j]), g, i, j + 1)
  {
    forall u, v | 0 <= u < g.n && 1 <= v <= g.n {
      SeenAfter(g, i, j, u, v);
    }
  }

  /** A new digit with zero counts clashes with no earlier cell. */
  lemma ScanDistinctNew(t: Tables, g: Grid, i: nat, j: nat)
    requires WellFormed(g) && Shaped(t, g.n) && i < g.n && j < g.n && 1 <= g.values[i][j] <= g.n
    requires CountsBefore(t, g, i, j) && DistinctBefore(g, i, j)
    requires var v := g.values[i][j];
      t.rows[i][v - 1] != 1 && t.cols[j][v - 1] != 1 && t.boxes[FindBox(g.n, i, j)][v - 1] != 1
    ensures DistinctBefore(g, i, j + 1)
  {
    var v := g.values[i][j];
    assert !SeenInRow(g, i, v, i, j) && !SeenInCol(g, j, v, i, j) && !SeenInBox(g, FindBox(g.n, i, j), v, i, j);
    forall a, b, c, d | 0 <= a < g.n && 0 <= b < g.n && 0 <= c < g.n && 0 <= d < g.n &&
      Before(a, b, i, j + 1) && Before(c, d, i, j + 1)
      ensures !Clash(g, a, b, c, d)
    {
      if (a, b) == (i, j) && (c, d) != (i, j) {
        assert Before(c, d, i, j);
      } else if (c, d) == (i, j) && (a, b) != (i, j) {
        assert Before(a, b, i, j);
      }
    }
  }

  /** The end of row i is the start of row i + 1. */
  lemma ScanRowEnd(t: Tables, g: Grid, i: nat)
    requires WellFormed(g) && Shaped(t, g.n) && i < g.n
    requires CountsBefore(t, g, i, g.n) && DistinctBefore(g, i, g.n)
    ensures CountsBefore(t, g, i + 1, 0) && DistinctBefore(g, i + 1, 0)
  {
    forall u, v | 0 <= u < g.n && 1 <= v <= g.n
      ensures SeenInRow(g, u, v, i + 1, 0) == SeenInRow(g, u, v, i, g.n)
      ensures SeenInCol(g, u, v, i + 1, 0) == SeenInCol(g, u, v, i, g.n)
      ensures SeenInBox(g, u, v, i + 1, 0) == SeenInBox(g, u, v, i, g.n)
    {
    }
    forall a, b, c, d | 0 <= a < g.n && 0 <= b < g.n && 0 <= c < g.n && 0 <= d < g.n &&
      Before(a, b, i + 1, 0) && Before(c, d, i + 1, 0)
      ensures !Clash(g, a, b, c, d)
    {
      assert Before(a, b, i, g.n) && Before(c, d, i, g.n);
    }
  }

  /** A complete scan leaves exact tables t and a board without duplicates. */
  lemma ScanEnd(t: Tables, g: Grid)
    requires WellFormed(g) && Shaped(t, g.n) && CountsBefore(t, g, g.n, 0) && DistinctBefore(g, g.n, 0)
    ensures Consistent(g.(occ := t)) && NoDuplicates(g.(occ := t))
  {
    var g' := g.(occ := t);
    forall u, v | 0 <= u < g.n && 1 <= v <= g.n
      ensures SeenInRow(g, u, v, g.n, 0) == InRow(g', u, v)
      ensures SeenInCol(g, u, v, g.n, 0) == InCol(g', u, v)
      ensures SeenInBox(g, u, v, g.n, 0) == InBox(g', u, v)
    {
      if InRow(g', u, v) {
        var b :| 0 <= b < g.n && g.values[u][b] == v;
        assert Before(u, b, g.n, 0);
      }
      if InCol(g', u, v) {
        var a :| 0 <= a < g.n && g.values[a][u] == v;
        assert Before(a, u, g.n, 0);
      }
      if InBox(g', u, v) {
        var a, b :| 0 <= a < g.n && 0 <= b < g.n && FindBox(g.n, a, b) == u && g.values[a][b] == v;
        assert Before(a, b, g.n, 0);
      }
    }
    forall a, b, c, d | 0 <= a < g.n && 0 <= b < g.n && 0 <= c < g.n && 0 <= d < g.n
      ensures !Clash(g', a, b, c, d)
    {
      assert Before(a, b, g.n, 0) && Before(c, d, g.n, 0);
      assert !Clash(g, a, b, c, d);
    }
  }
}
