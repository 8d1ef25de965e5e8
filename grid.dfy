/**
  The board as a value: its size, the cell values, the candidate lists and the
  three per-unit counter tables. `Board.Model()` maps a board object onto a Grid;
  the pure definitions here are what the imperative methods are proved against.
*/
module Grids {
  import opened Geometry

  /**
    Three counter tables indexed by unit and digit-1: `rows[u][d]` counts digit
    d+1 in row u, and likewise for columns and boxes. Used both for a board's
    occupancy tables and for the solver's hidden-single counters.
  */
  datatype Tables = Tables(rows: seq<seq<int>>, cols: seq<seq<int>>, boxes: seq<seq<int>>)

  /** Size n, cell values (0 = empty), candidate lists and occupancy tables. */
  datatype Grid = Grid(n: nat, values: seq<seq<int>>, cands: seq<seq<seq<int>>>, occ: Tables)

  /** An n×n table of counters. */
  predicate IsTable(t: seq<seq<int>>, n: nat)
  {
    |t| == n && forall u :: 0 <= u < n ==> |t[u]| == n
  }

  predicate Shaped(t: Tables, n: nat)
  {
    IsTable(t.rows, n) && IsTable(t.cols, n) && IsTable(t.boxes, n)
  }

  /** The board sides the engine handles: n == k*k. */
  predicate Square(n: nat)
  {
    ISqrt(n) * ISqrt(n) == n
  }

  /** The n×n table of zero counters that `initDictionaries` and `initHiddenSinglesDictionary` build. */
  function ZeroTable(n: nat): (t: seq<seq<int>>)
    ensures IsTable(t, n)
    ensures forall u, d :: 0 <= u < n && 0 <= d < n ==> t[u][d] == 0
  {
    seq(n, _ => seq(n, _ => 0))
  }

  /**
    The shape every board keeps: n is a square, the value and candidate
    matrices and the tables are n×n, and candidate digits lie in 1..n.
  */
  predicate WellFormed(g: Grid)
  {
    && Square(g.n)
    && |g.values| == g.n && (forall i :: 0 <= i < g.n ==> |g.values[i]| == g.n)
    && |g.cands| == g.n && (forall i :: 0 <= i < g.n ==> |g.cands[i]| == g.n)
    && (forall i, j, x :: 0 <= i < g.n && 0 <= j < g.n && 0 <= x < |g.cands[i][j]| ==>
          1 <= g.cands[i][j][x] <= g.n)
    && Shaped(g.occ, g.n)
  }

  /** Every cell holds 0 (empty) or a digit 1..n. */
  ghost predicate InRange(g: Grid)
    requires WellFormed(g)
  {
    forall i, j :: 0 <= i < g.n && 0 <= j < g.n ==> 0 <= g.values[i][j] <= g.n
  }

  /** `Solver.isSafe`: digit v has count zero in the cell's row, column and box. */
  predicate Safe(t: Tables, n: nat, r: nat, c: nat, v: int)
    requires Shaped(t, n) && Square(n) && r < n && c < n && 1 <= v <= n
  {
    t.rows[r][v - 1] == 0 && t.cols[c][v - 1] == 0 && t.boxes[FindBox(n, r, c)][v - 1] == 0
  }

  /** The digits of 1..n that are safe for cell (r, c). */
  ghost function SafeSet(t: Tables, n: nat, r: nat, c: nat): (s: set<int>)
    requires Shaped(t, n) && Square(n) && r < n && c < n
    ensures forall v :: v in s <==> 1 <= v <= n && Safe(t, n, r, c, v)
  {
    set v | 1 <= v <= n && Safe(t, n, r, c, v)
  }

  /** One counter incremented: `table[u][d]++`. */
  function Bump(t: seq<seq<int>>, u: nat, d: nat): (t': seq<seq<int>>)
    requires u < |t| && d < |t[u]|
    ensures |t'| == |t| && forall w :: 0 <= w < |t| ==> |t'[w]| == |t[w]|
    ensures forall w, e :: 0 <= w < |t| && 0 <= e < |t[w]| ==>
              t'[w][e] == t[w][e] + (if w == u && e == d then 1 else 0)
  {
    t[u := t[u][d := t[u][d] + 1]]
  }

  /** The three increments of `Solver.updateSafeDictionaries`. */
  function Record(t: Tables, n: nat, r: nat, c: nat, v: int): (t': Tables)
    requires Shaped(t, n) && Square(n) && r < n && c < n && 1 <= v <= n
    ensures Shaped(t', n)
  {
    Tables(Bump(t.rows, r, v - 1), Bump(t.cols, c, v - 1), Bump(t.boxes, FindBox(n, r, c), v - 1))
  }

  /** Writing v into cell (r, c) and then recording it in the tables. */
  function Place(g: Grid, r: nat, c: nat, v: int): (g': Grid)
    requires WellFormed(g) && r < g.n && c < g.n && 1 <= v <= g.n
    ensures WellFormed(g') && g'.n == g.n && g'.cands == g.cands
  {
    Grid(g.n, g.values[r := g.values[r][c := v]], g.cands, Record(g.occ, g.n, r, c, v))
  }

  /** The empty cells. */
  ghost function Zeros(g: Grid): set<(int, int)>
    requires WellFormed(g)
  {
    set i, j | 0 <= i < g.n && 0 <= j < g.n && g.values[i][j] == 0 :: (i, j)
  }

  /** Every cell filled in g0 holds the same value in g1. */
  ghost predicate Keeps(g0: Grid, g1: Grid)
    requires WellFormed(g0) && WellFormed(g1) && g0.n == g1.n
  {
    forall i, j :: 0 <= i < g0.n && 0 <= j < g0.n && g0.values[i][j] != 0 ==>
      g1.values[i][j] == g0.values[i][j]
  }

  /** If cell (i, j) is filled, its digit lies in 1..n and has a positive count in each of its units. */
  ghost predicate Marked(g: Grid, i: nat, j: nat)
    requires WellFormed(g) && i < g.n && j < g.n
  {
    var v := g.values[i][j];
    v != 0 ==>
      1 <= v <= g.n &&
      g.occ.rows[i][v - 1] > 0 && g.occ.cols[j][v - 1] > 0 && g.occ.boxes[FindBox(g.n, i, j)][v - 1] > 0
  }

  /** No counter is negative: they start at zero and are only ever incremented. */
  ghost predicate Counted(t: seq<seq<int>>, n: nat)
    requires IsTable(t, n)
  {
    forall u, d :: 0 <= u < n && 0 <= d < n ==> 0 <= t[u][d]
  }

  /**
    The counters are non-negative, and every placed digit is a digit of 1..n
    that is counted in its row, column and box. Each write in the engine is
    followed by `updateSafeDictionaries`, so this holds throughout.
  */
  ghost predicate Recorded(g: Grid)
    requires WellFormed(g)
  {
    && Counted(g.occ.rows, g.n) && Counted(g.occ.cols, g.n) && Counted(g.occ.boxes, g.n)
    && forall i, j :: 0 <= i < g.n && 0 <= j < g.n ==> Marked(g, i, j)
  }

  /**
    A placement, into any cell, keeps every other placed digit recorded (their
    counters only grow) and records the new one.
  */
  lemma PlaceKeepsRecorded(g: Grid, r: nat, c: nat, v: int)
    requires WellFormed(g) && r < g.n && c < g.n && 1 <= v <= g.n
    requires Recorded(g)
    ensures Recorded(Place(g, r, c, v))
  {
    var g' := Place(g, r, c, v);
    forall i, j | 0 <= i < g.n && 0 <= j < g.n
      ensures Marked(g', i, j)
    {
      assert Marked(g, i, j);
    }
  }

  /** Writing a digit into a cell removes exactly that cell from the empty ones. */
  lemma ZerosAfterPlace(g: Grid, r: nat, c: nat, v: int)
    requires WellFormed(g) && r < g.n && c < g.n && 1 <= v <= g.n
    ensures Zeros(Place(g, r, c, v)) == Zeros(g) - {(r, c)}
  {
    var g' := Place(g, r, c, v);
    forall p | p in Zeros(g')
      ensures p in Zeros(g) - {(r, c)}
    {
      var (i, j) := p;
      assert g'.values[i][j] == 0;
    }
    forall p | p in Zeros(g) - {(r, c)}
      ensures p in Zeros(g')
    {
      var (i, j) := p;
      assert g'.values[i][j] == 0;
    }
  }

  /** Keeping filled cells filled can only shrink the set of empty cells. */
  lemma ZerosShrink(g0: Grid, g1: Grid)
    requires WellFormed(g0) && WellFormed(g1) && g0.n == g1.n && Keeps(g0, g1)
    ensures Zeros(g1) <= Zeros(g0)
  {
    forall p | p in Zeros(g1)
      ensures p in Zeros(g0)
    {
      var (i, j) := p;
      assert g1.values[i][j] == 0;
    }
  }

  /** Cells filled in g0 and kept in g1 are kept in g2. */
  lemma KeepsTrans(g0: Grid, g1: Grid, g2: Grid)
    requires WellFormed(g0) && WellFormed(g1) && WellFormed(g2) && g0.n == g1.n == g2.n
    requires Keeps(g0, g1) && Keeps(g1, g2)
    ensures Keeps(g0, g2)
  {
  }

  /** A proper subset of the empty cells is a smaller set. */
  lemma {:induction false} FewerZeros(a: set<(int, int)>, b: set<(int, int)>)
    requires a < b
    ensures |a| < |b|
    decreases a
  {
    if a != {} {
      var y :| y in a;
      FewerZeros(a - {y}, b - {y});
    }
  }

  /**
    Soundness of the safety test: on a board whose placed digits are all
    recorded, a digit that `isSafe` admits for (r, c) is absent from the cell's
    row, column and box.
  */
  lemma SafeIsSound(g: Grid, r: nat, c: nat, v: int)
    requires WellFormed(g) && Recorded(g) && r < g.n && c < g.n && 1 <= v <= g.n
    requires Safe(g.occ, g.n, r, c, v)
    ensures forall j :: 0 <= j < g.n ==> g.values[r][j] != v
    ensures forall i :: 0 <= i < g.n ==> g.values[i][c] != v
    ensures forall i, j :: 0 <= i < g.n && 0 <= j < g.n && FindBox(g.n, i, j) == FindBox(g.n, r, c) ==>
              g.values[i][j] != v
  {
    forall j | 0 <= j < g.n
      ensures g.values[r][j] != v
    {
      assert Marked(g, r, j);
    }
    forall i | 0 <= i < g.n
      ensures g.values[i][c] != v
    {
      assert Marked(g, i, c);
    }
    forall i, j | 0 <= i < g.n && 0 <= j < g.n && FindBox(g.n, i, j) == FindBox(g.n, r, c)
      ensures g.values[i][j] != v
    {
      assert Marked(g, i, j);
    }
  }

  ghost predicate InRow(g: Grid, u: nat, v: int)
    requires WellFormed(g) && u < g.n
  {
    exists j :: 0 <= j < g.n && g.values[u][j] == v
  }

  ghost predicate InCol(g: Grid, u: nat, v: int)
    requires WellFormed(g) && u < g.n
  {
    exists i :: 0 <= i < g.n && g.values[i][u] == v
  }

  ghost predicate InBox(g: Grid, u: nat, v: int)
    requires WellFormed(g)
  {
    exists i, j :: 0 <= i < g.n && 0 <= j < g.n && FindBox(g.n, i, j) == u && g.values[i][j] == v
  }

  function Flag(b: bool): int
  {
    if b then 1 else 0
  }

  /**
    The occupancy tables say exactly which digits are present: each counter is
    1 when its unit holds the digit and 0 otherwise.
  */
  ghost predicate Consistent(g: Grid)
    requires WellFormed(g)
  {
    forall u, d :: 0 <= u < g.n && 0 <= d < g.n ==>
      && g.occ.rows[u][d] == Flag(InRow(g, u, d + 1))
      && g.occ.cols[u][d] == Flag(InCol(g, u, d + 1))
      && g.occ.boxes[u][d] == Flag(InBox(g, u, d + 1))
  }

  /** Two different filled cells share a unit and a digit. */
  ghost predicate Clash(g: Grid, a: nat, b: nat, c: nat, d: nat)
    requires WellFormed(g) && a < g.n && b < g.n && c < g.n && d < g.n
  {
    && (a != c || b != d)
    && g.values[a][b] != 0 && g.values[a][b] == g.values[c][d]
    && (a == c || b == d || FindBox(g.n, a, b) == FindBox(g.n, c, d))
  }

  ghost predicate NoDuplicates(g: Grid)
    requires WellFormed(g)
  {
    forall a, b, c, d :: 0 <= a < g.n && 0 <= b < g.n && 0 <= c < g.n && 0 <= d < g.n ==>
      !Clash(g, a, b, c, d)
  }

  /**
    What every propagation step keeps: each placed digit is counted in its
    units and no digit appears twice in a unit.
  */
  ghost predicate Guarded(g: Grid)
    requires WellFormed(g)
  {
    Recorded(g) && NoDuplicates(g)
  }

  /** Exact tables imply recorded digits. */
  lemma ConsistentIsRecorded(g: Grid)
    requires WellFormed(g) && InRange(g) && Consistent(g)
    ensures Recorded(g)
  {
    forall i, j | 0 <= i < g.n && 0 <= j < g.n
      ensures Marked(g, i, j)
    {
      var v := g.values[i][j];
      if v != 0 {
        assert InRow(g, i, v);
        assert InCol(g, j, v);
        assert InBox(g, FindBox(g.n, i, j), v);
      }
    }
  }

  /**
    A write that `isSafe` admits keeps a guarded board guarded, whether the cell
    was empty or not: the digit was absent from the cell's three units, and the
    digit it replaces, if any, disappears.
  */
  lemma SafePlaceKeepsGuarded(g: Grid, r: nat, c: nat, v: int)
    requires WellFormed(g) && r < g.n && c < g.n && 1 <= v <= g.n
    requires Guarded(g) && Safe(g.occ, g.n, r, c, v)
    ensures Guarded(Place(g, r, c, v))
  {
    var g' := Place(g, r, c, v);
    PlaceKeepsRecorded(g, r, c, v);
    SafeIsSound(g, r, c, v);
    forall a, b, x, y | 0 <= a < g.n && 0 <= b < g.n && 0 <= x < g.n && 0 <= y < g.n
      ensures !Clash(g', a, b, x, y)
    {
      if (a, b) != (r, c) && (x, y) != (r, c) {
        assert !Clash(g, a, b, x, y);
      }
    }
  }
}
