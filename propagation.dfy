/**
  The two propagation sweeps of the solver as functions on Grid values.

  A sweep visits the cells in row-major order (the order in which `foreach`
  walks a `Cell[,]`), carrying the board, the flag the C# method returns, and
  whether it has set `wrongSituation` to false. `Board` methods are proved to
  end in exactly the state these functions compute.
*/
module Propagation {
  import opened Geometry
  import opened Grids

  /** The board, "some write happened", and "an unsafe digit was met". */
  datatype Sweep = Sweep(g: Grid, changed: bool, clash: bool)

  /** Every cell that went from empty to filled took a digit from its own candidate list. */
  ghost predicate Drawn(g0: Grid, g1: Grid)
    requires WellFormed(g0) && WellFormed(g1) && g0.n == g1.n
  {
    forall i, j :: 0 <= i < g0.n && 0 <= j < g0.n && g0.values[i][j] == 0 && g1.values[i][j] != 0 ==>
      g1.values[i][j] in g0.cands[i][j]
  }

  /**
    What any stretch of a sweep guarantees: sizes and candidate lists are
    untouched, filled cells keep their digit, new digits come from the
    candidate list, empty cells only disappear, nothing at all changes unless
    a cell was filled, the flag records exactly whether one was, and a clash
    once seen stays seen.
  */
  ghost predicate Advance(s0: Sweep, s1: Sweep)
    requires WellFormed(s0.g) && WellFormed(s1.g) && s1.g.n == s0.g.n
  {
    && s1.g.cands == s0.g.cands
    && Keeps(s0.g, s1.g)
    && Drawn(s0.g, s1.g)
    && Zeros(s1.g) <= Zeros(s0.g)
    && (Zeros(s1.g) == Zeros(s0.g) ==> s1.g == s0.g)
    && s1.changed == (s0.changed || Zeros(s1.g) != Zeros(s0.g))
    && (s0.clash ==> s1.clash)
  }

  lemma AdvanceRefl(s: Sweep)
    requires WellFormed(s.g)
    ensures Advance(s, s)
  {
  }

  lemma AdvanceTrans(s0: Sweep, s1: Sweep, s2: Sweep)
    requires WellFormed(s0.g) && WellFormed(s1.g) && WellFormed(s2.g)
    requires s1.g.n == s0.g.n && s2.g.n == s0.g.n
    requires Advance(s0, s1) && Advance(s1, s2)
    ensures Advance(s0, s2)
  {
    var n := s0.g.n;
    forall i, j | 0 <= i < n && 0 <= j < n && s0.g.values[i][j] == 0 && s2.g.values[i][j] != 0
      ensures s2.g.values[i][j] in s0.g.cands[i][j]
    {
      if s1.g.values[i][j] != 0 {
        assert s2.g.values[i][j] == s1.g.values[i][j];
      }
    }
  }

  /** A write into an empty cell, of a digit from its list, is one step of a sweep. */
  lemma PlaceAdvances(s: Sweep, r: nat, c: nat, v: int)
    requires WellFormed(s.g) && r < s.g.n && c < s.g.n && 1 <= v <= s.g.n
    requires s.g.values[r][c] == 0 && v in s.g.cands[r][c]
    ensures Advance(s, Sweep(Place(s.g, r, c, v), true, s.clash))
  {
    var g' := Place(s.g, r, c, v);
    ZerosAfterPlace(s.g, r, c, v);
    assert (r, c) in Zeros(s.g);
  }

  // ---------------------------------------------------------------- naked singles

  /** One cell of `nakedSingle`: an empty cell with exactly one candidate gets it if it is safe. */
  function NakedAt(s: Sweep, r: nat, c: nat): (s': Sweep)
    requires WellFormed(s.g) && r < s.g.n && c < s.g.n
    ensures WellFormed(s'.g) && s'.g.n == s.g.n && s'.g.cands == s.g.cands
  {
    var g := s.g;
    if g.values[r][c] == 0 && |g.cands[r][c]| == 1 then
      var v := g.cands[r][c][0];
      if Safe(g.occ, g.n, r, c, v) then Sweep(Place(g, r, c, v), true, s.clash)
      else Sweep(g, s.changed, true)
    else s
  }

  /** The first j cells of row r. */
  function NakedRow(s: Sweep, r: nat, j: nat): (s': Sweep)
    requires WellFormed(s.g) && r < s.g.n && j <= s.g.n
    ensures WellFormed(s'.g) && s'.g.n == s.g.n && s'.g.cands == s.g.cands
  {
    if j == 0 then s else NakedAt(NakedRow(s, r, j - 1), r, j - 1)
  }

  /** The first i rows. */
  function NakedRows(s: Sweep, i: nat): (s': Sweep)
    requires WellFormed(s.g) && i <= s.g.n
    ensures WellFormed(s'.g) && s'.g.n == s.g.n && s'.g.cands == s.g.cands
  {
    if i == 0 then s else NakedRow(NakedRows(s, i - 1), i - 1, s.g.n)
  }

  /** `Solver.nakedSingle` on a whole board. */
  function NakedSweep(g: Grid): Sweep
    requires WellFormed(g)
  {
    NakedRows(Sweep(g, false, false), g.n)
  }

  lemma NakedAtAdvances(s: Sweep, r: nat, c: nat, t: Sweep)
    requires WellFormed(s.g) && r < s.g.n && c < s.g.n && t == NakedAt(s, r, c)
    ensures Advance(s, t)
  {
    var g := s.g;
    if g.values[r][c] == 0 && |g.cands[r][c]| == 1 && Safe(g.occ, g.n, r, c, g.cands[r][c][0]) {
      PlaceAdvances(s, r, c, g.cands[r][c][0]);
    }
  }

  /** One more cell of a naked sweep extends a stretch that already advances. */
  lemma NakedAtExtends(s: Sweep, r: nat, j: nat)
    requires WellFormed(s.g) && r < s.g.n && 0 < j <= s.g.n && Advance(s, NakedRow(s, r, j - 1))
    ensures Advance(s, NakedRow(s, r, j))
  {
    var p := NakedRow(s, r, j - 1);
    var t := NakedRow(s, r, j);
    NakedAtAdvances(p, r, j - 1, t);
    AdvanceTrans(s, p, t);
  }

  lemma {:induction false} NakedRowAdvances(s: Sweep, r: nat, j: nat)
    requires WellFormed(s.g) && r < s.g.n && j <= s.g.n
    ensures Advance(s, NakedRow(s, r, j))
  {
    if j == 0 {
      AdvanceRefl(s);
    } else {
      NakedRowAdvances(s, r, j - 1);
      NakedAtExtends(s, r, j);
    }
  }

  /** One more row of a naked sweep extends a stretch that already advances. */
  lemma NakedRowExtends(s: Sweep, i: nat)
    requires WellFormed(s.g) && 0 < i <= s.g.n && Advance(s, NakedRows(s, i - 1))
    ensures Advance(s, NakedRows(s, i))
  {
    var p := NakedRows(s, i - 1);
    var t := NakedRows(s, i);
    NakedRowAdvances(p, i - 1, s.g.n);
    AdvanceTrans(s, p, t);
  }

  lemma {:induction false} NakedRowsAdvances(s: Sweep, i: nat)
    requires WellFormed(s.g) && i <= s.g.n
    ensures Advance(s, NakedRows(s, i))
  {
    if i == 0 {
      AdvanceRefl(s);
    } else {
      NakedRowsAdvances(s, i - 1);
      NakedRowExtends(s, i);
    }
  }

  /**
    `nakedSingle` changes a board only as a sweep may (see `Advance`), and
    returns true exactly when it filled at least one cell.
  */
  lemma NakedSweepAdvances(g: Grid, t: Sweep)
    requires WellFormed(g) && t == NakedSweep(g)
    ensures Advance(Sweep(g, false, false), t)
    ensures t.changed <==> Zeros(t.g) < Zeros(g)
  {
    NakedRowsAdvances(Sweep(g, false, false), g.n);
  }

  lemma NakedAtGuarded(s: Sweep, r: nat, c: nat, t: Sweep)
    requires WellFormed(s.g) && r < s.g.n && c < s.g.n && Guarded(s.g) && t == NakedAt(s, r, c)
    ensures Guarded(t.g)
  {
    var g := s.g;
    if g.values[r][c] == 0 && |g.cands[r][c]| == 1 && Safe(g.occ, g.n, r, c, g.cands[r][c][0]) {
      SafePlaceKeepsGuarded(g, r, c, g.cands[r][c][0]);
    }
  }

  /** The sweep's board is `Guarded` (kept as one fact so that the row lemmas stay cheap). */
  ghost predicate Kept(s: Sweep)
    requires WellFormed(s.g)
  {
    Guarded(s.g)
  }

  /** One more cell of a naked sweep keeps the board `Guarded`. */
  lemma NakedCellStep(s: Sweep, r: nat, j: nat)
    requires WellFormed(s.g) && r < s.g.n && 0 < j <= s.g.n && Kept(NakedRow(s, r, j - 1))
    ensures Kept(NakedRow(s, r, j))
  {
    NakedAtGuarded(NakedRow(s, r, j - 1), r, j - 1, NakedRow(s, r, j));
  }

  lemma {:induction false} NakedRowGuarded(s: Sweep, r: nat, j: nat)
    requires WellFormed(s.g) && r < s.g.n && j <= s.g.n && Kept(s)
    ensures Kept(NakedRow(s, r, j))
  {
    if j > 0 {
      NakedRowGuarded(s, r, j - 1);
      NakedCellStep(s, r, j);
    }
  }

  /** One more row of a naked sweep keeps the board `Guarded`. */
  lemma NakedRowsStep(s: Sweep, i: nat)
    requires WellFormed(s.g) && 0 < i <= s.g.n && Kept(NakedRows(s, i - 1))
    ensures Kept(NakedRows(s, i))
  {
    NakedRowGuarded(NakedRows(s, i - 1), i - 1, s.g.n);
  }

  lemma {:induction false} NakedRowsGuarded(s: Sweep, i: nat)
    requires WellFormed(s.g) && i <= s.g.n && Kept(s)
    ensures Kept(NakedRows(s, i))
  {
    if i > 0 {
      NakedRowsGuarded(s, i - 1);
      NakedRowsStep(s, i);
    }
  }

  /**
    Every write of `nakedSingle` is gated by `isSafe`, so a board whose placed
    digits are all counted and never repeated in a unit stays that way.
  */
  lemma NakedSweepGuarded(g: Grid)
    requires WellFormed(g) && Guarded(g)
    ensures Guarded(NakedSweep(g).g)
  {
    NakedRowsGuarded(Sweep(g, false, false), g.n);
    assert Kept(NakedSweep(g));
  }

  // ---------------------------------------------------------------- hidden singles

  /** Some unit of (r, c) had exactly one cell listing v when the hidden counters were filled. */
  predicate Single(h: Tables, n: nat, r: nat, c: nat, v: int)
    requires Shaped(h, n) && Square(n) && r < n && c < n && 1 <= v <= n
  {
    h.rows[r][v - 1] == 1 || h.cols[c][v - 1] == 1 || h.boxes[FindBox(n, r, c)][v - 1] == 1
  }

  /** One candidate v of cell (r, c) in `hiddenSingle`; a write does not end the cell's turn. */
  function HiddenOne(s: Sweep, h: Tables, r: nat, c: nat, v: int): (s': Sweep)
    requires WellFormed(s.g) && Shaped(h, s.g.n) && r < s.g.n && c < s.g.n && 1 <= v <= s.g.n
    ensures WellFormed(s'.g) && s'.g.n == s.g.n && s'.g.cands == s.g.cands
  {
    if Single(h, s.g.n, r, c, v) then
      if Safe(s.g.occ, s.g.n, r, c, v) then Sweep(Place(s.g, r, c, v), true, s.clash)
      else Sweep(s.g, s.changed, true)
    else s
  }

  /** The first m candidates of l, the list of cell (r, c). */
  function HiddenCell(s: Sweep, h: Tables, r: nat, c: nat, l: seq<int>, m: nat): (s': Sweep)
    requires WellFormed(s.g) && Shaped(h, s.g.n) && r < s.g.n && c < s.g.n && m <= |l|
    requires forall k :: 0 <= k < |l| ==> 1 <= l[k] <= s.g.n
    ensures WellFormed(s'.g) && s'.g.n == s.g.n && s'.g.cands == s.g.cands
  {
    if m == 0 then s else HiddenOne(HiddenCell(s, h, r, c, l, m - 1), h, r, c, l[m - 1])
  }

  /** One cell of `hiddenSingle`: a filled cell is skipped, an empty one tries every candidate. */
  function HiddenAt(s: Sweep, h: Tables, r: nat, c: nat): (s': Sweep)
    requires WellFormed(s.g) && Shaped(h, s.g.n) && r < s.g.n && c < s.g.n
    ensures WellFormed(s'.g) && s'.g.n == s.g.n && s'.g.cands == s.g.cands
  {
    if s.g.values[r][c] != 0 then s
    else HiddenCell(s, h, r, c, s.g.cands[r][c], |s.g.cands[r][c]|)
  }

  function HiddenRow(s: Sweep, h: Tables, r: nat, j: nat): (s': Sweep)
    requires WellFormed(s.g) && Shaped(h, s.g.n) && r < s.g.n && j <= s.g.n
    ensures WellFormed(s'.g) && s'.g.n == s.g.n && s'.g.cands == s.g.cands
  {
    if j == 0 then s else HiddenAt(HiddenRow(s, h, r, j - 1), h, r, j - 1)
  }

  function HiddenRows(s: Sweep, h: Tables, i: nat): (s': Sweep)
    requires WellFormed(s.g) && Shaped(h, s.g.n) && i <= s.g.n
    ensures WellFormed(s'.g) && s'.g.n == s.g.n && s'.g.cands == s.g.cands
  {
    if i == 0 then s else HiddenRow(HiddenRows(s, h, i - 1), h, i - 1, s.g.n)
  }

  /** `Solver.hiddenSingle` on a whole board, against the hidden counters h. */
  function HiddenSweep(g: Grid, h: Tables): Sweep
    requires WellFormed(g) && Shaped(h, g.n)
  {
    HiddenRows(Sweep(g, false, false), h, g.n)
  }

  /** Two boards agree on every cell but (r, c). */
  ghost predicate OthersSame(g0: Grid, g1: Grid, r: nat, c: nat)
    requires WellFormed(g0) && WellFormed(g1) && g0.n == g1.n
  {
    forall i, j :: 0 <= i < g0.n && 0 <= j < g0.n && (i != r || j != c) ==> g1.values[i][j] == g0.values[i][j]
  }

  /** Within the turn of cell (r, c) no other cell changes. */
  lemma {:induction false} HiddenCellOthers(s: Sweep, h: Tables, r: nat, c: nat, m: nat)
    requires WellFormed(s.g) && Shaped(h, s.g.n) && r < s.g.n && c < s.g.n
    requires m <= |s.g.cands[r][c]|
    ensures OthersSame(s.g, HiddenCell(s, h, r, c, s.g.cands[r][c], m).g, r, c)
  {
    if m > 0 {
      HiddenCellOthers(s, h, r, c, m - 1);
    }
  }

  /**
    Within the turn of an empty cell (r, c): the cell either stays empty, in
    which case nothing changed at all, or it holds one of its candidates and
    the flag is set; a clash once seen stays seen.
  */
  lemma {:induction false} HiddenCellFacts(s: Sweep, h: Tables, r: nat, c: nat, m: nat)
    requires WellFormed(s.g) && Shaped(h, s.g.n) && r < s.g.n && c < s.g.n
    requires s.g.values[r][c] == 0 && m <= |s.g.cands[r][c]|
    ensures var t := HiddenCell(s, h, r, c, s.g.cands[r][c], m);
      && (t.g.values[r][c] == 0 ==> t.g == s.g && t.changed == s.changed)
      && (t.g.values[r][c] != 0 ==> t.changed && t.g.values[r][c] in s.g.cands[r][c])
      && (s.clash ==> t.clash)
  {
    if m > 0 {
      HiddenCellFacts(s, h, r, c, m - 1);
      var l := s.g.cands[r][c];
      var p := HiddenCell(s, h, r, c, l, m - 1);
      var v := l[m - 1];
      if Single(h, s.g.n, r, c, v) && Safe(p.g.occ, s.g.n, r, c, v) {
        assert Place(p.g, r, c, v).values[r][c] == v;
      }
    }
  }

  /** Writing a digit into one cell, and changing nothing else, leaves exactly the other empty cells. */
  lemma ZerosOneCell(g0: Grid, g1: Grid, r: nat, c: nat)
    requires WellFormed(g0) && WellFormed(g1) && g0.n == g1.n && r < g0.n && c < g0.n
    requires OthersSame(g0, g1, r, c) && g1.values[r][c] != 0
    ensures Zeros(g1) == Zeros(g0) - {(r, c)}
  {
    forall p | p in Zeros(g1)
      ensures p in Zeros(g0) - {(r, c)}
    {
      var (i, j) := p;
      assert g1.values[i][j] == 0;
    }
    forall p | p in Zeros(g0) - {(r, c)}
      ensures p in Zeros(g1)
    {
      var (i, j) := p;
      assert g0.values[i][j] == 0;
    }
  }

  /** A write into a cell that was empty in g0 cannot undo what g0 had filled. */
  lemma KeepsOthers(g0: Grid, g1: Grid, g2: Grid, r: nat, c: nat)
    requires WellFormed(g0) && WellFormed(g1) && WellFormed(g2) && g0.n == g1.n == g2.n && r < g0.n && c < g0.n
    requires Keeps(g0, g1) && OthersSame(g1, g2, r, c) && g0.values[r][c] == 0
    ensures Keeps(g0, g2)
  {
  }

  lemma HiddenAtAdvances(s: Sweep, h: Tables, r: nat, c: nat, t: Sweep)
    requires WellFormed(s.g) && Shaped(h, s.g.n) && r < s.g.n && c < s.g.n && t == HiddenAt(s, h, r, c)
    ensures Advance(s, t)
  {
    if s.g.values[r][c] != 0 {
      AdvanceRefl(s);
    } else {
      HiddenCellOthers(s, h, r, c, |s.g.cands[r][c]|);
      HiddenCellFacts(s, h, r, c, |s.g.cands[r][c]|);
      if t.g.values[r][c] != 0 {
        ZerosOneCell(s.g, t.g, r, c);
        assert (r, c) in Zeros(s.g);
      }
    }
  }

  /** One more cell of a hidden sweep extends a stretch that already advances. */
  lemma HiddenAtExtends(s: Sweep, p: Sweep, h: Tables, r: nat, c: nat, t: Sweep)
    requires WellFormed(s.g) && WellFormed(p.g) && p.g.n == s.g.n && Shaped(h, s.g.n)
    requires r < s.g.n && c < s.g.n && Advance(s, p) && t == HiddenAt(p, h, r, c)
    ensures Advance(s, t)
  {
    HiddenAtAdvances(p, h, r, c, t);
    AdvanceTrans(s, p, t);
  }

  lemma {:induction false} HiddenRowAdvances(s: Sweep, h: Tables, r: nat, j: nat, t: Sweep)
    requires WellFormed(s.g) && Shaped(h, s.g.n) && r < s.g.n && j <= s.g.n && t == HiddenRow(s, h, r, j)
    ensures Advance(s, t)
  {
    if j == 0 {
      AdvanceRefl(s);
    } else {
      var p := HiddenRow(s, h, r, j - 1);
      HiddenRowAdvances(s, h, r, j - 1, p);
      HiddenAtExtends(s, p, h, r, j - 1, t);
    }
  }

  /** One more row of a hidden sweep extends a stretch that already advances. */
  lemma HiddenRowExtends(s: Sweep, p: Sweep, h: Tables, r: nat, t: Sweep)
    requires WellFormed(s.g) && WellFormed(p.g) && p.g.n == s.g.n && Shaped(h, s.g.n) && r < s.g.n
    requires Advance(s, p) && t == HiddenRow(p, h, r, p.g.n)
    ensures Advance(s, t)
  {
    HiddenRowAdvances(p, h, r, p.g.n, t);
    AdvanceTrans(s, p, t);
  }

  lemma {:induction false} HiddenRowsAdvances(s: Sweep, h: Tables, i: nat, t: Sweep)
    requires WellFormed(s.g) && Shaped(h, s.g.n) && i <= s.g.n && t == HiddenRows(s, h, i)
    ensures Advance(s, t)
  {
    if i == 0 {
      AdvanceRefl(s);
    } else {
      var p := HiddenRows(s, h, i - 1);
      HiddenRowsAdvances(s, h, i - 1, p);
      HiddenRowExtends(s, p, h, i - 1, t);
    }
  }

  /**
    `hiddenSingle` changes a board only as a sweep may (see `Advance`): in
    particular every cell filled before the sweep keeps its digit, even though
    a cell filled during its own turn can be written again; it returns true
    exactly when it filled at least one cell.
  */
  lemma HiddenSweepAdvances(g: Grid, h: Tables, t: Sweep)
    requires WellFormed(g) && Shaped(h, g.n) && t == HiddenSweep(g, h)
    ensures Advance(Sweep(g, false, false), t)
    ensures t.changed <==> Zeros(t.g) < Zeros(g)
  {
    HiddenRowsAdvances(Sweep(g, false, false), h, g.n, t);
  }

  lemma HiddenOneGuarded(s: Sweep, h: Tables, r: nat, c: nat, v: int)
    requires WellFormed(s.g) && Shaped(h, s.g.n) && r < s.g.n && c < s.g.n && 1 <= v <= s.g.n
    requires Guarded(s.g)
    ensures Guarded(HiddenOne(s, h, r, c, v).g)
  {
    if Single(h, s.g.n, r, c, v) && Safe(s.g.occ, s.g.n, r, c, v) {
      SafePlaceKeepsGuarded(s.g, r, c, v);
    }
  }

  lemma {:induction false} HiddenCellGuarded(s: Sweep, h: Tables, r: nat, c: nat, l: seq<int>, m: nat)
    requires WellFormed(s.g) && Shaped(h, s.g.n) && r < s.g.n && c < s.g.n && m <= |l|
    requires forall k :: 0 <= k < |l| ==> 1 <= l[k] <= s.g.n
    requires Guarded(s.g)
    ensures Guarded(HiddenCell(s, h, r, c, l, m).g)
  {
    if m > 0 {
      HiddenCellGuarded(s, h, r, c, l, m - 1);
      HiddenOneGuarded(HiddenCell(s, h, r, c, l, m - 1), h, r, c, l[m - 1]);
    }
  }

  lemma {:induction false} HiddenRowGuarded(s: Sweep, h: Tables, r: nat, j: nat, t: Sweep)
    requires WellFormed(s.g) && Shaped(h, s.g.n) && r < s.g.n && j <= s.g.n && Guarded(s.g)
    requires t == HiddenRow(s, h, r, j)
    ensures Guarded(t.g)
  {
    if j > 0 {
      var p := HiddenRow(s, h, r, j - 1);
      HiddenRowGuarded(s, h, r, j - 1, p);
      if p.g.values[r][j - 1] == 0 {
        HiddenCellGuarded(p, h, r, j - 1, p.g.cands[r][j - 1], |p.g.cands[r][j - 1]|);
      }
    }
  }

  lemma {:induction false} HiddenRowsGuarded(s: Sweep, h: Tables, i: nat, t: Sweep)
    requires WellFormed(s.g) && Shaped(h, s.g.n) && i <= s.g.n && Guarded(s.g)
    requires t == HiddenRows(s, h, i)
    ensures Guarded(t.g)
  {
    if i > 0 {
      var p := HiddenRows(s, h, i - 1);
      HiddenRowsGuarded(s, h, i - 1, p);
      HiddenRowGuarded(p, h, i - 1, s.g.n, t);
    }
  }

  /**
    Every write of `hiddenSingle` is gated by `isSafe`. Even when a cell is
    written twice in its own turn, the second digit was absent from the cell's
    units and the first one disappears, so no digit ever appears twice in a
    unit and every placed digit stays counted.
  */
  lemma HiddenSweepGuarded(g: Grid, h: Tables)
    requires WellFormed(g) && Shaped(h, g.n) && Guarded(g)
    ensures Guarded(HiddenSweep(g, h).g)
  {
    HiddenRowsGuarded(Sweep(g, false, false), h, g.n, HiddenSweep(g, h));
  }
}
