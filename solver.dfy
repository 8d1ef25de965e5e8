/**
  `Solver`: the static state of the solver (`wrongSituation`, `solvedSudoku`
  and the three hidden-single dictionaries) becomes the fields of one object,
  and its static methods become that object's methods. The propagation
  tactics are proved against the sweeps of `Propagation`, the pruning of
  `minCell` against the `Prune` pass of `Candidates`, and the backtracking
  search is proved to end with a full board that keeps every clue.
*/
module Solvers {
  import opened Geometry
  import opened Grids
  import opened Candidates
  import opened Propagation
  import opened Boards

  datatype Option<T> = None | Some(value: T)

  /** The length of the list `updateCellPossibilities` leaves on cell (a, b). */
  ghost function Pruned(g: Grid, a: nat, b: nat): nat
    requires WellFormed(g) && a < g.n && b < g.n
  {
    |Listed(g, Prune, a, b)|
  }

  /** `minCell` can choose cell (a, b): it is empty and its pruned list has 1..n entries. */
  ghost predicate Eligible(g: Grid, a: nat, b: nat)
    requires WellFormed(g) && a < g.n && b < g.n
  {
    g.values[a][b] == 0 && 0 < Pruned(g, a, b) <= g.n
  }

  /** No cell before (i, j) is eligible. */
  ghost predicate NoneEligible(g: Grid, i: nat, j: nat)
    requires WellFormed(g)
  {
    forall a, b :: 0 <= a < g.n && 0 <= b < g.n && Before(a, b, i, j) ==> !Eligible(g, a, b)
  }

  /**
    Among the cells before (i, j), (r, c) is eligible, no eligible cell has a
    shorter pruned list, and every eligible cell before (r, c) has a longer one.
  */
  ghost predicate FirstMin(g: Grid, r: nat, c: nat, i: nat, j: nat)
    requires WellFormed(g) && r < g.n && c < g.n
  {
    && Before(r, c, i, j) && Eligible(g, r, c)
    && forall a, b :: 0 <= a < g.n && 0 <= b < g.n && Before(a, b, i, j) && Eligible(g, a, b) ==>
         Pruned(g, r, c) <= Pruned(g, a, b) && (Before(a, b, r, c) ==> Pruned(g, r, c) < Pruned(g, a, b))
  }

  /** The whole-board choice of `minCell` is determined: at most one cell is the first minimum. */
  lemma FirstMinUnique(g: Grid, r: nat, c: nat, r': nat, c': nat)
    requires WellFormed(g) && r < g.n && c < g.n && r' < g.n && c' < g.n
    requires FirstMin(g, r, c, g.n, 0) && FirstMin(g, r', c', g.n, 0)
    ensures r == r' && c == c'
  {
    assert !Before(r, c, r', c') && !Before(r', c', r, c);
  }

  /** One more cell scanned by `minCell`, when the choice so far stands. */
  lemma FirstMinStays(g: Grid, r: nat, c: nat, i: nat, j: nat)
    requires WellFormed(g) && r < g.n && c < g.n && i < g.n && j < g.n && FirstMin(g, r, c, i, j)
    requires Eligible(g, i, j) ==> Pruned(g, r, c) <= Pruned(g, i, j)
    ensures FirstMin(g, r, c, i, j + 1)
  {
  }

  /** One more cell scanned by `minCell`, when that cell becomes the choice. */
  lemma FirstMinMoves(g: Grid, i: nat, j: nat, min: nat)
    requires WellFormed(g) && i < g.n && j < g.n && Eligible(g, i, j) && Pruned(g, i, j) < min
    requires forall a, b :: 0 <= a < g.n && 0 <= b < g.n && Before(a, b, i, j) && Eligible(g, a, b) ==> min <= Pruned(g, a, b)
    ensures FirstMin(g, i, j, i, j + 1)
  {
  }

  /** The end of row i is the start of row i + 1. */
  lemma MinRowEnd(g: Grid, i: nat)
    requires WellFormed(g) && i < g.n
    ensures NoneEligible(g, i, g.n) ==> NoneEligible(g, i + 1, 0)
    ensures forall r, c :: 0 <= r < g.n && 0 <= c < g.n && FirstMin(g, r, c, i, g.n) ==> FirstMin(g, r, c, i + 1, 0)
  {
  }

  /**
    Some empty cell has nothing left once its list is pruned. `minCell` never
    picks such a cell, and no tactic and no guess ever fills it.
  */
  ghost predicate Stuck(g: Grid)
    requires WellFormed(g)
  {
    exists a, b :: 0 <= a < g.n && 0 <= b < g.n && g.values[a][b] == 0 && Pruned(g, a, b) == 0
  }

  /** An empty cell other than (r, c) has an empty list. */
  ghost predicate BlockedBesides(g: Grid, r: nat, c: nat)
    requires WellFormed(g)
  {
    exists a, b :: 0 <= a < g.n && 0 <= b < g.n && (a != r || b != c) && g.values[a][b] == 0 && g.cands[a][b] == []
  }

  /** Pruning only deletes list entries, so the pruned board keeps its shape. */
  lemma PrunedShape(g: Grid)
    requires WellFormed(g)
    ensures WellFormed(g.(cands := Visited(g, Prune, g.n, 0)))
  {
    VisitedAll(g, Prune);
    var ls := Visited(g, Prune, g.n, 0);
    forall a, b, x | 0 <= a < g.n && 0 <= b < g.n && 0 <= x < |ls[a][b]|
      ensures 1 <= ls[a][b][x] <= g.n
    {
      if g.values[a][b] == 0 {
        var l := g.cands[a][b];
        FilterFromDeletes(l, SafeSet(g.occ, g.n, a, b), 0);
        assert ls[a][b][x] in multiset(ls[a][b]);
        assert ls[a][b][x] in l;
      }
    }
  }

  /** The board `minCell` leaves: every empty cell's list pruned against the tables. */
  ghost function PrunedBoard(g: Grid): (p: Grid)
    requires WellFormed(g)
    ensures WellFormed(p) && p.n == g.n
  {
    PrunedShape(g);
    g.(cands := Visited(g, Prune, g.n, 0))
  }

  /** A full board is not stuck. */
  lemma FullNotStuck(g: Grid)
    requires WellFormed(g) && Zeros(g) == {}
    ensures !Stuck(g)
  {
    forall a, b | 0 <= a < g.n && 0 <= b < g.n
      ensures g.values[a][b] != 0
    {
      assert (a, b) !in Zeros(g);
    }
  }

  /** On a stuck board the cell `minCell` picks is not the stuck one, which pruning leaves blocked. */
  lemma StuckBlocks(g: Grid, r: nat, c: nat)
    requires WellFormed(g) && Stuck(g) && r < g.n && c < g.n && Eligible(g, r, c)
    ensures BlockedBesides(PrunedBoard(g), r, c)
  {
    var a, b :| 0 <= a < g.n && 0 <= b < g.n && g.values[a][b] == 0 && Pruned(g, a, b) == 0;
    VisitedAll(g, Prune);
    assert PrunedBoard(g).cands[a][b] == [];
  }

  /** A guess at (r, c) leaves every other cell and list alone, so a blocked cell elsewhere makes the board stuck. */
  lemma GuessBlocked(g0: Grid, g1: Grid, r: nat, c: nat, l: seq<int>)
    requires WellFormed(g0) && WellFormed(g1) && g1.n == g0.n && r < g0.n && c < g0.n
    requires BlockedBesides(g0, r, c) && OthersSame(g0, g1, r, c)
    requires g1.cands == g0.cands[r := g0.cands[r][c := l]]
    ensures Stuck(g1)
  {
    var a, b :| 0 <= a < g0.n && 0 <= b < g0.n && (a != r || b != c) && g0.values[a][b] == 0 && g0.cands[a][b] == [];
    assert g1.values[a][b] == 0 && g1.cands[a][b] == [];
    assert Pruned(g1, a, b) == |Filter([], SafeSet(g1.occ, g1.n, a, b))| == 0;
  }

  /**
    One evaluation of `preSolve`'s loop condition, `nakedSingle(board) ||
    hiddenSingle(board)`, on board g with hidden counters h and
    `wrongSituation` equal to w: the board after it, whether it filled a cell,
    and `wrongSituation` after it. The hidden sweep runs only when the naked
    one filled nothing.
  */
  ghost function RoundOf(g: Grid, h: Tables, w: bool): (r: (Grid, bool, bool))
    requires WellFormed(g) && Shaped(h, g.n)
    ensures WellFormed(r.0) && r.0.n == g.n && r.0.cands == g.cands
  {
    var ns := NakedSweep(g);
    if ns.changed then (ns.g, true, w && !ns.clash)
    else
      var hs := HiddenSweep(g, h);
      (hs.g, hs.changed, w && !ns.clash && !hs.clash)
  }

  /**
    A round keeps every filled cell, fills only cells whose list holds the
    digit, reports progress exactly when the empty cells shrink, changes
    nothing when it reports none, and keeps a board without repeats.
  */
  lemma RoundOfSpec(g: Grid, h: Tables, w: bool)
    requires WellFormed(g) && Shaped(h, g.n)
    ensures var r := RoundOf(g, h, w);
      && Keeps(g, r.0) && Drawn(g, r.0)
      && (r.1 <==> Zeros(r.0) < Zeros(g))
      && (!r.1 ==> r.0 == g)
      && (Guarded(g) ==> Guarded(r.0))
  {
    NakedSweepAdvances(g, NakedSweep(g));
    HiddenSweepAdvances(g, h, HiddenSweep(g, h));
    if Guarded(g) {
      NakedSweepGuarded(g);
      HiddenSweepGuarded(g, h);
    }
  }

  /**
    `preSolve` from board g, counters h and `wrongSituation` w: the board it
    leaves, its answer and the `wrongSituation` it leaves. Rounds repeat
    while they fill a cell. A filling round after which the flag is false
    ends with false and resets the flag; a round that fills nothing ends with
    true and leaves the flag as that round set it.
  */
  ghost function Settle(g: Grid, h: Tables, w: bool): (r: (Grid, bool, bool))
    requires WellFormed(g) && Shaped(h, g.n)
    ensures WellFormed(r.0) && r.0.n == g.n && r.0.cands == g.cands
    decreases |Zeros(g)|
  {
    var r1 := RoundOf(g, h, w);
    if !r1.1 then (r1.0, true, r1.2)
    else if !r1.2 then (r1.0, false, true)
    else
      RoundOfSpec(g, h, w);
      FewerZeros(Zeros(r1.0), Zeros(g));
      Settle(r1.0, h, r1.2)
  }

  /** Digits drawn from the lists in two steps are drawn from the first lists. */
  lemma DrawnTrans(g0: Grid, g1: Grid, g2: Grid)
    requires WellFormed(g0) && WellFormed(g1) && WellFormed(g2) && g1.n == g0.n && g2.n == g0.n
    requires g1.cands == g0.cands && Keeps(g1, g2) && Drawn(g0, g1) && Drawn(g1, g2)
    ensures Drawn(g0, g2)
  {
    forall i, j | 0 <= i < g0.n && 0 <= j < g0.n && g0.values[i][j] == 0 && g2.values[i][j] != 0
      ensures g2.values[i][j] in g0.cands[i][j]
    {
      if g1.values[i][j] != 0 {
        assert g2.values[i][j] == g1.values[i][j];
      }
    }
  }

  /**
    What `preSolve` guarantees: filled cells keep their digit, new digits come
    from the cells' own lists, a board without repeats stays so; on true
    neither tactic can change the board and the flag records whether its
    final sweeps met an unsafe digit; on false some cell was filled and the
    flag is back to true.
  */
  lemma {:induction false} SettleSpec(g: Grid, h: Tables, w: bool)
    requires WellFormed(g) && Shaped(h, g.n)
    ensures var r := Settle(g, h, w);
      && Keeps(g, r.0) && Drawn(g, r.0) && Zeros(r.0) <= Zeros(g)
      && (Guarded(g) ==> Guarded(r.0))
      && (r.1 ==> !NakedSweep(r.0).changed && !HiddenSweep(r.0, h).changed)
      && (r.1 ==> r.2 == ((w || Zeros(r.0) < Zeros(g)) && !NakedSweep(r.0).clash && !HiddenSweep(r.0, h).clash))
      && (!r.1 ==> r.2 && Zeros(r.0) < Zeros(g))
    decreases |Zeros(g)|
  {
    var r1 := RoundOf(g, h, w);
    RoundOfSpec(g, h, w);
    if !r1.1 {
      SettleQuiet(g, h, w);
    } else if !r1.2 {
      assert Settle(g, h, w) == (r1.0, false, true);
    } else {
      FewerZeros(Zeros(r1.0), Zeros(g));
      SettleOn(g, h, w);
      SettleSpec(r1.0, h, r1.2);
      var r := Settle(r1.0, h, r1.2);
      KeepsTrans(g, r1.0, r.0);
      DrawnTrans(g, r1.0, r.0);
    }
  }

  /** The part of `SettleSpec` that `solve` relies on: filled cells stay, empty cells only shrink. */
  lemma SettleKeeps(g: Grid, h: Tables, w: bool)
    requires WellFormed(g) && Shaped(h, g.n)
    ensures Keeps(g, Settle(g, h, w).0) && Zeros(Settle(g, h, w).0) <= Zeros(g)
  {
    SettleSpec(g, h, w);
  }

  /** A round that fills nothing ends `preSolve` with true, the board unchanged. */
  lemma SettleQuiet(g: Grid, h: Tables, w: bool)
    requires WellFormed(g) && Shaped(h, g.n) && !RoundOf(g, h, w).1
    ensures Settle(g, h, w) == (g, true, RoundOf(g, h, w).2)
  {
    var r := RoundOf(g, h, w);
    RoundOfSpec(g, h, w);
    assert r.0 == g;
  }

  /** A round that fills a cell and keeps the flag is followed by the next one. */
  lemma SettleOn(g: Grid, h: Tables, w: bool)
    requires WellFormed(g) && Shaped(h, g.n) && RoundOf(g, h, w).1 && RoundOf(g, h, w).2
    ensures Settle(g, h, w) == Settle(RoundOf(g, h, w).0, h, true)
  {
  }

  /** A round never raises the flag. */
  lemma RoundKeepsFalse(g: Grid, h: Tables)
    requires WellFormed(g) && Shaped(h, g.n)
    ensures !RoundOf(g, h, false).2
  {
  }

  /** Entered with the flag false, `preSolve` answers false at a round that fills a cell. */
  lemma SettleReset(g: Grid, h: Tables)
    requires WellFormed(g) && Shaped(h, g.n) && RoundOf(g, h, false).1
    ensures Settle(g, h, false) == (RoundOf(g, h, false).0, false, true)
  {
    RoundKeepsFalse(g, h);
  }

  /** Propagation fills a cell only with a digit of its list, so a blocked cell stays blocked. */
  lemma SettleBlocked(g: Grid, h: Tables, w: bool, r: nat, c: nat)
    requires WellFormed(g) && Shaped(h, g.n) && BlockedBesides(g, r, c)
    ensures BlockedBesides(Settle(g, h, w).0, r, c)
  {
    var a, b :| 0 <= a < g.n && 0 <= b < g.n && (a != r || b != c) && g.values[a][b] == 0 && g.cands[a][b] == [];
    SettleSpec(g, h, w);
    assert Settle(g, h, w).0.values[a][b] == 0;
  }

  /**
    On a stuck board, propagation after pruning leaves an empty cell with an
    empty list besides the cell `minCell` picked.
  */
  lemma StuckSettles(g: Grid, h: Tables, w: bool, r: nat, c: nat)
    requires WellFormed(g) && Shaped(h, g.n) && Stuck(g) && r < g.n && c < g.n && Eligible(g, r, c)
    ensures BlockedBesides(Settle(PrunedBoard(g), h, w).0, r, c)
  {
    StuckBlocks(g, r, c);
    SettleBlocked(PrunedBoard(g), h, w, r, c);
  }

  /**
    The flag outlives a call: a round that fills nothing but meets an unsafe
    digit ends `preSolve` with true and leaves `wrongSituation` false, and a
    later `preSolve` entered with the flag false answers false at its first
    round that fills a cell, whatever that round meets.
  */
  lemma StaleFlag(g: Grid, g2: Grid, h: Tables, w: bool)
    requires WellFormed(g) && Shaped(h, g.n) && WellFormed(g2) && g2.n == g.n
    requires !RoundOf(g, h, w).1 && (NakedSweep(g).clash || HiddenSweep(g, h).clash)
    requires RoundOf(g2, h, false).1
    ensures Settle(g, h, w) == (g, true, false)
    ensures !Settle(g2, h, false).1
  {
    SettleQuiet(g, h, w);
    SettleReset(g2, h);
  }

  /**
    The solver's static fields: `wrongSituation` (true while no tactic has met
    an unsafe digit), `solvedSudoku`, and the hidden-single counters.
  */
  class Solver {
    var wrongSituation: bool
    var solvedSudoku: Board?
    const hidden: HiddenCounters

    /** The static initialisers. */
    constructor ()
      ensures wrongSituation && solvedSudoku == null && fresh(hidden)
      ensures hidden.Counts() == Tables([], [], [])
    {
      wrongSituation := true;
      solvedSudoku := null;
      hidden := new HiddenCounters();
    }

    /** `isSolved`: true exactly when the board has no empty cell. */
    method IsSolved(board: Board) returns (b: bool)
      requires board.Valid()
      ensures b <==> Zeros(board.Model()) == {}
    {
      for i := 0 to board.size
        invariant forall a, c :: 0 <= a < i && 0 <= c < board.size ==> board.vals[a][c] != 0
      {
        for j := 0 to board.size
          invariant forall a, c :: 0 <= a < i && 0 <= c < board.size ==> board.vals[a][c] != 0
          invariant forall c :: 0 <= c < j ==> board.vals[i][c] != 0
        {
          if board.values[i, j] == 0 {
            assert (i, j) in Zeros(board.Model());
            return false;
          }
        }
      }
      return true;
    }

    /** `initHiddenSinglesDictionary`: the three dictionaries are cleared and get `size` zero arrays each. */
    method InitHiddenSinglesDictionary(board: Board)
      modifies hidden
      ensures hidden.Counts() == Tables(ZeroTable(board.size), ZeroTable(board.size), ZeroTable(board.size))
    {
      hidden.rows, hidden.cols, hidden.boxes := [], [], [];
      var zeroArray := seq(board.size, _ => 0);
      for i := 0 to board.size
        invariant |hidden.rows| == i && |hidden.cols| == i && |hidden.boxes| == i
        invariant forall u :: 0 <= u < i ==>
          hidden.rows[u] == zeroArray && hidden.cols[u] == zeroArray && hidden.boxes[u] == zeroArray
      {
        hidden.rows := hidden.rows + [zeroArray];
        hidden.cols := hidden.cols + [zeroArray];
        hidden.boxes := hidden.boxes + [zeroArray];
      }
    }

    /**
      The body of `nakedSingle`'s loop for cell (r, c): one step of the sweep.
      `wrongSituation` is cleared exactly when this cell is an unsafe single.
    */
    method NakedCell(board: Board, r: nat, c: nat, flag: bool, ghost clash: bool) returns (flag': bool, ghost clash': bool)
      requires board.Valid() && r < board.size && c < board.size
      requires clash ==> !wrongSituation
      modifies this`wrongSituation, board, board.values
      ensures board.Valid()
      ensures Sweep(board.Model(), flag', clash') == NakedAt(Sweep(old(board.Model()), flag, clash), r, c)
      ensures wrongSituation == (old(wrongSituation) && !clash') && (clash ==> clash')
    {
      flag', clash' := flag, clash;
      if board.values[r, c] == 0 && |board.cands[r, c]| == 1 {
        var number := board.cands[r, c][0];
        if board.IsSafe(r, c, number) {
          board.PlaceDigit(r, c, number);
          flag' := true;
        } else {
          wrongSituation := false;
          clash' := true;
        }
      }
    }

    /** Row r of `nakedSingle`'s loop. */
    method NakedRowPass(board: Board, r: nat, flag: bool, ghost clash: bool) returns (flag': bool, ghost clash': bool)
      requires board.Valid() && r < board.size
      requires clash ==> !wrongSituation
      modifies this`wrongSituation, board, board.values
      ensures board.Valid()
      ensures Sweep(board.Model(), flag', clash') == NakedRow(Sweep(old(board.Model()), flag, clash), r, board.size)
      ensures wrongSituation == (old(wrongSituation) && !clash') && (clash ==> clash')
    {
      ghost var s0 := Sweep(board.Model(), flag, clash);
      flag', clash' := flag, clash;
      for j := 0 to board.size
        invariant board.Valid()
        invariant Sweep(board.Model(), flag', clash') == NakedRow(s0, r, j)
        invariant wrongSituation == (old(wrongSituation) && !clash') && (clash ==> clash')
      {
        flag', clash' := NakedCell(board, r, j, flag', clash');
      }
    }

    /**
      `nakedSingle`: ends in exactly the board `NakedSweep` computes, returns
      its flag, and clears `wrongSituation` exactly when the sweep met an
      unsafe single candidate.
    */
    method NakedSingle(board: Board) returns (flag: bool)
      requires board.Valid()
      modifies this`wrongSituation, board, board.values
      ensures board.Valid()
      ensures var s := NakedSweep(old(board.Model()));
        board.Model() == s.g && flag == s.changed && wrongSituation == (old(wrongSituation) && !s.clash)
    {
      ghost var s0 := Sweep(board.Model(), false, false);
      ghost var clash := false;
      flag := false;
      for i := 0 to board.size
        invariant board.Valid()
        invariant Sweep(board.Model(), flag, clash) == NakedRows(s0, i)
        invariant wrongSituation == (old(wrongSituation) && !clash)
      {
        flag, clash := NakedRowPass(board, i, flag, clash);
      }
    }

    /**
      One candidate `number` of empty cell (r, c) in `hiddenSingle`: a hidden
      single is written if it is safe; an unsafe one clears `wrongSituation`.
    */
    method HiddenStep(board: Board, r: nat, c: nat, number: int, flag: bool, ghost clash: bool) returns (flag': bool, ghost clash': bool)
      requires board.Valid() && Shaped(hidden.Counts(), board.size) && r < board.size && c < board.size
      requires 1 <= number <= board.size
      requires clash ==> !wrongSituation
      modifies this`wrongSituation, board, board.values
      ensures board.Valid()
      ensures Sweep(board.Model(), flag', clash') == HiddenOne(Sweep(old(board.Model()), flag, clash), hidden.Counts(), r, c, number)
      ensures wrongSituation == (old(wrongSituation) && !clash') && (clash ==> clash')
    {
      flag', clash' := flag, clash;
      var boxNumber := FindBox(board.size, r, c);
      if hidden.rows[r][number - 1] == 1 || hidden.cols[c][number - 1] == 1 || hidden.boxes[boxNumber][number - 1] == 1 {
        if board.IsSafe(r, c, number) {
          board.PlaceDigit(r, c, number);
          flag' := true;
        } else {
          wrongSituation := false;
          clash' := true;
        }
      }
    }

    /**
      Cell (r, c) of `hiddenSingle`: a filled cell is skipped, an empty one
      tries each entry of its list in order. The list is read once; writing
      the cell's value does not change it.
    */
    method HiddenCellPass(board: Board, r: nat, c: nat, flag: bool, ghost clash: bool) returns (flag': bool, ghost clash': bool)
      requires board.Valid() && Shaped(hidden.Counts(), board.size) && r < board.size && c < board.size
      requires clash ==> !wrongSituation
      modifies this`wrongSituation, board, board.values
      ensures board.Valid()
      ensures Sweep(board.Model(), flag', clash') == HiddenAt(Sweep(old(board.Model()), flag, clash), hidden.Counts(), r, c)
      ensures wrongSituation == (old(wrongSituation) && !clash') && (clash ==> clash')
    {
      flag', clash' := flag, clash;
      if board.values[r, c] != 0 {
        return;
      }
      ghost var s0 := Sweep(board.Model(), flag, clash);
      var list := board.cands[r, c];
      for k := 0 to |list|
        invariant board.Valid()
        invariant Sweep(board.Model(), flag', clash') == HiddenCell(s0, hidden.Counts(), r, c, list, k)
        invariant wrongSituation == (old(wrongSituation) && !clash') && (clash ==> clash')
      {
        flag', clash' := HiddenStep(board, r, c, list[k], flag', clash');
      }
    }

    /** Row r of `hiddenSingle`'s loop. */
    method HiddenRowPass(board: Board, r: nat, flag: bool, ghost clash: bool) returns (flag': bool, ghost clash': bool)
      requires board.Valid() && Shaped(hidden.Counts(), board.size) && r < board.size
      requires clash ==> !wrongSituation
      modifies this`wrongSituation, board, board.values
      ensures board.Valid()
      ensures Sweep(board.Model(), flag', clash') == HiddenRow(Sweep(old(board.Model()), flag, clash), hidden.Counts(), r, board.size)
      ensures wrongSituation == (old(wrongSituation) && !clash') && (clash ==> clash')
    {
      ghost var s0 := Sweep(board.Model(), flag, clash);
      flag', clash' := flag, clash;
      for j := 0 to board.size
        invariant board.Valid()
        invariant Sweep(board.Model(), flag', clash') == HiddenRow(s0, hidden.Counts(), r, j)
        invariant wrongSituation == (old(wrongSituation) && !clash') && (clash ==> clash')
      {
        flag', clash' := HiddenCellPass(board, r, j, flag', clash');
      }
    }

    /**
      `hiddenSingle`: ends in exactly the board `HiddenSweep` computes against
      the hidden counters, returns its flag, and clears `wrongSituation`
      exactly when the sweep met an unsafe hidden single.
    */
    method HiddenSingle(board: Board) returns (flag: bool)
      requires board.Valid() && Shaped(hidden.Counts(), board.size)
      modifies this`wrongSituation, board, board.values
      ensures board.Valid()
      ensures var s := HiddenSweep(old(board.Model()), hidden.Counts());
        board.Model() == s.g && flag == s.changed && wrongSituation == (old(wrongSituation) && !s.clash)
    {
      ghost var s0 := Sweep(board.Model(), false, false);
      ghost var clash := false;
      flag := false;
      for i := 0 to board.size
        invariant board.Valid()
        invariant Sweep(board.Model(), flag, clash) == HiddenRows(s0, hidden.Counts(), i)
        invariant wrongSituation == (old(wrongSituation) && !clash)
      {
        flag, clash := HiddenRowPass(board, i, flag, clash);
      }
    }

    /**
      The condition of `preSolve`'s loop, `nakedSingle(board) ||
      hiddenSingle(board)`: the naked sweep, then the hidden sweep only if the
      naked one filled nothing. True exactly when a cell was filled.
    */
    method Round(board: Board) returns (progress: bool)
      requires board.Valid() && Shaped(hidden.Counts(), board.size)
      modifies this`wrongSituation, board, board.values
      ensures board.Valid() && board.lists == old(board.lists)
      ensures (board.Model(), progress, wrongSituation) == RoundOf(old(board.Model()), hidden.Counts(), old(wrongSituation))
      ensures Keeps(old(board.Model()), board.Model())
      ensures progress <==> Zeros(board.Model()) < Zeros(old(board.Model()))
      ensures !progress ==> board.Model() == old(board.Model())
      ensures Guarded(old(board.Model())) ==> Guarded(board.Model())
    {
      ghost var g := board.Model();
      ghost var h := hidden.Counts();
      NakedSweepAdvances(g, NakedSweep(g));
      if Guarded(g) {
        NakedSweepGuarded(g);
      }
      progress := NakedSingle(board);
      if !progress {
        HiddenSweepAdvances(g, h, HiddenSweep(g, h));
        if Guarded(g) {
          HiddenSweepGuarded(g, h);
        }
        progress := HiddenSingle(board);
      }
    }

    /**
      `preSolve`: repeats `nakedSingle || hiddenSingle` while one of them
      fills a cell, and stops with false at the first round after which
      `wrongSituation` is false, resetting it to true; board, answer and flag
      are those of `Settle`, whose guarantees `SettleSpec` states.
    */
    method PreSolve(board: Board) returns (ok: bool)
      requires board.Valid() && Shaped(hidden.Counts(), board.size)
      modifies this, board, board.values
      ensures board.Valid() && board.lists == old(board.lists)
      ensures (board.Model(), ok, wrongSituation) == Settle(old(board.Model()), hidden.Counts(), old(wrongSituation))
      ensures solvedSudoku == old(solvedSudoku)
    {
      ghost var g0 := board.Model();
      ghost var h := hidden.Counts();
      ghost var target := Settle(g0, h, wrongSituation);
      while true
        invariant board.Valid() && board.lists == g0.cands && solvedSudoku == old(solvedSudoku)
        invariant Settle(board.Model(), h, wrongSituation) == target
        decreases |Zeros(board.Model())|
      {
        ghost var g := board.Model();
        ghost var w := wrongSituation;
        var progress := Round(board);
        if !progress {
          SettleQuiet(g, h, w);
          return true;
        }
        FewerZeros(Zeros(board.Model()), Zeros(g));
        if !wrongSituation {
          wrongSituation := true;
          return false;
        }
        SettleOn(g, h, w);
      }
    }

    /**
      The loop of `updateCellPossibilities` on list l of cell (r, c): every
      entry `isSafe` rejects is removed with `Remove`, and the index moves on
      either way. The result is `Filter` of l against the digits `isSafe` admits.
    */
    method PruneList(board: Board, r: nat, c: nat, l: seq<int>, ghost keep: set<int>) returns (list: seq<int>)
      requires Shaped(board.Model().occ, board.size) && Square(board.size) && r < board.size && c < board.size
      requires forall k :: 0 <= k < |l| ==> 1 <= l[k] <= board.size
      requires keep == SafeSet(board.Model().occ, board.size, r, c)
      ensures list == Filter(l, keep)
      ensures forall k :: 0 <= k < |list| ==> 1 <= list[k] <= board.size
    {
      ghost var target := Filter(l, keep);
      list := l;
      var i := 0;
      while i < |list|
        invariant FilterFrom(list, keep, i) == target
        invariant forall k :: 0 <= k < |list| ==> 1 <= list[k] <= board.size
        decreases |list| - i
      {
        var v := list[i];
        var safe := board.IsSafe(r, c, v);
        assert safe <==> v in keep;
        if !safe {
          RemoveFirstInRange(list, v, board.size);
          list := RemoveFirst(list, v);
        }
        i := i + 1;
      }
    }

    /**
      `updateCellPossibilities` on cell (r, c): the cell's list becomes
      `Filter` of it against the digits `isSafe` admits; nothing else changes.
      The list is filtered as a value and stored back once; nothing reads it
      in between.
    */
    method UpdateCellPossibilities(board: Board, r: nat, c: nat)
      requires board.Valid() && r < board.size && c < board.size
      modifies board, board.cands
      ensures board.Valid() && board.vals == old(board.vals) && board.Model().occ == old(board.Model().occ)
      ensures board.lists ==
        old(board.lists)[r := old(board.lists)[r][c := Filter(old(board.lists)[r][c], SafeSet(old(board.Model()).occ, board.size, r, c))]]
    {
      var list := PruneList(board, r, c, board.cands[r, c], SafeSet(board.Model().occ, board.size, r, c));
      board.SetCandidates(r, c, list);
    }

    /** Cell (i, j) of `minCell`'s scan: the choice so far, carried from (i, j) to (i, j + 1). */
    method MinStep(board: Board, i: nat, j: nat, cell: Option<(nat, nat)>, min: nat, ghost g: Grid)
      returns (cell': Option<(nat, nat)>, min': nat)
      requires board.Valid() && WellFormed(g) && g.n == board.size && i < g.n && j < g.n
      requires board.vals == g.values && board.Model().occ == g.occ && board.lists == Visited(g, Prune, i, j)
      requires cell.None? ==> min == g.n + 1 && NoneEligible(g, i, j)
      requires cell.Some? ==>
        cell.value.0 < g.n && cell.value.1 < g.n &&
        FirstMin(g, cell.value.0, cell.value.1, i, j) && min == Pruned(g, cell.value.0, cell.value.1)
      modifies board, board.cands
      ensures board.Valid() && board.vals == g.values && board.Model().occ == g.occ
      ensures board.lists == Visited(g, Prune, i, j + 1)
      ensures cell'.None? ==> min' == g.n + 1 && NoneEligible(g, i, j + 1)
      ensures cell'.Some? ==>
        cell'.value.0 < g.n && cell'.value.1 < g.n &&
        FirstMin(g, cell'.value.0, cell'.value.1, i, j + 1) && min' == Pruned(g, cell'.value.0, cell'.value.1)
    {
      cell', min' := cell, min;
      VisitedStep(g, Prune, i, j);
      if board.values[i, j] == 0 {
        UpdateCellPossibilities(board, i, j);
        assert board.cands[i, j] == Listed(g, Prune, i, j);
        if |board.cands[i, j]| < min && |board.cands[i, j]| != 0 {
          FirstMinMoves(g, i, j, min);
          cell' := Some((i, j));
          min' := |board.cands[i, j]|;
        } else if cell.Some? {
          FirstMinStays(g, cell.value.0, cell.value.1, i, j);
        }
      } else if cell.Some? {
        FirstMinStays(g, cell.value.0, cell.value.1, i, j);
      }
    }

    /** Row i of `minCell`'s scan: the choice so far, carried from (i, 0) to (i + 1, 0). */
    method MinRow(board: Board, i: nat, cell: Option<(nat, nat)>, min: nat, ghost g: Grid)
      returns (cell': Option<(nat, nat)>, min': nat)
      requires board.Valid() && WellFormed(g) && g.n == board.size && i < g.n
      requires board.vals == g.values && board.Model().occ == g.occ && board.lists == Visited(g, Prune, i, 0)
      requires cell.None? ==> min == g.n + 1 && NoneEligible(g, i, 0)
      requires cell.Some? ==>
        cell.value.0 < g.n && cell.value.1 < g.n &&
        FirstMin(g, cell.value.0, cell.value.1, i, 0) && min == Pruned(g, cell.value.0, cell.value.1)
      modifies board, board.cands
      ensures board.Valid() && board.vals == g.values && board.Model().occ == g.occ
      ensures board.lists == Visited(g, Prune, i + 1, 0)
      ensures cell'.None? ==> min' == g.n + 1 && NoneEligible(g, i + 1, 0)
      ensures cell'.Some? ==>
        cell'.value.0 < g.n && cell'.value.1 < g.n &&
        FirstMin(g, cell'.value.0, cell'.value.1, i + 1, 0) && min' == Pruned(g, cell'.value.0, cell'.value.1)
    {
      cell', min' := cell, min;
      for j := 0 to board.size
        invariant board.Valid() && board.vals == g.values && board.Model().occ == g.occ
        invariant board.lists == Visited(g, Prune, i, j)
        invariant cell'.None? ==> min' == g.n + 1 && NoneEligible(g, i, j)
        invariant cell'.Some? ==>
          cell'.value.0 < g.n && cell'.value.1 < g.n &&
          FirstMin(g, cell'.value.0, cell'.value.1, i, j) && min' == Pruned(g, cell'.value.0, cell'.value.1)
      {
        cell', min' := MinStep(board, i, j, cell', min', g);
      }
      MinRowEnd(g, i);
      VisitedRowEnd(g, Prune, i);
    }

    /**
      `minCell`: prunes the list of every empty cell (the `Prune` pass) and
      returns the first cell, in row-major order, whose pruned list is
      shortest among the non-empty ones of length at most `size`; `None` when
      there is no such cell.
    */
    method MinCell(board: Board) returns (cell: Option<(nat, nat)>)
      requires board.Valid()
      modifies board, board.cands
      ensures board.Valid() && board.vals == old(board.vals) && board.Model().occ == old(board.Model().occ)
      ensures board.lists == Visited(old(board.Model()), Prune, board.size, 0)
      ensures board.Model() == PrunedBoard(old(board.Model()))
      ensures cell.Some? ==>
        cell.value.0 < board.size && cell.value.1 < board.size &&
        FirstMin(old(board.Model()), cell.value.0, cell.value.1, board.size, 0)
      ensures cell.None? ==> NoneEligible(old(board.Model()), board.size, 0)
    {
      ghost var g := board.Model();
      var min := board.size + 1;
      cell := None;
      VisitedStart(g, Prune);
      for i := 0 to board.size
        invariant board.Valid() && board.vals == g.values && board.Model().occ == g.occ
        invariant board.lists == Visited(g, Prune, i, 0)
        invariant cell.None? ==> min == g.n + 1 && NoneEligible(g, i, 0)
        invariant cell.Some? ==>
          cell.value.0 < g.n && cell.value.1 < g.n &&
          FirstMin(g, cell.value.0, cell.value.1, i, 0) && min == Pruned(g, cell.value.0, cell.value.1)
      {
        cell, min := MinRow(board, i, cell, min, g);
      }
    }

    /** Row i of `copyBoard`'s cell loop: the copy constructor on each cell of row i. */
    method CopyRow(board: Board, nb: Board, i: nat)
      requires board.Valid() && nb.Valid() && nb.size == board.size && i < board.size
      requires nb != board && nb.values != board.values && nb.cands != board.cands
      modifies nb, nb.values, nb.cands
      ensures nb.Valid()
      ensures nb.vals == old(nb.vals)[i := board.vals[i]] && nb.lists == old(nb.lists)[i := board.lists[i]]
      ensures nb.rows == old(nb.rows) && nb.cols == old(nb.cols) && nb.boxes == old(nb.boxes)
    {
      for j := 0 to board.size
        invariant nb.Valid()
        invariant nb.vals == old(nb.vals)[i := nb.vals[i]] && nb.vals[i][..j] == board.vals[i][..j]
        invariant nb.lists == old(nb.lists)[i := nb.lists[i]] && nb.lists[i][..j] == board.lists[i][..j]
        invariant nb.rows == old(nb.rows) && nb.cols == old(nb.cols) && nb.boxes == old(nb.boxes)
      {
        nb.CopyCell(board, i, j);
      }
      assert |nb.vals[i]| == board.size && |board.vals[i]| == board.size;
      assert nb.vals[i] == nb.vals[i][..board.size];
      assert board.vals[i] == board.vals[i][..board.size];
      assert nb.vals[i] == board.vals[i];
      assert |nb.lists[i]| == board.size && |board.lists[i]| == board.size;
      assert nb.lists[i] == nb.lists[i][..board.size];
      assert board.lists[i] == board.lists[i][..board.size];
    }

    /**
      `copyBoard`: a new board, with new arrays, holding the same size,
      values, candidate lists and occupancy tables.
    */
    method CopyBoard(board: Board) returns (nb: Board)
      requires board.Valid()
      ensures fresh(nb) && fresh(nb.values) && fresh(nb.cands)
      ensures nb.Valid() && nb.size == board.size && nb.Model() == board.Model()
    {
      nb := new Board.Sized(board.size);
      for i := 0 to board.size
        invariant fresh(nb.values) && fresh(nb.cands)
        invariant nb.Valid() && nb.size == board.size
        invariant forall a :: 0 <= a < i ==> nb.vals[a] == board.vals[a] && nb.lists[a] == board.lists[a]
        invariant forall a :: 0 <= a < i ==>
          nb.rows[a] == board.rows[a] && nb.cols[a] == board.cols[a] && nb.boxes[a] == board.boxes[a]
      {
        CopyRow(board, nb, i);
        nb.SetUnit(i, board.rows[i], board.cols[i], board.boxes[i]);
      }
      assert nb.vals == board.vals && nb.lists == board.lists;
      assert nb.rows == board.rows && nb.cols == board.cols && nb.boxes == board.boxes;
    }

    /**
      The guess of `solve` on cell (row, col): `Value = number` with no
      `isSafe` test, `Remove(number)` on the cell's list, then
      `updateSafeDictionaries`. Only that cell changes.
    */
    method Guess(board: Board, row: nat, col: nat, number: int)
      requires board.Valid() && row < board.size && col < board.size && 1 <= number <= board.size
      modifies board, board.values, board.cands
      ensures board.Valid()
      ensures board.vals == old(board.vals)[row := old(board.vals)[row][col := number]]
      ensures board.lists == old(board.lists)[row := old(board.lists)[row][col := RemoveFirst(old(board.lists)[row][col], number)]]
      ensures board.Model().occ == Record(old(board.Model().occ), board.size, row, col, number)
      ensures OthersSame(old(board.Model()), board.Model(), row, col)
    {
      board.SetValue(row, col, number);
      RemoveFirstInRange(board.cands[row, col], number, board.size);
      board.SetCandidates(row, col, RemoveFirst(board.cands[row, col], number));
      board.CountDigit(row, col, number);
    }

    /**
      `solve`: backtracking search. A full board is stored in `solvedSudoku`;
      otherwise `minCell` picks a cell (none: false), `preSolve` propagates
      (false: false), and the digits of the picked cell are tried on copies of
      the propagated board. On true, `solvedSudoku` is a full board of the
      same size in which every cell filled on entry keeps its digit; on false,
      `solvedSudoku` is untouched. The answer is false when some empty cell
      has nothing left after pruning, and whenever `preSolve` on the pruned
      board (as `Settle` describes it) answers false. Every recursive call has
      fewer empty cells, so the search terminates.
    */
    method Solve(board: Board) returns (solved: bool)
      requires board.Valid() && Shaped(hidden.Counts(), board.size)
      modifies this, board, board.values, board.cands
      decreases |Zeros(board.Model())|, 2
      ensures solved ==> solvedSudoku != null && solvedSudoku.Valid() && solvedSudoku.size == board.size
      ensures solved ==> Zeros(solvedSudoku.Model()) == {} && Keeps(old(board.Model()), solvedSudoku.Model())
      ensures !solved ==> solvedSudoku == old(solvedSudoku)
      ensures Zeros(old(board.Model())) == {} ==> solved && solvedSudoku == board
      ensures Zeros(old(board.Model())) != {} && NoneEligible(old(board.Model()), board.size, 0) ==> !solved
      ensures Stuck(old(board.Model())) ==> !solved
      ensures Zeros(old(board.Model())) != {} ==>
        (!Settle(PrunedBoard(old(board.Model())), old(hidden.Counts()), old(wrongSituation)).1 ==> !solved)
    {
      ghost var g0 := board.Model();
      var done := IsSolved(board);
      if done {
        FullNotStuck(g0);
        solvedSudoku := board;
        return true;
      }
      var cellToCheck := MinCell(board);
      if cellToCheck.None? {
        return false;
      }
      var (row, col) := cellToCheck.value;
      ghost var gp := board.Model();
      ghost var w := wrongSituation;
      assert Zeros(gp) == Zeros(g0);
      if Stuck(g0) {
        StuckSettles(g0, hidden.Counts(), w, row, col);
      }
      SettleKeeps(gp, hidden.Counts(), w);
      var ok := PreSolve(board);
      if !ok {
        return false;
      }
      solved := TryCandidates(board, row, col, g0);
    }

    /**
      The end of `solve` once `preSolve` has returned true: the propagated
      board is copied to `copiedBoard`, then each entry of the list of cell
      (row, col) in turn is guessed on `board` (the propagated board itself
      the first time, a fresh copy of `copiedBoard` after each failure) and
      `solve` is called on the result. g0 is the board on entry to `solve`, in
      which (row, col) was empty. If some other empty cell has an empty list,
      no guess can succeed.
    */
    method TryCandidates(board: Board, row: nat, col: nat, ghost g0: Grid) returns (solved: bool)
      requires board.Valid()
      requires WellFormed(g0) && g0.n == board.size && row < g0.n && col < g0.n && g0.values[row][col] == 0
      requires Keeps(g0, board.Model()) && Zeros(board.Model()) <= Zeros(g0)
      requires Shaped(hidden.Counts(), board.size)
      modifies this, board, board.values, board.cands
      decreases |Zeros(g0)|, 1
      ensures solved ==> solvedSudoku != null && solvedSudoku.Valid() && solvedSudoku.size == board.size
      ensures solved ==> Zeros(solvedSudoku.Model()) == {} && Keeps(g0, solvedSudoku.Model())
      ensures !solved ==> solvedSudoku == old(solvedSudoku)
      ensures BlockedBesides(old(board.Model()), row, col) ==> !solved
    {
      var copiedBoard := CopyBoard(board);
      ghost var gc := copiedBoard.Model();
      var b := board;
      var i := 0;
      while i < |b.cands[row, col]|
        invariant b.Valid() && b.size == g0.n && b.Model() == gc
        invariant copiedBoard.Valid() && copiedBoard.Model() == gc
        invariant b == board || (fresh(b) && fresh(b.values) && fresh(b.cands))
        invariant b.values != copiedBoard.values && b.cands != copiedBoard.cands && b != copiedBoard
        invariant Shaped(hidden.Counts(), g0.n)
        invariant solvedSudoku == old(solvedSudoku)
        decreases |gc.cands[row][col]| - i
      {
        var result := Attempt(b, row, col, b.cands[row, col][i], g0);
        if result {
          return true;
        }
        b := CopyBoard(copiedBoard);
        i := i + 1;
      }
      return false;
    }

    /**
      One turn of `solve`'s loop: guess `number` for cell (row, col) of board
      and call `solve` on it. The guess fills a cell that was empty in g0, so
      the recursive call has fewer empty cells than g0 and what g0 had filled
      stays filled.
    */
    method Attempt(board: Board, row: nat, col: nat, number: int, ghost g0: Grid) returns (result: bool)
      requires board.Valid() && WellFormed(g0) && g0.n == board.size && row < g0.n && col < g0.n
      requires 1 <= number <= board.size && g0.values[row][col] == 0
      requires Keeps(g0, board.Model()) && Zeros(board.Model()) <= Zeros(g0)
      requires Shaped(hidden.Counts(), board.size)
      modifies this, board, board.values, board.cands
      decreases |Zeros(g0)|, 0
      ensures result ==> solvedSudoku != null && solvedSudoku.Valid() && solvedSudoku.size == board.size
      ensures result ==> Zeros(solvedSudoku.Model()) == {} && Keeps(g0, solvedSudoku.Model())
      ensures !result ==> solvedSudoku == old(solvedSudoku)
      ensures BlockedBesides(old(board.Model()), row, col) ==> !result
    {
      ghost var gc := board.Model();
      assert (row, col) in Zeros(g0);
      Guess(board, row, col, number);
      ghost var gb := board.Model();
      if BlockedBesides(gc, row, col) {
        GuessBlocked(gc, gb, row, col, RemoveFirst(gc.cands[row][col], number));
      }
      ZerosOneCell(gc, gb, row, col);
      KeepsOthers(g0, gc, gb, row, col);
      FewerZeros(Zeros(gb), Zeros(g0));
      result := Solve(board);
      if result {
        KeepsTrans(g0, gb, solvedSudoku.Model());
      }
    }
  }
}
