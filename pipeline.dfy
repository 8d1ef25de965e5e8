/**
  The end-to-end run of the engine, in the order `buildSudoku` in the test
  project calls it: parse the text, build the board, record its digits,
  zero the hidden-single counters, collect the candidates, then solve.
*/
module Pipeline {
  import opened Geometry
  import opened Grids
  import opened Codec
  import opened Candidates
  import opened Boards
  import opened Solvers
  import opened Parsing

  /** n×n empty candidate lists. */
  function EmptyLists(n: nat): (ls: seq<seq<seq<int>>>)
    ensures |ls| == n && forall a :: 0 <= a < n ==> |ls[a]| == n && forall b :: 0 <= b < n ==> ls[a][b] == []
  {
    seq(n, _ => seq(n, _ => []))
  }

  /** The side of the board an accepted text describes. */
  function Side(s: string): (n: nat)
    requires Acceptable(s)
    ensures n * n == |s|
  {
    ISqrt(|s|)
  }

  /**
    The board `new Board(matrix)` builds from an accepted text, with the
    occupancy tables `occ`: the text's digits and empty lists.
  */
  ghost function Parsed(s: string, occ: Tables): Grid
    requires Acceptable(s)
  {
    Grid(Side(s), Matrix(s, Side(s)), EmptyLists(Side(s)), occ)
  }

  /** The freshly constructed board: all tables still zero. */
  ghost function Puzzle(s: string): Grid
    requires Acceptable(s)
  {
    var n := Side(s);
    Parsed(s, Tables(ZeroTable(n), ZeroTable(n), ZeroTable(n)))
  }

  /** Two n×n tables with the same entries are the same table. */
  lemma SameTable<T>(x: seq<seq<T>>, y: seq<seq<T>>, n: nat)
    requires |x| == n && |y| == n
    requires forall a :: 0 <= a < n ==> |x[a]| == n && |y[a]| == n
    requires forall a, b :: 0 <= a < n && 0 <= b < n ==> x[a][b] == y[a][b]
    ensures x == y
  {
    forall a | 0 <= a < n
      ensures x[a] == y[a]
    {
      assert forall b :: 0 <= b < n ==> x[a][b] == y[a][b];
    }
  }

  /** Whether a digit repeats in a unit depends on the digits alone, not on the tables or lists. */
  lemma DuplicatesOfValues(g: Grid, h: Grid)
    requires WellFormed(g) && WellFormed(h) && g.n == h.n && g.values == h.values
    ensures NoDuplicates(g) <==> NoDuplicates(h)
  {
    forall a, b, c, d | 0 <= a < g.n && 0 <= b < g.n && 0 <= c < g.n && 0 <= d < g.n
      ensures Clash(g, a, b, c, d) == Clash(h, a, b, c, d)
    {
    }
  }

  /** An accepted text spells an n×n matrix of values in 0..n. */
  lemma MatrixShape(s: string)
    requires Acceptable(s)
    ensures IsMatrix(Matrix(s, Side(s)), Side(s))
  {
    var n := Side(s);
    var m := Matrix(s, n);
    forall i, j | 0 <= i < n && 0 <= j < n
      ensures 0 <= m[i][j] <= n
    {
      ChunksAt(s, n, n, i, j);
    }
  }

  /**
    The first steps of `buildSudoku`: the text is parsed and, when accepted,
    a board is built from the matrix. The result is null exactly when the text
    is rejected; otherwise the board holds the text's digits, empty lists and
    zero occupancy tables.
  */
  method Build(io: InputOutput, input: string) returns (board: Board?)
    requires IsPerfectSquare(|input|) ==> Square(ISqrt(|input|))
    modifies io
    ensures board == null <==> !Acceptable(input)
    ensures board != null ==>
      && fresh(board) && fresh(board.values) && fresh(board.cands)
      && board.Valid() && board.Model() == Puzzle(input)
  {
    io.input := input;
    var matrix := io.StringToMatrix();
    if matrix == null {
      return null;
    }
    var n := io.size;
    MatrixShape(input);
    board := new Board(matrix);
    SameTable(board.vals, Matrix(input, n), n);
    SameTable(board.lists, EmptyLists(n), n);
  }

  /**
    The candidate step of `buildSudoku`, on a board whose digits are
    recorded and whose lists are empty: the hidden counters are zeroed, then every empty
    cell collects its candidates. Each empty cell's list becomes the
    ascending list of digits safe for it, filled cells keep their empty
    lists, and each hidden counter counts the empty cells of its unit for
    which its digit is safe.
  */
  method CollectCandidates(solver: Solver, board: Board)
    requires board.Valid() && board.lists == EmptyLists(board.size)
    modifies board, board.cands, solver.hidden
    ensures board.Valid() && board.vals == old(board.vals) && board.Model().occ == old(board.Model().occ)
    ensures forall a, b :: 0 <= a < board.size && 0 <= b < board.size ==>
      board.lists[a][b] == (if board.vals[a][b] == 0 then SafeList(board.Model().occ, board.size, a, b) else [])
    ensures
      var g := old(board.Model());
      && Shaped(solver.hidden.Counts(), board.size)
      && forall u, d :: 0 <= u < board.size && 0 <= d < board.size ==>
           && solver.hidden.Counts().rows[u][d] == |Hits(g, RowUnit, u, d, g.n, 0)|
           && solver.hidden.Counts().cols[u][d] == |Hits(g, ColUnit, u, d, g.n, 0)|
           && solver.hidden.Counts().boxes[u][d] == |Hits(g, BoxUnit, u, d, g.n, 0)|
  {
    ghost var g := board.Model();
    solver.InitHiddenSinglesDictionary(board);
    board.UnsolvedCells(solver.hidden);
    VisitedAll(g, Collect);
    AccountsCountHits(solver.hidden.Counts(), g);
  }

  /**
    `buildSudoku` up to the search: parse, build, record the digits, zero
    the hidden counters and collect the candidates. The result is null exactly
    when the text is rejected or some digit repeats in a unit. Otherwise the
    board holds the text's digits and exact occupancy tables, its lists and
    hidden counters are as `CollectCandidates` leaves them.
  */
  method Setup(io: InputOutput, solver: Solver, input: string) returns (board: Board?)
    requires IsPerfectSquare(|input|) ==> Square(ISqrt(|input|))
    modifies io, solver.hidden
    ensures board == null <==> !Acceptable(input) || !NoDuplicates(Puzzle(input))
    ensures board != null ==>
      && fresh(board) && fresh(board.values) && fresh(board.cands)
      && board.Valid() && board.size == Side(input) && board.vals == Matrix(input, board.size)
      && Consistent(board.Model())
    ensures board != null ==>
      forall a, b :: 0 <= a < board.size && 0 <= b < board.size ==>
        board.lists[a][b] == (if board.vals[a][b] == 0 then SafeList(board.Model().occ, board.size, a, b) else [])
    ensures board != null ==>
      var g := Parsed(input, board.Model().occ);
      && Shaped(solver.hidden.Counts(), board.size)
      && forall u, d :: 0 <= u < board.size && 0 <= d < board.size ==>
           && solver.hidden.Counts().rows[u][d] == |Hits(g, RowUnit, u, d, g.n, 0)|
           && solver.hidden.Counts().cols[u][d] == |Hits(g, ColUnit, u, d, g.n, 0)|
           && solver.hidden.Counts().boxes[u][d] == |Hits(g, BoxUnit, u, d, g.n, 0)|
  {
    board := Build(io, input);
    if board == null {
      return null;
    }
    ghost var p := board.Model();
    var ok := board.AddValuesToDictionaries();
    DuplicatesOfValues(board.Model(), p);
    if !ok {
      return null;
    }
    ghost var g := board.Model();
    assert g == Parsed(input, g.occ);
    CollectCandidates(solver, board);
  }

  /**
    `buildSudoku`: true only for an accepted text without a repeated digit,
    and then the solver's `solvedSudoku` is a full board of the same side
    that keeps every digit of the text.
  */
  method BuildSudoku(io: InputOutput, solver: Solver, input: string) returns (solved: bool)
    requires IsPerfectSquare(|input|) ==> Square(ISqrt(|input|))
    modifies io, solver, solver.hidden
    ensures !Acceptable(input) ==> !solved
    ensures Acceptable(input) && !NoDuplicates(Puzzle(input)) ==> !solved
    ensures Acceptable(input) && NoDuplicates(Puzzle(input)) && Zeros(Puzzle(input)) == {} ==> solved
    ensures solved ==>
      && Acceptable(input) && solver.solvedSudoku != null && solver.solvedSudoku.Valid()
      && solver.solvedSudoku.size == Side(input)
      && Zeros(solver.solvedSudoku.Model()) == {}
      && Keeps(Puzzle(input), solver.solvedSudoku.Model())
  {
    var board := Setup(io, solver, input);
    if board == null {
      return false;
    }
    ghost var g := board.Model();
    assert g.values == Puzzle(input).values;
    solved := solver.Solve(board);
  }

  /**
    Printing back a parsed board: `new Board(matrix).ToString()` is the text
    the matrix was read from.
  */
  method Reprint(io: InputOutput, input: string) returns (text: string)
    requires IsPerfectSquare(|input|) ==> Square(ISqrt(|input|))
    modifies io
    ensures Acceptable(input) ==> text == input
    ensures !Acceptable(input) ==> text == ""
  {
    io.input := input;
    var matrix := io.StringToMatrix();
    if matrix == null {
      return "";
    }
    MatrixShape(input);
    var board := new Board(matrix);
    SameTable(board.vals, Matrix(input, io.size), io.size);
    EncodeMatrix(input);
    text := board.ToString();
  }
}
