# Sudoku solver — a Dafny model

This project models the core of a C# Sudoku solver for N×N boards, where N is
a perfect square (4, 9, 16, 25, …). A puzzle is a flat text of N·N
characters. Each character is `'0' + value`: '0' is an empty cell, and '1' up
to `'0' + N` are digits, so 10..16 are written ':'..'@'.

The engine works in these steps:

- **Parsing.** `InputOutput` checks that the text's length is a perfect
  square and that every character is in range, then reads the text into a
  matrix.
- **Setup.** `Board` builds the cells and keeps three occupancy tables. For
  each row, column and box, a table counts how often each digit appears.
  The board records the given digits and rejects a repeated one. Each empty
  cell then collects its list of candidates, which are the digits still safe
  for it. While it does so, it fills the solver's three hidden-single tables.
  These count, per unit and digit, the empty cells that can take the digit.
- **Solving.** `Solver.solve` repeats the naked-single and hidden-single
  sweeps until neither makes progress. It prunes every empty cell's list and
  picks the first cell with the fewest candidates. It then tries each of
  that cell's candidates in turn on the live board, backtracking from a copy.
- **Driver.** `buildSudoku` in the test project wires these steps together.

## How the model is built

- **Static state.** The static classes become objects.
  - `Parsing.InputOutput` holds `input`, `board` and `size`.
  - `Solvers.Solver` holds `wrongSituation` and `solvedSudoku`, and owns a
    `Boards.HiddenCounters` with the three hidden-single tables.
- **The board.** `Boards.Board` is a class.
  - The `Cell` matrix becomes two 2-D arrays: cell values and candidate
    lists.
  - The three dictionaries of `int[]` become sequence fields, which the
    methods reassign.
  - The board reads the arrays through ghost mirrors. `Model()` maps the
    whole board to a `Grids.Grid` value.
- **Specification functions.** Every loop of the engine is a method, proved
  against a pure function on that value:
  - `Propagation.NakedSweep` and `Propagation.HiddenSweep` for the two
    sweeps;
  - `Solvers.RoundOf` and `Solvers.Settle` for one evaluation of
    `preSolve`'s loop condition and for the whole of `preSolve`;
  - `Solvers.PrunedBoard` for the board `minCell` leaves;
  - `Candidates.Visited` for the passes over all cells (collecting and
    pruning candidates);
  - `Candidates.Filter` for the list pruning;
  - `Candidates.SafeList` and `Candidates.Credit` for `findPossibleNumbers`;
  - `Codec.Matrix` and `Codec.Encode` for reading and writing the text.

  The properties of the solver are then proved about these functions.
- **Square root.** `Math.Sqrt` followed by a cast to `int` is
  `Geometry.ISqrt`, the integer square root.

## Model

| member | source | states |
|---|---|---|
| Geometry.ISqrt | SudokuSolver/InputOutput.cs:63 | the root taken by the cast is the unique k with k² ≤ n < (k+1)² |
| Geometry.FindBoxIsBlock | SudokuSolver/Cell.cs:85-92 | on an N = k² board, `findBox`'s arithmetic gives box (row / k)·k + col / k |
| Geometry.SameBoxIff | SudokuSolver/Cell.cs:85-92 | two cells share a box exactly when their rows agree after dividing by k and their columns agree after dividing by k |
| Geometry.BlockOfBox | SudokuSolver/Cell.cs:85-92 | a box number, divided by k and taken modulo k, recovers the cell's block row and block column |
| Geometry.BoxNumbering | SudokuSolver/Cell.cs:85-92 | every cell of block (br, bc) lies on the board and is given box br·k + bc, so the boxes are numbered 0..N-1 row by row |
| Geometry.PerfectSquareIff | SudokuSolver/InputOutput.cs:27-30 | the root, squared, gives back n exactly when n is the square of some natural number |
| Geometry.ISqrtOfSquare | SudokuSolver/InputOutput.cs:63 | the side read from a k²-character text is k |
| Codec.IsPerfectSquare | SudokuSolver/InputOutput.cs:27-30 | `isPerferctSquare` holds exactly when the length is k·k for some natural k |
| Codec.CharOf | SudokuSolver/Board.cs:229 | the character written for a value decodes back to that value |
| Codec.ChunksAt | SudokuSolver/InputOutput.cs:44-51 | matrix cell (i, j) is the digit at text offset i·N + j |
| Codec.MatrixAt | SudokuSolver/InputOutput.cs:44-51 | text offset k is matrix cell (k / N, k % N), and that cell holds the offset's digit |
| Codec.EncodeAt | SudokuSolver/Board.cs:223-234 | `ToString` writes R·N characters for R rows of N values, and the one at offset i·N + j is the character of cell (i, j) |
| Codec.EncodeLength | SudokuSolver/Board.cs:223-234 | the text of R rows of N values has R·N characters |
| Codec.DecodeEncode | SudokuSolver/Board.cs:223-234 | reading back what `ToString` wrote gives the matrix again, and every written character is in range for `isValidBoard` |
| Codec.EncodeChunks | SudokuSolver/InputOutput.cs:44-51 | writing back the matrix read from a text of in-range characters gives that text |
| Codec.EncodeMatrix | SudokuSolver/InputOutput.cs:38-69 | round trip: for every accepted text, writing back the matrix it was read into gives the same text |
| Parsing.FillRow | SudokuSolver/InputOutput.cs:46-51 | the inner loop either meets a character out of range, or leaves row i holding row i of the matrix the text spells |
| Parsing.FilledAll | SudokuSolver/InputOutput.cs:44-53 | a matrix filled from the whole text shows that every character is in range |
| Parsing.InputOutput.IsValidBoard | SudokuSolver/InputOutput.cs:38-54 | "Invalid size of board." exactly when the length, counted in characters, is not a perfect square, and the board is then left alone; "Invalid characters." exactly when the length is square but some character is out of range; "true" exactly when the text is acceptable, and then the board is its matrix |
| Parsing.InputOutput.StringToMatrix | SudokuSolver/InputOutput.cs:61-69 | sets `size` to ⌊√length⌋; the result is non-null exactly when the text is acceptable, and it is then the matrix the text spells |
| Parsing.ISqrtBetween | SudokuSolver/InputOutput.cs:63 | the root is the only k whose square and next square bracket n |
| Parsing.RejectsOddLength | SudokuSolverTests/SudokuSolverTest.cs:73-76 | the 21-character test board fails the length check |
| Parsing.RejectsLetters | SudokuSolverTests/SudokuSolverTest.cs:60-63 | the 16-character test board with letters passes the length check but not the character check |
| Grids.ZeroTable | SudokuSolver/Board.cs:60-70 | N zero counters under each of the keys 0..N-1 |
| Grids.SafeSet | SudokuSolver/Solver.cs:42-45 | the digits 1..N that `isSafe` allows in a cell |
| Grids.PlaceKeepsRecorded | SudokuSolver/Solver.cs:104-105 | after a write followed by `updateSafeDictionaries`, every placed digit is still counted in its three units |
| Grids.ZerosAfterPlace | SudokuSolver/Solver.cs:104-105 | a write removes exactly its own cell from the empty cells |
| Grids.ZerosShrink | SudokuSolver/Solver.cs:248-278 | a board that keeps every filled cell of another has no new empty cells |
| Grids.KeepsTrans | SudokuSolver/Solver.cs:248-278 | keeping the filled cells composes across steps |
| Grids.SafeIsSound | SudokuSolver/Solver.cs:42-45 | on recorded tables, a digit `isSafe` allows appears nowhere in the cell's row, column or box |
| Grids.ConsistentIsRecorded | SudokuSolver/Board.cs:77-96 | exact occupancy tables count every placed digit |
| Grids.SafePlaceKeepsGuarded | SudokuSolver/Solver.cs:100-106 | writing a safe digit into a board without repeats, and counting it, leaves the board without repeats and with every digit counted |
| Occupancy.ScanStart | SudokuSolver/Board.cs:77-80 | zero tables are exact for the empty prefix of the scan |
| Occupancy.ScanEmpty | SudokuSolver/Board.cs:84 | an empty cell leaves the scan's tables exact |
| Occupancy.ScanRepeat | SudokuSolver/Board.cs:87-88 | a digit already counted in its row, column or box is a repeat, so the board has a duplicate |
| Occupancy.ScanCountsNew | SudokuSolver/Board.cs:89-91 | counting a new digit keeps the tables exact for the scanned prefix |
| Occupancy.ScanDistinctNew | SudokuSolver/Board.cs:87-91 | a digit whose counters are all zero does not repeat in the scanned prefix |
| Occupancy.CountsAreBinary | SudokuSolver/Board.cs:77-96 | exact tables hold only 0 and 1 |
| Occupancy.ScanEnd | SudokuSolver/Board.cs:77-96 | a completed scan leaves exact tables and a board without repeated digits |
| Candidates.RemoveFirstMultiset | SudokuSolver/Solver.cs:189 | `List.Remove` takes out exactly one occurrence of the number and nothing else |
| Candidates.RemoveFirstSubseq | SudokuSolver/Solver.cs:189 | what remains after `List.Remove` keeps the rest of the list in order |
| Candidates.FilterFromDeletes | SudokuSolver/Solver.cs:184-191 | pruning only deletes: the result is an ordered sublist of the list, and it loses no occurrence of a safe digit |
| Candidates.FilterFromKeepsAll | SudokuSolver/Solver.cs:184-191 | when every number is safe, pruning changes nothing |
| Candidates.FilterSkipsSurvivor | SudokuSolver/Solver.cs:186-189 | the index still advances after a removal, so the number moved into the freed slot is not checked: pruning [1, 2] with nothing safe leaves [2] |
| Candidates.SafeUpToSpec | SudokuSolver/Cell.cs:103-112 | the gathered list is strictly ascending and holds exactly the digits in 1..m that are safe for the cell |
| Candidates.CreditAdds | SudokuSolver/Cell.cs:107-109 | each listed digit adds one to its counter in the cell's row, column and box, and no other counter changes |
| Candidates.TallyCountsHits | SudokuSolver/Board.cs:103-113 | the running count equals the number of empty cells, so far in the pass, of the unit for which the digit is safe |
| Candidates.HitIffListed | SudokuSolver/Cell.cs:103-112 | a cell counts for (unit, digit) exactly when it is empty, lies in the unit and lists the digit |
| Candidates.AccountsStep | SudokuSolver/Board.cs:107-111 | one more cell of `unsolvedCells` keeps the hidden-single tables equal to their start plus the hits of the visited cells |
| Candidates.AccountsCountHits | SudokuSolver/Board.cs:103-113 | after a whole pass from zero tables, each hidden-single counter is the number of empty cells of its unit for which its digit is safe |
| Candidates.VisitedStep | SudokuSolver/Board.cs:105-111 | visiting one more cell changes that cell's list and no other |
| Candidates.VisitedAll | SudokuSolver/Solver.cs:202-215 | after a whole pass, every empty cell holds the list the pass derives from its old list and the tables, and every filled cell keeps its list |
| Propagation.PlaceAdvances | SudokuSolver/Solver.cs:102-105 | one write of a candidate keeps every filled cell, removes one empty cell and sets the flag |
| Propagation.NakedAtAdvances | SudokuSolver/Solver.cs:97-109 | a cell's turn keeps filled cells, writes only a listed digit, sets the flag exactly when it writes, and never clears a clash |
| Propagation.NakedSweepAdvances | SudokuSolver/Solver.cs:92-112 | the whole naked sweep keeps every filled cell and writes only listed digits; it reports a change exactly when the set of empty cells shrank |
| Propagation.NakedAtGuarded | SudokuSolver/Solver.cs:97-109 | a cell's turn keeps a board without repeats, with every digit counted |
| Propagation.NakedSweepGuarded | SudokuSolver/Solver.cs:92-112 | a naked sweep over a board without repeats leaves a board without repeats, since it only writes safe digits |
| Propagation.HiddenCellOthers | SudokuSolver/Solver.cs:127-143 | a cell's turn in `hiddenSingle` changes no other cell |
| Propagation.HiddenCellFacts | SudokuSolver/Solver.cs:127-143 | after an empty cell's turn, the cell is either still empty and nothing changed, or it holds one of its own candidates and the flag is set; a clash once seen stays seen |
| Propagation.ZerosOneCell | SudokuSolver/Solver.cs:127-143 | filling one cell and changing nothing else removes exactly that cell from the empty cells |
| Propagation.HiddenAtAdvances | SudokuSolver/Solver.cs:127-143 | a cell's turn keeps filled cells, writes only a listed digit, sets the flag exactly when it writes, and never clears a clash |
| Propagation.HiddenSweepAdvances | SudokuSolver/Solver.cs:121-146 | the whole hidden sweep keeps every filled cell and writes only listed digits; it reports a change exactly when the set of empty cells shrank |
| Propagation.HiddenOneGuarded | SudokuSolver/Solver.cs:132-142 | one number's check keeps a board without repeats, with every digit counted |
| Propagation.HiddenSweepGuarded | SudokuSolver/Solver.cs:121-146 | a hidden sweep over a board without repeats leaves a board without repeats |
| Boards.HiddenCounters.constructor | SudokuSolver/Solver.cs:18-20 | the three hidden-single dictionaries start empty |
| Boards.HiddenCounters.Increment | SudokuSolver/Cell.cs:107-109 | adds one to the digit's counter in the cell's row, column and box |
| Boards.SafeStep | SudokuSolver/Cell.cs:103-112 | one more number of `findPossibleNumbers` is appended and credited exactly when it is safe |
| Boards.CopyCandidates | SudokuSolver/Cell.cs:41-44 | the copy constructor's list holds the same numbers in the same order |
| Boards.CopyValues | SudokuSolver/Board.cs:38-44 | a fresh N×N array holding the matrix's entries cell for cell |
| Boards.Board.constructor | SudokuSolver/Board.cs:34-46 | the board holds the matrix's values, every list is empty, and all three occupancy tables are zero |
| Boards.Board.Sized | SudokuSolver/Solver.cs:227-229 | a blank board of the given size: zero values, empty lists, zero tables |
| Boards.Board.InitDictionaries | SudokuSolver/Board.cs:60-70 | each table gets N zero counters under the keys 0..N-1; cells are untouched |
| Boards.Board.IsSafe | SudokuSolver/Solver.cs:42-45 | the answer is whether the digit has a zero count in the cell's row, column and box |
| Boards.Board.SetValue | SudokuSolver/Cell.cs:74-78 | the `Value` setter writes one cell and nothing else |
| Boards.Board.SetCandidates | SudokuSolver/Cell.cs:17 | replaces one cell's list and nothing else |
| Boards.Board.CopyCell | SudokuSolver/Solver.cs:234 | one cell of the new board gets the value and list of the copied cell |
| Boards.Board.SetUnit | SudokuSolver/Solver.cs:236-238 | replaces row u, column u and box u of the tables and nothing else |
| Boards.Board.CountDigit | SudokuSolver/Board.cs:89-91 | adds one to the digit's count in the cell's row, column and box |
| Boards.Board.PlaceDigit | SudokuSolver/Solver.cs:104-105 | the board becomes `Place` of the old board: the digit is written and counted |
| Boards.Board.AddValuesToDictionaries | SudokuSolver/Board.cs:77-96 | true exactly when no digit repeats in a row, column or box, and then the tables are exact; the values and lists are unchanged |
| Boards.Board.CollectSafe | SudokuSolver/Cell.cs:103-112 | returns the ascending list of the cell's safe digits and credits exactly those to the hidden-single tables |
| Boards.Board.FindPossibleNumbers | SudokuSolver/Cell.cs:100-113 | appends the cell's safe digits to its list and credits them to the hidden-single tables; nothing else changes |
| Boards.Board.UnsolvedRow | SudokuSolver/Board.cs:107-111 | one row of `unsolvedCells` advances the pass and its count of hits by one row |
| Boards.Board.UnsolvedCells | SudokuSolver/Board.cs:103-113 | every empty cell's list gains its safe digits, filled cells keep theirs, and the hidden-single tables gain exactly the hits of the pass |
| Boards.Board.ToString | SudokuSolver/Board.cs:223-234 | the text is the board's values written row by row, one character each |
| Solvers.FirstMinUnique | SudokuSolver/Solver.cs:198-218 | at most one cell is the first, in row-major order, with the fewest non-zero pruned candidates |
| Solvers.FirstMinStays | SudokuSolver/Solver.cs:209 | a cell with no fewer candidates than the current best does not replace it |
| Solvers.FirstMinMoves | SudokuSolver/Solver.cs:209-213 | a cell with strictly fewer candidates than every earlier one becomes the best |
| Solvers.MinRowEnd | SudokuSolver/Solver.cs:202-216 | the best so far carries over from the end of one row to the start of the next |
| Solvers.Solver.constructor | SudokuSolver/Solver.cs:16-20 | `wrongSituation` starts true, there is no solved board yet, and the hidden-single tables are empty |
| Solvers.Solver.IsSolved | SudokuSolver/Solver.cs:52-63 | true exactly when no cell is empty |
| Solvers.Solver.InitHiddenSinglesDictionary | SudokuSolver/Solver.cs:70-83 | the hidden-single tables become N zero counters under each key 0..N-1 |
| Solvers.Solver.NakedCell | SudokuSolver/Solver.cs:97-109 | one cell of `nakedSingle` does what `NakedAt` says; `wrongSituation` becomes false at the first clash |
| Solvers.Solver.NakedRowPass | SudokuSolver/Solver.cs:95-110 | one row of `nakedSingle` does what `NakedRow` says |
| Solvers.Solver.NakedSingle | SudokuSolver/Solver.cs:92-112 | the board becomes the naked sweep of the old board, the result is the sweep's change flag, and `wrongSituation` is cleared exactly when the sweep met an unsafe single |
| Solvers.Solver.HiddenStep | SudokuSolver/Solver.cs:132-142 | one number of a cell's list in `hiddenSingle` does what `HiddenOne` says |
| Solvers.Solver.HiddenCellPass | SudokuSolver/Solver.cs:127-143 | one cell of `hiddenSingle` does what `HiddenAt` says |
| Solvers.Solver.HiddenRowPass | SudokuSolver/Solver.cs:125-144 | one row of `hiddenSingle` does what `HiddenRow` says |
| Solvers.Solver.HiddenSingle | SudokuSolver/Solver.cs:121-146 | the board becomes the hidden sweep of the old board with the current tables, the result is the sweep's change flag, and `wrongSituation` is cleared exactly when it met an unsafe candidate |
| Solvers.Solver.Round | SudokuSolver/Solver.cs:156 | the loop condition's short-circuit or: board, answer and flag become those of `RoundOf`, so the hidden sweep runs only when the naked one changed nothing; it makes progress exactly when the empty cells shrink, keeps every filled cell, and keeps a board without repeats |
| Solvers.Solver.PreSolve | SudokuSolver/Solver.cs:154-165 | board, answer and `wrongSituation` become exactly those of `Settle` on the old board, counters and flag, whose guarantees `SettleSpec` states |
| Solvers.Solver.PruneList | SudokuSolver/Solver.cs:186-190 | the loop leaves exactly `Filter` of the list with the cell's safe digits |
| Solvers.Solver.UpdateCellPossibilities | SudokuSolver/Solver.cs:184-191 | the cell's list becomes its pruned list and nothing else changes |
| Solvers.Solver.MinStep | SudokuSolver/Solver.cs:206-214 | one cell of `minCell` prunes that cell's list and keeps the best cell so far |
| Solvers.Solver.MinRow | SudokuSolver/Solver.cs:204-215 | one row of `minCell` |
| Solvers.Solver.MinCell | SudokuSolver/Solver.cs:198-218 | every empty cell's list is pruned; the result is the first empty cell with the fewest non-zero pruned candidates, or null when every empty cell's pruned list is empty |
| Solvers.Solver.CopyRow | SudokuSolver/Solver.cs:232-238 | one row of the new board copies the old row's values and lists |
| Solvers.Solver.CopyBoard | SudokuSolver/Solver.cs:225-241 | a fresh board, not aliased with the original, equal to it as a value |
| Solvers.Solver.Guess | SudokuSolver/Solver.cs:268-271 | the cell takes the number, its list loses one occurrence of the number, and the number is counted in the cell's units |
| Solvers.Solver.Solve | SudokuSolver/Solver.cs:248-278 | a full board is solved as itself; not solved when no empty cell is eligible, when some empty cell's pruned list is empty (`Stuck`), or when `preSolve` on the pruned board answers false (by `Settle`); on success `solvedSudoku` is a full board of the same size that keeps every digit of the input |
| Solvers.Solver.TryCandidates | SudokuSolver/Solver.cs:265-277 | the copy and the loop over the chosen cell's candidates, restoring from the copy after each failure; on success the solution keeps the original digits; when another empty cell has an empty list, it fails |
| Solvers.Solver.Attempt | SudokuSolver/Solver.cs:268-272 | one guess followed by the recursive solve; when another empty cell has an empty list, it fails |
| Solvers.PrunedShape | SudokuSolver/Solver.cs:198-218 | pruning every empty cell's list keeps the board's shape: each list still holds digits 1..N |
| Solvers.RoundOfSpec | SudokuSolver/Solver.cs:156 | one evaluation of the loop condition keeps filled cells, fills only with digits from the cells' own lists, reports progress exactly when the empty cells shrink, changes nothing without progress, and keeps a board without repeats |
| Solvers.DrawnTrans | SudokuSolver/Solver.cs:154-165 | digits drawn from the lists over two rounds are drawn from the first round's lists, which no round changes |
| Solvers.SettleSpec | SudokuSolver/Solver.cs:154-165 | `preSolve` keeps filled cells, fills only with listed digits, keeps a board without repeats; on true neither tactic can change the board, and the flag is true exactly when the final sweeps met no unsafe digit and either it was true on entry or a cell was filled; on false some cell was filled and the flag is true again |
| Solvers.SettleKeeps | SudokuSolver/Solver.cs:154-165 | `preSolve` keeps filled cells and never adds an empty cell |
| Solvers.SettleQuiet | SudokuSolver/Solver.cs:156-164 | a first round that fills nothing ends `preSolve` with true and the board unchanged |
| Solvers.SettleOn | SudokuSolver/Solver.cs:156-162 | a round that fills a cell and leaves the flag true is followed by the next round |
| Solvers.RoundKeepsFalse | SudokuSolver/Solver.cs:156 | no round sets `wrongSituation` back to true |
| Solvers.SettleReset | SudokuSolver/Solver.cs:158-161 | entered with `wrongSituation` false, `preSolve` answers false and resets the flag at the first round that fills a cell |
| Solvers.StaleFlag | SudokuSolver/Solver.cs:154-165 | a final round that fills nothing but meets an unsafe digit returns true with `wrongSituation` left false, and a later `preSolve` then answers false at its first filling round |
| Solvers.FullNotStuck | SudokuSolver/Solver.cs:250-254 | a full board has no stuck cell |
| Solvers.StuckBlocks | SudokuSolver/Solver.cs:198-218 | `minCell` never picks a stuck cell, and pruning leaves that cell with an empty list |
| Solvers.SettleBlocked | SudokuSolver/Solver.cs:154-165 | propagation never fills a cell whose list is empty |
| Solvers.StuckSettles | SudokuSolver/Solver.cs:256-262 | on a stuck board, after `minCell` and `preSolve` some cell other than the picked one is empty with an empty list |
| Solvers.GuessBlocked | SudokuSolver/Solver.cs:268-271 | a guess at the picked cell leaves a blocked cell elsewhere blocked, so the next `solve` meets a stuck board |
| Pipeline.Side | SudokuSolver/InputOutput.cs:63 | the side of an accepted text is its exact square root |
| Pipeline.EmptyLists | SudokuSolver/Cell.cs:17 | N×N empty candidate lists |
| Pipeline.DuplicatesOfValues | SudokuSolver/Board.cs:87-88 | whether a digit repeats depends on the values alone |
| Pipeline.MatrixShape | SudokuSolver/InputOutput.cs:44-51 | an accepted text spells an N×N matrix of values in 0..N |
| Pipeline.Build | SudokuSolverTests/SudokuSolverTest.cs:13-16 | null exactly when the text is rejected; otherwise a fresh board with the text's digits, empty lists and zero tables |
| Pipeline.CollectCandidates | SudokuSolverTests/SudokuSolverTest.cs:19-20 | every empty cell lists its safe digits in ascending order, and each hidden-single counter counts the empty cells of its unit that can take its digit |
| Pipeline.Setup | SudokuSolverTests/SudokuSolverTest.cs:13-20 | null exactly when the text is rejected or a digit repeats; otherwise the board holds the text's digits, exact tables, the safe lists and the hidden-single counts |
| Pipeline.BuildSudoku | SudokuSolverTests/SudokuSolverTest.cs:11-22 | false for a rejected text and for a repeated digit; true for an acceptable full board without repeats; on true the solution has the input's side, no empty cell, and every digit of the input |
| Pipeline.Reprint | SudokuSolver/Board.cs:223-234 | printing the board built from an accepted text gives the text back; a rejected text builds no board |

## Left out

- `Play.cs` is not part of this model: the console menu and the file front end, and with them `InputOutput.path`.
- `Board.printBoard` and `Board.expandLine` are not modelled. They only format the grid for the console.
- The `Console.WriteLine` in `stringToMatrix` is not modelled, because it is output only.
- The test methods are not modelled as tests, because the MSTest framework and its assertions sit outside the engine. Their boards are covered in two ways. The rejected texts are covered by `Parsing.RejectsOddLength` and `Parsing.RejectsLetters`. The full boards are covered by the third ensures of `Pipeline.BuildSudoku`.
- Pipeline.Build, Pipeline.Setup, Pipeline.BuildSudoku and Pipeline.Reprint require that a text of square length has a side that is itself a perfect square. `isValidBoard` accepts a 36-character text (side 6). On such a board, `findBox` in the source numbers boxes beyond N-1 and indexes the dictionaries with missing keys.
- Boards.Board.constructor and Boards.Board.Sized require a square side for the same reason.
- `Math.Sqrt` on a double is modelled as the exact integer square root. Doubles are exact for every length a string can have, so the two agree.
- Boards.Board.ToString requires every value plus '0' to be a Unicode scalar value. C# `char` is a UTF-16 unit, and Dafny's `char` excludes the surrogate range. This matters only for sides above 55 000.
- Values and candidate lists are held as sequences and copied by value, so no `List<int>` is shared between cells or boards. In the source, `solve` reassigns its local `board` after a failed guess, which leaves the caller's board changed. The model keeps that: `TryCandidates` works on a fresh copy after each failure. Aliasing through shared lists does not arise in the source either, because the copy constructor clones each list.
- Parsing.InputOutput.IsValidBoard counts the text in Unicode scalar values, while C# `input.Length` counts UTF-16 code units. The two differ on characters outside the Basic Multilingual Plane: 80 '0' characters followed by U+1F600 have C# length 82, so the source answers "Invalid size of board.", while the model sees 81 characters and answers "Invalid characters.".
- Parsing.InputOutput.IsValidBoard does not say what the partly filled `board` holds after "Invalid characters.". It says only that the board is fresh and of the right size.
- Solvers.Solver.PreSolve: `wrongSituation` is reset only on the false path. A final round that fills nothing but meets an unsafe digit returns true and leaves the flag false, and the next `preSolve` then answers false at its first round that fills a cell, whatever that round meets (`Solvers.StaleFlag`). The model keeps this behaviour.
- Solvers.Solver.Solve does not claim that the solution is a valid Sudoku. It claims only that no cell is empty and that every original digit is kept. Every propagation write goes through `isSafe`, and `Propagation.NakedSweepGuarded`, `Propagation.HiddenSweepGuarded` and `Grids.SafePlaceKeepsGuarded` show the sweeps keep a board without repeats. Guesses are not drawn from safe digits alone, because the lists are pruned only against the tables at the time of `minCell`.
- Static fields are fields of an object passed to the methods, and there is one `Solver` object per run. `copyBoard`'s `new Board()` followed by field assignments is the constructor `Boards.Board.Sized`.
- Integers are unbounded. The source uses 32-bit `int`, but its counters stay within a small multiple of N (a guess is written without `isSafe`, so an occupancy counter can pass 1, yet each cell adds at most twice to a counter along one search path) and its offsets never exceed N², so the difference does not arise for boards that fit in memory.
