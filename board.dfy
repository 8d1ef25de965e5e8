/**
  `Board` and `Cell`: the cell matrix, the three occupancy tables, and the
  set-up passes that fill them. A `Cell` is flattened into the board: its
  `Value` is `values[i, j]`, its `possibleNumbersList` is `cands[i, j]`, and its
  `Row`/`Col` are the indices (i, j). The tables are dictionaries from unit
  0..size-1 to a counter per digit; they are sequences that the methods
  reassign. The ghost fields `vals` and `lists` mirror the two arrays so that
  `Model()` can describe the board as a `Grids.Grid` value.
*/
module Boards {
  import opened Geometry
  import opened Grids
  import opened Candidates
  import opened Occupancy
  import Codec

  /**
    `Solver.rowsHiddenSingles`, `columnsHiddenSingles` and `boxesHiddenSingles`:
    per unit and digit, how many empty cells listed the digit when the
    candidate lists were first computed.
  */
  class HiddenCounters {
    var rows: seq<seq<int>>
    var cols: seq<seq<int>>
    var boxes: seq<seq<int>>

    function Counts(): Tables
      reads this
    {
      Tables(rows, cols, boxes)
    }

    /** The static initialisers: three empty dictionaries. */
    constructor ()
      ensures rows == [] && cols == [] && boxes == []
    {
      rows, cols, boxes := [], [], [];
    }

    /**
      `rowsHiddenSingles[r][v-1]++`, `columnsHiddenSingles[c][v-1]++` and
      `boxesHiddenSingles[findBox(r, c)][v-1]++` on a size-n board.
    */
    method Increment(n: nat, r: nat, c: nat, v: int)
      requires Shaped(Counts(), n) && Square(n) && r < n && c < n && 1 <= v <= n
      modifies this
      ensures Counts() == Record(old(Counts()), n, r, c, v)
    {
      var boxNumber := FindBox(n, r, c);
      rows := rows[r := rows[r][v - 1 := rows[r][v - 1] + 1]];
      cols := cols[c := cols[c][v - 1 := cols[c][v - 1] + 1]];
      boxes := boxes[boxNumber := boxes[boxNumber][v - 1 := boxes[boxNumber][v - 1] + 1]];
    }
  }

  /** One more digit considered by `findPossibleNumbers`: appended and credited exactly when it is safe. */
  lemma SafeStep(t: Tables, h: Tables, n: nat, r: nat, c: nat, m: nat)
    requires Shaped(t, n) && Shaped(h, n) && Square(n) && r < n && c < n && 1 <= m <= n
    ensures var p := SafeUpTo(t, n, r, c, m - 1);
      && SafeUpTo(t, n, r, c, m) == (if Safe(t, n, r, c, m) then p + [m] else p)
      && Credit(h, n, r, c, SafeUpTo(t, n, r, c, m)) ==
           if Safe(t, n, r, c, m) then Record(Credit(h, n, r, c, p), n, r, c, m) else Credit(h, n, r, c, p)
  {
    var p := SafeUpTo(t, n, r, c, m - 1);
    assert (p + [m])[..|p|] == p;
  }

  /** The Cell copy constructor's loop: a new list holding the same numbers in the same order. */
  method CopyCandidates(l: seq<int>) returns (copy: seq<int>)
    ensures copy == l
  {
    copy := [];
    for k := 0 to |l|
      invariant copy == l[..k]
    {
      copy := copy + [l[k]];
    }
  }

  /** The loops of `Board(int[,])` that give each new cell the value of its entry. */
  method CopyValues(m: array2<int>) returns (vs: array2<int>)
    requires m.Length0 == m.Length1
    ensures fresh(vs) && vs.Length0 == m.Length0 && vs.Length1 == m.Length0
    ensures forall a, b :: 0 <= a < m.Length0 && 0 <= b < m.Length0 ==> vs[a, b] == m[a, b]
  {
    var n := m.Length0;
    vs := new int[n, n];
    for i := 0 to n
      invariant forall a, b :: 0 <= a < i && 0 <= b < n ==> vs[a, b] == m[a, b]
    {
      for j := 0 to n
        invariant forall a, b :: 0 <= a < i && 0 <= b < n ==> vs[a, b] == m[a, b]
        invariant forall b :: 0 <= b < j ==> vs[i, b] == m[i, b]
      {
        vs[i, j] := m[i, j];
      }
    }
  }

  class Board {
    const size: nat
    const values: array2<int>
    const cands: array2<seq<int>>
    var rows: seq<seq<int>>
    var cols: seq<seq<int>>
    var boxes: seq<seq<int>>
    ghost var vals: seq<seq<int>>
    ghost var lists: seq<seq<seq<int>>>

    /** The board as a value. */
    ghost function Model(): Grid
      reads this
    {
      Grid(size, vals, lists, Tables(rows, cols, boxes))
    }

    /**
      The arrays are size×size and agree with the ghost mirrors, the board is
      well formed (square side, n×n tables, candidates in 1..n) and every
      value lies in 0..size.
    */
    ghost predicate Valid()
      reads this, values, cands
    {
      && values.Length0 == size && values.Length1 == size
      && cands.Length0 == size && cands.Length1 == size
      && WellFormed(Model()) && InRange(Model())
      && (forall i, j :: 0 <= i < size && 0 <= j < size ==> values[i, j] == vals[i][j])
      && (forall i, j :: 0 <= i < size && 0 <= j < size ==> cands[i, j] == lists[i][j])
    }

    /**
      `Board(int[,])`: one cell per entry of the square input, holding its
      value and an empty list, then `initDictionaries`. The side length is the
      square root of the number of entries.
    */
    constructor (m: array2<int>)
      requires m.Length0 == m.Length1 && Square(m.Length0)
      requires forall i, j :: 0 <= i < m.Length0 && 0 <= j < m.Length1 ==> 0 <= m[i, j] <= m.Length0
      ensures Valid() && fresh(values) && fresh(cands)
      ensures size == m.Length0
      ensures forall i, j :: 0 <= i < size && 0 <= j < size ==> vals[i][j] == m[i, j] && lists[i][j] == []
      ensures rows == ZeroTable(size) && cols == ZeroTable(size) && boxes == ZeroTable(size)
    {
      ISqrtOfSquare(m.Length0);
      var n := ISqrt(m.Length0 * m.Length1);
      var vs := CopyValues(m);
      var cs := new seq<int>[n, n]((_, _) => []);
      size := n;
      values := vs;
      cands := cs;
      vals := seq(n, a requires 0 <= a < n reads m => seq(n, b requires 0 <= b < n reads m => m[a, b]));
      lists := seq(n, _ => seq(n, _ => []));
      rows, cols, boxes := [], [], [];
      new;
      InitDictionaries();
    }

    /**
      `new Board()` followed by the size and the fresh cell matrix that
      `copyBoard` gives it: every cell empty with an empty list, zero tables.
    */
    constructor Sized(n: nat)
      requires Square(n)
      ensures Valid() && size == n && fresh(values) && fresh(cands)
      ensures vals == ZeroTable(n) && lists == seq(n, _ => seq(n, _ => []))
      ensures rows == ZeroTable(n) && cols == ZeroTable(n) && boxes == ZeroTable(n)
    {
      size := n;
      values := new int[n, n]((_, _) => 0);
      cands := new seq<int>[n, n]((_, _) => []);
      vals := ZeroTable(n);
      lists := seq(n, _ => seq(n, _ => []));
      rows, cols, boxes := ZeroTable(n), ZeroTable(n), ZeroTable(n);
    }

    /** `initDictionaries`: each table gets `size` zero arrays under keys 0..size-1. */
    method InitDictionaries()
      requires rows == [] && cols == [] && boxes == []
      modifies this
      ensures rows == ZeroTable(size) && cols == ZeroTable(size) && boxes == ZeroTable(size)
      ensures vals == old(vals) && lists == old(lists)
    {
      var zeroArray := seq(size, _ => 0);
      for i := 0 to size
        invariant |rows| == i && |cols| == i && |boxes| == i
        invariant forall u :: 0 <= u < i ==> rows[u] == zeroArray && cols[u] == zeroArray && boxes[u] == zeroArray
        invariant vals == old(vals) && lists == old(lists)
      {
        rows := rows + [zeroArray];
        cols := cols + [zeroArray];
        boxes := boxes + [zeroArray];
      }
    }

    /** `Solver.isSafe`: digit v has a zero count in the row, the column and the box of (r, c). */
    function IsSafe(r: nat, c: nat, v: int): (b: bool)
      reads this
      requires Shaped(Model().occ, size) && Square(size) && r < size && c < size && 1 <= v <= size
      ensures b == Safe(Model().occ, size, r, c, v)
    {
      rows[r][v - 1] == 0 && cols[c][v - 1] == 0 && boxes[FindBox(size, r, c)][v - 1] == 0
    }

    /** The `Value` setter of cell (r, c). */
    method SetValue(r: nat, c: nat, v: int)
      requires Valid() && r < size && c < size && 0 <= v <= size
      modifies this, values
      ensures Valid()
      ensures vals == old(vals)[r := old(vals)[r][c := v]]
      ensures lists == old(lists) && rows == old(rows) && cols == old(cols) && boxes == old(boxes)
    {
      values[r, c] := v;
      vals := vals[r := vals[r][c := v]];
    }

    /** Replaces the candidate list of cell (r, c). */
    method SetCandidates(r: nat, c: nat, l: seq<int>)
      requires Valid() && r < size && c < size
      requires forall k :: 0 <= k < |l| ==> 1 <= l[k] <= size
      modifies this, cands
      ensures Valid()
      ensures lists == old(lists)[r := old(lists)[r][c := l]]
      ensures vals == old(vals) && rows == old(rows) && cols == old(cols) && boxes == old(boxes)
    {
      cands[r, c] := l;
      lists := lists[r := lists[r][c := l]];
    }

    /**
      The copy constructor of `Cell` applied to cell (r, c) of `src`: this
      board's cell takes the source cell's value and a copy of its list.
    */
    method CopyCell(src: Board, r: nat, c: nat)
      requires Valid() && src.Valid() && src.size == size && r < size && c < size
      requires src != this && src.values != values && src.cands != cands
      modifies this, values, cands
      ensures Valid()
      ensures vals == old(vals)[r := old(vals)[r][c := src.vals[r][c]]]
      ensures lists == old(lists)[r := old(lists)[r][c := src.lists[r][c]]]
      ensures rows == old(rows) && cols == old(cols) && boxes == old(boxes)
    {
      SetValue(r, c, src.values[r, c]);
      var copy := CopyCandidates(src.cands[r, c]);
      SetCandidates(r, c, copy);
    }

    /** Replaces the counters of row u, column u and box u (`rows[u] = ...`, and likewise). */
    method SetUnit(u: nat, row: seq<int>, col: seq<int>, box: seq<int>)
      requires Valid() && u < size && |row| == size && |col| == size && |box| == size
      modifies this
      ensures Valid() && vals == old(vals) && lists == old(lists)
      ensures rows == old(rows)[u := row] && cols == old(cols)[u := col] && boxes == old(boxes)[u := box]
    {
      rows, cols, boxes := rows[u := row], cols[u := col], boxes[u := box];
    }

    /**
      Counts digit v, just placed at (r, c), in the cell's row, column and box
      (`dictionary[key][v-1]++` on each of the three tables).
    */
    method CountDigit(r: nat, c: nat, v: int)
      requires Valid() && r < size && c < size && 1 <= v <= size
      modifies this
      ensures Valid() && vals == old(vals) && lists == old(lists)
      ensures Model().occ == Record(old(Model().occ), size, r, c, v)
    {
      var boxNumber := FindBox(size, r, c);
      rows := rows[r := rows[r][v - 1 := rows[r][v - 1] + 1]];
      cols := cols[c := cols[c][v - 1 := cols[c][v - 1] + 1]];
      boxes := boxes[boxNumber := boxes[boxNumber][v - 1 := boxes[boxNumber][v - 1] + 1]];
    }

    /**
      The write of the two propagation tactics: `Value = number` on cell
      (r, c) followed by `Solver.updateSafeDictionaries`. The board becomes
      exactly `Place` of the old one.
    */
    method PlaceDigit(r: nat, c: nat, v: int)
      requires Valid() && r < size && c < size && 1 <= v <= size
      modifies this, values
      ensures Valid() && Model() == Place(old(Model()), r, c, v)
    {
      SetValue(r, c, v);
      CountDigit(r, c, v);
    }

    /**
      `addValuesToDictionaries`: counts every placed digit in its row, column
      and box, returning false at the first digit whose count is already 1 in
      one of them. It succeeds exactly when no digit repeats in a unit, and
      then the tables say exactly which digits each unit holds; every counter
      stays 0 or 1 either way.
    */
    method AddValuesToDictionaries() returns (ok: bool)
      requires Valid()
      requires rows == ZeroTable(size) && cols == ZeroTable(size) && boxes == ZeroTable(size)
      modifies this
      ensures Valid() && vals == old(vals) && lists == old(lists)
      ensures ok <==> NoDuplicates(Model())
      ensures ok ==> Consistent(Model())
      ensures Binary(rows, size) && Binary(cols, size) && Binary(boxes, size)
    {
      ghost var g := Model();
      ScanStart(g);
      for i := 0 to size
        invariant Valid() && vals == g.values && lists == g.cands
        invariant CountsBefore(Model().occ, g, i, 0) && DistinctBefore(g, i, 0)
      {
        for j := 0 to size
          invariant Valid() && vals == g.values && lists == g.cands
          invariant CountsBefore(Model().occ, g, i, j) && DistinctBefore(g, i, j)
        {
          if values[i, j] != 0 {
            var boxNumber := FindBox(size, i, j);
            var v := values[i, j];
            if rows[i][v - 1] == 1 || cols[j][v - 1] == 1 || boxes[boxNumber][v - 1] == 1 {
              ScanRepeat(Model().occ, g, i, j);
              CountsAreBinary(Model().occ, g, i, j);
              return false;
            }
            ScanCountsNew(Model().occ, g, i, j);
            ScanDistinctNew(Model().occ, g, i, j);
            CountDigit(i, j, v);
          } else {
            ScanEmpty(Model().occ, g, i, j);
          }
        }
        ScanRowEnd(Model().occ, g, i);
      }
      ScanEnd(Model().occ, g);
      CountsAreBinary(Model().occ, g, size, 0);
      return true;
    }

    /**
      The loop of `Cell.findPossibleNumbers` for cell (r, c): tries the digits
      1..size in increasing order, collects the safe ones and credits each one
      to the hidden counters of the cell's row, column and box.
    */
    method CollectSafe(r: nat, c: nat, h: HiddenCounters) returns (found: seq<int>)
      requires WellFormed(Model()) && Shaped(h.Counts(), size) && r < size && c < size
      modifies h
      ensures found == SafeList(Model().occ, size, r, c)
      ensures h.Counts() == Credit(old(h.Counts()), size, r, c, found)
    {
      ghost var t := Model().occ;
      ghost var h0 := h.Counts();
      found := [];
      for number := 1 to size + 1
        invariant Shaped(h.Counts(), size)
        invariant found == SafeUpTo(t, size, r, c, number - 1)
        invariant h.Counts() == Credit(h0, size, r, c, found)
      {
        SafeStep(t, h0, size, r, c, number);
        if IsSafe(r, c, number) {
          found := found + [number];
          h.Increment(size, r, c, number);
        }
      }
    }

    /**
      `Cell.findPossibleNumbers` for cell (r, c): appends the safe digits in
      increasing order to the cell's list and credits each one to the hidden
      counters. No value and no occupancy counter changes. The digits are
      collected first and appended together; nothing reads the list in
      between.
    */
    method FindPossibleNumbers(r: nat, c: nat, h: HiddenCounters)
      requires Valid() && Shaped(h.Counts(), size) && r < size && c < size
      modifies this, cands, h
      ensures Valid() && vals == old(vals) && Model().occ == old(Model().occ)
      ensures lists == old(lists)[r := old(lists)[r][c := old(lists)[r][c] + SafeList(Model().occ, size, r, c)]]
      ensures h.Counts() == Credit(old(h.Counts()), size, r, c, SafeList(Model().occ, size, r, c))
    {
      var found := CollectSafe(r, c, h);
      SetCandidates(r, c, cands[r, c] + found);
    }

    /** Row i of `unsolvedCells`' loop, carried from (i, 0) to (i + 1, 0). */
    method UnsolvedRow(i: nat, h: HiddenCounters, ghost g: Grid, ghost h0: Tables)
      requires Valid() && WellFormed(g) && g.n == size && i < size && Shaped(h0, size) && Shaped(h.Counts(), size)
      requires vals == g.values && Model().occ == g.occ
      requires lists == Visited(g, Collect, i, 0) && Accounts(h.Counts(), h0, g, i, 0)
      modifies this, cands, h
      ensures Valid() && vals == g.values && Model().occ == g.occ && Shaped(h.Counts(), size)
      ensures lists == Visited(g, Collect, i + 1, 0) && Accounts(h.Counts(), h0, g, i + 1, 0)
    {
      for j := 0 to size
        invariant Valid() && vals == g.values && Model().occ == g.occ && Shaped(h.Counts(), size)
        invariant lists == Visited(g, Collect, i, j) && Accounts(h.Counts(), h0, g, i, j)
      {
        AccountsStep(h.Counts(), h0, g, i, j);
        VisitedStep(g, Collect, i, j);
        if values[i, j] == 0 {
          FindPossibleNumbers(i, j, h);
        }
      }
      AccountsRowEnd(h.Counts(), h0, g, i);
      VisitedRowEnd(g, Collect, i);
    }

    /**
      `unsolvedCells`: runs `findPossibleNumbers` on every empty cell in
      row-major order. Empty cells get their safe digits appended, filled
      cells and all values stay as they were, and each hidden counter grows by
      the number of empty cells of its unit for which its digit is safe.
    */
    method UnsolvedCells(h: HiddenCounters)
      requires Valid() && Shaped(h.Counts(), size)
      modifies this, cands, h
      ensures Valid() && vals == old(vals) && Model().occ == old(Model().occ)
      ensures lists == Visited(old(Model()), Collect, size, 0)
      ensures Shaped(h.Counts(), size) && Accounts(h.Counts(), old(h.Counts()), old(Model()), size, 0)
    {
      ghost var g := Model();
      ghost var h0 := h.Counts();
      AccountsStart(h0, g);
      VisitedStart(g, Collect);
      for i := 0 to size
        invariant Valid() && vals == g.values && Model().occ == g.occ && Shaped(h.Counts(), size)
        invariant lists == Visited(g, Collect, i, 0) && Accounts(h.Counts(), h0, g, i, 0)
      {
        UnsolvedRow(i, h, g, h0);
      }
    }

    /** `ToString`: the characters `(char)(value + '0')` of all cells in row-major order. */
    method ToString() returns (s: string)
      requires Valid() && Codec.Printable(vals)
      ensures s == Codec.Encode(vals)
    {
      s := "";
      for i := 0 to size
        invariant s == Codec.Encode(vals[..i])
      {
        for j := 0 to size
          invariant s == Codec.Encode(vals[..i]) + Codec.EncodeRow(vals[i][..j])
        {
          s := s + [Codec.CharOf(values[i, j])];
          assert vals[i][..j + 1] == vals[i][..j] + [vals[i][j]];
        }
        assert vals[..i + 1][..i] == vals[..i];
        assert vals[i][..size] == vals[i];
      }
      assert vals[..size] == vals;
    }
  }
}
