/**
  Candidate lists and the hidden-single counters, as values.

  `RemoveFirst` is `List<int>.Remove`; `FilterFrom` is the index loop of
  `Solver.updateCellPossibilities`, which steps past the element that slides
  into the slot it has just emptied; `SafeUpTo` is the list that
  `Cell.findPossibleNumbers` appends; `Credit` and `Tally` describe what
  `findPossibleNumbers` and `Board.unsolvedCells` add to the hidden counters.
*/
module Candidates {
  import opened Geometry
  import opened Grids

  /** `List<int>.Remove(x)`: drop the first occurrence of x, if there is one. */
  function RemoveFirst(l: seq<int>, x: int): (l': seq<int>)
    ensures x in l ==> |l'| == |l| - 1
    ensures x !in l ==> l' == l
  {
    if |l| == 0 then l
    else if l[0] == x then l[1..]
    else [l[0]] + RemoveFirst(l[1..], x)
  }

  /** `Remove` takes away exactly one occurrence of x, when there is one, and nothing else. */
  lemma {:induction false} RemoveFirstMultiset(l: seq<int>, x: int)
    ensures multiset(RemoveFirst(l, x)) == multiset(l) - multiset{x}
    decreases |l|
  {
    if |l| > 0 {
      assert l == [l[0]] + l[1..];
      if l[0] != x {
        RemoveFirstMultiset(l[1..], x);
      }
    }
  }

  /** What `Remove` leaves was already in the list, so a range its entries lie in is kept. */
  lemma RemoveFirstInRange(l: seq<int>, x: int, n: nat)
    requires forall k :: 0 <= k < |l| ==> 1 <= l[k] <= n
    ensures forall k :: 0 <= k < |RemoveFirst(l, x)| ==> 1 <= RemoveFirst(l, x)[k] <= n
  {
    var l' := RemoveFirst(l, x);
    RemoveFirstMultiset(l, x);
    forall k | 0 <= k < |l'|
      ensures 1 <= l'[k] <= n
    {
      assert l'[k] in multiset(l');
      assert l'[k] in l;
    }
  }

  /** a is obtained from b by deleting entries; the order of what is left is b's. */
  predicate Subseq(a: seq<int>, b: seq<int>)
    decreases |b|
  {
    if |b| == 0 then |a| == 0
    else Subseq(a, b[1..]) || (|a| > 0 && a[0] == b[0] && Subseq(a[1..], b[1..]))
  }

  lemma {:induction false} SubseqRefl(a: seq<int>)
    ensures Subseq(a, a)
    decreases |a|
  {
    if |a| > 0 {
      SubseqRefl(a[1..]);
    }
  }

  lemma {:induction false} SubseqTrans(a: seq<int>, b: seq<int>, c: seq<int>)
    requires Subseq(a, b) && Subseq(b, c)
    ensures Subseq(a, c)
    decreases |c|
  {
    if |c| == 0 {
    } else if Subseq(b, c[1..]) {
      SubseqTrans(a, b, c[1..]);
    } else {
      assert |b| > 0 && b[0] == c[0] && Subseq(b[1..], c[1..]);
      if Subseq(a, b[1..]) {
        SubseqTrans(a, b[1..], c[1..]);
      } else {
        assert |a| > 0 && a[0] == b[0] && Subseq(a[1..], b[1..]);
        SubseqTrans(a[1..], b[1..], c[1..]);
      }
    }
  }

  lemma {:induction false} SubseqShorter(a: seq<int>, b: seq<int>)
    requires Subseq(a, b)
    ensures |a| <= |b|
    decreases |b|
  {
    if |b| > 0 {
      if Subseq(a, b[1..]) {
        SubseqShorter(a, b[1..]);
      } else {
        SubseqShorter(a[1..], b[1..]);
      }
    }
  }

  /** Removing one entry leaves the others in their order. */
  lemma {:induction false} RemoveFirstSubseq(l: seq<int>, x: int)
    ensures Subseq(RemoveFirst(l, x), l)
    decreases |l|
  {
    if |l| == 0 {
    } else if l[0] == x {
      SubseqRefl(l[1..]);
    } else {
      RemoveFirstSubseq(l[1..], x);
      assert ([l[0]] + RemoveFirst(l[1..], x))[1..] == RemoveFirst(l[1..], x);
    }
  }

  /**
    The loop of `updateCellPossibilities` from index i on: an entry outside
    `keep` is removed with `Remove`, and the index moves on regardless, so the
    entry that slid into slot i is never examined.
  */
  function FilterFrom(l: seq<int>, keep: set<int>, i: nat): seq<int>
    decreases |l| - i
  {
    if i >= |l| then l
    else if l[i] in keep then FilterFrom(l, keep, i + 1)
    else FilterFrom(RemoveFirst(l, l[i]), keep, i + 1)
  }

  /** The whole of `updateCellPossibilities`, with `keep` the digits `isSafe` admits. */
  function Filter(l: seq<int>, keep: set<int>): seq<int>
  {
    FilterFrom(l, keep, 0)
  }

  /**
    The filter only deletes: what survives is a subsequence of the list (so the
    list never grows and keeps its order), no entry admitted by `keep` loses an
    occurrence, and every occurrence that went missing is one `keep` rejects.
  */
  lemma {:induction false} FilterFromDeletes(l: seq<int>, keep: set<int>, i: nat)
    ensures Subseq(FilterFrom(l, keep, i), l)
    ensures |FilterFrom(l, keep, i)| <= |l|
    ensures multiset(FilterFrom(l, keep, i)) <= multiset(l)
    ensures forall x :: x in keep ==> multiset(FilterFrom(l, keep, i))[x] == multiset(l)[x]
    decreases |l| - i
  {
    var r := FilterFrom(l, keep, i);
    if i >= |l| {
      SubseqRefl(l);
    } else if l[i] in keep {
      FilterFromDeletes(l, keep, i + 1);
    } else {
      var l' := RemoveFirst(l, l[i]);
      RemoveFirstMultiset(l, l[i]);
      FilterFromDeletes(l', keep, i + 1);
      RemoveFirstSubseq(l, l[i]);
      SubseqTrans(r, l', l);
    }
    SubseqShorter(r, l);
  }

  /** A list whose entries all pass comes through unchanged. */
  lemma {:induction false} FilterFromKeepsAll(l: seq<int>, keep: set<int>, i: nat)
    requires forall k :: 0 <= k < |l| ==> l[k] in keep
    ensures FilterFrom(l, keep, i) == l
    decreases |l| - i
  {
    if i < |l| {
      FilterFromKeepsAll(l, keep, i + 1);
    }
  }

  /**
    The skip is observable: with neither 1 nor 2 admitted, removing 1 slides 2
    into slot 0, the index moves to 1, and 2 survives although it fails the test.
  */
  lemma FilterSkipsSurvivor()
    ensures Filter([1, 2], {}) == [2]
  {
    assert RemoveFirst([1, 2], 1) == [2];
    assert FilterFrom([2], {}, 1) == [2];
  }

  /** Entries strictly increase, hence no entry repeats. */
  predicate Ascending(l: seq<int>)
  {
    forall a, b :: 0 <= a < b < |l| ==> l[a] < l[b]
  }

  /**
    The digits 1..m for which `isSafe` holds at (r, c), in the order the loop of
    `findPossibleNumbers` appends them.
  */
  function SafeUpTo(t: Tables, n: nat, r: nat, c: nat, m: nat): (l: seq<int>)
    requires Shaped(t, n) && Square(n) && r < n && c < n && m <= n
    ensures forall k :: 0 <= k < |l| ==> 1 <= l[k] <= m
  {
    if m == 0 then []
    else
      var p := SafeUpTo(t, n, r, c, m - 1);
      if Safe(t, n, r, c, m) then p + [m] else p
  }

  /** The list holds exactly the safe digits of 1..m, each once, in increasing order. */
  lemma {:induction false} SafeUpToSpec(t: Tables, n: nat, r: nat, c: nat, m: nat)
    requires Shaped(t, n) && Square(n) && r < n && c < n && m <= n
    ensures Ascending(SafeUpTo(t, n, r, c, m))
    ensures forall x :: x in SafeUpTo(t, n, r, c, m) <==> 1 <= x <= m && Safe(t, n, r, c, x)
  {
    if m > 0 {
      SafeUpToSpec(t, n, r, c, m - 1);
    }
  }

  /** The candidate list `findPossibleNumbers` computes for (r, c) on a size-n board. */
  function SafeList(t: Tables, n: nat, r: nat, c: nat): seq<int>
    requires Shaped(t, n) && Square(n) && r < n && c < n
  {
    SafeUpTo(t, n, r, c, n)
  }

  /** The three hidden-counter increments `findPossibleNumbers` makes for each digit it appends. */
  function Credit(h: Tables, n: nat, r: nat, c: nat, l: seq<int>): (h': Tables)
    requires Shaped(h, n) && Square(n) && r < n && c < n
    requires forall k :: 0 <= k < |l| ==> 1 <= l[k] <= n
    ensures Shaped(h', n)
  {
    if |l| == 0 then h
    else Record(Credit(h, n, r, c, l[..|l| - 1]), n, r, c, l[|l| - 1])
  }

  /** 1 when the condition holds, 0 otherwise. */
  function Count(b: bool): nat
  {
    if b then 1 else 0
  }

  /**
    Crediting a list without repeats adds exactly one, for each digit in the
    list, to the digit's counter in the row, the column and the box of (r, c),
    and changes no other counter.
  */
  lemma {:induction false} CreditAdds(h: Tables, n: nat, r: nat, c: nat, l: seq<int>)
    requires Shaped(h, n) && Square(n) && r < n && c < n
    requires forall k :: 0 <= k < |l| ==> 1 <= l[k] <= n
    requires Ascending(l)
    ensures forall u, d :: 0 <= u < n && 0 <= d < n ==>
              && Credit(h, n, r, c, l).rows[u][d] == h.rows[u][d] + Count(u == r && d + 1 in l)
              && Credit(h, n, r, c, l).cols[u][d] == h.cols[u][d] + Count(u == c && d + 1 in l)
              && Credit(h, n, r, c, l).boxes[u][d] == h.boxes[u][d] + Count(u == FindBox(n, r, c) && d + 1 in l)
    decreases |l|
  {
    if |l| > 0 {
      var p := l[..|l| - 1];
      var x := l[|l| - 1];
      CreditAdds(h, n, r, c, p);
      assert l == p + [x];
      assert x !in p by {
        forall k | 0 <= k < |p| ensures p[k] != x {
          assert l[k] < l[|l| - 1];
        }
      }
    }
  }

  /** What a unit kind selects: row u, column u or box u. */
  datatype Unit = RowUnit | ColUnit | BoxUnit

  predicate InUnit(n: nat, kind: Unit, u: nat, i: nat, j: nat)
    requires Square(n) && i < n && j < n
  {
    match kind
    case RowUnit => i == u
    case ColUnit => j == u
    case BoxUnit => FindBox(n, i, j) == u
  }

  /** Cell (i, j) is empty, lies in the unit, and digit d+1 is safe for it. */
  predicate Hit(g: Grid, kind: Unit, u: nat, d: nat, i: nat, j: nat)
    requires WellFormed(g) && i < g.n && j < g.n && d < g.n
  {
    g.values[i][j] == 0 && InUnit(g.n, kind, u, i, j) && Safe(g.occ, g.n, i, j, d + 1)
  }

  /**
    The number of hits among the cells before (i, j) in row-major order; (i, 0)
    follows (i-1, n), so `Tally(g, kind, u, d, g.n, 0)` counts the whole board.
  */
  function Tally(g: Grid, kind: Unit, u: nat, d: nat, i: nat, j: nat): nat
    requires WellFormed(g) && d < g.n && j <= g.n && (i < g.n || (i == g.n && j == 0))
    decreases i, j
  {
    if j == 0 then
      if i == 0 then 0 else Tally(g, kind, u, d, i - 1, g.n)
    else
      Tally(g, kind, u, d, i, j - 1) + Count(Hit(g, kind, u, d, i, j - 1))
  }

  /** Cell (a, b) comes before (i, j) in row-major order. */
  predicate Before(a: nat, b: nat, i: nat, j: nat)
  {
    a < i || (a == i && b < j)
  }

  /** The cells before (i, j) that are hits. */
  ghost function Hits(g: Grid, kind: Unit, u: nat, d: nat, i: nat, j: nat): set<(nat, nat)>
    requires WellFormed(g) && d < g.n
  {
    set a: nat, b: nat | a < g.n && b < g.n && Before(a, b, i, j) && Hit(g, kind, u, d, a, b) :: (a, b)
  }

  /** Hits up to (i, n) and hits up to (i+1, 0) are the same cells. */
  lemma HitsRowEnd(g: Grid, kind: Unit, u: nat, d: nat, i: nat)
    requires WellFormed(g) && d < g.n
    ensures Hits(g, kind, u, d, i + 1, 0) == Hits(g, kind, u, d, i, g.n)
  {
  }

  /** Moving one cell on adds that cell if it is a hit. */
  lemma HitsStep(g: Grid, kind: Unit, u: nat, d: nat, i: nat, j: nat)
    requires WellFormed(g) && d < g.n && i < g.n && j < g.n
    ensures Hits(g, kind, u, d, i, j + 1) ==
              Hits(g, kind, u, d, i, j) + (if Hit(g, kind, u, d, i, j) then {(i, j)} else {})
  {
  }

  /** Counting one more cell keeps the running count equal to the number of hit cells. */
  lemma TallyStep(g: Grid, kind: Unit, u: nat, d: nat, i: nat, j: nat)
    requires WellFormed(g) && d < g.n && i < g.n && j < g.n
    requires Tally(g, kind, u, d, i, j) == |Hits(g, kind, u, d, i, j)|
    ensures Tally(g, kind, u, d, i, j + 1) == |Hits(g, kind, u, d, i, j + 1)|
  {
    HitsStep(g, kind, u, d, i, j);
    assert (i, j) !in Hits(g, kind, u, d, i, j);
  }

  /** The running count is the size of the set of cells it has counted. */
  lemma {:induction false} TallyCountsHits(g: Grid, kind: Unit, u: nat, d: nat, i: nat, j: nat)
    requires WellFormed(g) && d < g.n && j <= g.n && (i < g.n || (i == g.n && j == 0))
    ensures Tally(g, kind, u, d, i, j) == |Hits(g, kind, u, d, i, j)|
    decreases i, j
  {
    if j == 0 {
      if i == 0 {
        assert Hits(g, kind, u, d, i, j) == {};
      } else {
        TallyCountsHits(g, kind, u, d, i - 1, g.n);
        HitsRowEnd(g, kind, u, d, i - 1);
      }
    } else {
      TallyCountsHits(g, kind, u, d, i, j - 1);
      TallyStep(g, kind, u, d, i, j - 1);
    }
  }

  /**
    The hidden counters h hold the counters h0 plus, for each unit and digit,
    the number of hits among the cells before (i, j): what `unsolvedCells` has
    added once it has visited those cells.
  */
  ghost predicate Accounts(h: Tables, h0: Tables, g: Grid, i: nat, j: nat)
    requires WellFormed(g) && Shaped(h, g.n) && Shaped(h0, g.n)
    requires j <= g.n && (i < g.n || (i == g.n && j == 0))
  {
    forall u, d :: 0 <= u < g.n && 0 <= d < g.n ==>
      && h.rows[u][d] == h0.rows[u][d] + Tally(g, RowUnit, u, d, i, j)
      && h.cols[u][d] == h0.cols[u][d] + Tally(g, ColUnit, u, d, i, j)
      && h.boxes[u][d] == h0.boxes[u][d] + Tally(g, BoxUnit, u, d, i, j)
  }

  /** Nothing is added before the first cell. */
  lemma AccountsStart(h: Tables, g: Grid)
    requires WellFormed(g) && Shaped(h, g.n)
    ensures Accounts(h, h, g, 0, 0)
  {
  }

  /** A cell is a hit for digit d+1 exactly when it is empty, in the unit, and d+1 is on its safe list. */
  lemma HitIffListed(g: Grid, i: nat, j: nat, u: nat, d: nat)
    requires WellFormed(g) && i < g.n && j < g.n && u < g.n && d < g.n
    ensures Hit(g, RowUnit, u, d, i, j) == (g.values[i][j] == 0 && u == i && d + 1 in SafeList(g.occ, g.n, i, j))
    ensures Hit(g, ColUnit, u, d, i, j) == (g.values[i][j] == 0 && u == j && d + 1 in SafeList(g.occ, g.n, i, j))
    ensures Hit(g, BoxUnit, u, d, i, j) ==
              (g.values[i][j] == 0 && u == FindBox(g.n, i, j) && d + 1 in SafeList(g.occ, g.n, i, j))
  {
    SafeUpToSpec(g.occ, g.n, i, j, g.n);
  }

  /**
    Visiting cell (i, j): an empty cell credits its safe digits, which is
    exactly one more hit for each unit of the cell and each safe digit; a
    filled cell adds nothing and is no hit.
  */
  lemma AccountsStep(h: Tables, h0: Tables, g: Grid, i: nat, j: nat)
    requires WellFormed(g) && Shaped(h, g.n) && Shaped(h0, g.n) && i < g.n && j < g.n
    requires Accounts(h, h0, g, i, j)
    ensures g.values[i][j] == 0 ==> Accounts(Credit(h, g.n, i, j, SafeList(g.occ, g.n, i, j)), h0, g, i, j + 1)
    ensures g.values[i][j] != 0 ==> Accounts(h, h0, g, i, j + 1)
  {
    if g.values[i][j] == 0 {
      SafeUpToSpec(g.occ, g.n, i, j, g.n);
      CreditAdds(h, g.n, i, j, SafeList(g.occ, g.n, i, j));
    }
    forall u, d | 0 <= u < g.n && 0 <= d < g.n {
      HitIffListed(g, i, j, u, d);
    }
  }

  /** The end of row i is the start of row i + 1. */
  lemma AccountsRowEnd(h: Tables, h0: Tables, g: Grid, i: nat)
    requires WellFormed(g) && Shaped(h, g.n) && Shaped(h0, g.n) && i < g.n
    requires Accounts(h, h0, g, i, g.n)
    ensures Accounts(h, h0, g, i + 1, 0)
  {
  }

  /**
    After a whole pass from zero counters, each hidden counter is the number of
    empty cells of its unit for which its digit is safe.
  */
  lemma AccountsCountHits(h: Tables, g: Grid)
    requires WellFormed(g) && Shaped(h, g.n)
    requires Accounts(h, Tables(ZeroTable(g.n), ZeroTable(g.n), ZeroTable(g.n)), g, g.n, 0)
    ensures forall u, d :: 0 <= u < g.n && 0 <= d < g.n ==>
      && h.rows[u][d] == |Hits(g, RowUnit, u, d, g.n, 0)|
      && h.cols[u][d] == |Hits(g, ColUnit, u, d, g.n, 0)|
      && h.boxes[u][d] == |Hits(g, BoxUnit, u, d, g.n, 0)|
  {
    forall u, d | 0 <= u < g.n && 0 <= d < g.n
      ensures h.rows[u][d] == |Hits(g, RowUnit, u, d, g.n, 0)|
      ensures h.cols[u][d] == |Hits(g, ColUnit, u, d, g.n, 0)|
      ensures h.boxes[u][d] == |Hits(g, BoxUnit, u, d, g.n, 0)|
    {
      TallyCountsHits(g, RowUnit, u, d, g.n, 0);
      TallyCountsHits(g, ColUnit, u, d, g.n, 0);
      TallyCountsHits(g, BoxUnit, u, d, g.n, 0);
    }
  }

  /** The two whole-board passes over the candidate lists that skip filled cells. */
  datatype Pass =
    | Collect  // `Board.unsolvedCells`: `findPossibleNumbers` appends the safe digits
    | Prune    // `Solver.minCell`: `updateCellPossibilities` filters the list

  /** The list a pass leaves on cell (a, b); a filled cell keeps its list. */
  ghost function Listed(g: Grid, pass: Pass, a: nat, b: nat): seq<int>
    requires WellFormed(g) && a < g.n && b < g.n
  {
    if g.values[a][b] != 0 then g.cands[a][b]
    else match pass
      case Collect => g.cands[a][b] + SafeList(g.occ, g.n, a, b)
      case Prune => Filter(g.cands[a][b], SafeSet(g.occ, g.n, a, b))
  }

  /** The candidate lists once a pass has visited the cells before (i, j). */
  ghost function Visited(g: Grid, pass: Pass, i: nat, j: nat): (ls: seq<seq<seq<int>>>)
    requires WellFormed(g)
  {
    seq(g.n, a requires 0 <= a < g.n =>
      seq(g.n, b requires 0 <= b < g.n => if Before(a, b, i, j) then Listed(g, pass, a, b) else g.cands[a][b]))
  }

  /** Before any visit the lists are as they were. */
  lemma VisitedStart(g: Grid, pass: Pass)
    requires WellFormed(g)
    ensures Visited(g, pass, 0, 0) == g.cands
  {
    assert forall a :: 0 <= a < g.n ==> Visited(g, pass, 0, 0)[a] == g.cands[a];
  }

  /** Visiting (i, j) replaces that one list by `Listed`; a filled cell keeps its list. */
  lemma VisitedStep(g: Grid, pass: Pass, i: nat, j: nat)
    requires WellFormed(g) && i < g.n && j < g.n
    ensures Visited(g, pass, i, j + 1) == Visited(g, pass, i, j)[i := Visited(g, pass, i, j)[i][j := Listed(g, pass, i, j)]]
    ensures g.values[i][j] != 0 ==> Visited(g, pass, i, j + 1) == Visited(g, pass, i, j)
  {
    var v, w := Visited(g, pass, i, j), Visited(g, pass, i, j + 1);
    assert forall a :: 0 <= a < g.n && a != i ==> w[a] == v[a];
    assert w[i] == v[i][j := Listed(g, pass, i, j)];
    if g.values[i][j] != 0 {
      assert v[i][j := Listed(g, pass, i, j)] == v[i];
      assert v[i := v[i]] == v;
    }
  }

  /** The end of row i is the start of row i + 1. */
  lemma VisitedRowEnd(g: Grid, pass: Pass, i: nat)
    requires WellFormed(g) && i < g.n
    ensures Visited(g, pass, i + 1, 0) == Visited(g, pass, i, g.n)
  {
    assert forall a :: 0 <= a < g.n ==> Visited(g, pass, i + 1, 0)[a] == Visited(g, pass, i, g.n)[a];
  }

  /**
    After the whole board every empty cell carries what the pass computes
    from its old list and the occupancy tables, and no filled cell changed.
  */
  lemma VisitedAll(g: Grid, pass: Pass)
    requires WellFormed(g)
    ensures |Visited(g, pass, g.n, 0)| == g.n
    ensures forall a, b :: 0 <= a < g.n && 0 <= b < g.n ==>
      |Visited(g, pass, g.n, 0)[a]| == g.n && Visited(g, pass, g.n, 0)[a][b] == Listed(g, pass, a, b)
    ensures forall a, b :: 0 <= a < g.n && 0 <= b < g.n && g.values[a][b] != 0 ==>
      Visited(g, pass, g.n, 0)[a][b] == g.cands[a][b]
  {
  }
}
