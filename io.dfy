/**
  The reading half of `InputOutput`: the static fields `input`, `board` and
  `size`, and the two methods that turn the flat text into a matrix.
  The console and file front ends around them are not part of this model.
*/
module Parsing {
  import opened Geometry
  import opened Codec

  /** Offset i*n + j of a cell of an n×n board lies inside the n*n text. */
  lemma OffsetBelow(n: nat, i: nat, j: nat)
    requires i < n && j < n
    ensures i * n + j < n * n
  {
    InnerBelow(i, j, n);
  }

  /**
    Every cell (a, b) before (i, j) in row-major order holds entry (a, b) of
    the n×n matrix t, and that entry lies in 0..n.
  */
  ghost predicate Filled(m: array2<int>, t: seq<seq<int>>, n: nat, i: nat, j: nat)
    reads m
  {
    && m.Length0 == n && m.Length1 == n
    && |t| == n && (forall a :: 0 <= a < n ==> |t[a]| == n)
    && forall a, b :: 0 <= a < n && 0 <= b < n && (a < i || (a == i && b < j)) ==>
         m[a, b] == t[a][b] && 0 <= m[a, b] <= n
  }

  /** The end of row i is the start of row i + 1. */
  lemma FilledRowEnd(m: array2<int>, t: seq<seq<int>>, n: nat, i: nat)
    requires Filled(m, t, n, i, n)
    ensures Filled(m, t, n, i + 1, 0)
  {
  }

  /** A board filled from the whole text shows that every character is in '0'..'0'+n. */
  lemma FilledAll(m: array2<int>, s: string, n: nat)
    requires |s| == n * n && Filled(m, Matrix(s, n), n, n, 0)
    ensures forall k :: 0 <= k < |s| ==> InAlphabet(s[k], n)
  {
    forall k | 0 <= k < |s|
      ensures InAlphabet(s[k], n)
    {
      MatrixAt(s, n, k);
      assert m[k / n, k % n] == Matrix(s, n)[k / n][k % n];
    }
  }

  /**
    The inner loop of `isValidBoard` over row i of the n×n board m: each
    character of the row is turned into its digit and stored, and the loop
    stops at the first character outside '0'..'0'+n. Either such a character
    exists, or row i now holds row i of the matrix t the text spells.
  */
  method FillRow(m: array2<int>, s: string, n: nat, i: nat, ghost t: seq<seq<int>>) returns (bad: bool)
    requires |s| == n * n && i < n && t == Matrix(s, n) && Filled(m, t, n, i, 0)
    modifies m
    ensures bad ==> exists k :: 0 <= k < |s| && !InAlphabet(s[k], n)
    ensures !bad ==> Filled(m, t, n, i + 1, 0)
  {
    for j := 0 to n
      invariant Filled(m, t, n, i, j)
    {
      ChunksAt(s, n, n, i, j);
      var digit := DigitOf(s[i * n + j]);
      if digit > n || digit < 0 {
        assert !InAlphabet(s[i * n + j], n);
        return true;
      }
      m[i, j] := digit;
    }
    FilledRowEnd(m, t, n, i);
    return false;
  }

  /** The static class `InputOutput`, as an object holding its static fields. */
  class InputOutput {
    var input: string
    var board: array2?<int>
    var size: nat

    constructor (text: string)
      ensures input == text && board == null && size == 0
    {
      input := text;
      board := null;
      size := 0;
    }

    /**
      `isValidBoard`: "Invalid size of board." when the length is not a
      perfect square, before any character is read; otherwise a fresh
      size×size `board` is filled cell by cell from the text, and the answer is
      "Invalid characters." at the first character outside '0'..'0'+size,
      "true" when there is none. On "true" the board is the matrix the text
      spells. `size` must already be ⌊√length⌋, as `stringToMatrix` sets it.
    */
    method IsValidBoard() returns (result: string)
      requires size == ISqrt(|input|)
      modifies this
      ensures input == old(input) && size == old(size)
      ensures !IsPerfectSquare(|input|) ==> result == SizeError && board == old(board)
      ensures IsPerfectSquare(|input|) ==>
        board != null && fresh(board) && board.Length0 == size && board.Length1 == size
      ensures result == Accepted <==> Acceptable(input)
      ensures result == CharError <==> IsPerfectSquare(|input|) && !Acceptable(input)
      ensures result == Accepted ==>
        board != null && |input| == size * size &&
        forall i, j :: 0 <= i < size && 0 <= j < size ==> board[i, j] == Matrix(input, size)[i][j]
    {
      if !IsPerfectSquare(|input|) {
        return SizeError;
      }
      var inputArr := input;
      var n := size;
      ISqrtSquare(|inputArr|);
      ghost var t := Matrix(inputArr, n);
      var m := new int[n, n];
      board := m;
      for i := 0 to n
        invariant board == m && input == inputArr && size == n
        invariant Filled(m, t, n, i, 0)
      {
        var bad := FillRow(m, inputArr, n, i, t);
        if bad {
          return CharError;
        }
      }
      FilledAll(m, inputArr, n);
      return Accepted;
    }

    /**
      `stringToMatrix`: sets `size` to ⌊√length⌋, validates, and returns the
      board exactly when `isValidBoard` answered "true" (null otherwise).
      The answer is also written to the console; that line is not modelled.
    */
    method StringToMatrix() returns (m: array2?<int>)
      modifies this
      ensures input == old(input) && size == ISqrt(|input|)
      ensures m != null <==> Acceptable(input)
      ensures m != null ==>
        m == board && fresh(m) && m.Length0 == size && m.Length1 == size && |input| == size * size &&
        forall i, j :: 0 <= i < size && 0 <= j < size ==> m[i, j] == Matrix(input, size)[i][j]
    {
      size := ISqrt(|input|);
      var result := IsValidBoard();
      if result == Accepted {
        m := board;
      } else {
        m := null;
      }
    }
  }

  /** A perfect-square length is the square of its integer root. */
  lemma ISqrtSquare(x: nat)
    requires IsPerfectSquare(x)
    ensures ISqrt(x) * ISqrt(x) == x
  {
  }

  /** The integer root is the k whose square and next square bracket n. */
  lemma ISqrtBetween(n: nat, k: nat)
    requires k * k <= n < (k + 1) * (k + 1)
    ensures ISqrt(n) == k
  {
    var r := ISqrt(n);
    if r < k {
      SquareMono(r + 1, k);
    } else if r > k {
      SquareMono(k + 1, r);
    }
  }

  /** A 21-character text is turned away on its length alone. */
  lemma RejectsOddLength()
    ensures !IsPerfectSquare(|"123400140120030043011"|)
  {
    ISqrtBetween(21, 4);
  }

  /** A 16-character text has the right length, but letters fall outside '0'..'4'. */
  lemma RejectsLetters()
    ensures IsPerfectSquare(|"124ngl4012003004"|) && !Acceptable("124ngl4012003004")
  {
    ISqrtOfSquare(4);
    assert !InAlphabet("124ngl4012003004"[3], 4);
  }
}
