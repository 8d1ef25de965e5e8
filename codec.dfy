/**
  The flat text form of a board: N*N characters in row-major order, each the
  character `'0' + value`, so 0 is '0', 9 is '9' and 10..16 are ':'..'@'.
  `Matrix` is what `InputOutput.isValidBoard` reads out of an accepted text,
  `Encode` what `Board.ToString` writes.
*/
module Codec {
  import opened Geometry

  /** The three answers of `isValidBoard`. */
  const SizeError := "Invalid size of board."
  const CharError := "Invalid characters."
  const Accepted := "true"

  /** `isPerferctSquare`: the length has an integer square root. */
  function IsPerfectSquare(x: nat): (r: bool)
    ensures r <==> exists k: nat :: k * k == x
  {
    PerfectSquareIff(x);
    ISqrt(x) * ISqrt(x) == x
  }

  /** `c - '0'`: the digit a character stands for (negative below '0'). */
  function DigitOf(c: char): int
  {
    c as int - '0' as int
  }

  /** The character code may be cast back to a Dafny `char`. */
  predicate IsCharCode(x: int)
  {
    0 <= x < 0xD800 || 0xE000 <= x < 0x11_0000
  }

  /** `(char)(value + '0')`. */
  function CharOf(v: int): (c: char)
    requires IsCharCode(v + '0' as int)
    ensures DigitOf(c) == v
  {
    (v + '0' as int) as char
  }

  /** A character `isValidBoard` lets through on a board of side n: '0'..'0'+n. */
  predicate InAlphabet(c: char, n: nat)
  {
    0 <= DigitOf(c) <= n
  }

  /** The inputs `isValidBoard` answers "true" for. */
  predicate Acceptable(s: string)
  {
    IsPerfectSquare(|s|) && forall k :: 0 <= k < |s| ==> InAlphabet(s[k], ISqrt(|s|))
  }

  /** An n×n matrix of values in 0..n. */
  predicate IsMatrix(m: seq<seq<int>>, n: nat)
  {
    |m| == n && forall i :: 0 <= i < n ==> |m[i]| == n && forall j :: 0 <= j < n ==> 0 <= m[i][j] <= n
  }

  /** `c - '0'` for every character of one row of text. */
  function Digits(s: string): (r: seq<int>)
    ensures |r| == |s| && forall k :: 0 <= k < |s| ==> r[k] == DigitOf(s[k])
  {
    seq(|s|, k requires 0 <= k < |s| => DigitOf(s[k]))
  }

  lemma RowsLength(rows: nat, n: nat)
    requires rows > 0
    ensures rows * n - n == (rows - 1) * n && rows * n >= n
  {
  }

  /** The first `rows` rows of n characters, read as digits. */
  function Chunks(s: string, n: nat, rows: nat): (m: seq<seq<int>>)
    requires |s| == rows * n
    ensures |m| == rows && forall i :: 0 <= i < rows ==> |m[i]| == n
  {
    if rows == 0 then []
    else
      RowsLength(rows, n);
      Chunks(s[..|s| - n], n, rows - 1) + [Digits(s[|s| - n..])]
  }

  /** The matrix `isValidBoard` reads out of an n*n character text. */
  function Matrix(s: string, n: nat): seq<seq<int>>
    requires |s| == n * n
  {
    Chunks(s, n, n)
  }

  /** Cell (i, j) of the matrix is the digit at offset i*n + j of the text. */
  lemma {:induction false} ChunksAt(s: string, n: nat, rows: nat, i: nat, j: nat)
    requires |s| == rows * n && i < rows && j < n
    ensures i * n + j < |s| && Chunks(s, n, rows)[i][j] == DigitOf(s[i * n + j])
  {
    RowsLength(rows, n);
    var p := s[..|s| - n];
    if i < rows - 1 {
      ChunksAt(p, n, rows - 1, i, j);
    } else {
      assert i * n == |s| - n;
    }
  }

  /** Offset k of an n*n text is cell (k / n, k % n) of its matrix. */
  lemma MatrixAt(s: string, n: nat, k: nat)
    requires |s| == n * n && k < |s|
    ensures 0 < n && k / n < n && k % n < n && (k / n) * n + k % n == k
    ensures Matrix(s, n)[k / n][k % n] == DigitOf(s[k])
  {
    QuotientBelow(k, n);
    Split(k, n);
    ChunksAt(s, n, n, k / n, k % n);
  }

  /** `(char)(v + '0')` for every value of one row. */
  function EncodeRow(r: seq<int>): (s: string)
    requires forall k :: 0 <= k < |r| ==> 0 <= r[k] && IsCharCode(r[k] + '0' as int)
    ensures |s| == |r| && Digits(s) == r
  {
    seq(|r|, k requires 0 <= k < |r| => CharOf(r[k]))
  }

  /** Values that can be written as a single character. */
  predicate Printable(m: seq<seq<int>>)
  {
    forall i, k :: 0 <= i < |m| && 0 <= k < |m[i]| ==> 0 <= m[i][k] && IsCharCode(m[i][k] + '0' as int)
  }

  /** `Board.ToString`: the rows' characters one after another. */
  function Encode(m: seq<seq<int>>): string
    requires Printable(m)
  {
    if |m| == 0 then "" else Encode(m[..|m| - 1]) + EncodeRow(m[|m| - 1])
  }

  /**
    `Board.ToString` writes size*size characters, and the one at offset i*n + j
    is `(char)(value + '0')` of cell (i, j).
  */
  lemma {:induction false} EncodeAt(m: seq<seq<int>>, n: nat, i: nat, j: nat)
    requires Printable(m) && (forall r :: 0 <= r < |m| ==> |m[r]| == n)
    requires i < |m| && j < n
    ensures |Encode(m)| == |m| * n && i * n + j < |Encode(m)|
    ensures Encode(m)[i * n + j] == CharOf(m[i][j])
  {
    var p := m[..|m| - 1];
    assert Printable(p);
    EncodeLength(p, n);
    RowsLength(|m|, n);
    if i < |m| - 1 {
      EncodeAt(p, n, i, j);
      assert p[i] == m[i];
      InnerBelowRows(i, j, n, |m| - 1);
    } else {
      assert i * n == |Encode(p)|;
    }
  }

  /** The text of |m| rows of n values has |m| * n characters. */
  lemma {:induction false} EncodeLength(m: seq<seq<int>>, n: nat)
    requires Printable(m) && (forall r :: 0 <= r < |m| ==> |m[r]| == n)
    ensures |Encode(m)| == |m| * n
  {
    if |m| > 0 {
      var p := m[..|m| - 1];
      assert Printable(p);
      EncodeLength(p, n);
      RowsLength(|m|, n);
    }
  }

  /** A cell of the first `rows` rows lies inside their text. */
  lemma InnerBelowRows(i: nat, j: nat, n: nat, rows: nat)
    requires i < rows && j < n
    ensures i * n + j < rows * n
  {
    MulLeft(n, i + 1, rows);
  }

  /**
    Decoding what `Board.ToString` wrote gives the matrix back, and every
    written character is one `isValidBoard` accepts on a board of side n.
  */
  lemma {:induction false} DecodeEncode(m: seq<seq<int>>, n: nat)
    requires forall i :: 0 <= i < |m| ==> |m[i]| == n && forall j :: 0 <= j < n ==> 0 <= m[i][j] <= n
    requires n + '0' as int < 0xD800
    ensures Printable(m) && |Encode(m)| == |m| * n
    ensures Chunks(Encode(m), n, |m|) == m
    ensures forall k :: 0 <= k < |Encode(m)| ==> InAlphabet(Encode(m)[k], n)
  {
    if |m| > 0 {
      var p := m[..|m| - 1];
      DecodeEncode(p, n);
      RowsLength(|m|, n);
      var e := Encode(m);
      var last := EncodeRow(m[|m| - 1]);
      assert e == Encode(p) + last;
      assert e[..|e| - n] == Encode(p);
      assert e[|e| - n..] == last;
      forall k | 0 <= k < |e|
        ensures InAlphabet(e[k], n)
      {
        if k >= |Encode(p)| {
          assert e[k] == last[k - |Encode(p)|];
          assert DigitOf(e[k]) == m[|m| - 1][k - |Encode(p)|];
        }
      }
    }
  }

  /**
    Round trip: for every text `isValidBoard` accepts, writing back the matrix
    it read gives the same text.
  */
  lemma {:induction false} EncodeChunks(s: string, n: nat, rows: nat)
    requires |s| == rows * n
    requires forall k :: 0 <= k < |s| ==> InAlphabet(s[k], n)
    ensures Printable(Chunks(s, n, rows))
    ensures Encode(Chunks(s, n, rows)) == s
  {
    if rows > 0 {
      RowsLength(rows, n);
      var p, last := s[..|s| - n], s[|s| - n..];
      EncodeChunks(p, n, rows - 1);
      var m := Chunks(s, n, rows);
      var row := m[rows - 1];
      forall k | 0 <= k < n
        ensures 0 <= row[k] && IsCharCode(row[k] + '0' as int)
      {
        assert row[k] + '0' as int == last[k] as int;
      }
      assert m[..rows - 1] == Chunks(p, n, rows - 1);
      var r := EncodeRow(row);
      forall k | 0 <= k < n
        ensures r[k] == last[k]
      {
        assert DigitOf(r[k]) == DigitOf(last[k]);
      }
      assert s == p + last;
    }
  }

  /** The round trip for a whole accepted text. */
  lemma EncodeMatrix(s: string)
    requires Acceptable(s)
    ensures Printable(Matrix(s, ISqrt(|s|)))
    ensures Encode(Matrix(s, ISqrt(|s|))) == s
  {
    EncodeChunks(s, ISqrt(|s|), ISqrt(|s|));
  }
}
