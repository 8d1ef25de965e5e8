/**
  Integer arithmetic of the board's shape: the integer square root that stands
  for `(int)Math.Sqrt(...)`, and the box number of a cell (`Cell.findBox`).
*/
module Geometry {

  /** ⌊√n⌋: the value `(int)Math.Sqrt(n)` yields for the sizes a board can have. */
  function ISqrt(n: nat): (r: nat)
    ensures r * r <= n < (r + 1) * (r + 1)
  {
    if n == 0 then 0
    else
      var s := ISqrt(n - 1);
      if (s + 1) * (s + 1) <= n then
        assert (s + 1) * (s + 1) < (s + 2) * (s + 2) by { SquareStrictMono(s + 1, s + 2); }
        s + 1
      else s
  }

  lemma SquareMono(a: nat, b: nat)
    requires a <= b
    ensures a * a <= b * b
  {
    assert a * a <= a * b by { MulLeft(a, a, b); }
    assert a * b <= b * b by { MulLeft(b, a, b); }
  }

  lemma SquareStrictMono(a: nat, b: nat)
    requires a < b
    ensures a * a < b * b
  {
    assert a * a <= a * b by { MulLeft(a, a, b); }
    assert a * b < b * b by { MulLeftStrict(b, a, b); }
  }

  lemma MulLeft(c: nat, a: nat, b: nat)
    requires a <= b
    ensures c * a <= c * b
  {
    assert c * b == c * a + c * (b - a);
  }

  lemma MulLeftStrict(c: nat, a: nat, b: nat)
    requires a < b && 0 < c
    ensures a * c < b * c
  {
    assert b * c == a * c + (b - a) * c;
    MulLeft(c, 1, b - a);
  }

  /** The square root of a square is its side, so ISqrt(n) is the k of n == k*k. */
  lemma {:induction false} ISqrtOfSquare(k: nat)
    ensures ISqrt(k * k) == k
  {
    var r := ISqrt(k * k);
    if r < k {
      SquareMono(r + 1, k);
    } else if r > k {
      SquareStrictMono(k, r);
    }
  }

  /** n is a perfect square exactly when the square of its integer root gives n back. */
  lemma PerfectSquareIff(n: nat)
    ensures ISqrt(n) * ISqrt(n) == n <==> exists k: nat :: k * k == n
  {
    if exists k: nat :: k * k == n {
      var k: nat :| k * k == n;
      ISqrtOfSquare(k);
    }
  }

  /** Quotient and remainder are determined by a == q*b + r with 0 <= r < b. */
  lemma DivModUnique(a: nat, b: nat, q: nat, r: nat)
    requires b > 0 && r < b && a == q * b + r
    ensures a / b == q && a % b == r
  {
    var q', r' := a / b, a % b;
    assert a == q' * b + r';
    if q' < q {
      var m := q - q';
      assert q * b == q' * b + m * b;
      MulLeft(b, 1, m);
    } else if q < q' {
      var m := q' - q;
      assert q' * b == q * b + m * b;
      MulLeft(b, 1, m);
    }
  }

  /** For x < k*k the quotient x / k is a valid block coordinate below k. */
  lemma QuotientBelow(x: nat, k: nat)
    requires 0 < k && x < k * k
    ensures x / k < k
  {
  }

  lemma Expand(q: nat, k: nat, s: nat, t: nat)
    ensures (q * k + s) * k + t == q * (k * k) + (s * k + t)
  {
  }

  lemma InnerBelow(s: nat, t: nat, k: nat)
    requires s < k && t < k
    ensures s * k + t < k * k
  {
    MulLeft(k, s, k - 1);
    assert k * (k - 1) == k * k - k;
  }

  lemma DivNat(a: nat, b: nat)
    requires b > 0
    ensures a / b >= 0
  {
  }

  /** x is its block coordinate times k plus its offset in the block. */
  lemma Split(x: nat, k: nat)
    requires 0 < k
    ensures x == (x / k) * k + x % k && x % k < k
  {
  }

  /** The quotient `findBox` takes by k*k is the block row of the cell. */
  lemma BoxRowArithmetic(k: nat, row: nat, t: nat)
    requires 0 < k && row < k * k && t < k
    ensures (row * k + t) / (k * k) == row / k
  {
    var q, s := row / k, row % k;
    Split(row, k);
    Expand(q, k, s, t);
    InnerBelow(s, t, k);
    MulLeft(k, 1, k);
    DivModUnique(row * k + t, k * k, q, s * k + t);
  }

  /** Adding an offset below k to a multiple of k leaves that offset as remainder. */
  lemma OffsetRemainder(k: nat, row: nat, t: nat)
    requires 0 < k && t < k
    ensures (row * k + t) % k == t
  {
    DivModUnique(row * k + t, k, row, t);
  }

  /** Block row times k plus block column stays below k*k. */
  lemma BlockBelow(k: nat, row: nat, t: nat)
    requires 0 < k && row < k * k && t < k
    ensures (row / k) * k + t < k * k
  {
    QuotientBelow(row, k);
    InnerBelow(row / k, t, k);
  }

  /** The arithmetic that `findBox` performs collapses to the block formula. */
  lemma BoxArithmetic(k: nat, row: nat, col: nat)
    requires 0 < k && row < k * k && col < k * k
    ensures (row * k + col / k) / (k * k) == row / k
    ensures (row * k + col / k) % k == col / k
    ensures (row / k) * k + col / k < k * k
  {
    var t := col / k;
    QuotientBelow(col, k);
    BoxRowArithmetic(k, row, t);
    OffsetRemainder(k, row, t);
    BlockBelow(k, row, t);
  }

  lemma MulNat(a: nat, b: nat)
    ensures a * b >= 0
  {
  }

  /** The body of `findBox` once k = ⌊√size⌋ is known. */
  function BoxOf(k: nat, row: nat, col: nat): nat
    requires 0 < k
  {
    MulNat(row, k);
    var index: nat := row * k + col / k;
    MulNat(k, k);
    assert k * k > 0 by { MulLeft(k, 1, k); }
    DivNat(index, k * k);
    var rows: nat := index / (k * k);
    var columns := index % k;
    MulNat(rows, k);
    columns + rows * k
  }

  /**
    The box number of cell (row, col) on a board of the given size, computed as
    `Cell.findBox` does. On a board whose size is k*k it is the block row times k
    plus the block column.
  */
  function FindBox(size: nat, row: nat, col: nat): (box: nat)
    requires row < size && col < size
    ensures ISqrt(size) * ISqrt(size) == size ==> box < size
  {
    var k := ISqrt(size);
    assert k > 0;
    if k * k == size then
      BoxArithmetic(k, row, col);
      BoxOf(k, row, col)
    else
      BoxOf(k, row, col)
  }

  /** On a board of side k*k, `findBox` is the block row times k plus the block column. */
  lemma FindBoxIsBlock(size: nat, row: nat, col: nat)
    requires ISqrt(size) * ISqrt(size) == size && row < size && col < size
    ensures FindBox(size, row, col) == (row / ISqrt(size)) * ISqrt(size) + col / ISqrt(size)
  {
    BoxArithmetic(ISqrt(size), row, col);
  }

  /** Two cells share a box exactly when they lie in the same block row and block column. */
  lemma SameBoxIff(size: nat, a: nat, b: nat, c: nat, d: nat)
    requires ISqrt(size) * ISqrt(size) == size
    requires a < size && b < size && c < size && d < size
    ensures FindBox(size, a, b) == FindBox(size, c, d) <==>
              a / ISqrt(size) == c / ISqrt(size) && b / ISqrt(size) == d / ISqrt(size)
  {
    var k := ISqrt(size);
    FindBoxIsBlock(size, a, b);
    FindBoxIsBlock(size, c, d);
    if FindBox(size, a, b) == FindBox(size, c, d) {
      BlockOfBox(size, a, b);
      BlockOfBox(size, c, d);
    }
  }

  /** The box number determines the block: block row = box / k, block column = box % k. */
  lemma BlockOfBox(size: nat, row: nat, col: nat)
    requires ISqrt(size) * ISqrt(size) == size
    requires row < size && col < size
    ensures FindBox(size, row, col) / ISqrt(size) == row / ISqrt(size)
    ensures FindBox(size, row, col) % ISqrt(size) == col / ISqrt(size)
  {
    var k := ISqrt(size);
    QuotientBelow(col, k);
    FindBoxIsBlock(size, row, col);
    var q, t := row / k, col / k;
    DivModUnique(q * k + t, k, q, t);
  }

  /**
    Boxes are numbered row-major over the k×k blocks: every cell of block
    (br, bc) lies in box br*k + bc, so the top-left block is box 0.
  */
  lemma BoxNumbering(size: nat, br: nat, bc: nat, x: nat, y: nat)
    requires ISqrt(size) * ISqrt(size) == size
    requires br < ISqrt(size) && bc < ISqrt(size) && x < ISqrt(size) && y < ISqrt(size)
    ensures br * ISqrt(size) + x < size && bc * ISqrt(size) + y < size
    ensures FindBox(size, br * ISqrt(size) + x, bc * ISqrt(size) + y) == br * ISqrt(size) + bc
  {
    var k := ISqrt(size);
    InnerBelow(br, x, k);
    InnerBelow(bc, y, k);
    FindBoxIsBlock(size, br * k + x, bc * k + y);
    DivModUnique(br * k + x, k, br, x);
    DivModUnique(bc * k + y, k, bc, y);
  }
}
