/** Small facts about integer multiplication, division and remainder that the
    index arithmetic of both decompositions relies on.  Z3 handles linear
    arithmetic on its own; these lemmas supply the non-linear steps. */
module Arith {

  /** The largest value of a 32-bit `int`, the type of the counts, offsets
      and sizes both programs compute. */
  const IntMax: int := 0x7fff_ffff

  /** Multiplication by a non-negative factor is monotone. */
  lemma MulLeq(a: int, b: int, c: int)
    requires a <= b && 0 <= c
    ensures a * c <= b * c
  {
    assert b * c - a * c == (b - a) * c;
  }

  /** Squaring is monotone on non-negative numbers. */
  lemma SquareMono(a: int, b: int)
    requires 0 <= a <= b
    ensures a * a <= b * b
  {
    MulLeq(a, b, a);
    MulLeq(a, b, b);
  }

  /** The next square. */
  lemma SquareSucc(a: int)
    ensures (a + 1) * (a + 1) == a * a + 2 * a + 1
  {
  }

  /** One more row adds one row length. */
  lemma MulSucc(a: int, c: int)
    ensures (a + 1) * c == a * c + c
  {
  }

  /** Multiplication distributes over addition on the left factor. */
  lemma MulAddRight(a: int, b: int, c: int)
    ensures (a + b) * c == a * c + b * c
  {
  }

  /** Row `i` of a `rows`×`cols` row-major matrix ends inside the matrix. */
  lemma RowFits(i: int, rows: int, cols: int)
    requires 0 <= i < rows && 0 <= cols
    ensures 0 <= i * cols
    ensures i * cols + cols <= rows * cols
  {
    MulLeq(0, i, cols);
    MulLeq(i + 1, rows, cols);
  }

  /** The row-major index of an in-range element is in range. */
  lemma RowMajorBound(i: int, j: int, rows: int, cols: int)
    requires 0 <= i < rows && 0 <= j < cols
    ensures 0 <= i * cols + j < rows * cols
  {
    RowFits(i, rows, cols);
  }

  /** Division and remainder are determined by any decomposition whose
      remainder lies in `[0, d)`. */
  lemma DivModUnique(x: int, d: int, q: int, r: int)
    requires 0 < d && 0 <= r < d && x == q * d + r
    ensures x / d == q && x % d == r
  {
    var q', r' := x / d, x % d;
    assert x == q' * d + r';
    if q' < q {
      MulLeq(q' + 1, q, d);
      assert false;
    } else if q < q' {
      MulLeq(q + 1, q', d);
      assert false;
    }
  }

  /** Euclidean division of a non-negative number by a positive one. */
  lemma DivMod(k: int, d: int)
    requires 0 <= k && 0 < d
    ensures 0 <= k / d && 0 <= k % d < d && k == (k / d) * d + k % d
  {
  }

  /** The quotient of a non-negative number by a positive one is at most the
      number, and it is zero exactly when the number is below the divisor. */
  lemma DivBounds(k: int, d: int)
    requires 0 <= k && 0 < d
    ensures k / d <= k
    ensures k / d == 0 <==> k < d
  {
    var q := k / d;
    DivMod(k, d);
    MulLeq(1, d, q);
    if k < d {
      DivModUnique(k, d, 0, k);
    }
  }

  /** An index below `rows * cols` splits into an in-range row and column. */
  lemma SplitIndex(k: int, rows: int, cols: int)
    requires 0 <= k < rows * cols && 0 < cols
    ensures 0 <= k / cols < rows && 0 <= k % cols < cols
    ensures k == (k / cols) * cols + k % cols
  {
    if rows <= k / cols {
      MulLeq(rows, k / cols, cols);
      assert false;
    }
  }

  /** The row of an index below `rows * cols` is below `rows`. */
  lemma RowBelow(k: int, rows: int, cols: int)
    requires 0 <= k && 0 < cols
    ensures k < rows * cols ==> k / cols < rows
  {
    if k < rows * cols {
      SplitIndex(k, rows, cols);
    }
  }
}
