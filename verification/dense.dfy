/** Dense integer linear algebra on flat row-major sequences: the dot
    product, rows, the matrix-vector product that both programs compute, and
    the sequential reference check (`comprueba`, `compruebaSum`) each program
    runs on the coordinator.  The source uses `long`; here every value is an
    unbounded `int`. */
module Dense {
  import opened Arith

  /** Sum of the entries, accumulated from the first to the last. */
  function Sum(s: seq<int>): int
  {
    if |s| == 0 then 0 else Sum(s[..|s| - 1]) + s[|s| - 1]
  }

  /** The dot product, accumulated from index 0 upwards as the source's inner
      loops do. */
  function Dot(u: seq<int>, v: seq<int>): int
    requires |u| == |v|
  {
    if |u| == 0 then 0 else Dot(u[..|u| - 1], v[..|v| - 1]) + u[|u| - 1] * v[|v| - 1]
  }

  /** Row `i` of a `rows`×`cols` row-major matrix. */
  function Row(m: seq<int>, rows: nat, cols: nat, i: nat): (row: seq<int>)
    requires |m| == rows * cols && i < rows
    ensures |row| == cols
  {
    RowFits(i, rows, cols);
    m[i * cols..i * cols + cols]
  }

  /** Entry `j` of row `i` is the element at row-major index `i * cols + j`. */
  lemma RowEntry(m: seq<int>, rows: nat, cols: nat, i: nat, j: nat)
    requires |m| == rows * cols && i < rows && j < cols
    ensures 0 <= i * cols + j < |m|
    ensures Row(m, rows, cols, i)[j] == m[i * cols + j]
  {
    RowFits(i, rows, cols);
  }

  /** The product of a `rows`×`cols` row-major matrix and a vector: entry `i`
      is the dot product of row `i` with the vector. */
  function MatVec(m: seq<int>, x: seq<int>, rows: nat, cols: nat): (y: seq<int>)
    requires |m| == rows * cols && |x| == cols
    ensures |y| == rows
  {
    seq(rows, i requires 0 <= i < rows => Dot(Row(m, rows, cols, i), x))
  }

  /** Extending both prefixes by one position adds one product. */
  lemma DotSnoc(u: seq<int>, v: seq<int>, j: nat)
    requires |u| == |v| && j < |u|
    ensures Dot(u[..j + 1], v[..j + 1]) == Dot(u[..j], v[..j]) + u[j] * v[j]
  {
    assert u[..j + 1][..j] == u[..j];
    assert v[..j + 1][..j] == v[..j];
  }

  /** Appending one entry adds it to the sum. */
  lemma SumSnoc(s: seq<int>, e: int)
    ensures Sum(s + [e]) == Sum(s) + e
  {
    assert (s + [e])[..|s|] == s;
  }

  /** The dot product is linear in the products: it equals the sum of the
      elementwise products. */
  lemma {:induction false} DotIsSumOfProducts(u: seq<int>, v: seq<int>)
    requires |u| == |v|
    ensures Dot(u, v) == Sum(seq(|u|, j requires 0 <= j < |u| => u[j] * v[j]))
  {
    var ps := seq(|u|, j requires 0 <= j < |u| => u[j] * v[j]);
    if |u| > 0 {
      var k := |u| - 1;
      DotIsSumOfProducts(u[..k], v[..k]);
      assert ps[..k] == seq(k, j requires 0 <= j < k => u[..k][j] * v[..k][j]);
    }
  }

  /** The inner loop at row `i`: `acc` accumulates `a[i * n + j] * x[j]`
      for `j` from 0 to `n - 1`. */
  method RowDot(a: seq<int>, x: seq<int>, rows: nat, n: nat, i: nat) returns (acc: int)
    requires |a| == rows * n && |x| == n && i < rows
    ensures acc == Dot(Row(a, rows, n, i), x)
  {
    var row := Row(a, rows, n, i);
    acc := 0;
    var j := 0;
    while j < n
      invariant 0 <= j <= n
      invariant acc == Dot(row[..j], x[..j])
    {
      RowEntry(a, rows, n, i, j);
      DotSnoc(row, x, j);
      acc := acc + a[i * n + j] * x[j];
      j := j + 1;
    }
    assert row[..n] == row && x[..n] == x;
  }

  /** The 1-D program's sequential check: one double loop fills `comprueba`
      row by row and adds every product `A[i][j] * x[j]` into
      `compruebaSum` as it goes. */
  method SequentialCheck1D(a: seq<int>, x: seq<int>, n: nat) returns (comprueba: seq<int>, compruebaSum: int)
    requires |a| == n * n && |x| == n
    ensures comprueba == MatVec(a, x, n, n)
    ensures compruebaSum == Sum(comprueba)
  {
    comprueba := [];
    compruebaSum := 0;
    var i := 0;
    while i < n
      invariant 0 <= i <= n
      invariant |comprueba| == i
      invariant forall k :: 0 <= k < i ==> comprueba[k] == Dot(Row(a, n, n, k), x)
      invariant compruebaSum == Sum(comprueba)
    {
      var row := Row(a, n, n, i);
      var acc := 0;
      var j := 0;
      while j < n
        invariant 0 <= j <= n
        invariant acc == Dot(row[..j], x[..j])
        invariant compruebaSum == Sum(comprueba) + acc
      {
        RowEntry(a, n, n, i, j);
        DotSnoc(row, x, j);
        acc := acc + a[i * n + j] * x[j];
        compruebaSum := compruebaSum + a[i * n + j] * x[j];
        j := j + 1;
      }
      assert row[..n] == row && x[..n] == x;
      SumSnoc(comprueba, acc);
      comprueba := comprueba + [acc];
      i := i + 1;
    }
  }

  /** The 2-D program's sequential check: the double loop fills `comprueba`,
      then a second loop sums its entries into `compruebaSum`. */
  method SequentialCheck2D(a: seq<int>, x: seq<int>, n: nat) returns (comprueba: seq<int>, compruebaSum: int)
    requires |a| == n * n && |x| == n
    ensures comprueba == MatVec(a, x, n, n)
    ensures compruebaSum == Sum(comprueba)
  {
    comprueba := [];
    var i := 0;
    while i < n
      invariant 0 <= i <= n
      invariant |comprueba| == i
      invariant forall k :: 0 <= k < i ==> comprueba[k] == Dot(Row(a, n, n, k), x)
    {
      var acc := RowDot(a, x, n, n, i);
      comprueba := comprueba + [acc];
      i := i + 1;
    }
    compruebaSum := 0;
    i := 0;
    while i < n
      invariant 0 <= i <= n
      invariant compruebaSum == Sum(comprueba[..i])
    {
      assert comprueba[..i + 1] == comprueba[..i] + [comprueba[i]];
      SumSnoc(comprueba[..i], comprueba[i]);
      compruebaSum := compruebaSum + comprueba[i];
      i := i + 1;
    }
    assert comprueba[..n] == comprueba;
  }

  /** Sums over consecutive parts add up. */
  lemma {:induction false} SumAppend(s: seq<int>, t: seq<int>)
    ensures Sum(s + t) == Sum(s) + Sum(t)
  {
    if |t| > 0 {
      var k := |t| - 1;
      SumAppend(s, t[..k]);
      assert (s + t)[..|s + t| - 1] == s + t[..k];
      assert (s + t)[|s + t| - 1] == t[k];
    } else {
      assert s + t == s;
    }
  }

  /** Every product `A[i][j] * x[j]` of the double loop, listed in the
      row-major order of the flat matrix: entry `k` pairs `A[k / n][k % n]`
      with `x[k % n]`. */
  function AllProducts(a: seq<int>, x: seq<int>, n: nat): (ps: seq<int>)
    requires |a| == n * n && |x| == n
  {
    seq(n * n, k requires 0 <= k < n * n => a[k] * x[k % n])
  }

  /** Both programs' `compruebaSum` is the total of every product
      `A[i][j] * x[j]`: the entries of the reference product add up to the
      sum of all `n * n` products. */
  lemma ReferenceSumIsTotalOfProducts(a: seq<int>, x: seq<int>, n: nat)
    requires |a| == n * n && |x| == n
    ensures Sum(MatVec(a, x, n, n)) == Sum(AllProducts(a, x, n))
  {
    var y, ps := MatVec(a, x, n, n), AllProducts(a, x, n);
    forall r | 0 <= r < n
      ensures r * n + n <= |ps| && Sum(ps[r * n..r * n + n]) == y[r]
    {
      RowProductsSum(a, x, n, r);
    }
    BlockSums(y, ps, n, n);
    assert y[..n] == y;
    assert ps[..n * n] == ps;
  }

  /** The products of row `r` sit in one contiguous run of `AllProducts`. */
  lemma RowProductsRun(a: seq<int>, x: seq<int>, n: nat, r: nat)
    requires |a| == n * n && |x| == n && r < n
    ensures r * n + n <= n * n
    ensures AllProducts(a, x, n)[r * n..r * n + n]
         == seq(n, j requires 0 <= j < n => Row(a, n, n, r)[j] * x[j])
  {
    RowFits(r, n, n);
    var ps := AllProducts(a, x, n);
    var start := r * n;
    forall j | 0 <= j < n
      ensures ps[start + j] == Row(a, n, n, r)[j] * x[j]
    {
      RowEntry(a, n, n, r, j);
      DivModUnique(start + j, n, r, j);
    }
  }

  /** A prefix sum splits at any intermediate point. */
  lemma PrefixSumSplit(s: seq<int>, i: nat, j: nat)
    requires i <= j <= |s|
    ensures Sum(s[..j]) == Sum(s[..i]) + Sum(s[i..j])
  {
    assert s[..j] == s[..i] + s[i..j];
    SumAppend(s[..i], s[i..j]);
  }

  /** The products of row `r` add up to reference entry `r`. */
  lemma RowProductsSum(a: seq<int>, x: seq<int>, n: nat, r: nat)
    requires |a| == n * n && |x| == n && r < n
    ensures r * n + n <= n * n
    ensures Sum(AllProducts(a, x, n)[r * n..r * n + n]) == MatVec(a, x, n, n)[r]
  {
    RowProductsRun(a, x, n, r);
    DotIsSumOfProducts(Row(a, n, n, r), x);
  }

  /** When `ps` is cut into runs of `n` and run `r` adds up to `y[r]`, the
      first `rows` entries of `y` add up to the first `rows` runs. */
  lemma {:induction false} BlockSums(y: seq<int>, ps: seq<int>, n: nat, rows: nat)
    requires |ps| == |y| * n && rows <= |y|
    requires forall r :: 0 <= r < |y| ==> r * n + n <= |ps| && Sum(ps[r * n..r * n + n]) == y[r]
    ensures rows * n <= |ps|
    ensures Sum(y[..rows]) == Sum(ps[..rows * n])
  {
    MulLeq(rows, |y|, n);
    if rows > 0 {
      var r := rows - 1;
      var start, end := r * n, rows * n;
      MulSucc(r, n);
      assert end == start + n;
      BlockSums(y, ps, n, r);
      PrefixSumSplit(ps, start, end);
      assert y[..rows] == y[..r] + [y[r]];
      SumSnoc(y[..r], y[r]);
    }
  }

  /** A dot product of length four, written out. */
  lemma DotOfFour(u: seq<int>, v: seq<int>)
    requires |u| == |v| == 4
    ensures Dot(u, v) == u[0] * v[0] + u[1] * v[1] + u[2] * v[2] + u[3] * v[3]
  {
    DotSnoc(u, v, 0);
    DotSnoc(u, v, 1);
    DotSnoc(u, v, 2);
    DotSnoc(u, v, 3);
    assert u[..4] == u && v[..4] == v;
  }

  /** Row `i` of the 4×4 matrix holding 1 .. 16 row by row, times the
      all-ones vector, is `16 * i + 10`. */
  lemma CountingMatrixRow(a: seq<int>, x: seq<int>, i: nat)
    requires |a| == 16 && |x| == 4 && i < 4
    requires forall k :: 0 <= k < 16 ==> a[k] == k + 1
    requires forall j :: 0 <= j < 4 ==> x[j] == 1
    ensures MatVec(a, x, 4, 4)[i] == 16 * i + 10
  {
    var row := Row(a, 4, 4, i);
    DotOfFour(row, x);
    RowEntry(a, 4, 4, i, 0);
    RowEntry(a, 4, 4, i, 1);
    RowEntry(a, 4, 4, i, 2);
    RowEntry(a, 4, 4, i, 3);
  }

  /** The 4×4 case: the matrix holding 1 .. 16 row by row, times the
      all-ones vector, is [10, 26, 42, 58]. */
  lemma ReferenceExample()
    ensures MatVec([1, 2, 3, 4, 5, 6, 7, 8, 9, 10, 11, 12, 13, 14, 15, 16], [1, 1, 1, 1], 4, 4)
         == [10, 26, 42, 58]
  {
    var a, x := [1, 2, 3, 4, 5, 6, 7, 8, 9, 10, 11, 12, 13, 14, 15, 16], [1, 1, 1, 1];
    var y := MatVec(a, x, 4, 4);
    CountingMatrixRow(a, x, 0);
    CountingMatrixRow(a, x, 1);
    CountingMatrixRow(a, x, 2);
    CountingMatrixRow(a, x, 3);
    assert y == [y[0], y[1], y[2], y[3]];
  }
}
