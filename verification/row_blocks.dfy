/** The row-block decomposition of `matriz_x_vector.cpp`.  With `P` workers
    and an `n`×`n` matrix, every worker gets `n / P` consecutive rows and the
    last one also takes the remainder.  The coordinator sends each worker its
    rows with MPI_Scatterv, every worker multiplies them by the broadcast
    vector, and MPI_Gatherv collects the partial results into `y`.  Here the
    collectives are sequence slicing and placement at offsets. */
module RowBlocks {
  import opened Arith
  import opened Seqs
  import opened Dense

  /** `nFilas`: the rows given to every worker but the last. */
  function RowsEach(n: nat, workers: nat): (rows: nat)
    requires 0 < workers
    ensures rows <= n
    ensures rows == 0 <==> n < workers
  {
    DivBounds(n, workers);
    n / workers
  }

  /** `filasUltimo`: what is left for the last worker once the other
      `workers - 1` have their `nFilas` rows, i.e. `nFilas` plus the
      remainder of `n / workers`. */
  function RowsLast(n: nat, workers: nat): (rows: nat)
    requires 0 < workers
    ensures rows == n / workers + n % workers
    ensures (workers - 1) * RowsEach(n, workers) + rows == n
  {
    MulSucc(workers - 1, n / workers);
    n - (workers - 1) * RowsEach(n, workers)
  }

  /** Rows held by worker `p`: the last worker's count is replaced by
      `filasUltimo`, every other worker keeps `nFilas`. */
  function RowsOf(n: nat, workers: nat, p: nat): (rows: nat)
    requires p < workers
    ensures RowsEach(n, workers) <= rows < RowsEach(n, workers) + workers
  {
    if p == workers - 1 then RowsLast(n, workers) else RowsEach(n, workers)
  }

  /** `elementosPorProcesador`: matrix entries sent to each worker. */
  function SendCounts(n: nat, workers: nat): (counts: seq<int>)
    requires 0 < workers
    ensures |counts| == workers
  {
    seq(workers, i requires 0 <= i < workers =>
      if i < workers - 1 then RowsEach(n, workers) * n else RowsLast(n, workers) * n)
  }

  /** `displenv`: offset in the flat matrix of each worker's first entry. */
  function SendDispls(n: nat, workers: nat): (displs: seq<int>)
    requires 0 < workers
    ensures |displs| == workers
  {
    seq(workers, i requires 0 <= i < workers => i * RowsEach(n, workers) * n)
  }

  /** `displrecv`: offset in `y` of each worker's first result entry. */
  function RecvDispls(n: nat, workers: nat): (displs: seq<int>)
    requires 0 < workers
    ensures |displs| == workers
  {
    seq(workers, i requires 0 <= i < workers => i * RowsEach(n, workers))
  }

  /** Receive counts for the gather: the number of result entries each worker
      actually sends back, one per row it holds. */
  function RecvCounts(n: nat, workers: nat): (counts: seq<int>)
    requires 0 < workers
    ensures |counts| == workers
  {
    seq(workers, i requires 0 <= i < workers => RowsOf(n, workers, i))
  }

  /** The receive counts the gather is given in the source: the scatter's
      `elementosPorProcesador`, i.e. rows × n per worker. */
  function RecvCountsAsWritten(n: nat, workers: nat): (counts: seq<int>)
    requires 0 < workers
    ensures |counts| == workers
  {
    SendCounts(n, workers)
  }

  // ---------------------------------------------------------------------------
  // The row pointers of `A`

  /** `A = new long *[nElem]`: the row-pointer array gets `nFilas * n` slots,
      computed before the last worker's adjustment. */
  function RowPointerSlotsAsWritten(n: nat, workers: nat): nat
    requires 0 < workers
  {
    RowsEach(n, workers) * n
  }

  /** The coordinator stores `A[0]` and then `A[1] .. A[n - 1]`. */
  function RowPointerWrites(n: nat): nat
  {
    if n == 0 then 1 else n
  }

  /** The row-pointer array as written is too short for the pointers the
      coordinator stores exactly when there are fewer rows than workers,
      `n = 0` included: then `nFilas = 0` and the array has no slot. */
  lemma AsWrittenRowPointersTooShort(n: nat, workers: nat)
    requires 0 < workers
    ensures RowPointerSlotsAsWritten(n, workers) < RowPointerWrites(n) <==> n < workers
  {
    var q := RowsEach(n, workers);
    if n < workers {
      DivModUnique(n, workers, 0, n);
    } else {
      DivMod(n, workers);
      assert q >= 1;
      MulLeq(1, q, n);
    }
  }

  /** The row pointers as offsets into the `n * n` buffer: `A[0]` at its
      start and `A[i] = A[i - 1] + n`; the first `m` of them. */
  function RowPointers(n: nat, m: nat): (ptrs: seq<int>)
    ensures |ptrs| == m
  {
    if m == 0 then []
    else if m == 1 then [0]
    else
      var prev := RowPointers(n, m - 1);
      prev + [prev[m - 2] + n]
  }

  /** Pointer `i` is `i * n`, the start of row `i`. */
  lemma {:induction false} RowPointerIsRowStart(n: nat, m: nat, i: nat)
    requires i < m
    ensures RowPointers(n, m)[i] == i * n
  {
    if i < m - 1 {
      RowPointerIsRowStart(n, m - 1, i);
    } else if i > 0 {
      RowPointerIsRowStart(n, m - 1, i - 1);
      MulSucc(i - 1, n);
    }
  }

  /** With `n` row pointers, every row `i < n` has its slot, and `A[i][j]` is
      entry `j` of row `i` of the flat matrix, the layout the rest of the
      model works on. */
  lemma RowPointersAddressRows(a: seq<int>, n: nat, i: nat, j: nat)
    requires |a| == n * n && i < n && j < n
    ensures i < |RowPointers(n, n)|
    ensures 0 <= RowPointers(n, n)[i] + j < |a|
    ensures a[RowPointers(n, n)[i] + j] == Row(a, n, n, i)[j]
  {
    RowPointerIsRowStart(n, n, i);
    RowEntry(a, n, n, i, j);
  }

  // ---------------------------------------------------------------------------
  // Counts and displacements

  /** While `n * n` fits in an `int`, so do the counts and offsets the
      coordinator computes: `nElem`, `elementosPorProcesador[p]`,
      `displenv[p]` and the end of each send region. */
  lemma OffsetsFitInt(n: nat, workers: nat, p: nat)
    requires p < workers && n * n <= IntMax
    ensures RowsEach(n, workers) * n <= IntMax
    ensures 0 <= SendDispls(n, workers)[p] && 0 <= SendCounts(n, workers)[p]
    ensures SendDispls(n, workers)[p] + SendCounts(n, workers)[p] <= IntMax
  {
    SendRegionInMatrix(n, workers, p);
    DivMod(n, workers);
    MulLeq(RowsEach(n, workers), n, n);
  }

  /** The last worker's share is `nFilas` plus fewer than `workers` extra rows,
      so no worker holds more rows than the last one. */
  lemma LastWorkerHoldsMost(n: nat, workers: nat, p: nat)
    requires p < workers
    ensures RowsOf(n, workers, p) <= RowsLast(n, workers)
    ensures RowsLast(n, workers) - RowsEach(n, workers) == n % workers < workers
  {
  }

  /** Every worker's send count is its row count times the row length, which
      is also the `nElem` its receive buffer `misFilas` is sized for. */
  lemma SendCountIsRowsTimesLength(n: nat, workers: nat, p: nat)
    requires p < workers
    ensures SendCounts(n, workers)[p] == RowsOf(n, workers, p) * n
  {
  }

  /** Prefix sums of the send counts: the first `m` workers other than the last
      together receive `m * nFilas * n` entries, which is the `m`-th send
      displacement. */
  lemma {:induction false} SendCountsPrefix(n: nat, workers: nat, m: nat)
    requires 0 < workers && m < workers
    ensures Sum(SendCounts(n, workers)[..m]) == SendDispls(n, workers)[m]
  {
    var counts := SendCounts(n, workers);
    var q := RowsEach(n, workers);
    if m > 0 {
      SendCountsPrefix(n, workers, m - 1);
      assert counts[..m] == counts[..m - 1] + [counts[m - 1]];
      SumSnoc(counts[..m - 1], counts[m - 1]);
      MulSucc(m - 1, q);
      MulAddRight((m - 1) * q, q, n);
    }
  }

  /** The send regions start at 0, follow each other without gap or overlap,
      and the last one ends at the end of the `n * n` matrix; each region's
      offset is the sum of the counts before it. */
  lemma SendRegionsContiguous(n: nat, workers: nat)
    requires 0 < workers
    ensures SendDispls(n, workers)[0] == 0
    ensures forall i :: 0 <= i < workers - 1 ==>
      SendDispls(n, workers)[i] + SendCounts(n, workers)[i] == SendDispls(n, workers)[i + 1]
    ensures SendDispls(n, workers)[workers - 1] + SendCounts(n, workers)[workers - 1] == n * n
    ensures forall i :: 0 <= i < workers ==> SendDispls(n, workers)[i] == Sum(SendCounts(n, workers)[..i])
  {
    var q := RowsEach(n, workers);
    forall i | 0 <= i < workers - 1
      ensures SendDispls(n, workers)[i] + SendCounts(n, workers)[i] == SendDispls(n, workers)[i + 1]
    {
      NextSendDispl(n, workers, i);
    }
    forall i | 0 <= i < workers
      ensures SendDispls(n, workers)[i] == Sum(SendCounts(n, workers)[..i])
    {
      SendCountsPrefix(n, workers, i);
    }
    LastRegionEndsAtMatrixEnd(n, workers);
  }

  /** The last send region ends exactly at `n * n`. */
  lemma LastRegionEndsAtMatrixEnd(n: nat, workers: nat)
    requires 0 < workers
    ensures SendDispls(n, workers)[workers - 1] + SendCounts(n, workers)[workers - 1] == n * n
  {
    var q := RowsEach(n, workers);
    var last := workers - 1;
    MulAddRight(last * q, RowsLast(n, workers), n);
    assert last * q + RowsLast(n, workers) == n;
  }

  /** The per-worker element counts add up to the whole matrix:
      `(P - 1) * nFilas * n + filasUltimo * n == n * n`. */
  lemma SendCountsCoverMatrix(n: nat, workers: nat)
    requires 0 < workers
    ensures Sum(SendCounts(n, workers)) == n * n
  {
    var counts := SendCounts(n, workers);
    var last := workers - 1;
    SendCountsPrefix(n, workers, last);
    assert counts == counts[..last] + [counts[last]];
    SumSnoc(counts[..last], counts[last]);
    LastRegionEndsAtMatrixEnd(n, workers);
  }

  /** The local loop of worker `p` reads `misFilas[i * n + j]` for `i` below its
      row count and `j < n`; that index is inside its `nElem` entries, which is
      exactly the count the coordinator sends it. */
  lemma LocalIndexInBounds(n: nat, workers: nat, p: nat, i: nat, j: nat)
    requires p < workers && i < RowsOf(n, workers, p) && j < n
    ensures i * n + j < RowsOf(n, workers, p) * n == SendCounts(n, workers)[p]
  {
    RowMajorBound(i, j, RowsOf(n, workers, p), n);
  }

  // ---------------------------------------------------------------------------
  // Result regions

  /** The worker whose result rows include global row `k`. */
  function Owner(n: nat, workers: nat, k: nat): (p: nat)
    requires 0 < workers && k < n
    ensures p < workers
    ensures RecvDispls(n, workers)[p] <= k < RecvDispls(n, workers)[p] + RecvCounts(n, workers)[p]
  {
    var q := RowsEach(n, workers);
    var p := if q == 0 || workers - 1 <= k / q then workers - 1 else k / q;
    OwnerWindow(n, workers, k, p);
    p
  }

  /** The rank `Owner` picks has row `k` in its result region. */
  lemma OwnerWindow(n: nat, workers: nat, k: nat, p: nat)
    requires 0 < workers && k < n
    requires var q := RowsEach(n, workers);
      p == if q == 0 || workers - 1 <= k / q then workers - 1 else k / q
    ensures p < workers
    ensures RecvDispls(n, workers)[p] <= k < RecvDispls(n, workers)[p] + RecvCounts(n, workers)[p]
  {
    var q := RowsEach(n, workers);
    var last := RowsLast(n, workers);
    if q == 0 {
      assert p * q == 0;
    } else {
      var d := k / q;
      DivMod(k, q);
      if p == d {
        MulSucc(d, q);
      } else {
        MulLeq(p, d, q);
      }
    }
  }

  /** Each result region lies inside the `n` entries of `y`. */
  lemma ResultRegionsInRange(n: nat, workers: nat, p: nat)
    requires p < workers
    ensures 0 <= RecvDispls(n, workers)[p]
    ensures RecvDispls(n, workers)[p] + RecvCounts(n, workers)[p] <= n
  {
    var q := RowsEach(n, workers);
    MulLeq(0, p, q);
    if p < workers - 1 {
      MulSucc(p, q);
      MulLeq(p + 1, workers - 1, q);
    }
  }

  /** The result regions `[displrecv[p], displrecv[p] + rows of p)` partition
      `0 .. n - 1`: row `k` lies in the region of worker `p` exactly when `p`
      is its owner, so no row is left out and none is claimed twice. */
  lemma ResultRegionsPartition(n: nat, workers: nat, k: nat, p: nat)
    requires p < workers && k < n
    ensures RecvDispls(n, workers)[p] <= k < RecvDispls(n, workers)[p] + RecvCounts(n, workers)[p]
        <==> p == Owner(n, workers, k)
  {
    var q := RowsEach(n, workers);
    var start := RecvDispls(n, workers)[p];
    if start <= k < start + RecvCounts(n, workers)[p] {
      if p < workers - 1 {
        DivModUnique(k, q, p, k - start);
      } else if q > 0 && k / q < workers - 1 {
        MulSucc(k / q, q);
        MulLeq(k / q + 1, workers - 1, q);
        assert false;
      }
    }
  }

  // ---------------------------------------------------------------------------
  // Scatter, local product, gather

  /** Worker `p`'s send region is `n` times its result region, so it lies
      inside the `n * n` matrix. */
  lemma SendRegionInMatrix(n: nat, workers: nat, p: nat)
    requires p < workers
    ensures SendDispls(n, workers)[p] == RecvDispls(n, workers)[p] * n
    ensures SendCounts(n, workers)[p] == RecvCounts(n, workers)[p] * n
    ensures 0 <= SendDispls(n, workers)[p] && 0 <= SendCounts(n, workers)[p]
    ensures SendDispls(n, workers)[p] + SendCounts(n, workers)[p] <= n * n
  {
    var start, rows := RecvDispls(n, workers)[p], RowsOf(n, workers, p);
    ResultRegionsInRange(n, workers, p);
    MulLeq(0, rows, n);
    MulLeq(0, start, n);
    MulLeq(start + rows, n, n);
    MulAddRight(start, rows, n);
  }

  /** MPI_Scatterv: worker `p` receives the entries of its send region. */
  function Scatter(a: seq<int>, n: nat, workers: nat, p: nat): (mine: seq<int>)
    requires |a| == n * n && p < workers
    ensures |mine| == RowsOf(n, workers, p) * n
  {
    var d, c := SendDispls(n, workers)[p], SendCounts(n, workers)[p];
    SendRegionInMatrix(n, workers, p);
    a[d..d + c]
  }

  /** Row `i` of what worker `p` receives is global row
      `displrecv[p] + i = p * nFilas + i` of the matrix. */
  lemma ScatterDeliversRows(a: seq<int>, n: nat, workers: nat, p: nat, i: nat)
    requires |a| == n * n && p < workers && i < RowsOf(n, workers, p)
    ensures 0 <= RecvDispls(n, workers)[p] && RecvDispls(n, workers)[p] + i < n
    ensures Row(Scatter(a, n, workers, p), RowsOf(n, workers, p), n, i)
         == Row(a, n, n, RecvDispls(n, workers)[p] + i)
  {
    var rows, start := RowsOf(n, workers, p), RecvDispls(n, workers)[p];
    var mine := Scatter(a, n, workers, p);
    ResultRegionsInRange(n, workers, p);
    SendRegionInMatrix(n, workers, p);
    RowFits(i, rows, n);
    MulAddRight(start, i, n);
    var d, o := start * n, i * n;
    assert mine == a[d..d + rows * n];
    SliceOfSlice(a, d, rows * n, o, n);
  }

  /** The scattered pieces, laid back end to end in rank order, are the
      whole matrix: the send regions lose and duplicate nothing. */
  lemma ScatterRoundTrip(a: seq<int>, n: nat, workers: nat)
    requires |a| == n * n && 0 < workers
    ensures Flatten(seq(workers, p requires 0 <= p < workers => Scatter(a, n, workers, p))) == a
  {
    var pieces := seq(workers, p requires 0 <= p < workers => Scatter(a, n, workers, p));
    var starts, counts := SendDispls(n, workers), SendCounts(n, workers);
    forall p | 0 <= p < workers
      ensures 0 <= starts[p] && starts[p] + |pieces[p]| <= |a|
      ensures pieces[p] == a[starts[p]..starts[p] + |pieces[p]|]
    {
      SendRegionInMatrix(n, workers, p);
      SendCountIsRowsTimesLength(n, workers, p);
    }
    forall p | 0 <= p < workers - 1
      ensures starts[p] + |pieces[p]| == starts[p + 1]
    {
      SendCountIsRowsTimesLength(n, workers, p);
      NextSendDispl(n, workers, p);
    }
    LastRegionEndsAtMatrixEnd(n, workers);
    SendCountIsRowsTimesLength(n, workers, workers - 1);
    FlattenContiguous(a, pieces, starts);
  }

  /** Consecutive send regions touch. */
  lemma NextSendDispl(n: nat, workers: nat, p: nat)
    requires p < workers - 1
    ensures SendDispls(n, workers)[p] + SendCounts(n, workers)[p] == SendDispls(n, workers)[p + 1]
  {
    var q := RowsEach(n, workers);
    MulSucc(p, q);
    MulAddRight(p * q, q, n);
  }

  /** The worker loop: `subFinal[i]` accumulates `misFilas[i * n + j] * x[j]`
      over `j` for every local row `i`. */
  method LocalMultiply(misFilas: seq<int>, x: seq<int>, rows: nat, n: nat) returns (subFinal: seq<int>)
    requires |misFilas| == rows * n && |x| == n
    ensures |subFinal| == rows
    ensures forall i :: 0 <= i < rows ==> subFinal[i] == Dot(Row(misFilas, rows, n, i), x)
    ensures subFinal == MatVec(misFilas, x, rows, n)
  {
    subFinal := [];
    var i := 0;
    while i < rows
      invariant 0 <= i <= rows
      invariant |subFinal| == i
      invariant forall k :: 0 <= k < i ==> subFinal[k] == Dot(Row(misFilas, rows, n, k), x)
    {
      var row := Row(misFilas, rows, n, i);
      var acc := 0;
      var j := 0;
      while j < n
        invariant 0 <= j <= n
        invariant acc == Dot(row[..j], x[..j])
      {
        RowEntry(misFilas, rows, n, i, j);
        DotSnoc(row, x, j);
        acc := acc + misFilas[i * n + j] * x[j];
        j := j + 1;
      }
      assert row[..n] == row && x[..n] == x;
      subFinal := subFinal + [acc];
      i := i + 1;
    }
  }

  /** Worker `p`'s partial product of its rows with `x`. */
  function Partial(a: seq<int>, x: seq<int>, n: nat, workers: nat, p: nat): (part: seq<int>)
    requires |a| == n * n && |x| == n && p < workers
    ensures |part| == RowsOf(n, workers, p)
  {
    MatVec(Scatter(a, n, workers, p), x, RowsOf(n, workers, p), n)
  }

  /** Every partial product, in rank order. */
  function Partials(a: seq<int>, x: seq<int>, n: nat, workers: nat): (parts: seq<seq<int>>)
    requires |a| == n * n && |x| == n && 0 < workers
    ensures |parts| == workers
  {
    seq(workers, p requires 0 <= p < workers => Partial(a, x, n, workers, p))
  }

  /** Entry `i` of worker `p`'s partial is entry `p * nFilas + i` of the
      sequential reference `comprueba`. */
  lemma PartialMatchesReference(a: seq<int>, x: seq<int>, n: nat, workers: nat, p: nat, i: nat)
    requires |a| == n * n && |x| == n && p < workers && i < RowsOf(n, workers, p)
    ensures 0 <= RecvDispls(n, workers)[p] && RecvDispls(n, workers)[p] + i < n
    ensures Partial(a, x, n, workers, p)[i] == MatVec(a, x, n, n)[RecvDispls(n, workers)[p] + i]
  {
    var rows, start := RowsOf(n, workers, p), RecvDispls(n, workers)[p];
    var mine := Scatter(a, n, workers, p);
    ScatterDeliversRows(a, n, workers, p, i);
    assert Partial(a, x, n, workers, p) == MatVec(mine, x, rows, n);
    assert MatVec(mine, x, rows, n)[i] == Dot(Row(mine, rows, n, i), x);
    assert MatVec(a, x, n, n)[start + i] == Dot(Row(a, n, n, start + i), x);
  }

  /** `y` with `part` written over positions `d .. d + |part| - 1`. */
  function Place(y: seq<int>, part: seq<int>, d: nat): (r: seq<int>)
    requires d + |part| <= |y|
    ensures |r| == |y|
    ensures forall k :: 0 <= k < |y| ==> r[k] == (if d <= k < d + |part| then part[k - d] else y[k])
  {
    y[..d] + part + y[d + |part|..]
  }

  /** Every part has its receive count as length and fits, at its
      displacement, inside a buffer of `size` entries. */
  ghost predicate FitsWindows(size: nat, parts: seq<seq<int>>, counts: seq<int>, displs: seq<int>)
  {
    && |parts| == |counts| == |displs|
    && forall p :: 0 <= p < |parts| ==>
         |parts[p]| == counts[p] && 0 <= displs[p] && displs[p] + counts[p] <= size
  }

  /** The receive buffer after the parts of workers `0 .. m - 1` have been
      written at their displacements. */
  function GatherUpTo(y: seq<int>, parts: seq<seq<int>>, counts: seq<int>, displs: seq<int>, m: nat): (r: seq<int>)
    requires FitsWindows(|y|, parts, counts, displs) && m <= |parts|
    ensures |r| == |y|
  {
    if m == 0 then y
    else Place(GatherUpTo(y, parts, counts, displs, m - 1), parts[m - 1], displs[m - 1])
  }

  /** MPI_Gatherv at the root: every worker's part is written into the
      receive buffer at its displacement.  Each part's length must be the
      receive count the root expects from that worker. */
  function GatherV(y: seq<int>, parts: seq<seq<int>>, counts: seq<int>, displs: seq<int>): (r: seq<int>)
    requires FitsWindows(|y|, parts, counts, displs)
    ensures |r| == |y|
  {
    GatherUpTo(y, parts, counts, displs, |parts|)
  }

  /** The row-block layout a list of parts is shaped for: one part per
      worker, as long as that worker's row count. */
  ghost predicate ShapedForRows(n: nat, workers: nat, parts: seq<seq<int>>)
    requires 0 < workers
  {
    |parts| == workers && forall p :: 0 <= p < workers ==> |parts[p]| == RowsOf(n, workers, p)
  }

  /** Parts shaped for the row blocks fit the receive windows `displrecv`
      with one entry per row. */
  lemma RowPartsFit(n: nat, workers: nat, parts: seq<seq<int>>)
    requires 0 < workers && ShapedForRows(n, workers, parts)
    ensures FitsWindows(n, parts, RecvCounts(n, workers), RecvDispls(n, workers))
  {
    forall p | 0 <= p < workers
      ensures 0 <= RecvDispls(n, workers)[p] && RecvDispls(n, workers)[p] + RecvCounts(n, workers)[p] <= n
    {
      ResultRegionsInRange(n, workers, p);
    }
  }

  /** After the parts of the first `m` workers are placed, an entry that lies
      in exactly one window, that of worker `o`, holds `o`'s part there if `o`
      is among them, and is untouched otherwise. */
  lemma {:induction false} GatherPrefix(y: seq<int>, parts: seq<seq<int>>, counts: seq<int>, displs: seq<int>,
                                        m: nat, k: nat, o: nat)
    requires FitsWindows(|y|, parts, counts, displs) && m <= |parts| && k < |y|
    requires o < |parts| && displs[o] <= k < displs[o] + counts[o]
    requires forall p :: 0 <= p < |parts| && p != o ==> !(displs[p] <= k < displs[p] + counts[p])
    ensures GatherUpTo(y, parts, counts, displs, m)[k]
         == if o < m then parts[o][k - displs[o]] else y[k]
  {
    if m > 0 {
      var prev := GatherUpTo(y, parts, counts, displs, m - 1);
      GatherPrefix(y, parts, counts, displs, m - 1, k, o);
      assert GatherUpTo(y, parts, counts, displs, m) == Place(prev, parts[m - 1], displs[m - 1]);
    }
  }

  /** One entry of the gathered result: row `k` is written by its owner,
      whose partial product holds `comprueba[k]` there. */
  lemma GatheredEntry(a: seq<int>, x: seq<int>, n: nat, workers: nat, y: seq<int>, k: nat)
    requires |a| == n * n && |x| == n && 0 < workers && |y| == n && k < n
    ensures FitsWindows(n, Partials(a, x, n, workers), RecvCounts(n, workers), RecvDispls(n, workers))
    ensures GatherV(y, Partials(a, x, n, workers), RecvCounts(n, workers), RecvDispls(n, workers))[k]
         == MatVec(a, x, n, n)[k]
  {
    var parts := Partials(a, x, n, workers);
    var counts, displs := RecvCounts(n, workers), RecvDispls(n, workers);
    assert ShapedForRows(n, workers, parts);
    RowPartsFit(n, workers, parts);
    var o := Owner(n, workers, k);
    forall p | 0 <= p < workers && p != o
      ensures !(displs[p] <= k < displs[p] + counts[p])
    {
      ResultRegionsPartition(n, workers, k, p);
    }
    GatherPrefix(y, parts, counts, displs, workers, k, o);
    PartialMatchesReference(a, x, n, workers, o, k - RecvDispls(n, workers)[o]);
  }

  /** Gathering every worker's partial product at the receive displacements,
      with the receive counts each worker actually sends, rebuilds the
      sequential reference `comprueba`, whatever `y` held before. */
  lemma GatherRebuildsReference(a: seq<int>, x: seq<int>, n: nat, workers: nat, y: seq<int>)
    requires |a| == n * n && |x| == n && 0 < workers && |y| == n
    ensures FitsWindows(n, Partials(a, x, n, workers), RecvCounts(n, workers), RecvDispls(n, workers))
    ensures GatherV(y, Partials(a, x, n, workers), RecvCounts(n, workers), RecvDispls(n, workers))
         == MatVec(a, x, n, n)
  {
    RowPartsFit(n, workers, Partials(a, x, n, workers));
    var g := GatherV(y, Partials(a, x, n, workers), RecvCounts(n, workers), RecvDispls(n, workers));
    forall k | 0 <= k < n
      ensures g[k] == MatVec(a, x, n, n)[k]
    {
      GatheredEntry(a, x, n, workers, y, k);
    }
  }

  /** `errores`: the number of positions where the gathered `y` differs from
      the reference `comprueba`. */
  function Errors(y: seq<int>, comprueba: seq<int>): (count: nat)
    requires |y| == |comprueba|
    ensures count <= |y|
  {
    if |y| == 0 then 0
    else
      var m := |y| - 1;
      Errors(y[..m], comprueba[..m]) + (if comprueba[m] != y[m] then 1 else 0)
  }

  /** The error count is zero exactly when `y` equals `comprueba` entry by
      entry. */
  lemma {:induction false} ErrorsZeroIffEqual(y: seq<int>, comprueba: seq<int>)
    requires |y| == |comprueba|
    ensures Errors(y, comprueba) == 0 <==> y == comprueba
  {
    if |y| > 0 {
      var m := |y| - 1;
      ErrorsZeroIffEqual(y[..m], comprueba[..m]);
      if y[..m] == comprueba[..m] && y[m] == comprueba[m] {
        assert y == y[..m] + [y[m]];
        assert comprueba == comprueba[..m] + [comprueba[m]];
      }
    }
  }

  /** The whole 1-D run: scatter, local products, gather.  The coordinator's
      comparison against `comprueba` counts no error, and the two sums it
      prints (`ySum`, `compruebaSum`) agree. */
  lemma DistributedRunReportsNoErrors(a: seq<int>, x: seq<int>, n: nat, workers: nat, y: seq<int>)
    requires |a| == n * n && |x| == n && 0 < workers && |y| == n
    ensures FitsWindows(n, Partials(a, x, n, workers), RecvCounts(n, workers), RecvDispls(n, workers))
    ensures var gathered := GatherV(y, Partials(a, x, n, workers), RecvCounts(n, workers), RecvDispls(n, workers));
      Errors(gathered, MatVec(a, x, n, n)) == 0 && Sum(gathered) == Sum(AllProducts(a, x, n))
  {
    GatherRebuildsReference(a, x, n, workers, y);
    var gathered := GatherV(y, Partials(a, x, n, workers), RecvCounts(n, workers), RecvDispls(n, workers));
    ErrorsZeroIffEqual(gathered, MatVec(a, x, n, n));
    ReferenceSumIsTotalOfProducts(a, x, n);
  }

  // ---------------------------------------------------------------------------
  // The gather's receive counts as written

  /** As written, the gather expects `rows × n` entries from every worker that
      holds rows, while the worker sends one entry per row: whenever `n > 1`
      the two disagree for every non-empty worker. */
  lemma AsWrittenReceiveCountsExceedSentRows(n: nat, workers: nat, p: nat)
    requires p < workers && 1 < n && 0 < RowsOf(n, workers, p)
    ensures RecvCountsAsWritten(n, workers)[p] > RecvCounts(n, workers)[p]
  {
    MulLeq(2, n, RowsOf(n, workers, p));
  }

  /** With `n = 4` and two workers the as-written receive window of worker 0
      is `[0, 8)`: twice its two sent entries, past the end of the 4-entry `y`,
      and overlapping worker 1's window, which starts at 2. */
  lemma AsWrittenReceiveWindowOverrunsResult()
    ensures RecvDispls(4, 2)[0] + RecvCountsAsWritten(4, 2)[0] == 8
    ensures RecvCounts(4, 2)[0] == 2 && RecvDispls(4, 2)[1] == 2
  {
    assert RowsEach(4, 2) == 2;
    assert SendCounts(4, 2)[0] == 2 * 4;
  }

  /** The 4×4 case with three workers (one row each, the last one two):
      gathering the partial products of the matrix holding 1 .. 16 with the
      all-ones vector gives [10, 26, 42, 58]. */
  lemma ExampleRun(y: seq<int>)
    requires |y| == 4
    ensures FitsWindows(4, Partials([1, 2, 3, 4, 5, 6, 7, 8, 9, 10, 11, 12, 13, 14, 15, 16], [1, 1, 1, 1], 4, 3),
                        RecvCounts(4, 3), RecvDispls(4, 3))
    ensures GatherV(y, Partials([1, 2, 3, 4, 5, 6, 7, 8, 9, 10, 11, 12, 13, 14, 15, 16], [1, 1, 1, 1], 4, 3),
                    RecvCounts(4, 3), RecvDispls(4, 3))
         == [10, 26, 42, 58]
  {
    var a, x := [1, 2, 3, 4, 5, 6, 7, 8, 9, 10, 11, 12, 13, 14, 15, 16], [1, 1, 1, 1];
    GatherRebuildsReference(a, x, 4, 3, y);
    ReferenceExample();
  }
}
