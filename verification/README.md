# Matrix × vector over MPI: data decomposition model

The repository holds two MPI programs that compute `y = A · x` for an
`n`×`n` integer matrix and check the result against a sequential
computation on the coordinator (rank 0):

- `matriz_x_vector.cpp` splits `A` into row blocks. Each of the `P` workers gets
  `nFilas = n / P` rows, and the last one also gets the remainder
  (`filasUltimo`). The program then runs three collectives:
  - MPI_Scatterv sends the rows, using the counts `elementosPorProcesador`
    and the offsets `displenv`;
  - every worker multiplies its rows by the broadcast vector;
  - MPI_Gatherv collects the partial results into `y` at the offsets
    `displrecv`.
- `bidimensional_matriz_x_vector.cpp` arranges the workers in a
  `raizP`×`raizP` grid, where `raizP` is the truncated square root of `P`.
  - It refuses an `n` that `raizP` does not divide, and otherwise sets
    `tam = n / raizP`.
  - For every rank it computes the grid row and column, and `comienzo`, where
    that rank's `tam`×`tam` block starts.
  - It repacks the matrix with MPI_Pack of an `MPI_Type_vector(tam, tam, n)`
    into rank-ordered contiguous blocks.
  - It builds row, column and diagonal communicators with MPI_Comm_split.

The model covers the integer part of both programs:

- counts, displacements, ownership, coordinates, offsets, the repacking
  permutation and the communicator memberships, as pure functions;
- the local and sequential multiply-accumulate loops, as methods on flat
  row-major `seq<int>` matrices.

The collectives are sequence operations:

- a scatter is a slice;
- a gather writes each part at its displacement;
- a derived vector type is a list of strided runs;
- a pack is the concatenation of the packed blocks;
- MPI_Comm_split ranks the members of each colour by the key, which is the
  global rank in every call.

Modules:

| file | module | what it holds |
|---|---|---|
| `arith.dfy` | `Arith` | non-linear facts about `*`, `/`, `%` used by the index proofs |
| `seqs.dfy` | `Seqs` | `Flatten` of a list of sequences and its indexing lemmas |
| `dense.dfy` | `Dense` | `Sum`, `Dot`, `Row`, `MatVec`, the two sequential checks |
| `row_blocks.dfy` | `RowBlocks` | the 1-D program: counts, displacements, scatter, local product, gather, error count |
| `grid.dfy` | `Grid` | the 2-D start-up check, grid coordinates, `comienzo` |
| `packing.dfy` | `Packing` | MPI_Type_vector, the packing loop, its inverse |
| `comm_split.dfy` | `CommSplit` | MPI_Comm_split and the row / column / diagonal colourings |

What the 2-D program does and does not do:

- It stops after building the communicators. It never sends `subMatriz` to
  the workers, never distributes `x`, and never reduces or gathers `y`.
  - Its local loop reads `subMatriz[i * n + j]` for `i < raizP` and `j < n`.
    The last index is `raizP * n - 1`, so it can read past the `tam * tam`
    entries allocated whenever `raizP² > tam`.
  - It never fills `y`, yet the report compares `y` with `comprueba`.
- The packing loop runs over all `P` ranks, including ranks outside the
  `raizP`×`raizP` grid when `P` is not a square (second finding below).

## Model

| member | source | states |
|---|---|---|
| Dense.RowEntry | matriz_x_vector.cpp:71-74 | entry `j` of row `i` of the flat matrix is element `i * n + j`, and that index is in range |
| Dense.MatVec | matriz_x_vector.cpp:139-145 | the reference `comprueba = A · x` has one entry per matrix row; entry `i` is the dot product of row `i` with `x`, and SequentialCheck1D and SequentialCheck2D prove the source's loops compute it |
| Dense.DotIsSumOfProducts | matriz_x_vector.cpp:139-143 | the accumulated dot product equals the sum of the element-wise products |
| Dense.RowDot | bidimensional_matriz_x_vector.cpp:113-118 | the inner loop leaves in the accumulator the dot product of row `i` with `x` |
| Dense.SequentialCheck1D | matriz_x_vector.cpp:139-145 | the fused double loop yields `comprueba = A · x`, and `compruebaSum` equals the sum of the entries of `comprueba` |
| Dense.SequentialCheck2D | bidimensional_matriz_x_vector.cpp:113-125 | the double loop yields `comprueba = A · x`, and the second loop's `compruebaSum` is the sum of its entries |
| Dense.ReferenceSumIsTotalOfProducts | matriz_x_vector.cpp:139-145 | the sum of the entries of `comprueba` equals the total of all `n²` products `A[i][j] * x[j]`, which is what the loop adds into `compruebaSum` |
| Dense.ReferenceExample | matriz_x_vector.cpp:139-145 | for the matrix holding 1 .. 16 row by row and the all-ones vector, the reference product is [10, 26, 42, 58] |
| RowBlocks.RowsLast | matriz_x_vector.cpp:58-64 | `filasUltimo` is what remains after the other `P - 1` workers take `nFilas` rows each, which is `nFilas + n % P` |
| RowBlocks.RowsEach | matriz_x_vector.cpp:58 | `nFilas = n / P` is at most `n`, and is 0 exactly when `n < P` |
| RowBlocks.RowsOf | matriz_x_vector.cpp:151-155 | after the last worker's adjustment, every worker holds at least `nFilas` rows and fewer than `nFilas + P` |
| RowBlocks.SendCounts | matriz_x_vector.cpp:107-110 | one element count per worker; SendCountIsRowsTimesLength gives each value and SendCountsCoverMatrix their total |
| RowBlocks.SendDispls | matriz_x_vector.cpp:118-119 | one send offset per worker; SendCountsPrefix and SendRegionsContiguous state where they fall |
| RowBlocks.RecvDispls | matriz_x_vector.cpp:118-120 | one receive offset per worker; ResultRegionsInRange and ResultRegionsPartition state where they fall |
| RowBlocks.RowPointers | matriz_x_vector.cpp:71-74 | the coordinator's row pointers `A[0]`, `A[i] = A[i - 1] + n`, as offsets: as many as asked for |
| RowBlocks.RowPointerIsRowStart | matriz_x_vector.cpp:71-74 | pointer `A[i]` is offset `i * n`, the start of row `i` |
| RowBlocks.RowPointersAddressRows | matriz_x_vector.cpp:71-74 | with `n` row pointers every row has its slot, and `A[i][j]` is entry `j` of row `i` of the flat matrix |
| RowBlocks.AsWrittenRowPointersTooShort | matriz_x_vector.cpp:58-74 | the `nFilas * n` slots allocated for the row pointers are fewer than the pointers stored if and only if `n < P` |
| RowBlocks.OffsetsFitInt | matriz_x_vector.cpp:107-119 | while `n * n` fits a 32-bit `int`, so do `nElem`, `elementosPorProcesador[p]`, `displenv[p]` and the end of each send region |
| RowBlocks.LastWorkerHoldsMost | matriz_x_vector.cpp:151-155 | no worker holds more rows than the last one, which has fewer than `P` extra rows |
| RowBlocks.SendCountIsRowsTimesLength | matriz_x_vector.cpp:107-110 | each worker's element count is its row count times `n`, the `nElem` its receive buffer is sized for |
| RowBlocks.SendCountsPrefix | matriz_x_vector.cpp:107-121 | the send offset of worker `m` is the sum of the counts of the workers before it |
| RowBlocks.NextSendDispl | matriz_x_vector.cpp:118-119 | each send region ends where the next one starts |
| RowBlocks.LastRegionEndsAtMatrixEnd | matriz_x_vector.cpp:110-119 | the last send region ends exactly at `n * n` |
| RowBlocks.SendRegionsContiguous | matriz_x_vector.cpp:107-121 | the send regions start at 0, follow each other with no gap or overlap, and end at `n * n`; every offset is a prefix sum of the counts |
| RowBlocks.SendCountsCoverMatrix | matriz_x_vector.cpp:107-110 | the element counts add up to `n * n` |
| RowBlocks.LocalIndexInBounds | matriz_x_vector.cpp:186-192 | the local loop's index `i * n + j` stays below the worker's `nElem`, which is the count it is sent |
| RowBlocks.Owner | matriz_x_vector.cpp:118-121 | every result row `k < n` falls inside the receive region of some worker |
| RowBlocks.ResultRegionsInRange | matriz_x_vector.cpp:118-121 | each receive region `[displrecv[p], displrecv[p] + rows of p)` lies inside the `n` entries of `y` |
| RowBlocks.ResultRegionsPartition | matriz_x_vector.cpp:118-121 | row `k` lies in worker `p`'s receive region if and only if `p` is its owner, so the regions partition `0 .. n - 1` |
| RowBlocks.SendRegionInMatrix | matriz_x_vector.cpp:117-121 | a worker's send region is `n` times its receive region and lies inside the matrix |
| RowBlocks.Scatter | matriz_x_vector.cpp:160-168 | each worker receives exactly its row count times `n` entries |
| RowBlocks.ScatterDeliversRows | matriz_x_vector.cpp:160-168 | local row `i` of worker `p` is global row `p * nFilas + i` |
| RowBlocks.ScatterRoundTrip | matriz_x_vector.cpp:160-168 | the scattered pieces concatenated in rank order give back the whole matrix |
| RowBlocks.LocalMultiply | matriz_x_vector.cpp:184-192 | the worker loop yields one entry per local row, each the dot product of that row with `x`, i.e. the product of the local rows with `x` |
| RowBlocks.PartialMatchesReference | matriz_x_vector.cpp:186-192 | entry `i` of worker `p`'s `subFinal` is `comprueba[p * nFilas + i]` |
| RowBlocks.Partial | matriz_x_vector.cpp:184-192 | worker `p`'s `subFinal` has one entry per row the worker holds; PartialMatchesReference gives the entries |
| RowBlocks.Place | matriz_x_vector.cpp:204-212 | writing a part at a displacement changes exactly the entries of that window, and leaves every other entry alone |
| RowBlocks.GatherV | matriz_x_vector.cpp:204-212 | MPI_Gatherv at the root, with every part fitting its window, keeps the length of `y`; GatherPrefix and GatherRebuildsReference give its contents |
| RowBlocks.RowPartsFit | matriz_x_vector.cpp:118-121 | parts with one entry per row a worker holds fit the receive windows `displrecv` inside the `n` entries of `y` |
| RowBlocks.GatherPrefix | matriz_x_vector.cpp:204-212 | once the parts of the first `m` workers are placed, an entry that lies in exactly one worker's window holds that worker's part if the worker is among them, and is untouched otherwise |
| RowBlocks.GatheredEntry | matriz_x_vector.cpp:204-212 | entry `k` of the gathered result is written by the owner of row `k` and equals `comprueba[k]` |
| RowBlocks.GatherRebuildsReference | matriz_x_vector.cpp:204-212 | gathering the partial products at `displrecv`, with each worker's real row count as its receive count, gives `comprueba`, whatever `y` held |
| RowBlocks.Errors | matriz_x_vector.cpp:226-233 | `errores` never exceeds `n` |
| RowBlocks.ErrorsZeroIffEqual | matriz_x_vector.cpp:226-233 | `errores` is 0 if and only if `y` equals `comprueba` entry by entry |
| RowBlocks.DistributedRunReportsNoErrors | matriz_x_vector.cpp:226-234 | after scatter, local product and gather, no error is counted, and the gathered sum equals the sum of all products (`ySum` equals `compruebaSum`) |
| RowBlocks.ExampleRun | matriz_x_vector.cpp:204-212 | with three workers, the 1 .. 16 matrix and the all-ones vector gather to [10, 26, 42, 58] |
| RowBlocks.AsWrittenReceiveCountsExceedSentRows | matriz_x_vector.cpp:204-208 | the receive count given to the gather exceeds the count each non-empty worker sends whenever `n > 1` |
| RowBlocks.AsWrittenReceiveWindowOverrunsResult | matriz_x_vector.cpp:204-209 | with `n = 4` and 2 workers, worker 0's receive window is `[0, 8)`, past the 4 entries of `y` and over worker 1's window, which starts at 2 |
| Grid.GridSide | bidimensional_matriz_x_vector.cpp:58 | `raizP` is the largest side whose square is at most `P` |
| Grid.GridSideOfSquare | bidimensional_matriz_x_vector.cpp:58 | for `P = s²`, `raizP = s` |
| Grid.SideIs | bidimensional_matriz_x_vector.cpp:58 | `raizP` is the unique `r` with `r² <= P < (r + 1)²` |
| Grid.Configure | bidimensional_matriz_x_vector.cpp:58-69 | the run goes on if and only if `n % raizP == 0`, and then `tam * raizP == n` and `nElem == tam * tam`; otherwise it stops with the usage message |
| Grid.ConfigureExamples | bidimensional_matriz_x_vector.cpp:58-69 | `n = 5, P = 5` stops; `n = 6, P = 8` gives side 2 and `tam` 3; `n = 6, P = 9` gives side 3 and `tam` 2 |
| Grid.CoordOf | bidimensional_matriz_x_vector.cpp:139-140 | the column is below `raizP`, the row is below `raizP` for ranks in the grid, and `i == filaP * raizP + columnaP` |
| Grid.CoordRoundTrip | bidimensional_matriz_x_vector.cpp:139-140 | grid positions and ranks `0 .. raizP² - 1` correspond one to one |
| Grid.CoordsDistinct | bidimensional_matriz_x_vector.cpp:139-140 | distinct ranks have distinct grid positions |
| Grid.BlockStartIsTopLeft | bidimensional_matriz_x_vector.cpp:141 | `comienzo` is the row-major index `(filaP * tam) * n + columnaP * tam` of the block's top-left entry |
| Grid.BlockStart | bidimensional_matriz_x_vector.cpp:141 | `comienzo` is never negative; BlockStartIsTopLeft gives its value |
| Grid.BlockStartFitsInt | bidimensional_matriz_x_vector.cpp:141 | while `n * n` fits a 32-bit `int`, so does `comienzo` of every grid rank |
| Grid.PackReadsInBounds | bidimensional_matriz_x_vector.cpp:141-142 | every index `comienzo + r * n + c` with `r, c < tam` is the entry at row `filaP * tam + r`, column `columnaP * tam + c`, and lies in `[0, n²)` |
| Packing.VectorTypeEntry | bidimensional_matriz_x_vector.cpp:129 | entry `c` of run `b` of MPI_Type_vector(count, blocklen, stride) at `start` is `buf[start + b * stride + c]` |
| Packing.VectorType | bidimensional_matriz_x_vector.cpp:129 | MPI_Type_vector(count, blocklen, stride) selects `count * blocklen` entries; VectorTypeEntry gives each one |
| Packing.Block | bidimensional_matriz_x_vector.cpp:141-142 | the block MPI_Pack reads for a grid rank at its `comienzo` has `tam²` entries |
| Packing.Pack | bidimensional_matriz_x_vector.cpp:137-143 | the staging buffer `A` after the packing loop over the `raizP²` grid ranks holds `n²` entries; PackPlacesBlocks gives its contents. The source loops over all `P` ranks, which is the same loop for a square `P`; for other `P` see the second finding |
| Packing.BlockFits | bidimensional_matriz_x_vector.cpp:141-142 | the last run of a rank's block ends inside the matrix |
| Packing.BlockCount | bidimensional_matriz_x_vector.cpp:132 | `raizP²` blocks of `tam²` entries fill exactly the `n²` entries of `A` |
| Packing.PackedBytesFitInt | bidimensional_matriz_x_vector.cpp:142 | while the `sizeof(long) * n * n` bytes of `A` fit a 32-bit `int`, so does MPI_Pack's byte position `posicion` after every block, and `n <= 16383` |
| Packing.PackPlacesBlocks | bidimensional_matriz_x_vector.cpp:137-143 | `A[i * tam² + r * tam + c] == auxiliar[comienzo_i + r * n + c]`: each block fills its own slot in rank order, with its rows kept in order |
| Packing.PackPosInjective | bidimensional_matriz_x_vector.cpp:137-143 | a packed position determines the block, the row and the column it holds |
| Packing.PackCopiesSource | bidimensional_matriz_x_vector.cpp:137-143 | every packed entry is a copy of the matrix entry its position decodes to |
| Packing.TargetOfSource | bidimensional_matriz_x_vector.cpp:137-143 | no two packed positions read the same matrix entry |
| Packing.SplitMatrixOf | bidimensional_matriz_x_vector.cpp:137-143 | the matrix entry at row `R * tam + r`, column `C * tam + c` belongs to grid rank `R * raizP + C`, at place (`r`, `c`) in its block |
| Packing.SourceOfTarget | bidimensional_matriz_x_vector.cpp:137-143 | every matrix entry is read by some packed position |
| Packing.PackIsBijection | bidimensional_matriz_x_vector.cpp:137-143 | the packing is a bijection on `[0, n²)`: nothing lost, nothing duplicated |
| Packing.UnpackPack | bidimensional_matriz_x_vector.cpp:137-143 | unpacking the packed buffer gives back `auxiliar` |
| Packing.PackUnpack | bidimensional_matriz_x_vector.cpp:137-143 | packing an unpacked buffer gives back the buffer |
| Packing.SlotHoldsSubmatrix | bidimensional_matriz_x_vector.cpp:137-143 | row `r` of slot `i` is row `filaP * tam + r`, columns `columnaP * tam ..`, of the matrix |
| Packing.PackStartsAsWritten | bidimensional_matriz_x_vector.cpp:137-141 | the loop computes one block start for every rank `0 .. P - 1` |
| Packing.NonSquareWorkerCountPacksPastMatrix | bidimensional_matriz_x_vector.cpp:137-142 | with `P = 5` and `n = 4`, the check passes, yet rank 4 sits at grid row 2 and its block starts at 16 = `n²`; five blocks need more than the `n²` entries MPI_Pack is allowed to write into `A` |
| CommSplit.Split | bidimensional_matriz_x_vector.cpp:171-183 | a worker joins a communicator if and only if its colour is defined, and then its rank is below the communicator's size |
| CommSplit.Members | bidimensional_matriz_x_vector.cpp:171-174 | the reference ordering lists, in strictly increasing order, global ranks of the given colour only, as many as there are |
| CommSplit.MembersAt | bidimensional_matriz_x_vector.cpp:171-174 | a worker of a colour appears in that colour's list at the position counting its same-colour predecessors |
| CommSplit.SplitRanksByGlobalRank | bidimensional_matriz_x_vector.cpp:171-174 | the communicator's size is the number of same-colour workers, and the worker's new rank is its position among them in increasing global rank (the key) |
| CommSplit.SplitPreservesOrder | bidimensional_matriz_x_vector.cpp:171-174 | two workers of one communicator keep their relative order |
| CommSplit.RowColours | bidimensional_matriz_x_vector.cpp:170-174 | one colour `filaP` per worker; RowCount and RowGroup state the communicators it produces |
| CommSplit.ColumnColours | bidimensional_matriz_x_vector.cpp:176-177 | one colour `columnaP` per worker; ColumnCount and ColumnGroup state the communicators it produces |
| CommSplit.DiagonalColours | bidimensional_matriz_x_vector.cpp:179-183 | one colour per worker, defined only when `filaP == columnaP`; DiagonalCount and DiagonalGroup state the communicator it produces |
| CommSplit.RowCount | bidimensional_matriz_x_vector.cpp:170-174 | among the first `m` ranks, grid row `f` has 0, `m % raizP` or `raizP` members, according to whether `m` is before, inside or after that row |
| CommSplit.ColumnCount | bidimensional_matriz_x_vector.cpp:176-177 | among the first `m` ranks, column `c` has one member per completed grid row, plus one if the current row is past `c` |
| CommSplit.DiagonalCount | bidimensional_matriz_x_vector.cpp:179-183 | among the first `m` ranks of the square grid, the diagonal has one member per completed grid row, plus one if the current row is past its diagonal entry |
| CommSplit.RowGroup | bidimensional_matriz_x_vector.cpp:170-174 | for `P = raizP²` the row communicator has `raizP` members, and a worker's rank in it is `columnaP` |
| CommSplit.ColumnGroup | bidimensional_matriz_x_vector.cpp:176-177 | for `P = raizP²` the column communicator has `raizP` members, and a worker's rank in it is `filaP` |
| CommSplit.DiagonalGroup | bidimensional_matriz_x_vector.cpp:179-183 | for `P = raizP²` exactly the workers with `filaP == columnaP` join the diagonal communicator; it has `raizP` members ranked by `filaP`, and every other worker gets none |
| CommSplit.DiagonalWorkerRanksAgree | bidimensional_matriz_x_vector.cpp:170-183 | a diagonal worker has its grid row as its rank in its row, column and diagonal communicators |

## Left out

- MPI runtime behaviour is not modelled: MPI_Init/Finalize, barriers, blocking, the broadcast of `x`, and communicator objects. Scatter and gather are slicing and placement; MPI_Comm_split gives only the membership and rank.
- Timing (`clock`, `MPI_Wtime`) and the speed-up division are left out: they are floating point and have no effect on the result.
- Random data and the `n < 24` dumps are left out. The matrix and the vector are parameters.
- `new`/`delete` memory management is left out. Buffers are sequences of the length the program uses them at. The one allocation that is too short for some inputs, the row-pointer array of the 1-D program, is the third finding below.
- The argument-count check at the top of both files is left out. It reads `idProceso` before MPI_Comm_rank sets it.
- The 2-D local multiply and the 2-D report (bidimensional_matriz_x_vector.cpp:191-199, 209-222) are left out.
  - `subMatriz` is never sent, so there is nothing correct to prove.
  - The loop can read past the `tam * tam` buffer, whenever `raizP² > tam`.
  - `y` is never filled.
  - No distribution of `x`, reduction along rows or gather of `y` exists in the 2-D source.
- Matrix and vector arithmetic uses unbounded `int`, so `long` overflow is not modelled.
- RowBlocks.SendCounts: like SendDispls, RowsOf and every lemma about counts and offsets (SendCountsCoverMatrix, SendRegionsContiguous, ScatterRoundTrip, GatherRebuildsReference), it uses unbounded integers. The source computes `nElem`, `elementosPorProcesador`, `displenv` and `n * n` in 32-bit `int`, which overflow from `n = 46341`. The model therefore describes the source only while `n * n <= 2^31 - 1`. RowBlocks.OffsetsFitInt shows that this bound is enough for no count or offset to overflow.
- Grid.BlockStart: `comienzo`, the `n * n` sizes and MPI_Pack's byte counts are unbounded here, and they are 32-bit `int` in the source. MPI_Pack's `outsize` (`sizeof(long) * n * n`) and `posicion` count bytes, not entries. So Pack, PackPlacesBlocks, PackIsBijection, UnpackPack, PackUnpack and SlotHoldsSubmatrix describe the source only while `8 * n * n <= 2^31 - 1`, that is `n <= 16383`. From `n = 16384` the `outsize` argument no longer fits an `int` and the pack fails. Packing.PackedBytesFitInt shows that under this bound `posicion` fits after every block. Grid.BlockStartFitsInt shows that `comienzo` fits already while `n * n <= 2^31 - 1`.
- Grid.GridSide: computes the exact integer square root where the source truncates the double `sqrt(P)`. The two agree for every process count far below 2^52.
- CommSplit.Split: fixes the key to the global rank, the key all three calls pass. The general key ordering of MPI_Comm_split is not modelled.
- CommSplit.RowGroup: like ColumnGroup, DiagonalGroup and DiagonalWorkerRanksAgree, it assumes `P == raizP²`. For other worker counts only the general `Split`, `RowCount` and `ColumnCount` facts are stated.
- RowBlocks.Errors: `errores` is an unbounded count here, not a 32-bit `unsigned int`. It cannot reach the wrap-around point for any `n` that fits in memory.
- The inner declaration `int i = 0, posicion = 0` of the packing loop shadows the outer `posicion`. The inner one starts at 0 and is the one MPI_Pack advances, so the model starts the packed buffer at offset 0.

## Findings

| source | as written | input that shows it | evidently intended | confidence | as-written member | corrected member |
|---|---|---|---|---|---|---|
| matriz_x_vector.cpp:208 | MPI_Gatherv expects `elementosPorProcesador[p]` (rows × `n`) entries from worker `p`, which sends `nFilas` | `n = 4`, `P = 2`: worker 0 sends 2 entries, the root expects 8 at offset 0, a window past the 4 entries of `y` and over worker 1's window at offset 2 | one receive count per row held: `nFilas`, and `filasUltimo` for the last worker | not executed; it breaks MPI's rule that send and receive type signatures match, though common implementations copy only what arrives | RowBlocks.AsWrittenReceiveWindowOverrunsResult | RowBlocks.GatherRebuildsReference |
| bidimensional_matriz_x_vector.cpp:137-142 | the packing loop runs over all `P` ranks, so for a non-square `P` a rank outside the `raizP`×`raizP` grid gets a block | `n = 4`, `P = 5`: side 2 divides 4, rank 4 is at grid row 2, its `comienzo` is 16 = `n²`, past `auxiliar`, and a fifth block exceeds the `outsize` of `n²` entries given to MPI_Pack, so that call fails with an MPI error | pack only the `raizP²` grid ranks | not executed | Packing.NonSquareWorkerCountPacksPastMatrix | Packing.PackIsBijection |
| matriz_x_vector.cpp:58-74 | the row-pointer array `A` gets `nElem = nFilas * n` slots, but the coordinator stores `A[0]` .. `A[n - 1]` | `n = 2`, `P = 3`: `nFilas = 0`, so `A` has no slot, and the coordinator writes `A[0]` and `A[1]`; `n = 0` also writes `A[0]` into an empty array | `n` row pointers, one per matrix row | not executed | RowBlocks.AsWrittenRowPointersTooShort | RowBlocks.RowPointersAddressRows |
