/** The coordinator's repacking in `bidimensional_matriz_x_vector.cpp`.  The
    derived type MPI_Type_vector(tam, tam, n) selects `tam` runs of `tam`
    entries, `n` apart: one `tam`×`tam` block of the row-major matrix.  For
    each rank in turn, MPI_Pack appends the block starting at that rank's
    `comienzo` to the staging buffer `A`.  Each block therefore lands in
    its own contiguous slot of `tam * tam` entries, in rank order. */
module Packing {
  import opened Arith
  import opened Seqs
  import opened Grid

  /** Run `b` of a vector type lies inside the buffer when the last run does. */
  lemma RunFits(len: nat, start: nat, count: nat, blocklen: nat, stride: nat, b: nat)
    requires b < count && start + (count - 1) * stride + blocklen <= len
    ensures start + b * stride + blocklen <= len
  {
    MulLeq(b, count - 1, stride);
  }

  /** Run `b` of MPI_Type_vector(count, blocklen, stride) at `start`: the
      `blocklen` consecutive entries from `start + b * stride`. */
  function RunAt(buf: seq<int>, start: nat, count: nat, blocklen: nat, stride: nat, b: nat): (run: seq<int>)
    requires b < count && start + (count - 1) * stride + blocklen <= |buf|
    ensures |run| == blocklen
  {
    RunFits(|buf|, start, count, blocklen, stride, b);
    var first := start + b * stride;
    buf[first..first + blocklen]
  }

  /** Entry `c` of run `b` is `buf[start + b * stride + c]`. */
  lemma RunEntry(buf: seq<int>, start: nat, count: nat, blocklen: nat, stride: nat, b: nat, c: nat)
    requires b < count && c < blocklen && start + (count - 1) * stride + blocklen <= |buf|
    ensures start + b * stride + c < |buf|
    ensures RunAt(buf, start, count, blocklen, stride, b)[c] == buf[start + b * stride + c]
  {
    RunFits(|buf|, start, count, blocklen, stride, b);
  }

  /** The runs the vector type selects from `buf` at `start`, in order. */
  function Runs(buf: seq<int>, start: nat, count: nat, blocklen: nat, stride: nat): (runs: seq<seq<int>>)
    requires count == 0 || start + (count - 1) * stride + blocklen <= |buf|
    ensures |runs| == count && Uniform(runs, blocklen)
  {
    seq(count, b requires 0 <= b < count => RunAt(buf, start, count, blocklen, stride, b))
  }

  /** The entries the vector type selects, its runs concatenated in order. */
  function VectorType(buf: seq<int>, start: nat, count: nat, blocklen: nat, stride: nat): (r: seq<int>)
    requires count == 0 || start + (count - 1) * stride + blocklen <= |buf|
    ensures |r| == count * blocklen
  {
    var runs := Runs(buf, start, count, blocklen, stride);
    FlattenLength(runs, blocklen);
    Flatten(runs)
  }

  /** Entry `c` of run `b` of a vector type is `buf[start + b * stride + c]`. */
  lemma VectorTypeEntry(buf: seq<int>, start: nat, count: nat, blocklen: nat, stride: nat, b: nat, c: nat)
    requires count == 0 || start + (count - 1) * stride + blocklen <= |buf|
    requires b < count && c < blocklen
    ensures b * blocklen + c < count * blocklen
    ensures start + b * stride + c < |buf|
    ensures VectorType(buf, start, count, blocklen, stride)[b * blocklen + c] == buf[start + b * stride + c]
  {
    var runs := Runs(buf, start, count, blocklen, stride);
    RowMajorBound(b, c, count, blocklen);
    FlattenAt(runs, blocklen, b, c);
    RunEntry(buf, start, count, blocklen, stride, b, c);
    assert runs[b] == RunAt(buf, start, count, blocklen, stride, b);
  }

  /** The block of rank `rank`: the derived type applied at `comienzo`. */
  function Block(aux: seq<int>, g: Geometry, rank: nat): (block: seq<int>)
    requires g.Valid() && |aux| == g.N() * g.N() && rank < g.side * g.side
    ensures |block| == g.BlockLen()
  {
    BlockFits(g, rank);
    VectorType(aux, BlockStart(g, rank), g.tam, g.tam, g.N())
  }

  /** The last run of a block ends inside the matrix. */
  lemma BlockFits(g: Geometry, rank: nat)
    requires g.Valid() && rank < g.side * g.side
    ensures 0 <= BlockStart(g, rank)
    ensures g.tam == 0 || BlockStart(g, rank) + (g.tam - 1) * g.N() + g.tam <= g.N() * g.N()
  {
    BlockStartIsTopLeft(g, rank);
    if g.tam > 0 {
      var last := g.tam - 1;
      PackReadsInBounds(g, rank, last, last);
      assert BlockStart(g, rank) + last * g.N() + last < g.N() * g.N();
    }
  }

  /** The blocks of ranks `0 .. raizP² - 1`, in rank order. */
  function Blocks(aux: seq<int>, g: Geometry): (blocks: seq<seq<int>>)
    requires g.Valid() && |aux| == g.N() * g.N()
    ensures |blocks| == g.side * g.side && Uniform(blocks, g.BlockLen())
  {
    seq(g.side * g.side, i requires 0 <= i < g.side * g.side => Block(aux, g, i))
  }

  /** The staging buffer `A` after the packing loop: the blocks of ranks
      `0 .. raizP² - 1` one after another.  The loop runs over the square
      grid's ranks; with a square worker count that is every rank. */
  function Pack(aux: seq<int>, g: Geometry): (packed: seq<int>)
    requires g.Valid() && |aux| == g.N() * g.N()
    ensures |packed| == g.N() * g.N()
  {
    var blocks := Blocks(aux, g);
    FlattenLength(blocks, g.BlockLen());
    BlockCount(g);
    Flatten(blocks)
  }

  /** `raizP²` blocks of `tam²` entries are the `n²` entries of the matrix. */
  lemma BlockCount(g: Geometry)
    ensures (g.side * g.side) * g.BlockLen() == g.N() * g.N()
  {
    assert (g.side * g.side) * (g.tam * g.tam) == (g.tam * g.side) * (g.tam * g.side);
  }

  /** `sizeof(long)` on a 64-bit Linux target: MPI_Pack's `outsize` and
      `posicion` count bytes. */
  const LongBytes: nat := 8

  /** While the `sizeof(long) * n * n` bytes of the packed buffer fit a
      32-bit `int`, so does `posicion` after each block of the grid, and
      `n` is at most 16383. */
  lemma PackedBytesFitInt(g: Geometry, i: nat)
    requires g.Valid() && i < g.side * g.side && LongBytes * g.N() * g.N() <= IntMax
    ensures 0 <= LongBytes * ((i + 1) * g.BlockLen()) <= IntMax
    ensures g.N() <= 16383
  {
    BlockCount(g);
    MulLeq(0, i + 1, g.BlockLen());
    MulLeq(i + 1, g.side * g.side, g.BlockLen());
    assert LongBytes * g.N() * g.N() == LongBytes * (g.N() * g.N());
    if 16384 <= g.N() {
      SquareMono(16384, g.N());
      assert false;
    }
  }

  /** Position of entry (`r`, `c`) of block `i` in the packed buffer. */
  function PackPos(g: Geometry, i: nat, r: nat, c: nat): nat
  {
    i * g.BlockLen() + r * g.tam + c
  }

  /** Entry (`r`, `c`) of block `i` sits at `i * tam² + r * tam + c` of the
      packed buffer and is the matrix entry `auxiliar[comienzo_i + r * n + c]`:
      each block fills its own slot in rank order, rows kept in order. */
  lemma PackPlacesBlocks(aux: seq<int>, g: Geometry, i: nat, r: nat, c: nat)
    requires g.Valid() && |aux| == g.N() * g.N()
    requires i < g.side * g.side && r < g.tam && c < g.tam
    ensures PackPos(g, i, r, c) < g.N() * g.N()
    ensures 0 <= BlockStart(g, i) + r * g.N() + c < g.N() * g.N()
    ensures Pack(aux, g)[PackPos(g, i, r, c)] == aux[BlockStart(g, i) + r * g.N() + c]
  {
    var blocks := Blocks(aux, g);
    RowMajorBound(r, c, g.tam, g.tam);
    FlattenAt(blocks, g.BlockLen(), i, r * g.tam + c);
    PackPosBound(g, i, r, c);
    BlockCount(g);
    BlockFits(g, i);
    PackReadsInBounds(g, i, r, c);
    VectorTypeEntry(aux, BlockStart(g, i), g.tam, g.tam, g.N(), r, c);
    RowMajorBound(r, c, g.tam, g.tam);
    assert blocks[i][r * g.tam + c] == aux[BlockStart(g, i) + r * g.N() + c];
  }

  /** The matrix index the packed entry `k` is copied from: `k` is split into
      block `i`, row `r` and column `c` within the block, and the entry is
      `comienzo_i + r * n + c`. */
  function PackSource(g: Geometry, k: nat): (s: nat)
    requires g.Valid() && k < g.N() * g.N()
    ensures s < g.N() * g.N()
  {
    var (i, r, c) := SplitPacked(g, k);
    PackReadsInBounds(g, i, r, c);
    BlockStart(g, i) + r * g.N() + c
  }

  /** The packed position of matrix entry `s`: its row and column give the
      block's grid position and the place inside the block. */
  function PackTarget(g: Geometry, s: nat): (k: nat)
    requires g.Valid() && s < g.N() * g.N()
    ensures k < g.N() * g.N()
  {
    var (i, r, c) := SplitMatrix(g, s);
    PackPosBound(g, i, r, c);
    PackPos(g, i, r, c)
  }

  /** Block, row and column within the block of a packed position. */
  function SplitPacked(g: Geometry, k: nat): (irc: (nat, nat, nat))
    requires g.Valid() && k < g.N() * g.N()
    ensures irc.0 < g.side * g.side && irc.1 < g.tam && irc.2 < g.tam
    ensures k == PackPos(g, irc.0, irc.1, irc.2)
  {
    BlockCount(g);
    var L := g.BlockLen();
    SplitIndex(k, g.side * g.side, L);
    var off := k % L;
    SplitIndex(off, g.tam, g.tam);
    (k / L, off / g.tam, off % g.tam)
  }

  /** Grid rank, row and column within the block of a matrix index. */
  function SplitMatrix(g: Geometry, s: nat): (irc: (nat, nat, nat))
    requires g.Valid() && s < g.N() * g.N()
    ensures irc.0 < g.side * g.side && irc.1 < g.tam && irc.2 < g.tam
    ensures s == (CoordOf(irc.0, g.side).row * g.tam + irc.1) * g.N() + (CoordOf(irc.0, g.side).col * g.tam + irc.2)
  {
    var n := g.N();
    SplitIndex(s, n, n);
    var row, column := s / n, s % n;
    SplitIndex(row, g.side, g.tam);
    SplitIndex(column, g.side, g.tam);
    var p := Coord(row / g.tam, column / g.tam);
    CoordRoundTrip(p, g.side);
    (RankOf(p, g.side), row % g.tam, column % g.tam)
  }

  /** Packed positions of in-range triples are in range. */
  lemma PackPosBound(g: Geometry, i: nat, r: nat, c: nat)
    requires i < g.side * g.side && r < g.tam && c < g.tam
    ensures PackPos(g, i, r, c) < g.N() * g.N()
  {
    RowMajorBound(r, c, g.tam, g.tam);
    RowMajorBound(i, r * g.tam + c, g.side * g.side, g.BlockLen());
    BlockCount(g);
  }

  /** A packed position determines its block, row and column. */
  lemma PackPosInjective(g: Geometry, i: nat, r: nat, c: nat, i': nat, r': nat, c': nat)
    requires r < g.tam && c < g.tam && r' < g.tam && c' < g.tam
    requires PackPos(g, i, r, c) == PackPos(g, i', r', c')
    ensures i == i' && r == r' && c == c'
  {
    RowMajorBound(r, c, g.tam, g.tam);
    RowMajorBound(r', c', g.tam, g.tam);
    DivModUnique(PackPos(g, i, r, c), g.BlockLen(), i, r * g.tam + c);
    DivModUnique(PackPos(g, i, r, c), g.BlockLen(), i', r' * g.tam + c');
    DivModUnique(r * g.tam + c, g.tam, r, c);
    DivModUnique(r * g.tam + c, g.tam, r', c');
  }

  /** Every packed entry is a copy of the matrix entry `PackSource` names. */
  lemma PackCopiesSource(aux: seq<int>, g: Geometry, k: nat)
    requires g.Valid() && |aux| == g.N() * g.N() && k < g.N() * g.N()
    ensures Pack(aux, g)[k] == aux[PackSource(g, k)]
  {
    var (i, r, c) := SplitPacked(g, k);
    PackPlacesBlocks(aux, g, i, r, c);
  }

  /** The matrix entry at row `R * tam + r`, column `C * tam + c` (with
      `R, C < raizP` and `r, c < tam`) splits into grid rank
      `R * raizP + C` and place (`r`, `c`) inside that rank's block. */
  lemma SplitMatrixOf(g: Geometry, R: nat, C: nat, r: nat, c: nat)
    requires g.Valid() && R < g.side && C < g.side && r < g.tam && c < g.tam
    ensures R * g.tam + r < g.N() && C * g.tam + c < g.N()
    ensures 0 <= (R * g.tam + r) * g.N() + (C * g.tam + c) < g.N() * g.N()
    ensures SplitMatrix(g, (R * g.tam + r) * g.N() + (C * g.tam + c)) == (R * g.side + C, r, c)
  {
    var n := g.N();
    var row, col := R * g.tam + r, C * g.tam + c;
    RowMajorBound(R, r, g.side, g.tam);
    RowMajorBound(C, c, g.side, g.tam);
    RowMajorBound(row, col, n, n);
    DivModUnique(row * n + col, n, row, col);
    DivModUnique(row, g.tam, R, r);
    DivModUnique(col, g.tam, C, c);
  }

  /** `PackTarget` undoes `PackSource`: no two packed positions read the
      same matrix entry. */
  lemma TargetOfSource(g: Geometry, k: nat)
    requires g.Valid() && k < g.N() * g.N()
    ensures PackTarget(g, PackSource(g, k)) == k
  {
    var (i, r, c) := SplitPacked(g, k);
    var p := CoordOf(i, g.side);
    PackReadsInBounds(g, i, r, c);
    SplitMatrixOf(g, p.row, p.col, r, c);
  }

  /** `PackSource` undoes `PackTarget`: every matrix entry is read by some
      packed position. */
  lemma SourceOfTarget(g: Geometry, s: nat)
    requires g.Valid() && s < g.N() * g.N()
    ensures PackSource(g, PackTarget(g, s)) == s
  {
    var (i, r, c) := SplitMatrix(g, s);
    var k := PackTarget(g, s);
    var (i', r', c') := SplitPacked(g, k);
    PackPosInjective(g, i, r, c, i', r', c');
    PackReadsInBounds(g, i, r, c);
  }

  /** The packing is a bijection on `[0, n * n)`: each packed position reads
      one matrix entry, and each matrix entry is read by exactly one packed
      position — no overlap and no gap. */
  lemma PackIsBijection(g: Geometry)
    requires g.Valid()
    ensures forall k :: 0 <= k < g.N() * g.N() ==> PackTarget(g, PackSource(g, k)) == k
    ensures forall s :: 0 <= s < g.N() * g.N() ==> PackSource(g, PackTarget(g, s)) == s
  {
    forall k | 0 <= k < g.N() * g.N()
      ensures PackTarget(g, PackSource(g, k)) == k
    {
      TargetOfSource(g, k);
    }
    forall s | 0 <= s < g.N() * g.N()
      ensures PackSource(g, PackTarget(g, s)) == s
    {
      SourceOfTarget(g, s);
    }
  }

  /** The inverse repacking: rebuild the row-major matrix from a packed
      buffer by reading each entry from its packed position. */
  function Unpack(packed: seq<int>, g: Geometry): (aux: seq<int>)
    requires g.Valid() && |packed| == g.N() * g.N()
    ensures |aux| == g.N() * g.N()
  {
    seq(g.N() * g.N(), s requires 0 <= s < g.N() * g.N() => packed[PackTarget(g, s)])
  }

  /** Unpacking the packed buffer gives back the original matrix. */
  lemma UnpackPack(aux: seq<int>, g: Geometry)
    requires g.Valid() && |aux| == g.N() * g.N()
    ensures Unpack(Pack(aux, g), g) == aux
  {
    var back := Unpack(Pack(aux, g), g);
    forall s | 0 <= s < g.N() * g.N()
      ensures back[s] == aux[s]
    {
      PackCopiesSource(aux, g, PackTarget(g, s));
      SourceOfTarget(g, s);
    }
  }

  /** Packing an unpacked buffer gives back the buffer. */
  lemma PackUnpack(packed: seq<int>, g: Geometry)
    requires g.Valid() && |packed| == g.N() * g.N()
    ensures Pack(Unpack(packed, g), g) == packed
  {
    var again := Pack(Unpack(packed, g), g);
    forall k | 0 <= k < g.N() * g.N()
      ensures again[k] == packed[k]
    {
      PackCopiesSource(Unpack(packed, g), g, k);
      TargetOfSource(g, k);
    }
  }

  /** Slot `i` of the packed buffer, the `tam²` entries a rank-ordered
      distribution would hand to worker `i`, is that worker's block: its row
      `r` is row `filaP * tam + r` of the matrix, columns
      `columnaP * tam .. columnaP * tam + tam - 1`. */
  lemma SlotHoldsSubmatrix(aux: seq<int>, g: Geometry, i: nat, r: nat, c: nat)
    requires g.Valid() && |aux| == g.N() * g.N()
    requires i < g.side * g.side && r < g.tam && c < g.tam
    ensures PackPos(g, i, r, c) < g.N() * g.N()
    ensures CoordOf(i, g.side).row * g.tam + r < g.N() && CoordOf(i, g.side).col * g.tam + c < g.N()
    ensures 0 <= (CoordOf(i, g.side).row * g.tam + r) * g.N() + CoordOf(i, g.side).col * g.tam + c < |aux|
    ensures Pack(aux, g)[PackPos(g, i, r, c)]
         == aux[(CoordOf(i, g.side).row * g.tam + r) * g.N() + CoordOf(i, g.side).col * g.tam + c]
  {
    var p := CoordOf(i, g.side);
    var row, col := p.row * g.tam + r, p.col * g.tam + c;
    PackPlacesBlocks(aux, g, i, r, c);
    PackReadsInBounds(g, i, r, c);
    assert BlockStart(g, i) + r * g.N() + c == row * g.N() + col;
  }

  // ---------------------------------------------------------------------------
  // The packing loop as written

  /** The block offsets the source's loop computes: one per worker rank
      `0 .. P - 1`, whatever the grid side. */
  function PackStartsAsWritten(g: Geometry, workers: nat): (starts: seq<int>)
    requires g.Valid()
    ensures |starts| == workers
  {
    seq(workers, i requires 0 <= i < workers => BlockStart(g, i))
  }

  /** With 5 workers and `n = 4` the start-up check passes (side 2, `tam` 2),
      yet the loop packs a fifth block for rank 4 at grid row 2, starting at
      offset 16 = `n * n`: past the end of `auxiliar`, and one block more
      than the `n * n` entries MPI_Pack is allowed to write into `A`. */
  lemma NonSquareWorkerCountPacksPastMatrix()
    ensures Configure(4, 5) == Proceed(Geometry(2, 2))
    ensures CoordOf(4, 2) == Coord(2, 0)
    ensures PackStartsAsWritten(Geometry(2, 2), 5)[4] == 16 == Geometry(2, 2).N() * Geometry(2, 2).N()
    ensures 5 * Geometry(2, 2).BlockLen() > Geometry(2, 2).N() * Geometry(2, 2).N()
  {
    assert GridSide(5) == 2 by { SideIs(5, 2); }
    DivModUnique(4, 2, 2, 0);
  }
}
