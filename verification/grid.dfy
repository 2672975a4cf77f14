/** The process grid of `bidimensional_matriz_x_vector.cpp`: the grid side
    `raizP` derived from the worker count, the divisibility check that guards
    the run, each worker's (row, column) coordinate, and the offset
    `comienzo` of the `tam`×`tam` block a worker owns in the row-major
    matrix. */
module Grid {
  import opened Arith

  /** `raizP = sqrt(P)` converted to `int`: the integer square root, the
      largest side whose square does not exceed the worker count. */
  function GridSide(workers: nat): (side: nat)
    ensures side * side <= workers < (side + 1) * (side + 1)
  {
    SideFrom(workers, 0)
  }

  /** Integer square root searched upwards from `r`. */
  function SideFrom(workers: nat, r: nat): (side: nat)
    requires r * r <= workers
    ensures side * side <= workers < (side + 1) * (side + 1)
    decreases workers - r * r
  {
    MulLeq(r, r + 1, r);
    MulLeq(r, r + 1, r + 1);
    if (r + 1) * (r + 1) <= workers then SideFrom(workers, r + 1) else r
  }

  /** For a square worker count the grid side is exact. */
  lemma GridSideOfSquare(side: nat)
    ensures GridSide(side * side) == side
  {
    SquareSucc(side);
    SideIs(side * side, side);
  }

  /** The shape of a run that passed the check: the grid side `raizP` and
      the block side `tam`. */
  datatype Geometry = Geometry(side: nat, tam: nat)
  {
    /** The matrix dimension, `tam * raizP`. */
    function N(): nat { tam * side }

    /** `nElem`: the entries of one block. */
    function BlockLen(): nat { tam * tam }

    /** A grid with at least one worker. */
    predicate Valid() { 0 < side }
  }

  /** What the start-up check decides: go on with a geometry, or stop with
      the usage message because `n` is not a multiple of `raizP`. */
  datatype Setup = Proceed(geometry: Geometry) | Abort(n: nat, side: nat)

  /** Start-up of the 2-D program: take the grid side, refuse an `n` that
      the side does not divide, otherwise derive `tam` and `nElem`. */
  function Configure(n: nat, workers: nat): (s: Setup)
    requires 0 < workers
    ensures s.Proceed? <==> n % GridSide(workers) == 0
    ensures s.Proceed? ==>
      && s.geometry.Valid()
      && s.geometry.side == GridSide(workers)
      && s.geometry.tam * s.geometry.side == n
      // `nElem = tam * tam`, which holds by the definition of BlockLen
      && s.geometry.BlockLen() == s.geometry.tam * s.geometry.tam
    ensures s.Abort? ==> s.n == n && s.side == GridSide(workers)
  {
    var side := GridSide(workers);
    if n % side != 0 then Abort(n, side) else Proceed(Geometry(side, n / side))
  }

  /** The concrete start-up cases: 5 workers give side 2, which does not
      divide 5, so the run stops; 8 workers give side 2 and `n = 6` passes
      with blocks of side 3; 9 workers give side 3 and `n = 6` passes with
      blocks of side 2. */
  lemma ConfigureExamples()
    ensures Configure(5, 5) == Abort(5, 2)
    ensures Configure(6, 8) == Proceed(Geometry(2, 3))
    ensures Configure(6, 9) == Proceed(Geometry(3, 2))
  {
    assert GridSide(5) == 2 by { SideIs(5, 2); }
    assert GridSide(8) == 2 by { SideIs(8, 2); }
    assert GridSide(9) == 3 by { GridSideOfSquare(3); }
  }

  /** The grid side is the unique `r` with `r * r <= P < (r + 1) * (r + 1)`. */
  lemma SideIs(workers: nat, r: nat)
    requires r * r <= workers < (r + 1) * (r + 1)
    ensures GridSide(workers) == r
  {
    var s := GridSide(workers);
    if s < r {
      SquareMono(s + 1, r);
    } else if r < s {
      SquareMono(r + 1, s);
    }
  }

  /** A worker's place in the grid. */
  datatype Coord = Coord(row: nat, col: nat)

  /** `filaP = i / raizP`, `columnaP = i % raizP`. */
  function CoordOf(rank: nat, side: nat): (c: Coord)
    requires 0 < side
    ensures c.col < side
    ensures rank < side * side ==> c.row < side
    ensures rank == c.row * side + c.col
  {
    var q, r := rank / side, rank % side;
    DivMod(rank, side);
    RowBelow(rank, side, side);
    Coord(q, r)
  }

  /** The rank of the worker at a grid position, row by row. */
  function RankOf(c: Coord, side: nat): nat
  {
    c.row * side + c.col
  }

  /** Ranks `0 .. raizP² - 1` and grid positions are in one-to-one
      correspondence: going from a position to its rank and back returns
      the position, and the rank is below `raizP²`. */
  lemma CoordRoundTrip(c: Coord, side: nat)
    requires 0 < side && c.row < side && c.col < side
    ensures RankOf(c, side) < side * side
    ensures CoordOf(RankOf(c, side), side) == c
  {
    RowMajorBound(c.row, c.col, side, side);
    DivModUnique(RankOf(c, side), side, c.row, c.col);
  }

  /** Distinct ranks have distinct grid positions. */
  lemma CoordsDistinct(rank1: nat, rank2: nat, side: nat)
    requires 0 < side && rank1 != rank2
    ensures CoordOf(rank1, side) != CoordOf(rank2, side)
  {
  }

  /** `comienzo`: where block `rank` starts in the row-major matrix, written
      in the source as `columnaP * tam + filaP * tam * tam * raizP`. */
  function BlockStart(g: Geometry, rank: nat): (start: int)
    requires g.Valid()
    ensures 0 <= start
  {
    var c := CoordOf(rank, g.side);
    MulLeq(0, c.col, g.tam);
    MulLeq(0, c.row * g.tam, g.tam);
    MulLeq(0, c.row * g.tam * g.tam, g.side);
    c.col * g.tam + c.row * g.tam * g.tam * g.side
  }

  /** `comienzo` is the row-major index of the block's top-left entry:
      row `filaP * tam`, column `columnaP * tam` of the `n`×`n` matrix. */
  lemma BlockStartIsTopLeft(g: Geometry, rank: nat)
    requires g.Valid()
    ensures BlockStart(g, rank) == (CoordOf(rank, g.side).row * g.tam) * g.N() + CoordOf(rank, g.side).col * g.tam
    ensures 0 <= BlockStart(g, rank)
  {
    var c := CoordOf(rank, g.side);
    assert c.row * g.tam * g.tam * g.side == (c.row * g.tam) * (g.tam * g.side);
    MulLeq(0, c.row * g.tam, g.N());
    MulLeq(0, c.col, g.tam);
  }

  /** While `n * n` fits in an `int`, so does `comienzo` for every rank in
      the grid. */
  lemma BlockStartFitsInt(g: Geometry, rank: nat)
    requires g.Valid() && rank < g.side * g.side && g.N() * g.N() <= IntMax
    ensures 0 <= BlockStart(g, rank) <= IntMax
  {
    BlockStartIsTopLeft(g, rank);
    if g.tam > 0 {
      PackReadsInBounds(g, rank, 0, 0);
    } else {
      assert BlockStart(g, rank) == 0;
    }
  }

  /** Every entry the pack reads for block `rank`, `comienzo + r * n + c`
      with `r, c < tam`, is row `filaP * tam + r`, column
      `columnaP * tam + c` of the matrix, and so lies in `[0, n * n)` when
      the rank is inside the grid. */
  lemma PackReadsInBounds(g: Geometry, rank: nat, r: nat, c: nat)
    requires g.Valid() && rank < g.side * g.side && r < g.tam && c < g.tam
    ensures BlockStart(g, rank) + r * g.N() + c
         == (CoordOf(rank, g.side).row * g.tam + r) * g.N() + (CoordOf(rank, g.side).col * g.tam + c)
    ensures CoordOf(rank, g.side).row * g.tam + r < g.N()
    ensures CoordOf(rank, g.side).col * g.tam + c < g.N()
    ensures 0 <= BlockStart(g, rank) + r * g.N() + c < g.N() * g.N()
  {
    var p := CoordOf(rank, g.side);
    BlockStartIsTopLeft(g, rank);
    MulAddRight(p.row * g.tam, r, g.N());
    RowMajorBound(p.row, r, g.side, g.tam);
    RowMajorBound(p.col, c, g.side, g.tam);
    RowMajorBound(p.row * g.tam + r, p.col * g.tam + c, g.N(), g.N());
  }
}
