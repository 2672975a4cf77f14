/** The three communicators `bidimensional_matriz_x_vector.cpp` builds with
    MPI_Comm_split: one per grid row (`filas`), one per grid column
    (`columnas`), and one for the diagonal workers (`diagonal`).  Every
    call passes the global rank `idProceso` as the key, so inside a new
    communicator the members are ranked in increasing global rank.  A
    worker whose colour is MPI_UNDEFINED joins no communicator. */
module CommSplit {
  import opened Arith

  /** The colour a worker passes to MPI_Comm_split. */
  datatype Colour = Undefined | Group(id: int)

  /** What MPI_Comm_split hands back to one worker: no communicator
      (MPI_COMM_NULL), or one of `size` members in which it has `rank`. */
  datatype Membership = NotMember | Member(size: nat, rank: nat)

  /** How many of the global ranks `0 .. m - 1` chose colour `c`. */
  function CountBelow(colours: seq<Colour>, c: Colour, m: nat): (count: nat)
    requires m <= |colours|
    ensures count <= m
  {
    if m == 0 then 0
    else CountBelow(colours, c, m - 1) + (if colours[m - 1] == c then 1 else 0)
  }

  /** Counting over a longer prefix never gives less. */
  lemma {:induction false} CountMonotone(colours: seq<Colour>, c: Colour, a: nat, b: nat)
    requires a <= b <= |colours|
    ensures CountBelow(colours, c, a) <= CountBelow(colours, c, b)
  {
    if a < b {
      CountMonotone(colours, c, a, b - 1);
    }
  }

  /** MPI_Comm_split with the global rank as key, seen from worker `me`
      of the `|colours|` workers: the members of its communicator are the
      workers of the same colour, and its rank counts those with a smaller
      global rank. */
  function Split(colours: seq<Colour>, me: nat): (m: Membership)
    requires me < |colours|
    ensures m.Member? <==> colours[me] != Undefined
    ensures m.Member? ==> m.rank < m.size <= |colours|
  {
    var c := colours[me];
    if c == Undefined then NotMember
    else
      CountMonotone(colours, c, me + 1, |colours|);
      Member(CountBelow(colours, c, |colours|), CountBelow(colours, c, me))
  }

  /** The reference ordering: the global ranks below `m` that chose colour
      `c`, in increasing order. */
  function Members(colours: seq<Colour>, c: Colour, m: nat): (ms: seq<nat>)
    requires m <= |colours|
    ensures |ms| == CountBelow(colours, c, m)
    ensures forall k :: 0 <= k < |ms| ==> ms[k] < m && colours[ms[k]] == c
    ensures forall k, l :: 0 <= k < l < |ms| ==> ms[k] < ms[l]
  {
    if m == 0 then []
    else if colours[m - 1] == c then Members(colours, c, m - 1) + [m - 1]
    else Members(colours, c, m - 1)
  }

  /** A worker of colour `c` below `m` appears in the reference ordering at
      the position given by the number of same-colour workers before it. */
  lemma {:induction false} MembersAt(colours: seq<Colour>, c: Colour, m: nat, me: nat)
    requires me < m <= |colours| && colours[me] == c
    ensures CountBelow(colours, c, me) < |Members(colours, c, m)|
    ensures Members(colours, c, m)[CountBelow(colours, c, me)] == me
  {
    if me < m - 1 {
      MembersAt(colours, c, m - 1, me);
    }
  }

  /** The split agrees with the reference ordering: the communicator's size
      is the number of same-colour workers, and the worker's new rank is its
      position among them in increasing global rank.  A worker is a member
      exactly when its colour is defined, and then it appears in the list. */
  lemma SplitRanksByGlobalRank(colours: seq<Colour>, me: nat)
    requires me < |colours|
    ensures Split(colours, me).Member? ==>
      && Split(colours, me).size == |Members(colours, colours[me], |colours|)|
      && Members(colours, colours[me], |colours|)[Split(colours, me).rank] == me
  {
    if colours[me] != Undefined {
      MembersAt(colours, colours[me], |colours|, me);
    }
  }

  /** Two workers that share a communicator keep their relative order. */
  lemma {:induction false} SplitPreservesOrder(colours: seq<Colour>, me1: nat, me2: nat)
    requires me1 < me2 < |colours| && colours[me1] == colours[me2] != Undefined
    ensures Split(colours, me1).rank < Split(colours, me2).rank
  {
    CountMonotone(colours, colours[me1], me1 + 1, me2);
  }

  // ---------------------------------------------------------------------------
  // The grid's three colourings

  /** `filaP = idProceso / raizP`: the grid row. */
  function RowColours(workers: nat, side: nat): (cs: seq<Colour>)
    requires 0 < side
    ensures |cs| == workers
  {
    seq(workers, i requires 0 <= i < workers => Group(i / side))
  }

  /** `columnaP = idProceso % raizP`: the grid column. */
  function ColumnColours(workers: nat, side: nat): (cs: seq<Colour>)
    requires 0 < side
    ensures |cs| == workers
  {
    seq(workers, i requires 0 <= i < workers => Group(i % side))
  }

  /** `inDiagonal`: 1 when `filaP == columnaP`, MPI_UNDEFINED otherwise. */
  function DiagonalColours(workers: nat, side: nat): (cs: seq<Colour>)
    requires 0 < side
    ensures |cs| == workers
  {
    seq(workers, i requires 0 <= i < workers => if i / side == i % side then Group(1) else Undefined)
  }

  /** Among the first `q * raizP + r` ranks (`r < raizP`), grid row `f` has
      none before the row starts, `r` while it is being filled, and `raizP`
      after it. */
  lemma {:induction false} RowCount(workers: nat, side: nat, f: nat, q: nat, r: nat)
    requires r < side && q * side + r <= workers
    ensures CountBelow(RowColours(workers, side), Group(f), q * side + r)
         == if q < f then 0 else if q == f then r else side
    decreases q, r
  {
    var cs, m := RowColours(workers, side), q * side + r;
    if r > 0 {
      RowCount(workers, side, f, q, r - 1);
      DivModUnique(m - 1, side, q, r - 1);
      assert cs[m - 1] == Group(q);
    } else if q > 0 {
      MulSucc(q - 1, side);
      assert m - 1 == (q - 1) * side + (side - 1);
      RowCount(workers, side, f, q - 1, side - 1);
      DivModUnique(m - 1, side, q - 1, side - 1);
      assert cs[m - 1] == Group(q - 1);
    }
  }

  /** Among the first `q * raizP + r` ranks (`r < raizP`), grid column `c`
      has one per completed grid row, plus one if the current row has passed
      column `c`. */
  lemma {:induction false} ColumnCount(workers: nat, side: nat, c: nat, q: nat, r: nat)
    requires c < side && r < side && q * side + r <= workers
    ensures CountBelow(ColumnColours(workers, side), Group(c), q * side + r)
         == q + if r > c then 1 else 0
    decreases q, r
  {
    var cs, m := ColumnColours(workers, side), q * side + r;
    if r > 0 {
      ColumnCount(workers, side, c, q, r - 1);
      DivModUnique(m - 1, side, q, r - 1);
      assert cs[m - 1] == Group(r - 1);
    } else if q > 0 {
      MulSucc(q - 1, side);
      assert m - 1 == (q - 1) * side + (side - 1);
      ColumnCount(workers, side, c, q - 1, side - 1);
      DivModUnique(m - 1, side, q - 1, side - 1);
      assert cs[m - 1] == Group(side - 1);
    }
  }

  /** Among the first `q * raizP + r` ranks of the square grid, the
      diagonal has one worker per completed grid row, plus one if the
      current row has passed its diagonal entry. */
  lemma {:induction false} DiagonalCount(workers: nat, side: nat, q: nat, r: nat)
    requires r < side && (q < side || (q == side && r == 0)) && q * side + r <= workers
    ensures CountBelow(DiagonalColours(workers, side), Group(1), q * side + r)
         == q + if r > q then 1 else 0
    decreases q, r
  {
    var cs, m := DiagonalColours(workers, side), q * side + r;
    if r > 0 {
      DiagonalCount(workers, side, q, r - 1);
      DivModUnique(m - 1, side, q, r - 1);
      assert cs[m - 1] == if q == r - 1 then Group(1) else Undefined;
    } else if q > 0 {
      MulSucc(q - 1, side);
      assert m - 1 == (q - 1) * side + (side - 1);
      DiagonalCount(workers, side, q - 1, side - 1);
      DivModUnique(m - 1, side, q - 1, side - 1);
      assert cs[m - 1] == if q == side then Group(1) else Undefined;
    }
  }

  /** With `P = raizP²` workers, the row communicator of worker `me` has
      `raizP` members and ranks the worker by its grid column. */
  lemma RowGroup(side: nat, me: nat)
    requires 0 < side && me < side * side
    ensures Split(RowColours(side * side, side), me) == Member(side, me % side)
  {
    var q, r := me / side, me % side;
    SplitIndex(me, side, side);
    RowCount(side * side, side, q, q, r);
    RowCount(side * side, side, q, side, 0);
  }

  /** With `P = raizP²` workers, the column communicator of worker `me` has
      `raizP` members and ranks the worker by its grid row. */
  lemma ColumnGroup(side: nat, me: nat)
    requires 0 < side && me < side * side
    ensures Split(ColumnColours(side * side, side), me) == Member(side, me / side)
  {
    var q, r := me / side, me % side;
    SplitIndex(me, side, side);
    ColumnCount(side * side, side, r, q, r);
    ColumnCount(side * side, side, r, side, 0);
  }

  /** With `P = raizP²` workers, exactly the workers with `filaP ==
      columnaP` join the diagonal communicator; it has `raizP` members, and
      a diagonal worker's rank there is its grid row. */
  lemma DiagonalGroup(side: nat, me: nat)
    requires 0 < side && me < side * side
    ensures Split(DiagonalColours(side * side, side), me)
         == if me / side == me % side then Member(side, me / side) else NotMember
  {
    var q, r := me / side, me % side;
    SplitIndex(me, side, side);
    if q == r {
      DiagonalCount(side * side, side, q, r);
      DiagonalCount(side * side, side, side, 0);
    }
  }

  /** A diagonal worker has the same rank, its grid row, in all three
      communicators. */
  lemma DiagonalWorkerRanksAgree(side: nat, me: nat)
    requires 0 < side && me < side * side && me / side == me % side
    ensures Split(RowColours(side * side, side), me).rank
         == Split(ColumnColours(side * side, side), me).rank
         == Split(DiagonalColours(side * side, side), me).rank
         == me / side
  {
    RowGroup(side, me);
    ColumnGroup(side, me);
    DiagonalGroup(side, me);
  }
}
