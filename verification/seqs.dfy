/** Concatenation of a sequence of pieces, in order.  Both MPI_Scatterv's send
    regions and MPI_Pack's output are contiguous runs laid end to end, so this
    is the shape shared by the two decompositions. */
module Seqs {
  import opened Arith

  /** The pieces laid end to end, first piece first. */
  function Flatten<T>(pieces: seq<seq<T>>): seq<T>
  {
    if |pieces| == 0 then [] else Flatten(pieces[..|pieces| - 1]) + pieces[|pieces| - 1]
  }

  /** A window of a window is a window of the original. */
  lemma SliceOfSlice<T>(s: seq<T>, d: int, len: int, o: int, w: int)
    requires 0 <= d && d + len <= |s| && 0 <= o && o + w <= len && 0 <= w
    ensures s[d..d + len][o..o + w] == s[d + o..d + o + w]
  {
    var inner := s[d..d + len][o..o + w];
    assert forall k :: 0 <= k < w ==> inner[k] == s[d + o + k];
  }

  /** Every piece has length `len`. */
  ghost predicate Uniform<T>(pieces: seq<seq<T>>, len: nat)
  {
    forall i :: 0 <= i < |pieces| ==> |pieces[i]| == len
  }

  /** The concatenation of `m` pieces of length `len` has `m * len` entries. */
  lemma {:induction false} FlattenLength<T>(pieces: seq<seq<T>>, len: nat)
    requires Uniform(pieces, len)
    ensures |Flatten(pieces)| == |pieces| * len
  {
    if |pieces| > 0 {
      var last := |pieces| - 1;
      FlattenLength(pieces[..last], len);
      MulSucc(last, len);
    }
  }

  /** Position `i * len + j` of the concatenation of equal-length pieces holds
      element `j` of piece `i`. */
  lemma {:induction false} FlattenAt<T>(pieces: seq<seq<T>>, len: nat, i: nat, j: nat)
    requires Uniform(pieces, len) && i < |pieces| && j < len
    ensures i * len + j < |Flatten(pieces)|
    ensures Flatten(pieces)[i * len + j] == pieces[i][j]
  {
    var last := |pieces| - 1;
    var init := pieces[..last];
    FlattenLength(pieces, len);
    FlattenLength(init, len);
    RowMajorBound(i, j, |pieces|, len);
    assert Flatten(pieces) == Flatten(init) + pieces[last];
    if i < last {
      FlattenAt(init, len, i, j);
      assert init[i] == pieces[i];
    }
  }

  /** Pieces cut from `s` at consecutive, gap-free offsets starting at 0 and
      ending at `|s|` concatenate back to `s`. */
  lemma {:induction false} FlattenContiguous<T>(s: seq<T>, pieces: seq<seq<T>>, starts: seq<int>)
    requires |pieces| == |starts| && 0 < |pieces|
    requires starts[0] == 0
    requires forall p :: 0 <= p < |pieces| ==>
      0 <= starts[p] && starts[p] + |pieces[p]| <= |s| && pieces[p] == s[starts[p]..starts[p] + |pieces[p]|]
    requires forall p :: 0 <= p < |pieces| - 1 ==> starts[p] + |pieces[p]| == starts[p + 1]
    requires starts[|pieces| - 1] + |pieces[|pieces| - 1]| == |s|
    ensures Flatten(pieces) == s
  {
    FlattenPrefix(s, pieces, starts, |pieces|);
    assert pieces[..|pieces|] == pieces;
    assert s[..|s|] == s;
  }

  /** The first `m` pieces concatenate to the prefix of `s` that they cover. */
  lemma {:induction false} FlattenPrefix<T>(s: seq<T>, pieces: seq<seq<T>>, starts: seq<int>, m: nat)
    requires |pieces| == |starts| && 0 < m <= |pieces|
    requires starts[0] == 0
    requires forall p :: 0 <= p < |pieces| ==>
      0 <= starts[p] && starts[p] + |pieces[p]| <= |s| && pieces[p] == s[starts[p]..starts[p] + |pieces[p]|]
    requires forall p :: 0 <= p < |pieces| - 1 ==> starts[p] + |pieces[p]| == starts[p + 1]
    ensures Flatten(pieces[..m]) == s[..starts[m - 1] + |pieces[m - 1]|]
  {
    var end := starts[m - 1] + |pieces[m - 1]|;
    assert pieces[..m][..m - 1] == pieces[..m - 1];
    if m == 1 {
      assert Flatten(pieces[..m]) == Flatten(pieces[..0]) + pieces[0];
    } else {
      FlattenPrefix(s, pieces, starts, m - 1);
      assert starts[m - 2] + |pieces[m - 2]| == starts[m - 1];
      assert Flatten(pieces[..m]) == Flatten(pieces[..m - 1]) + pieces[m - 1];
      assert s[..starts[m - 1]] + s[starts[m - 1]..end] == s[..end];
    }
  }
}
