/** The read-only scans of the search: `get_mrv_unit` (main.py:52-61),
    `get_unsolved_unit` (main.py:42-49), `check_consistency`
    (main.py:64-72) and the list of unsolved cells `get_board_input`
    collects (main.py:154-163). Each loops over the board and changes
    nothing. */
module Scans {
  import opened Sudoku
  import opened PeerList

  /** `q` is among the cells a row-major scan has passed when it stands at
      row `i`, column `j`. */
  predicate Visited(q: Pos, i: int, j: int) {
    q.row < i || (q.row == i && q.col < j)
  }

  /** `get_mrv_unit`: the unknown cell with the fewest candidates, the first
      in row-major order among equals (the comparison is a strict `<`).
      Only lists shorter than N + 1 compete, so no cell is found exactly
      when every unknown cell has more than N candidates. */
  method GetMrvUnit(g: Grid) returns (r: Option<Pos>)
    requires Shaped(g)
    ensures r.None? <==> forall q :: InRange(q) && g.value[q] == 0 ==> |g.domain[q]| > N
    ensures r.Some? ==> InRange(r.value) && g.value[r.value] == 0 && |g.domain[r.value]| <= N
    ensures r.Some? ==> forall q :: InRange(q) && g.value[q] == 0 ==> |g.domain[r.value]| <= |g.domain[q]|
    ensures r.Some? ==> forall q :: InRange(q) && g.value[q] == 0 && RowMajorBefore(q, r.value) ==>
      |g.domain[r.value]| < |g.domain[q]|
    ensures (exists q :: InRange(q) && g.value[q] == 0 && g.domain[q] == []) ==>
      r.Some? && g.domain[r.value] == []
  {
    var minSize := N + 1;
    r := None;
    var i := 0;
    while i < N
      invariant 0 <= i <= N
      invariant r.None? ==> minSize == N + 1
      invariant r.Some? ==> (InRange(r.value) && Visited(r.value, i, 0) && g.value[r.value] == 0
        && minSize == |g.domain[r.value]| <= N)
      invariant forall q :: InRange(q) && Visited(q, i, 0) && g.value[q] == 0 ==> minSize <= |g.domain[q]|
      invariant r.Some? ==> forall q :: InRange(q) && g.value[q] == 0 && RowMajorBefore(q, r.value) ==>
        minSize < |g.domain[q]|
    {
      var j := 0;
      while j < N
        invariant 0 <= j <= N
        invariant r.None? ==> minSize == N + 1
        invariant r.Some? ==> (InRange(r.value) && Visited(r.value, i, j) && g.value[r.value] == 0
          && minSize == |g.domain[r.value]| <= N)
        invariant forall q :: InRange(q) && Visited(q, i, j) && g.value[q] == 0 ==> minSize <= |g.domain[q]|
        invariant r.Some? ==> forall q :: InRange(q) && g.value[q] == 0 && RowMajorBefore(q, r.value) ==>
          minSize < |g.domain[q]|
      {
        var here := Pos(i, j);
        if g.value[here] == 0 && |g.domain[here]| < minSize {
          minSize := |g.domain[here]|;
          r := Some(here);
        }
        j := j + 1;
      }
      i := i + 1;
    }
  }

  /** `get_unsolved_unit`: the first unknown cell in row-major order. */
  method GetUnsolvedUnit(g: Grid) returns (r: Option<Pos>)
    requires Shaped(g)
    ensures r.None? <==> forall q :: InRange(q) ==> g.value[q] != 0
    ensures r.Some? ==> InRange(r.value) && g.value[r.value] == 0
    ensures r.Some? ==> forall q :: InRange(q) && RowMajorBefore(q, r.value) ==> g.value[q] != 0
  {
    var i := 0;
    while i < N
      invariant 0 <= i <= N
      invariant forall q :: InRange(q) && Visited(q, i, 0) ==> g.value[q] != 0
    {
      var j := 0;
      while j < N
        invariant 0 <= j <= N
        invariant forall q :: InRange(q) && Visited(q, i, j) ==> g.value[q] != 0
      {
        if g.value[Pos(i, j)] == 0 {
          return Some(Pos(i, j));
        }
        j := j + 1;
      }
      i := i + 1;
    }
    return None;
  }

  /** `check_consistency(u)`: false when `u` is unknown, has no candidate,
      or shares its value with a peer; true otherwise. */
  method CheckConsistency(g: Grid, p: Pos) returns (ok: bool)
    requires Shaped(g) && InRange(p)
    ensures ok <==> (g.value[p] != 0 && g.domain[p] != []
      && forall q :: IsPeer(p, q) ==> g.value[q] != g.value[p])
  {
    var nbs := GetNeighbors(p);
    if g.value[p] == 0 || |g.domain[p]| == 0 {
      return false;
    }
    forall m | 0 <= m < |nbs| ensures InRange(nbs[m]) {
      assert nbs[m] in nbs;
    }
    var k := 0;
    while k < |nbs|
      invariant 0 <= k <= |nbs|
      invariant forall m :: 0 <= m < k ==> g.value[nbs[m]] != g.value[p]
    {
      if g.value[nbs[k]] == g.value[p] {
        return false;
      }
      k := k + 1;
    }
    forall q | IsPeer(p, q) ensures g.value[q] != g.value[p] {
      var m :| 0 <= m < |nbs| && nbs[m] == q;
    }
    return true;
  }

  /** The `unsolved` list of `get_board_input` (main.py:154-163): every
      unknown cell once, in row-major order. */
  method UnsolvedCells(g: Grid) returns (cells: seq<Pos>)
    requires Shaped(g)
    ensures forall q :: q in cells <==> InRange(q) && g.value[q] == 0
    ensures forall a, b :: 0 <= a < b < |cells| ==> RowMajorBefore(cells[a], cells[b])
  {
    cells := [];
    var i := 0;
    while i < N
      invariant 0 <= i <= N
      invariant forall q :: q in cells ==> InRange(q) && g.value[q] == 0 && Visited(q, i, 0)
      invariant forall q :: InRange(q) && Visited(q, i, 0) && g.value[q] == 0 ==> q in cells
      invariant forall a, b :: 0 <= a < b < |cells| ==> RowMajorBefore(cells[a], cells[b])
    {
      var j := 0;
      while j < N
        invariant 0 <= j <= N
        invariant forall q :: q in cells ==> InRange(q) && g.value[q] == 0 && Visited(q, i, j)
        invariant forall q :: InRange(q) && Visited(q, i, j) && g.value[q] == 0 ==> q in cells
        invariant forall a, b :: 0 <= a < b < |cells| ==> RowMajorBefore(cells[a], cells[b])
      {
        if g.value[Pos(i, j)] == 0 {
          assert forall a :: 0 <= a < |cells| ==> cells[a] in cells;
          cells := cells + [Pos(i, j)];
        }
        j := j + 1;
      }
      i := i + 1;
    }
  }

  /** On a well-formed board a list never has more than N candidates, so
      `get_mrv_unit` finds no cell exactly when no cell is unknown. */
  lemma MrvSeesEveryUnknown(g: Grid)
    requires Wf(g)
    ensures (forall q :: InRange(q) && g.value[q] == 0 ==> |g.domain[q]| > N)
      <==> (forall q :: InRange(q) ==> g.value[q] != 0)
  {
    forall q | InRange(q) ensures |g.domain[q]| <= N {
      IncreasingDigitsBound(g.domain[q]);
    }
  }
}
