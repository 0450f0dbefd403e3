/** `get_neighbors` (main.py:127-147): the cells that share a row, a column
    or a subgrid with a cell, in the order the source lists them. */
module PeerList {
  import opened Sudoku

  predicate Distinct(s: seq<Pos>) {
    forall i, j :: 0 <= i < j < |s| ==> s[i] != s[j]
  }

  /** Top-left cell of the subgrid holding `p`. */
  function Corner(p: Pos): (c: Pos)
    requires InRange(p)
    ensures 0 <= c.row && c.row + 3 <= N && 0 <= c.col && c.col + 3 <= N
    ensures c.row <= p.row < c.row + 3 && c.col <= p.col < c.col + 3
  {
    var (sr, sc) := SubgridIndex(p);
    Pos(sr * 3, sc * 3)
  }

  /** The subgrid of `p` is the 3 x 3 block at its corner. */
  lemma CornerSubgrid(p: Pos, q: Pos)
    requires InRange(p)
    ensures SameSubgrid(p, q) <==> Corner(p).row <= q.row < Corner(p).row + 3 && Corner(p).col <= q.col < Corner(p).col + 3
  {
  }

  /** Row `row` of a subgrid whose first column is `left`: its first `j`
      columns, column `skip` left out. */
  function RowPart(row: int, left: int, skip: int, j: int): seq<Pos>
    requires 0 <= j <= Sub
  {
    if j == 0 then []
    else
      var col := left + j - 1;
      RowPart(row, left, skip, j - 1) + (if col != skip then [Pos(row, col)] else [])
  }

  /** The first `i` rows of the subgrid with corner (`top`, `left`), the row
      and the column of `p` left out (the `continue` of main.py:134-135). */
  function BlockPart(top: int, left: int, p: Pos, i: int): seq<Pos>
    requires 0 <= i <= Sub
  {
    if i == 0 then []
    else
      var row := top + i - 1;
      if row == p.row then BlockPart(top, left, p, i - 1)
      else BlockPart(top, left, p, i - 1) + RowPart(row, left, p.col, Sub)
  }

  /** The row and column passes for indices below `i`, `p` itself left out. */
  function LinePart(p: Pos, i: int): seq<Pos>
    requires 0 <= i <= N
  {
    if i == 0 then []
    else
      var k := i - 1;
      LinePart(p, k) + (if k != p.col then [Pos(p.row, k)] else []) + (if k != p.row then [Pos(k, p.col)] else [])
  }

  /** The list `get_neighbors` returns, in its order. */
  function Neighbors(p: Pos): seq<Pos>
    requires InRange(p)
  {
    BlockPart(Corner(p).row, Corner(p).col, p, Sub) + LinePart(p, N)
  }

  lemma DistinctConcat(a: seq<Pos>, b: seq<Pos>)
    requires Distinct(a) && Distinct(b) && forall x :: x in a ==> x !in b
    ensures Distinct(a + b)
  {
    forall i, j | 0 <= i < j < |a + b| ensures (a + b)[i] != (a + b)[j] {
      if i < |a| && j >= |a| {
        assert (a + b)[i] in a && (a + b)[j] == b[j - |a|];
      }
    }
  }

  lemma {:induction false} RowPartFacts(row: int, left: int, skip: int, j: int)
    requires 0 <= j <= Sub
    ensures Distinct(RowPart(row, left, skip, j))
    ensures |RowPart(row, left, skip, j)| == if left <= skip < left + j then j - 1 else j
    ensures forall q :: q in RowPart(row, left, skip, j) <==> q.row == row && left <= q.col < left + j && q.col != skip
  {
    if j > 0 {
      var col := left + j - 1;
      var prev := RowPart(row, left, skip, j - 1);
      var step := if col != skip then [Pos(row, col)] else [];
      RowPartFacts(row, left, skip, j - 1);
      DistinctConcat(prev, step);
    }
  }

  lemma {:induction false} BlockPartMembers(top: int, left: int, p: Pos, i: int)
    requires 0 <= i <= Sub
    ensures forall q :: q in BlockPart(top, left, p, i) <==>
      top <= q.row < top + i && q.row != p.row && left <= q.col < left + 3 && q.col != p.col
  {
    if i > 0 {
      var row := top + i - 1;
      BlockPartMembers(top, left, p, i - 1);
      if row != p.row {
        RowPartFacts(row, left, p.col, Sub);
      }
    }
  }

  lemma {:induction false} BlockPartLength(top: int, left: int, p: Pos, i: int)
    requires 0 <= i <= Sub && left <= p.col < left + 3
    ensures |BlockPart(top, left, p, i)| == 2 * (if top <= p.row < top + i then i - 1 else i)
  {
    if i > 0 {
      var row := top + i - 1;
      BlockPartLength(top, left, p, i - 1);
      if row != p.row {
        RowPartFacts(row, left, p.col, Sub);
      }
    }
  }

  lemma {:induction false} BlockPartDistinct(top: int, left: int, p: Pos, i: int)
    requires 0 <= i <= Sub
    ensures Distinct(BlockPart(top, left, p, i))
  {
    if i > 0 {
      var row := top + i - 1;
      BlockPartDistinct(top, left, p, i - 1);
      if row != p.row {
        var prev := BlockPart(top, left, p, i - 1);
        var step := RowPart(row, left, p.col, Sub);
        assert BlockPart(top, left, p, i) == prev + step;
        BlockPartMembers(top, left, p, i - 1);
        RowPartFacts(row, left, p.col, Sub);
        forall x | x in prev ensures x !in step {
          assert x.row < row;
        }
        DistinctConcat(prev, step);
      }
    }
  }

  lemma {:induction false} LinePartMembers(p: Pos, i: int)
    requires 0 <= i <= N
    ensures forall q :: q in LinePart(p, i) <==>
      (q.row == p.row && 0 <= q.col < i && q.col != p.col)
      || (q.col == p.col && 0 <= q.row < i && q.row != p.row)
  {
    if i > 0 {
      LinePartMembers(p, i - 1);
    }
  }

  lemma {:induction false} LinePartShape(p: Pos, i: int)
    requires 0 <= i <= N
    ensures Distinct(LinePart(p, i))
    ensures |LinePart(p, i)| == 2 * i - (if 0 <= p.col < i then 1 else 0) - (if 0 <= p.row < i then 1 else 0)
  {
    if i > 0 {
      var k := i - 1;
      var prev := LinePart(p, k);
      var step := (if k != p.col then [Pos(p.row, k)] else []) + (if k != p.row then [Pos(k, p.col)] else []);
      assert LinePart(p, i) == prev + step;
      LinePartShape(p, k);
      LinePartMembers(p, k);
      forall x | x in prev ensures x !in step {
      }
      DistinctConcat(prev, step);
    }
  }

  /** `get_neighbors(u)` lists each peer of `u` exactly once, and nothing
      else: (3-1)^2 + 2(N-1) = 20 cells. */
  lemma NeighborsExact(p: Pos)
    requires InRange(p)
    ensures |Neighbors(p)| == 20
    ensures Distinct(Neighbors(p))
    ensures p !in Neighbors(p)
    ensures forall q :: q in Neighbors(p) <==> IsPeer(p, q)
  {
    var c := Corner(p);
    var a, b := BlockPart(c.row, c.col, p, Sub), LinePart(p, N);
    BlockPartLength(c.row, c.col, p, Sub);
    LinePartShape(p, N);
    BlockPartDistinct(c.row, c.col, p, Sub);
    BlockPartMembers(c.row, c.col, p, Sub);
    LinePartMembers(p, N);
    forall x | x in a ensures x !in b {
    }
    DistinctConcat(a, b);
    forall q ensures q in Neighbors(p) <==> IsPeer(p, q) {
      NeighborMember(p, q);
    }
  }

  lemma NeighborMember(p: Pos, q: Pos)
    requires InRange(p)
    ensures q in Neighbors(p) <==> IsPeer(p, q)
  {
    var c := Corner(p);
    var a, b := BlockPart(c.row, c.col, p, Sub), LinePart(p, N);
    assert q in a + b <==> q in a || q in b;
    BlockPartMembers(c.row, c.col, p, Sub);
    LinePartMembers(p, N);
    CornerSubgrid(p, q);
  }

  /** Peers are symmetric: `p` is among the neighbours of each of its neighbours. */
  lemma PeerSymmetric(p: Pos, q: Pos)
    requires InRange(p) && IsPeer(p, q)
    ensures IsPeer(q, p)
  {
  }

  /** `get_neighbors`, with the source's two loops and its `continue`. */
  method GetNeighbors(p: Pos) returns (ns: seq<Pos>)
    requires InRange(p)
    ensures ns == Neighbors(p)
    ensures |ns| == 20 && Distinct(ns)
    ensures forall q :: q in ns <==> IsPeer(p, q)
  {
    ns := [];
    var c := Corner(p);
    var i := 0;
    while i < Sub
      invariant 0 <= i <= Sub
      invariant ns == BlockPart(c.row, c.col, p, i)
    {
      var row := c.row + i;
      if row != p.row {
        var j := 0;
        while j < Sub
          invariant 0 <= j <= Sub
          invariant ns == BlockPart(c.row, c.col, p, i) + RowPart(row, c.col, p.col, j)
        {
          var col := c.col + j;
          if col != p.col {
            ns := ns + [Pos(row, col)];
          }
          j := j + 1;
        }
      }
      i := i + 1;
    }
    i := 0;
    while i < N
      invariant 0 <= i <= N
      invariant ns == BlockPart(c.row, c.col, p, Sub) + LinePart(p, i)
    {
      var step := (if i != p.col then [Pos(p.row, i)] else []) + (if i != p.row then [Pos(i, p.col)] else []);
      if i != p.col {
        ns := ns + [Pos(p.row, i)];
      }
      if i != p.row {
        ns := ns + [Pos(i, p.col)];
      }
      assert LinePart(p, i + 1) == LinePart(p, i) + step;
      i := i + 1;
    }
    assert ns == Neighbors(p);
    NeighborsExact(p);
  }
}
