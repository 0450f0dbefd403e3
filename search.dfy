/** `backtrack` (main.py:23-39) and the solve sequence of `main`
    (main.py:11-20): depth-first search over copies of the board, with
    forward checking after each placement. */
module Search {
  import opened Sudoku
  import opened PeerList
  import opened Constraints
  import opened Scans
  import opened Boards

  /** Placing one of an unknown cell's candidates keeps the board invariant
      and only narrows the board. */
  lemma PlacedNarrows(g: Grid, p: Pos, v: int)
    requires Wf(g) && InRange(p) && g.value[p] == 0 && v in g.domain[p]
    ensures Wf(Placed(g, p, v)) && Narrows(g, Placed(g, p, v))
  {
    assert CellOk(v, [v]);
  }

  /** A solution the board admits is still admitted once its own value is
      placed. */
  lemma PlacedAdmits(g: Grid, p: Pos, s: map<Pos, int>)
    requires Admits(g, s) && InRange(p)
    ensures Admits(Placed(g, p, s[p]), s)
  {
  }

  /** Placing a value no peer holds keeps a conflict-free board
      conflict-free. */
  lemma PlacedKeepsNoConflict(g: Grid, p: Pos, v: int)
    requires Shaped(g) && InRange(p) && NoConflict(g.value)
    requires forall q :: IsPeer(p, q) ==> g.value[q] != v
    ensures NoConflict(Placed(g, p, v).value)
  {
    var h := Placed(g, p, v).value;
    forall a, b | a in h && b in h && IsPeer(a, b) && h[a] != 0 ensures h[a] != h[b] {
      if b == p {
        PeerSymmetric(a, b);
      }
    }
  }

  /** Two peers that hold the same value rule out every solution: the case
      in which `check_consistency` rejects a placement. */
  lemma ConflictAdmitsNothing(g: Grid, p: Pos, q: Pos)
    requires Wf(g) && InRange(p) && IsPeer(p, q) && g.value[p] != 0 && g.value[q] == g.value[p]
    ensures forall s :: IsSolution(s) ==> !Admits(g, s)
  {
    forall s | IsSolution(s) && Admits(g, s) ensures false {
      KnownAdmits(g, s, p);
      KnownAdmits(g, s, q);
    }
  }

  /** A conflict-free board with no unknown cell is a solution, and the only
      one it admits. */
  lemma Completed(g: Grid)
    requires Wf(g) && NoConflict(g.value) && forall q :: InRange(q) ==> g.value[q] != 0
    ensures IsSolution(g.value) && Admits(g, g.value)
  {
    forall q | InRange(q) ensures g.value[q] in g.domain[q] {
      assert g.domain[q] == [g.value[q]];
    }
  }

  lemma SubsetCardinality(a: set<Pos>, b: set<Pos>)
    requires a <= b
    ensures |a| <= |b|
  {
    assert b == a + (b - a);
  }

  /** A placement that is narrowed further leaves fewer unknown cells: the
      measure on which `backtrack` recurses. */
  lemma UnknownsShrink(g: Grid, h: Grid, p: Pos)
    requires Shaped(g) && Shaped(h) && Narrows(g, h)
    requires InRange(p) && g.value[p] == 0 && h.value[p] != 0
    ensures |Unknowns(h.value)| < |Unknowns(g.value)|
  {
    var ug, uh := Unknowns(g.value), Unknowns(h.value);
    assert uh <= ug - {p};
    SubsetCardinality(uh, ug - {p});
  }

  /** A value ruled out on the placed board is ruled out for the cell. */
  lemma RejectedValue(g: Grid, p: Pos, v: int)
    requires InRange(p) && forall s :: IsSolution(s) ==> !Admits(Placed(g, p, v), s)
    ensures forall s :: IsSolution(s) && Admits(g, s) ==> s[p] != v
  {
    forall s | IsSolution(s) && Admits(g, s) ensures s[p] != v {
      PlacedAdmits(g, p, s);
    }
  }

  /** In an ascending list, a value that is not among the first `k` is at
      least the `k`-th. */
  lemma FirstUntried(options: seq<int>, k: int, x: int)
    requires Increasing(options) && 0 <= k < |options|
    requires x in options && x !in options[..k]
    ensures options[k] <= x
  {
    var j :| 0 <= j < |options| && options[j] == x;
  }

  /** `backtrack(board, cur_unit)`: the candidates of `cur_unit` are tried in
      list order, the first that leads to a solution wins. The input board
      is never changed (the method may modify no existing object). A
      returned board holds a solution the input admits, and no admitted
      solution gives `cur_unit` a smaller value; when none is returned, the
      input admits no solution. */
  method Backtrack(b: Board, cur: Option<Pos>) returns (r: Option<Board>)
    requires b.Valid() && NoConflict(b.value)
    requires cur.None? ==> forall q :: InRange(q) ==> b.value[q] != 0
    requires cur.Some? ==> InRange(cur.value) && b.value[cur.value] == 0
    ensures r.Some? ==> IsSolution(r.value.value) && Admits(b.State(), r.value.value)
    ensures r.None? ==> forall s :: IsSolution(s) ==> !Admits(b.State(), s)
    ensures r.Some? && cur.Some? ==> forall s :: IsSolution(s) && Admits(b.State(), s) ==>
      r.value.value[cur.value] <= s[cur.value]
    decreases |Unknowns(b.value)|, 1
  {
    if cur.None? {
      Completed(b.State());
      return Some(b);
    }
    var p := cur.value;
    var options := b.domain[p];
    var k := 0;
    while k < |options|
      invariant 0 <= k <= |options|
      invariant forall s :: IsSolution(s) && Admits(b.State(), s) ==> s[p] !in options[..k]
    {
      var v := options[k];
      assert v in options;
      var result := TryCandidate(b, p, v);
      if result.Some? {
        forall s | IsSolution(s) && Admits(b.State(), s) ensures v <= s[p] {
          FirstUntried(options, k, s[p]);
        }
        return result;
      }
      assert options[..k + 1] == options[..k] + [v];
      k := k + 1;
    }
    assert options[..k] == options;
    return None;
  }

  /** One turn of the loop of `backtrack` (main.py:28-38): place `v` on a
      copy of the board, check it against its peers, forward-check the
      peers and recurse on the most constrained cell. A returned board holds
      a solution the input admits; otherwise no solution the input admits
      gives the cell the value `v`. */
  method TryCandidate(b: Board, p: Pos, v: int) returns (r: Option<Board>)
    requires b.Valid() && NoConflict(b.value)
    requires InRange(p) && b.value[p] == 0 && v in b.domain[p]
    ensures r.Some? ==> IsSolution(r.value.value) && Admits(b.State(), r.value.value)
    ensures r.Some? ==> r.value.value[p] == v
    ensures r.None? ==> forall s :: IsSolution(s) && Admits(b.State(), s) ==> s[p] != v
    decreases |Unknowns(b.value)|, 0
  {
    ghost var g := b.State();
    PlacedNarrows(g, p, v);
    var nb := new Board.Copy(b);
    nb.Place(p, v);
    assert b.State() == g;
    var ok := CheckConsistency(nb.State(), p);
    if !ok {
      ghost var q :| IsPeer(p, q) && Placed(g, p, v).value[q] == v;
      ConflictAdmitsNothing(Placed(g, p, v), p, q);
      RejectedValue(g, p, v);
      return None;
    }
    var nbs := GetNeighbors(p);
    nb.ForwardCheck(nbs);
    assert b.State() == g;
    ghost var h := nb.State();
    assert h == ReviseAll(Placed(g, p, v), nbs);
    ForwardChecked(g, p, v, nbs);
    var next := GetMrvUnit(nb.State());
    MrvSeesEveryUnknown(h);
    assert b.State() == g;
    r := Backtrack(nb, next);
    assert b.State() == g;
    if r.Some? {
      ghost var sol := r.value.value;
      assert Admits(h, sol);
      assert Admits(g, sol) && sol[p] == v;
    } else {
      assert forall s :: IsSolution(s) ==> !Admits(h, s);
      RejectedValue(g, p, v);
    }
  }

  /** The board after a consistent placement and its forward-checking pass:
      well formed, conflict-free, with fewer unknown cells; it admits exactly
      the solutions of the original board that give the cell the placed
      value. */
  lemma ForwardChecked(g: Grid, p: Pos, v: int, nbs: seq<Pos>)
    requires Wf(g) && NoConflict(g.value) && InRange(p) && g.value[p] == 0 && v in g.domain[p]
    requires forall q :: IsPeer(p, q) ==> g.value[q] != v
    requires forall q :: q in nbs ==> InRange(q)
    ensures var h := ReviseAll(Placed(g, p, v), nbs);
      && Wf(h) && NoConflict(h.value)
      && |Unknowns(h.value)| < |Unknowns(g.value)|
      && (forall s :: Admits(h, s) ==> Admits(g, s) && s[p] == v)
      && ((forall s :: IsSolution(s) ==> !Admits(h, s)) ==>
            forall s :: IsSolution(s) ==> !Admits(Placed(g, p, v), s))
  {
    var placed := Placed(g, p, v);
    var h := ReviseAll(placed, nbs);
    PlacedNarrows(g, p, v);
    PlacedKeepsNoConflict(g, p, v);
    ReviseAllKeepsWf(placed, nbs);
    ReviseAllNarrows(placed, nbs);
    NarrowsTransitive(g, placed, h);
    UnknownsShrink(g, h, p);
    forall s | Admits(h, s) ensures Admits(g, s) && s[p] == v {
      NarrowsAdmits(g, h, s);
      NarrowsAdmits(placed, h, s);
      assert s[p] in placed.domain[p];
    }
    forall s | IsSolution(s) && Admits(placed, s) ensures Admits(h, s) {
      ReviseAllKeepsSolutions(placed, nbs, s);
    }
  }

  /** `main` without its I/O (main.py:12-19): build the board from the
      clues, propagate from the unsolved cells, then search from the most
      constrained cell. A result is a solution that keeps every clue; no
      result means that no solution keeps them. */
  method Solve(clues: map<Pos, int>) returns (r: Option<map<Pos, int>>)
    requires ValidClues(clues)
    ensures r.Some? ==> IsSolution(r.value) && Extends(clues, r.value)
    ensures r.None? ==> forall s :: IsSolution(s) ==> !Extends(clues, s)
  {
    var b := new Board.FromClues(clues);
    InitialGridFacts(clues);
    ghost var g0 := b.State();
    var unsolved := UnsolvedCells(b.State());
    b.Propagate(unsolved);
    var cur := GetMrvUnit(b.State());
    MrvSeesEveryUnknown(b.State());
    var result := Backtrack(b, cur);
    if result.Some? {
      NarrowsAdmits(g0, b.State(), result.value.value);
      return Some(result.value.value);
    }
    return None;
  }
}
