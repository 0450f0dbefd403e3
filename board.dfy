/** The mutable board of main.py: the `value` and `domain` fields of its
    81 `Unit` objects, held as two maps keyed by position that the
    operations reassign in place. */
module Boards {
  import opened Sudoku
  import opened PeerList
  import opened Constraints

  class Board {
    var value: map<Pos, int>
    var domain: map<Pos, seq<int>>

    function State(): Grid
      reads this
    {
      Grid(value, domain)
    }

    ghost predicate Valid()
      reads this
    {
      Wf(State())
    }

    /** The board `get_board_input` builds: one `Unit(i, j, clue)` per
        position (main.py:154-163, `Unit.__init__` at main.py:181-185). */
    constructor FromClues(clues: map<Pos, int>)
      ensures State() == InitialGrid(clues)
    {
      value := clues;
      domain := map p | p in clues :: InitialDomain(clues[p]);
    }

    /** `copy.deepcopy(board)`: a new board with the same cells. */
    constructor Copy(other: Board)
      ensures State() == other.State()
    {
      value := other.value;
      domain := other.domain;
    }

    /** `new_board[row][col] = Unit(row, col, v)` (main.py:29-30). */
    method Place(p: Pos, v: int)
      requires Valid() && InRange(p) && Digit(v)
      modifies this
      ensures State() == Placed(old(State()), p, v)
      ensures Valid()
    {
      value := value[p := v];
      domain := domain[p := [v]];
      assert CellOk(v, [v]);
    }

    /** `get_domain(u, board)` (main.py:88-124) on the cell at `p`: the
        new board and the returned flag are the revision of the old board. */
    method Revise(p: Pos) returns (revised: bool)
      requires Valid() && InRange(p)
      modifies this
      ensures Outcome(State(), revised) == Revision(old(State()), p)
      ensures Valid()
    {
      var original := domain[p];
      if |original| == 1 {
        value := value[p := original[0]];
        RevisionOfSingleton(old(State()), p);
        return false;
      }
      original := StrikePeerValues(State(), p);
      revised := domain[p] != original;
      domain := domain[p := original];
      if |original| == 1 {
        value := value[p := original[0]];
      }
      RevisionKeepsWf(old(State()), p);
    }

    /** `for n in neighbors: get_domain(n, new_board)` (main.py:32-34). */
    method ForwardCheck(ns: seq<Pos>)
      requires Valid() && forall q :: q in ns ==> InRange(q)
      modifies this
      ensures State() == ReviseAll(old(State()), ns)
      ensures Valid()
    {
      var k := 0;
      while k < |ns|
        invariant 0 <= k <= |ns|
        invariant State() == ReviseAll(old(State()), ns[..k])
        invariant Valid()
      {
        assert ns[..k + 1][..k] == ns[..k];
        assert ns[k] in ns;
        var _ := Revise(ns[k]);
        k := k + 1;
      }
      assert ns[..k] == ns;
    }

    /** `propogate_constraints(board, unsolved)` (main.py:75-85): a worklist
        seeded with `seeds`; the last cell is popped and revised, and when
        its list changed all its neighbours are pushed. The loop ends because
        each change strikes a candidate; afterwards every seed is settled,
        and the board has only lost candidates no solution needs. */
    method Propagate(seeds: seq<Pos>)
      requires Valid() && forall q :: q in seeds ==> InRange(q)
      modifies this
      ensures Valid()
      ensures Narrows(old(State()), State())
      ensures NoConflict(old(value)) ==> NoConflict(value)
      ensures forall s :: IsSolution(s) && Admits(old(State()), s) ==> Admits(State(), s)
      ensures forall q :: q in seeds ==> Settled(State(), q)
    {
      var units := seeds;
      while units != []
        invariant Valid() && forall q :: q in units ==> InRange(q)
        invariant Narrows(old(State()), State())
        invariant NoConflict(old(value)) ==> NoConflict(value)
        invariant forall s :: IsSolution(s) && Admits(old(State()), s) ==> Admits(State(), s)
        invariant forall q :: q in seeds ==> q in units || Settled(State(), q)
        decreases Candidates(domain), |units|
      {
        var u := units[|units| - 1];
        var rest := units[..|units| - 1];
        PopLast(units);
        units := rest;
        ghost var before := State();
        var revised := Revise(u);
        assert State() == Revision(before, u).grid && revised == Revision(before, u).revised;
        PropagateStep(old(State()), before, u, units, seeds, revised);
        if revised {
          var nbs := GetNeighbors(u);
          RevisionShrinksCandidates(before, u);
          units := units + nbs;
        } else {
          RevisionUnrevised(before, u);
        }
      }
    }
  }

  /** `list.pop()` splits off the last element. */
  lemma PopLast(s: seq<Pos>)
    requires s != []
    ensures s == s[..|s| - 1] + [s[|s| - 1]] && s[|s| - 1] in s
  {
  }

  /** One turn of the worklist keeps the loop's invariants. */
  lemma PropagateStep(g0: Grid, g: Grid, u: Pos, rest: seq<Pos>, seeds: seq<Pos>, revised: bool)
    requires Wf(g0) && Wf(g) && InRange(u) && Narrows(g0, g)
    requires revised == Revision(g, u).revised
    requires forall q :: q in seeds ==> InRange(q)
    requires forall q :: q in seeds ==> q in rest + [u] || Settled(g, q)
    ensures var h := Revision(g, u).grid;
      && Narrows(g0, h)
      && (NoConflict(g.value) ==> NoConflict(h.value))
      && (forall s :: IsSolution(s) && Admits(g, s) ==> Admits(h, s))
      && (forall q :: q in seeds ==> q in (if revised then rest + Neighbors(u) else rest) || Settled(h, q))
  {
    var h := Revision(g, u).grid;
    RevisionNarrows(g, u);
    NarrowsTransitive(g0, g, h);
    if NoConflict(g.value) {
      RevisionKeepsNoConflict(g, u);
    }
    forall s | IsSolution(s) && Admits(g, s) ensures Admits(h, s) {
      RevisionKeepsSolutions(g, u, s);
    }
    forall q | q in seeds
      ensures q in (if revised then rest + Neighbors(u) else rest) || Settled(h, q)
    {
      if q == u {
        RevisionSettles(g, u);
      } else if q !in rest {
        assert Settled(g, q);
        if revised && IsPeer(u, q) {
          NeighborMember(u, q);
        } else {
          RevisionKeepsSettled(g, u, q);
        }
      }
    }
  }
}
