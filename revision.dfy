/** `get_domain` (main.py:88-124): revising one cell's candidate list
    against the values its peers hold, stated on board values. */
module Constraints {
  import opened Sudoku
  import opened PeerList

  /** The values the peers of `p` hold, 0 for those still unknown. */
  ghost function PeerValues(g: Grid, p: Pos): set<int> {
    set q | q in g.value && IsPeer(p, q) :: g.value[q]
  }

  /** The new board, and the `revised` flag `get_domain` returns. */
  datatype Outcome = Outcome(grid: Grid, revised: bool)

  /** One call of `get_domain(u, board)` on the cell at `p`: a singleton
      list only (re)fixes the value (main.py:91-93); otherwise every peer's
      value is struck from the list and a single survivor becomes the value
      (main.py:101-105, 120-123). */
  ghost function Revision(g: Grid, p: Pos): Outcome
    requires Shaped(g) && InRange(p)
  {
    var d := g.domain[p];
    if |d| == 1 then Outcome(Grid(g.value[p := d[0]], g.domain), false)
    else
      var d' := Without(d, PeerValues(g, p));
      Outcome(Grid(if |d'| == 1 then g.value[p := d'[0]] else g.value, g.domain[p := d']), d' != d)
  }

  /** The cell at `q` holds a value, or no candidate of it is held by a peer. */
  ghost predicate Settled(g: Grid, q: Pos) {
    q in g.value && q in g.domain
    && (g.value[q] != 0 || forall n :: n in g.value && IsPeer(q, n) ==> g.value[n] !in g.domain[q])
  }

  /** A cell with a single candidate is left as it is, and reports no
      change (main.py:91-93): on a well-formed board its value already is
      that candidate. */
  lemma RevisionOfSingleton(g: Grid, p: Pos)
    requires Wf(g) && InRange(p) && |g.domain[p]| == 1
    ensures Revision(g, p) == Outcome(g, false)
  {
    assert g.value[p := g.domain[p][0]] == g.value;
  }

  /** Otherwise the new candidates are the old ones that no peer holds, in
      the same ascending order; the flag says whether the list changed, and
      a change always shortens it. A single survivor becomes the value, an
      empty or longer list leaves the value as it was. No other cell
      changes. */
  lemma RevisionStrikes(g: Grid, p: Pos)
    requires Wf(g) && InRange(p) && |g.domain[p]| != 1
    ensures var o := Revision(g, p);
      && (forall x :: x in o.grid.domain[p] <==>
            x in g.domain[p] && forall q :: q in g.value && IsPeer(p, q) ==> g.value[q] != x)
      && Increasing(o.grid.domain[p])
      && (o.revised <==> o.grid.domain[p] != g.domain[p])
      && (o.revised ==> |o.grid.domain[p]| < |g.domain[p]|)
      && (|o.grid.domain[p]| == 1 ==> o.grid.value[p] == o.grid.domain[p][0])
      && (|o.grid.domain[p]| != 1 ==> o.grid.value[p] == g.value[p])
      && (forall q :: q in g.value && q != p ==>
            o.grid.value[q] == g.value[q] && o.grid.domain[q] == g.domain[q])
  {
    var d := g.domain[p];
    var vs := PeerValues(g, p);
    WithoutIncreasing(d, vs);
    var d' := Without(d, vs);
    assert Revision(g, p).grid.domain[p] == d';
    forall x | x in d' ensures forall q :: q in g.value && IsPeer(p, q) ==> g.value[q] != x {
      forall q | q in g.value && IsPeer(p, q) ensures g.value[q] != x {
        assert g.value[q] in vs;
      }
    }
  }

  /** A revision that reports no change leaves the whole board as it was:
      re-revising a cell at a fixed point is a no-op. */
  lemma RevisionUnrevised(g: Grid, p: Pos)
    requires Wf(g) && InRange(p) && !Revision(g, p).revised
    ensures Revision(g, p).grid == g
  {
    if |g.domain[p]| == 1 {
      RevisionOfSingleton(g, p);
    } else {
      assert g.domain[p := g.domain[p]] == g.domain;
    }
  }

  /** Revision keeps the board invariant: ascending lists of digits, and
      "value != 0 exactly when the list is that one value". */
  lemma RevisionKeepsWf(g: Grid, p: Pos)
    requires Wf(g) && InRange(p)
    ensures Wf(Revision(g, p).grid)
  {
    var d := g.domain[p];
    if |d| == 1 {
      RevisionOfSingleton(g, p);
    } else {
      RevisionStrikes(g, p);
      var h := Revision(g, p).grid;
      var d' := h.domain[p];
      assert g.value[p] == 0;
      assert forall x :: x in d' ==> x in d;
      if |d'| == 1 {
        assert h.value[p] == d'[0] && d' == [d'[0]];
        assert d'[0] in d';
      } else {
        assert h.value[p] == 0;
      }
      assert CellOk(h.value[p], d');
      forall q | InRange(q) ensures CellOk(h.value[q], h.domain[q]) {
        if q != p {
          assert h.value[q] == g.value[q] && h.domain[q] == g.domain[q];
        }
      }
    }
  }

  /** A value a revision fixes is held by no peer, so a conflict-free board
      stays conflict-free (main.py:122-123). */
  lemma RevisionKeepsNoConflict(g: Grid, p: Pos)
    requires Wf(g) && InRange(p) && NoConflict(g.value)
    ensures NoConflict(Revision(g, p).grid.value)
  {
    var d := g.domain[p];
    if |d| == 1 {
      RevisionOfSingleton(g, p);
    } else {
      RevisionStrikes(g, p);
      var h := Revision(g, p).grid;
      forall a, b | a in h.value && b in h.value && IsPeer(a, b) && h.value[a] != 0
        ensures h.value[a] != h.value[b]
      {
        if a == p && h.value[p] != g.value[p] {
          assert h.domain[p][0] in h.domain[p];
        } else if b == p && h.value[p] != g.value[p] {
          assert IsPeer(p, a);
          assert h.domain[p][0] in h.domain[p];
        }
      }
    }
  }

  /** No solution that the board admits is lost: a struck candidate is held
      by a known peer, and a solution cannot repeat it. */
  lemma RevisionKeepsSolutions(g: Grid, p: Pos, s: map<Pos, int>)
    requires Wf(g) && InRange(p) && IsSolution(s) && Admits(g, s)
    ensures Admits(Revision(g, p).grid, s)
  {
    var d := g.domain[p];
    if |d| == 1 {
      RevisionOfSingleton(g, p);
    } else {
      RevisionStrikes(g, p);
      forall q | q in g.value && IsPeer(p, q) ensures g.value[q] != s[p] {
        if g.value[q] != 0 {
          KnownAdmits(g, s, q);
        }
      }
    }
  }

  /** Revision only strikes candidates and only fills in unknown cells. */
  lemma RevisionNarrows(g: Grid, p: Pos)
    requires Wf(g) && InRange(p)
    ensures Narrows(g, Revision(g, p).grid)
  {
    var d := g.domain[p];
    if |d| == 1 {
      RevisionOfSingleton(g, p);
    } else {
      RevisionStrikes(g, p);
    }
  }

  /** After its revision a cell is settled. */
  lemma RevisionSettles(g: Grid, p: Pos)
    requires Wf(g) && InRange(p)
    ensures Settled(Revision(g, p).grid, p)
  {
    var d := g.domain[p];
    if |d| == 1 {
      RevisionOfSingleton(g, p);
      assert d[0] in d;
    } else {
      RevisionStrikes(g, p);
    }
  }

  /** A settled cell stays settled unless the revised cell is a peer of it
      whose list changed. */
  lemma RevisionKeepsSettled(g: Grid, p: Pos, q: Pos)
    requires Wf(g) && InRange(p) && InRange(q) && q != p && Settled(g, q)
    requires Revision(g, p).revised ==> !IsPeer(p, q)
    ensures Settled(Revision(g, p).grid, q)
  {
    if !Revision(g, p).revised {
      RevisionUnrevised(g, p);
    } else {
      RevisionStrikes(g, p);
      assert !IsPeer(q, p);
    }
  }

  /** A reported change removes at least one (cell, candidate) pair: the
      measure that bounds the propagation worklist. */
  lemma RevisionShrinksCandidates(g: Grid, p: Pos)
    requires Wf(g) && InRange(p) && Revision(g, p).revised
    ensures Candidates(Revision(g, p).grid.domain) < Candidates(g.domain)
  {
    var d := g.domain[p];
    RevisionStrikes(g, p);
    var h := Revision(g, p).grid;
    var x :| x in d && x !in h.domain[p];
    assert (p, x) in Candidates(g.domain) - Candidates(h.domain);
  }

  /** A cell is settled exactly when revising it reports no change: the
      settled cells are the local fixed points of `get_domain`. */
  lemma SettledIffUnrevised(g: Grid, q: Pos)
    requires Wf(g) && InRange(q)
    ensures Settled(g, q) <==> !Revision(g, q).revised
  {
    if |g.domain[q]| == 1 {
      RevisionOfSingleton(g, q);
    } else {
      RevisionStrikes(g, q);
    }
  }

  /** Revising the cells of `ns` one after another, first to last: the
      forward-checking pass of main.py:32-34. */
  ghost function ReviseAll(g: Grid, ns: seq<Pos>): (h: Grid)
    requires Shaped(g) && forall q :: q in ns ==> InRange(q)
    ensures Shaped(h)
    decreases |ns|
  {
    if ns == [] then g
    else
      var last := ns[|ns| - 1];
      assert last in ns;
      Revision(ReviseAll(g, ns[..|ns| - 1]), last).grid
  }

  lemma {:induction false} ReviseAllKeepsWf(g: Grid, ns: seq<Pos>)
    requires Wf(g) && forall q :: q in ns ==> InRange(q)
    ensures Wf(ReviseAll(g, ns))
    decreases |ns|
  {
    if ns != [] {
      var last := ns[|ns| - 1];
      assert last in ns;
      ReviseAllKeepsWf(g, ns[..|ns| - 1]);
      RevisionKeepsWf(ReviseAll(g, ns[..|ns| - 1]), last);
    }
  }

  /** The pass only strikes candidates and fills in unknown cells, and
      never makes two peers hold the same value. */
  lemma {:induction false} ReviseAllNarrows(g: Grid, ns: seq<Pos>)
    requires Wf(g) && forall q :: q in ns ==> InRange(q)
    ensures Narrows(g, ReviseAll(g, ns))
    ensures NoConflict(g.value) ==> NoConflict(ReviseAll(g, ns).value)
    decreases |ns|
  {
    if ns != [] {
      var last := ns[|ns| - 1];
      assert last in ns;
      var mid := ReviseAll(g, ns[..|ns| - 1]);
      ReviseAllNarrows(g, ns[..|ns| - 1]);
      ReviseAllKeepsWf(g, ns[..|ns| - 1]);
      RevisionNarrows(mid, last);
      NarrowsTransitive(g, mid, ReviseAll(g, ns));
      if NoConflict(g.value) {
        RevisionKeepsNoConflict(mid, last);
      }
    }
  }

  /** The pass loses no solution the board admits. */
  lemma {:induction false} ReviseAllKeepsSolutions(g: Grid, ns: seq<Pos>, s: map<Pos, int>)
    requires Wf(g) && forall q :: q in ns ==> InRange(q)
    requires IsSolution(s) && Admits(g, s)
    ensures Admits(ReviseAll(g, ns), s)
    decreases |ns|
  {
    if ns != [] {
      var last := ns[|ns| - 1];
      assert last in ns;
      ReviseAllKeepsSolutions(g, ns[..|ns| - 1], s);
      ReviseAllKeepsWf(g, ns[..|ns| - 1]);
      RevisionKeepsSolutions(ReviseAll(g, ns[..|ns| - 1]), last, s);
    }
  }

  /** The values held by the first `k` cells of `ns`. */
  ghost function ValuesOf(g: Grid, ns: seq<Pos>, k: int): set<int>
    requires 0 <= k <= |ns| && forall m :: 0 <= m < |ns| ==> ns[m] in g.value
  {
    set m | 0 <= m < k :: g.value[ns[m]]
  }

  lemma ValuesOfStep(g: Grid, ns: seq<Pos>, k: int)
    requires 0 <= k < |ns| && forall m :: 0 <= m < |ns| ==> ns[m] in g.value
    ensures ValuesOf(g, ns, k + 1) == ValuesOf(g, ns, k) + {g.value[ns[k]]}
  {
    assert g.value[ns[k]] in ValuesOf(g, ns, k + 1);
  }

  lemma ValuesOfPeers(g: Grid, p: Pos, ns: seq<Pos>)
    requires Shaped(g) && forall q :: q in ns <==> IsPeer(p, q)
    requires forall m :: 0 <= m < |ns| ==> ns[m] in g.value
    ensures ValuesOf(g, ns, |ns|) == PeerValues(g, p)
  {
    forall x | x in PeerValues(g, p) ensures x in ValuesOf(g, ns, |ns|) {
      var q :| q in g.value && IsPeer(p, q) && g.value[q] == x;
      var m :| 0 <= m < |ns| && ns[m] == q;
    }
    forall x | x in ValuesOf(g, ns, |ns|) ensures x in PeerValues(g, p) {
      var m :| 0 <= m < |ns| && g.value[ns[m]] == x;
      assert ns[m] in ns;
    }
  }

  /** One `list.remove` of the loop strikes one more value. */
  lemma StrikeStep(d: seq<int>, vs: set<int>, original: seq<int>, v: int)
    requires Increasing(d) && original == Without(d, vs)
    ensures v in original ==> RemoveFirst(original, v) == Without(d, vs + {v})
    ensures v !in original ==> original == Without(d, vs + {v})
  {
    WithoutWithout(d, vs, {v});
    WithoutIncreasing(d, vs);
    if v in original {
      RemoveFirstIsWithout(original, v);
    }
  }

  /** The loop of main.py:101-105: each neighbour's value is removed from a
      copy of the list with `list.remove` when present. The result is the
      list with every peer value struck out. */
  method StrikePeerValues(g: Grid, p: Pos) returns (original: seq<int>)
    requires Shaped(g) && InRange(p) && Increasing(g.domain[p])
    ensures original == Without(g.domain[p], PeerValues(g, p))
  {
    var d := g.domain[p];
    original := d;
    var nbs := GetNeighbors(p);
    forall m | 0 <= m < |nbs| ensures nbs[m] in g.value {
      assert nbs[m] in nbs;
    }
    ghost var struck: set<int> := {};
    var k := 0;
    while k < |nbs|
      invariant 0 <= k <= |nbs|
      invariant struck == ValuesOf(g, nbs, k)
      invariant original == Without(d, struck)
    {
      var v := g.value[nbs[k]];
      StrikeStep(d, struck, original, v);
      ValuesOfStep(g, nbs, k);
      if v in original {
        original := RemoveFirst(original, v);
      }
      struck := struck + {v};
      k := k + 1;
    }
    ValuesOfPeers(g, p, nbs);
  }
}
