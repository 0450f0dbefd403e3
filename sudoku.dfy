/** Board, cells and candidate lists of the N x N Sudoku solver (main.py).

    A board position is a `Pos`; the board's state is a `Grid`: for every
    position a value (0 = unknown) and an ordered candidate list (the
    `Unit.value` and `Unit.domain` fields of main.py). */
module Sudoku {

  /** Board size (main.py:8) and subgrid size sqrt(N), computed exactly;
      arithmetic on positions writes the subgrid size as the literal 3. */
  const N: int := 9
  const Sub: int := 3

  datatype Option<T> = None | Some(value: T)

  /** A board position, row and column as in `Unit.row` and `Unit.col`. */
  datatype Pos = Pos(row: int, col: int)

  predicate InRange(p: Pos) {
    0 <= p.row < N && 0 <= p.col < N
  }

  /** A value a cell may finally hold. */
  predicate Digit(x: int) {
    1 <= x <= N
  }

  /** `Unit.get_subgrid_index`: which of the Sub x Sub subgrids holds `p`. */
  function SubgridIndex(p: Pos): (r: (int, int))
    requires InRange(p)
    ensures 0 <= r.0 < Sub && 0 <= r.1 < Sub
    ensures 3 * r.0 <= p.row < 3 * r.0 + 3
    ensures 3 * r.1 <= p.col < 3 * r.1 + 3
  {
    (p.row / 3, p.col / 3)
  }

  predicate SameSubgrid(p: Pos, q: Pos) {
    p.row / 3 == q.row / 3 && p.col / 3 == q.col / 3
  }

  /** `q` shares a row, a column or a subgrid with `p` and is another cell:
      the binary constraint "values differ" links the two. */
  predicate IsPeer(p: Pos, q: Pos) {
    InRange(q) && q != p && (q.row == p.row || q.col == p.col || SameSubgrid(p, q))
  }

  /** `q` comes before `p` when the board is scanned row by row. */
  predicate RowMajorBefore(q: Pos, p: Pos) {
    q.row < p.row || (q.row == p.row && q.col < p.col)
  }

  /** Python's `list(range(lo, hi))`. */
  function Range(lo: int, hi: int): (r: seq<int>)
    requires lo <= hi
    ensures |r| == hi - lo
    ensures forall i :: 0 <= i < |r| ==> r[i] == lo + i
    decreases hi - lo
  {
    if lo == hi then [] else [lo] + Range(lo + 1, hi)
  }

  /** The candidate list `Unit.__init__` gives a cell holding `v`. */
  function InitialDomain(v: int): (d: seq<int>)
    ensures v == 0 ==> |d| == N && forall i :: 0 <= i < N ==> d[i] == i + 1
    ensures v != 0 ==> d == [v]
  {
    if v == 0 then Range(1, N + 1) else [v]
  }

  predicate Increasing(d: seq<int>) {
    forall i, j :: 0 <= i < j < |d| ==> d[i] < d[j]
  }

  /** `d` with every element of `xs` struck out, order kept. */
  function Without(d: seq<int>, xs: set<int>): (r: seq<int>)
    ensures |r| <= |d|
    ensures forall x :: x in r <==> x in d && x !in xs
    ensures (forall x :: x in d ==> x !in xs) ==> r == d
    ensures (exists x :: x in d && x in xs) ==> |r| < |d|
  {
    if d == [] then []
    else
      var rest := Without(d[1..], xs);
      assert (forall x :: x in d ==> x !in xs) ==> d[0] !in xs && rest == d[1..];
      assert d[0] !in xs && (exists x :: x in d && x in xs) ==> exists x :: x in d[1..] && x in xs;
      (if d[0] in xs then [] else [d[0]]) + rest
  }

  /** Python's `s.remove(x)`: drops the first occurrence of `x`. */
  function RemoveFirst(s: seq<int>, x: int): (r: seq<int>)
    requires x in s
    ensures |r| == |s| - 1
  {
    if s[0] == x then s[1..] else [s[0]] + RemoveFirst(s[1..], x)
  }

  /** A cell's value and candidate list agree: the list is ascending, holds
      only digits, and a known value is the only candidate (and a single
      candidate is the value). */
  predicate CellOk(v: int, d: seq<int>) {
    0 <= v <= N && Increasing(d) && (forall x :: x in d ==> Digit(x))
    && (v != 0 ==> d == [v]) && (|d| == 1 ==> v == d[0])
  }

  /** The state of a board: value and candidate list per position. */
  datatype Grid = Grid(value: map<Pos, int>, domain: map<Pos, seq<int>>)

  ghost predicate Shaped(g: Grid) {
    (forall p :: p in g.value <==> InRange(p)) && (forall p :: p in g.domain <==> InRange(p))
  }

  /** The invariant every board of the solver keeps. */
  ghost predicate Wf(g: Grid) {
    Shaped(g) && forall p :: InRange(p) ==> CellOk(g.value[p], g.domain[p])
  }

  /** No two peers hold the same non-zero value. */
  ghost predicate NoConflict(value: map<Pos, int>) {
    forall p, q :: p in value && q in value && IsPeer(p, q) && value[p] != 0 ==> value[p] != value[q]
  }

  /** A completed Sudoku: every cell holds a digit and peers differ. */
  ghost predicate IsSolution(s: map<Pos, int>) {
    (forall p :: p in s <==> InRange(p))
    && (forall p :: p in s ==> Digit(s[p]))
    && (forall p, q :: p in s && q in s && IsPeer(p, q) ==> s[p] != s[q])
  }

  /** Every cell of `s` is still a candidate of its cell in `g`. */
  ghost predicate Admits(g: Grid, s: map<Pos, int>) {
    forall p :: InRange(p) ==> p in s && p in g.domain && s[p] in g.domain[p]
  }

  /** `h` is `g` with some candidates struck out and some unknowns filled in. */
  ghost predicate Narrows(g: Grid, h: Grid) {
    forall p :: InRange(p) ==>
      && p in g.value && p in h.value && p in g.domain && p in h.domain
      && (g.value[p] != 0 ==> h.value[p] == g.value[p])
      && (forall x :: x in h.domain[p] ==> x in g.domain[p])
  }

  /** The positions still unknown. */
  ghost function Unknowns(value: map<Pos, int>): set<Pos> {
    set p | p in value && value[p] == 0
  }

  /** Every (position, candidate) pair of the board. */
  ghost function Candidates(domain: map<Pos, seq<int>>): set<(Pos, int)> {
    set p, x | p in domain && x in domain[p] :: (p, x)
  }

  /** A well-formed puzzle: a value in 0..N per position and no two peers
      given the same clue. */
  ghost predicate ValidClues(clues: map<Pos, int>) {
    (forall p :: p in clues <==> InRange(p))
    && (forall p :: p in clues ==> 0 <= clues[p] <= N)
    && NoConflict(clues)
  }

  /** `s` keeps every clue of the puzzle. */
  ghost predicate Extends(clues: map<Pos, int>, s: map<Pos, int>) {
    forall p :: p in clues && clues[p] != 0 ==> p in s && s[p] == clues[p]
  }

  /** The board after `new_board[row][col] = Unit(row, col, v)`: the cell
      holds `v` and has `v` as its only candidate. */
  function Placed(g: Grid, p: Pos, v: int): Grid {
    Grid(g.value[p := v], g.domain[p := [v]])
  }

  /** The board `Unit.__init__` builds for each position of the puzzle. */
  function InitialGrid(clues: map<Pos, int>): Grid {
    Grid(clues, map p | p in clues :: InitialDomain(clues[p]))
  }

  // ---------------------------------------------------------------------
  // Lemmas on candidate lists

  lemma {:induction false} WithoutIncreasing(d: seq<int>, xs: set<int>)
    requires Increasing(d)
    ensures Increasing(Without(d, xs))
  {
    if d != [] {
      WithoutIncreasing(d[1..], xs);
      var rest := Without(d[1..], xs);
      forall x | x in rest ensures d[0] < x {
        var k :| 0 <= k < |d[1..]| && d[1..][k] == x;
        assert d[k + 1] == x;
      }
      var r := Without(d, xs);
      if d[0] !in xs {
        assert r == [d[0]] + rest;
        forall i, j | 0 <= i < j < |r| ensures r[i] < r[j] {
          if i == 0 {
            assert r[j] == rest[j - 1] && rest[j - 1] in rest;
          } else {
            assert r[i] == rest[i - 1] && r[j] == rest[j - 1];
          }
        }
      } else {
        assert r == rest;
      }
    }
  }

  /** Striking one value at a time is striking them all at once. */
  lemma {:induction false} WithoutWithout(d: seq<int>, xs: set<int>, ys: set<int>)
    ensures Without(Without(d, xs), ys) == Without(d, xs + ys)
  {
    if d != [] {
      WithoutWithout(d[1..], xs, ys);
      var w := Without(d, xs);
      if d[0] in xs {
        assert w == Without(d[1..], xs);
      } else {
        assert w == [d[0]] + Without(d[1..], xs);
        assert w[0] == d[0] && w[1..] == Without(d[1..], xs);
      }
    }
  }

  /** On an ascending list `list.remove` strikes the value out entirely. */
  lemma {:induction false} RemoveFirstIsWithout(s: seq<int>, x: int)
    requires x in s && Increasing(s)
    ensures RemoveFirst(s, x) == Without(s, {x})
  {
    if s[0] == x {
      assert Without(s[1..], {x}) == s[1..] by {
        forall y | y in s[1..] ensures y !in {x} {
          var k :| 0 <= k < |s[1..]| && s[1..][k] == y;
        }
      }
    } else {
      RemoveFirstIsWithout(s[1..], x);
    }
  }

  /** An ascending list of digits has at most N elements. */
  lemma {:induction false} IncreasingDigitsBound(d: seq<int>)
    requires Increasing(d) && forall x :: x in d ==> Digit(x)
    ensures |d| <= N
  {
    if d != [] {
      IncreasingFrom(d, |d| - 1);
      assert d[0] in d && d[|d| - 1] in d;
    }
  }

  lemma {:induction false} IncreasingFrom(d: seq<int>, i: int)
    requires Increasing(d) && 0 <= i < |d|
    ensures d[i] >= d[0] + i
  {
    if i > 0 {
      IncreasingFrom(d, i - 1);
    }
  }

  // ---------------------------------------------------------------------
  // Lemmas on boards

  /** A fresh board is well formed, keeps no conflict the clues did not
      have, and admits exactly the solutions that keep the clues. */
  lemma InitialGridFacts(clues: map<Pos, int>)
    requires ValidClues(clues)
    ensures Wf(InitialGrid(clues)) && NoConflict(InitialGrid(clues).value)
    ensures forall s :: IsSolution(s) ==> (Admits(InitialGrid(clues), s) <==> Extends(clues, s))
  {
    var g := InitialGrid(clues);
    forall p | InRange(p) ensures CellOk(g.value[p], g.domain[p]) {
      var d := InitialDomain(clues[p]);
      assert g.domain[p] == d;
      if clues[p] == 0 {
        forall x | x in d ensures Digit(x) {
          var k :| 0 <= k < |d| && d[k] == x;
        }
      }
    }
    forall s | IsSolution(s) ensures Admits(g, s) <==> Extends(clues, s) {
      if Extends(clues, s) {
        forall p | InRange(p) ensures s[p] in g.domain[p] {
          if clues[p] == 0 {
            assert g.domain[p][s[p] - 1] == s[p];
          }
        }
      }
    }
  }

  lemma NarrowsTransitive(g: Grid, h: Grid, k: Grid)
    requires Narrows(g, h) && Narrows(h, k)
    ensures Narrows(g, k)
  {
  }

  /** A narrowed board admits no solution the original did not. */
  lemma NarrowsAdmits(g: Grid, h: Grid, s: map<Pos, int>)
    requires Narrows(g, h) && Admits(h, s)
    ensures Admits(g, s)
  {
    forall p | InRange(p) ensures p in s && p in g.domain && s[p] in g.domain[p] {
      assert s[p] in h.domain[p];
      assert forall x :: x in h.domain[p] ==> x in g.domain[p];
    }
  }

  /** On a well-formed board a known cell admits only its own value. */
  lemma KnownAdmits(g: Grid, s: map<Pos, int>, p: Pos)
    requires Wf(g) && Admits(g, s) && InRange(p) && g.value[p] != 0
    ensures s[p] == g.value[p]
  {
  }
}
