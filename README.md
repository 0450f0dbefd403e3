# Sudoku solver (main.py) in Dafny

A model of the 9 x 9 Sudoku solver in `main.py`. The solver works in three steps:

1. It builds a board of cells (`Unit`). Each cell holds a value, with 0 meaning unknown, and an ascending candidate list (`domain`).
2. It propagates constraints from every unknown cell with a worklist (`propogate_constraints`). The worklist revises one cell at a time (`get_domain`).
3. It runs a depth-first search (`backtrack`). The search tries the candidates of the most constrained cell (`get_mrv_unit`), each on a copy of the board. It checks each placement (`check_consistency`) and revises the placed cell's neighbours once (forward checking).

Modules, one per file:

- `Sudoku` (sudoku.dfy): positions, boards as values (`Grid`), the subgrid index, the initial candidate lists, and the board invariant `Wf`. A known value is the cell's only candidate, lists are ascending lists of digits, and a single candidate is the value.
- `PeerList` (neighbors.dfy): `get_neighbors`. `Neighbors(p)` is the list in the source's order. `GetNeighbors` is the source's loops, proved to build it.
- `Constraints` (revision.dfy): `get_domain` as the value-level function `Revision`, with its properties. The list-striking loop `StrikePeerValues`. The forward-checking pass as the fold `ReviseAll`.
- `Scans` (scans.dfy): the read-only board scans `get_mrv_unit`, `get_unsolved_unit`, `check_consistency`, and the unsolved-cell list.
- `Boards` (board.dfy): the mutable board, a class `Board` whose `value` and `domain` maps the operations reassign in place. It has `get_domain`, the placement of `backtrack`, forward checking and `propogate_constraints`, each proved against the value-level model.
- `Search` (search.dfy): `backtrack` and the solve sequence of `main`.

The main results:

- `Backtrack` is sound: it returns only complete, conflict-free boards that the input admits.
- It is complete: when it returns nothing, the input admits no solution.
- It never changes its input board, and it returns the smallest admitted value for the chosen cell.
- It terminates, because each recursive call has fewer unknown cells.
- `Solve` returns a solution keeping every clue exactly when one exists.

Where the written design of this solver and `main.py` differ, the model follows `main.py`:

- No hidden-single rule is applied. The code strikes only the values that peers hold.
- The design asks for the neighbour list to be a true set. `get_neighbors` already lists every peer exactly once (`PeerList.NeighborsExact`), so no change is needed.

## Model

| member | source | states |
|---|---|---|
| Sudoku.SubgridIndex | main.py:187-191 | the subgrid indices are in 0..2 and the 3 x 3 block they name contains the cell |
| Sudoku.InitialDomain | main.py:181-185 | an unknown cell starts with the candidates 1..9 in ascending order, a clue cell with just its value |
| Sudoku.InitialGridFacts | main.py:154-163 | the board built from conflict-free clues is well formed and conflict-free, and admits exactly the solutions that keep every clue |
| Sudoku.RemoveFirstIsWithout | main.py:104-105 | on an ascending list, `list.remove` of a present value strikes that value out entirely |
| Sudoku.WithoutIncreasing | main.py:101-105 | striking values from an ascending list keeps it ascending |
| Sudoku.WithoutWithout | main.py:102-105 | striking values one neighbour at a time equals striking them all at once |
| Sudoku.IncreasingDigitsBound | main.py:184 | an ascending list of digits has at most 9 entries, so no candidate list outgrows the initial one |
| PeerList.Corner | main.py:94-97 | the subgrid's top-left cell lies within the board and the block from it holds the cell |
| PeerList.NeighborsExact | main.py:127-147 | the neighbour list has exactly 20 cells, pairwise distinct, not the cell itself, and holds exactly the cells sharing its row, column or subgrid |
| PeerList.GetNeighbors | main.py:127-147 | the two loops with their `continue` build the neighbour list in the source's order: 20 distinct cells, exactly the peers |
| Constraints.RevisionOfSingleton | main.py:90-93 | a cell with a single candidate is left unchanged and reports no change |
| Constraints.RevisionStrikes | main.py:101-124 | the new list holds the old candidates no peer holds, still ascending; the flag is true iff the list changed and a change shortens it; a single survivor becomes the value, otherwise the value is kept; no other cell changes |
| Constraints.RevisionUnrevised | main.py:120-124 | a revision that reports no change leaves the whole board as it was |
| Constraints.RevisionKeepsWf | main.py:120-123 | revision keeps the board invariant (ascending digit lists, known value = only candidate) |
| Constraints.RevisionKeepsNoConflict | main.py:122-123 | a value fixed by revision is held by no peer, so a conflict-free board stays conflict-free |
| Constraints.RevisionKeepsSolutions | main.py:102-105 | every solution the board admits is still admitted after the revision |
| Constraints.RevisionNarrows | main.py:104-105 | revision only removes candidates and never overwrites a known value, so clues persist |
| Constraints.RevisionSettles | main.py:101-121 | after its revision a cell is settled: known, or none of its candidates is held by a peer |
| Constraints.RevisionKeepsSettled | main.py:83-85 | a settled cell stays settled unless the revised cell is a peer whose list changed, the case in which the worklist re-queues it |
| Constraints.RevisionShrinksCandidates | main.py:83-85 | a reported change removes a (cell, candidate) pair, so the set of pairs shrinks strictly |
| Constraints.SettledIffUnrevised | main.py:120 | a cell is settled exactly when revising it reports no change |
| Constraints.ReviseAllKeepsWf | main.py:32-34 | the forward-checking pass keeps the board invariant |
| Constraints.ReviseAllNarrows | main.py:32-34 | the forward-checking pass only narrows the board and keeps it conflict-free |
| Constraints.ReviseAllKeepsSolutions | main.py:32-34 | the forward-checking pass loses no admitted solution |
| Constraints.StrikePeerValues | main.py:101-105 | the `list.remove` loop over the neighbours leaves the list with every peer value struck out, order kept |
| Scans.GetMrvUnit | main.py:52-61 | no cell is returned iff no unknown cell has at most 9 candidates; otherwise an unknown cell with the fewest candidates, strictly fewer than every unknown cell before it in row-major order; an unknown cell with no candidate makes the result one with none |
| Scans.MrvSeesEveryUnknown | main.py:52-61 | on a well-formed board `get_mrv_unit` returns nothing exactly when no cell is unknown |
| Scans.GetUnsolvedUnit | main.py:42-49 | the first unknown cell in row-major order, or nothing exactly when every cell is known |
| Scans.CheckConsistency | main.py:64-72 | true iff the cell is known, has a candidate, and no peer holds its value |
| Scans.UnsolvedCells | main.py:154-163 | the unsolved list holds exactly the unknown cells, each once, in row-major order |
| Boards.Board.FromClues | main.py:154-163 | the board built from the clues is the initial board (one `Unit(i, j, clue)` per position) |
| Boards.Board.Copy | main.py:28 | the deep copy has the same cells as the original |
| Boards.Board.Place | main.py:29-30 | the cell holds the value with that value as its only candidate, and the board stays well formed |
| Boards.Board.Revise | main.py:88-124 | the new board and the returned flag are exactly `Revision` of the old board, and the board stays well formed |
| Boards.Board.ForwardCheck | main.py:32-34 | revising the neighbours in list order yields `ReviseAll` of the old board |
| Boards.Board.Propagate | main.py:75-85 | the worklist terminates; afterwards the board is well formed, narrowed, still conflict-free if it was, admits every solution it admitted, and every seeded cell is settled |
| Boards.PropagateStep | main.py:81-85 | one pop-revise-extend turn keeps the worklist invariants |
| Search.PlacedNarrows | main.py:29-30 | placing one of an unknown cell's candidates keeps the board well formed and only narrows it |
| Search.PlacedKeepsNoConflict | main.py:31 | a placement that passes the consistency check keeps the board conflict-free |
| Search.ConflictAdmitsNothing | main.py:69-71 | two peers holding the same value rule out every solution, so a rejected placement loses nothing |
| Search.Completed | main.py:25-26 | a conflict-free board with no unknown cell is a solution, and it admits itself |
| Search.UnknownsShrink | main.py:35-36 | after a placement and its forward-checking pass the board has fewer unknown cells, the recursion's measure |
| Search.FirstUntried | main.py:27 | in the ascending candidate list, a value not among those already tried is at least the next one |
| Search.ForwardChecked | main.py:31-35 | after a consistent placement and its forward checking the board is well formed, conflict-free, has fewer unknown cells, and admits only solutions of the original with the placed value |
| Search.TryCandidate | main.py:28-38 | one trial returns a solution the input admits with the tried value at the cell, or shows that no admitted solution gives the cell that value |
| Search.Backtrack | main.py:23-39 | a returned board is a solution the input admits and gives the chosen cell the smallest admitted value; no result means the input admits no solution; the input board is not modified |
| Search.Solve | main.py:14-15 | after propagation and search, a result is a solution keeping every clue; no result means no solution keeps the clues |

## Left out

- Input and output: `get_board_input` reads the clues from stdin (main.py:150-164), and `print_board` and the prints in `main` write the result (main.py:16-19, 167-175). `Solve` takes the clues as a map from positions to 0..9 and returns the solved values, or nothing for "No Solution.".
- Floating point: `math.sqrt` and `math.floor` (main.py:95, 131, 189-190) are exact for N = 9. The model uses the integer 3 and integer division.
- Object identity: the 81 `Unit` objects are held as two maps keyed by position, so aliasing between cells is not modelled. `Unit.row` and `Unit.col` are the keys. `copy.deepcopy` is the `Board.Copy` constructor.
- The `unaccounted_row`, `unaccounted_col` and `unaccounted_grid` lists (main.py:98-100, 106-119) are computed but never read. They do not affect the result.
- The string `"FAILURE"` is the `None` of an `Option`.
- Python's recursion limit is not modelled. The search depth is at most the number of unknown cells.
- The commented-out timing code (main.py:6, 13, 20) is not modelled.
- Search.Solve: requires clues that give no two peers the same value. The solver never compares clues with each other, because singleton cells return early (main.py:91-93), and its behaviour on conflicting clues is not modelled.
- Boards.Board.Revise: requires the board invariant `Wf` (ascending, duplicate-free candidate lists). Every board the program builds keeps it. With duplicates, `list.remove` would strike only one copy.
- Boards.Board.Propagate: states what holds of the final board (well formed, narrowed, solutions kept, seeds settled), not which board the last-in-first-out worklist order produces.
- Search.Backtrack: states that the result gives the chosen cell its smallest admitted value, not that it is the first solution in the whole depth-first order.
