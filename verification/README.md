# Minesweeper board engine in Dafny

This project models the board engine of a Tk Minesweeper game ("Prato
Fiorito"): the free functions that build a game (`add_mines`, `gen_matrix`,
`adj_coords`, `gen_adjpos_mat`) and the state logic of the `MinesweeperGUI`
class (`__init__`, `left_click`, `right_click`), with every widget call
stripped away. What remains is a state machine over a `dim × dim` grid:
mines placed by rejection sampling, an adjacency grid holding -1 at mines and
neighbour-mine counts elsewhere, a set of uncovered cells that a click on a 0
cell grows by a recursive cascade, and a set of flags bounded by a budget.

Modules:

- `Coords` (`coords.dfy`): cells as `(int, int)` pairs, the board's cell set,
  the Chebyshev-distance-1 relation, and counting lemmas (a `dim × dim` board
  has `dim * dim` cells; a duplicate-free sequence has as many elements as
  its length).
- `Neighbours` (`neighbours.dfy`): `adj_coords`, as the two nested `range`
  loops in their visiting order.
- `Mines` (`mines.dfy`): `add_mines`. The `random.randint` calls become a
  finite sequence of draws, each a coordinate in `[0, len(field))²`, which is
  what `randint(0, len(field) - 1)` promises.
- `Adjacency` (`adjacency.dfy`): `gen_matrix` and `gen_adjpos_mat`, and the
  adjacency grid they are meant to build.
- `Game` (`game.dfy`): the board record, `__init__`, `left_click` with its
  cascade, `right_click`, the mines `end_game` shows, and the game-level
  theorems.

The cascade is modelled the way the code runs it: `Cascade` is one
`left_click` call and `CascadeAll` its loop over `adj_coords`, with each click
seeing the cells earlier clicks uncovered. The recursion terminates on the
number of cells not yet uncovered, which every call that does work lowers.
The result is the sequence of cells uncovered, in order. Its contract says
four things. Each cell is uncovered once. No flagged or already uncovered
cell is touched. Every uncovered 0 cell ends with all its neighbours
uncovered or flagged. Every cell but the clicked one spreads from an earlier
0 cell. `CascadeIsFlood` turns the last two into the reference definition:
the cells uncovered are exactly the least flood region.

The model follows the code as written, including these quirks:

- `add_mines` rejects only `n_mines > dim*dim` (minesweeper_gui.py:12), so a
  board entirely of mines is accepted. `FullBoardCannotBeWon` shows that such a
  board can only be lost.
- There is no terminal status. `end_game` relabels the hidden mines, shows a
  message and calls `root.quit()` (minesweeper_gui.py:135-141). That stops
  the game window's `mainloop`, which `start_menu` runs nested inside the
  menu's (lines 157-174), but it does not destroy the window. The model's
  clicks therefore never check a status. A click reports which `end_game`
  calls it made.
- The win check counts every uncovered cell, including a mine uncovered by
  that very click (minesweeper_gui.py:93, 108). `LastSafeMineClickAlsoWins`
  shows the result. If one safe cell is left covered, clicking a mine calls
  `end_game(False)` and then `end_game(True)`.
- Coordinates outside the board are not rejected by the code. Only the
  buttons that `create_grid` binds (minesweeper_gui.py:77-83) ever call the
  click handlers, and they pass on-board coordinates. The model therefore
  requires on-board coordinates.
- The cascade is the code's recursion, not a worklist.

## Model

| member | source | states |
|---|---|---|
| Neighbours.ScanCols | minesweeper_gui.py:40-42 | the inner column loop keeps exactly the on-board, non-centre cells of its block row, each once, with the centre's slot not counted |
| Neighbours.ScanRows | minesweeper_gui.py:39-42 | the outer row loop keeps exactly the on-board non-centre cells of the remaining block rows, each once, at most three per row less the centre |
| Neighbours.AdjCoords | minesweeper_gui.py:37-43 | a listed cell is exactly an on-board cell at row and column distance at most 1 other than `(x, y)`; no duplicates; at most 8 entries |
| Neighbours.NeighbourSet | minesweeper_gui.py:37-43 | the neighbour list as a set has at most 8 members, exactly the on-board adjacent cells |
| Mines.Dedup | minesweeper_gui.py:16-21 | what rejection sampling keeps from a draw sequence: duplicate-free, the same elements as the draws, no longer than them |
| Mines.DedupPrefix | minesweeper_gui.py:16-21 | the cells kept from a prefix of the draws are a prefix of the cells kept from all the draws |
| Mines.AddMines | minesweeper_gui.py:11-22 | fails with the too-many-mines error exactly when `n_mines > len(field)²`; otherwise, given enough distinct draws, returns exactly `n_mines` (none if negative) distinct on-board cells, the first distinct draws in draw order; runs out of draws exactly when fewer distinct draws exist than needed |
| Mines.CoveringDrawsSuffice | minesweeper_gui.py:12-21 | draws that hit every cell always yield enough distinct cells for any accepted mine count |
| Adjacency.GenMatrix | minesweeper_gui.py:24-35 | both returned grids are `dim × dim` (empty for negative `dim`); every cell of the first is the covered symbol and every cell of the second is 0 |
| Adjacency.Bump | minesweeper_gui.py:48-51 | the inner loop adds exactly 1 to each neighbour not in the mine list and leaves every other cell unchanged |
| Adjacency.Visit | minesweeper_gui.py:46-51 | after visiting a suffix of the mine list: visited mines hold -1, unvisited mines keep their value, other cells gain one per visited mine adjacent to them |
| Adjacency.GenAdjposMat | minesweeper_gui.py:45-52 | every listed mine holds -1; every other cell holds its old value plus the number of list entries adjacent to it; the grid keeps its shape |
| Adjacency.MineCount | minesweeper_gui.py:48-51 | the number of mines around a cell is at most 8 |
| Adjacency.CountAdjacentDistinct | minesweeper_gui.py:46-51 | over a duplicate-free on-board list, counting adjacent list entries equals the number of mines in the cell's neighbourhood |
| Adjacency.AdjacencyCorrect | minesweeper_gui.py:45-52 | for a duplicate-free on-board mine list and the zero grid, the result holds -1 at every mine and the neighbouring mine count, in [0, 8], everywhere else |
| Game.NewGame | minesweeper_gui.py:56-65 | construction fails with too-many-mines exactly when `mines > dim²`, and runs out of draws exactly when the count is accepted but the draws hold fewer distinct cells than `mines`; otherwise it succeeds, its mines are the first `max(mines, 0)` distinct draws in draw order, and the board starts with nothing uncovered or flagged, `flags_left = mines_num = mines`, and satisfies the game invariant (adjacency grid correct, mines distinct and on board, flag budget balanced) |
| Game.Cascade | minesweeper_gui.py:90-102 | a click on a flagged or uncovered cell uncovers nothing; otherwise it uncovers the cell first, then only new unflagged on-board cells, each once; every uncovered 0 cell ends with all neighbours uncovered or flagged; every later cell spreads from an earlier 0 cell |
| Game.CascadeAll | minesweeper_gui.py:101-102 | clicking the neighbours in turn uncovers only new unflagged cells, each once, and leaves every listed neighbour uncovered or flagged |
| Game.LeftClick | minesweeper_gui.py:85-109 | no change on a flagged or uncovered cell; otherwise only `revealed` grows, by exactly the cascade's cells; a nonzero cell uncovers only itself; `end_game(False)` exactly for a mine, then `end_game(True)` exactly when the uncovered count equals `dim² − mines_num`, each at most once; the game invariant, including `revealed ∩ flagged = ∅`, is preserved |
| Game.RightClick | minesweeper_gui.py:111-125 | only the flags change, and only at the clicked cell; no-op on an uncovered cell or on an unflagged cell with no flags left; otherwise the flag toggles with `flags_left` moving the other way, so `flags_left` plus the number of flags is conserved and the invariant (`flags_left ≥ 0`, flags disjoint from uncovered cells) is preserved |
| Game.HiddenMines | minesweeper_gui.py:136-138 | the mines `end_game` shows are exactly the mines not uncovered, each once |
| Game.CascadeIsFlood | minesweeper_gui.py:90-102 | the cells a click uncovers form a flood region (closed under spreading from 0 cells, stopping at flags and uncovered cells) and lie inside every flood region, so they are the least one |
| Game.CascadeSafe | minesweeper_gui.py:99-102 | on a correct adjacency grid the cascade uncovers no mine besides the clicked cell |
| Game.WinIffCleared | minesweeper_gui.py:108-109 | while no mine is uncovered, a click on a safe cell uncovers no mine and calls `end_game(True)` exactly when every safe cell is uncovered |
| Game.LastSafeMineClickAlsoWins | minesweeper_gui.py:93-109 | with one safe cell left, clicking a mine makes the calls `end_game(False)` then `end_game(True)` |
| Game.FullBoardCannotBeWon | minesweeper_gui.py:12-13 | on the all-mines board that `add_mines` accepts, every cell is a mine, so a click never wins and any click that acts loses |
| Game.ToggleTwice | minesweeper_gui.py:111-125 | a flag toggle that changed the board is undone by toggling the same cell again |
| Game.CornerGrid | minesweeper_gui.py:45-52 | with the single mine (0, 0) on a 3 × 3 board, the cells next to it hold 1 and (1, 2), (2, 1), (2, 2) hold 0 |
| Game.CornerMineScenario | minesweeper_gui.py:85-109 | on a fresh 3 × 3 board whose only mine is (0, 0), clicking (2, 2) uncovers all eight safe cells and makes the single call `end_game(True)` |

## Left out

- Tk widgets: button texts, colours, reliefs and states, `create_grid`, the
  labels, and the `messagebox` and `root.quit` in `end_game`. `end_game` is
  modelled only as the `Loss`/`Win` calls a click makes, plus the list of
  mines it would show.
- `update_timer`, the `time.time()` stamp at the start of `left_click`, and
  the `timer_started`/`start_time` fields. They are wall-clock display.
- `start_music` (pygame audio) and `start_menu`, the difficulty picker that
  supplies `(dim, mines)` pairs.
- The randomness of `add_mines`. Draws are an input sequence, so the
  distribution, uniform or otherwise, is not modelled.
- Mines.AddMines: the Python loop never runs out of draws. The model's
  `OutOfDraws` result only marks a draw sequence that was too short.
  `CoveringDrawsSuffice` shows that draws hitting every cell always suffice.
- The symbol grid from `gen_matrix` is kept only for its side length, which
  is all `add_mines` reads.
- Game.LeftClick: the nested `left_click` calls of a cascade each run the win
  check, so `end_game(True)` may be called more than once. The model reports
  only the calls made by the clicked cell's own handler.
- Game.RightClick: the code reads the flag state from the button text. The
  model uses membership in `flagged`, which `right_click` keeps in step with
  the text. `end_game` breaks that step: it relabels every hidden mine,
  flagged ones included, with the bomb symbol (minesweeper_gui.py:136-138),
  and its `root.quit()` leaves the game window on screen, still reachable
  through the menu's outer `mainloop`. A later right click on such a mine
  takes the "not flagged" branch (lines 120-125): `flags_left` drops by one
  while `flagged` keeps the cell, so `flags_left + len(flagged)` no longer
  equals `mines_num`. The model has no relabelled state. Its right click on
  a flagged cell always removes the flag and returns it to the budget, so
  it does not model clicks made after `end_game`.
- Game.Cascade: the source's cascade is Python recursion, one `left_click`
  frame per chained cell (minesweeper_gui.py:101-102). Python's default
  recursion limit of 1000 frames is not modelled. A long enough chain would
  raise `RecursionError` mid-cascade, leaving `revealed` partly updated and
  skipping the pending win checks. The model always finishes the flood.
  The menu's largest board is 16 × 16, 256 cells, which stays well under
  that limit.
- Python's negative indices wrap around. Every coordinate the game uses is on
  the board, so the clicks and `gen_adjpos_mat` require on-board cells and the
  wrap-around is not modelled.
- Game.ToggleTwice: it assumes `flags_left ≥ 0`. That always holds unless the
  game was built with a negative mine count, which the menu never supplies.
