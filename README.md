# Minesweeper board engine in Dafny

This project models `MinesweeperGame`, the board engine of a small
Minesweeper program, and proves what its operations do. The engine holds two
`height × width` grids and two flags:

- the hidden `board`: `-1` (`MineMark`) marks a mine, and every other cell holds
  its number of neighbouring mines;
- the `visibleBoard`: what the player sees of each cell. A cell is `U`
  (unrevealed), `F` (flagged), `Star` (an exploded mine, `'*'`) or `Num(n)`
  (a revealed digit);
- the flags `gameOver` and `win`.

The engine's operations are:

- the constructor, which places the mines and computes the numbers;
- `PlaceMines`, a `while` loop over random draws;
- `GetNeighbors`, the in-bounds 8-neighbourhood in row-major order;
- `CalculateNumbers`, nested loops counting neighbouring mines;
- `Reveal`, which refuses cells that are not `U`, explodes on a mine, and
  otherwise shows the number, flood-filling recursively from a 0;
- `ToggleFlag`, which switches between `U` and `F`;
- `CheckWinCondition`, nested loops counting revealed cells.

Files:

- `board.dfy` (module `Board`) holds the values and the specification
  functions. These are neighbour enumeration, mine and cell counts over grids,
  and the relations between what the player sees and the board, with their
  lemmas.
- `minesweeper.dfy` (module `Minesweeper`) holds the class
  `MinesweeperGame`. Its fields are `seq<seq<..>>` grids that its methods
  reassign, and each method is proved against the functions of `Board`.
- `scenarios.dfy` (module `Scenarios`) holds short call sequences made by a
  client of the class.

The random draws of `_place_mines` are a parameter: `draws`, the sequence of
coordinates the random generator yields. Mine placement is the only use of
randomness.

`Reveal` is recursive, as in the source. Every recursive call turns a `U`
cell into a digit, so its `decreases` clause is the number of `U` cells.

A safe reveal also returns a ghost list of the cells it changed, in the
order the flood fill reached them: it starts at the clicked cell, and each
later cell lies next to a 0 listed before it. Together with the lower bound
(every revealed 0 has no `U` neighbour left), this pins the outcome down
completely. `Board.RevealOutcomeUnique` proves that any two grids meeting
these conditions are equal, so the cells a click shows do not depend on the
order in which neighbours are visited.

Two behaviours of the engine are kept exactly as written:

- The engine itself does not refuse input once the game is over. Only the
  click handlers of the presentation layer do that. They are modelled as
  `GuardedReveal` and `GuardedToggleFlag`.
- The win check counts every cell that is neither `U` nor `F`, and that
  includes `'*'`. Without the guard, a reveal made after a loss can therefore
  set `win`. `Scenarios.WinAfterLoss` shows such a game.

Under guarded play, `StatusConsistent` holds throughout. It says three things:

- `'*'` is shown exactly when the game is lost;
- a won game has every safe cell revealed;
- a running game has not yet reached the target count.

## Model

| member | source | states |
|---|---|---|
| Board.Filled | minesweeper.py:16-17 | the initial grids have `height` rows of `width` cells, each holding the given value |
| Board.Neighbors | minesweeper.py:46-57 | every listed cell is inside the grid and adjacent to (x, y), so (x, y) itself is never listed; every in-grid adjacent cell is listed; no cell is listed twice, so there are at most 8 |
| Board.ScanSound | minesweeper.py:49-56 | after the first k of the nine row-major offsets, every listed cell is an in-grid neighbour whose offset comes before k |
| Board.ScanComplete | minesweeper.py:49-56 | after the first k offsets, every in-grid neighbour whose offset comes before k is listed |
| Board.ScanDistinct | minesweeper.py:49-56 | the list never holds a cell twice |
| Board.ScanStep | minesweeper.py:51-56 | visiting offset (dx, dy) appends the cell exactly when it is not the centre and lies inside the grid |
| Minesweeper.MinesweeperGame.GetNeighbors | minesweeper.py:46-57 | the nested `dx`/`dy` loops, which skip (0, 0) and append the in-bounds cells, return exactly `Neighbors` |
| Board.CountMinesIn | minesweeper.py:40-43 | the number of mines among the listed cells is at most their number, and is zero exactly when none of them is a mine |
| Board.AdjacentMines | minesweeper.py:40-43 | a cell's number of neighbouring mines is at most 8, and is zero exactly when no in-grid neighbour is a mine |
| Minesweeper.MinesweeperGame.CountNeighborMines | minesweeper.py:40-43 | the counting loop over `_get_neighbors` returns `AdjacentMines` of the current board |
| Board.NumberCell | minesweeper.py:39-44 | writing the count into a non-mine cell keeps the mines and extends the numbered row-major prefix by that cell |
| Board.NumberedWellFormed | minesweeper.py:33-44 | once every non-mine cell holds its count on a board with the same mines, the board is well formed |
| Minesweeper.MinesweeperGame.CalculateNumbers | minesweeper.py:33-44 | mine cells stay mines and no new mine appears; every non-mine cell ends up holding its number of neighbouring mines, computed on the board it started from; the result is well formed |
| Board.ZeroCellHasSafeNeighbors | minesweeper.py:33-44 | on a well-formed board every cell is a mine or holds a value in [0, 8]; a cell holding 0 has no neighbouring mine, so the flood fill never reaches a mine |
| Board.DistinctCount | minesweeper.py:23-31 | the number of distinct cells among the draws is at most the number of draws, and at least 1 when there is a draw |
| Board.DrawFresh | minesweeper.py:29-31 | a draw on a cell without a mine marks it: the mines become the cells drawn so far, the mine count and the number of distinct draws both grow by one, and no other cell changes |
| Board.DrawRepeat | minesweeper.py:29 | a draw on a cell that already holds a mine changes nothing and adds no distinct cell |
| Board.DrawRemains | minesweeper.py:26-28 | while the draws taken so far hold fewer distinct cells than all the draws, an untaken draw remains, so the loop never runs out of draws before it ends |
| Minesweeper.MinesweeperGame.PlaceMines | minesweeper.py:23-31 | exactly `numMines` cells hold `-1`; the mines are exactly the cells of some prefix of the draws; no other cell changes; the loop invariant says the mines placed so far are the distinct draws so far, so a repeated draw changes nothing |
| Minesweeper.MinesweeperGame.constructor | minesweeper.py:12-21 | the dimensions and mine count are the arguments; every cell shows `U`; the game is neither over nor won; the board holds exactly `numMines` mines at drawn cells, with correct numbers everywhere else; the status invariant holds |
| Board.InitialStatusOk | minesweeper.py:16-19 | an all-`U` grid with the flags cleared satisfies the status invariant |
| Minesweeper.MinesweeperGame.Reveal | minesweeper.py:59-85 | `NotApplicable` exactly when the cell was not `U`, and then nothing changes; `Mine` exactly when a `U` cell is a mine, and then only that cell becomes `'*'`, the game is over and not won; otherwise `Safe`: the cell shows its number and only `U` safe cells become their numbers, so `board`, `F` cells and revealed cells never change; after a 0 no neighbour is left `U`, and every 0 the cascade reveals has no `U` neighbour either; a non-zero cell changes only itself; the ghost `order` lists exactly the changed cells, starting at (x, y), each later one next to a 0 listed before it, so nothing outside the zero-connected region is revealed; reaching the target count sets both flags |
| Minesweeper.MinesweeperGame.RevealNeighbors | minesweeper.py:78-82 | the flood-fill loop around a revealed 0 leaves no neighbour `U`, changes only `U` safe cells to their numbers, lists exactly the cells it changed, each next to (x, y) or to a 0 listed before it, and leaves the flags alone unless the game was won |
| Board.FloodStep | minesweeper.py:79-82 | revealing the k-th listed neighbour extends the reveal so far, keeps every revealed 0 closed, leaves the first k + 1 neighbours revealed, appends the cells it reached to the order along shown zeros, and never lowers the revealed count |
| Board.FloodSkip | minesweeper.py:80-81 | a neighbour that is no longer `U` when the loop reaches it is skipped and the loop state carries over to the next neighbour |
| Board.FloodDone | minesweeper.py:79-82 | after the last neighbour no cell around (x, y) is `U`, and the reveal, its closure and its order are what the loop built |
| Board.TracedOne | minesweeper.py:75-76 | showing one `U` cell changes exactly that cell |
| Board.TracedStep | minesweeper.py:79-82 | the cells two reveals in a row change are those of the first followed by those of the second |
| Board.ChainStep | minesweeper.py:79-82 | appending the cells reached by the reveal of a neighbour of the 0 at (x, y) keeps every listed cell next to a 0 listed before it |
| Board.ChainReached | minesweeper.py:79-82 | every cell one reveal reached along its chain of zeros is also changed by any other reveal from the same grid that is closed around its zeros and changed the chain's first cell |
| Board.RevealOutcomeUnique | minesweeper.py:59-85 | two outcomes of a safe reveal of (x, y) on the same grid that both meet `Reveal`'s safe-case contract are the same grid: the cells shown are the zero-connected region of (x, y), whatever order the neighbours are visited in |
| Board.RevealsOnlyKeepsShown | minesweeper.py:79-82 | a reveal step never turns a revealed or flagged cell back into `U` |
| Board.ShownAround | minesweeper.py:79-82 | once every listed neighbour of (x, y) is not `U`, no cell around (x, y) is `U` |
| Board.RevealOneCell | minesweeper.py:75-76 | showing the number of a `U` safe cell is a reveal step that keeps what is seen consistent with the board and strictly lowers the number of `U` cells |
| Board.RevealsOnlyHiddenDecreases | minesweeper.py:76-82 | a reveal step that changes a `U` cell strictly lowers the number of `U` cells, which is the flood fill's termination measure |
| Board.RevealsOnlyCounts | minesweeper.py:59-85 | a reveal step introduces no `'*'`, never lowers the revealed count and never raises the number of `U` cells |
| Board.RevealsOnlyConsistent | minesweeper.py:59-85 | a reveal step keeps every digit equal to the board value of a safe cell and `'*'` on mines only |
| Board.RevealsOnlyTrans | minesweeper.py:78-82 | two reveal steps in a row are a reveal step, so nested reveals compose |
| Board.CascadeClosedStep | minesweeper.py:78-82 | the cells that two reveal steps turn into 0s still have no `U` neighbour after both steps |
| Board.CascadeFromZero | minesweeper.py:75-82 | a 0 shown at (x, y), with its cascade closed and no `U` neighbour left, closes the whole reveal |
| Minesweeper.ToggledInvolution | minesweeper.py:87-92 | toggling a cell twice gives it back; toggling never changes whether the win check counts the cell, and never creates or removes `'*'`; a digit is left alone |
| Minesweeper.ToggleTwiceRestores | minesweeper.py:87-92 | toggling the same cell of a grid twice gives back the original grid |
| Minesweeper.MinesweeperGame.ToggleFlag | minesweeper.py:87-92 | exactly the one cell changes by the toggle: `U` becomes `F`, `F` becomes `U`, and any other state leaves the grid unchanged |
| Minesweeper.MinesweeperGame.CheckWinCondition | minesweeper.py:94-105 | when the number of cells that are neither `U` nor `F` equals `width*height - numMines`, both flags are set; otherwise neither flag changes |
| Board.RevealedAtMostSafe | minesweeper.py:94-105 | with no `'*'` on the grid and every digit on a safe cell, the revealed count is at most the number of safe cells, and equality means every safe cell is revealed |
| Board.AllSafeRevealedCount | minesweeper.py:94-105 | once every safe cell is revealed, the revealed count reaches the number of safe cells |
| Board.WonIffAllSafeRevealed | minesweeper.py:94-105 | under the status invariant and with at least one safe cell, the game is won exactly when every safe cell is revealed and no mine exploded |
| Minesweeper.MinesweeperGame.GuardedReveal | minesweeper.py:168-176 | the left-click handler: after the game is over nothing changes and the result is `NotApplicable`; otherwise it has `Reveal`'s refusal, mine and safe cases with the same grid effects and the same order of changed cells; a safe reveal sets both flags exactly when the revealed count reaches the target; guarded play keeps the engine invariant and the status invariant |
| Minesweeper.MinesweeperGame.GuardedToggleFlag | minesweeper.py:178-184 | the right-click handler: after the game is over nothing changes; otherwise it is `ToggleFlag`; both invariants are kept |
| Scenarios.RevealTwice | minesweeper.py:66-67 | a second reveal of the same cell is refused, whatever the first one did |
| Scenarios.ToggleTwice | minesweeper.py:87-92 | two toggles of the same cell leave the visible grid as it was |
| Scenarios.TwoCellGame | minesweeper.py:59-105 | on a 1×2 board with its mine drawn at (0, 0), revealing (0, 1) shows a digit, leaves the mine hidden and wins |
| Scenarios.ThreeCellGame | minesweeper.py:12-44 | a fresh 1×3 board with its mine drawn at (0, 0) has the mine there, 1 at (0, 1), 0 at (0, 2), and every cell `U` |
| Scenarios.RowNeighbors | minesweeper.py:46-57 | on a 1×3 board the middle cell's neighbours are (0, 0) then (0, 2), and the last cell's only neighbour is (0, 1) |
| Scenarios.ThreeCellBoard | minesweeper.py:33-44 | on a well-formed 1×3 board whose only mine is at (0, 0), the other cells hold 1 and 0 |
| Scenarios.CascadeWin | minesweeper.py:59-105 | on that board, revealing the 0 at (0, 2) cascades to (0, 1), which shows 1 and stops the fill; the mine stays `U` and the game is won |
| Scenarios.WinAfterLoss | minesweeper.py:94-105 | on that board, revealing the mine and then (0, 1) shows `'*'` and 1 and sets both `gameOver` and `win` while the safe cell (0, 2), holding 0, is still `U` |

## Left out

- `MinesweeperApp` (minesweeper.py:108-228) is left out: the tkinter widgets, button styling, event binding, redrawing and message boxes are presentation and foreign library calls. Only the game-over guard of its two click handlers is modelled, as `GuardedReveal` and `GuardedToggleFlag`.
- The `__main__` block and its Easy/Medium settings (minesweeper.py:232-244) are configuration and the event loop only.
- `random.randint` (minesweeper.py:27-28) is replaced by the `draws` parameter, the sequence of coordinates the generator yields.
- Minesweeper.MinesweeperGame.PlaceMines: requires the draws to hold at least `numMines` distinct cells. The source's loop never ends when the random draws do not supply enough distinct cells, for instance when `num_mines > width*height`. The source checks nothing, so that demand falls on the caller.
- Minesweeper.MinesweeperGame.constructor: carries the same demand on `draws`. The source validates neither the dimensions nor the mine count.
- Minesweeper.MinesweeperGame.Reveal: the recursion has no depth limit. CPython stops a recursion after about 1000 nested calls with a `RecursionError`, so on a board of roughly a thousand cells with a large zero region the source aborts a cascade half way, leaving some cells revealed and skipping the win check. That needs a thousand or more cells; default settings are much smaller (the Easy and Medium settings named at minesweeper.py:234-235 give 81 and 256 cells).
- Minesweeper.MinesweeperGame.Reveal: the ghost `order` of changed cells is stated for a safe reveal only; a refused reveal changes nothing and a mine changes only its own cell, as the other postconditions say.
- Minesweeper.MinesweeperGame.Reveal: requires (x, y) inside the grid, and so do `ToggleFlag` and `CountNeighborMines`; `GetNeighbors` takes any (x, y), as the source's bounds test makes it safe for any. Python would index from the end for a negative coordinate and fail for one too large. The only callers, the click handlers, pass in-grid coordinates.
- Digits are `Num(n)` rather than the strings `str(n)`. Only the distinction between `'U'`, `'F'`, `'*'` and a number matters to the engine.
- The status invariant `StatusConsistent` is proved only for guarded play. `Scenarios.WinAfterLoss` shows that the engine breaks it when reveals continue after a loss.
