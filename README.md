# Minesweeper rules engine (sapter), modelled in Dafny

This project models the rules engine of `sapter`, a terminal Minesweeper
game. One `GameState` holds the following:

- the list of mines;
- the list of opened cells;
- the list of flagged cells;
- the cursor (the player's cell);
- the board's width and height;
- an alive flag.

The front end sends key presses to the engine. They move the cursor, toggle
a flag, reveal the cell under the cursor or bring a dead player back to
life. The front end also asks for the win check and the counter of mines
left.

The model is split into five files:

- `geometry.dfy` (module `Geometry`): cells, board bounds and the x-major
  order on cells. It also holds the enumeration of every cell of a board,
  which is the game's `all`, and the range check.
- `sorting.dfy` (module `Sorting`): the two list steps the win check uses.
  The first sorts cells by the derived order on pairs. The second zips two
  lists, keeps the pairs that agree and counts them.
- `mine_layout.dfy` (module `MineLayout`): the mine generation loop. The
  random generator is replaced by a sequence of candidate cells that the
  caller supplies.
- `win_check.dfy` (module `WinCheck`): the game's `closed` list and the win
  test, both as written and as evidently intended.
- `game_state.dfy` (module `Game`): the `GameState` class and its
  operations. This covers the moves, the flag toggle, opening a cell,
  counting the mines around a cell, the recursive flood fill, showing every
  mine, reveal and the win check.

## Model

| member | source | states |
|---|---|---|
| Geometry.AllCells | src/lib.rs:224-230 | The enumeration has width * height cells. They are strictly increasing in the x-major order, and a cell is listed exactly when it lies on the board. |
| Geometry.BoardCellsCard | src/lib.rs:224-230 | A board has width * height distinct cells, and any set of cells on it has at most that many. |
| Geometry.InRangeOnBoard | src/lib.rs:66-72 | The strict range check admits a cell exactly when the board's enumeration lists it. |
| Geometry.InRangeAsWrittenAdmitsOffBoard | src/lib.rs:66-72 | On every board the range check as written admits the cell (width, height), which is not on the board. |
| MineLayout.Requested | src/lib.rs:313-319 | A generation that stops yields at least one mine and at least the number asked for. It yields exactly that number when at least one is asked for. |
| MineLayout.Accumulate | src/lib.rs:313-315 | Pushing each draw unless it is already listed gives a list without repetitions that holds exactly the cells drawn. |
| MineLayout.GenerateMines | src/lib.rs:303-323 | The loop yields distinct cells on the board, namely the distinct draws consumed so far. It stops by its own test exactly when the draws hold at least max(nofMines, 1) distinct cells, and then holds exactly that many. Otherwise it has used up every draw and holds fewer. |
| MineLayout.OracleBound | src/lib.rs:303-323 | The generation can only stop when max(nofMines, 1) is at most width * height. |
| MineLayout.FittingRequestStops | src/lib.rs:303-323 | When max(nofMines, 1) is at most width * height and the generator has drawn every cell of the board, the draws hold enough distinct cells for the loop to stop. |
| Sorting.Insert | src/lib.rs:199-200 | Insertion adds exactly x to the multiset of elements. |
| Sorting.InsertSorted | src/lib.rs:199-200 | Inserting into a sorted list keeps it sorted. |
| Sorting.InsertStrictlySorted | src/lib.rs:199-200 | Inserting a new cell into a strictly sorted list keeps it strictly sorted. |
| Sorting.Sort | src/lib.rs:199-200 | The sorted list is a permutation of its input, and it is sorted. |
| Sorting.SortStrictlySorted | src/lib.rs:199-200 | Sorting a list without repetitions gives a strictly increasing list. |
| Sorting.SortElements | src/lib.rs:199-200 | Sorting keeps the set of elements. |
| Sorting.CountMatches | src/lib.rs:202-206 | The count of agreeing pairs is at most the length of either list. It equals the length of the second list exactly when that list is a prefix of the first. |
| Sorting.SortedUnique | src/lib.rs:199-200 | Two strictly sorted lists with the same elements are equal. |
| Sorting.PrefixMeaning | src/lib.rs:202-208 | Take two strictly sorted lists where every element of the second is also in the first. The second is a prefix of the first exactly when every other element of the first comes after all of the second. |
| WinCheck.ClosedAmong | src/lib.rs:217-222 | A cell is closed exactly when it is listed, and either not opened or a mine. The filter keeps the list free of repetitions. |
| WinCheck.SortedLists | src/lib.rs:196-200 | The sorted closed list and the sorted mine list are strictly increasing. They keep their elements, and every mine is closed. |
| WinCheck.ZipTestMeaning | src/lib.rs:196-208 | The zip test succeeds exactly when no closed safe cell comes before a mine in the x-major order. It succeeds whenever every safe cell is opened. |
| WinCheck.ExactTestMeaning | src/lib.rs:196-208 | The intended test succeeds exactly when every safe cell on the board is opened. |
| WinCheck.ZipTestAcceptsUnopenedBoard | src/lib.rs:202-208 | Take a 3 x 1 board whose only mine is at (0, 0), with nothing opened. The zip test succeeds there, although two safe cells are closed and the intended test fails. |
| Game.Without | src/lib.rs:58 | Removing a flag drops exactly that cell and keeps the list free of repetitions. Nothing changes when the cell was not flagged. |
| Game.ToggleFlag | src/lib.rs:57-62 | The toggled cell's flag is inverted and every other cell's flag is kept. No cell is flagged twice. |
| Game.ToggleFlagCount | src/lib.rs:57-62 | A toggle changes the number of flags by exactly one: down when the cell was flagged, up otherwise. |
| Game.ToggleTwice | src/lib.rs:49-64 | Toggling twice restores the flagged cells and their number, and so the mines-left counter. The very same list comes back when the cell was not flagged. |
| Game.GameState.constructor | src/lib.rs:28-38 | A new game keeps its board size and has max(nofMines, 1) distinct mines on the board, all drawn from the generator. Nothing is opened or flagged, the cursor is at (0, 0), the player is alive, and the counter shows every mine. |
| Game.GameState.MinesLeft | src/lib.rs:180-182 | The counter is the number of distinct mines minus the number of distinct flagged cells, negative when more cells are flagged than there are mines. |
| Game.GameState.MinesLeftAsWritten | src/lib.rs:180-182 | The unsigned counter is the value below 2^64 that, added to the flag count, gives the mine count modulo 2^64. It equals MinesLeft while there are no more flags than mines. |
| Game.GameState.MinesLeftWraps | src/lib.rs:180-182 | With one mine and two flags the unsigned counter is 2^64 - 1, where the intended count is -1. |
| Game.GameState.Open | src/lib.rs:40-47 | Opening fails exactly for a cell off the board. Otherwise the cell is appended unless it is already opened. The list never loses a cell and never holds one twice. |
| Game.GameState.Flag | src/lib.rs:49-64 | Nothing changes when the player is dead or the cursor's cell is opened. Otherwise the flag under the cursor is toggled. |
| Game.GameState.MovePlayerRight | src/lib.rs:78-82 | The cursor moves one column right while alive and not at the last column. Otherwise it stays, and it stays on the board. |
| Game.GameState.MovePlayerLeft | src/lib.rs:84-88 | The cursor moves one column left while alive and not at column 0. Otherwise it stays. |
| Game.GameState.MovePlayerUp | src/lib.rs:90-94 | The cursor moves one row up while alive and not at row 0. Otherwise it stays. |
| Game.GameState.MovePlayerDown | src/lib.rs:96-100 | The cursor moves one row down while alive and not at the last row. Otherwise it stays, and it stays on the board. |
| Game.GameState.Resurrect | src/lib.rs:102-104 | The player is alive again, and nothing else changes. |
| Game.GameState.ScanCell | src/lib.rs:253-259 | Scanning one more cell adds one to the count exactly when that cell is a mine other than the centre. |
| Game.GameState.ScanWhole | src/lib.rs:245-252 | The clamped 3 x 3 block holds exactly the mines that touch the cell. |
| Game.GameState.NearbyAtMostEight | src/lib.rs:244-264 | No cell is touched by more than eight mines. |
| Game.GameState.CountMinesAround | src/lib.rs:244-264 | The scan counts exactly the mines that touch the cell, never the cell itself, and at most 8. The result therefore fits the u8 result. |
| Game.GameState.NoMineBeside | src/lib.rs:131-163 | A side neighbour of a cell with no mine around it holds no mine. |
| Game.GameState.ExtendFill | src/lib.rs:149-163 | After one more neighbour step, the fill is still a fill from its start: each cell the nested fill opened is traced back to an expanded cell opened before it, or to the start. That neighbour is covered. |
| Game.GameState.RecursiveOpen | src/lib.rs:131-163 | The fill terminates and opens only cells on the board. Every cell it opens (other than the start) is safe, is not a flagged cell with no mine around, and is a side neighbour of an expanded cell (no mine around it, no flag) that is the start or was opened before it. Following these cells back always ends at the start, so the fill opens only cells it can reach from the start through expanded cells. Every such expanded cell has each side neighbour on the board opened, or flagged with no mine around. A cell with mines around is opened but not expanded. A start that is a mine or flagged cell with none around is not opened, and the fill opens nothing. |
| Game.GameState.ExpandAround | src/lib.rs:149-163 | From an opened cell with nothing around it, the four neighbour steps complete the fill. |
| Game.GameState.ExpandForward | src/lib.rs:157-163 | The right and down steps keep the fill a fill from its start and cover those two neighbours. |
| Game.GameState.Step | src/lib.rs:149-163 | One neighbour step keeps the fill a fill from its start and covers that neighbour when it is on the board. |
| Game.GameState.CoveredGrows | src/lib.rs:149-163 | Each step's covered neighbour stays covered while later steps only append. |
| Game.GameState.Spread | src/lib.rs:149-163 | A neighbour that is in range and not opened gets a complete fill of its own. Otherwise nothing changes. |
| Game.GameState.FillFromOpenedStart | src/lib.rs:125-126 | A fill that starts right after its start cell (neither a mine nor flagged) was opened is also a fill from the list before that opening. |
| Game.GameState.FillStopsAtFlag | src/lib.rs:149-163 | On a row of seven cells with a mine at the right end and a flag on the third cell, the only fill from the left end (a list of distinct cells on the board) opens the two cells in front of the flag, left to right. In particular, a list that also opens the flagged cell is not a fill. A fill started on the flagged cell opens nothing. |
| Game.GameState.InFrontOfFlag | src/lib.rs:149-163 | In that example, every cell a fill from the left end opens lies in front of the flag, because each is traced back to the start through expanded cells. |
| Game.GameState.FillOpensNoMine | src/lib.rs:131-163 | A fill that starts on a safe cell opens no mine. |
| Game.GameState.ShowAllMines | src/lib.rs:184-189 | Every mine is opened in addition to what was already opened. Nothing is lost and no cell is listed twice. |
| Game.GameState.Reveal | src/lib.rs:106-129 | Nothing changes when the player is dead or the cursor's cell is flagged. On a mine the player dies and every mine is opened. On a safe cell the player stays alive, the cell is opened and the fill runs from it, and no mine is opened. Every other cell opened is reached from the cursor's cell through expanded cells, each opened before the next, and none is a flagged cell with no mine around. |
| Game.GameState.CheckHasWon | src/lib.rs:191-215 | With a flag count different from the mine count the game is not won. Otherwise it is won exactly when every safe cell on the board is opened (the corrected comparison, see Findings). A win ends the game, and nothing else changes. |

## Left out

- `src/main.rs` is not part of this model. It holds the terminal front end: the event loop, the key bindings, the drawing and the frame rate. It only calls the engine.
- The random generator is a foreign call. `GameState` takes the generator's successive draws as a sequence of candidate cells. The constructor requires that these draws hold enough distinct cells for the generation loop to stop. With fewer, the game's loop would run forever.
- The `Display` text of `RangeError` is not modelled. `Open` returns a boolean in place of the `Result`. Callers that `unwrap` it (reveal, the fill and showing the mines) assert that it succeeded.
- Unsigned overflow and underflow are not modelled in general. `width - 1` and `height - 1` in the moves are ruled out by a precondition: `Valid()` keeps the cursor on the board, so the board is never empty. The underflow of `mines.len() - flags.len()` is modelled and described under Findings.
- The queries `has_mine`, `is_opened`, `is_flagged` and `is_player` are modelled as the predicates `HasMine`, `IsOpened`, `IsFlagged` and `IsPlayer`. They have no contract of their own, and their meaning is used inside the other members' contracts. `Closed` is the game's `closed`; it is specified through `ClosedAmong`.
- The range check is modelled strictly (`x < width && y < height`). The game's own check is kept as `InRangeAsWritten` and described under Findings. As a result, the model's fill never steps to column `width` or row `height`, while the game's fill can open those off-board cells.
- The game never promises that flagged cells and opened cells are disjoint, and the model does not either. The fill opens a flagged cell that has mines around it, because the count is tested before the flag. Showing the mines opens flagged mines.
- The win check ignores where the flags are and only compares their number with the number of mines. `CheckHasWon` states exactly that.
- `CheckHasWon` compares the whole sorted closed list with the sorted mines, which is the corrected test under Findings. The game's zip comparison is modelled as `WinCheck.ZipTest`, and `WinCheck.ZipTestMeaning` characterises it.
- Game.ToggleTwice: when the cell was flagged, toggling twice moves its flag to the end of the list. The lemma therefore promises the same flagged cells and the same count, not the same list.
- The commented-out code is not modelled: rendering, the `Display` of the board, and an older variant of the fill.

## Findings

| source | as written | input that shows it | evidently intended | confidence | as-written member | corrected member |
|---|---|---|---|---|---|---|
| src/lib.rs:66-72 | `is_in_range` refuses a cell only when `x > width` or `y > height`. | The cell (width, height) on any board, e.g. (3, 3) on a 3 x 3 board, is admitted. From a cell with no mines around it in the last column, the fill then opens (width, y). | A cell is in range exactly when `x < width` and `y < height`, as the error text and the cursor clamps say. | not executed | Geometry.InRangeAsWrittenAdmitsOffBoard | Geometry.InRangeOnBoard |
| src/lib.rs:202-208 | The sorted closed cells are zipped with the sorted mines, and the game is won when all `mines.len()` pairs agree. Zip stops at the shorter list, so only the first `mines.len()` closed cells are compared. | A 3 x 1 board, one mine at (0, 0), one flag and nothing opened: the game is declared won. | Won exactly when the closed cells are the mines, that is, when every safe cell is opened. | not executed | WinCheck.ZipTestAcceptsUnopenedBoard | WinCheck.ExactTestMeaning |
| src/lib.rs:308-320 | The generation loop draws random cells until it holds max(nof_mines, 1) distinct ones, with no bound on the request. | A 2 x 2 board with 5 mines requested: at most 4 distinct cells exist, so the loop never ends. | Refuse a request larger than the board; a request that fits always ends once every cell has been drawn. | not executed | MineLayout.OracleBound | MineLayout.FittingRequestStops |
| src/lib.rs:180-182 | `mines_left` subtracts the flag count from the mine count in unsigned arithmetic, and flagging is not limited. | One mine and two flagged cells: the count underflows (a panic in a debug build, 18446744073709551615 in a release build). | A signed count, -1 here. | not executed | Game.GameState.MinesLeftWraps | Game.GameState.MinesLeft |
