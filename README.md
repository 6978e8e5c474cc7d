# Minesweeper board engine

This project models the board engine of a browser Minesweeper game and
proves properties of that model in Dafny. The engine is a Redux slice and
two helpers:

- `createInitialBoard` builds the blank grid.
- `placeMines` runs on the first reveal. It clears the wrong-flag markers,
  draws the mine positions away from the clicked cell, and counts the mines
  around every safe cell.
- `revealEmptyCells` is the breadth-first flood fill from a clicked cell.
- The reducers are `initGame`, `revealCell` and `toggleFlag`, plus the
  slice's initial state.
- `generateMines` is the rejection-sampling draw of mine indices.
- `getNeighbors` lists the up-to-eight neighbours of a cell.

Files and modules:

- `types.dfy`: `Constants` (board side 8, 10 mines) and `Types` (cell, board and game state).
- `utils.dfy`: `Utils`, which models `getNeighbors` and `generateMines`.
- `board.dfy`: `Minefield`. It holds the marker sets of a board (mines, flags,
  revealed cells), the neighbour mine count, and the counting facts.
- `game_slice.dfy`: `GameSlice`, which models `createInitialBoard`,
  `placeMines` and `revealEmptyCells`.
- `game_reducers.dfy`: `GameReducers`. It holds the reducers and the state
  invariant `Inv`. `Inv` holds in the initial state and is kept by every reducer.

The store mutates Immer drafts; the model uses values: each operation takes
the old board or state and returns the new one. The loops of the source stay
loops (methods with invariants); each method is proved against a
specification predicate or function, and the game-level properties are
lemmas about those.

`BOARD_SIZE` and `MINE_COUNT` are imported by the slice from
`src/shared/constants.ts`, but that file does not define them. The model
fixes them at the Beginner preset's 8 and 10 (`src/shared/constants.ts:2-7`).
With these values 0 < 8 and 10 < 64, so `generateMines` can always finish.

## Model

| member | source | states |
|---|---|---|
| GameSlice.CreateInitialBoard | src/shared/store/slices/gameSlice.ts:7-25 | the grid is BOARD_SIZE rows of BOARD_SIZE cells; cell [r][c] carries row r and column c and is not a mine, not revealed, not flagged, not a wrong flag, with count 0; the mine, flag, revealed and wrong-flag sets are empty and the (zero) counts are correct |
| GameSlice.ClearWrongFlags | src/shared/store/slices/gameSlice.ts:32-34 | the copy placeMines starts from has no wrong-flag marker left, the same mines, flags and revealed cells as the board, and every count kept |
| GameSlice.MarkMines | src/shared/store/slices/gameSlice.ts:38-42 | the cell at row i / BOARD_SIZE, column i % BOARD_SIZE becomes a mine for every drawn index i; every other field and cell is unchanged |
| GameSlice.MarkStep | src/shared/store/slices/gameSlice.ts:38-42 | marking one more index keeps the board equal to the original with exactly the marked indices' cells made mines (the loop invariant of the forEach) |
| GameSlice.MarkedMines | src/shared/store/slices/gameSlice.ts:38-42 | after marking, the mine set is the old mine set plus the cells the drawn indices name |
| GameSlice.CountNeighborMines | src/shared/store/slices/gameSlice.ts:45-55 | every non-mine cell's count becomes the number of mines among its neighbours; mine cells keep their count; no mine marker changes; the counts are then correct |
| GameSlice.CountStep | src/shared/store/slices/gameSlice.ts:46-53 | one inner-loop turn handles exactly cell (row, col) in row-major order, counting against the unchanged mine layout |
| GameSlice.CountRow | src/shared/store/slices/gameSlice.ts:45-46 | a finished row hands over to the next with nothing else touched |
| GameSlice.CountedSameMines | src/shared/store/slices/gameSlice.ts:47-53 | the counting loop never changes a mine marker |
| GameSlice.PlacedCells | src/shared/store/slices/gameSlice.ts:35-40 | MINE_COUNT distinct indices avoiding row*BOARD_SIZE+col name MINE_COUNT distinct on-board cells, none of them the clicked one |
| GameSlice.PlacedBoard | src/shared/store/slices/gameSlice.ts:27-58 | the cleared, marked and counted board keeps revealed and flagged cells, clears every wrong flag, keeps the clicked cell's mine marker, adds exactly the drawn cells as mines (MINE_COUNT of them on an empty board), and has correct counts |
| GameSlice.PlaceMines | src/shared/store/slices/gameSlice.ts:27-58 | placeMines: everything PlacedBoard states, with the placed cells exactly MINE_COUNT on-board cells other than the clicked one |
| GameSlice.Unrevealed | src/shared/store/slices/gameSlice.ts:87-91 | the neighbours put on the queue are exactly the listed positions that are not revealed, in list order |
| GameSlice.EnqueueUnrevealed | src/shared/store/slices/gameSlice.ts:87-91 | the forEach appends exactly the unrevealed neighbours, in order, to the queue |
| GameSlice.VisitCell | src/shared/store/slices/gameSlice.ts:70-92 | one turn on an unvisited head: dequeue, reveal it unless flagged, and when its count is zero append its unrevealed neighbours |
| GameSlice.RevealedSeenStep | src/shared/store/slices/gameSlice.ts:77-82 | visiting a cell adds it to the visited set and reveals it exactly when it is not flagged |
| GameSlice.PushedNeighbors | src/shared/store/slices/gameSlice.ts:84-92 | a zero-count visit queues exactly its neighbours not yet visited or revealed, and, with correct zero counts, no mine |
| GameSlice.VisitFacts | src/shared/store/slices/gameSlice.ts:77-92 | a visit's board change and queue additions in the terms the loop invariant needs |
| GameSlice.ClosedStep | src/shared/store/slices/gameSlice.ts:69-92 | a turn keeps every neighbour of a visited zero-count cell visited, queued or already revealed |
| GameSlice.ReachedStep | src/shared/store/slices/gameSlice.ts:84-92 | a turn keeps every visited or queued cell but the start reached from a visited zero-count neighbour that was unrevealed |
| GameSlice.MineFreeStep | src/shared/store/slices/gameSlice.ts:84-92 | a turn that queues no mine keeps the visited and queued cells mine-free |
| GameSlice.SkipVisited | src/shared/store/slices/gameSlice.ts:73-75 | dropping an already visited head keeps the loop invariant |
| GameSlice.QueueStep | src/shared/store/slices/gameSlice.ts:77-92 | visiting an unvisited head keeps the queue closed, reached and mine-free |
| GameSlice.VisitKeepsInv | src/shared/store/slices/gameSlice.ts:69-93 | a turn on an unvisited head keeps the whole loop invariant |
| GameSlice.FloodStart | src/shared/store/slices/gameSlice.ts:65-67 | the invariant holds for the copied board, no visited cell and the queue [start] |
| GameSlice.FloodDone | src/shared/store/slices/gameSlice.ts:69-95 | at an empty queue the invariant gives the flood-fill guarantee and mine-freedom |
| GameSlice.RevealEmptyCells | src/shared/store/slices/gameSlice.ts:60-96 | the loop terminates; the result is the input with exactly the unflagged visited cells revealed (a flagged cell is never revealed, nothing else changes); the start is visited; every neighbour of a visited zero-count cell is visited or was revealed; every visited cell but the start was unrevealed and has a visited zero-count neighbour; on a board whose zero counts are safe, from a safe start, no visited cell is a mine |
| GameReducers.InitialState | src/shared/store/slices/gameSlice.ts:98-105 | the initial state: a blank board, waiting, MINE_COUNT, no flags, timer 0, first click pending; it satisfies Inv |
| GameReducers.InitGame | src/shared/store/slices/gameSlice.ts:111-117 | a fresh blank board, waiting, flagCount 0, timer 0, first click pending, mineCount left as it was; Inv holds whenever mineCount is MINE_COUNT |
| GameReducers.InvMarkers | src/shared/store/slices/gameSlice.ts:119-191 | in a state of Inv: no mine and no revealed cell before the first click; no revealed mine, no wrong flag and no revealed flag until the game is lost; every safe cell revealed in a won game; every mine revealed and exactly the flags on safe cells marked wrong in a lost game |
| GameReducers.FitNoRevealedMine | src/shared/store/slices/gameSlice.ts:141-166 | until the game is lost no mine is revealed |
| GameReducers.ExposeMines | src/shared/store/slices/gameSlice.ts:145-153 | every mine revealed, every flag on a safe cell marked wrong, nothing else changed |
| GameReducers.ExposedEffects | src/shared/store/slices/gameSlice.ts:145-153 | exposing adds the mines to the revealed cells and the safe flags to the wrong flags, keeping mines, flags and counts |
| GameReducers.LostFit | src/shared/store/slices/gameSlice.ts:141-153 | the exposed board of a game in play fits a lost game |
| GameReducers.FloodEffects | src/shared/store/slices/gameSlice.ts:77-82 | the flood fill keeps mines, flags, wrong flags and counts and adds exactly the unflagged visited cells to the revealed ones |
| GameReducers.PlacedEffects | src/shared/store/slices/gameSlice.ts:32-55 | mine placement keeps revealed and flagged cells, clears all wrong flags, and turns a waiting board into one fit for play |
| GameReducers.FloodFit | src/shared/store/slices/gameSlice.ts:155-165 | a mine-free flood fill keeps a board fit for play, or fit for a won game once every safe cell is revealed |
| GameReducers.SafeReveal | src/shared/store/slices/gameSlice.ts:154-155 | a flood fill from a safe unflagged cell of a board with correct counts reveals that cell and visits no mine |
| GameReducers.RevealCell | src/shared/store/slices/gameSlice.ts:119-167 | revealCell: an ignored click (revealed or flagged cell, won or lost game) changes nothing; otherwise the first click places the mines and moves to playing; a click on a cell that was a mine loses and exposes the board; any other click flood-fills from the cell and wins exactly when BOARD_SIZE² − MINE_COUNT cells are revealed |
| GameReducers.RevealCellKeepsInv | src/shared/store/slices/gameSlice.ts:119-167 | revealCell keeps Inv; a handled click loses exactly when the cell was a mine; the first click is never a mine and leaves MINE_COUNT mines; a safe click reveals its cell, and the game is then won exactly when every safe cell is revealed |
| GameReducers.ToggleFlag | src/shared/store/slices/gameSlice.ts:169-191 | toggleFlag: a revealed cell or a finished game is left alone; otherwise the flag flips, flagCount moves by one with it, and no other cell or field changes |
| GameReducers.FlagFlipped | src/shared/store/slices/gameSlice.ts:184-190 | flipping one flag adds or removes exactly that cell from the flagged set and keeps mines, revealed cells, wrong flags, counts and the all-safe-revealed condition |
| GameReducers.FlagFit | src/shared/store/slices/gameSlice.ts:176-190 | flipping the flag of an unrevealed cell keeps the board fit for a waiting or playing game |
| GameReducers.ToggleFlagKeepsInv | src/shared/store/slices/gameSlice.ts:169-191 | toggleFlag keeps Inv, in particular flagCount equal to the number of flagged cells, and the flagged set gains or loses exactly the toggled cell |
| GameReducers.ToggleFlagTwice | src/shared/store/slices/gameSlice.ts:169-191 | toggling the same cell twice gives back the original state |
| Utils.GetNeighbors | src/shared/utils.ts:19-40 | getNeighbors returns exactly the in-bounds cells around (row, col) other than itself, in offset order without repeats, at most eight of them |
| Utils.PushNeighbor | src/shared/utils.ts:27-36 | one inner-loop turn skips offset (0, 0) and pushes the pair exactly when it is on the board |
| Utils.PushStep | src/shared/utils.ts:25-38 | the list after offset k is the list after the first k offsets plus what offset k pushes |
| Utils.NeighborsFacts | src/shared/utils.ts:19-40 | the neighbour list holds exactly the neighbours, is strictly increasing, and has at most eight entries |
| Utils.NeighborsMembership | src/shared/utils.ts:25-38 | p is listed exactly when it is on the board, differs from (row, col) and is at most one row and one column away |
| Utils.NeighborsSorted | src/shared/utils.ts:25-26 | the list is lexicographically increasing, so no pair repeats |
| Utils.NeighborsCount | src/shared/utils.ts:25-38 | an on-board cell has 8 neighbours inside, 5 on an edge and 3 in a corner |
| Utils.NeighborsSymmetric | src/shared/utils.ts:25-38 | a is a neighbour of b exactly when b is a neighbour of a |
| Utils.KeptAtMostEight | src/shared/utils.ts:27-29 | the centre offset is always skipped, so at most eight pairs are pushed |
| Utils.PushedMember | src/shared/utils.ts:25-36 | a pair is pushed exactly when some visited offset is kept and yields it |
| Utils.PushedSorted | src/shared/utils.ts:25-26 | increasing offsets push increasing pairs |
| Utils.Admissible | src/shared/utils.ts:8-14 | the indices a draw may add are exactly [0, totalCells) without excludeIndex |
| Utils.AdmissibleCard | src/shared/utils.ts:8-14 | there are totalCells of them, less one when excludeIndex is in range |
| Utils.GenerateMines | src/shared/utils.ts:1-17 | the result holds exactly mineCount indices, all in [0, totalCells), none equal to excludeIndex |
| Minefield.NeighborCountIsAdjacentMines | src/shared/store/slices/gameSlice.ts:48-51 | the filter's count is the number of distinct mines around the cell, hence between 0 and 8 |
| Minefield.MinesAmongCountsSet | src/shared/store/slices/gameSlice.ts:48-50 | over a list without repeats the filter's length is the number of listed mines |
| Minefield.MinesAmongSameMines | src/shared/store/slices/gameSlice.ts:48-50 | the count depends only on the mine markers |
| Minefield.CountsCorrectKept | src/shared/store/slices/gameSlice.ts:45-55 | correct counts survive a change that keeps mines and counts |
| Minefield.CountsCorrectZeroSafe | src/shared/store/slices/gameSlice.ts:84-92 | with correct counts, a safe cell whose count is zero has no mine around it, so the flood fill only queues safe cells |
| Minefield.NoMinesAmong | src/shared/store/slices/gameSlice.ts:48-51 | a zero count over a list means none of its positions is a mine |
| Minefield.WinCountMeansAllSafeRevealed | src/shared/store/slices/gameSlice.ts:157-165 | on a board with MINE_COUNT mines, none revealed, the revealed count is BOARD_SIZE² − MINE_COUNT exactly when every safe cell is revealed |
| Minefield.GridCard | src/shared/store/slices/gameSlice.ts:158 | the board has BOARD_SIZE² cells |
| Minefield.IndexOfPos | src/shared/store/slices/gameSlice.ts:35 | row*BOARD_SIZE+col is an in-range index that maps back to (row, col) |
| Minefield.PosOfIndex | src/shared/store/slices/gameSlice.ts:39-40 | an in-range index maps by floor division and remainder to an on-board cell whose index it is |
| Minefield.IndexToPosInjective | src/shared/store/slices/gameSlice.ts:39-40 | distinct indices name distinct cells |
| Minefield.PosOfCard | src/shared/store/slices/gameSlice.ts:38-42 | a set of indices names as many cells as it has indices |
| Minefield.SetCellMarkers | src/shared/store/slices/gameSlice.ts:81 | a single-cell update changes the mine, flag, revealed and wrong-flag sets at the updated cell only, according to the markers the new cell carries |
| Minefield.MinesAmong | src/shared/store/slices/gameSlice.ts:49-51 | the filtered neighbour count is at most the number of listed positions, and it is zero exactly when no listed position holds a mine |
| Minefield.Revealed | src/shared/store/slices/gameSlice.ts:159-161 | the revealed cells, whose number is the win count: a position is in it exactly when it is on the board and revealed |
| Minefield.IndexToPos | src/shared/store/slices/gameSlice.ts:39-40 | floor division and remainder turn an in-range index into an on-board cell whose row-major index is that index |

## Left out

- Cell.id: the `row-col` string id is dropped. The flood fill's visited set of id strings is a set of coordinate pairs, which is the same set for on-board cells.
- Utils.GenerateMines: `Math.random` becomes a nondeterministic choice, and the draw distribution is not modelled. A draw that changes nothing (the excluded index, or an index already drawn) is not taken. The model therefore cannot express the source's unbounded number of rejected iterations, and that loop's termination rests on the choice of accepted draws.
- GameSlice.RevealEmptyCells: it does not state that the parent links lead back to the start without a cycle. Safety comes from a separate clause: from a safe start on a board with correct counts, no visited cell is a mine.
- GameReducers.RevealCell, GameReducers.ToggleFlag: both require an on-board (row, col), because the source reads `state.board[row][col]` without a bounds check (gameSlice.ts:124 and :174).
- GameReducers.RevealCell: the clicked cell is read before mine placement, as in the source, so a first click can never lose.
- GameReducers.InitGame: Inv is claimed only when mineCount is already MINE_COUNT, because initGame does not reset that field.
- Draft mutation and aliasing under Immer are modelled by value semantics. The model does not capture that `cell` in revealCell is a draft proxy.
- These parts of the game are not part of this model: the timer and its `tickTimer` action, `setDifficulty`, `setCustomDifficulty`, area-open and chord actions, the `GameAction` union, `DIFFICULTY_SETTINGS` beyond the two fixed values, the store wiring and every React component.
- Integer width: JavaScript numbers are doubles. Every value here stays below 64, so unbounded integers model them exactly.
