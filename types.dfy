// The board size and mine total, and the shapes of a cell and of the game
// state.

module Constants {
  /** Side of the square board. The value is the Beginner preset's width. */
  const BOARD_SIZE: nat := 8

  /** Mines placed on the first reveal. The value is the Beginner preset's
      mine count; it leaves at least one cell besides the first click free. */
  const MINE_COUNT: nat := 10
}

module Types {
  /** One square of the grid. */
  datatype Cell = Cell(
    row: int,
    col: int,
    isMine: bool,
    isRevealed: bool,
    neighborMines: int,
    isFlagged: bool,
    isWrongFlag: bool    // flagged, but shown at the end to hold no mine
  )

  /** The grid, row-major: board[row][col]. */
  type Board = seq<seq<Cell>>

  datatype Status = Waiting | Playing | Won | Lost

  datatype GameState = GameState(
    board: Board,
    gameStatus: Status,
    mineCount: int,
    flagCount: int,
    timer: int,
    isFirstClick: bool
  )
}
