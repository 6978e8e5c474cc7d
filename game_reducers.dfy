// The game state and the three reducers of the game slice: initGame,
// revealCell and toggleFlag. Each reducer takes the old state and returns
// the new one in place of mutating a draft.

module GameReducers {
  import opened Utils
  import opened Constants
  import opened Types
  import opened Minefield
  import opened GameSlice

  // ------------------------------------------------------------ the invariant

  /** What every state reachable from the initial state satisfies: the
      board is well formed with correct counts, flagCount is the number of
      flagged cells, the game waits exactly while the first click is
      pending, the board holds MINE_COUNT mines once it has been made, and
      every cell fits the game status. */
  predicate Inv(s: GameState)
  {
    WellFormed(s.board) &&
    s.mineCount == MINE_COUNT &&
    s.flagCount == |Flagged(s.board)| &&
    CountsCorrect(s.board) &&
    (s.isFirstClick <==> s.gameStatus == Waiting) &&
    (!s.isFirstClick ==> |Mines(s.board)| == MINE_COUNT) &&
    CellsFit(s.board, s.gameStatus)
  }

  /** What a cell looks like in a game of status st:
      - while waiting it holds no mine and is not revealed;
      - until the game is lost it is not a revealed mine, not both flagged
        and revealed, and not marked as a wrong flag;
      - in a won game it is a mine or revealed;
      - in a lost game a mine is revealed, and the cell is marked as a wrong
        flag exactly when it is flagged and safe. */
  predicate CellFits(x: Cell, st: Status)
  {
    (st == Waiting ==> !x.isMine && !x.isRevealed) &&
    (st != Lost ==> !(x.isMine && x.isRevealed) && !(x.isFlagged && x.isRevealed) && !x.isWrongFlag) &&
    (st == Won ==> x.isMine || x.isRevealed) &&
    (st == Lost ==> (x.isMine ==> x.isRevealed) && (x.isWrongFlag <==> x.isFlagged && !x.isMine))
  }

  /** Every cell of b fits the status st. */
  predicate CellsFit(b: Board, st: Status)
    requires WellFormed(b)
  {
    forall r, c :: 0 <= r < BOARD_SIZE && 0 <= c < BOARD_SIZE ==> CellFits(b[r][c], st)
  }

  /** The invariant in terms of the marker sets: no mine and no revealed
      cell before the first click; no revealed mine, no wrong flag and no
      revealed flag until the game is lost; every safe cell revealed in a
      won game; every mine revealed and exactly the flags on safe cells
      marked wrong in a lost one. */
  lemma InvMarkers(s: GameState)
    requires Inv(s)
    ensures s.isFirstClick ==> Mines(s.board) == {} && Revealed(s.board) == {}
    ensures s.gameStatus != Lost ==>
      NoRevealedMine(s.board) && WrongFlags(s.board) == {} && Revealed(s.board) * Flagged(s.board) == {}
    ensures s.gameStatus == Won ==> AllSafeRevealed(s.board)
    ensures s.gameStatus == Lost ==>
      Mines(s.board) <= Revealed(s.board) && WrongFlags(s.board) == Flagged(s.board) - Mines(s.board)
  {
    var b, st := s.board, s.gameStatus;
    forall p | OnBoard(p) ensures CellFits(At(b, p), st) {
    }
    if st == Won {
      forall r, c | 0 <= r < BOARD_SIZE && 0 <= c < BOARD_SIZE && !b[r][c].isMine
        ensures b[r][c].isRevealed
      {
        assert CellFits(b[r][c], st);
      }
    }
  }

  /** Until the game is lost, no mine is revealed. */
  lemma FitNoRevealedMine(b: Board, st: Status)
    requires WellFormed(b) && CellsFit(b, st) && st != Lost
    ensures NoRevealedMine(b)
  {
    forall p | p in Mines(b) ensures p !in Revealed(b) {
      assert CellFits(At(b, p), st);
    }
  }

  // ------------------------------------------------------------ initialState, initGame

  /** The slice's initial state: a blank board, waiting for the first click. */
  method InitialState() returns (s: GameState)
    ensures WellFormed(s.board)
    ensures forall r, c :: 0 <= r < BOARD_SIZE && 0 <= c < BOARD_SIZE ==> s.board[r][c] == BlankCell(r, c)
    ensures s.gameStatus == Waiting && s.mineCount == MINE_COUNT && s.flagCount == 0 && s.timer == 0 && s.isFirstClick
    ensures Inv(s)
  {
    var board := CreateInitialBoard();
    s := GameState(board := board, gameStatus := Waiting, mineCount := MINE_COUNT, flagCount := 0,
                   timer := 0, isFirstClick := true);
  }

  /** initGame: a fresh blank board, waiting, no flags, timer at zero,
      first click pending. mineCount is the one field left as it was, so
      the invariant is restored whenever mineCount is MINE_COUNT. */
  method InitGame(s: GameState) returns (t: GameState)
    ensures WellFormed(t.board)
    ensures forall r, c :: 0 <= r < BOARD_SIZE && 0 <= c < BOARD_SIZE ==> t.board[r][c] == BlankCell(r, c)
    ensures t.gameStatus == Waiting && t.flagCount == 0 && t.timer == 0 && t.isFirstClick
    ensures t.mineCount == s.mineCount
    ensures s.mineCount == MINE_COUNT ==> Inv(t)
  {
    var board := CreateInitialBoard();
    t := s.(board := board);
    t := t.(gameStatus := Waiting);
    t := t.(flagCount := 0);
    t := t.(timer := 0);
    t := t.(isFirstClick := true);
  }

  // ------------------------------------------------------------ revealCell

  /** The clicks revealCell ignores: on a revealed or flagged cell, or once
      the game is over. */
  predicate Ignored(s: GameState, row: int, col: int)
    requires WellFormed(s.board) && OnBoard((row, col))
  {
    s.board[row][col].isRevealed || s.board[row][col].isFlagged ||
    s.gameStatus == Won || s.gameStatus == Lost
  }

  /** `after` is `before` as the lost game shows it: every mine revealed,
      every flag on a safe cell marked wrong, nothing else changed. */
  predicate Exposed(before: Board, after: Board)
    requires WellFormed(before) && WellFormed(after)
  {
    forall r, c :: 0 <= r < BOARD_SIZE && 0 <= c < BOARD_SIZE ==>
      after[r][c] ==
        if before[r][c].isMine then before[r][c].(isRevealed := true)
        else if before[r][c].isFlagged then before[r][c].(isWrongFlag := true)
        else before[r][c]
  }

  /** The board.forEach of a lost game, cell by cell. */
  method ExposeMines(board: Board) returns (newBoard: Board)
    requires WellFormed(board)
    ensures WellFormed(newBoard) && Exposed(board, newBoard)
  {
    newBoard := board;
    for row := 0 to BOARD_SIZE
      invariant WellFormed(newBoard)
      invariant forall r, c :: 0 <= r < row && 0 <= c < BOARD_SIZE ==>
        newBoard[r][c] ==
          if board[r][c].isMine then board[r][c].(isRevealed := true)
          else if board[r][c].isFlagged then board[r][c].(isWrongFlag := true)
          else board[r][c]
      invariant forall r, c :: row <= r < BOARD_SIZE && 0 <= c < BOARD_SIZE ==> newBoard[r][c] == board[r][c]
    {
      for col := 0 to BOARD_SIZE
        invariant WellFormed(newBoard)
        invariant forall r, c :: (0 <= r < row || (r == row && c < col)) && 0 <= c < BOARD_SIZE ==>
          newBoard[r][c] ==
            if board[r][c].isMine then board[r][c].(isRevealed := true)
            else if board[r][c].isFlagged then board[r][c].(isWrongFlag := true)
            else board[r][c]
        invariant forall r, c :: (row < r < BOARD_SIZE || (r == row && col <= c)) && 0 <= c < BOARD_SIZE ==>
          newBoard[r][c] == board[r][c]
      {
        var cell := newBoard[row][col];
        if cell.isMine {
          newBoard := SetCell(newBoard, (row, col), cell.(isRevealed := true));
        } else if cell.isFlagged {
          newBoard := SetCell(newBoard, (row, col), cell.(isWrongFlag := true));
        }
      }
    }
  }

  /** Exposing keeps mines, flags and counts; it adds the mines to the
      revealed cells and the flags on safe cells to the wrong flags. */
  lemma ExposedEffects(before: Board, after: Board)
    requires WellFormed(before) && WellFormed(after) && Exposed(before, after)
    ensures SameMines(before, after) && Mines(after) == Mines(before) && Flagged(after) == Flagged(before)
    ensures Revealed(after) == Revealed(before) + Mines(before)
    ensures WrongFlags(after) == WrongFlags(before) + (Flagged(before) - Mines(before))
    ensures CountsCorrect(before) ==> CountsCorrect(after)
  {
    forall p | OnBoard(p)
      ensures At(after, p) ==
        if At(before, p).isMine then At(before, p).(isRevealed := true)
        else if At(before, p).isFlagged then At(before, p).(isWrongFlag := true)
        else At(before, p)
    {
    }
    if CountsCorrect(before) {
      CountsCorrectKept(before, after);
    }
  }

  /** The flood fill keeps mines, flags, wrong flags and counts, and adds
      the unflagged visited cells to the revealed ones. */
  lemma FloodEffects(before: Board, after: Board, visited: set<Pos>)
    requires WellFormed(before) && WellFormed(after) && AllOnBoard(visited)
    requires RevealedSeen(before, after, visited)
    ensures SameMines(before, after) && Mines(after) == Mines(before)
    ensures Flagged(after) == Flagged(before) && WrongFlags(after) == WrongFlags(before)
    ensures Revealed(after) == Revealed(before) + (visited - Flagged(before))
    ensures CountsCorrect(before) ==> CountsCorrect(after)
  {
    forall p | OnBoard(p)
      ensures At(after, p) ==
        At(before, p).(isRevealed := At(before, p).isRevealed || (p in visited && !At(before, p).isFlagged))
    {
    }
    forall p ensures p in Revealed(after) <==> p in Revealed(before) + (visited - Flagged(before)) {
      if p in visited {
        assert OnBoard(p);
      }
    }
    if CountsCorrect(before) {
      CountsCorrectKept(before, after);
    }
  }

  /** Placing mines keeps the revealed and flagged cells and clears every
      wrong flag. */
  lemma PlacedEffects(before: Board, after: Board, er: int, ec: int)
    requires WellFormed(before) && WellFormed(after) && OnBoard((er, ec))
    requires MinesPlaced(before, after, er, ec)
    ensures Flagged(after) == Flagged(before) && Revealed(after) == Revealed(before) && WrongFlags(after) == {}
    ensures CellsFit(before, Waiting) ==> CellsFit(after, Playing)
  {
    forall p | OnBoard(p)
      ensures At(after, p).isRevealed == At(before, p).isRevealed
      ensures At(after, p).isFlagged == At(before, p).isFlagged && !At(after, p).isWrongFlag
    {
    }
    if CellsFit(before, Waiting) {
      forall r, c | 0 <= r < BOARD_SIZE && 0 <= c < BOARD_SIZE ensures CellFits(after[r][c], Playing) {
        assert CellFits(before[r][c], Waiting);
      }
    }
  }

  /** Exposing a board whose cells fit a game in play gives one whose cells
      fit a lost game. */
  lemma LostFit(m: Board, b: Board)
    requires WellFormed(m) && WellFormed(b) && CellsFit(m, Playing) && Exposed(m, b)
    ensures CellsFit(b, Lost)
  {
    forall r, c | 0 <= r < BOARD_SIZE && 0 <= c < BOARD_SIZE ensures CellFits(b[r][c], Lost) {
      assert CellFits(m[r][c], Playing);
    }
  }

  /** A flood fill that visits no mine, on a board whose cells fit a game in
      play, keeps the cells fitting a game in play, or a won game when every
      safe cell ends up revealed. */
  lemma FloodFit(m: Board, b: Board, visited: set<Pos>, st: Status)
    requires WellFormed(m) && WellFormed(b) && CellsFit(m, Playing)
    requires RevealedSeen(m, b, visited)
    requires forall p :: p in visited ==> HasCell(m, p) && !At(m, p).isMine
    requires st == Playing || (st == Won && AllSafeRevealed(b))
    ensures CellsFit(b, st)
  {
    forall r, c | 0 <= r < BOARD_SIZE && 0 <= c < BOARD_SIZE ensures CellFits(b[r][c], st) {
      assert CellFits(m[r][c], Playing);
      if (r, c) in visited {
        assert !At(m, (r, c)).isMine;
      }
    }
  }

  /** What revealCell does, given the board `mined` after any placement and
      the flood fill's `visited` cells and their `parent`s: nothing for an
      ignored click; otherwise the first click places the mines and starts
      the game, a click on a cell that was a mine loses it and exposes the
      board, and any other click flood-fills from the cell and wins the game
      once BOARD_SIZE^2 - MINE_COUNT cells are revealed. */
  ghost predicate RevealStep(s: GameState, row: int, col: int, t: GameState,
                             mined: Board, visited: set<Pos>, parent: map<Pos, Pos>)
    requires WellFormed(s.board) && OnBoard((row, col))
  {
    WellFormed(t.board) &&
    if Ignored(s, row, col) then t == s
    else
      t.mineCount == s.mineCount && t.flagCount == s.flagCount && t.timer == s.timer && !t.isFirstClick &&
      WellFormed(mined) &&
      (if s.isFirstClick then MinesPlaced(s.board, mined, row, col) else mined == s.board) &&
      if s.board[row][col].isMine then
        t.gameStatus == Lost && Exposed(mined, t.board)
      else
        FloodFilled(mined, t.board, (row, col), visited, parent) &&
        (ZeroCountsSafe(mined) && !mined[row][col].isMine ==> forall p :: p in visited ==> !At(mined, p).isMine) &&
        t.gameStatus ==
          if |Revealed(t.board)| == BOARD_SIZE * BOARD_SIZE - MINE_COUNT then Won
          else if s.isFirstClick then Playing
          else s.gameStatus
  }

  /** revealCell. `mined` is the board after any placement, `visited` and
      `parent` the flood fill's visited cells and how each was reached. */
  method RevealCell(s: GameState, row: int, col: int)
    returns (t: GameState, ghost mined: Board, ghost visited: set<Pos>, ghost parent: map<Pos, Pos>)
    requires WellFormed(s.board) && OnBoard((row, col))
    ensures RevealStep(s, row, col, t, mined, visited, parent)
    ensures Ignored(s, row, col) ==> t == s
    ensures !Ignored(s, row, col) ==>
      !t.isFirstClick && t.flagCount == s.flagCount && t.mineCount == s.mineCount && t.timer == s.timer
    ensures !Ignored(s, row, col) && s.board[row][col].isMine ==> t.gameStatus == Lost
    ensures !Ignored(s, row, col) && !s.board[row][col].isMine ==>
      (t.gameStatus == Won <==> |Revealed(t.board)| == BOARD_SIZE * BOARD_SIZE - MINE_COUNT) &&
      t.gameStatus != Lost
  {
    var cell := s.board[row][col];
    mined, visited, parent := s.board, {}, map[];
    if cell.isRevealed || cell.isFlagged || s.gameStatus == Won || s.gameStatus == Lost {
      return s, mined, visited, parent;
    }

    t := s;
    if t.isFirstClick {
      ghost var placed;
      var board;
      board, placed := PlaceMines(t.board, row, col);
      t := t.(board := board);
      t := t.(isFirstClick := false);
      t := t.(gameStatus := Playing);
      mined := board;
    }

    if cell.isMine {
      var board := ExposeMines(t.board);
      t := t.(gameStatus := Lost);
      t := t.(board := board);
    } else {
      var board;
      board, visited, parent := RevealEmptyCells(t.board, row, col);
      t := t.(board := board);
      var revealedCells := |Revealed(t.board)|;
      if revealedCells == BOARD_SIZE * BOARD_SIZE - MINE_COUNT {
        t := t.(gameStatus := Won);
      }
    }
  }

  /** From a state of the invariant, revealCell keeps the invariant; the
      first click is never a mine and leaves MINE_COUNT mines on the board;
      only a click on a mine loses; any other click reveals the clicked
      cell, and the game is then won exactly when every safe cell is
      revealed. */
  lemma RevealCellKeepsInv(s: GameState, row: int, col: int, t: GameState,
                           mined: Board, visited: set<Pos>, parent: map<Pos, Pos>)
    requires Inv(s) && OnBoard((row, col))
    requires RevealStep(s, row, col, t, mined, visited, parent)
    ensures Inv(t)
    ensures !Ignored(s, row, col) ==> (t.gameStatus == Lost <==> s.board[row][col].isMine)
    ensures !Ignored(s, row, col) && s.isFirstClick ==>
      !t.board[row][col].isMine && |Mines(t.board)| == MINE_COUNT
    ensures !Ignored(s, row, col) && !s.board[row][col].isMine ==>
      t.board[row][col].isRevealed && (t.gameStatus == Won <==> AllSafeRevealed(t.board))
  {
    if !Ignored(s, row, col) {
      assert CellFits(s.board[row][col], s.gameStatus);
      if s.isFirstClick {
        PlacedEffects(s.board, mined, row, col);
        forall p | OnBoard(p) ensures !At(s.board, p).isMine {
          assert CellFits(At(s.board, p), Waiting);
        }
        assert Mines(s.board) == {};
      }
      assert CellsFit(mined, Playing) && |Mines(mined)| == MINE_COUNT && CountsCorrect(mined);
      assert Flagged(mined) == Flagged(s.board);
      if s.board[row][col].isMine {
        ExposedEffects(mined, t.board);
        LostFit(mined, t.board);
      } else {
        SafeReveal(mined, t.board, (row, col), visited, parent);
        FitNoRevealedMine(t.board, Playing) by {
          FloodFit(mined, t.board, visited, Playing);
        }
        WinCountMeansAllSafeRevealed(t.board);
        FloodFit(mined, t.board, visited, t.gameStatus);
      }
    }
  }

  /** A flood fill from a safe unflagged cell of a board with correct counts
      visits no mine, reveals the start, and keeps mines, flags and counts. */
  lemma SafeReveal(m: Board, b: Board, start: Pos, visited: set<Pos>, parent: map<Pos, Pos>)
    requires WellFormed(m) && WellFormed(b) && OnBoard(start) && CountsCorrect(m)
    requires !At(m, start).isMine && !At(m, start).isFlagged
    requires FloodFilled(m, b, start, visited, parent)
    requires ZeroCountsSafe(m) ==> forall p :: p in visited ==> !At(m, p).isMine
    ensures forall p :: p in visited ==> HasCell(m, p) && !At(m, p).isMine
    ensures At(b, start).isRevealed && !At(b, start).isMine
    ensures Mines(b) == Mines(m) && Flagged(b) == Flagged(m) && CountsCorrect(b)
  {
    CountsCorrectZeroSafe(m);
    FloodEffects(m, b, visited);
  }

  // ------------------------------------------------------------ toggleFlag

  /** The cells toggleFlag leaves alone: revealed ones, and every cell
      once the game is over. */
  predicate FlagLocked(s: GameState, row: int, col: int)
    requires WellFormed(s.board) && OnBoard((row, col))
  {
    s.board[row][col].isRevealed || s.gameStatus == Won || s.gameStatus == Lost
  }

  /** toggleFlag. A locked cell is left alone; otherwise the cell's flag
      flips, flagCount follows it, and nothing else changes. */
  function ToggleFlag(s: GameState, row: int, col: int): (t: GameState)
    requires WellFormed(s.board) && OnBoard((row, col))
    ensures WellFormed(t.board)
    ensures FlagLocked(s, row, col) ==> t == s
    ensures !FlagLocked(s, row, col) ==>
      At(t.board, (row, col)) == At(s.board, (row, col)).(isFlagged := !s.board[row][col].isFlagged) &&
      t.flagCount == s.flagCount + (if s.board[row][col].isFlagged then -1 else 1) &&
      t.gameStatus == s.gameStatus && t.mineCount == s.mineCount && t.timer == s.timer &&
      t.isFirstClick == s.isFirstClick
    ensures forall q :: OnBoard(q) && q != (row, col) ==> At(t.board, q) == At(s.board, q)
  {
    var cell := s.board[row][col];
    if cell.isRevealed || s.gameStatus == Won || s.gameStatus == Lost then s
    else if cell.isFlagged then
      s.(board := SetCell(s.board, (row, col), cell.(isFlagged := false)), flagCount := s.flagCount - 1)
    else
      s.(board := SetCell(s.board, (row, col), cell.(isFlagged := true)), flagCount := s.flagCount + 1)
  }

  /** Flipping the flag of p alone adds p to the flagged cells or removes
      it, and keeps the mines, the revealed cells, the wrong flags, the
      counts and whether every safe cell is revealed. */
  lemma FlagFlipped(b: Board, nb: Board, p: Pos)
    requires WellFormed(b) && WellFormed(nb) && OnBoard(p)
    requires At(nb, p) == At(b, p).(isFlagged := !At(b, p).isFlagged)
    requires forall q :: OnBoard(q) && q != p ==> At(nb, q) == At(b, q)
    ensures Flagged(nb) == if At(b, p).isFlagged then Flagged(b) - {p} else Flagged(b) + {p}
    ensures Mines(nb) == Mines(b) && Revealed(nb) == Revealed(b) && WrongFlags(nb) == WrongFlags(b)
    ensures SameMines(b, nb) && AllSafeRevealed(nb) == AllSafeRevealed(b)
    ensures CountsCorrect(b) ==> CountsCorrect(nb)
  {
    forall r, c | 0 <= r < BOARD_SIZE && 0 <= c < BOARD_SIZE
      ensures nb[r][c] == b[r][c].(isFlagged := nb[r][c].isFlagged)
    {
      if (r, c) != p {
        assert At(nb, (r, c)) == At(b, (r, c));
      }
    }
    var f := if At(b, p).isFlagged then Flagged(b) - {p} else Flagged(b) + {p};
    forall q ensures q in Flagged(nb) <==> q in f {
      if OnBoard(q) && q != p {
        assert At(nb, q) == At(b, q);
      }
    }
    if CountsCorrect(b) {
      CountsCorrectKept(b, nb);
    }
  }

  /** Flipping the flag of an unrevealed cell keeps every cell fitting a
      game that waits or is in play. */
  lemma FlagFit(b: Board, nb: Board, p: Pos, st: Status)
    requires WellFormed(b) && WellFormed(nb) && OnBoard(p)
    requires At(nb, p) == At(b, p).(isFlagged := !At(b, p).isFlagged)
    requires forall q :: OnBoard(q) && q != p ==> At(nb, q) == At(b, q)
    requires CellsFit(b, st) && (st == Waiting || st == Playing) && !At(b, p).isRevealed
    ensures CellsFit(nb, st)
  {
    forall r, c | 0 <= r < BOARD_SIZE && 0 <= c < BOARD_SIZE ensures CellFits(nb[r][c], st) {
      assert CellFits(b[r][c], st);
      if (r, c) != p {
        assert At(nb, (r, c)) == At(b, (r, c));
      }
    }
  }

  /** Toggling adds the cell to the flagged set or removes it, and keeps
      the invariant. */
  lemma ToggleFlagKeepsInv(s: GameState, row: int, col: int)
    requires Inv(s) && OnBoard((row, col))
    ensures Inv(ToggleFlag(s, row, col))
    ensures var t := ToggleFlag(s, row, col);
      Flagged(t.board) ==
        if FlagLocked(s, row, col) then Flagged(s.board)
        else if s.board[row][col].isFlagged then Flagged(s.board) - {(row, col)}
        else Flagged(s.board) + {(row, col)}
  {
    var t := ToggleFlag(s, row, col);
    var p := (row, col);
    if !FlagLocked(s, row, col) {
      FlagFlipped(s.board, t.board, p);
      FlagFit(s.board, t.board, p, s.gameStatus);
      var f := Flagged(s.board);
      if At(s.board, p).isFlagged {
        assert p in f && Flagged(t.board) == f - {p};
        assert |f - {p}| == |f| - 1;
      } else {
        assert p !in f && Flagged(t.board) == f + {p};
        assert |f + {p}| == |f| + 1;
      }
      assert t.flagCount == |Flagged(t.board)|;
      assert Mines(t.board) == Mines(s.board);
    }
  }

  /** Toggling the same cell twice gives back the state toggled. */
  lemma ToggleFlagTwice(s: GameState, row: int, col: int)
    requires WellFormed(s.board) && OnBoard((row, col))
    ensures ToggleFlag(ToggleFlag(s, row, col), row, col) == s
  {
    var t := ToggleFlag(s, row, col);
    var u := ToggleFlag(t, row, col);
    forall r | 0 <= r < BOARD_SIZE ensures u.board[r] == s.board[r] {
      forall c | 0 <= c < BOARD_SIZE ensures u.board[r][c] == s.board[r][c] {
      }
    }
  }
}
