// The board operations of the game slice: building the grid, placing mines
// on the first reveal, and the breadth-first flood fill. The store's draft
// mutation is modelled with values: each operation takes the old board and
// returns the new one.

module GameSlice {
  import opened Utils
  import opened Constants
  import opened Types
  import opened Minefield

  /** A cell as a new game starts with it. */
  function BlankCell(r: int, c: int): Cell
  {
    Cell(row := r, col := c, isMine := false, isRevealed := false, neighborMines := 0,
         isFlagged := false, isWrongFlag := false)
  }

  /** A board with no mine has a zero count everywhere. */
  lemma {:induction false} MinesAmongNone(b: Board, ns: seq<Pos>)
    requires forall k :: 0 <= k < |ns| ==> !MineAt(b, ns[k])
    ensures MinesAmong(b, ns) == 0
  {
    if ns != [] {
      MinesAmongNone(b, ns[1..]);
    }
  }

  // ------------------------------------------------------------ createInitialBoard

  /** createInitialBoard: BOARD_SIZE rows of BOARD_SIZE blank cells, built
      row by row. The board has no mine, no flag and no revealed cell, and
      its zero counts are correct. */
  method CreateInitialBoard() returns (board: Board)
    ensures WellFormed(board)
    ensures forall r, c :: 0 <= r < BOARD_SIZE && 0 <= c < BOARD_SIZE ==> board[r][c] == BlankCell(r, c)
    ensures Mines(board) == {} && Flagged(board) == {} && Revealed(board) == {} && WrongFlags(board) == {}
    ensures CountsCorrect(board)
  {
    board := [];
    for row := 0 to BOARD_SIZE
      invariant |board| == row
      invariant forall r :: 0 <= r < row ==> |board[r]| == BOARD_SIZE
      invariant forall r, c :: 0 <= r < row && 0 <= c < BOARD_SIZE ==> board[r][c] == BlankCell(r, c)
    {
      var line: seq<Cell> := [];
      for col := 0 to BOARD_SIZE
        invariant |line| == col
        invariant forall c :: 0 <= c < col ==> line[c] == BlankCell(row, c)
      {
        line := line + [Cell(row := row, col := col, isMine := false, isRevealed := false,
                             neighborMines := 0, isFlagged := false, isWrongFlag := false)];
      }
      board := board + [line];
    }
    forall r, c | 0 <= r < BOARD_SIZE && 0 <= c < BOARD_SIZE
      ensures CountOK(board, r, c)
    {
      MinesAmongNone(board, Neighbors(r, c, BOARD_SIZE));
    }
  }

  // ------------------------------------------------------------ placeMines

  /** What placeMines guarantees about the board `after` it built from
      `before`, excluding (er, ec): only mines and counts change, every
      wrong-flag marker is cleared, the excluded cell gets no new mine, and
      every non-mine cell's count is correct. */
  predicate MinesPlaced(before: Board, after: Board, er: int, ec: int)
    requires WellFormed(before) && WellFormed(after) && OnBoard((er, ec))
  {
    (forall r, c :: 0 <= r < BOARD_SIZE && 0 <= c < BOARD_SIZE ==>
       after[r][c].isRevealed == before[r][c].isRevealed &&
       after[r][c].isFlagged == before[r][c].isFlagged &&
       !after[r][c].isWrongFlag &&
       (before[r][c].isMine ==> after[r][c].isMine) &&
       (after[r][c].isMine ==> after[r][c].neighborMines == before[r][c].neighborMines)) &&
    after[er][ec].isMine == before[er][ec].isMine &&
    Mines(before) <= Mines(after) &&
    (Mines(before) == {} ==> |Mines(after)| == MINE_COUNT) &&
    CountsCorrect(after)
  }

  /** The copy placeMines starts from: every wrong-flag marker cleared. */
  function ClearWrongFlags(board: Board): (cleared: Board)
    requires WellFormed(board)
    ensures WellFormed(cleared)
    ensures forall r, c :: 0 <= r < BOARD_SIZE && 0 <= c < BOARD_SIZE ==>
      cleared[r][c] == board[r][c].(isWrongFlag := false)
    ensures WrongFlags(cleared) == {}
    ensures Mines(cleared) == Mines(board) && Flagged(cleared) == Flagged(board) && Revealed(cleared) == Revealed(board)
    ensures SameMines(board, cleared)
    ensures forall r, c :: 0 <= r < BOARD_SIZE && 0 <= c < BOARD_SIZE ==>
      cleared[r][c].neighborMines == board[r][c].neighborMines
  {
    seq(|board|, r requires 0 <= r < |board| =>
      seq(|board[r]|, c requires 0 <= c < |board[r]| => board[r][c].(isWrongFlag := false)))
  }

  /** nb is board with the cells at the linear indices in `done` made mines. */
  predicate MarkedAt(board: Board, nb: Board, done: set<int>)
    requires WellFormed(board) && WellFormed(nb)
  {
    forall r, c :: 0 <= r < BOARD_SIZE && 0 <= c < BOARD_SIZE ==> MarkedCell(board, nb, done, r, c)
  }

  predicate MarkedCell(board: Board, nb: Board, done: set<int>, r: int, c: int)
    requires WellFormed(board) && WellFormed(nb) && 0 <= r < BOARD_SIZE && 0 <= c < BOARD_SIZE
  {
    nb[r][c] == board[r][c].(isMine := board[r][c].isMine || r * BOARD_SIZE + c in done)
  }

  /** Making the cell at one more index a mine extends the marked set. */
  lemma MarkStep(board: Board, nb: Board, done: set<int>, index: int, nb': Board)
    requires WellFormed(board) && WellFormed(nb) && MarkedAt(board, nb, done)
    requires 0 <= index < BOARD_SIZE * BOARD_SIZE
    requires OnBoard(IndexToPos(index))
    requires nb' == SetCell(nb, IndexToPos(index), At(nb, IndexToPos(index)).(isMine := true))
    ensures MarkedAt(board, nb', done + {index})
  {
    var p := IndexToPos(index);
    PosOfIndex(index);
    forall r, c | 0 <= r < BOARD_SIZE && 0 <= c < BOARD_SIZE
      ensures MarkedCell(board, nb', done + {index}, r, c)
    {
      assert MarkedCell(board, nb, done, r, c);
      if r == p.0 && c == p.1 {
        assert r * BOARD_SIZE + c == index;
      } else {
        IndexOfPos((r, c));
        assert IndexToPos(r * BOARD_SIZE + c) == (r, c);
      }
    }
  }

  /** The mines.forEach step of placeMines: the cell at each linear index
      in `mines` becomes a mine; nothing else changes. */
  method MarkMines(board: Board, mines: set<int>) returns (newBoard: Board)
    requires WellFormed(board)
    requires forall i :: i in mines ==> 0 <= i < BOARD_SIZE * BOARD_SIZE
    ensures WellFormed(newBoard)
    ensures forall r, c :: 0 <= r < BOARD_SIZE && 0 <= c < BOARD_SIZE ==>
      newBoard[r][c] == board[r][c].(isMine := board[r][c].isMine || r * BOARD_SIZE + c in mines)
  {
    newBoard := board;
    var rest := mines;
    ghost var done: set<int> := {};
    while rest != {}
      invariant rest + done == mines && rest * done == {}
      invariant WellFormed(newBoard) && MarkedAt(board, newBoard, done)
      decreases rest
    {
      SomeIndex(rest);
      var index :| index in rest;
      PosOfIndex(index);
      var cell := IndexToPos(index);
      ghost var nb0 := newBoard;
      newBoard := SetCell(newBoard, cell, At(newBoard, cell).(isMine := true));
      MarkStep(board, nb0, done, index, newBoard);
      rest := rest - {index};
      done := done + {index};
    }
    forall r, c | 0 <= r < BOARD_SIZE && 0 <= c < BOARD_SIZE
      ensures newBoard[r][c] == board[r][c].(isMine := board[r][c].isMine || r * BOARD_SIZE + c in mines)
    {
      assert MarkedCell(board, newBoard, done, r, c);
    }
  }

  /** Marking the cells of `mines` adds exactly the cells those indices name. */
  lemma MarkedMines(board: Board, mines: set<int>, newBoard: Board)
    requires WellFormed(board) && WellFormed(newBoard)
    requires forall i :: i in mines ==> 0 <= i < BOARD_SIZE * BOARD_SIZE
    requires forall r, c :: 0 <= r < BOARD_SIZE && 0 <= c < BOARD_SIZE ==>
      newBoard[r][c].isMine == (board[r][c].isMine || r * BOARD_SIZE + c in mines)
    ensures Mines(newBoard) == Mines(board) + PosOf(mines)
  {
    forall p | p in Mines(newBoard) ensures p in Mines(board) + PosOf(mines) {
      IndexOfPos(p);
      if !At(board, p).isMine {
        assert p.0 * BOARD_SIZE + p.1 in mines;
      }
    }
    forall p | p in PosOf(mines) ensures p in Mines(newBoard) {
      var i :| i in mines && IndexToPos(i) == p;
      PosOfIndex(i);
    }
  }

  /** The cell at (r, c) as the counting loop of placeMines leaves it. */
  function CountedCell(board: Board, r: int, c: int): Cell
    requires WellFormed(board) && 0 <= r < BOARD_SIZE && 0 <= c < BOARD_SIZE
  {
    board[r][c].(neighborMines :=
      if board[r][c].isMine then board[r][c].neighborMines
      else MinesAmong(board, Neighbors(r, c, BOARD_SIZE)))
  }

  /** The counting loop has handled every cell before (row, col) in row-major
      order and no other. */
  predicate CountedUpTo(board: Board, nb: Board, row: int, col: int)
    requires WellFormed(board) && WellFormed(nb)
  {
    forall r, c :: 0 <= r < BOARD_SIZE && 0 <= c < BOARD_SIZE ==> CountedBefore(board, nb, row, col, r, c)
  }

  predicate CountedBefore(board: Board, nb: Board, row: int, col: int, r: int, c: int)
    requires WellFormed(board) && WellFormed(nb) && 0 <= r < BOARD_SIZE && 0 <= c < BOARD_SIZE
  {
    if r < row || (r == row && c < col) then nb[r][c] == CountedCell(board, r, c) else nb[r][c] == board[r][c]
  }

  /** The counting loop never changes a mine marker. */
  lemma CountedSameMines(board: Board, nb: Board, row: int, col: int)
    requires WellFormed(board) && WellFormed(nb) && CountedUpTo(board, nb, row, col)
    ensures SameMines(board, nb)
  {
    forall r, c | 0 <= r < BOARD_SIZE && 0 <= c < BOARD_SIZE
      ensures board[r][c].isMine == nb[r][c].isMine
    {
      assert CountedBefore(board, nb, row, col, r, c);
    }
  }

  /** One pass of the inner loop body handles (row, col). */
  lemma CountStep(board: Board, nb: Board, row: int, col: int, nb': Board)
    requires WellFormed(board) && WellFormed(nb) && CountedUpTo(board, nb, row, col)
    requires 0 <= row < BOARD_SIZE && 0 <= col < BOARD_SIZE
    requires nb' == if nb[row][col].isMine then nb else
      SetCell(nb, (row, col), nb[row][col].(neighborMines := MinesAmong(nb, Neighbors(row, col, BOARD_SIZE))))
    ensures WellFormed(nb') && CountedUpTo(board, nb', row, col + 1)
  {
    CountedSameMines(board, nb, row, col);
    MinesAmongSameMines(nb, board, Neighbors(row, col, BOARD_SIZE));
    var next := col + 1;
    forall r, c | 0 <= r < BOARD_SIZE && 0 <= c < BOARD_SIZE
      ensures CountedBefore(board, nb', row, next, r, c)
    {
      assert CountedBefore(board, nb, row, col, r, c);
    }
  }

  /** Finishing a row starts the next one. */
  lemma CountRow(board: Board, nb: Board, row: int)
    requires WellFormed(board) && WellFormed(nb) && CountedUpTo(board, nb, row, BOARD_SIZE)
    ensures CountedUpTo(board, nb, row + 1, 0)
  {
    var next := row + 1;
    forall r, c | 0 <= r < BOARD_SIZE && 0 <= c < BOARD_SIZE
      ensures CountedBefore(board, nb, next, 0, r, c)
    {
      assert CountedBefore(board, nb, row, BOARD_SIZE, r, c);
    }
  }

  /** The counting loop of placeMines: every non-mine cell gets the number
      of mines around it; mine cells keep their count. */
  method CountNeighborMines(board: Board) returns (newBoard: Board)
    requires WellFormed(board)
    ensures WellFormed(newBoard) && SameMines(board, newBoard)
    ensures forall r, c :: 0 <= r < BOARD_SIZE && 0 <= c < BOARD_SIZE ==>
      newBoard[r][c] == board[r][c].(neighborMines :=
        if board[r][c].isMine then board[r][c].neighborMines
        else MinesAmong(board, Neighbors(r, c, BOARD_SIZE)))
    ensures CountsCorrect(newBoard)
  {
    newBoard := board;
    assert CountedUpTo(board, newBoard, 0, 0);
    for row := 0 to BOARD_SIZE
      invariant WellFormed(newBoard) && CountedUpTo(board, newBoard, row, 0)
    {
      for col := 0 to BOARD_SIZE
        invariant WellFormed(newBoard) && CountedUpTo(board, newBoard, row, col)
      {
        ghost var nb0 := newBoard;
        if !newBoard[row][col].isMine {
          var neighbors := GetNeighbors(row, col, BOARD_SIZE);
          var mineCount := MinesAmong(newBoard, neighbors);
          newBoard := SetCell(newBoard, (row, col), newBoard[row][col].(neighborMines := mineCount));
        }
        CountStep(board, nb0, row, col, newBoard);
      }
      CountRow(board, newBoard, row);
    }
    CountedSameMines(board, newBoard, BOARD_SIZE, 0);
    forall r, c | 0 <= r < BOARD_SIZE && 0 <= c < BOARD_SIZE
      ensures newBoard[r][c] == CountedCell(board, r, c) && CountOK(newBoard, r, c)
    {
      assert CountedBefore(board, newBoard, BOARD_SIZE, 0, r, c);
      MinesAmongSameMines(newBoard, board, Neighbors(r, c, BOARD_SIZE));
    }
  }

  /** The cells named by the drawn indices: MINE_COUNT cells of the board,
      the excluded one not among them. */
  lemma PlacedCells(mines: set<int>, er: int, ec: int)
    requires OnBoard((er, ec))
    requires |mines| == MINE_COUNT
    requires forall i :: i in mines ==> 0 <= i < BOARD_SIZE * BOARD_SIZE && i != er * BOARD_SIZE + ec
    ensures |PosOf(mines)| == MINE_COUNT && PosOf(mines) <= AllCells() && (er, ec) !in PosOf(mines)
  {
    PosOfCard(mines);
    IndexOfPos((er, ec));
    forall p | p in PosOf(mines) ensures p in AllCells() {
      var i :| i in mines && IndexToPos(i) == p;
      PosOfIndex(i);
    }
    forall i | i in mines ensures IndexToPos(i) != (er, ec) {
      if IndexToPos(i) == (er, ec) {
        IndexToPosInjective(i, er * BOARD_SIZE + ec);
      }
    }
  }

  /** Clearing the wrong flags, marking the drawn cells and counting gives a
      board with the placeMines guarantees. */
  lemma PlacedBoard(board: Board, mines: set<int>, marked: Board, newBoard: Board, er: int, ec: int)
    requires WellFormed(board) && WellFormed(marked) && WellFormed(newBoard) && OnBoard((er, ec))
    requires |mines| == MINE_COUNT
    requires forall i :: i in mines ==> 0 <= i < BOARD_SIZE * BOARD_SIZE && i != er * BOARD_SIZE + ec
    requires forall r, c :: 0 <= r < BOARD_SIZE && 0 <= c < BOARD_SIZE ==>
      marked[r][c] == board[r][c].(isWrongFlag := false).(isMine := board[r][c].isMine || r * BOARD_SIZE + c in mines)
    requires SameMines(marked, newBoard) && CountsCorrect(newBoard)
    requires forall r, c :: 0 <= r < BOARD_SIZE && 0 <= c < BOARD_SIZE ==>
      newBoard[r][c] == marked[r][c].(neighborMines :=
        if marked[r][c].isMine then marked[r][c].neighborMines
        else MinesAmong(marked, Neighbors(r, c, BOARD_SIZE)))
    ensures MinesPlaced(board, newBoard, er, ec)
    ensures Mines(newBoard) == Mines(board) + PosOf(mines)
  {
    MarkedMines(board, mines, marked);
    SameMinesSet(marked, newBoard);
    PlacedCells(mines, er, ec);
    IndexOfPos((er, ec));
    assert newBoard[er][ec].isMine == board[er][ec].isMine;
    if Mines(board) == {} {
      assert Mines(newBoard) == PosOf(mines);
    }
  }

  /** placeMines: clear the wrong-flag markers, draw MINE_COUNT mine indices
      avoiding the clicked cell, mark them, then count the mines around every
      non-mine cell. `placed` is the set of cells the drawn indices name. */
  method PlaceMines(board: Board, excludeRow: int, excludeCol: int) returns (newBoard: Board, ghost placed: set<Pos>)
    requires WellFormed(board)
    requires OnBoard((excludeRow, excludeCol))
    ensures WellFormed(newBoard)
    ensures MinesPlaced(board, newBoard, excludeRow, excludeCol)
    ensures |placed| == MINE_COUNT && placed <= AllCells() && (excludeRow, excludeCol) !in placed
    ensures Mines(newBoard) == Mines(board) + placed
  {
    var cleared := ClearWrongFlags(board);
    var excludeIndex := excludeRow * BOARD_SIZE + excludeCol;
    AdmissibleCard(BOARD_SIZE * BOARD_SIZE, excludeIndex);
    var mines := GenerateMines(BOARD_SIZE * BOARD_SIZE, MINE_COUNT, excludeIndex);
    var marked := MarkMines(cleared, mines);
    newBoard := CountNeighborMines(marked);
    placed := PosOf(mines);
    PlacedCells(mines, excludeRow, excludeCol);
    PlacedBoard(board, mines, marked, newBoard, excludeRow, excludeCol);
  }

  // ------------------------------------------------------------ revealEmptyCells

  /** The positions of `ns` not revealed in b, in order: the neighbours
      revealEmptyCells puts on its queue. */
  function Unrevealed(b: Board, ns: seq<Pos>): (q: seq<Pos>)
    ensures |q| <= |ns|
    ensures forall p :: p in q <==> p in ns && !(HasCell(b, p) && At(b, p).isRevealed)
  {
    if ns == [] then []
    else
      var p := ns[|ns| - 1];
      var rest := Unrevealed(b, ns[..|ns| - 1]);
      assert ns == ns[..|ns| - 1] + [p];
      if HasCell(b, p) && At(b, p).isRevealed then rest else rest + [p]
  }

  /** The neighbors.forEach step of revealEmptyCells: append every neighbour
      that is not revealed yet to the queue. */
  method EnqueueUnrevealed(board: Board, neighbors: seq<Pos>, queue: seq<Pos>) returns (q: seq<Pos>)
    requires WellFormed(board)
    requires forall p :: p in neighbors ==> OnBoard(p)
    ensures q == queue + Unrevealed(board, neighbors)
  {
    q := queue;
    for k := 0 to |neighbors|
      invariant q == queue + Unrevealed(board, neighbors[..k])
    {
      var p := neighbors[k];
      assert p in neighbors;
      assert neighbors[..k + 1][..k] == neighbors[..k];
      if !At(board, p).isRevealed {
        q := q + [p];
      }
    }
    assert neighbors[..|neighbors|] == neighbors;
  }

  /** Each cell in `parent` was unrevealed in `board` and lies next to its
      parent, a cell of `seen` whose count is zero. */
  ghost predicate Parented(board: Board, seen: set<Pos>, parent: map<Pos, Pos>)
    requires WellFormed(board)
  {
    forall u :: u in parent ==>
      parent[u] in seen && OnBoard(parent[u]) && IsNeighbor(parent[u].0, parent[u].1, BOARD_SIZE, u) &&
      At(board, parent[u]).neighborMines == 0 && !At(board, u).isRevealed
  }

  /** What revealEmptyCells leaves behind when it starts at `start`:
      `after` is `before` with the unflagged cells of `visited` revealed and
      nothing else changed; every neighbour of a visited zero-count cell is
      visited or was already revealed; and every visited cell but the start
      was unrevealed and has a parent, a visited zero-count neighbour. */
  ghost predicate FloodFilled(before: Board, after: Board, start: Pos, visited: set<Pos>, parent: map<Pos, Pos>)
    requires WellFormed(before) && WellFormed(after)
  {
    start in visited && AllOnBoard(visited) &&
    RevealedSeen(before, after, visited) &&
    (forall v, u :: v in visited && At(before, v).neighborMines == 0 && IsNeighbor(v.0, v.1, BOARD_SIZE, u) ==>
       u in visited || At(before, u).isRevealed) &&
    visited - {start} <= parent.Keys &&
    Parented(before, visited, parent)
  }

  /** Every neighbour of a zero-count cell of `seen` is seen, queued or
      already revealed in `board`. */
  ghost predicate Closed(board: Board, seen: set<Pos>, queue: seq<Pos>)
    requires WellFormed(board) && AllOnBoard(seen)
  {
    forall v, u :: v in seen && At(board, v).neighborMines == 0 && IsNeighbor(v.0, v.1, BOARD_SIZE, u) ==>
      u in seen || u in queue || At(board, u).isRevealed
  }

  /** Every seen or queued cell but the start has a parent. */
  ghost predicate Reached(board: Board, start: Pos, seen: set<Pos>, queue: seq<Pos>, parent: map<Pos, Pos>)
    requires WellFormed(board)
  {
    Parented(board, seen, parent) &&
    seen - {start} <= parent.Keys &&
    (forall u :: u in queue && u != start ==> u in parent)
  }

  /** No seen or queued cell holds a mine. */
  ghost predicate MineFree(board: Board, seen: set<Pos>, queue: seq<Pos>)
    requires WellFormed(board) && AllOnBoard(seen) && ListedOnBoard(queue)
  {
    (forall u :: u in seen ==> !At(board, u).isMine) &&
    (forall u :: u in queue ==> !At(board, u).isMine)
  }

  /** `parent` with every cell of `pushed` given the parent x. */
  ghost function Adopt(parent: map<Pos, Pos>, pushed: seq<Pos>, x: Pos): (m: map<Pos, Pos>)
    ensures forall u :: u in m <==> u in parent || u in pushed
    ensures forall u :: u in m ==> m[u] == if u in pushed then x else parent[u]
  {
    parent + map u | u in pushed :: x
  }

  /** Visiting the head x of the queue, after which `pushed` is appended,
      keeps the queue closed under the zero-count neighbourhood. */
  lemma ClosedStep(board: Board, seen: set<Pos>, queue: seq<Pos>, pushed: seq<Pos>)
    requires WellFormed(board) && AllOnBoard(seen) && queue != [] && OnBoard(queue[0])
    requires Closed(board, seen, queue)
    requires queue[0] !in seen && board[queue[0].0][queue[0].1].neighborMines == 0 ==>
      forall u :: IsNeighbor(queue[0].0, queue[0].1, BOARD_SIZE, u) ==>
        u in pushed || u in seen || u == queue[0] || At(board, u).isRevealed
    ensures Closed(board, seen + {queue[0]}, queue[1..] + pushed)
  {
    var x := queue[0];
    forall v, u | v in seen + {x} && At(board, v).neighborMines == 0 && IsNeighbor(v.0, v.1, BOARD_SIZE, u)
      ensures u in seen + {x} || u in queue[1..] + pushed || At(board, u).isRevealed
    {
      if v in seen {
        if u in queue && u != x {
          assert u in queue[1..];
        }
      }
    }
  }

  /** The same step, with every pushed cell adopted by x, keeps every seen
      and queued cell but the start parented. */
  lemma ReachedStep(board: Board, start: Pos, seen: set<Pos>, queue: seq<Pos>, parent: map<Pos, Pos>, pushed: seq<Pos>)
    requires WellFormed(board) && queue != [] && OnBoard(queue[0])
    requires Reached(board, start, seen, queue, parent)
    requires forall u :: u in pushed ==>
      IsNeighbor(queue[0].0, queue[0].1, BOARD_SIZE, u) && !At(board, u).isRevealed &&
      board[queue[0].0][queue[0].1].neighborMines == 0
    ensures Reached(board, start, seen + {queue[0]}, queue[1..] + pushed, Adopt(parent, pushed, queue[0]))
  {
    var x := queue[0];
    var more := seen + {x};
    var m := Adopt(parent, pushed, x);
    forall u | u in m ensures m[u] in more {
    }
    forall u | u in more - {start} ensures u in m {
      if u == x {
        assert u in queue;
      }
    }
    forall u | u in queue[1..] && u != start ensures u in m {
      assert u in queue;
    }
  }

  /** The same step keeps the seen and queued cells free of mines. */
  lemma MineFreeStep(board: Board, seen: set<Pos>, queue: seq<Pos>, pushed: seq<Pos>)
    requires WellFormed(board) && AllOnBoard(seen) && queue != []
    requires ListedOnBoard(queue)
    requires MineFree(board, seen, queue)
    requires forall u :: u in pushed ==> OnBoard(u) && !At(board, u).isMine
    ensures MineFree(board, seen + {queue[0]}, queue[1..] + pushed)
  {
    assert forall u :: u in queue[1..] ==> u in queue;
  }

  /** `after` is `before` with the unflagged cells of `seen` revealed. */
  ghost predicate RevealedSeen(before: Board, after: Board, seen: set<Pos>)
    requires WellFormed(before) && WellFormed(after)
  {
    forall r, c :: 0 <= r < BOARD_SIZE && 0 <= c < BOARD_SIZE ==>
      after[r][c] == before[r][c].(isRevealed := before[r][c].isRevealed || ((r, c) in seen && !before[r][c].isFlagged))
  }

  /** The board after the visited cell p is revealed, unless it is flagged. */
  function Visit(b: Board, p: Pos): (nb: Board)
    requires WellFormed(b) && OnBoard(p)
    ensures WellFormed(nb)
  {
    if At(b, p).isFlagged then b else SetCell(b, p, At(b, p).(isRevealed := true))
  }

  /** What the visit of p appends to the queue: its unrevealed neighbours
      when its count is zero, nothing otherwise. */
  function QueuedBy(b: Board, p: Pos): seq<Pos>
    requires WellFormed(b) && OnBoard(p)
  {
    if At(b, p).neighborMines == 0 then Unrevealed(b, Neighbors(p.0, p.1, BOARD_SIZE)) else []
  }

  /** Visiting p adds p to the seen set and reveals it unless it is flagged. */
  lemma RevealedSeenStep(board: Board, nb: Board, seen: set<Pos>, p: Pos)
    requires WellFormed(board) && WellFormed(nb) && OnBoard(p)
    requires RevealedSeen(board, nb, seen)
    ensures RevealedSeen(board, Visit(nb, p), seen + {p})
  {
    var after := Visit(nb, p);
    forall r, c | 0 <= r < BOARD_SIZE && 0 <= c < BOARD_SIZE
      ensures after[r][c] == board[r][c].(isRevealed := board[r][c].isRevealed || ((r, c) in seen + {p} && !board[r][c].isFlagged))
    {
      if (r, c) == p {
        assert nb[r][c] == board[r][c].(isRevealed := nb[r][c].isRevealed);
      }
    }
  }

  /** The cells a visit of a zero-count cell x pushes are exactly its
      neighbours not yet seen or revealed, and, on a board whose zero counts
      are safe, none of them is a mine when x is not. */
  lemma PushedNeighbors(board: Board, nb: Board, seen: set<Pos>, x: Pos)
    requires WellFormed(board) && WellFormed(nb) && OnBoard(x)
    requires RevealedSeen(board, nb, seen + {x})
    requires At(nb, x).neighborMines == 0
    ensures At(board, x).neighborMines == 0
    ensures forall u :: IsNeighbor(x.0, x.1, BOARD_SIZE, u) ==>
      u in QueuedBy(nb, x) || u in seen || u == x || At(board, u).isRevealed
    ensures forall u :: u in QueuedBy(nb, x) ==>
      IsNeighbor(x.0, x.1, BOARD_SIZE, u) && !At(board, u).isRevealed && OnBoard(u)
    ensures ZeroCountsSafe(board) && !At(board, x).isMine ==>
      forall u :: u in QueuedBy(nb, x) ==> !At(board, u).isMine
  {
    var neighbors := Neighbors(x.0, x.1, BOARD_SIZE);
    var pushed := Unrevealed(nb, neighbors);
    assert pushed == QueuedBy(nb, x);
    assert nb[x.0][x.1].neighborMines == board[x.0][x.1].neighborMines;
    forall u | IsNeighbor(x.0, x.1, BOARD_SIZE, u)
      ensures u in pushed || u in seen || u == x || At(board, u).isRevealed
    {
      NeighborsMembership(x.0, x.1, BOARD_SIZE, u);
      assert nb[u.0][u.1].isRevealed == (board[u.0][u.1].isRevealed || (u in seen + {x} && !board[u.0][u.1].isFlagged));
    }
    forall u | u in pushed
      ensures IsNeighbor(x.0, x.1, BOARD_SIZE, u) && !At(board, u).isRevealed && OnBoard(u)
    {
      NeighborsMembership(x.0, x.1, BOARD_SIZE, u);
      assert nb[u.0][u.1].isRevealed == (board[u.0][u.1].isRevealed || (u in seen + {x} && !board[u.0][u.1].isFlagged));
    }
  }

  /** The loop invariant of revealEmptyCells: `nb` is `board` with the
      unflagged seen cells revealed, the start is seen or is the whole queue,
      the seen and queued cells are closed under the zero-count
      neighbourhood and reached from the start, and, when `safe`, none of them
      is a mine. */
  ghost predicate FloodInv(board: Board, nb: Board, start: Pos, seen: set<Pos>, queue: seq<Pos>,
                           parent: map<Pos, Pos>, safe: bool)
    requires WellFormed(board)
  {
    WellFormed(nb) &&
    AllOnBoard(seen) &&
    ListedOnBoard(queue) &&
    RevealedSeen(board, nb, seen) &&
    (if seen == {} then queue == [start] else start in seen) &&
    Closed(board, seen, queue) &&
    Reached(board, start, seen, queue, parent) &&
    (safe ==> MineFree(board, seen, queue))
  }

  /** Dropping a head that was already visited keeps the invariant. */
  lemma SkipVisited(board: Board, nb: Board, start: Pos, seen: set<Pos>, queue: seq<Pos>,
                    parent: map<Pos, Pos>, safe: bool)
    requires WellFormed(board) && queue != [] && queue[0] in seen
    requires FloodInv(board, nb, start, seen, queue, parent, safe)
    ensures FloodInv(board, nb, start, seen, queue[1..], Adopt(parent, [], queue[0]), safe)
  {
    var cell := queue[0];
    assert cell in queue;
    assert seen + {cell} == seen && queue[1..] + [] == queue[1..];
    ClosedStep(board, seen, queue, []);
    ReachedStep(board, start, seen, queue, parent, []);
    if safe {
      MineFreeStep(board, seen, queue, []);
    }
    forall u | u in queue[1..] ensures OnBoard(u) {
      assert u in queue;
    }
  }

  /** What visiting x, not yet seen, does to the board and the queue, in
      the terms the step lemmas ask for. */
  lemma VisitFacts(board: Board, nb: Board, seen: set<Pos>, x: Pos)
    requires WellFormed(board) && WellFormed(nb) && OnBoard(x) && x !in seen
    requires RevealedSeen(board, nb, seen)
    ensures RevealedSeen(board, Visit(nb, x), seen + {x})
    ensures board[x.0][x.1].neighborMines == 0 ==>
      forall u :: IsNeighbor(x.0, x.1, BOARD_SIZE, u) ==>
        u in QueuedBy(Visit(nb, x), x) || u in seen || u == x || At(board, u).isRevealed
    ensures forall u :: u in QueuedBy(Visit(nb, x), x) ==>
      IsNeighbor(x.0, x.1, BOARD_SIZE, u) && !At(board, u).isRevealed && OnBoard(u) &&
      board[x.0][x.1].neighborMines == 0
    ensures ZeroCountsSafe(board) && !At(board, x).isMine ==>
      forall u :: u in QueuedBy(Visit(nb, x), x) ==> !At(board, u).isMine
  {
    var after: Board := Visit(nb, x);
    RevealedSeenStep(board, nb, seen, x);
    assert after[x.0][x.1].neighborMines == board[x.0][x.1].neighborMines;
    if At(after, x).neighborMines == 0 {
      PushedNeighbors(board, after, seen, x);
    }
  }

  /** Visiting x, the head of the queue not yet seen, and appending what
      it queues keeps the queue closed, reached and free of mines. */
  lemma QueueStep(board: Board, nb: Board, start: Pos, seen: set<Pos>, queue: seq<Pos>,
                  parent: map<Pos, Pos>, safe: bool)
    requires WellFormed(board) && WellFormed(nb) && queue != [] && OnBoard(queue[0]) && queue[0] !in seen
    requires AllOnBoard(seen) && ListedOnBoard(queue) && RevealedSeen(board, nb, seen)
    requires Closed(board, seen, queue) && Reached(board, start, seen, queue, parent)
    requires safe ==> ZeroCountsSafe(board) && MineFree(board, seen, queue)
    ensures var x := queue[0];
      var pushed := QueuedBy(Visit(nb, x), x);
      AllOnBoard(seen + {x}) && ListedOnBoard(queue[1..] + pushed) &&
      Closed(board, seen + {x}, queue[1..] + pushed) &&
      Reached(board, start, seen + {x}, queue[1..] + pushed, Adopt(parent, pushed, x)) &&
      (safe ==> MineFree(board, seen + {x}, queue[1..] + pushed))
  {
    var x := queue[0];
    assert x in queue;
    var pushed := QueuedBy(Visit(nb, x), x);
    VisitFacts(board, nb, seen, x);
    ClosedStep(board, seen, queue, pushed);
    ReachedStep(board, start, seen, queue, parent, pushed);
    if safe {
      MineFreeStep(board, seen, queue, pushed);
    }
    forall u | u in queue[1..] + pushed ensures OnBoard(u) {
      if u !in pushed {
        assert u in queue;
      }
    }
  }

  /** Visiting a head not yet seen keeps the invariant. */
  lemma VisitKeepsInv(board: Board, nb: Board, start: Pos, seen: set<Pos>, queue: seq<Pos>,
                      parent: map<Pos, Pos>, safe: bool,
                      nb': Board, seen': set<Pos>, queue': seq<Pos>, parent': map<Pos, Pos>)
    requires WellFormed(board) && queue != [] && queue[0] !in seen
    requires FloodInv(board, nb, start, seen, queue, parent, safe)
    requires safe ==> ZeroCountsSafe(board)
    requires OnBoard(queue[0]) && WellFormed(nb)
    requires nb' == Visit(nb, queue[0]) && seen' == seen + {queue[0]}
    requires queue' == queue[1..] + QueuedBy(nb', queue[0])
    requires parent' == Adopt(parent, QueuedBy(nb', queue[0]), queue[0])
    ensures FloodInv(board, nb', start, seen', queue', parent', safe)
  {
    RevealedSeenStep(board, nb, seen, queue[0]);
    QueueStep(board, nb, start, seen, queue, parent, safe);
  }

  /** The invariant holds before the first turn. */
  lemma FloodStart(board: Board, start: Pos, safe: bool)
    requires WellFormed(board) && OnBoard(start)
    requires safe ==> !At(board, start).isMine
    ensures FloodInv(board, board, start, {}, [start], map[], safe)
  {
  }

  /** Once the queue is empty, the invariant is what revealEmptyCells
      promises. */
  lemma FloodDone(board: Board, nb: Board, start: Pos, seen: set<Pos>, parent: map<Pos, Pos>, safe: bool)
    requires WellFormed(board) && FloodInv(board, nb, start, seen, [], parent, safe)
    ensures WellFormed(nb) && FloodFilled(board, nb, start, seen, parent)
    ensures safe ==> forall p :: p in seen ==> !At(board, p).isMine
  {
  }

  /** One turn of the loop on a head not yet visited: reveal it unless it is
      flagged, and when its count is zero queue its unrevealed neighbours. */
  method VisitCell(nb: Board, queue: seq<Pos>) returns (nb': Board, queue': seq<Pos>)
    requires WellFormed(nb) && queue != [] && OnBoard(queue[0])
    ensures nb' == Visit(nb, queue[0])
    ensures queue' == queue[1..] + QueuedBy(nb', queue[0])
  {
    var cell := queue[0];
    var row, col := cell.0, cell.1;
    queue' := queue[1..];
    nb' := nb;
    if !nb'[row][col].isFlagged {
      nb' := SetCell(nb', cell, nb'[row][col].(isRevealed := true));
    }
    if nb'[row][col].neighborMines == 0 {
      var neighbors := GetNeighbors(row, col, BOARD_SIZE);
      queue' := EnqueueUnrevealed(nb', neighbors, queue');
    } else {
      assert queue[1..] + [] == queue[1..];
    }
  }

  /** revealEmptyCells: breadth-first from (startRow, startCol), revealing
      every visited unflagged cell and queueing the unrevealed neighbours of
      every visited cell whose count is zero. When no zero-count safe cell
      touches a mine and the start is safe, no visited cell is a mine. */
  method RevealEmptyCells(board: Board, startRow: int, startCol: int)
    returns (newBoard: Board, ghost visited: set<Pos>, ghost parent: map<Pos, Pos>)
    requires WellFormed(board)
    requires OnBoard((startRow, startCol))
    ensures WellFormed(newBoard)
    ensures FloodFilled(board, newBoard, (startRow, startCol), visited, parent)
    ensures ZeroCountsSafe(board) && !board[startRow][startCol].isMine ==>
      forall p :: p in visited ==> !At(board, p).isMine
  {
    newBoard := board;
    var start := (startRow, startCol);
    var seen: set<Pos> := {};
    var queue: seq<Pos> := [start];
    parent := map[];
    ghost var safe := ZeroCountsSafe(board) && !board[startRow][startCol].isMine;
    FloodStart(board, start, safe);

    while queue != []
      invariant FloodInv(board, newBoard, start, seen, queue, parent, safe)
      decreases AllCells() - seen, |queue|
    {
      var cell := queue[0];
      if cell in seen {
        SkipVisited(board, newBoard, start, seen, queue, parent, safe);
        parent := Adopt(parent, [], cell);
        queue := queue[1..];
      } else {
        assert cell in queue;
        ghost var nb0, seen0, queue0, parent0 := newBoard, seen, queue, parent;
        newBoard, queue := VisitCell(newBoard, queue);
        seen := seen + {cell};
        assert cell in AllCells() - seen0;
        parent := Adopt(parent, QueuedBy(newBoard, cell), cell);
        VisitKeepsInv(board, nb0, start, seen0, queue0, parent0, safe, newBoard, seen, queue, parent);
      }
    }
    FloodDone(board, newBoard, start, seen, parent, safe);
    visited := seen;
  }
}
