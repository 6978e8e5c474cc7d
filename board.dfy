// What a board is, the sets of cells that carry each marker, the neighbour
// mine count, and the counting facts the game's invariants rest on.

module Minefield {
  import opened Utils
  import opened Constants
  import opened Types

  /** p is a coordinate of the BOARD_SIZE x BOARD_SIZE board. */
  predicate OnBoard(p: Pos)
  {
    InBounds(p, BOARD_SIZE)
  }

  /** BOARD_SIZE rows of BOARD_SIZE cells, each cell carrying its own coordinates. */
  predicate WellFormed(b: Board)
  {
    |b| == BOARD_SIZE &&
    (forall r :: 0 <= r < BOARD_SIZE ==> |b[r]| == BOARD_SIZE) &&
    (forall r, c :: 0 <= r < BOARD_SIZE && 0 <= c < BOARD_SIZE ==> b[r][c].row == r && b[r][c].col == c)
  }

  /** p is a cell of an n x m grid. */
  predicate InGrid(p: Pos, n: int, m: int)
  {
    0 <= p.0 < n && 0 <= p.1 < m
  }

  /** The cells of an n x m grid. */
  function Grid(n: int, m: int): (s: set<Pos>)
    ensures forall p :: p in s <==> InGrid(p, n, m)
  {
    set r, c | 0 <= r < n && 0 <= c < m :: (r, c)
  }

  /** Coordinates of every cell. */
  function AllCells(): (s: set<Pos>)
    ensures forall p :: p in s <==> OnBoard(p)
  {
    Grid(BOARD_SIZE, BOARD_SIZE)
  }

  /** Every position of s lies on the board. */
  predicate AllOnBoard(s: set<Pos>)
  {
    forall p :: p in s ==> OnBoard(p)
  }

  /** Every position listed in q lies on the board. */
  predicate ListedOnBoard(q: seq<Pos>)
  {
    forall p :: p in q ==> OnBoard(p)
  }

  /** b with the cell at p replaced by x, which keeps p's coordinates. */
  function SetCell(b: Board, p: Pos, x: Cell): (nb: Board)
    requires WellFormed(b) && OnBoard(p) && x.row == p.0 && x.col == p.1
    ensures WellFormed(nb)
    ensures forall r, c :: 0 <= r < BOARD_SIZE && 0 <= c < BOARD_SIZE ==>
      nb[r][c] == if r == p.0 && c == p.1 then x else b[r][c]
  {
    b[p.0 := b[p.0][p.1 := x]]
  }

  /** b has a cell at p. */
  predicate HasCell(b: Board, p: Pos)
  {
    0 <= p.0 < |b| && 0 <= p.1 < |b[p.0]|
  }

  /** The cell of b at p. */
  function At(b: Board, p: Pos): Cell
    requires HasCell(b, p)
  {
    b[p.0][p.1]
  }

  /** b holds a mine at p. */
  predicate MineAt(b: Board, p: Pos)
  {
    HasCell(b, p) && At(b, p).isMine
  }

  /** Coordinates of the mines. */
  function Mines(b: Board): (s: set<Pos>)
    ensures forall p :: p in s <==> OnBoard(p) && MineAt(b, p)
  {
    set p | p in AllCells() && MineAt(b, p)
  }

  /** Coordinates of the flagged cells. */
  function Flagged(b: Board): (s: set<Pos>)
    ensures forall p :: p in s <==> OnBoard(p) && HasCell(b, p) && At(b, p).isFlagged
  {
    set p | p in AllCells() && HasCell(b, p) && At(b, p).isFlagged
  }

  /** Coordinates of the revealed cells. */
  function Revealed(b: Board): (s: set<Pos>)
    ensures forall p :: p in s <==> OnBoard(p) && HasCell(b, p) && At(b, p).isRevealed
  {
    set p | p in AllCells() && HasCell(b, p) && At(b, p).isRevealed
  }

  /** Coordinates of the cells marked as wrong flags. */
  function WrongFlags(b: Board): (s: set<Pos>)
    ensures forall p :: p in s <==> OnBoard(p) && HasCell(b, p) && At(b, p).isWrongFlag
  {
    set p | p in AllCells() && HasCell(b, p) && At(b, p).isWrongFlag
  }

  /** A single-cell update changes the marker sets at p only: p is in each
      set of the new board exactly when x carries that marker. */
  lemma SetCellMarkers(b: Board, p: Pos, x: Cell)
    requires WellFormed(b) && OnBoard(p) && x.row == p.0 && x.col == p.1
    ensures var nb := SetCell(b, p, x);
      Mines(nb) == (if x.isMine then Mines(b) + {p} else Mines(b) - {p}) &&
      Flagged(nb) == (if x.isFlagged then Flagged(b) + {p} else Flagged(b) - {p}) &&
      Revealed(nb) == (if x.isRevealed then Revealed(b) + {p} else Revealed(b) - {p}) &&
      WrongFlags(nb) == (if x.isWrongFlag then WrongFlags(b) + {p} else WrongFlags(b) - {p})
  {
    var nb := SetCell(b, p, x);
    forall q | OnBoard(q) ensures At(nb, q) == if q == p then x else At(b, q) {
    }
  }

  /** How many of the positions `ns` hold a mine, counting a position once
      for each time it is listed. */
  function MinesAmong(b: Board, ns: seq<Pos>): (n: nat)
    ensures n <= |ns|
    ensures n == 0 <==> forall k :: 0 <= k < |ns| ==> !MineAt(b, ns[k])
  {
    if ns == [] then 0
    else
      (if MineAt(b, ns[0]) then 1 else 0) +
      MinesAmong(b, ns[1..])
  }

  /** The mines around (r, c), as a set. */
  function AdjacentMines(b: Board, r: int, c: int): set<Pos>
  {
    set p | p in Mines(b) && IsNeighbor(r, c, BOARD_SIZE, p)
  }

  /** Every non-mine cell's neighborMines is the number of mines around it. */
  predicate CountsCorrect(b: Board)
    requires WellFormed(b)
  {
    forall r, c :: 0 <= r < BOARD_SIZE && 0 <= c < BOARD_SIZE ==> CountOK(b, r, c)
  }

  /** The cell (r, c) is a mine or holds the number of mines around it. */
  predicate CountOK(b: Board, r: int, c: int)
    requires WellFormed(b) && 0 <= r < BOARD_SIZE && 0 <= c < BOARD_SIZE
  {
    !b[r][c].isMine ==> b[r][c].neighborMines == MinesAmong(b, Neighbors(r, c, BOARD_SIZE))
  }

  /** Around a safe cell whose count is zero there is no mine. */
  ghost predicate ZeroCountsSafe(b: Board)
    requires WellFormed(b)
  {
    forall v, u :: (OnBoard(v) && !At(b, v).isMine && At(b, v).neighborMines == 0 &&
      IsNeighbor(v.0, v.1, BOARD_SIZE, u)) ==> !At(b, u).isMine
  }

  /** No mine is revealed. */
  predicate NoRevealedMine(b: Board)
  {
    Mines(b) * Revealed(b) == {}
  }

  /** Every cell that holds no mine is revealed. */
  predicate AllSafeRevealed(b: Board)
    requires WellFormed(b)
  {
    forall r, c :: 0 <= r < BOARD_SIZE && 0 <= c < BOARD_SIZE && !b[r][c].isMine ==> b[r][c].isRevealed
  }

  /** a and b have the same shape and the same mines. */
  predicate SameMines(a: Board, b: Board)
  {
    |a| == |b| &&
    (forall r :: 0 <= r < |a| ==> |a[r]| == |b[r]|) &&
    (forall r, c :: 0 <= r < |a| && 0 <= c < |a[r]| ==> a[r][c].isMine == b[r][c].isMine)
  }

  /** Boards with the same mine markers have the same mine set. */
  lemma SameMinesSet(a: Board, b: Board)
    requires WellFormed(a) && WellFormed(b) && SameMines(a, b)
    ensures Mines(a) == Mines(b)
  {
    forall p | OnBoard(p) ensures MineAt(a, p) == MineAt(b, p) {
      assert a[p.0][p.1].isMine == b[p.0][p.1].isMine;
    }
  }

  // ------------------------------------------------------------ counting

  /** p lies in row r, in one of the columns [0, m). */
  predicate InRow(p: Pos, r: int, m: int)
  {
    p.0 == r && 0 <= p.1 < m
  }

  /** The cells of row r in columns [0, m). */
  function RowCells(r: int, m: int): (s: set<Pos>)
    ensures forall p :: p in s <==> InRow(p, r, m)
  {
    set c | 0 <= c < m :: (r, c)
  }

  lemma {:induction false} RowCellsCard(r: int, m: nat)
    ensures |RowCells(r, m)| == m
  {
    if m > 0 {
      RowCellsCard(r, m - 1);
      assert RowCells(r, m) == RowCells(r, m - 1) + {(r, m - 1)};
    }
  }

  /** The first n rows are the first n - 1 rows plus row n - 1. */
  lemma GridSplit(n: nat, m: nat)
    requires n > 0
    ensures Grid(n, m) == Grid(n - 1, m) + RowCells(n - 1, m)
    ensures Grid(n - 1, m) * RowCells(n - 1, m) == {}
  {
    assert Grid(n, m) == Grid(n - 1, m) + RowCells(n - 1, m);
  }

  lemma {:induction false} GridCard(n: nat, m: nat)
    ensures |Grid(n, m)| == n * m
  {
    if n > 0 {
      GridCard(n - 1, m);
      RowCellsCard(n - 1, m);
      GridSplit(n, m);
      var a, b := Grid(n - 1, m), RowCells(n - 1, m);
      assert |a + b| == |a| + |b|;
      assert (n - 1) * m + m == n * m;
    }
  }

  /** The cell at linear index i of the row-major board. */
  function IndexToPos(i: int): (p: Pos)
    ensures 0 <= i < BOARD_SIZE * BOARD_SIZE ==> OnBoard(p) && p.0 * BOARD_SIZE + p.1 == i
  {
    (i / BOARD_SIZE, i % BOARD_SIZE)
  }

  /** The linear index of an on-board cell maps back to that cell. */
  lemma IndexOfPos(p: Pos)
    requires OnBoard(p)
    ensures 0 <= p.0 * BOARD_SIZE + p.1 < BOARD_SIZE * BOARD_SIZE
    ensures IndexToPos(p.0 * BOARD_SIZE + p.1) == p
  {
  }

  /** An in-range linear index names an on-board cell, whose index it is. */
  lemma PosOfIndex(i: int)
    requires 0 <= i < BOARD_SIZE * BOARD_SIZE
    ensures OnBoard(IndexToPos(i))
    ensures IndexToPos(i).0 * BOARD_SIZE + IndexToPos(i).1 == i
  {
  }

  /** The row-major cells of a set of linear indices. */
  function PosOf(s: set<int>): set<Pos>
  {
    set i | i in s :: IndexToPos(i)
  }

  lemma IndexToPosInjective(i: int, j: int)
    requires IndexToPos(i) == IndexToPos(j)
    ensures i == j
  {
    assert i == (i / BOARD_SIZE) * BOARD_SIZE + i % BOARD_SIZE;
    assert j == (j / BOARD_SIZE) * BOARD_SIZE + j % BOARD_SIZE;
  }

  /** Distinct indices name distinct cells, so the count is kept. */
  lemma {:induction false} PosOfCard(s: set<int>)
    ensures |PosOf(s)| == |s|
  {
    if s != {} {
      SomeIndex(s);
      var i :| i in s;
      var rest := s - {i};
      PosOfCard(rest);
      assert PosOf(s) == PosOf(rest) + {IndexToPos(i)};
      if IndexToPos(i) in PosOf(rest) {
        var j :| j in rest && IndexToPos(j) == IndexToPos(i);
        IndexToPosInjective(i, j);
      }
    }
  }

  predicate NoDuplicates(ns: seq<Pos>)
  {
    forall a, b :: 0 <= a < b < |ns| ==> ns[a] != ns[b]
  }

  /** The listed positions that hold a mine. */
  function ListedMines(b: Board, ns: seq<Pos>): set<Pos>
  {
    set p | p in ns && MineAt(b, p)
  }

  /** Over a list without repeats, MinesAmong counts the listed mines. */
  lemma {:induction false} MinesAmongCountsSet(b: Board, ns: seq<Pos>)
    requires NoDuplicates(ns)
    ensures MinesAmong(b, ns) == |ListedMines(b, ns)|
  {
    if ns != [] {
      var tail := ns[1..];
      assert NoDuplicates(tail) by {
        forall a, c | 0 <= a < c < |tail| ensures tail[a] != tail[c] {
          assert tail[a] == ns[a + 1] && tail[c] == ns[c + 1];
        }
      }
      MinesAmongCountsSet(b, tail);
      var p := ns[0];
      assert p !in tail;
      if MineAt(b, p) {
        assert ListedMines(b, ns) == {p} + ListedMines(b, tail);
      } else {
        assert ListedMines(b, ns) == ListedMines(b, tail);
      }
    }
  }

  /** The neighbour count the board engine computes is the number of mines
      among the up-to-8 cells around (r, c), so it lies in 0..8. */
  lemma NeighborCountIsAdjacentMines(b: Board, r: int, c: int)
    requires WellFormed(b)
    ensures MinesAmong(b, Neighbors(r, c, BOARD_SIZE)) == |AdjacentMines(b, r, c)|
    ensures MinesAmong(b, Neighbors(r, c, BOARD_SIZE)) <= 8
  {
    var ns := Neighbors(r, c, BOARD_SIZE);
    NeighborsSorted(r, c, BOARD_SIZE);
    assert NoDuplicates(ns) by {
      forall a, d | 0 <= a < d < |ns| ensures ns[a] != ns[d] {
        assert Before(ns[a], ns[d]);
      }
    }
    MinesAmongCountsSet(b, ns);
    assert ListedMines(b, ns) == AdjacentMines(b, r, c) by {
      forall p ensures p in ListedMines(b, ns) <==> p in AdjacentMines(b, r, c) {
        NeighborsMembership(r, c, BOARD_SIZE, p);
      }
    }
    PushedLength(r, c, BOARD_SIZE, OFFSETS);
    KeptAtMostEight(r, c, BOARD_SIZE);
  }

  /** A zero count over a list means none of the listed cells is a mine. */
  lemma {:induction false} NoMinesAmong(b: Board, ns: seq<Pos>, k: nat)
    requires MinesAmong(b, ns) == 0
    requires k < |ns| && 0 <= ns[k].0 < |b| && 0 <= ns[k].1 < |b[ns[k].0]|
    ensures !b[ns[k].0][ns[k].1].isMine
  {
    if k > 0 {
      NoMinesAmong(b, ns[1..], k - 1);
    }
  }

  /** Correct counts never put a mine next to a zero. */
  lemma CountsCorrectZeroSafe(b: Board)
    requires WellFormed(b) && CountsCorrect(b)
    ensures ZeroCountsSafe(b)
  {
    forall v, u | OnBoard(v) && !At(b, v).isMine && At(b, v).neighborMines == 0 &&
      IsNeighbor(v.0, v.1, BOARD_SIZE, u)
      ensures !At(b, u).isMine
    {
      var ns := Neighbors(v.0, v.1, BOARD_SIZE);
      assert CountOK(b, v.0, v.1);
      NeighborsMembership(v.0, v.1, BOARD_SIZE, u);
      var k :| 0 <= k < |ns| && ns[k] == u;
      NoMinesAmong(b, ns, k);
    }
  }

  /** The count depends on the mines only. */
  lemma {:induction false} MinesAmongSameMines(a: Board, b: Board, ns: seq<Pos>)
    requires SameMines(a, b)
    ensures MinesAmong(a, ns) == MinesAmong(b, ns)
  {
    if ns != [] {
      MinesAmongSameMines(a, b, ns[1..]);
    }
  }

  /** Correct counts survive any change that keeps the mines and the counts. */
  lemma CountsCorrectKept(a: Board, b: Board)
    requires WellFormed(a) && WellFormed(b) && SameMines(a, b)
    requires forall r, c :: 0 <= r < BOARD_SIZE && 0 <= c < BOARD_SIZE ==>
               a[r][c].neighborMines == b[r][c].neighborMines
    requires CountsCorrect(a)
    ensures CountsCorrect(b)
  {
    forall r, c | 0 <= r < BOARD_SIZE && 0 <= c < BOARD_SIZE
      ensures CountOK(b, r, c)
    {
      assert CountOK(a, r, c);
      MinesAmongSameMines(a, b, Neighbors(r, c, BOARD_SIZE));
    }
  }

  /** With exactly MINE_COUNT mines and none of them revealed, the revealed
      count reaches BOARD_SIZE^2 - MINE_COUNT exactly when every safe cell
      is revealed. */
  lemma WinCountMeansAllSafeRevealed(b: Board)
    requires WellFormed(b)
    requires |Mines(b)| == MINE_COUNT
    requires NoRevealedMine(b)
    ensures |Revealed(b)| == BOARD_SIZE * BOARD_SIZE - MINE_COUNT <==> AllSafeRevealed(b)
  {
    var all := AllCells();
    GridCard(BOARD_SIZE, BOARD_SIZE);
    var safe := all - Mines(b);
    assert |safe| == BOARD_SIZE * BOARD_SIZE - MINE_COUNT by {
      assert Mines(b) <= all;
      assert all * Mines(b) == Mines(b);
    }
    assert Revealed(b) <= safe by {
      forall p | p in Revealed(b) ensures p in safe {
        assert p !in Mines(b) * Revealed(b);
      }
    }
    if AllSafeRevealed(b) {
      forall p | p in safe ensures p in Revealed(b) {
        assert !At(b, p).isMine;
      }
      assert Revealed(b) == safe;
    }
    if |Revealed(b)| == BOARD_SIZE * BOARD_SIZE - MINE_COUNT {
      SameSizeSubsetEqual(Revealed(b), safe);
      forall r, c | 0 <= r < BOARD_SIZE && 0 <= c < BOARD_SIZE && !b[r][c].isMine
        ensures b[r][c].isRevealed
      {
        assert (r, c) in safe;
      }
    }
  }

  /** A subset as large as its superset is the superset. */
  lemma SameSizeSubsetEqual(a: set<Pos>, b: set<Pos>)
    requires a <= b && |a| == |b|
    ensures a == b
  {
    assert b * a == a;
    assert |b - a| == 0;
  }
}
