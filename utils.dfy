// Board helpers: the bounded 8-neighbourhood of a cell and the
// rejection-sampling choice of mine indices.

module Utils {

  /** A board coordinate (row, col). */
  type Pos = (int, int)

  /** (r, c) lies on a size x size board. */
  predicate InBounds(p: Pos, size: int)
  {
    0 <= p.0 < size && 0 <= p.1 < size
  }

  /** p is one of the up-to-8 cells around (row, col) on a size x size board. */
  predicate IsNeighbor(row: int, col: int, size: int, p: Pos)
  {
    InBounds(p, size) && p != (row, col) &&
    -1 <= p.0 - row <= 1 && -1 <= p.1 - col <= 1
  }

  /** The nine offsets (i, j) in the order the two nested loops visit them:
      i in -1..1 outer, j in -1..1 inner. The centre (0, 0) is index 4. */
  const OFFSETS: seq<(int, int)> :=
    [(-1, -1), (-1, 0), (-1, 1), (0, -1), (0, 0), (0, 1), (1, -1), (1, 0), (1, 1)]

  /** Whether the loop body for offset o pushes a pair. */
  predicate Kept(row: int, col: int, size: int, o: (int, int))
  {
    !(o.0 == 0 && o.1 == 0) && InBounds((row + o.0, col + o.1), size)
  }

  /** What the loop body for offset o pushes. */
  function Step(row: int, col: int, size: int, o: (int, int)): seq<Pos>
  {
    if Kept(row, col, size, o) then [(row + o.0, col + o.1)] else []
  }

  /** The pairs pushed while the offsets `offs` are visited in order. */
  function Pushed(row: int, col: int, size: int, offs: seq<(int, int)>): seq<Pos>
  {
    if offs == [] then []
    else
      Pushed(row, col, size, offs[..|offs| - 1]) + Step(row, col, size, offs[|offs| - 1])
  }

  /** The neighbour list of (row, col): every offset visited in loop order. */
  function Neighbors(row: int, col: int, size: int): seq<Pos>
  {
    Pushed(row, col, size, OFFSETS)
  }

  /** Lexicographic order on coordinates. */
  predicate Before(p: Pos, q: Pos)
  {
    p.0 < q.0 || (p.0 == q.0 && p.1 < q.1)
  }

  /** Strictly increasing in lexicographic order, hence free of duplicates. */
  predicate StrictlySorted(s: seq<Pos>)
  {
    forall a, b :: 0 <= a < b < |s| ==> Before(s[a], s[b])
  }

  /** Number of the three lines x-1, x, x+1 that lie in [0, size). */
  function Span(x: int, size: int): int
  {
    (if 0 <= x - 1 < size then 1 else 0) +
    (if 0 <= x < size then 1 else 0) +
    (if 0 <= x + 1 < size then 1 else 0)
  }

  lemma OffsetAt(i: int, j: int)
    requires -1 <= i <= 1 && -1 <= j <= 1
    ensures 0 <= 3 * (i + 1) + (j + 1) < 9
    ensures OFFSETS[3 * (i + 1) + (j + 1)] == (i, j)
  {
  }

  lemma {:induction false} PushedMember(row: int, col: int, size: int, offs: seq<(int, int)>, p: Pos)
    ensures p in Pushed(row, col, size, offs) <==>
            exists k :: 0 <= k < |offs| && Kept(row, col, size, offs[k]) && p == (row + offs[k].0, col + offs[k].1)
  {
    if offs != [] {
      var init := offs[..|offs| - 1];
      PushedMember(row, col, size, init, p);
      if p in Pushed(row, col, size, offs) {
        if p in Pushed(row, col, size, init) {
          var k :| 0 <= k < |init| && Kept(row, col, size, init[k]) && p == (row + init[k].0, col + init[k].1);
          assert offs[k] == init[k];
        } else {
          assert Kept(row, col, size, offs[|offs| - 1]);
        }
      } else {
        forall k | 0 <= k < |offs|
          ensures !(Kept(row, col, size, offs[k]) && p == (row + offs[k].0, col + offs[k].1))
        {
          if k < |offs| - 1 { assert offs[k] == init[k]; }
        }
      }
    }
  }

  /** Every pushed pair in order; an element of `Pushed` comes from an offset in `offs`. */
  lemma {:induction false} PushedFromOffsets(row: int, col: int, size: int, offs: seq<(int, int)>, a: nat)
    requires a < |Pushed(row, col, size, offs)|
    ensures exists k :: 0 <= k < |offs| && Kept(row, col, size, offs[k]) &&
                        Pushed(row, col, size, offs)[a] == (row + offs[k].0, col + offs[k].1)
  {
    var p := Pushed(row, col, size, offs)[a];
    PushedMember(row, col, size, offs, p);
  }

  /** The neighbour list holds exactly the neighbours of (row, col). */
  lemma NeighborsMembership(row: int, col: int, size: int, p: Pos)
    ensures p in Neighbors(row, col, size) <==> IsNeighbor(row, col, size, p)
  {
    PushedMember(row, col, size, OFFSETS, p);
    if IsNeighbor(row, col, size, p) {
      var i, j := p.0 - row, p.1 - col;
      OffsetAt(i, j);
      var k := 3 * (i + 1) + (j + 1);
      assert Kept(row, col, size, OFFSETS[k]) && p == (row + OFFSETS[k].0, col + OFFSETS[k].1);
    }
  }

  /** When the offsets are lexicographically increasing, so is what is pushed. */
  lemma {:induction false} PushedSorted(row: int, col: int, size: int, offs: seq<(int, int)>)
    requires StrictlySorted(offs)
    ensures StrictlySorted(Pushed(row, col, size, offs))
  {
    if offs != [] {
      var init := offs[..|offs| - 1];
      var last := offs[|offs| - 1];
      assert StrictlySorted(init) by {
        forall a, b | 0 <= a < b < |init| ensures Before(init[a], init[b]) {
          assert init[a] == offs[a] && init[b] == offs[b];
        }
      }
      PushedSorted(row, col, size, init);
      var s := Pushed(row, col, size, offs);
      var front := Pushed(row, col, size, init);
      if Kept(row, col, size, last) {
        forall a, b | 0 <= a < b < |s| ensures Before(s[a], s[b]) {
          if b == |s| - 1 {
            PushedFromOffsets(row, col, size, init, a);
            var k :| 0 <= k < |init| && Kept(row, col, size, init[k]) &&
                     front[a] == (row + init[k].0, col + init[k].1);
            assert Before(offs[k], offs[|offs| - 1]);
          } else {
            assert s[a] == front[a] && s[b] == front[b];
          }
        }
      } else {
        assert s == front;
      }
    }
  }

  /** The neighbour list is in offset order: lexicographically increasing, so no pair repeats. */
  lemma NeighborsSorted(row: int, col: int, size: int)
    ensures StrictlySorted(Neighbors(row, col, size))
  {
    assert StrictlySorted(OFFSETS) by {
      forall a, b | 0 <= a < b < 9 ensures Before(OFFSETS[a], OFFSETS[b]) {
      }
    }
    PushedSorted(row, col, size, OFFSETS);
  }

  /** The length of the pushed list is the number of offsets that are kept. */
  function KeptCount(row: int, col: int, size: int, offs: seq<(int, int)>): nat
  {
    if offs == [] then 0
    else KeptCount(row, col, size, offs[..|offs| - 1]) + (if Kept(row, col, size, offs[|offs| - 1]) then 1 else 0)
  }

  lemma {:induction false} PushedLength(row: int, col: int, size: int, offs: seq<(int, int)>)
    ensures |Pushed(row, col, size, offs)| == KeptCount(row, col, size, offs)
  {
    if offs != [] {
      PushedLength(row, col, size, offs[..|offs| - 1]);
    }
  }

  lemma KeptStep(row: int, col: int, size: int, k: nat)
    requires k < 9
    ensures KeptCount(row, col, size, OFFSETS[..k + 1]) ==
            KeptCount(row, col, size, OFFSETS[..k]) + (if Kept(row, col, size, OFFSETS[k]) then 1 else 0)
  {
    assert OFFSETS[..k + 1][..k] == OFFSETS[..k];
  }

  /** KeptCount over the three offsets of one row i of the 3x3 block. */
  lemma KeptRow(row: int, col: int, size: int, i: int)
    requires -1 <= i <= 1
    ensures KeptCount(row, col, size, OFFSETS[..3 * (i + 1) + 3]) ==
      KeptCount(row, col, size, OFFSETS[..3 * (i + 1)]) +
      (if 0 <= row + i < size then Span(col, size) - (if i == 0 && 0 <= col < size then 1 else 0) else 0)
  {
    var k := 3 * (i + 1);
    KeptStep(row, col, size, k);
    KeptStep(row, col, size, k + 1);
    KeptStep(row, col, size, k + 2);
    OffsetAt(i, -1);
    OffsetAt(i, 0);
    OffsetAt(i, 1);
  }

  /** An in-bounds cell has Span(row) * Span(col) - 1 neighbours: 8 inside,
      5 on an edge and 3 in a corner. */
  lemma NeighborsCount(row: int, col: int, size: int)
    requires 0 <= row < size && 0 <= col < size
    ensures |Neighbors(row, col, size)| == Span(row, size) * Span(col, size) - 1
    ensures 0 < row < size - 1 && 0 < col < size - 1 ==> |Neighbors(row, col, size)| == 8
    ensures size >= 2 && (row == 0 || row == size - 1) && (col == 0 || col == size - 1) ==>
            |Neighbors(row, col, size)| == 3
    ensures size >= 3 && (row == 0 || row == size - 1) && 0 < col < size - 1 ==>
            |Neighbors(row, col, size)| == 5
    ensures size >= 3 && 0 < row < size - 1 && (col == 0 || col == size - 1) ==>
            |Neighbors(row, col, size)| == 5
  {
    PushedLength(row, col, size, OFFSETS);
    assert OFFSETS[..0] == [];
    KeptRow(row, col, size, -1);
    KeptRow(row, col, size, 0);
    KeptRow(row, col, size, 1);
    assert OFFSETS[..9] == OFFSETS;
    var s := Span(col, size);
    var a := if 0 <= row - 1 < size then 1 else 0;
    var b := if 0 <= row + 1 < size then 1 else 0;
    assert Span(row, size) * s == a * s + s + b * s;
  }

  /** The neighbour relation is symmetric between in-bounds cells. */
  lemma NeighborsSymmetric(r: int, c: int, a: int, b: int, size: int)
    requires InBounds((r, c), size) && InBounds((a, b), size)
    ensures (r, c) in Neighbors(a, b, size) <==> (a, b) in Neighbors(r, c, size)
  {
    NeighborsMembership(a, b, size, (r, c));
    NeighborsMembership(r, c, size, (a, b));
  }

  /** One pass of the inner loop body: the list pushed so far over the first
      k offsets, extended by what offset k = (i, j) pushes, is the list over
      the first k + 1 offsets. */
  lemma PushStep(row: int, col: int, size: int, i: int, j: int, k: int, before: seq<Pos>)
    requires -1 <= i <= 1 && -1 <= j <= 1 && k == 3 * (i + 1) + (j + 1)
    requires before == Pushed(row, col, size, OFFSETS[..k])
    ensures 0 <= k < 9
    ensures before + Step(row, col, size, (i, j)) == Pushed(row, col, size, OFFSETS[..k + 1])
  {
    OffsetAt(i, j);
    assert OFFSETS[..k + 1][..k] == OFFSETS[..k];
  }

  /** What getNeighbors promises of its list: exactly the neighbours of
      (row, col), in offset order without repeats, at most eight of them. */
  lemma NeighborsFacts(row: int, col: int, size: int)
    ensures forall p :: p in Neighbors(row, col, size) <==> IsNeighbor(row, col, size, p)
    ensures StrictlySorted(Neighbors(row, col, size))
    ensures |Neighbors(row, col, size)| <= 8
  {
    forall p ensures p in Neighbors(row, col, size) <==> IsNeighbor(row, col, size, p) {
      NeighborsMembership(row, col, size, p);
    }
    NeighborsSorted(row, col, size);
    PushedLength(row, col, size, OFFSETS);
    KeptAtMostEight(row, col, size);
  }

  /** The body of getNeighbors' inner loop for offset (i, j): skip the
      centre, push the pair if it lies on the board. */
  method PushNeighbor(row: int, col: int, size: int, i: int, j: int, neighbors: seq<Pos>) returns (extended: seq<Pos>)
    ensures extended == neighbors + Step(row, col, size, (i, j))
  {
    extended := neighbors;
    if i == 0 && j == 0 {
      return;
    }
    var newRow := row + i;
    var newCol := col + j;
    if newRow >= 0 && newRow < size && newCol >= 0 && newCol < size {
      extended := extended + [(newRow, newCol)];
    }
  }

  /** getNeighbors: the two nested loops over the offsets, pushing every
      in-bounds pair other than (row, col) itself. */
  method GetNeighbors(row: int, col: int, size: int) returns (neighbors: seq<Pos>)
    ensures neighbors == Neighbors(row, col, size)
    ensures forall p :: p in neighbors <==> IsNeighbor(row, col, size, p)
    ensures StrictlySorted(neighbors)
    ensures |neighbors| <= 8
  {
    neighbors := [];
    ghost var k := 0;
    for i := -1 to 2
      invariant k == 3 * (i + 1)
      invariant neighbors == Pushed(row, col, size, OFFSETS[..k])
    {
      for j := -1 to 2
        invariant k == 3 * (i + 1) + (j + 1)
        invariant neighbors == Pushed(row, col, size, OFFSETS[..k])
      {
        PushStep(row, col, size, i, j, k, neighbors);
        neighbors := PushNeighbor(row, col, size, i, j, neighbors);
        k := k + 1;
      }
    }
    assert OFFSETS[..9] == OFFSETS;
    NeighborsFacts(row, col, size);
  }

  /** The centre offset is never kept, so at most eight pairs are pushed. */
  lemma KeptAtMostEight(row: int, col: int, size: int)
    ensures KeptCount(row, col, size, OFFSETS) <= 8
  {
    assert OFFSETS[..0] == [];
    KeptStep(row, col, size, 0);
    KeptStep(row, col, size, 1);
    KeptStep(row, col, size, 2);
    KeptStep(row, col, size, 3);
    KeptStep(row, col, size, 4);
    KeptStep(row, col, size, 5);
    KeptStep(row, col, size, 6);
    KeptStep(row, col, size, 7);
    KeptStep(row, col, size, 8);
    assert OFFSETS[..9] == OFFSETS;
  }

  // ---------------------------------------------------------------- mines

  /** A non-empty set of indices has an element to choose. */
  lemma SomeIndex(s: set<int>)
    requires s != {}
    ensures exists x :: x in s
  {
    if forall x :: x !in s {
      assert false;
    }
  }

  /** The indices generateMines may return: [0, totalCells) without excludeIndex. */
  function Admissible(totalCells: nat, excludeIndex: int): (s: set<int>)
    ensures forall i :: i in s <==> 0 <= i < totalCells && i != excludeIndex
  {
    if totalCells == 0 then {}
    else Admissible(totalCells - 1, excludeIndex) +
         (if totalCells - 1 == excludeIndex then {} else {totalCells - 1})
  }

  /** How many indices are admissible. */
  function AdmissibleCount(totalCells: nat, excludeIndex: int): int
  {
    totalCells - (if 0 <= excludeIndex < totalCells then 1 else 0)
  }

  lemma {:induction false} AdmissibleCard(totalCells: nat, excludeIndex: int)
    ensures |Admissible(totalCells, excludeIndex)| == AdmissibleCount(totalCells, excludeIndex)
  {
    if totalCells > 0 {
      var t := totalCells - 1;
      AdmissibleCard(t, excludeIndex);
      if t == excludeIndex {
        assert Admissible(totalCells, excludeIndex) == Admissible(t, excludeIndex);
      } else {
        assert Admissible(totalCells, excludeIndex) == Admissible(t, excludeIndex) + {t};
      }
    }
  }

  /** generateMines: draw indices until the set holds mineCount of them,
      skipping excludeIndex. The random draw of an index in [0, totalCells)
      is a nondeterministic choice. The source's rejection of the excluded
      index is folded into that choice: only draws that grow the set (an
      admissible index not drawn yet) are taken, so every turn adds one. */
  method GenerateMines(totalCells: nat, mineCount: nat, excludeIndex: int) returns (mines: set<int>)
    requires mineCount <= AdmissibleCount(totalCells, excludeIndex)
    ensures |mines| == mineCount
    ensures forall i :: i in mines ==> 0 <= i < totalCells
    ensures excludeIndex !in mines
  {
    mines := {};
    AdmissibleCard(totalCells, excludeIndex);
    while |mines| < mineCount
      invariant mines <= Admissible(totalCells, excludeIndex)
      invariant |mines| <= mineCount
      decreases mineCount - |mines|
    {
      var avail := Admissible(totalCells, excludeIndex);
      assert avail - mines != {} by {
        assert |avail - mines| == |avail| - |mines|;
      }
      var randomIndex :| randomIndex in avail - mines;
      mines := mines + {randomIndex};
    }
  }
}
