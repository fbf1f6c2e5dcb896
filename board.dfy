/**
 * The fixed Chat Noir board: a ragged grid of 21 rows whose lengths grow
 * 1, 2, ..., 11 down to the middle row and shrink 10, ..., 1 after it,
 * its border cells (the first and last cell of every row), and the
 * adjacency that `initialize` computes from three tables of six offsets.
 *
 * Cells are identified by their (row, column) coordinate, which is how the
 * source's vertex objects are told apart: one object per coordinate.
 */
module Board {

  datatype Cell = Cell(row: int, col: int)

  /** Number of rows of the ragged grid. */
  const Rows: int := 21
  /** The middle row, the only one with 11 cells; the offset table flips there. */
  const MiddleRow: int := 10

  /** Row offsets of the six neighbours, shared by the three tables. */
  const RowDiff: seq<int> := [-1, -1, 0, 0, 1, 1]
  /** Column offsets used for rows 0..9. */
  const UpperColDiff: seq<int> := [-1, 0, -1, 1, 0, 1]
  /** Column offsets used for row 10. */
  const MiddleColDiff: seq<int> := [-1, 0, -1, 1, 0, -1]
  /** Column offsets used for rows 11..20. */
  const LowerColDiff: seq<int> := [1, 0, -1, 1, 0, -1]

  /** Length of row `r`: r + 1 up to the middle row, 21 - r after it. */
  function RowLength(r: int): (n: int)
    requires 0 <= r < Rows
    ensures 1 <= n <= 11
  {
    if r <= MiddleRow then r + 1 else Rows - r
  }

  /** A coordinate that indexes the ragged grid without going out of bounds. */
  predicate IsCell(c: Cell)
  {
    0 <= c.row < Rows && 0 <= c.col < RowLength(c.row)
  }

  /** A border cell: the first or the last cell of its row. */
  predicate IsBorder(c: Cell)
    requires IsCell(c)
  {
    c.col == 0 || c.col == RowLength(c.row) - 1
  }

  /** The column-offset table the source uses for a cell of row `r`. */
  function ColDiff(r: int): (t: seq<int>)
    ensures |t| == 6
  {
    if r < MiddleRow then UpperColDiff
    else if r == MiddleRow then MiddleColDiff
    else LowerColDiff
  }

  /** The coordinate the k-th offset reaches from `c` (it may lie off the grid). */
  function Offset(c: Cell, k: int): Cell
    requires 0 <= k < 6
  {
    Cell(c.row + RowDiff[k], c.col + ColDiff(c.row)[k])
  }

  /** `b` is reached from `a` by one of the six offsets of `a`'s table. */
  predicate IsOffset(a: Cell, b: Cell)
  {
    exists k :: 0 <= k < 6 && b == Offset(a, k)
  }

  /**
   * The neighbour list after the first `k` offsets have been tried, in the
   * order the source appends them; an offset that leaves the grid is skipped.
   */
  function NeighboursUpTo(c: Cell, k: int): (ns: seq<Cell>)
    requires 0 <= k <= 6
    ensures |ns| <= k
    ensures forall x :: x in ns ==> IsCell(x)
    decreases k
  {
    if k == 0 then []
    else NeighboursUpTo(c, k - 1) + (if IsCell(Offset(c, k - 1)) then [Offset(c, k - 1)] else [])
  }

  /** The neighbour list of a cell. */
  function Neighbours(c: Cell): seq<Cell>
  {
    NeighboursUpTo(c, 6)
  }

  /**
   * `b` is a neighbour of the cell `a`: a cell of the grid that one of the six
   * offsets of `a`'s table reaches. `AdjacentListed` shows these are exactly
   * the members of `a`'s neighbour list.
   */
  predicate Adjacent(a: Cell, b: Cell)
  {
    IsCell(a) && IsCell(b) && IsOffset(a, b)
  }

  /** Membership in a partial neighbour list: exactly the in-range cells among the first k offsets. */
  lemma {:induction false} InNeighboursUpTo(c: Cell, k: int, x: Cell)
    requires 0 <= k <= 6
    ensures x in NeighboursUpTo(c, k) <==> IsCell(x) && exists m :: 0 <= m < k && x == Offset(c, m)
    decreases k
  {
    if k > 0 {
      InNeighboursUpTo(c, k - 1, x);
      if x == Offset(c, k - 1) && IsCell(x) {
        assert x in NeighboursUpTo(c, k);
      }
    }
  }

  /** The neighbours of `c` are exactly the in-range cells its six offsets reach. */
  lemma NeighboursExactly(c: Cell, x: Cell)
    ensures x in Neighbours(c) <==> IsCell(x) && IsOffset(c, x)
  {
    InNeighboursUpTo(c, 6, x);
  }

  /** A cell's neighbour list holds exactly its neighbours. */
  lemma AdjacentListed(a: Cell, b: Cell)
    requires IsCell(a)
    ensures Adjacent(a, b) <==> b in Neighbours(a)
  {
    NeighboursExactly(a, b);
  }

  /** Taking the mirrored offset 5 - k undoes offset k, across all three tables. */
  lemma OffsetMirror(c: Cell, k: int)
    requires 0 <= k < 6
    ensures Offset(Offset(c, k), 5 - k) == c
  {
    var d := Offset(c, k);
    if c.row < MiddleRow - 1 || c.row > MiddleRow + 1 || RowDiff[k] == 0 {
      assert ColDiff(d.row) == ColDiff(c.row);
    }
  }

  /** Adjacency is symmetric. */
  lemma AdjacentSymmetric(a: Cell, b: Cell)
    requires Adjacent(a, b)
    ensures Adjacent(b, a)
  {
    var k :| 0 <= k < 6 && b == Offset(a, k);
    OffsetMirror(a, k);
    assert a == Offset(b, 5 - k);
  }

  /** No cell is its own neighbour. */
  lemma AdjacentIrreflexive(c: Cell)
    ensures !Adjacent(c, c)
  {
    assert forall k :: 0 <= k < 6 ==> RowDiff[k] != 0 || ColDiff(c.row)[k] != 0;
  }

  /** Distinct offsets reach distinct coordinates. */
  lemma OffsetsDistinct(c: Cell, k: int, m: int)
    requires 0 <= k < 6 && 0 <= m < 6 && k != m
    ensures Offset(c, k) != Offset(c, m)
  {
  }

  /** A partial neighbour list never repeats a cell. */
  lemma {:induction false} NeighboursUpToDistinct(c: Cell, k: int)
    requires 0 <= k <= 6
    ensures forall p, q :: 0 <= p < q < |NeighboursUpTo(c, k)| ==> NeighboursUpTo(c, k)[p] != NeighboursUpTo(c, k)[q]
    decreases k
  {
    if k > 0 {
      NeighboursUpToDistinct(c, k - 1);
      var o := Offset(c, k - 1);
      InNeighboursUpTo(c, k - 1, o);
      forall m | 0 <= m < k - 1
        ensures o != Offset(c, m)
      {
        OffsetsDistinct(c, k - 1, m);
      }
    }
  }

  /** The neighbour list never repeats a cell, so its length is the cell's degree. */
  lemma NeighboursDistinct(c: Cell)
    ensures forall p, q :: 0 <= p < q < |Neighbours(c)| ==> Neighbours(c)[p] != Neighbours(c)[q]
  {
    NeighboursUpToDistinct(c, 6);
  }

  /** When every one of the first k offsets stays on the grid, all of them are kept. */
  lemma {:induction false} AllOffsetsKept(c: Cell, k: int)
    requires 0 <= k <= 6
    requires forall m :: 0 <= m < k ==> IsCell(Offset(c, m))
    ensures |NeighboursUpTo(c, k)| == k
    decreases k
  {
    if k > 0 {
      AllOffsetsKept(c, k - 1);
    }
  }

  /** Offsets that stay on the grid are kept: at least as many neighbours as such offsets in a prefix. */
  lemma {:induction false} KeptOffsetsCount(c: Cell, k: int, m1: int, m2: int)
    requires 0 <= m1 < m2 < k <= 6
    requires IsCell(Offset(c, m1)) && IsCell(Offset(c, m2))
    ensures |NeighboursUpTo(c, k)| >= 2
    decreases k
  {
    if m2 < k - 1 {
      KeptOffsetsCount(c, k - 1, m1, m2);
    } else {
      InNeighboursUpTo(c, k - 1, Offset(c, m1));
      assert |NeighboursUpTo(c, k - 1)| >= 1;
    }
  }

  /** Every cell that is not on the border has exactly six neighbours. */
  lemma InteriorDegree(c: Cell)
    requires IsCell(c) && !IsBorder(c)
    ensures |Neighbours(c)| == 6
  {
    AllOffsetsKept(c, 6);
  }

  /** Every cell has between two and six neighbours. */
  lemma DegreeBounds(c: Cell)
    requires IsCell(c)
    ensures 2 <= |Neighbours(c)| <= 6
  {
    if c.row < MiddleRow {
      KeptOffsetsCount(c, 6, 4, 5);
    } else if c.row > MiddleRow {
      KeptOffsetsCount(c, 6, 0, 1);
    } else if c.col < 10 {
      KeptOffsetsCount(c, 6, 1, 4);
    } else {
      KeptOffsetsCount(c, 6, 0, 5);
    }
  }

  /** The single cell of row 0 has two neighbours, the least degree. */
  lemma TopCornerDegree()
    ensures Neighbours(Cell(0, 0)) == [Cell(1, 0), Cell(1, 1)]
  {
    assert NeighboursUpTo(Cell(0, 0), 2) == [];
    assert NeighboursUpTo(Cell(0, 0), 4) == [];
  }

  /** The single cell of row 20 has two neighbours, the least degree. */
  lemma BottomCornerDegree()
    ensures Neighbours(Cell(20, 0)) == [Cell(19, 1), Cell(19, 0)]
  {
    assert NeighboursUpTo(Cell(20, 0), 2) == [Cell(19, 1), Cell(19, 0)];
  }

  /** The first cell of the middle row has three neighbours, not the least degree. */
  lemma MiddleStartDegree()
    ensures Neighbours(Cell(MiddleRow, 0)) == [Cell(9, 0), Cell(10, 1), Cell(11, 0)]
  {
    var c := Cell(MiddleRow, 0);
    assert NeighboursUpTo(c, 2) == [Cell(9, 0)];
    assert NeighboursUpTo(c, 4) == [Cell(9, 0), Cell(10, 1)];
    assert NeighboursUpTo(c, 5) == [Cell(9, 0), Cell(10, 1), Cell(11, 0)];
  }

  /** The last cell of the middle row has three neighbours, not the least degree. */
  lemma MiddleEndDegree()
    ensures Neighbours(Cell(MiddleRow, 10)) == [Cell(9, 9), Cell(10, 9), Cell(11, 9)]
  {
    var c := Cell(MiddleRow, 10);
    assert NeighboursUpTo(c, 2) == [Cell(9, 9)];
    assert NeighboursUpTo(c, 5) == [Cell(9, 9), Cell(10, 9)];
  }
}
