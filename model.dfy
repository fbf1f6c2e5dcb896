/**
 * `Model.java`: the engine that owns the grid of vertex objects, the cat's
 * vertex and the turn flag. The vertex objects, the ragged array that holds
 * them and the flags the source mutates in place are kept; every method is
 * proved against the adjacency of `Board`, the escape predicate of `Escape`
 * and the turn rules of `Game`.
 */
module ChatNoir {
  import opened Board
  import opened Escape
  import opened Game
  import opened Blockers

  /** How a helper that may refuse (`moveCat`, `setBlocked`) came out. */
  datatype Attempt = Done | Refused(reason: Rejection)

  /** One cell of the grid (the source's inner class `Vertex`). */
  class Vertex {
    const row: int
    const col: int
    /** Scratch mark of the escape search. */
    var visited: bool
    var blocked: bool
    var borderVertex: bool
    var adjacentVertices: seq<Vertex>
    /** The coordinates `adjacentVertices` is to stand for, in order (specification only). */
    ghost const around: seq<Cell>

    constructor (i: int, j: int)
      ensures row == i && col == j
      ensures forall c {:trigger Neighbours(c)} :: c == Cell(i, j) ==> around == Neighbours(c)
      ensures !visited && !blocked && !borderVertex && adjacentVertices == []
    {
      row, col := i, j;
      around := Neighbours(Cell(i, j));
      visited, blocked, borderVertex := false, false, false;
      adjacentVertices := [];
    }

    /** The coordinate this vertex stands for. */
    function Pos(): Cell
    {
      Cell(row, col)
    }
  }

  /** A fresh vertex that `initialize` has not touched yet. */
  ghost predicate Untouched(v: Vertex)
    reads v
  {
    !v.visited && !v.blocked && !v.borderVertex && v.adjacentVertices == []
  }

  class Model {
    var catsTurn: bool
    var vertices: array?<array<Vertex>>
    var catPosition: Vertex?

    /** The row arrays of the grid. */
    ghost var RowArrays: set<array<Vertex>>
    /** Every vertex of the grid. */
    ghost var Cells: set<Vertex>

    /**
     * The grid: 21 rows of the lengths `RowLength` gives, `vertices[i][j]`
     * the vertex of coordinate (i, j), and every vertex in exactly that slot.
     */
    ghost predicate Grid()
      reads this`vertices, this`RowArrays, this`Cells, vertices, RowArrays
    {
      && vertices != null
      && vertices.Length == Rows
      && (forall i :: 0 <= i < Rows ==> vertices[i] in RowArrays && vertices[i].Length == RowLength(i))
      && (forall i, j :: 0 <= i < Rows && 0 <= j < RowLength(i) ==> vertices[i][j] in Cells && vertices[i][j].Pos() == Cell(i, j))
      && (forall v :: v in Cells ==> IsCell(v.Pos()) && vertices[v.row][v.col] == v)
    }

    /**
     * Every vertex of the grid records the neighbour coordinates of its own
     * coordinate. (The trigger keeps the neighbour list from being unfolded
     * for every vertex a proof mentions.)
     */
    ghost predicate Surveyed()
      reads this`Cells
    {
      forall v {:trigger Neighbours(v.Pos())} :: v in Cells ==> v.around == Neighbours(v.Pos())
    }

    /** The adjacency list of `v` holds vertices of the grid standing for `v.around`, in that order. */
    ghost predicate LinkedTo(v: Vertex)
      reads this`Cells, v`adjacentVertices
    {
      && |v.adjacentVertices| == |v.around|
      && forall k :: 0 <= k < |v.adjacentVertices| ==>
           v.adjacentVertices[k] in Cells && v.adjacentVertices[k].Pos() == v.around[k]
    }

    /** The static graph `initialize` builds: the grid, the border flags and the adjacency lists. */
    ghost predicate Structure()
      reads this`vertices, this`RowArrays, this`Cells, vertices, RowArrays, Cells`borderVertex, Cells`adjacentVertices
    {
      && Grid()
      && Surveyed()
      && (forall v :: v in Cells ==> v.borderVertex == IsBorder(v.Pos()))
      && (forall v :: v in Cells ==> LinkedTo(v))
    }

    /** The object invariant between calls: the cat is on an unblocked vertex and no scratch mark is left. */
    ghost predicate Valid()
      reads this`vertices, this`RowArrays, this`Cells, this`catPosition, vertices, RowArrays, Cells`borderVertex, Cells`adjacentVertices, Cells`blocked, Cells`visited
    {
      && Structure()
      && catPosition != null && catPosition in Cells
      && !catPosition.blocked
      && (forall v :: v in Cells ==> !v.visited)
    }

    /** The coordinates of the blocked vertices. */
    ghost function BlockedCells(): set<Cell>
      reads this`Cells, Cells`blocked
    {
      set v | v in Cells && v.blocked :: v.Pos()
    }

    /** The game as the rules see it. */
    ghost function Snapshot(): State
      requires catPosition != null
      reads this, Cells`blocked
    {
      State(catsTurn, catPosition.Pos(), BlockedCells())
    }

    /** Two vertices of the grid with the same coordinate are the same object. */
    lemma PosUnique(u: Vertex, w: Vertex)
      requires Grid() && u in Cells && w in Cells
      ensures u.Pos() == w.Pos() ==> u == w
    {
    }

    /** A vertex's flag and the blocked set agree. */
    lemma BlockedFlag(v: Vertex)
      requires Grid() && v in Cells
      ensures v.blocked <==> v.Pos() in BlockedCells()
    {
      if v.Pos() in BlockedCells() {
        var u :| u in Cells && u.blocked && u.Pos() == v.Pos();
        PosUnique(u, v);
      }
    }

    /**
     * Between calls the snapshot has the cat on an unblocked cell of the grid,
     * so it is consistent as soon as a cat on the border can escape.
     */
    lemma ValidSnapshot()
      requires Valid()
      ensures IsCell(Snapshot().cat) && Snapshot().cat !in Snapshot().blocked
      ensures Consistent(Snapshot()) <==> (IsBorder(Snapshot().cat) ==> CanEscape(Snapshot().blocked, Snapshot().cat))
    {
      BlockedFlag(catPosition);
    }

    /** Being in an adjacency list is adjacency of the coordinates. */
    lemma LinkedMeansAdjacent(u: Vertex, w: Vertex)
      requires Structure() && u in Cells && w in Cells
      ensures w in u.adjacentVertices <==> Adjacent(u.Pos(), w.Pos())
    {
      assert LinkedTo(u);
      AdjacentListed(u.Pos(), w.Pos());
      if w in u.adjacentVertices {
        var k :| 0 <= k < |u.adjacentVertices| && u.adjacentVertices[k] == w;
        assert Neighbours(u.Pos())[k] == w.Pos();
      }
      if Adjacent(u.Pos(), w.Pos()) {
        var k :| 0 <= k < |Neighbours(u.Pos())| && Neighbours(u.Pos())[k] == w.Pos();
        PosUnique(u.adjacentVertices[k], w);
      }
    }

    /** The state before the first `initialize`: no grid and no cat yet. */
    constructor ()
      ensures vertices == null && catPosition == null && !catsTurn
      ensures RowArrays == {} && Cells == {}
    {
      catsTurn := false;
      vertices := null;
      catPosition := null;
      RowArrays := {};
      Cells := {};
    }

    /** One row of the ragged array: `n` fresh vertices of coordinates (i, 0) .. (i, n - 1). */
    static method NewRow(i: int, n: int) returns (row: array<Vertex>, ghost made: set<Vertex>)
      requires n >= 0
      ensures fresh(row) && row.Length == n
      ensures forall j :: 0 <= j < n ==> row[j] in made && row[j].Pos() == Cell(i, j)
      ensures forall v {:trigger Neighbours(v.Pos())} :: v in made ==> v.around == Neighbours(v.Pos())
      ensures forall v :: v in made ==> fresh(v) && Untouched(v) && v.row == i && 0 <= v.col < n && row[v.col] == v
    {
      var vs: seq<Vertex> := [];
      made := {};
      var j := 0;
      while j < n
        invariant 0 <= j <= n && |vs| == j
        invariant forall k :: 0 <= k < j ==> vs[k] in made && vs[k].Pos() == Cell(i, k)
        invariant forall v {:trigger Neighbours(v.Pos())} :: v in made ==> v.around == Neighbours(v.Pos())
        invariant forall v :: v in made ==> fresh(v) && Untouched(v) && v.row == i && 0 <= v.col < j && vs[v.col] == v
      {
        var v := new Vertex(i, j);
        vs, made := vs + [v], made + {v};
        j := j + 1;
      }
      row := new Vertex[n](k requires 0 <= k < n => vs[k]);
    }

    /** The first half of the ragged array: rows 0..10, of lengths 1..11. */
    static method NewUpperRows() returns (rows: seq<array<Vertex>>, ghost cells: set<Vertex>)
      ensures |rows| == MiddleRow + 1
      ensures forall r :: 0 <= r <= MiddleRow ==> fresh(rows[r]) && rows[r].Length == RowLength(r)
      ensures forall r, j :: 0 <= r <= MiddleRow && 0 <= j < RowLength(r) ==> rows[r][j] in cells && rows[r][j].Pos() == Cell(r, j)
      ensures forall v {:trigger Neighbours(v.Pos())} :: v in cells ==> v.around == Neighbours(v.Pos())
      ensures forall v :: v in cells ==> fresh(v) && Untouched(v) && 0 <= v.row <= MiddleRow && 0 <= v.col < RowLength(v.row) && rows[v.row][v.col] == v
    {
      rows, cells := [], {};
      var i := 0;
      while i <= 10
        invariant 0 <= i <= 11 && |rows| == i
        invariant forall r :: 0 <= r < i ==> fresh(rows[r]) && rows[r].Length == RowLength(r)
        invariant forall r, j :: 0 <= r < i && 0 <= j < RowLength(r) ==> rows[r][j] in cells && rows[r][j].Pos() == Cell(r, j)
        invariant forall v {:trigger Neighbours(v.Pos())} :: v in cells ==> v.around == Neighbours(v.Pos())
        invariant forall v :: v in cells ==> fresh(v) && Untouched(v) && 0 <= v.row < i && 0 <= v.col < RowLength(v.row) && rows[v.row][v.col] == v
      {
        var row, made := NewRow(i, i + 1);
        rows, cells := rows + [row], cells + made;
        i := i + 1;
      }
    }

    /** The second half of the ragged array: rows 20 - i for i = 9 down to 0, of lengths 10..1. */
    static method NewLowerRows() returns (rows: seq<array<Vertex>>, ghost cells: set<Vertex>)
      ensures |rows| == Rows - MiddleRow - 1
      ensures forall k :: 0 <= k < |rows| ==> fresh(rows[k]) && rows[k].Length == RowLength(MiddleRow + 1 + k)
      ensures forall k, j :: 0 <= k < |rows| && 0 <= j < RowLength(MiddleRow + 1 + k) ==>
                rows[k][j] in cells && rows[k][j].Pos() == Cell(MiddleRow + 1 + k, j)
      ensures forall v {:trigger Neighbours(v.Pos())} :: v in cells ==> v.around == Neighbours(v.Pos())
      ensures forall v :: v in cells ==>
                fresh(v) && Untouched(v) && MiddleRow < v.row < Rows && 0 <= v.col < RowLength(v.row) && rows[v.row - MiddleRow - 1][v.col] == v
    {
      rows, cells := [], {};
      var i := 9;
      while i >= 0
        invariant -1 <= i <= 9 && |rows| == 9 - i
        invariant forall k :: 0 <= k < 9 - i ==> fresh(rows[k]) && rows[k].Length == RowLength(11 + k)
        invariant forall k, j :: 0 <= k < 9 - i && 0 <= j < RowLength(11 + k) ==> rows[k][j] in cells && rows[k][j].Pos() == Cell(11 + k, j)
        invariant forall v {:trigger Neighbours(v.Pos())} :: v in cells ==> v.around == Neighbours(v.Pos())
        invariant forall v :: v in cells ==>
                    fresh(v) && Untouched(v) && 11 <= v.row < 20 - i && 0 <= v.col < RowLength(v.row) && rows[v.row - 11][v.col] == v
      {
        var row, made := NewRow(20 - i, i + 1);
        rows, cells := rows + [row], cells + made;
        i := i - 1;
      }
    }

    /**
     * The ragged array: rows 0..10 of lengths 1..11, then rows 11..20 of
     * lengths 10..1, each vertex fresh and knowing its coordinate.
     */
    static method NewGrid() returns (grid: array<array<Vertex>>, ghost rowArrays: set<array<Vertex>>, ghost cells: set<Vertex>)
      ensures fresh(grid) && grid.Length == Rows
      ensures rowArrays == set i | 0 <= i < Rows :: grid[i]
      ensures forall i :: 0 <= i < Rows ==> fresh(grid[i]) && grid[i].Length == RowLength(i)
      ensures forall i, j :: 0 <= i < Rows && 0 <= j < RowLength(i) ==> grid[i][j] in cells && grid[i][j].Pos() == Cell(i, j)
      ensures forall v {:trigger Neighbours(v.Pos())} :: v in cells ==> v.around == Neighbours(v.Pos())
      ensures forall v :: v in cells ==> fresh(v) && Untouched(v) && IsCell(v.Pos()) && grid[v.row][v.col] == v
    {
      var upper, upperCells := NewUpperRows();
      var lower, lowerCells := NewLowerRows();
      var rows := upper + lower;
      assert forall i :: 0 <= i <= MiddleRow ==> rows[i] == upper[i];
      assert forall i :: MiddleRow < i < Rows ==> rows[i] == lower[i - MiddleRow - 1];
      cells := upperCells + lowerCells;
      grid := new array<Vertex>[Rows](k requires 0 <= k < Rows => rows[k]);
      rowArrays := set k | 0 <= k < Rows :: grid[k];
    }

    /** The adjacency list of `v` stands for the first `k` offsets of its neighbour list. */
    ghost predicate LinkedUpTo(v: Vertex, k: int)
      requires 0 <= k <= 6
      reads this`Cells, v`adjacentVertices
    {
      var expected := NeighboursUpTo(v.Pos(), k);
      && |v.adjacentVertices| == |expected|
      && forall m :: 0 <= m < |v.adjacentVertices| ==>
           v.adjacentVertices[m] in Cells && v.adjacentVertices[m].Pos() == expected[m]
    }

    /**
     * The k-loop of `initialize` for one vertex: the vertex at each of the six
     * offsets is appended, and an offset whose lookup would throw an
     * index-out-of-bounds exception is skipped.
     */
    method LinkCell(v: Vertex, colDiff: seq<int>)
      requires Grid() && Surveyed() && v in Cells && colDiff == ColDiff(v.row) && v.adjacentVertices == []
      modifies v`adjacentVertices
      ensures LinkedTo(v)
    {
      var k := 0;
      while k < 6
        invariant 0 <= k <= 6 && LinkedUpTo(v, k)
      {
        LinkOffset(v, k, colDiff);
        k := k + 1;
      }
      LinkedAll(v);
    }

    /** After all six offsets the adjacency list stands for the whole neighbour list. */
    lemma LinkedAll(v: Vertex)
      requires Surveyed() && v in Cells && LinkedUpTo(v, 6)
      ensures LinkedTo(v)
    {
      assert v.around == Neighbours(v.Pos());
    }

    /** One round of the k-loop: the vertex at offset `k`, when the lookup stays inside the ragged array. */
    method LinkOffset(v: Vertex, k: int, colDiff: seq<int>)
      requires Grid() && v in Cells && colDiff == ColDiff(v.row) && 0 <= k < 6 && LinkedUpTo(v, k)
      modifies v`adjacentVertices
      ensures LinkedUpTo(v, k + 1)
    {
      var r, c := v.row + RowDiff[k], v.col + colDiff[k];
      assert Offset(v.Pos(), k) == Cell(r, c);
      if 0 <= r < vertices.Length && 0 <= c < vertices[r].Length {
        assert IsCell(Cell(r, c));
        v.adjacentVertices := v.adjacentVertices + [vertices[r][c]];
      } else {
        assert !IsCell(Cell(r, c));
      }
    }

    /** A vertex whose border flag and adjacency list `initialize` has set. */
    ghost predicate Linked(v: Vertex)
      reads this`Cells, v`borderVertex, v`adjacentVertices
    {
      IsCell(v.Pos()) && v.borderVertex == IsBorder(v.Pos()) && LinkedTo(v)
    }

    /** A vertex still as `NewGrid` left it, apart from its scratch and blocked flags. */
    ghost predicate Unlinked(v: Vertex)
      reads v`borderVertex, v`adjacentVertices
    {
      !v.borderVertex && v.adjacentVertices == []
    }

    /** One vertex of the border and adjacency loops: the border test of its row, then the k-loop. */
    method LinkVertex(v: Vertex, border: bool, colDiff: seq<int>)
      requires Grid() && Surveyed() && v in Cells && Unlinked(v)
      requires border == IsBorder(v.Pos()) && colDiff == ColDiff(v.row)
      modifies v`borderVertex, v`adjacentVertices
      ensures Linked(v)
    {
      if border {
        v.borderVertex := true;
      }
      LinkCell(v, colDiff);
    }

    /**
     * One row of the border and adjacency loops: the vertices (r, 0) .. (r, last),
     * the first and the last of them border vertices, linked with the offset
     * table of their half of the grid. No other vertex changes.
     */
    method LinkRow(r: int, last: int, colDiff: seq<int>)
      requires Grid() && Surveyed() && 0 <= r < Rows && last == RowLength(r) - 1 && colDiff == ColDiff(r)
      requires forall v :: v in Cells && v.row == r ==> Unlinked(v)
      modifies Cells`borderVertex, Cells`adjacentVertices
      ensures forall v :: v in Cells && v.row == r ==> Linked(v)
      ensures forall v :: v in Cells && v.row != r ==>
                v.borderVertex == old(v.borderVertex) && v.adjacentVertices == old(v.adjacentVertices)
    {
      ghost var done: set<Vertex> := {};
      var j := 0;
      while j <= last
        invariant 0 <= j <= last + 1
        invariant forall v :: v in Cells ==> (v in done <==> v.row == r && v.col < j)
        invariant forall v :: v in done ==> Linked(v)
        invariant forall v :: v in Cells && v !in done ==>
                    v.borderVertex == old(v.borderVertex) && v.adjacentVertices == old(v.adjacentVertices)
      {
        var w := vertices[r][j];
        assert w in Cells && w.Pos() == Cell(r, j) && w !in done;
        LinkVertex(w, j == 0 || j == last, colDiff);
        done := done + {w};
        j := j + 1;
      }
    }

    /** Rows 0..9 of the border and adjacency loops, with the upper offset table. */
    method LinkUpperHalf()
      requires Grid() && Surveyed()
      requires forall v :: v in Cells ==> Unlinked(v)
      modifies Cells`borderVertex, Cells`adjacentVertices
      ensures forall v :: v in Cells ==> if v.row < MiddleRow then Linked(v) else Unlinked(v)
    {
      var i := 0;
      while i <= 9
        invariant 0 <= i <= 10
        invariant forall v :: v in Cells ==> if v.row < i then Linked(v) else Unlinked(v)
      {
        LinkRow(i, i, UpperColDiff);
        i := i + 1;
      }
    }

    /** Rows 20 - i for i = 9 down to 0 of the border and adjacency loops, with the lower offset table. */
    method LinkLowerHalf()
      requires Grid() && Surveyed()
      requires forall v :: v in Cells ==> if v.row <= MiddleRow then Linked(v) else Unlinked(v)
      modifies Cells`borderVertex, Cells`adjacentVertices
      ensures forall v :: v in Cells ==> Linked(v)
    {
      var i := 9;
      while i >= 0
        invariant -1 <= i <= 9
        invariant forall v :: v in Cells ==> if v.row < 20 - i then Linked(v) else Unlinked(v)
      {
        LinkRow(20 - i, i, LowerColDiff);
        i := i - 1;
      }
    }

    /*
     * The escape search. `queue` is the source's array list, `marked` the
     * vertices whose `visited` flag the search has set, and `routes[k]` a
     * walk from the cat to `queue[k]` that justifies its place in the queue.
     */

    /** The queue starts at the cat, every later entry is marked, and each entry is reached by its route. */
    ghost predicate Queued(queue: seq<Vertex>, marked: set<Vertex>, routes: seq<seq<Cell>>, blocked: set<Cell>, from: Cell)
      reads this
    {
      && |queue| >= 1 && queue[0] == catPosition
      && (forall k :: 0 <= k < |queue| ==> queue[k] in Cells)
      && marked <= Cells
      && (forall k :: 1 <= k < |queue| ==> queue[k] in marked)
      && (forall v :: v in marked ==> v in queue)
      && |routes| == |queue|
      && (forall k :: 0 <= k < |queue| ==> IsWalk(routes[k], blocked, from) && routes[k][|routes[k]| - 1] == queue[k].Pos())
    }

    /** The `visited` flags are exactly the marks, and only unblocked vertices off the border get marked. */
    ghost predicate Marks(marked: set<Vertex>)
      reads this`Cells, Cells`visited, Cells`blocked, Cells`borderVertex
    {
      && marked <= Cells
      && (forall v :: v in Cells ==> (v.visited <==> v in marked))
      && (forall v :: v in marked ==> !v.blocked && !v.borderVertex)
    }

    /** Every unblocked neighbour of the first `n` queue entries has been marked. */
    ghost predicate Closed(queue: seq<Vertex>, n: int, marked: set<Vertex>)
      reads this`Cells, Cells`adjacentVertices, Cells`blocked
    {
      forall k, w :: 0 <= k < n && k < |queue| && queue[k] in Cells && w in queue[k].adjacentVertices && w in Cells ==>
        w.blocked || w in marked
    }

    /** What the search may rely on about the adjacency list of `u`. */
    ghost predicate StepsFrom(u: Vertex, blocked: set<Cell>)
      reads this`Cells, u`adjacentVertices, Cells`blocked, Cells`borderVertex
    {
      && u in Cells && IsCell(u.Pos())
      && forall w :: w in u.adjacentVertices ==>
        && w in Cells
        && w.Pos() in u.around
        && (w.blocked <==> w.Pos() in blocked)
        && (w.borderVertex ==> IsCell(w.Pos()) && IsBorder(w.Pos()))
    }

    /** Every vertex's adjacency list is as `StepsFrom` says. */
    lemma LinksOf(u: Vertex)
      requires Structure() && u in Cells
      ensures StepsFrom(u, BlockedCells())
    {
      assert LinkedTo(u);
      forall w | w in u.adjacentVertices
        ensures w in Cells && w.Pos() in u.around && (w.blocked <==> w.Pos() in BlockedCells())
      {
        var k :| 0 <= k < |u.adjacentVertices| && u.adjacentVertices[k] == w;
        BlockedFlag(w);
      }
    }

    /**
     * A walk to `u` goes on to an unblocked coordinate of `u.around`. (Stated
     * through `around`, so that callers never unfold the neighbour list.)
     */
    lemma StepOnward(route: seq<Cell>, blocked: set<Cell>, from: Cell, u: Vertex, x: Cell)
      requires Surveyed() && u in Cells && IsCell(u.Pos())
      requires IsWalk(route, blocked, from) && route[|route| - 1] == u.Pos()
      requires x in u.around && x !in blocked
      ensures IsWalk(route + [x], blocked, from)
    {
      assert u.around == Neighbours(u.Pos());
      AdjacentListed(u.Pos(), x);
      ExtendWalk(route, blocked, from, x);
    }

    /** Appending a vertex with its route keeps the queue's bookkeeping. */
    lemma Enqueue(queue: seq<Vertex>, marked: set<Vertex>, routes: seq<seq<Cell>>, blocked: set<Cell>, from: Cell, w: Vertex, route: seq<Cell>)
      requires Queued(queue, marked, routes, blocked, from)
      requires w in Cells && IsWalk(route, blocked, from) && route[|route| - 1] == w.Pos()
      ensures Queued(queue + [w], marked + {w}, routes + [route], blocked, from)
    {
      var q, r := queue + [w], routes + [route];
      assert forall k :: 0 <= k < |queue| ==> q[k] == queue[k] && r[k] == routes[k];
      assert q[|queue|] == w && r[|queue|] == route;
    }

    /**
     * When the whole queue has been processed without an escape, the cells of
     * the queue form a region closed under unblocked steps and free of border
     * cells, so the cat has no escape route.
     */
    lemma TrappedBySearch(queue: seq<Vertex>, marked: set<Vertex>)
      requires Structure() && |queue| >= 1
      requires forall k :: 0 <= k < |queue| ==> queue[k] in Cells
      requires forall v :: v in marked ==> v in queue && !v.blocked && !v.borderVertex
      requires Closed(queue, |queue|, marked)
      ensures !CanEscape(BlockedCells(), queue[0].Pos())
    {
      var blocked := BlockedCells();
      var region := set k | 0 <= k < |queue| :: queue[k].Pos();
      forall x, y | x in region && Adjacent(x, y) && y !in blocked
        ensures y in region && !IsBorder(y)
      {
        var k :| 0 <= k < |queue| && queue[k].Pos() == x;
        assert IsCell(y);
        var w := vertices[y.row][y.col];
        LinkedMeansAdjacent(queue[k], w);
        BlockedFlag(w);
        assert w in marked;
      }
      ClosedRegionTraps(blocked, queue[0].Pos(), region);
    }

    /** The body of the search loop for `queue[index]`: the inner loop over its adjacency list. */
    method Expand(index: int, queue: seq<Vertex>, ghost marked: set<Vertex>, ghost routes: seq<seq<Cell>>, ghost blocked: set<Cell>, ghost from: Cell)
      returns (queue': seq<Vertex>, ghost marked': set<Vertex>, ghost routes': seq<seq<Cell>>, escape: bool)
      requires Surveyed() && Queued(queue, marked, routes, blocked, from) && Marks(marked) && 0 <= index < |queue|
      requires StepsFrom(queue[index], blocked)
      requires Closed(queue, index, marked)
      modifies Cells`visited
      ensures Queued(queue', marked', routes', blocked, from) && Marks(marked')
      ensures queue <= queue' && marked <= marked'
      ensures marked' == marked ==> queue' == queue
      ensures !escape ==> Closed(queue', index + 1, marked')
      ensures escape ==> CanEscape(blocked, from)
    {
      queue', marked', routes', escape := queue, marked, routes, false;
      var u := queue[index];
      var adj := u.adjacentVertices;
      ghost var route := routes[index];
      var i := 0;
      while i < |adj|
        invariant 0 <= i <= |adj|
        invariant Queued(queue', marked', routes', blocked, from) && Marks(marked')
        invariant queue <= queue' && marked <= marked'
        invariant marked' == marked ==> queue' == queue
        invariant forall m :: 0 <= m < i ==> adj[m].Pos() in blocked || adj[m] in marked'
      {
        var found;
        queue', marked', routes', found := Visit(adj[i], u, queue', marked', routes', route, blocked, from);
        if found {
          escape := true;
          return;
        }
        i := i + 1;
      }
      ClosedOneMore(queue, queue', index, marked, marked', blocked);
    }

    /**
     * One entry `w` of the adjacency list of `u`: a blocked or already marked
     * vertex is passed over, a border vertex ends the search with an escape,
     * and any other is marked and queued behind a route one step longer.
     */
    method Visit(w: Vertex, u: Vertex, queue: seq<Vertex>, ghost marked: set<Vertex>, ghost routes: seq<seq<Cell>>, ghost route: seq<Cell>, ghost blocked: set<Cell>, ghost from: Cell)
      returns (queue': seq<Vertex>, ghost marked': set<Vertex>, ghost routes': seq<seq<Cell>>, escape: bool)
      requires Surveyed() && Queued(queue, marked, routes, blocked, from) && Marks(marked)
      requires StepsFrom(u, blocked) && w in u.adjacentVertices
      requires IsWalk(route, blocked, from) && route[|route| - 1] == u.Pos()
      modifies w`visited
      ensures Queued(queue', marked', routes', blocked, from) && Marks(marked')
      ensures queue <= queue' && marked <= marked'
      ensures marked' == marked ==> queue' == queue
      ensures !escape ==> w.Pos() in blocked || w in marked'
      ensures escape ==> CanEscape(blocked, from)
    {
      queue', marked', routes', escape := queue, marked, routes, false;
      assert w in Cells && (w.blocked <==> w.Pos() in blocked);
      if !w.blocked && !w.visited {
        StepOnward(route, blocked, from, u, w.Pos());
        if w.borderVertex {
          assert IsEscapePath(route + [w.Pos()], blocked, from);
          escape := true;
        } else {
          Enqueue(queue, marked, routes, blocked, from, w, route + [w.Pos()]);
          queue', marked', routes' := queue + [w], marked + {w}, routes + [route + [w.Pos()]];
          w.visited := true;
        }
      }
    }

    /** Closing `queue[index]` on top of the entries before it, as the search grows the queue and the marks. */
    lemma ClosedOneMore(queue: seq<Vertex>, queue': seq<Vertex>, index: int, marked: set<Vertex>, marked': set<Vertex>, blocked: set<Cell>)
      requires 0 <= index < |queue| && queue <= queue' && marked <= marked'
      requires Closed(queue, index, marked) && StepsFrom(queue[index], blocked)
      requires forall m :: 0 <= m < |queue[index].adjacentVertices| ==>
        queue[index].adjacentVertices[m].Pos() in blocked || queue[index].adjacentVertices[m] in marked'
      ensures Closed(queue', index + 1, marked')
    {
      forall k, w | 0 <= k < index + 1 && k < |queue'| && queue'[k] in Cells && w in queue'[k].adjacentVertices && w in Cells
        ensures w.blocked || w in marked'
      {
        assert queue'[k] == queue[k];
        if k == index {
          var m :| 0 <= m < |queue[index].adjacentVertices| && queue[index].adjacentVertices[m] == w;
        }
      }
    }

    /** The clearing loop: every vertex the search queued gets its scratch mark reset. */
    method ClearMarks(queue: seq<Vertex>)
      requires forall k :: 0 <= k < |queue| ==> queue[k] in Cells
      requires forall v :: v in Cells && v.visited ==> v in queue
      modifies Cells`visited
      ensures forall v :: v in Cells ==> !v.visited
    {
      var i := 0;
      while i < |queue|
        invariant 0 <= i <= |queue|
        invariant forall v :: v in Cells && v.visited ==> v in queue[i..]
      {
        queue[i].visited := false;
        i := i + 1;
      }
    }

    /**
     * `canCatEscape`: a breadth-first search from the cat's vertex that
     * reports whether an unblocked border vertex is reachable in at least one
     * step, and leaves no scratch mark behind.
     */
    method CanCatEscape() returns (escape: bool)
      requires Valid()
      modifies Cells`visited
      ensures Valid()
      ensures escape <==> CanEscape(BlockedCells(), catPosition.Pos())
    {
      ghost var blocked := BlockedCells();
      AllLinks();
      var queue;
      ghost var marked;
      escape, queue, marked := Search(blocked, catPosition.Pos());
      if !escape {
        TrappedBySearch(queue, marked);
      }
      ClearMarks(queue);
    }

    /** What `StepsFrom` says holds for every vertex of a built grid. */
    lemma AllLinks()
      requires Structure()
      ensures forall v {:trigger StepsFrom(v, BlockedCells())} :: v in Cells ==> StepsFrom(v, BlockedCells())
    {
      forall v | v in Cells
        ensures StepsFrom(v, BlockedCells())
      {
        LinksOf(v);
      }
    }

    /**
     * The search loop of `canCatEscape`. It leaves its marks on the vertices
     * it queued; without an escape, the queue it returns is closed.
     */
    method Search(ghost blocked: set<Cell>, ghost from: Cell) returns (escape: bool, queue: seq<Vertex>, ghost marked: set<Vertex>)
      requires Surveyed() && catPosition != null && catPosition in Cells && from == catPosition.Pos()
      requires forall v {:trigger StepsFrom(v, blocked)} :: v in Cells ==> StepsFrom(v, blocked)
      requires forall v :: v in Cells ==> !v.visited
      modifies Cells`visited
      ensures escape ==> CanEscape(blocked, from)
      ensures |queue| >= 1 && queue[0] == catPosition
      ensures forall k :: 0 <= k < |queue| ==> queue[k] in Cells
      ensures forall v :: v in Cells && v.visited ==> v in queue
      ensures !escape ==> Closed(queue, |queue|, marked)
      ensures forall v :: v in marked ==> v in queue && !v.blocked && !v.borderVertex
    {
      queue := [catPosition];
      marked := {};
      ghost var routes: seq<seq<Cell>> := [[from]];
      var index := 0;
      escape := false;
      while index < |queue| && !escape
        invariant 0 <= index <= |queue|
        invariant Queued(queue, marked, routes, blocked, from) && Marks(marked)
        invariant !escape ==> Closed(queue, index, marked)
        invariant escape ==> CanEscape(blocked, from)
        decreases Cells - marked, |queue| - index
      {
        queue, marked, routes, escape := Expand(index, queue, marked, routes, blocked, from);
        index := index + 1;
      }
    }

    /*
     * The turn methods.
     */

    /** `gameOver`: the cat's border flag first, the escape search only when it is off. */
    method GameOver() returns (over: bool)
      requires Valid()
      modifies Cells`visited
      ensures Valid()
      ensures over == IsOver(Snapshot())
    {
      if catPosition.borderVertex {
        over := true;
      } else {
        var escape := CanCatEscape();
        over := !escape;
      }
    }

    /** Blocking one free vertex that does not hold the cat adds exactly its coordinate to the blocked set. */
    method Block(v: Vertex)
      requires Valid() && v in Cells && !v.blocked && v != catPosition
      modifies v`blocked
      ensures Valid()
      ensures BlockedCells() == old(BlockedCells()) + {v.Pos()}
    {
      v.blocked := true;
    }

    /** `setBlocked`: the owner may block a vertex that is neither blocked nor the cat's. */
    method SetBlocked(v: Vertex) returns (attempt: Attempt)
      requires Valid() && v in Cells
      modifies v`blocked
      ensures Valid()
      ensures attempt == Done <==> !old(v.blocked) && v != catPosition
      ensures attempt == Done ==> BlockedCells() == old(BlockedCells()) + {v.Pos()}
      ensures attempt != Done ==> attempt == Refused(CellTaken) && v.blocked == old(v.blocked)
    {
      if !v.blocked && v != catPosition {
        Block(v);
        attempt := Done;
      } else {
        attempt := Refused(CellTaken);
      }
    }

    /**
     * `moveCat`: an unblocked vertex whose adjacency list holds the cat's
     * vertex becomes the cat's; otherwise the move is refused, for a blocked
     * target before the list is looked at.
     */
    method MoveCat(v: Vertex) returns (attempt: Attempt)
      requires Valid() && v in Cells
      modifies this`catPosition
      ensures Valid()
      ensures attempt == Done <==> !v.blocked && Adjacent(old(catPosition).Pos(), v.Pos())
      ensures attempt == Done ==> catPosition == v
      ensures attempt != Done ==> catPosition == old(catPosition)
      ensures attempt != Done ==> attempt == Refused(if v.blocked then TargetBlocked else NotAdjacent)
    {
      if v.blocked {
        return Refused(TargetBlocked);
      }
      var found := ListsCat(v);
      if found {
        catPosition := v;
        attempt := Done;
      } else {
        attempt := Refused(NotAdjacent);
      }
    }

    /** The scan of `moveCat`: the cat's vertex is in the adjacency list of `v` exactly when `v` is a neighbour of the cat. */
    method ListsCat(v: Vertex) returns (found: bool)
      requires Valid() && v in Cells
      ensures found <==> Adjacent(catPosition.Pos(), v.Pos())
    {
      var i := 0;
      while i < |v.adjacentVertices|
        invariant 0 <= i <= |v.adjacentVertices|
        invariant forall m :: 0 <= m < i ==> v.adjacentVertices[m] != catPosition
      {
        if v.adjacentVertices[i] == catPosition {
          found := true;
          break;
        }
        i := i + 1;
      }
      if i == |v.adjacentVertices| {
        found := false;
      }
      LinkedMeansAdjacent(v, catPosition);
      if found {
        AdjacentSymmetric(v.Pos(), catPosition.Pos());
      } else if Adjacent(catPosition.Pos(), v.Pos()) {
        AdjacentSymmetric(catPosition.Pos(), v.Pos());
      }
    }

    /** The lookup `vertices[i][j]` succeeds exactly for the coordinates of the grid. */
    lemma InGrid(i: int, j: int)
      requires Grid()
      ensures (0 <= i < vertices.Length && 0 <= j < vertices[i].Length) <==> IsCell(Cell(i, j))
    {
    }

    /** `catsTurn = !catsTurn`: the other player is to move. */
    method PassTurn()
      requires Valid()
      modifies this`catsTurn
      ensures Valid() && catsTurn == !old(catsTurn)
    {
      catsTurn := !catsTurn;
    }

    /** The cat's half of `updateBoard`, once the game is known not to be over. */
    method CatTurn(i: int, j: int) returns (outcome: Outcome)
      requires Valid() && catsTurn
      modifies this`catsTurn, this`catPosition
      ensures Valid()
      ensures (Snapshot(), outcome) == CatStep(old(Snapshot()), i, j)
    {
      InGrid(i, j);
      if !(0 <= i < vertices.Length && 0 <= j < vertices[i].Length) {
        return Rejected(OffBoard);
      }
      ghost var s := Snapshot();
      var oldCatRow, oldCatCol := catPosition.row, catPosition.col;
      var v := vertices[i][j];
      BlockedFlag(v);
      var attempt := MoveCat(v);
      assert BlockedCells() == s.blocked;
      if attempt == Done {
        var facing :=
          if j > oldCatCol then Right
          else if j < oldCatCol then Left
          else if (i > oldCatRow && i > 10) || (i < oldCatRow && i < 10) then Right
          else Left;
        assert facing == CatFacing(s.cat, Cell(i, j));
        PassTurn();
        outcome := CatMoved(facing);
        assert Snapshot() == State(false, Cell(i, j), s.blocked);
      } else {
        outcome := Rejected(attempt.reason);
        assert Snapshot() == s;
      }
    }

    /** The owner's half of `updateBoard`, once the game is known not to be over. */
    method OwnerTurn(i: int, j: int) returns (outcome: Outcome)
      requires Valid() && !catsTurn
      modifies this`catsTurn, Cells`blocked
      ensures Valid()
      ensures (Snapshot(), outcome) == OwnerStep(old(Snapshot()), i, j)
    {
      InGrid(i, j);
      if !(0 <= i < vertices.Length && 0 <= j < vertices[i].Length) {
        return Rejected(OffBoard);
      }
      var v := vertices[i][j];
      BlockedFlag(v);
      PosUnique(v, catPosition);
      var attempt := SetBlocked(v);
      if attempt == Done {
        PassTurn();
        outcome := BlockerPlaced;
      } else {
        outcome := Rejected(attempt.reason);
      }
    }

    /**
     * `updateBoard(i, j)`: a cat move on the cat's turn, a blocker on the
     * owner's, each only while the game is not over; the turn flips after an
     * accepted move. A consistent game stays consistent.
     */
    method UpdateBoard(i: int, j: int) returns (outcome: Outcome)
      requires Valid()
      modifies this`catsTurn, this`catPosition, Cells`blocked, Cells`visited
      ensures Valid()
      ensures (Snapshot(), outcome) == Step(old(Snapshot()), i, j)
      ensures Consistent(old(Snapshot())) ==> Consistent(Snapshot())
    {
      StepKeepsConsistent(Snapshot(), i, j);
      outcome := Dispatch(i, j);
    }

    /**
     * The branches of `updateBoard`. `gameOver` is evaluated as often as the
     * conditions of the source evaluate it, and its search leaves no trace.
     */
    method Dispatch(i: int, j: int) returns (outcome: Outcome)
      requires Valid()
      modifies this`catsTurn, this`catPosition, Cells`blocked, Cells`visited
      ensures Valid()
      ensures (Snapshot(), outcome) == Step(old(Snapshot()), i, j)
    {
      var over := false;
      if catsTurn {
        over := GameOver();
      }
      if catsTurn && !over {
        outcome := CatTurn(i, j);
      } else {
        over := GameOver();
        if !over {
          outcome := OwnerTurn(i, j);
        } else {
          outcome := Rejected(GameAlreadyOver);
        }
      }
    }

    /** `getFeedback`'s status line: the player to move, or the winner once the game is over. */
    method GetFeedback() returns (text: string)
      requires Valid()
      modifies Cells`visited
      ensures Valid()
      ensures text == Status(Snapshot())
    {
      var over := GameOver();
      if !over {
        text := if catsTurn then CatsTurnText else OwnersTurnText;
      } else {
        var escape := CanCatEscape();
        text := if escape then CatWinsText else OwnerWinsText;
      }
    }

    /*
     * `initialize`: the grid, its border flags and adjacency lists, the cat
     * in the middle of the board and the random blockers.
     */

    /**
     * The inner do-while of the scatter: draws are consumed until one names
     * a vertex that exists, is not blocked and does not hold the cat, and that
     * vertex is blocked. `placed` is false when the draws run out first.
     */
    method PlaceBlocker(draws: seq<(int, int)>) returns (rest: seq<(int, int)>, placed: bool)
      requires Valid() && Draws(draws)
      modifies Cells`blocked
      ensures Valid()
      ensures placed <==> PlaceOne(old(BlockedCells()), catPosition.Pos(), draws).Some?
      ensures placed ==> PlaceOne(old(BlockedCells()), catPosition.Pos(), draws).value == (BlockedCells(), rest)
    {
      ghost var blocked := BlockedCells();
      ghost var cat := catPosition.Pos();
      rest, placed := draws, false;
      while rest != []
        invariant Valid() && Draws(rest) && BlockedCells() == blocked
        invariant PlaceOne(blocked, cat, rest) == PlaceOne(blocked, cat, draws)
        decreases |rest|
      {
        var randRow, randCol := rest[0].0, rest[0].1;
        rest := rest[1..];
        if !(randCol >= vertices[randRow].Length || vertices[randRow][randCol].blocked || vertices[randRow][randCol] == catPosition) {
          var v := vertices[randRow][randCol];
          BlockedFlag(v);
          PosUnique(v, catPosition);
          Block(v);
          placed := true;
          return;
        }
        if randCol < vertices[randRow].Length {
          BlockedFlag(vertices[randRow][randCol]);
          PosUnique(vertices[randRow][randCol], catPosition);
        }
      }
    }

    /** The for-loop of a pass: `startingBlocked` blockers, each by the inner do-while. */
    method PlacePass(draws: seq<(int, int)>) returns (rest: seq<(int, int)>, placed: bool)
      requires Valid() && Draws(draws)
      modifies Cells`blocked
      ensures Valid()
      ensures placed <==> PlaceMany(old(BlockedCells()), catPosition.Pos(), draws, StartingBlocked).Some?
      ensures placed ==> PlaceMany(old(BlockedCells()), catPosition.Pos(), draws, StartingBlocked).value == (BlockedCells(), rest)
    {
      ghost var blocked := BlockedCells();
      ghost var cat := catPosition.Pos();
      rest := draws;
      var i := 0;
      while i < StartingBlocked
        invariant 0 <= i <= StartingBlocked && Valid() && Draws(rest)
        invariant PlaceMany(blocked, cat, draws, StartingBlocked) == PlaceMany(BlockedCells(), cat, rest, StartingBlocked - i)
      {
        var ok;
        rest, ok := PlaceBlocker(rest);
        if !ok {
          return rest, false;
        }
        i := i + 1;
      }
      placed := true;
    }

    /** One pass of the outer do-while: a pass of blockers, then the escape test. */
    method ScatterPass(draws: seq<(int, int)>) returns (rest: seq<(int, int)>, placed: bool, escape: bool)
      requires Valid() && Draws(draws)
      modifies Cells`blocked, Cells`visited
      ensures Valid() && (placed ==> Draws(rest))
      ensures !placed ==> Scatter(old(BlockedCells()), catPosition.Pos(), draws) == None
      ensures placed ==> (escape <==> CanEscape(BlockedCells(), catPosition.Pos()))
      ensures placed && escape ==> Scatter(old(BlockedCells()), catPosition.Pos(), draws) == Some(BlockedCells())
      ensures placed && !escape ==> |rest| < |draws|
      ensures placed && !escape ==> Scatter(old(BlockedCells()), catPosition.Pos(), draws) == Scatter(BlockedCells(), catPosition.Pos(), rest)
    {
      ghost var before := BlockedCells();
      rest, placed := PlacePass(draws);
      escape := false;
      if placed {
        escape := CanCatEscape();
        ScatterUnfold(before, catPosition.Pos(), draws, BlockedCells(), rest);
      }
    }

    /**
     * The outer do-while of the scatter: passes of blockers until the cat can
     * escape. `complete` is false when the draws run out first.
     */
    method ScatterBlockers(draws: seq<(int, int)>) returns (complete: bool)
      requires Valid() && Draws(draws)
      modifies Cells`blocked, Cells`visited
      ensures Valid()
      ensures complete <==> Scatter(old(BlockedCells()), catPosition.Pos(), draws).Some?
      ensures complete ==> BlockedCells() == Scatter(old(BlockedCells()), catPosition.Pos(), draws).value
      ensures complete ==> CanEscape(BlockedCells(), catPosition.Pos()) && Consistent(Snapshot())
    {
      ghost var blocked := BlockedCells();
      ghost var cat := catPosition.Pos();
      var rest := draws;
      while true
        invariant Valid() && Draws(rest)
        invariant Scatter(blocked, cat, draws) == Scatter(BlockedCells(), cat, rest)
        decreases |rest|
      {
        var placed, escape;
        rest, placed, escape := ScatterPass(rest);
        if !placed {
          return false;
        }
        if escape {
          ValidSnapshot();
          return true;
        }
      }
    }

    /** No vertex is blocked or carries a scratch mark, as after construction. */
    ghost predicate Clean()
      reads this`Cells, Cells`visited, Cells`blocked
    {
      forall v :: v in Cells ==> !v.visited && !v.blocked
    }

    /** The loops of `initialize` that allocate the ragged array and its vertices. */
    method Allocate()
      modifies this`vertices, this`RowArrays, this`Cells
      ensures Grid() && Surveyed() && Clean()
      ensures fresh(vertices) && fresh(RowArrays) && fresh(Cells)
      ensures forall v :: v in Cells ==> Unlinked(v)
    {
      var grid;
      ghost var rowArrays, cells;
      grid, rowArrays, cells := NewGrid();
      vertices, RowArrays, Cells := grid, rowArrays, cells;
    }

    /** The loops of `initialize` that set the border flags and adjacency lists, row by row. */
    method LinkAll()
      requires Grid() && Surveyed()
      requires forall v :: v in Cells ==> Unlinked(v)
      modifies Cells`borderVertex, Cells`adjacentVertices
      ensures forall v :: v in Cells ==> Linked(v)
    {
      LinkUpperHalf();
      LinkRow(MiddleRow, MiddleRow, MiddleColDiff);
      LinkLowerHalf();
    }

    /** The grid of `initialize` with its border flags and adjacency lists, before any vertex is blocked. */
    method Build()
      modifies this`vertices, this`RowArrays, this`Cells
      ensures Structure() && Clean()
      ensures fresh(vertices) && fresh(RowArrays) && fresh(Cells)
    {
      Allocate();
      LinkAll();
    }

    /**
     * `initialize`: the owner moves first, the cat starts at (10, 5), and the
     * blockers are scattered with the given draws of the random generator.
     */
    method Initialize(draws: seq<(int, int)>) returns (complete: bool)
      requires Draws(draws)
      modifies this
      ensures Valid()
      ensures !catsTurn && catPosition.Pos() == Cell(MiddleRow, 5)
      ensures complete <==> Scatter({}, Cell(MiddleRow, 5), draws).Some?
      ensures complete ==> BlockedCells() == Scatter({}, Cell(MiddleRow, 5), draws).value
      ensures complete ==> CanEscape(BlockedCells(), catPosition.Pos()) && Consistent(Snapshot())
      ensures fresh(vertices) && fresh(RowArrays) && fresh(Cells)
    {
      catsTurn := false;
      Build();
      catPosition := vertices[MiddleRow][5];
      assert BlockedCells() == {};
      complete := ScatterBlockers(draws);
    }
  }
}
