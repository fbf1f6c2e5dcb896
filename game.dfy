/**
 * The rules of a turn and the status line, stated over a snapshot of the
 * game: whose turn it is, the cat's cell and the set of blocked cells.
 * `Model.updateBoard` and `Model.getFeedback` are proved against these.
 */
module Game {
  import opened Board
  import opened Escape

  datatype State = State(catsTurn: bool, cat: Cell, blocked: set<Cell>)

  /** Which sprite the view is told to draw after a cat move. */
  datatype Facing = Left | Right

  /** Why a submitted move or placement was refused; each has its own error dialog or exception. */
  datatype Rejection =
    | GameAlreadyOver   // "Game is over"
    | OffBoard          // the grid lookup throws an index-out-of-bounds exception
    | TargetBlocked     // "Weak Cat Error"
    | NotAdjacent       // "Teleportation Error"
    | CellTaken         // "Owner Move Error": the cell is blocked or holds the cat

  datatype Outcome = CatMoved(facing: Facing) | BlockerPlaced | Rejected(reason: Rejection)

  const CatsTurnText: string := "It's the cat's turn to move!"
  const OwnersTurnText: string := "It's the owner's turn to move!"
  const CatWinsText: string := "Game over. The cat wins!"
  const OwnerWinsText: string := "Game over. The owner wins!"

  /** `gameOver`: the cat stands on a border cell, or it has no escape route. */
  ghost predicate IsOver(s: State)
    requires IsCell(s.cat)
  {
    IsBorder(s.cat) || !CanEscape(s.blocked, s.cat)
  }

  /**
   * The facing of a cat moving from `from` to `to`: by the column when it
   * changes, otherwise by whether the destination row lies beyond the middle
   * row in the direction of travel.
   */
  function CatFacing(from: Cell, to: Cell): Facing
  {
    if to.col > from.col then Right
    else if to.col < from.col then Left
    else if (to.row > from.row && to.row > MiddleRow) || (to.row < from.row && to.row < MiddleRow) then Right
    else Left
  }

  /**
   * Twice the horizontal position of a cell's centre when every row is drawn
   * centred on a common vertical axis (half-cell steps become whole numbers).
   */
  function ScreenX(c: Cell): int
    requires IsCell(c)
  {
    2 * c.col - (RowLength(c.row) - 1)
  }

  /**
   * Every step to a neighbour moves sideways on the centred layout, and the
   * cat faces right exactly when it moves to the right: the tie-break on
   * same-column moves is what makes this hold on both sides of the middle row.
   */
  lemma FacingFollowsLayout(from: Cell, to: Cell)
    requires Adjacent(from, to)
    ensures IsCell(to)
    ensures ScreenX(to) != ScreenX(from)
    ensures CatFacing(from, to) == Right <==> ScreenX(to) > ScreenX(from)
  {
    var k :| 0 <= k < 6 && to == Offset(from, k);
    FacingOfOffset(from, k);
  }

  /** The same for one offset of the table of `from`'s row. */
  lemma FacingOfOffset(from: Cell, k: int)
    requires 0 <= k < 6 && IsCell(from) && IsCell(Offset(from, k))
    ensures ScreenX(Offset(from, k)) != ScreenX(from)
    ensures CatFacing(from, Offset(from, k)) == Right <==> ScreenX(Offset(from, k)) > ScreenX(from)
  {
    if RowDiff[k] == 0 {
      assert Offset(from, k).row == from.row;
    } else if from.row < MiddleRow {
      assert ColDiff(from.row) == UpperColDiff;
    } else if from.row == MiddleRow {
      assert ColDiff(from.row) == MiddleColDiff;
    } else {
      assert ColDiff(from.row) == LowerColDiff;
    }
  }

  /** `updateBoard(i, j)` on a snapshot: the new snapshot and what the view is told. */
  ghost function Step(s: State, i: int, j: int): (State, Outcome)
    requires IsCell(s.cat)
  {
    if IsOver(s) then (s, Rejected(GameAlreadyOver))
    else if s.catsTurn then CatStep(s, i, j)
    else OwnerStep(s, i, j)
  }

  /** The cat's turn of a game that is not over: the target must be on the grid, unblocked and a neighbour. */
  function CatStep(s: State, i: int, j: int): (State, Outcome)
  {
    var t := Cell(i, j);
    if !IsCell(t) then (s, Rejected(OffBoard))
    else if t in s.blocked then (s, Rejected(TargetBlocked))
    else if !Adjacent(s.cat, t) then (s, Rejected(NotAdjacent))
    else (State(false, t, s.blocked), CatMoved(CatFacing(s.cat, t)))
  }

  /** The owner's turn of a game that is not over: the target must be on the grid, unblocked and not the cat's. */
  function OwnerStep(s: State, i: int, j: int): (State, Outcome)
  {
    var t := Cell(i, j);
    if !IsCell(t) then (s, Rejected(OffBoard))
    else if t in s.blocked || t == s.cat then (s, Rejected(CellTaken))
    else (State(true, s.cat, s.blocked + {t}), BlockerPlaced)
  }

  /** `getFeedback`'s result: whose turn it is, or who won once the game is over. */
  ghost function Status(s: State): string
    requires IsCell(s.cat)
  {
    if !IsOver(s) then
      if s.catsTurn then CatsTurnText else OwnersTurnText
    else if CanEscape(s.blocked, s.cat) then CatWinsText
    else OwnerWinsText
  }

  /**
   * The invariant every reachable game keeps: the cat is on the grid and not
   * on a blocked cell, and a cat on the border still has an escape route.
   */
  ghost predicate Consistent(s: State)
  {
    && IsCell(s.cat)
    && s.cat !in s.blocked
    && (IsBorder(s.cat) ==> CanEscape(s.blocked, s.cat))
  }

  /** A rejected call changes nothing; an accepted one flips the turn exactly once. */
  lemma TurnAlternation(s: State, i: int, j: int)
    requires IsCell(s.cat)
    ensures Step(s, i, j).1.Rejected? ==> Step(s, i, j).0 == s
    ensures !Step(s, i, j).1.Rejected? ==> Step(s, i, j).0.catsTurn == !s.catsTurn
  {
  }

  /** No cell is ever unblocked, and at most the one target cell becomes blocked. */
  lemma BlockedOnlyGrows(s: State, i: int, j: int)
    requires IsCell(s.cat)
    ensures s.blocked <= Step(s, i, j).0.blocked <= s.blocked + {Cell(i, j)}
  {
  }

  /** The cat's turn: a move succeeds exactly onto an unblocked neighbour, and then the cat is there. */
  lemma CatMoveRule(s: State, i: int, j: int)
    requires IsCell(s.cat) && s.catsTurn && !IsOver(s) && IsCell(Cell(i, j))
    ensures Step(s, i, j).1.CatMoved? <==> Cell(i, j) !in s.blocked && Adjacent(s.cat, Cell(i, j))
    ensures Step(s, i, j).1.CatMoved? ==> Step(s, i, j).0 == State(false, Cell(i, j), s.blocked)
    ensures !Step(s, i, j).1.CatMoved? ==> Step(s, i, j).0 == s
  {
  }

  /** Under the cat's own cell the target is never a neighbour, so the cat cannot stay put. */
  lemma CatCannotStay(s: State)
    requires IsCell(s.cat) && s.catsTurn && !IsOver(s)
    ensures Step(s, s.cat.row, s.cat.col).0 == s
    ensures s.cat !in s.blocked ==> Step(s, s.cat.row, s.cat.col).1 == Rejected(NotAdjacent)
  {
    AdjacentIrreflexive(s.cat);
  }

  /** The owner's turn: a placement succeeds exactly on an unblocked cell without the cat. */
  lemma OwnerMoveRule(s: State, i: int, j: int)
    requires IsCell(s.cat) && !s.catsTurn && !IsOver(s) && IsCell(Cell(i, j))
    ensures Step(s, i, j).1 == BlockerPlaced <==> Cell(i, j) !in s.blocked && Cell(i, j) != s.cat
    ensures Step(s, i, j).1 == BlockerPlaced ==> Step(s, i, j).0 == State(true, s.cat, s.blocked + {Cell(i, j)})
    ensures Step(s, i, j).1 != BlockerPlaced ==> Step(s, i, j).0 == s
  {
  }

  /** Once the game is over, every call is refused and nothing changes. */
  lemma TerminalStable(s: State, i: int, j: int)
    requires IsCell(s.cat) && IsOver(s)
    ensures Step(s, i, j) == (s, Rejected(GameAlreadyOver))
  {
  }

  /** A cat that steps from `from` onto the border can step straight back, so it still has a route. */
  lemma SteppedOntoBorder(blocked: set<Cell>, from: Cell, t: Cell)
    requires from !in blocked && t !in blocked
    requires Adjacent(from, t) && IsBorder(t)
    ensures CanEscape(blocked, t)
  {
    AdjacentSymmetric(from, t);
    if IsCell(from) && IsBorder(from) {
      EscapeByOneStep(blocked, t, from);
    } else {
      ExtendWalk([t], blocked, t, from);
      ExtendWalk([t, from], blocked, t, t);
      assert IsEscapePath([t, from, t], blocked, t);
    }
  }

  /** Every turn keeps the invariant. */
  lemma StepKeepsConsistent(s: State, i: int, j: int)
    requires IsCell(s.cat)
    ensures Consistent(s) ==> Consistent(Step(s, i, j).0)
  {
    var t := Cell(i, j);
    if !Consistent(s) {
    } else if !IsOver(s) && IsCell(t) && s.catsTurn && t !in s.blocked && Adjacent(s.cat, t) {
      assert Step(s, i, j).0 == State(false, t, s.blocked);
      if IsBorder(t) {
        SteppedOntoBorder(s.blocked, s.cat, t);
      }
    } else {
      assert Step(s, i, j).0.cat == s.cat;
      assert Step(s, i, j).0.blocked <= s.blocked + {t};
    }
  }

  /**
   * In every consistent snapshot the winner is the cat exactly when it stands
   * on the border or still has an escape route.
   */
  lemma WinnerRule(s: State)
    requires Consistent(s) && IsOver(s)
    ensures Status(s) == CatWinsText <==> IsBorder(s.cat) || CanEscape(s.blocked, s.cat)
    ensures Status(s) == OwnerWinsText <==> !IsBorder(s.cat) && !CanEscape(s.blocked, s.cat)
  {
  }

  /** Before the game ends the status names the player to move, from the turn flag. */
  lemma StatusNamesTurn(s: State)
    requires IsCell(s.cat) && !IsOver(s)
    ensures Status(s) == CatsTurnText <==> s.catsTurn
    ensures Status(s) == OwnersTurnText <==> !s.catsTurn
  {
  }

  /** A cat stepping onto an unblocked border neighbour ends the game and wins it. */
  lemma ImmediateEdgeWin(s: State, i: int, j: int)
    requires Consistent(s) && s.catsTurn && !IsOver(s)
    requires Adjacent(s.cat, Cell(i, j)) && Cell(i, j) !in s.blocked && IsBorder(Cell(i, j))
    ensures Step(s, i, j).1.CatMoved?
    ensures IsOver(Step(s, i, j).0)
    ensures Status(Step(s, i, j).0) == CatWinsText
  {
    StepKeepsConsistent(s, i, j);
  }

  /** A cat with every neighbour blocked has lost. */
  lemma FullEncirclement(s: State)
    requires IsCell(s.cat)
    requires forall y :: Adjacent(s.cat, y) ==> y in s.blocked
    ensures IsOver(s)
    ensures Status(s) == OwnerWinsText
  {
    EncircledCannotEscape(s.blocked, s.cat);
  }

  /** From the starting cell a move two columns along is refused as a teleport. */
  lemma TeleportRefused(blocked: set<Cell>)
    requires Consistent(State(true, Cell(10, 5), blocked)) && !IsOver(State(true, Cell(10, 5), blocked))
    requires Cell(10, 7) !in blocked
    ensures Step(State(true, Cell(10, 5), blocked), 10, 7) == (State(true, Cell(10, 5), blocked), Rejected(NotAdjacent))
  {
    assert forall k :: 0 <= k < 6 ==> MiddleColDiff[k] <= 1;
  }
}
