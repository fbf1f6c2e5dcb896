/**
 * What `canCatEscape` decides: whether the cat has a route of at least one
 * step, through unblocked cells, to a border cell.
 */
module Escape {
  import opened Board

  /**
   * A route the cat can run from `from`: every later cell is in the
   * neighbour list of the one before it and is not blocked. The first cell
   * itself is not checked, as the search never checks the cat's own cell.
   */
  predicate IsWalk(p: seq<Cell>, blocked: set<Cell>, from: Cell)
  {
    && |p| >= 1
    && p[0] == from
    && forall i :: 0 < i < |p| ==> Adjacent(p[i - 1], p[i]) && p[i] !in blocked
  }

  /** An escape route: a walk of at least one step that ends on a border cell. */
  predicate IsEscapePath(p: seq<Cell>, blocked: set<Cell>, from: Cell)
  {
    && IsWalk(p, blocked, from)
    && |p| >= 2
    && IsCell(p[|p| - 1])
    && IsBorder(p[|p| - 1])
  }

  /** The cat at `from` can escape past the `blocked` cells. */
  ghost predicate CanEscape(blocked: set<Cell>, from: Cell)
  {
    exists p :: IsEscapePath(p, blocked, from)
  }

  /** A walk extended by one unblocked neighbour of its last cell is a walk. */
  lemma ExtendWalk(p: seq<Cell>, blocked: set<Cell>, from: Cell, x: Cell)
    requires IsWalk(p, blocked, from)
    requires Adjacent(p[|p| - 1], x) && x !in blocked
    ensures IsWalk(p + [x], blocked, from)
  {
    var q := p + [x];
    forall i | 0 < i < |q|
      ensures Adjacent(q[i - 1], q[i]) && q[i] !in blocked
    {
      if i < |p| {
        assert q[i - 1] == p[i - 1] && q[i] == p[i];
      }
    }
  }

  /** A step from the cat to an unblocked border neighbour is an escape. */
  lemma EscapeByOneStep(blocked: set<Cell>, from: Cell, b: Cell)
    requires Adjacent(from, b) && b !in blocked && IsBorder(b)
    ensures CanEscape(blocked, from)
  {
    ExtendWalk([from], blocked, from, b);
    assert IsEscapePath([from, b], blocked, from);
  }

  /** Blocking more cells can only take escape routes away. */
  lemma EscapeAntitone(fewer: set<Cell>, more: set<Cell>, from: Cell)
    requires fewer <= more
    requires CanEscape(more, from)
    ensures CanEscape(fewer, from)
  {
    var p :| IsEscapePath(p, more, from);
    assert IsEscapePath(p, fewer, from);
  }

  /**
   * A region holding the start and closed under unblocked steps, none of
   * whose reachable members is a border cell: every cell after the first of
   * a walk stays in it and off the border.
   */
  lemma {:induction false} WalkStaysInRegion(p: seq<Cell>, blocked: set<Cell>, from: Cell, region: set<Cell>, i: int)
    requires IsWalk(p, blocked, from)
    requires from in region
    requires forall x, y :: x in region && Adjacent(x, y) && y !in blocked ==> y in region && !IsBorder(y)
    requires 0 < i < |p|
    ensures p[i] in region && IsCell(p[i]) && !IsBorder(p[i])
    decreases i
  {
    if i > 1 {
      WalkStaysInRegion(p, blocked, from, region, i - 1);
    }
    assert p[i - 1] in region;
    assert Adjacent(p[i - 1], p[i]) && p[i] !in blocked;
  }

  /** The same closed region rules out every escape route. */
  lemma ClosedRegionTraps(blocked: set<Cell>, from: Cell, region: set<Cell>)
    requires from in region
    requires forall x, y :: x in region && Adjacent(x, y) && y !in blocked ==> y in region && !IsBorder(y)
    ensures !CanEscape(blocked, from)
  {
    if CanEscape(blocked, from) {
      var p :| IsEscapePath(p, blocked, from);
      WalkStaysInRegion(p, blocked, from, region, |p| - 1);
    }
  }

  /** A cat whose every neighbour is blocked cannot escape. */
  lemma EncircledCannotEscape(blocked: set<Cell>, from: Cell)
    requires forall y :: Adjacent(from, y) ==> y in blocked
    ensures !CanEscape(blocked, from)
  {
    ClosedRegionTraps(blocked, from, {from});
  }
}
