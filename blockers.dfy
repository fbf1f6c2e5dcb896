/**
 * The random scatter of blockers at the end of `initialize`, stated over the
 * draws of the random generator. Each draw is a pair (row, column) with the
 * row in 0..20 and the column in 0..10; a draw is rejected when the column
 * lies past the end of its row, the cell is already blocked, or it holds the
 * cat. A pass places 11 blockers; passes repeat until the cat can escape.
 * A finite list of draws can run out, which yields `None`.
 */
module Blockers {
  import opened Board
  import opened Escape

  datatype Option<T> = None | Some(value: T)

  /** Blockers placed by one pass of the scatter (`startingBlocked`). */
  const StartingBlocked: int := 11

  /** Draws as the generator produces them: `nextInt(21)` for the row and `nextInt(11)` for the column. */
  predicate Draws(draws: seq<(int, int)>)
  {
    forall k :: 0 <= k < |draws| ==> 0 <= draws[k].0 < Rows && 0 <= draws[k].1 < 11
  }

  /** The rejection test of the inner do-while. */
  predicate Rejected(blocked: set<Cell>, cat: Cell, d: (int, int))
    requires 0 <= d.0 < Rows
  {
    d.1 >= RowLength(d.0) || Cell(d.0, d.1) in blocked || Cell(d.0, d.1) == cat
  }

  /**
   * The inner do-while: consume draws until one is accepted and block that
   * cell; the draws left over come back with the new blocked set.
   */
  function PlaceOne(blocked: set<Cell>, cat: Cell, draws: seq<(int, int)>): (r: Option<(set<Cell>, seq<(int, int)>)>)
    requires Draws(draws)
    ensures r.Some? ==> |r.value.1| < |draws| && Draws(r.value.1)
    decreases |draws|
  {
    if draws == [] then None
    else if Rejected(blocked, cat, draws[0]) then PlaceOne(blocked, cat, draws[1..])
    else Some((blocked + {Cell(draws[0].0, draws[0].1)}, draws[1..]))
  }

  /** The for-loop of a pass: `n` blockers, one after the other. */
  function PlaceMany(blocked: set<Cell>, cat: Cell, draws: seq<(int, int)>, n: nat): (r: Option<(set<Cell>, seq<(int, int)>)>)
    requires Draws(draws)
    ensures r.Some? ==> |r.value.1| <= |draws| - n && Draws(r.value.1)
    decreases n
  {
    if n == 0 then Some((blocked, draws))
    else
      match PlaceOne(blocked, cat, draws)
      case None => None
      case Some((b, rest)) => PlaceMany(b, cat, rest, n - 1)
  }

  /**
   * The outer do-while: a pass of 11 blockers, repeated until the cat has an
   * escape route. The blockers of a pass that leaves the cat trapped stay.
   */
  ghost function Scatter(blocked: set<Cell>, cat: Cell, draws: seq<(int, int)>): Option<set<Cell>>
    requires Draws(draws)
    decreases |draws|
  {
    match PlaceMany(blocked, cat, draws, StartingBlocked)
    case None => None
    case Some((b, rest)) => if CanEscape(b, cat) then Some(b) else Scatter(b, cat, rest)
  }

  /** One pass of the outer do-while: after a completed pass the scatter stops or goes on from there. */
  lemma ScatterUnfold(blocked: set<Cell>, cat: Cell, draws: seq<(int, int)>, b: set<Cell>, rest: seq<(int, int)>)
    requires Draws(draws) && PlaceMany(blocked, cat, draws, StartingBlocked) == Some((b, rest))
    ensures Draws(rest)
    ensures Scatter(blocked, cat, draws) == if CanEscape(b, cat) then Some(b) else Scatter(b, cat, rest)
  {
  }

  /** An accepted draw is a cell of the grid, not blocked before and not the cat's, and only that cell is added. */
  lemma {:induction false} PlaceOneAddsFreshCell(blocked: set<Cell>, cat: Cell, draws: seq<(int, int)>)
    requires Draws(draws)
    ensures PlaceOne(blocked, cat, draws).Some? ==>
      exists c :: IsCell(c) && c !in blocked && c != cat && PlaceOne(blocked, cat, draws).value.0 == blocked + {c}
    decreases |draws|
  {
    if draws != [] {
      if Rejected(blocked, cat, draws[0]) {
        PlaceOneAddsFreshCell(blocked, cat, draws[1..]);
      } else {
        var c := Cell(draws[0].0, draws[0].1);
        assert IsCell(c) && c !in blocked && c != cat;
      }
    }
  }

  /** `n` placements add exactly `n` new cells of the grid, none of them the cat's. */
  lemma {:induction false} PlaceManyCount(blocked: set<Cell>, cat: Cell, draws: seq<(int, int)>, n: nat)
    requires Draws(draws)
    ensures PlaceMany(blocked, cat, draws, n).Some? ==>
      var b := PlaceMany(blocked, cat, draws, n).value.0;
      && blocked <= b
      && |b| == |blocked| + n
      && cat !in b - blocked
      && (forall c :: c in b - blocked ==> IsCell(c))
    decreases n
  {
    if n > 0 {
      PlaceOneAddsFreshCell(blocked, cat, draws);
      match PlaceOne(blocked, cat, draws)
      case None =>
      case Some((b1, rest)) =>
        var c :| IsCell(c) && c !in blocked && c != cat && b1 == blocked + {c};
        PlaceManyCount(b1, cat, rest, n - 1);
    }
  }

  /**
   * A completed scatter leaves the cat an escape route, keeps every earlier
   * blocker, never blocks the cat's cell or a cell off the grid, and has
   * placed a whole number of passes, at least one.
   */
  lemma {:induction false} ScatterResult(blocked: set<Cell>, cat: Cell, draws: seq<(int, int)>)
    requires Draws(draws)
    ensures Scatter(blocked, cat, draws).Some? ==>
      var b := Scatter(blocked, cat, draws).value;
      && CanEscape(b, cat)
      && blocked <= b
      && cat !in b - blocked
      && (forall c :: c in b - blocked ==> IsCell(c))
      && (exists passes :: passes >= 1 && |b| == |blocked| + StartingBlocked * passes)
    decreases |draws|
  {
    PlaceManyCount(blocked, cat, draws, StartingBlocked);
    match PlaceMany(blocked, cat, draws, StartingBlocked)
    case None =>
    case Some((b1, rest)) =>
      if !CanEscape(b1, cat) {
        ScatterResult(b1, cat, rest);
        if Scatter(b1, cat, rest).Some? {
          var b := Scatter(b1, cat, rest).value;
          var passes :| passes >= 1 && |b| == |b1| + StartingBlocked * passes;
          assert |b| == |blocked| + StartingBlocked * (passes + 1);
        }
      } else {
        assert |b1| == |blocked| + StartingBlocked * 1;
      }
  }

  /**
   * Blockers only accumulate, so once the cat is trapped no later pass can
   * free it: the outer do-while goes on until the draws run out.
   */
  lemma {:induction false} ScatterNeverRecovers(blocked: set<Cell>, cat: Cell, draws: seq<(int, int)>)
    requires Draws(draws) && !CanEscape(blocked, cat)
    ensures Scatter(blocked, cat, draws) == None
    decreases |draws|
  {
    PlaceManyCount(blocked, cat, draws, StartingBlocked);
    match PlaceMany(blocked, cat, draws, StartingBlocked)
    case None =>
    case Some((b1, rest)) =>
      if CanEscape(b1, cat) {
        EscapeAntitone(blocked, b1, cat);
      }
      ScatterNeverRecovers(b1, cat, rest);
  }
}
