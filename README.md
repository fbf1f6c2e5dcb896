# Chat Noir rules engine in Dafny

This project models `Model.java`, the back end of a Chat Noir game, and proves
properties of that model. The board is a hexagon drawn as a ragged grid of 21
rows whose lengths run 1, 2, …, 11, …, 2, 1. A cat starts in the middle of the
middle row. The owner moves first. On each turn the owner blocks one free
cell, then the cat steps to an unblocked neighbouring cell. The cat wins by
reaching a border cell. The owner wins when the cat has no route left to the
border.

The model is split into five modules:

- `Board` (`board.dfy`): the grid's shape, its border cells and the adjacency
  the three offset tables produce. Out-of-range offsets are skipped, as the
  caught `IndexOutOfBoundsException` does in `initialize`.
- `Escape` (`escape.dfy`): the reachability property that `canCatEscape`
  decides. It asks for a walk of at least one step, through unblocked
  neighbouring cells, that ends on a border cell.
- `Game` (`game.dfy`): one turn of `updateBoard`, stated over a snapshot
  `State(catsTurn, cat, blocked)`. It also holds the game-over test, the
  left/right facing tag and the status line of `getFeedback`.
- `Blockers` (`blockers.dfy`): the random scatter at the end of `initialize`.
  The draws of the random generator are a parameter.
- `ChatNoir` (`model.dfy`): the imperative engine. The `Model` class owns the
  ragged array of `Vertex` objects, `catPosition` and `catsTurn`. Vertex
  flags (`visited`, `blocked`, `borderVertex`) and adjacency lists are
  mutated in place. The object invariant between calls is `Model.Valid()`.

Every method of `Model` is proved against the modules above:

- `CanCatEscape` returns exactly `CanEscape(blocked cells, cat)` and leaves
  every `visited` flag cleared.
- `UpdateBoard` moves the object from snapshot `s` to `Step(s, i, j).0` and
  reports `Step(s, i, j).1`.
- `GetFeedback` returns `Status(snapshot)`.
- `Initialize` builds the grid and runs `Scatter` on the given draws.

A submitted coordinate off the grid is not a precondition. It is modelled as
the outcome `Rejected(OffBoard)`, standing for the array-index exception the
unchecked lookup `vertices[i][j]` throws.

Behaviour of `Model.java` worth knowing:

- **Earlier blockers stay.** The scatter does not discard a failed batch of
  blockers. A pass that leaves the cat trapped keeps its 11 blockers, and the
  next pass adds 11 more (Model.java:121-133). `Blockers.ScatterNeverRecovers`
  proves that the loop can then never stop: it only ends when the draws run
  out.
- **The game-over status depends only on the search.** It reports "cat wins"
  when `canCatEscape` succeeds and "owner wins" otherwise. It does not also
  test whether the cat already stands on the border (Model.java:308-325).
  `Game.WinnerRule` proves the two readings agree on every snapshot that
  satisfies `Game.Consistent`. `Game.StepKeepsConsistent` proves every turn
  preserves `Consistent`. On the object, `Initialize` establishes it and
  `UpdateBoard` keeps it.
- **The two ends of the middle row have three neighbours.** Only (0, 0) and
  (20, 0) have two, the minimum of `Board.DegreeBounds`. The four corner lemmas
  of `Board` list the neighbours of these cells.

## Model

| member | source | states |
|---|---|---|
| Board.NeighboursUpTo | Model.java:76-83 | the list after k offsets has at most k entries, all of them cells of the grid |
| Board.InNeighboursUpTo | Model.java:76-83 | after the first k offsets, a cell is in the list exactly when it is on the grid and one of those k offsets reaches it |
| Board.NeighboursExactly | Model.java:27-33 | a cell's neighbour list holds exactly the on-grid cells its six offsets reach; out-of-range offsets are skipped |
| Board.AdjacentListed | Model.java:76-111 | for a cell of the grid, being adjacent is the same as being in its neighbour list |
| Board.OffsetMirror | Model.java:27-33 | for every offset k of every table, the mirrored offset 5 - k (taken from the destination's table) leads back |
| Board.AdjacentSymmetric | Model.java:27-33 | adjacency is symmetric across all three offset tables |
| Board.AdjacentIrreflexive | Model.java:27-33 | no cell is its own neighbour |
| Board.NeighboursUpToDistinct | Model.java:76-83 | a partially filled neighbour list has no repeated cell |
| Board.NeighboursDistinct | Model.java:76-111 | a neighbour list has no repeated cell |
| Board.InteriorDegree | Model.java:76-111 | every cell that is not on the border has exactly six neighbours |
| Board.DegreeBounds | Model.java:76-111 | every cell has between two and six neighbours |
| Board.TopCornerDegree | Model.java:76-83 | the single cell of row 0 has exactly the neighbours (1, 0) and (1, 1) |
| Board.BottomCornerDegree | Model.java:104-111 | the single cell of row 20 has exactly the neighbours (19, 1) and (19, 0) |
| Board.MiddleStartDegree | Model.java:87-98 | cell (10, 0) has exactly the three neighbours (9, 0), (10, 1) and (11, 0) |
| Board.MiddleEndDegree | Model.java:87-98 | cell (10, 10) has exactly the three neighbours (9, 9), (10, 9) and (11, 9) |
| Escape.ExtendWalk | Model.java:271-279 | a walk extended by an unblocked neighbour of its last cell is still a walk |
| Escape.EscapeByOneStep | Model.java:272-276 | an unblocked border neighbour of the cat is an escape route |
| Escape.EscapeAntitone | Model.java:121-133 | blocking more cells never creates an escape route |
| Escape.WalkStaysInRegion | Model.java:270-284 | a walk from inside a region closed under unblocked steps stays in it and off the border |
| Escape.ClosedRegionTraps | Model.java:270-284 | a region holding the cat, closed under unblocked steps and free of border cells, rules out escape |
| Escape.EncircledCannotEscape | Model.java:270-284 | a cat whose every neighbour is blocked cannot escape |
| Game.FacingOfOffset | Model.java:150-163 | for each offset, the facing tag is right exactly when the destination lies to the right on the centred layout |
| Game.FacingFollowsLayout | Model.java:150-163 | every move to a neighbour changes the horizontal position, and the tag says right exactly when the move goes right |
| Game.TurnAlternation | Model.java:164-171 | a refused call changes nothing; an accepted one flips the turn |
| Game.BlockedOnlyGrows | Model.java:168-172 | no cell is ever unblocked; at most the target cell becomes blocked |
| Game.CatMoveRule | Model.java:146-149 | on the cat's turn of a live game, a move succeeds exactly onto an unblocked neighbour, which becomes the cat's cell; otherwise nothing changes |
| Game.CatCannotStay | Model.java:217-240 | the cat's own cell is refused as not adjacent, and nothing changes |
| Game.OwnerMoveRule | Model.java:194-208 | on the owner's turn of a live game, a placement succeeds exactly on an unblocked cell without the cat, adding exactly that cell; otherwise nothing changes |
| Game.TerminalStable | Model.java:175-183 | once the game is over every call is refused with nothing changed |
| Game.SteppedOntoBorder | Model.java:146-164 | a cat that steps onto the border can step back, so it still has an escape route |
| Game.StepKeepsConsistent | Model.java:145-184 | from a consistent snapshot every turn keeps the cat on an unblocked cell of the grid, and a cat on the border keeps an escape route |
| Game.WinnerRule | Model.java:308-325 | in a consistent finished game the cat wins exactly when it is on the border or can escape, and the owner wins otherwise |
| Game.StatusNamesTurn | Model.java:298-302 | before the game ends, the status names the cat exactly on the cat's turn and the owner otherwise |
| Game.ImmediateEdgeWin | Model.java:251-257 | a cat stepping onto an unblocked border neighbour ends the game and wins |
| Game.FullEncirclement | Model.java:251-257 | a cat with every neighbour blocked has lost |
| Game.TeleportRefused | Model.java:222-230 | from the starting cell, a move two columns along is refused as a teleport |
| Blockers.PlaceOne | Model.java:124-128 | one placement consumes at least one draw and leaves well-formed draws |
| Blockers.PlaceMany | Model.java:122-132 | n placements consume at least n draws and leave well-formed draws |
| Blockers.PlaceOneAddsFreshCell | Model.java:127-130 | an accepted draw adds exactly one cell of the grid that was neither blocked nor the cat's |
| Blockers.PlaceManyCount | Model.java:122-132 | n placements add exactly n new cells of the grid, none of them the cat's, and keep the earlier ones |
| Blockers.ScatterUnfold | Model.java:121-133 | after a completed pass the scatter either stops, when the cat can escape, or goes on from the new blockers and the remaining draws |
| Blockers.ScatterResult | Model.java:121-133 | a completed scatter leaves the cat an escape route, keeps every earlier blocker, never blocks the cat or an off-grid cell, and has added a positive multiple of 11 blockers |
| Blockers.ScatterNeverRecovers | Model.java:121-133 | once the cat is trapped, the scatter can only end by running out of draws |
| ChatNoir.Vertex.constructor | Model.java:367-371 | a new vertex has its coordinates, an empty adjacency list and every flag off |
| ChatNoir.Model.ValidSnapshot | Model.java:194-208 | between calls the cat is on an unblocked cell of the grid, so the snapshot is consistent exactly when a cat on the border can escape |
| ChatNoir.Model.LinkedMeansAdjacent | Model.java:222-223 | one vertex is in another's adjacency list exactly when their coordinates are adjacent |
| ChatNoir.Model.NewRow | Model.java:57-59 | a fresh row of n vertices, the j-th standing for (i, j) |
| ChatNoir.Model.NewUpperRows | Model.java:56-61 | rows 0..10 with lengths 1..11, each slot holding the vertex of its coordinate |
| ChatNoir.Model.NewLowerRows | Model.java:63-68 | rows 11..20 with lengths 10..1, each slot holding the vertex of its coordinate |
| ChatNoir.Model.NewGrid | Model.java:53-68 | the 21-row ragged array with every vertex fresh, untouched and in the slot of its coordinate |
| ChatNoir.Model.Allocate | Model.java:53-68 | the grid invariant holds, and no vertex is blocked, marked or linked yet |
| ChatNoir.Model.LinkOffset | Model.java:77-82 | for offset k, the vertex there is appended exactly when the lookup stays in the array |
| ChatNoir.Model.LinkCell | Model.java:76-83 | a vertex's adjacency list ends up standing for its neighbour list, in the same order |
| ChatNoir.Model.LinkedAll | Model.java:76-83 | after all six offsets, the adjacency list stands for the full neighbour list |
| ChatNoir.Model.LinkVertex | Model.java:72-83 | a vertex gets its border flag from its position in the row, and its adjacency list |
| ChatNoir.Model.LinkRow | Model.java:87-98 | every vertex of one row is linked and flagged; no other vertex changes |
| ChatNoir.Model.LinkUpperHalf | Model.java:71-85 | rows 0..9 are linked with the upper table; the other rows are untouched |
| ChatNoir.Model.LinkLowerHalf | Model.java:100-113 | rows 11..20 are linked with the lower table, completing the graph |
| ChatNoir.Model.LinkAll | Model.java:71-113 | every vertex of the grid has its border flag and adjacency list |
| ChatNoir.Model.Build | Model.java:53-113 | the whole static graph is built from fresh objects, with no blocked or marked vertex |
| ChatNoir.Model.Visit | Model.java:272-280 | a blocked or marked neighbour is skipped; a border neighbour proves an escape; any other is marked and queued with a route one step longer |
| ChatNoir.Model.Expand | Model.java:271-282 | processing one queue entry keeps the queue invariant, and without an escape every unblocked neighbour of that entry is marked |
| ChatNoir.Model.ClosedOneMore | Model.java:283 | advancing the read index keeps every unblocked neighbour of processed entries marked |
| ChatNoir.Model.TrappedBySearch | Model.java:270-284 | a search that empties its queue without an escape proves the cat cannot escape |
| ChatNoir.Model.Search | Model.java:266-284 | a reported escape is real; without one the queue is closed under unblocked steps; only queued vertices are marked |
| ChatNoir.Model.ClearMarks | Model.java:285-286 | after the clearing loop no vertex is marked |
| ChatNoir.Model.CanCatEscape | Model.java:265-288 | the result is true exactly when the cat has a route of at least one step through unblocked cells to the border; every visited flag is cleared and nothing else changes |
| ChatNoir.Model.GameOver | Model.java:251-257 | the game is over exactly when the cat is on the border or cannot escape |
| ChatNoir.Model.Block | Model.java:199 | the blocked set grows by exactly that vertex's cell |
| ChatNoir.Model.SetBlocked | Model.java:194-208 | a vertex is blocked exactly when it was free and is not the cat's; otherwise it is refused and left unchanged |
| ChatNoir.Model.ListsCat | Model.java:222-226 | scanning the target's list finds the cat exactly when the target is a neighbour of the cat |
| ChatNoir.Model.MoveCat | Model.java:217-240 | the cat moves exactly onto an unblocked neighbour; otherwise it stays, refused as blocked or as a teleport |
| ChatNoir.Model.InGrid | Model.java:149 | the unchecked lookup succeeds exactly for coordinates of the grid |
| ChatNoir.Model.PassTurn | Model.java:164 | the turn flag flips and nothing else changes |
| ChatNoir.Model.CatTurn | Model.java:146-167 | the cat's half of a turn moves the object exactly as `Game.CatStep` says, facing tag included |
| ChatNoir.Model.OwnerTurn | Model.java:168-174 | the owner's half of a turn moves the object exactly as `Game.OwnerStep` says |
| ChatNoir.Model.UpdateBoard | Model.java:145-184 | the new snapshot and the reported outcome are exactly those of `Game.Step`, and a consistent game stays consistent |
| ChatNoir.Model.Dispatch | Model.java:146-183 | the branches of `updateBoard`, with `gameOver` evaluated as the source's conditions do, give exactly `Game.Step` |
| ChatNoir.Model.GetFeedback | Model.java:296-327 | the string is exactly `Game.Status` of the current snapshot |
| ChatNoir.Model.PlaceBlocker | Model.java:123-130 | the inner re-roll loop blocks the vertex of the first acceptable draw, as `Blockers.PlaceOne` says |
| ChatNoir.Model.PlacePass | Model.java:122-132 | a pass of 11 placements leaves exactly the blocked set and draws that `Blockers.PlaceMany` gives |
| ChatNoir.Model.ScatterPass | Model.java:121-133 | one pass plus the escape test advances `Blockers.Scatter` by one step |
| ChatNoir.Model.ScatterBlockers | Model.java:121-133 | the outer loop ends with exactly the blocked set of `Blockers.Scatter`, the cat can escape from it, and the game is consistent |
| ChatNoir.Model.Initialize | Model.java:51-136 | the owner moves first, the cat is at (10, 5) on an unblocked vertex, the graph is built from fresh objects, the blockers are those of `Blockers.Scatter`, and the cat can escape, so the game is consistent |

## Left out

- PropertyChangeSupport events and listener registration are not modelled, because they are observer plumbing. This covers the `firePropertyChange` calls, `addPropertyChangeListener` and `removePropertyChangeListener`. The facing tag of a cat move is returned in the outcome instead.
- JavaFX alerts are not modelled. Each refusal is returned as a `Rejection` value named after its dialog.
- `getFeedback`'s confirmation dialog and its reset-on-OK branch are not modelled, because they are UI. They would return the owner's-turn text after a re-initialization.
- `reset` and `getTitle`: `reset` is `initialize` plus an event, and `getTitle` is a constant string.
- `java.util.Random` becomes a caller-supplied sequence of draws. Each draw is (row in 0..20, column in 0..10), as the two `nextInt` calls produce.
- ChatNoir.Model.Initialize: a finite sequence of draws can run out. The model then returns `complete == false` where the source would keep drawing. Termination of the outer loop is not claimed.
- ChatNoir.Model.NewGrid: each row is built as a sequence and then copied into a fresh array. The source fills the array slot by slot, but the resulting arrays are the same.
- ChatNoir.Model.CanCatEscape: the queue is a value sequence rather than an `ArrayList` object. The search reads and sets the same vertex flags in place.
- The coordinates each vertex's adjacency list stands for are kept in a specification-only field `around`. It has no counterpart in the source.
