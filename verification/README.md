# vuego game store — a Dafny model

vuego's game store keeps the authoritative state of a two-player Go-like
game in one record: `size`, `gameType`, the `board` (rows of cells, each
empty, black or white), `captures` per colour, `current_turn`,
`pass_last_turn` and `game_done`. The presentation layer drives it through
three mutations:

- `NEW_GAME(state, n)` starts a fresh game on an n x n board.
- `PLAYER_TURN(state, x, y)` plays a stone for the side to move at
  column x, row y.
- `PASS_TURN(state)` passes.

A played stone removes every adjacent opposing group it leaves without
liberties. The mover is credited with the stones removed. Two consecutive
passes end the game.

The model is written in functional style. Each mutation is a pure function
from one `GameState` to the next, and an inapplicable call returns its input
unchanged. The modules are:

- `Board`: the N x N grid, cell access, placing and clearing stones, and
  orthogonal neighbours. Position `Pos(x, y)` is cell `board[y][x]`.
- `Groups`: groups and liberties. A group is computed by a worklist flood
  fill. The fill terminates because each push shrinks the set of unvisited
  cells. The fill's result is proved to be the least set that contains the
  seed and is closed under same-coloured adjacency. It is also proved equal
  to the set of cells reachable from the seed by a chain of the seed's
  colour, which is an independent definition.
- `Capture`: the sequential capture over the neighbours of the move, each
  examined on the board the previous removals left. It is proved equal to
  clearing the union of the dead adjacent groups, judged on the placed
  board. So the visiting order does not matter and no stone is counted twice.
- `Store`: the record, the phase read off it (not started, active, done),
  and `NewGame`, `PlayerTurn` and `PassTurn` with their frame and capture
  properties.
- `Play`: runs of actions. It covers inertness before a game and after
  one, turn alternation (one hand-over per accepted action), the game
  ending only on a second consecutive pass, and a new game superseding
  everything before it.
- `Scenarios`: the store's unit scenarios, each stated as a lemma about
  the model. These are the capture in the corner, the restart after a
  partial game, the no-op move without a game, the first move, one pass
  and two passes, and the move onto an occupied cell.

The store's implementation, `src/game/store`, is not part of this model. The
model follows the behaviour pinned down by
`test/unit/specs/game/store.spec.js`.

Three points are not fixed by the observed behaviour. The model settles
them as follows:

- The starting record has no game in progress. Its other fields are not
  visible, so the model uses size 0, an empty board, an empty game type,
  zero captures, no turn and both flags false.
- A move outside the board changes nothing, like a move onto an occupied
  cell.
- The pass that ends the game clears the pass flag. The flag means that
  the previous action was a pass that left the game running, and the
  ending pass did not.

## Model

| member | source | states |
|---|---|---|
| Board.NewBoard | test/unit/specs/game/store.spec.js:38-39 | a new board has n rows of n cells, every one of them empty |
| Board.Place | test/unit/specs/game/store.spec.js:59-62 | a move writes row y, column x of the board and no other cell |
| Board.Neighbors | test/unit/specs/game/store.spec.js:88-100 | a position's neighbours are exactly the in-bounds positions one orthogonal step away, at most four of them |
| Board.NeighborCount | test/unit/specs/game/store.spec.js:88-100 | a corner such as (0,0) has two neighbours, an edge cell three and an interior cell four |
| Groups.Fill | test/unit/specs/game/store.spec.js:95-100 | the flood fill returns same-coloured in-bounds cells, contains everything it was given, is closed under same-coloured adjacency and lies inside every such closed set holding the seed |
| Groups.Group | test/unit/specs/game/store.spec.js:95-100 | a stone's group contains the stone and only in-bounds cells of its colour |
| Groups.ClosedHoldsGroup | test/unit/specs/game/store.spec.js:95-100 | the group is the least set holding the seed and closed under same-coloured adjacency |
| Groups.GroupIsComponent | test/unit/specs/game/store.spec.js:95-100 | a cell is in the group of a seed exactly when a chain of the seed's colour leads from the seed to it |
| Groups.GroupOfMember | test/unit/specs/game/store.spec.js:95-100 | any member of a group has that same group, so groups partition the stones |
| Groups.Liberties | test/unit/specs/game/store.spec.js:95-100 | a cell is a liberty of a group exactly when it is on the board, empty and orthogonally next to a stone of the group |
| Capture.CaptureAll | test/unit/specs/game/store.spec.js:95-100 | examines the move's neighbours in order, each on the board earlier removals left; the board keeps its size and stays square |
| Capture.CaptureAllFrame | test/unit/specs/game/store.spec.js:95-100 | capture only empties cells that held a victim stone, keeps the mover's stones, and the count it reports equals the number of victim stones that left the board |
| Capture.CaptureAllRemovesDoomed | test/unit/specs/game/store.spec.js:95-100 | the sequential capture clears exactly the union of the dead victim groups next to the move and reports that union's size |
| Capture.DoomedIsWholeGroups | test/unit/specs/game/store.spec.js:95-100 | the removed stones are whole victim groups, never part of a group |
| Capture.SurvivorsBreathe | test/unit/specs/game/store.spec.js:95-100 | every victim stone next to the move that stays on the board belongs to a group with a liberty |
| Capture.ClearCounts | test/unit/specs/game/store.spec.js:95-100 | clearing a set of victim stones lowers the victim's stone count by the size of the set and leaves the other colour's stones alone |
| Store.InitialIsNotStarted | test/unit/specs/game/store.spec.js:45-51 | the store's starting record is well formed and has no game in progress |
| Store.PhaseOf | test/unit/specs/game/store.spec.js:45-51 | a record is done exactly when the game is over, otherwise active exactly when someone is to move, and not started otherwise |
| Store.Accepts | test/unit/specs/game/store.spec.js:103-115 | a move is accepted exactly when a game is in progress and the cell is on the board and empty; an accepted move always has a side to move |
| Store.NewGame | test/unit/specs/game/store.spec.js:9-41 | a new game has the requested size, type "local", an empty n x n board, zero captures for both colours, Black to move, no pass and is not done |
| Store.PlayerTurn | test/unit/specs/game/store.spec.js:45-115 | the record is unchanged exactly when the move is not accepted; an accepted move puts the mover's stone on the cell, keeps size and type, hands the turn to the opponent, clears the pass flag and never credits the opponent |
| Store.MoveFrame | test/unit/specs/game/store.spec.js:95-100 | after an accepted move every other cell keeps its content or loses an opposing stone, and the mover's captures grow by exactly the number of opposing stones removed |
| Store.MoveRemovesDoomed | test/unit/specs/game/store.spec.js:88-100 | an accepted move leaves the placed board with exactly the dead adjacent opposing groups cleared and credits the mover with their size |
| Store.MoveLeavesNoDeadNeighbor | test/unit/specs/game/store.spec.js:95-100 | after an accepted move no opposing group touching the new stone is without liberties |
| Store.MoveRemovesOnlyDead | test/unit/specs/game/store.spec.js:95-100 | a stone a move removes belonged to a dead opposing group next to the move |
| Store.QuietMove | test/unit/specs/game/store.spec.js:89-93 | a move next to no dead opposing group only places its stone and credits nobody |
| Store.PassTurn | test/unit/specs/game/store.spec.js:68-85 | a pass never changes board or captures; a first pass hands over the turn and sets the pass flag; a pass after a pass ends the game with no turn and a clear pass flag; with no game in progress nothing changes |
| Play.Step | test/unit/specs/game/store.spec.js:58-85 | a move or pass that changes the record found a game in progress and either hands the turn over or ends the game, only a second pass ends it, and the pass flag of a changed record is set exactly when the action was a pass that left the game in progress |
| Play.StepTurn | test/unit/specs/game/store.spec.js:58-75 | a move or pass leaving a game in progress hands the turn over exactly when it changes the record |
| Play.TurnAlternates | test/unit/specs/game/store.spec.js:58-115 | along a run of moves and passes that ends in a game in progress, the turn has changed hands once per accepted action and never for a rejected one |
| Play.DoneIsInert | test/unit/specs/game/store.spec.js:78-85 | once the game is over, no run of moves and passes changes the record |
| Play.NotStartedIsInert | test/unit/specs/game/store.spec.js:45-51 | before any game, no run of moves and passes changes the record |
| Play.EndsOnlyBySecondPass | test/unit/specs/game/store.spec.js:78-85 | a move or pass leaves the game over only if it already was, or it was a pass with the pass flag set |
| Play.StartSupersedes | test/unit/specs/game/store.spec.js:9-19 | what follows a new game depends only on its size, not on the record it replaced |
| Scenarios.RestartSupersedes | test/unit/specs/game/store.spec.js:9-41 | after the 13 x 13 opening and its capture, a new 19 x 19 game has every field reset |
| Scenarios.MoveWithoutGame | test/unit/specs/game/store.spec.js:45-51 | a move at (1,2) with no game started leaves the starting record exactly as it was |
| Scenarios.FirstMove | test/unit/specs/game/store.spec.js:59-65 | the first move at (1,2) puts a black stone at board[2][1], White is to move and the pass flag is clear |
| Scenarios.OnePass | test/unit/specs/game/store.spec.js:69-75 | one pass keeps the board, White is to move and the pass flag is set |
| Scenarios.TwoPasses | test/unit/specs/game/store.spec.js:79-85 | two passes end the game and leave no turn |
| Scenarios.OpeningBoard | test/unit/specs/game/store.spec.js:89-93 | after Black (0,0), White (0,1) and Black (10,10) exactly those three stones stand, nothing was captured and White is to move |
| Scenarios.CornerIsDead | test/unit/specs/game/store.spec.js:95-100 | a black corner stone with white stones on both neighbours is a group of its own without liberties |
| Scenarios.CornerCapture | test/unit/specs/game/store.spec.js:95-100 | White's (1,0) removes the black corner stone, White has exactly one capture, Black none, and both white stones stay |
| Scenarios.OccupiedCell | test/unit/specs/game/store.spec.js:103-115 | a second move at (1,1) changes nothing: the black stone stays and White is still to move |

## Left out

- The store framework plumbing is not modelled: the shared `state` object, `Object.assign` copies and the named-mutation registry. The three mutations are plain functions from record to record.
- The colour module is reduced to `Color`, `Cell` and `Option<Color>`. `None` stands for the null turn.
- Ko, suicide prohibition, scoring, handicap and undo are not modelled, because the store's observed behaviour shows none of them. A move that leaves the mover's own group without liberties keeps its stones: the mover's group is never examined.
- Store.NewGame: requires a positive size. The behaviour for a non-positive size is unspecified.
- Store.PhaseOf: "no game in progress" is read as "no turn and not done", so the turn is null before the first game as well as after the last one. A null turn does not mean the game has ended.
- The presentation layer, input handling, network or local mode selection and rendering are not modelled. `gameType` is the string "local".
