# Tetroncio game core in Dafny

A model of the game logic of Tetroncio, a browser falling-block game
(`tetris.js`). The board is a 10 x 20 grid of integer cells (0 empty, anything
else taken). One falling piece, a small 0/1 matrix with a board position, is
moved, rotated and hard-dropped by key and button commands. A half-second
timer tick lets it fall one row, or, when it cannot fall, merges it into the
board, clears full rows and spawns the next piece at (3, 0). The game is over
when a new piece does not fit there.

Modules, one per component of the game:

- `Grid` (`grid.dfy`): dimensions, positions, well-formed boards, rectangular
  shapes, and the `board[y]?.[x]` read.
- `Shapes` (`shapes.dfy`): the seven-piece catalogue and clockwise rotation.
- `Collision` (`collision.dfy`): `isValidPosition`, written as the two nested
  `every` walks, with its cell-by-cell meaning as the contract.
- `BoardOps` (`board.dfy`): `mergePiece` as the two nested `forEach` walks,
  and `removeLines` as the `reduce` with `unshift`/`push`, each proved
  against an independent description of its result.
- `Tetris` (`game.dfy`): the session state, spawn, reset, the command
  handlers, the tick `update`, and the session as a state machine (`Apply`,
  `Run`) with its invariant `Inv`.

Every operation is a pure function from the old session to the new one.
`Math.random` becomes an explicit piece index in [0, 7), passed to `Spawn`,
`Update` (through `Tick`) and `Reset` (through `Restart`).

Behaviour of the code the model keeps:

- The move, rotate and hard-drop handlers do not look at `paused` or
  `gameOver`, so they act in every state. Only the tick checks the flags
  (tetris.js:104).
- `resetGame` does not clear `paused` (tetris.js:23-31). A restart while
  paused leaves the session paused, and `Reset` keeps the flag.
- `mergePiece` writes the shape cell's own value (tetris.js:86). All
  catalogue cells are 0 or 1.
- `spawnPiece` only ever sets `gameOver`; it never clears it
  (tetris.js:50-51).

## Model

| member | source | states |
|---|---|---|
| Shapes.CatalogueShapes | tetris.js:13-21 | each of the seven pieces is a rectangular 0/1 matrix with at least one block, at most 2 rows by 4 columns |
| Collision.IsValidPosition | tetris.js:57-68 | the nested walk accepts exactly when every nonzero shape cell (i, j) lands on a free cell at column p.x + j, row p.y + i; zero cells impose nothing |
| Collision.ValidIff | tetris.js:57-68 | on a 10 x 20 board: valid iff every nonzero cell maps to x in [0,10), y in [0,20) with board[y][x] == 0 |
| Collision.ValidAboveFloor | tetris.js:57-68 | a shape with a block is valid only with its top row above the floor (y < 20), which bounds the hard drop |
| BoardOps.MergePiece | tetris.js:82-90 | when every block is on the board, exactly the cells under nonzero shape cells take the shape's value; every other cell and the 10 x 20 dimensions are unchanged |
| BoardOps.MergeBlocksPosition | tetris.js:82-90 | after a merge at a valid position the same piece is no longer valid there |
| BoardOps.RemoveLines | tetris.js:92-101 | the result is k empty rows followed by the non-full rows in their original order, k the number of full rows; height kept, width kept on a 10 x 20 board, no full row left |
| BoardOps.SweepSplits | tetris.js:93-100 | the unshift/push fold keeps its accumulator as empty rows followed by the kept rows |
| BoardOps.RemoveLinesIdempotent | tetris.js:92-101 | clearing twice equals clearing once |
| BoardOps.ClearSingleRow | tetris.js:92-101 | when only row y is full, the result is one empty row, then the rows above y, then the rows below y |
| Shapes.Rotate | tetris.js:144-146 | clockwise turn (also tetris.js:191-193): an R x C shape becomes C x R with new[i][j] = old[R-1-j][i] |
| Shapes.RotateKeepsBlock | tetris.js:144-146 | a turned shape still has a block |
| Shapes.RotateTwice | tetris.js:144-146 | two turns give the half turn: cell (i, j) comes from (R-1-i, C-1-j) |
| Shapes.RotateFour | tetris.js:144-146 | four turns give back the original shape |
| Tetris.RotatePiece | tetris.js:143-152 | rotate command (also tetris.js:190-199): the turned shape is taken when it is valid at the current position; otherwise nothing changes; position, board and flags never change; a valid piece stays valid |
| Tetris.RotateFourTimes | tetris.js:143-152 | from a valid position, when three turns are accepted the fourth is too, and four rotate commands give back the session |
| Tetris.Move | tetris.js:125-142 | move commands (also tetris.js:169-188): the position changes by exactly one step iff the stepped position is valid, and is unchanged otherwise; board, shape and flags untouched; a valid position stays valid |
| Tetris.MoveLeftRight | tetris.js:125-136 | from a valid position, a move left that was taken is undone by a move right |
| Tetris.EmptyBoardValid | tetris.js:57-68 | on an empty board a position is valid iff every block lies on the board |
| Tetris.OPieceOnTop | tetris.js:57-68 | the O piece fits in the top rows of an empty board exactly at x in [0, 8] |
| Tetris.OPieceToLeftWall | tetris.js:125-130 | a freshly started O piece reaches x = 0 after three moves left; a fourth changes nothing |
| Tetris.Fall | tetris.js:117-121 | the dash loop ends: same column, row not smaller, every row passed valid, the next row down invalid, and a valid start ends valid |
| Tetris.Dash | tetris.js:117-121 | hard drop: x unchanged, y not decreased, every row passed is valid, the position one row lower is invalid, board, shape and flags unchanged, and a valid piece ends valid |
| Tetris.DashIdempotent | tetris.js:117-121 | a second hard drop changes nothing |
| Tetris.TogglePause | tetris.js:160 | the pause flag flips and nothing else changes |
| Tetris.Spawn | tetris.js:46-55 | piece k at (3, 0); the board and pause flag unchanged; gameOver set iff it was already set or the spawn position is invalid |
| Tetris.SpawnFitsEmpty | tetris.js:46-55 | every catalogue piece is valid at (3, 0) on an empty board |
| Tetris.SpawnOnFullBoard | tetris.js:46-55 | a spawn onto a fully occupied board ends the game and leaves the board as it was |
| Tetris.Reset | tetris.js:23-28 | an empty 10 x 20 board, a piece at (3, 0), gameOver cleared (no piece can fail to fit), pause flag kept, and the session invariant holds |
| Tetris.Start | tetris.js:218-219 | the first session (flags false, tetris.js:10-11) has an empty 10 x 20 board and piece k at (3, 0), is running, and has the piece at a valid position |
| Tetris.Update | tetris.js:103-115 | no effect while paused or over; otherwise the piece falls one row when it can, or is merged at its row, full rows are cleared and piece k spawns at (3, 0), with gameOver iff that spot is invalid; keeps the session invariant |
| Tetris.Apply | tetris.js:123-157 | every command (moves, rotate, dash, pause, tick, restart) keeps the session invariant; only the tick and restart can change the board or gameOver |
| Tetris.Run | tetris.js:123-157 | any sequence of commands keeps the session invariant, so a game that is not over always has its piece at a valid position |

## Left out

- Canvas drawing (`drawBoard`, `drawPiece`, the canvas setup): presentation only.
- DOM wiring: the event listeners, the created Dash and Restart buttons, and
  the game-over banner. The handler bodies are modelled as the `Command`
  cases of `Tetris.Apply`.
- The `setInterval`/`clearInterval` timer: host scheduling. A tick is the
  explicit `Tick` command, and pausing only flips the flag.
- `Math.random`: replaced by a piece index parameter in [0, 7).
- Shapes.Rotate, Tetris.RotatePiece: require a non-empty rectangular shape,
  because rotation reads `currentPiece[0]` and `row[index]`; empty or ragged
  shapes are not modelled. Every shape the game produces is one.
- Tetris.Fall, Tetris.Dash: require the shape to have a block. With no block
  every position is valid and the `dash` loop (tetris.js:118-120) would never stop.
  Every shape the game produces has one.
- BoardOps.MergePiece: requires every block on the board. Otherwise
  tetris.js:86 throws (a row off the board), grows the row (a column past the
  right edge), or sets a stray non-index property (a column left of the
  board). The tick only merges at a valid position.
- Tetris.Update: requires the session invariant `Inv`, which the start, the
  reset and every command establish (`Tetris.Run`). Sessions outside it are not
  modelled.
