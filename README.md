# Snake game engine in Dafny

This project models the game engine of a browser snake game: the `SnakeGame`
class of `SnakeProject/Main.js`. The board is an n-by-n torus (the game fixes
n = 10; the model takes any n >= 2). A cell is an `(x, y)` pair. The snake is a
head-first sequence of cells. The game object also holds the apple cell, the
current direction, the score, the best score and a flag `over`. The flag stands
for the timer that `endGame` clears and `restart` starts again.

Everything is in one module, `Snake` (`snake.dfy`):

- Pure rules as functions. `Advance` is one step with per-axis wraparound,
  built from `WrapDown`/`WrapUp` exactly as the source decrements or
  increments and then wraps. `Turned` is the no-reversal rule, written as the
  source's four-way condition. `IsSnakeCell` is the membership scan. `Best` is
  the best-score update.
- Each function's contract gives an independent description of its result:
  - `Advance`: the step modulo n on each axis, and exactly one coordinate changes;
  - `Turned`: "unchanged exactly when the request is the opposite direction";
  - `IsSnakeCell`: sequence membership;
  - `Best`: the maximum.
- The game object is the class `SnakeGame`. Its fields are the ones the source
  updates in place. `Valid()` is the invariant every operation keeps:
  - at least two segments, all on the board and pairwise distinct;
  - the apple is on the board and not on the snake.
- `MoveSnake` states the whole new state for each of its three outcomes:
  collision, growth and slide. The predicate `Moved` says what these outcomes
  are, and `Tick` promises the same outcome while the game runs.
- `FreeCellExists` is a counting argument: while the snake is shorter than the
  board has cells, a free cell exists. It justifies the apple placement.

The model follows `Main.js` as written, including these behaviours:

- A direction request changes the direction at once. There is no pending
  direction for the next tick.
- A direction request is honoured even after the game is over.
- The no-reversal test compares against the direction already updated by
  earlier requests, not against the direction of the last tick.
- `moveSnake` itself has no game-over test. Ticks stop only because the timer
  is cleared. This is modelled by `Tick`, which moves only while `over` is false.

## Model

| member | source | states |
|---|---|---|
| `Snake.Opposite` | SnakeProject/Main.js:126-131 | the reverse of a direction is never that direction and negates both of its step components |
| `Snake.OppositeInvolutive` | SnakeProject/Main.js:126-131 | reversing twice gives back the original direction |
| `Snake.WrapDown` | SnakeProject/Main.js:89-91 | decrementing a coordinate with wrap to n-1 (the `up` branch here, and the `left` branch at lines 95-97) equals (v-1) mod n and always changes it |
| `Snake.WrapUp` | SnakeProject/Main.js:92-94 | incrementing a coordinate with wrap to 0 (the `down` branch here, and the `right` branch at lines 98-100) equals (v+1) mod n and always changes it |
| `Snake.Advance` | SnakeProject/Main.js:86-101 | the new head is on the board, each axis moves by the direction's step modulo n, and exactly one coordinate changes (x for left/right, y for up/down) |
| `Snake.EdgesWrap` | SnakeProject/Main.js:86-101 | leaving any of the four edges re-enters at the opposite edge, e.g. (n-1, y) moving right becomes (0, y) |
| `Snake.AdvanceThenBack` | SnakeProject/Main.js:86-101 | a step followed by a step in the opposite direction returns to the start cell |
| `Snake.Turned` | SnakeProject/Main.js:125-134 | the direction stays the same exactly when the request is the opposite of the current direction, otherwise it becomes the request (the same direction included); the result is never the reverse of the current direction |
| `Snake.TurnedIdempotent` | SnakeProject/Main.js:125-134 | repeating the same request has no further effect |
| `Snake.IsSnakeCell` | SnakeProject/Main.js:65-71 | the scan is true exactly when the cell is one of the segments |
| `Snake.Best` | SnakeProject/Main.js:165-168 | the best score after a game is the larger of the old best score and the score |
| `Snake.BestOfSessionBounds` | SnakeProject/Main.js:165-166 | for the fold of the best-score update that each `endGame` applies over a sequence of game scores, the result never drops below its starting value, is at least every score reached and is one of them or the starting value |
| `Snake.BestOfSessionStep` | SnakeProject/Main.js:165-166 | folding one more game's score is exactly one more `Best` update, so each `EndGame` extends the fold by one game |
| `Snake.InitialSnakeWellFormed` | SnakeProject/Main.js:41-51 | the two starting segments are distinct, on the board, and fewer than the board's cells |
| `Snake.FreeCellExists` | SnakeProject/Main.js:54-59 | a snake on the board that is shorter than n*n leaves some board cell free, so the sampling loop has a cell to find |
| `Snake.FullBoardHasNoFreeCell` | SnakeProject/Main.js:54-59 | when the distinct, in-bounds snake has n*n segments, every board cell is a snake cell, so the sampling loop's condition never becomes false |
| `Snake.SnakeGame.constructor` | SnakeProject/Main.js:2-26 | a new game has the starting snake, direction right, score 0, the stored best score, a running state and an apple off the snake |
| `Snake.SnakeGame.CreateSnake` | SnakeProject/Main.js:41-52 | appends (n/2, n/2) and then (n/2 - 1, n/2), with floor division, to the snake |
| `Snake.SnakeGame.GenerateApple` | SnakeProject/Main.js:54-63 | the apple is placed on a board cell that no segment occupies |
| `Snake.SnakeGame.MoveSnake` | SnakeProject/Main.js:81-123 | on collision with any current segment (the tail included) the game ends with snake, apple and score unchanged; on the apple the snake becomes new head + old snake and the score rises by 1; otherwise the snake becomes new head + old snake without its tail, with apple and score unchanged; the invariant is kept, the best score never drops and the length changes by 0 or 1 |
| `Snake.SnakeGame.ChangeDirection` | SnakeProject/Main.js:125-134 | the new direction is `Turned(old direction, request)` |
| `Snake.SnakeGame.EndGame` | SnakeProject/Main.js:161-169 | the game stops and the best score becomes the maximum of the best score and the score |
| `Snake.SnakeGame.Restart` | SnakeProject/Main.js:171-182 | the snake is exactly the starting pair, the direction is right, the score is 0, the game runs, the apple is off the snake and the best score is unchanged |
| `Snake.SnakeGame.Tick` | SnakeProject/Main.js:147-151 | once the game is over a tick changes nothing; while it runs a tick has exactly `MoveSnake`'s outcome (collision, growth or slide, as stated by `Moved`); the invariant is kept and the best score never drops |

## Left out

- Snake.SnakeGame.MoveSnake: this method requires that eating the apple does not make the snake cover the whole board. In that case the source's apple sampling loop never ends and the page hangs; `FullBoardHasNoFreeCell` proves that no cell can stop the loop. The model states the requirement instead of modelling a divergence.
- Snake.SnakeGame.Tick: passes the same requirement on for a running game. The timer callback calls `moveSnake` in that state too, and then hangs in the same loop.
- Snake.SnakeGame.GenerateApple: random sampling is replaced by a choice of some free cell. The contract says which cells can be chosen, not how likely each one is. As a consequence it also requires the snake to be shorter than the board.
- Rendering is not modelled because it is display only: building the board of DOM cells, `getCell`, CSS class edits, score and best-score text, and the restart button.
- Reading coordinates back from DOM `dataset` strings is not modelled. The model keeps integer cells directly.
- Timer scheduling through `setInterval`/`clearInterval` is host plumbing. It is represented only by the `over` flag and `Tick`.
- The keydown listener and its key-to-direction mapping are event plumbing. The same goes for the extra listener each restart registers. `TurnedIdempotent` shows that a repeated request has no extra effect.
- Loading and saving the best score in `localStorage` is external storage. So is the string-to-number coercion of the stored value. The best score is a natural number, passed to the constructor.
- The board size is a constructor parameter (at least 2) instead of the constant 10.
- Directions other than the four arrows cannot occur: directions are an enumeration.
