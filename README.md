# Snake simulation core, modelled in Dafny

This project models the simulation core of a small browser Snake game: the `Game`
class of `game.ts`. The snake is a list of grid cells with its head at index 0.
There is one food cell, a latched direction string, a score and a game-over state.
A repeating timer advances the snake one cell per tick. A keydown listener latches a
new direction.

The model has two modules:

- `SnakeRules` (`snake_rules.dfy`) states the rules on values:
  - `NextHead` computes the candidate head.
  - `Occupied`, `OffGrid` and `Collides` state the loss condition.
  - `Advance` is the effect of `_controlSnake` on a `GameState`.
  - `Step` is one timer tick, which does nothing once the game is over.
  - `DirectionForKey` is the keydown switch.
  - `Invariant` holds of every reachable state.
  - `Run` replays any interleaving of ticks and key presses.
- `SnakeGame` (`snake_game.dfy`) holds the class `Game`. Its fields are `_snake`,
  `_food`, `_direction`, `_score`, `_width`, `_height`, `_vw`, `_vh` and `_size`,
  plus a `gameOver` flag. Its methods update those fields in place as the source
  does: `InitSnake` pushes in a counting-down loop, `CheckCollision` is the index
  loop, `ControlSnake` pops and prepends, and `SpawnFood` overwrites the food
  coordinates. `InitSnake`, `CheckCollision`, `ControlSnake`, `Tick` and `KeyDown` are
  proved against the matching functions of `SnakeRules`; `GameOver` and `SpawnFood`
  state their effect on the fields directly.

Details kept from the code:

- The collision test runs against the whole body, so the tail that the same tick
  then drops still counts (`TailStillBlocks`). A direct reversal is therefore fatal
  (`ReversalEndsGame`).
- After a collision the same tick still does the food check and the prepend. Only
  later ticks become no-ops, because the timer is cleared.
- The inserted head is the one built before the collision test. The two inner
  `newHead` constants of `_controlSnake` are never used and do not appear.
- The respawned food is not checked against the body.
- The keydown listener stays active after game over. `_gameOver` removes a freshly
  made lambda, which removes nothing. So a key press still latches a direction
  after the game ends, but no later tick moves the snake.
- `_checkCollission` loops with `<` over exactly the existing segments (game.ts:105).
  Only the drawing loop `_renderSnake` uses `<=` (game.ts:86), and drawing is left out.

## Model

| member | source | states |
|---|---|---|
| `SnakeRules.InitialBody` | game.ts:91-102 | the body built by the counting-down loop has n cells; cell k is at (n-1-k, 0) with the cell size and green colour |
| `SnakeRules.InitialBodyShape` | game.ts:91-102 | the initial body is a chain of adjacent cells with no two on the same spot |
| `SnakeRules.InitialIsValid` | game.ts:13-38 | the constructed state is exactly [(2,0),(1,0),(0,0)] with food (1,1), direction "right", score 0, and it satisfies the invariant |
| `SnakeGame.Game.constructor` | game.ts:27-40 | after construction the snake is [(2,0),(1,0),(0,0)], the food (1,1), the direction "right", the score 0, the game running, and the class invariant holds |
| `SnakeGame.Game.InitSnake` | game.ts:91-102 | the loop appends exactly `InitialBody(size)` to the existing body |
| `SnakeGame.Game.CheckCollision` | game.ts:104-111 | returns true iff some cell of the list has the given x and y; the list is a value and is not changed |
| `SnakeRules.NextHead` | game.ts:140-160 | the candidate head keeps w, h and colour; for each of the four directions it is one grid step from the old head; any other direction leaves it in place |
| `SnakeRules.MoveByDirection` | game.ts:145-153 | "left" gives x-1, "right" x+1, "up" y-1, "down" y+1 |
| `SnakeRules.ReverseUndoesMove` | game.ts:145-153 | moving in a direction and then in the opposite one returns to the starting cell |
| `SnakeRules.StepEndsGameIff` | game.ts:161-169 | a running game ends in this tick iff the candidate head lies on a body cell, or x < 0, or y < 0, or x*vw >= width, or y*vh >= height |
| `SnakeRules.TailStillBlocks` | game.ts:161-181 | a candidate head on the current tail cell ends the game, although the tail is dropped later in the same tick |
| `SnakeRules.ReversalEndsGame` | game.ts:145-169 | with the head one step from the second segment in direction d, latching the opposite of d ends the game on the next tick |
| `SnakeRules.LeftEdgeEndsGame` | game.ts:145-169 | heading left from column 0 puts the candidate head at x = -1 and ends the game |
| `SnakeRules.StepEats` | game.ts:170-191 | on food: score + 1, length + 1, new body = candidate head followed by the entire old body, food moved to the respawn position, direction kept |
| `SnakeRules.StepMoves` | game.ts:180-191 | off food: length kept, new head = candidate head, body after the head = old body without its last cell, score, food and direction unchanged |
| `SnakeRules.StepScore` | game.ts:170-179 | a tick keeps the score or adds exactly 1, and adds 1 iff the game was running and the candidate head is on the food |
| `SnakeRules.StepAfterGameOver` | game.ts:194-198 | once the game is over a tick changes nothing |
| `SnakeRules.StepPreservesInvariant` | game.ts:139-192 | a tick keeps length = 3 + score, the direction one of four, the food in the respawn range, the body connected, and a running game free of overlaps |
| `SnakeGame.Game.ControlSnake` | game.ts:139-192 | the in-place update (collision test, game-over flag, respawn and score or pop, prepend) yields exactly `Advance` of the old state |
| `SnakeGame.Game.Tick` | game.ts:42-53 | one timer firing yields exactly `Step` of the old state and keeps the class invariant |
| `SnakeGame.Game.GameOver` | game.ts:194-198 | raises the game-over flag and changes nothing else |
| `SnakeGame.Game.SpawnFood` | game.ts:200-206 | overwrites only the food's x and y, with a position in the respawn range |
| `SnakeRules.OneInSpawnRange` | game.ts:200-204 | the respawn range always contains 1, so the starting food (1,1) lies in it |
| `SnakeRules.SpawnRangeOnGrid` | game.ts:200-204 | on a grid of at least 2x2 cells a respawned food lies in [1, width/vw - 1] x [1, height/vh - 1], on the grid |
| `SnakeRules.DirectionForKey` | game.ts:209-231 | key code 37 latches "left", 38 "up", 39 "right", 40 "down"; any other code leaves the direction unchanged |
| `SnakeRules.ArrowKeysSteer` | game.ts:209-231 | 37 moves the next head to x-1, 38 to y-1, 39 to x+1 and 40 to y+1, whatever the previous direction |
| `SnakeRules.LastArrowWins` | game.ts:209-231 | of several presses between two ticks only the last arrow key matters |
| `SnakeGame.Game.KeyDown` | game.ts:209-231 | the handler changes only the direction, as `DirectionForKey` says, and keeps the class invariant |
| `SnakeRules.Run` | game.ts:42-53 | over any sequence of ticks and key presses: the invariant holds, the score never decreases, length grows exactly as the score does, and after game over body, food and score stay fixed |
| `SnakeRules.FirstTickMovesRight` | game.ts:139-192 | on the 640x480 canvas one tick from the start gives [(3,0),(2,0),(1,0)], food (1,1), score 0, game running |
| `SnakeRules.FoodAheadIsEaten` | game.ts:170-191 | with the food at (3,0) the first tick gives score 1, length 4, the food at the respawn position, game running |

## Left out

- Canvas drawing is not modelled: `_clearScreen`, `_drawFood`, `drawSnake`, `_renderSnake` (with its `<=` loop bound), `_showScore`, `_showFps`, `_showGameOver` and `_blinkSnake` only call a browser drawing API.
- DOM setup in the constructor and the bootstrap in index.ts are host plumbing.
- `setInterval` and `clearInterval` are replaced by the explicit `Tick` method and the `gameOver` flag.
- Listener registration is not modelled. The loop adds one more identical listener every tick. All of them make the same assignment, so the handler is modelled once, as `KeyDown`. In the source the first listener is added during the first timer tick, so a key pressed before that tick reaches no listener; the model lets `KeyDown` act at any time.
- `Math.random` in `_spawnFood` is replaced by a position that the caller supplies. A `requires` restricts it to the values the floor expression can produce.
- The FPS estimator (`_requestAnimFrame`) is left out. It reads the wall clock and uses floating point.
- `_speedX` and `_speedY` are left out. The key handler writes them, but the movement logic never reads them.
- Colours are kept only as strings copied from cell to cell. Fonts are left out.
- SnakeGame.Game.constructor: requires width and height to be multiples of the 10-pixel cell. The source accepts any size. It would then compute the respawn bound with a non-integer float division, which the model does not capture.
- SnakeGame.Game.Tick: requires the class invariant. It holds after construction and is kept by every method.
