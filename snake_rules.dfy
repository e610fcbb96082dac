/**
 * The rules of the Snake simulation of game.ts, stated on values: grid cells,
 * the candidate head, the loss condition, what one tick does to a snapshot of
 * the game, the key-code mapping, and the invariant every tick preserves.
 * The class in snake_game.dfy is proved against these functions.
 */
module SnakeRules {

  /** A grid cell: the food or one snake segment (the `Food` record of game.ts). */
  datatype Cell = Cell(x: int, y: int, w: int, h: int, color: string)

  /** Canvas size in pixels; one grid cell is CellWidth x CellHeight pixels (`_vw`, `_vh`). */
  datatype Grid = Grid(width: int, height: int)

  /** Everything a tick reads or writes: body (head first), food, latched direction, score, game-over flag. */
  datatype GameState = GameState(snake: seq<Cell>, food: Cell, direction: string, score: int, gameOver: bool)

  /** A tick of the repeating timer (with the position the random respawn would pick) or a key press. */
  datatype Event = Tick(spawnX: int, spawnY: int) | KeyDown(keyCode: int)

  const InitialSize: int := 3
  const CellWidth: int := 10
  const CellHeight: int := 10
  const Green: string := "#39FF14"

  const LeftArrow: int := 37
  const UpArrow: int := 38
  const RightArrow: int := 39
  const DownArrow: int := 40

  /** The canvas holds a whole number of cells in each direction. */
  predicate WellFormed(g: Grid)
  {
    g.width % CellWidth == 0 && g.height % CellHeight == 0
  }

  function Columns(g: Grid): int
  {
    g.width / CellWidth
  }

  function Rows(g: Grid): int
  {
    g.height / CellHeight
  }

  // ---------------------------------------------------------------------------
  // Directions and movement

  predicate IsDirection(d: string)
  {
    d == "left" || d == "right" || d == "up" || d == "down"
  }

  function Opposite(d: string): (r: string)
    requires IsDirection(d)
    ensures IsDirection(r) && r != d
  {
    if d == "left" then "right"
    else if d == "right" then "left"
    else if d == "up" then "down"
    else "up"
  }

  function Abs(n: int): nat
  {
    if n < 0 then -n else n
  }

  /** Two cells one grid step apart (horizontally or vertically). */
  predicate Adjacent(a: Cell, b: Cell)
  {
    Abs(a.x - b.x) + Abs(a.y - b.y) == 1
  }

  predicate SameSpot(a: Cell, b: Cell)
  {
    a.x == b.x && a.y == b.y
  }

  /**
   * The candidate head: the old head moved one cell in the latched direction,
   * keeping its pixel size and colour; a direction outside the four leaves it in place.
   */
  function NextHead(head: Cell, direction: string): (r: Cell)
    ensures r.w == head.w && r.h == head.h && r.color == head.color
    ensures IsDirection(direction) ==> Adjacent(head, r) && Adjacent(r, head)
    ensures !IsDirection(direction) ==> r == head
  {
    if direction == "left" then head.(x := head.x - 1)
    else if direction == "right" then head.(x := head.x + 1)
    else if direction == "up" then head.(y := head.y - 1)
    else if direction == "down" then head.(y := head.y + 1)
    else head
  }

  /** Each of the four directions moves the head along one axis by one cell. */
  lemma MoveByDirection(c: Cell)
    ensures NextHead(c, "left") == c.(x := c.x - 1)
    ensures NextHead(c, "right") == c.(x := c.x + 1)
    ensures NextHead(c, "up") == c.(y := c.y - 1)
    ensures NextHead(c, "down") == c.(y := c.y + 1)
  {
  }

  /** Moving one way and then the opposite way returns to the starting cell. */
  lemma ReverseUndoesMove(c: Cell, d: string)
    requires IsDirection(d)
    ensures NextHead(NextHead(c, d), Opposite(d)) == c
  {
  }

  // ---------------------------------------------------------------------------
  // Collision and loss condition

  /** Some cell of `body` lies on grid position (x, y). */
  predicate Occupied(body: seq<Cell>, x: int, y: int)
  {
    exists i :: 0 <= i < |body| && body[i].x == x && body[i].y == y
  }

  /** Position (x, y) lies outside the canvas. */
  predicate OffGrid(g: Grid, x: int, y: int)
  {
    x * CellWidth >= g.width || y * CellHeight >= g.height || x < 0 || y < 0
  }

  /** The loss condition of a tick, tested against the whole current body (tail included). */
  predicate Collides(g: Grid, body: seq<Cell>, x: int, y: int)
  {
    Occupied(body, x, y) || OffGrid(g, x, y)
  }

  // ---------------------------------------------------------------------------
  // Food respawn

  /**
   * The values `floor(r * (n - 1) + 1)` can take for r in [0, 1): the range
   * [1, n - 1] when n >= 2, the single value 1 when n == 1, and [n, 1] when n <= 0.
   */
  predicate InSpawnRange(v: int, n: int)
  {
    (if n >= 1 then 1 else n) <= v <= (if n >= 2 then n - 1 else 1)
  }

  /** The respawn range always contains 1, so the starting food (1, 1) lies in it. */
  lemma OneInSpawnRange(n: int)
    ensures InSpawnRange(1, n)
  {
  }

  /** A respawned food position lies on the grid, off row and column 0. */
  lemma SpawnRangeOnGrid(g: Grid, x: int, y: int)
    requires WellFormed(g) && Columns(g) >= 2 && Rows(g) >= 2
    requires InSpawnRange(x, Columns(g)) && InSpawnRange(y, Rows(g))
    ensures 1 <= x && 1 <= y && !OffGrid(g, x, y)
  {
  }

  // ---------------------------------------------------------------------------
  // The initial state

  /** The body built by the counting-down loop of `_initSnake`: x = n-1, ..., 0 on row 0. */
  function InitialBody(n: nat, w: int, h: int): (r: seq<Cell>)
    ensures |r| == n
    ensures forall k :: 0 <= k < n ==> r[k] == Cell(n - 1 - k, 0, w, h, Green)
  {
    if n == 0 then [] else [Cell(n - 1, 0, w, h, Green)] + InitialBody(n - 1, w, h)
  }

  function Initial(): GameState
  {
    GameState(InitialBody(InitialSize, CellWidth, CellHeight), Cell(1, 1, 10, 10, Green), "right", 0, false)
  }

  // ---------------------------------------------------------------------------
  // One tick

  /**
   * The effect of `_controlSnake` on a snapshot: the candidate head is tested for a
   * collision against the current body, which may set the game-over flag; the same
   * tick then still eats (respawn at (spawnX, spawnY), score + 1, no pop) or drops the
   * tail, and always prepends the candidate head.
   */
  function Advance(g: Grid, s: GameState, spawnX: int, spawnY: int): GameState
    requires |s.snake| > 0
  {
    var head := NextHead(s.snake[0], s.direction);
    var over := s.gameOver || Collides(g, s.snake, head.x, head.y);
    if s.food.x == head.x && s.food.y == head.y then
      GameState([head] + s.snake, s.food.(x := spawnX, y := spawnY), s.direction, s.score + 1, over)
    else
      GameState([head] + s.snake[..|s.snake| - 1], s.food, s.direction, s.score, over)
  }

  /** A timer tick: `_controlSnake` while the game runs; nothing once the timer is cleared. */
  function Step(g: Grid, s: GameState, spawnX: int, spawnY: int): GameState
    requires |s.snake| > 0
  {
    if s.gameOver then s else Advance(g, s, spawnX, spawnY)
  }

  /** Once the game is over a tick changes nothing. */
  lemma StepAfterGameOver(g: Grid, s: GameState, spawnX: int, spawnY: int)
    requires |s.snake| > 0 && s.gameOver
    ensures Step(g, s, spawnX, spawnY) == s
  {
  }

  /** A running game ends in this tick exactly when the candidate head collides or leaves the grid. */
  lemma StepEndsGameIff(g: Grid, s: GameState, spawnX: int, spawnY: int)
    requires |s.snake| > 0 && !s.gameOver
    ensures var head := NextHead(s.snake[0], s.direction);
      Step(g, s, spawnX, spawnY).gameOver <==>
        (Occupied(s.snake, head.x, head.y)
         || head.x < 0 || head.y < 0 || head.x * CellWidth >= g.width || head.y * CellHeight >= g.height)
  {
  }

  /** Eating: score + 1, length + 1, the new body is the candidate head before the whole old body. */
  lemma StepEats(g: Grid, s: GameState, spawnX: int, spawnY: int)
    requires |s.snake| > 0 && !s.gameOver
    requires SameSpot(s.food, NextHead(s.snake[0], s.direction))
    ensures var r := Step(g, s, spawnX, spawnY);
      && r.score == s.score + 1
      && |r.snake| == |s.snake| + 1
      && r.snake[0] == NextHead(s.snake[0], s.direction)
      && r.snake[1..] == s.snake
      && r.food == s.food.(x := spawnX, y := spawnY)
      && r.direction == s.direction
  {
  }

  /** Not eating: the tail is dropped and the head prepended; length, score and food stay. */
  lemma StepMoves(g: Grid, s: GameState, spawnX: int, spawnY: int)
    requires |s.snake| > 0 && !s.gameOver
    requires !SameSpot(s.food, NextHead(s.snake[0], s.direction))
    ensures var r := Step(g, s, spawnX, spawnY);
      && |r.snake| == |s.snake|
      && r.snake[0] == NextHead(s.snake[0], s.direction)
      && r.snake[1..] == s.snake[..|s.snake| - 1]
      && r.score == s.score
      && r.food == s.food
      && r.direction == s.direction
  {
  }

  /** The score never decreases, and it grows by one exactly when a running game eats. */
  lemma StepScore(g: Grid, s: GameState, spawnX: int, spawnY: int)
    requires |s.snake| > 0
    ensures var r := Step(g, s, spawnX, spawnY);
      && (r.score == s.score || r.score == s.score + 1)
      && (r.score == s.score + 1 <==> !s.gameOver && SameSpot(s.food, NextHead(s.snake[0], s.direction)))
  {
  }

  /**
   * The collision test still sees the tail that the same tick is about to drop:
   * a head moving onto the tail cell ends the game, even though the tail moves away.
   */
  lemma TailStillBlocks(g: Grid, s: GameState, spawnX: int, spawnY: int)
    requires |s.snake| > 0 && !s.gameOver
    requires SameSpot(NextHead(s.snake[0], s.direction), s.snake[|s.snake| - 1])
    ensures Step(g, s, spawnX, spawnY).gameOver
  {
  }

  /**
   * Reversing the direction of travel turns the head back onto the second segment,
   * which ends the game at once.
   */
  lemma ReversalEndsGame(g: Grid, s: GameState, d: string, spawnX: int, spawnY: int)
    requires |s.snake| >= 2 && !s.gameOver && IsDirection(d)
    requires s.snake[0] == NextHead(s.snake[1], d)
    requires s.direction == Opposite(d)
    ensures Step(g, s, spawnX, spawnY).gameOver
  {
  }

  // ---------------------------------------------------------------------------
  // The key handler

  /** The keydown switch of `_attachEvents`: arrow keys latch a direction, other keys do nothing. */
  function DirectionForKey(keyCode: int, current: string): (r: string)
    ensures LeftArrow <= keyCode <= DownArrow ==> IsDirection(r)
    ensures keyCode == LeftArrow ==> r == "left"
    ensures keyCode == UpArrow ==> r == "up"
    ensures keyCode == RightArrow ==> r == "right"
    ensures keyCode == DownArrow ==> r == "down"
    ensures !(LeftArrow <= keyCode <= DownArrow) ==> r == current
  {
    if keyCode == LeftArrow then "left"
    else if keyCode == UpArrow then "up"
    else if keyCode == RightArrow then "right"
    else if keyCode == DownArrow then "down"
    else current
  }

  /** Each arrow key steers the next candidate head one cell in the arrow's direction. */
  lemma ArrowKeysSteer(c: Cell, current: string)
    ensures NextHead(c, DirectionForKey(LeftArrow, current)) == c.(x := c.x - 1)
    ensures NextHead(c, DirectionForKey(UpArrow, current)) == c.(y := c.y - 1)
    ensures NextHead(c, DirectionForKey(RightArrow, current)) == c.(x := c.x + 1)
    ensures NextHead(c, DirectionForKey(DownArrow, current)) == c.(y := c.y + 1)
  {
  }

  /** Several presses between two ticks collapse to the last arrow key pressed. */
  lemma LastArrowWins(first: int, last: int, current: string)
    requires LeftArrow <= last <= DownArrow
    ensures DirectionForKey(last, DirectionForKey(first, current)) == DirectionForKey(last, current)
  {
  }

  function Press(s: GameState, keyCode: int): GameState
  {
    s.(direction := DirectionForKey(keyCode, s.direction))
  }

  // ---------------------------------------------------------------------------
  // The invariant

  /** Consecutive segments of the body are one grid step apart. */
  ghost predicate Connected(body: seq<Cell>)
  {
    forall i, j :: 0 <= i < j < |body| && j == i + 1 ==> Adjacent(body[i], body[j])
  }

  /** No two segments of the body share a grid position. */
  ghost predicate NoOverlap(body: seq<Cell>)
  {
    forall i, j :: 0 <= i < j < |body| ==> !SameSpot(body[i], body[j])
  }

  /**
   * What holds of every reachable state: the length is the initial size plus the
   * score, the direction is one of the four, the food lies in the respawn range,
   * the body is a chain of adjacent cells, and while the game runs it never overlaps itself.
   */
  ghost predicate Invariant(g: Grid, s: GameState)
  {
    && WellFormed(g)
    && 0 <= s.score
    && |s.snake| == InitialSize + s.score
    && IsDirection(s.direction)
    && InSpawnRange(s.food.x, Columns(g))
    && InSpawnRange(s.food.y, Rows(g))
    && Connected(s.snake)
    && (!s.gameOver ==> NoOverlap(s.snake))
  }

  /** The row built by `_initSnake` is a chain of adjacent cells with no two on one spot. */
  lemma InitialBodyShape(n: nat, w: int, h: int)
    ensures Connected(InitialBody(n, w, h))
    ensures NoOverlap(InitialBody(n, w, h))
  {
  }

  /** The state after construction is exactly the three-cell row heading right, and satisfies the invariant. */
  lemma InitialIsValid(g: Grid)
    requires WellFormed(g)
    ensures Invariant(g, Initial())
    ensures Initial().snake == [Cell(2, 0, 10, 10, Green), Cell(1, 0, 10, 10, Green), Cell(0, 0, 10, 10, Green)]
  {
    InitialBodyShape(InitialSize, CellWidth, CellHeight);
    OneInSpawnRange(Columns(g));
    OneInSpawnRange(Rows(g));
  }

  /** Every tick keeps the invariant, provided the respawn position lies in range. */
  lemma StepPreservesInvariant(g: Grid, s: GameState, spawnX: int, spawnY: int)
    requires Invariant(g, s)
    requires InSpawnRange(spawnX, Columns(g)) && InSpawnRange(spawnY, Rows(g))
    ensures Invariant(g, Step(g, s, spawnX, spawnY))
  {
  }

  // ---------------------------------------------------------------------------
  // Runs of the timer loop interleaved with key presses

  predicate SpawnsInRange(g: Grid, events: seq<Event>)
  {
    forall i :: 0 <= i < |events| && events[i].Tick? ==>
      InSpawnRange(events[i].spawnX, Columns(g)) && InSpawnRange(events[i].spawnY, Rows(g))
  }

  /**
   * The state after a sequence of timer ticks and key presses. The invariant holds
   * throughout, the score never decreases, and once the game is over the body, the
   * food and the score stay fixed (key presses still latch a direction, as the
   * listener is never actually removed).
   */
  function Run(g: Grid, s: GameState, events: seq<Event>): (r: GameState)
    requires Invariant(g, s) && SpawnsInRange(g, events)
    ensures Invariant(g, r)
    ensures r.score >= s.score
    ensures |r.snake| - |s.snake| == r.score - s.score
    ensures s.gameOver ==> r.gameOver && r.snake == s.snake && r.food == s.food && r.score == s.score
    decreases |events|
  {
    if events == [] then s
    else
      assert SpawnsInRange(g, events[1..]) by {
        forall i | 0 <= i < |events[1..]| && events[1..][i].Tick?
          ensures InSpawnRange(events[1..][i].spawnX, Columns(g)) && InSpawnRange(events[1..][i].spawnY, Rows(g))
        {
          assert events[1..][i] == events[i + 1];
        }
      }
      match events[0]
      case KeyDown(code) => Run(g, Press(s, code), events[1..])
      case Tick(x, y) =>
        assert InSpawnRange(x, Columns(g)) && InSpawnRange(y, Rows(g)) by {
          assert events[0].Tick?;
        }
        StepPreservesInvariant(g, s, x, y);
        StepScore(g, s, x, y);
        Run(g, Step(g, s, x, y), events[1..])
  }

  // ---------------------------------------------------------------------------
  // Scenarios on the 640 x 480 canvas the page creates

  /** One tick from the start: the head moves to (3, 0), the tail (0, 0) is dropped, the score stays 0. */
  lemma FirstTickMovesRight(spawnX: int, spawnY: int)
    ensures Step(Grid(640, 480), Initial(), spawnX, spawnY)
      == GameState([Cell(3, 0, 10, 10, Green), Cell(2, 0, 10, 10, Green), Cell(1, 0, 10, 10, Green)],
                   Cell(1, 1, 10, 10, Green), "right", 0, false)
  {
  }

  /** Food directly ahead: the score becomes 1, the snake grows to 4 and the food moves to the respawn position. */
  lemma FoodAheadIsEaten(spawnX: int, spawnY: int)
    ensures var r := Step(Grid(640, 480), Initial().(food := Cell(3, 0, 10, 10, Green)), spawnX, spawnY);
      r.score == 1 && |r.snake| == 4 && r.food == Cell(spawnX, spawnY, 10, 10, Green) && !r.gameOver
  {
  }

  /** Steering left with the head in column 0 moves the candidate head to x = -1 and ends the game. */
  lemma LeftEdgeEndsGame(g: Grid, s: GameState, spawnX: int, spawnY: int)
    requires |s.snake| > 0 && !s.gameOver
    requires s.snake[0].x == 0 && s.direction == "left"
    ensures NextHead(s.snake[0], s.direction).x == -1
    ensures Step(g, s, spawnX, spawnY).gameOver
  {
  }
}
