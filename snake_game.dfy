/**
 * The `Game` class of game.ts with its simulation state updated in place.
 * The interval timer becomes an explicit `Tick`, the random respawn position a
 * parameter, and `_gameOver` the flag that makes later ticks do nothing.
 */
module SnakeGame {
  import opened SnakeRules

  class Game {
    const width: int
    const height: int
    const vw: int := CellWidth
    const vh: int := CellHeight
    const size: int := InitialSize

    var snake: seq<Cell>
    var food: Cell
    var direction: string
    var score: int
    var gameOver: bool

    function GridOf(): Grid
    {
      Grid(width, height)
    }

    function Snapshot(): GameState
      reads this
    {
      GameState(snake, food, direction, score, gameOver)
    }

    ghost predicate Valid()
      reads this
    {
      Invariant(GridOf(), Snapshot())
    }

    /** Builds the three-cell snake heading right with the food at (1, 1). */
    constructor (width: int, height: int)
      requires width % CellWidth == 0 && height % CellHeight == 0
      ensures Valid()
      ensures this.width == width && this.height == height
      ensures Snapshot() == Initial()
      ensures snake == [Cell(2, 0, 10, 10, Green), Cell(1, 0, 10, 10, Green), Cell(0, 0, 10, 10, Green)]
      ensures food == Cell(1, 1, 10, 10, Green) && direction == "right" && score == 0 && !gameOver
    {
      this.width := width;
      this.height := height;
      snake := [];
      direction := "right";
      score := 0;
      gameOver := false;
      food := Cell(1, 1, 10, 10, Green);
      new;
      InitSnake();
      InitialIsValid(GridOf());
    }

    /** Appends the cells x = size-1 down to 0 on row 0, counting down as `_initSnake` does. */
    method InitSnake()
      modifies this`snake
      ensures snake == old(snake) + InitialBody(size, vw, vh)
    {
      ghost var body := InitialBody(size, vw, vh);
      var i := size - 1;
      while i >= 0
        invariant -1 <= i < size
        invariant snake == old(snake) + body[..size - 1 - i]
      {
        assert body[..size - i] == body[..size - 1 - i] + [Cell(i, 0, vw, vh, Green)];
        snake := snake + [Cell(i, 0, vw, vh, Green)];
        i := i - 1;
      }
      assert body[..size] == body;
    }

    /** `_checkCollission`: a linear search for a cell of `arr` at (x, y). */
    method CheckCollision(x: int, y: int, arr: seq<Cell>) returns (hit: bool)
      ensures hit <==> Occupied(arr, x, y)
    {
      var i := 0;
      while i < |arr|
        invariant 0 <= i <= |arr|
        invariant forall j :: 0 <= j < i ==> !(arr[j].x == x && arr[j].y == y)
      {
        if x == arr[i].x && y == arr[i].y {
          return true;
        }
        i := i + 1;
      }
      return false;
    }

    /** `_gameOver`: clearing the timer is modelled as raising the flag. */
    method GameOver()
      modifies this`gameOver
      ensures gameOver
    {
      gameOver := true;
    }

    /** `_spawnFood`: moves the food to the position the random draw picked. */
    method SpawnFood(x: int, y: int)
      requires InSpawnRange(x, width / vw) && InSpawnRange(y, height / vh)
      modifies this`food
      ensures food == old(food).(x := x, y := y)
    {
      food := food.(x := x, y := y);
    }

    /** `_controlSnake`: one simulation step, including the rest of the tick after a collision. */
    method ControlSnake(spawnX: int, spawnY: int)
      requires |snake| > 0
      requires InSpawnRange(spawnX, width / vw) && InSpawnRange(spawnY, height / vh)
      modifies this
      ensures Snapshot() == Advance(GridOf(), old(Snapshot()), spawnX, spawnY)
    {
      var snakeX := snake[0].x;
      var snakeY := snake[0].y;
      var snakeW := snake[0].w;
      var snakeH := snake[0].h;
      var color := snake[0].color;
      if direction == "left" {
        snakeX := snakeX - 1;
      } else if direction == "right" {
        snakeX := snakeX + 1;
      } else if direction == "up" {
        snakeY := snakeY - 1;
      } else if direction == "down" {
        snakeY := snakeY + 1;
      }
      var newHead := Cell(snakeX, snakeY, snakeW, snakeH, color);
      var hit := CheckCollision(snakeX, snakeY, snake);
      if hit || snakeX * vw >= width || snakeY * vh >= height || snakeX < 0 || snakeY < 0 {
        GameOver();
      }
      if food.x == snakeX && food.y == snakeY {
        SpawnFood(spawnX, spawnY);
        score := score + 1;
      } else {
        snake := snake[..|snake| - 1];
      }
      snake := [newHead] + snake;
    }

    /** One firing of the interval timer; nothing happens once the game is over. */
    method Tick(spawnX: int, spawnY: int)
      requires Valid()
      requires InSpawnRange(spawnX, width / vw) && InSpawnRange(spawnY, height / vh)
      modifies this
      ensures Valid()
      ensures Snapshot() == Step(GridOf(), old(Snapshot()), spawnX, spawnY)
    {
      StepPreservesInvariant(GridOf(), Snapshot(), spawnX, spawnY);
      if !gameOver {
        ControlSnake(spawnX, spawnY);
      }
    }

    /** The keydown listener: arrow keys latch a direction; the listener stays active after game over. */
    method KeyDown(keyCode: int)
      requires Valid()
      modifies this`direction
      ensures Valid()
      ensures Snapshot() == Press(old(Snapshot()), keyCode)
    {
      if keyCode == 37 {
        direction := "left";
      } else if keyCode == 38 {
        direction := "up";
      } else if keyCode == 39 {
        direction := "right";
      } else if keyCode == 40 {
        direction := "down";
      }
    }
  }
}
