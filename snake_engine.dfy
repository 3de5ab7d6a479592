/**
 * The game engine of SnakeGame.java as a class whose fields are the source's
 * fields. Every method updates the fields in place, as the source does. The
 * lifecycle, tick, move, collision, food and key methods state their new state
 * as the matching function of SnakeRules applied to the old state; GenerateFood
 * states where the food ends, and IsFoodInsideSnake changes nothing.
 * Valid() is the invariant Inv of the current state.
 */
module SnakeEngine {
  import opened SnakeRules

  class SnakeGame {
    var snake: seq<Cell>
    var food: Cell
    var direction: Direction
    var gameRunning: bool
    var score: int
    var soundEnabled: bool

    /** The fields as one value. */
    function Snapshot(): Game
      reads this
    {
      Game(snake, food, direction, gameRunning, score, soundEnabled)
    }

    ghost predicate Valid()
      reads this
    {
      Inv(Snapshot())
    }

    /** Sound starts enabled; then initGame sets up the board. */
    constructor ()
      ensures Valid()
      ensures Snapshot() == InitialGame(true)
    {
      soundEnabled := true;
      new;
      InitGame();
    }

    method InitGame()
      modifies this
      ensures Valid()
      ensures Snapshot() == InitialGame(old(soundEnabled))
    {
      snake := [Cell(10, 10)];
      food := Cell(15, 15);
      direction := Right;
      gameRunning := false;
      score := 0;
    }

    method StartGame()
      requires Valid()
      modifies this
      ensures Valid()
      ensures Snapshot() == StartResult(old(Snapshot()))
    {
      if !gameRunning {
        gameRunning := true;
      }
    }

    method PauseGame()
      requires Valid()
      modifies this
      ensures Valid()
      ensures Snapshot() == PauseResult(old(Snapshot()))
    {
      if gameRunning {
        gameRunning := false;
      }
    }

    /**
     * Puts the food on some free cell of the board. Which one the random
     * source would pick is left open; the source's retry loop only returns
     * once it has drawn such a cell, so one must exist.
     */
    method GenerateFood()
      requires exists c :: Free(c, snake)
      modifies this`food
      ensures Free(food, snake)
    {
      var c :| Free(c, snake);
      food := c;
    }

    /** Whether some segment of the snake lies on the food. */
    method IsFoodInsideSnake() returns (inside: bool)
      ensures inside <==> food in snake
    {
      for i := 0 to |snake|
        invariant forall j :: 0 <= j < i ==> snake[j] != food
      {
        if snake[i] == food {
          return true;
        }
      }
      return false;
    }

    /** Insert the new head; eat and regenerate the food, or drop the tail. */
    method MoveSnake()
      requires Valid() && !FillsBoard(Snapshot())
      modifies this
      ensures Snapshot() == MoveResult(old(Snapshot()), food)
      ensures DrawOk(old(Snapshot()), food)
    {
      ghost var g := Snapshot();
      var head := Step(snake[0], direction);
      snake := [head] + snake;
      if head.x == food.x && head.y == food.y {
        assert head == food;
        score := score + 10;
        DrawExists(g);
        ghost var c :| DrawOk(g, c);
        assert Free(c, snake);
        GenerateFood();
      } else {
        snake := snake[..|snake| - 1];
      }
    }

    /** Ends the game when the head is off the board or on a later segment. */
    method CheckCollision()
      requires |snake| > 0
      modifies this
      ensures Snapshot() == CollisionResult(old(Snapshot()))
    {
      var head := snake[0];
      if head.x < 0 || head.x >= Cols || head.y < 0 || head.y >= Rows {
        GameOver();
        return;
      }
      for i := 1 to |snake|
        invariant Snapshot() == old(Snapshot())
        invariant forall j :: 1 <= j < i ==> snake[j] != head
      {
        if head == snake[i] {
          GameOver();
          return;
        }
      }
    }

    /** Scores when the head is on the food (after a move, it never is). */
    method CheckFood()
      requires |snake| > 0
      requires snake[0] == food ==> exists c :: Free(c, snake)
      modifies this
      ensures Snapshot() == FoodResult(old(Snapshot()), food)
      ensures old(snake[0] == food) ==> Free(food, snake)
    {
      var head := snake[0];
      if head.x == food.x && head.y == food.y {
        assert head == food;
        ghost var c :| Free(c, snake);
        score := score + 10;
        assert Free(c, snake);
        GenerateFood();
      }
    }

    /** Stop, re-initialise and start again at once. */
    method GameOver()
      modifies this
      ensures Valid()
      ensures Snapshot() == GameOverResult(old(Snapshot()))
    {
      gameRunning := false;
      InitGame();
      StartGame();
    }

    /**
     * One timer tick. The ghost results are the cells the food generator
     * picked in moveSnake and in checkFood (each left as it was when not called).
     */
    method ActionPerformed() returns (ghost moveDraw: Cell, ghost foodDraw: Cell)
      requires Valid()
      requires gameRunning ==> !FillsBoard(Snapshot())
      modifies this
      ensures Valid()
      ensures Snapshot() == TickResult(old(Snapshot()), moveDraw, foodDraw)
      ensures old(gameRunning) ==> DrawOk(old(Snapshot()), moveDraw)
    {
      moveDraw, foodDraw := food, food;
      if gameRunning {
        ghost var g := Snapshot();
        MoveSnake();
        moveDraw := food;
        CheckCollision();
        TickOutcome(g, moveDraw, foodDraw);
        CheckFood();
        foodDraw := food;
      }
    }

    /** Steer while running (never straight back), Space start/pause, M sound. */
    method KeyPressed(key: Key)
      requires Valid()
      modifies this
      ensures Valid()
      ensures Snapshot() == KeyResult(old(Snapshot()), key)
    {
      if gameRunning {
        match key
        case KeyW | KeyUp =>
          if direction != Down {
            direction := Up;
          }
        case KeyS | KeyDown =>
          if direction != Up {
            direction := Down;
          }
        case KeyA | KeyLeft =>
          if direction != Right {
            direction := Left;
          }
        case KeyD | KeyRight =>
          if direction != Left {
            direction := Right;
          }
        case _ =>
      }
      if key == KeySpace {
        if !gameRunning {
          StartGame();
        } else {
          PauseGame();
        }
      }
      if key == KeyM {
        soundEnabled := !soundEnabled;
      }
    }
  }
}
