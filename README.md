# Snake game engine in Dafny

A model of the game engine of a single-window snake game (`SnakeGame.java`).
A snake moves on a 20 x 20 grid (a 400 x 400 pixel board with 20-pixel cells).
It moves one cell per timer tick in its current direction. Eating the food
grows it by one segment, scores 10 points and puts new food on a free cell.
Leaving the board or running into its own body ends the game. The game is
then reset and restarts at once. Keys steer the snake, start and pause the
game (Space) and toggle the sound (M).

The project has two modules:

- `SnakeRules` (`snake_rules.dfy`) holds values only:
  - the cells, the four directions, the keys the handler distinguishes, and the whole engine state as a datatype `Game`;
  - one function per engine step: `InitialGame`, `StartResult`, `PauseResult`, `GameOverResult`, `MoveResult`, `CollisionResult`, `FoodResult`, `TickResult`, `Steer`, `KeyResult`;
  - the invariant `Inv`: the snake is non-empty, its cells are distinct and on the board, the food is on a free cell, and the score is 10 points per segment beyond the first;
  - the lemmas below.
  The random cell the food generator picks is a parameter, `draw`, of these functions.
- `SnakeEngine` (`snake_engine.dfy`) holds the class `SnakeGame`. Its fields are the source's fields: `snake`, `food`, `direction`, `gameRunning`, `score` and `soundEnabled`. Each method updates them in place as the source does. `Valid()` is `Inv` of the current state.
  - The postconditions of the constructor, `InitGame`, `StartGame`, `PauseGame`, `MoveSnake`, `CheckCollision`, `CheckFood`, `GameOver`, `ActionPerformed` and `KeyPressed` equate the new state, `Snapshot()`, with the matching `SnakeRules` function of the old state.
  - `GenerateFood` changes only the food and states that it ends on a free cell.
  - `IsFoodInsideSnake` changes nothing and states what it returns.
  - `IsFoodInsideSnake` and `CheckCollision` walk the snake with `for` loops, as the source does.
  - `GenerateFood` picks an arbitrary free cell with `:|`. It requires that one exists.
  - `ActionPerformed` returns, as ghost results, the cells the two food-generator calls picked, so its postcondition can be an equation.

The model follows the code as written:

- Direction changes are applied at once in the key handler. They are not buffered until the next tick. Two keys between ticks can therefore reverse the snake (`TwoKeysReverse`).
- The new head is inserted, and food is eaten or the tail dropped, before the collision check runs. Moving into the cell the tail just left is therefore not a collision (`CollidesIff`, `TailChaseIsSafe`).
- There is one `gameRunning` flag, not an Idle/Running/Paused/GameOver state.
- The restart after game over is not configurable.
- A full board is not a win; the source's food generator then never returns.

## Model

| member | source | states |
|---|---|---|
| `SnakeRules.InitialGame` | SnakeGame.java:51-62 | the fresh state (one segment at (10,10), food at (15,15), heading right, score 0) satisfies the invariant, is stopped and keeps the sound setting |
| `SnakeRules.GameOverResult` | SnakeGame.java:218-225 | the state after game over satisfies the invariant, is running, and keeps the sound setting |
| `SnakeRules.GameOverState` | SnakeGame.java:218-225 | game over leaves exactly snake [(10,10)], food (15,15), direction right, score 0, running, same sound |
| `SnakeRules.GridCellSeqEnumerates` | SnakeGame.java:82-84 | the board has 20 x 20 = 400 cells; the enumeration lists each of them once and nothing else |
| `SnakeRules.FreeCellIffShort` | SnakeGame.java:82-90 | a snake of distinct on-board cells leaves a free cell (so the food generator's retry loop can return) if and only if it has fewer than 400 cells |
| `SnakeRules.DrawExists` | SnakeGame.java:183-187 | unless the move fills the last free cell, the food generator called in moveSnake has a free cell to return |
| `SnakeRules.InvBounds` | SnakeGame.java:183-190 | under the invariant the snake is shorter than the board and the score is a non-negative multiple of 10 |
| `SnakeRules.StepOpposite` | SnakeGame.java:169-182 | a step changes the cell, a step followed by a step in the opposite direction returns to it, and opposite is an involution without fixed points |
| `SnakeRules.MoveShape` | SnakeGame.java:165-191 | the head moves one cell in the current direction; on food the old cells all stay behind the head, the score rises by 10 and the food moves to the drawn cell; otherwise the length is unchanged, only the old tail is gone, and food and score stay |
| `SnakeRules.CollidesIff` | SnakeGame.java:183-206 | the collision check fires exactly when the new head is off the board or on an old segment other than the vacated tail; eating never collides |
| `SnakeRules.MoveKeepsInv` | SnakeGame.java:183-206 | a move that passes the collision check keeps the invariant (distinct cells on the board, free food, score per segment) |
| `SnakeRules.TickOutcome` | SnakeGame.java:156-216 | a running tick resets the game on collision and otherwise yields exactly the moved state; checkFood never fires; the score becomes 0, old+10 or stays old accordingly |
| `SnakeRules.TickKeepsInv` | SnakeGame.java:156-163 | every tick keeps the invariant, for every free cell the food generator may pick |
| `SnakeRules.TickWhileStopped` | SnakeGame.java:156-163 | a tick while not running changes nothing |
| `SnakeRules.TickScore` | SnakeGame.java:184-187 | across a tick the score stays non-negative, a multiple of 10, and rises by at most 10 |
| `SnakeRules.KeyEffect` | SnakeGame.java:229-270 | while running, a steering key sets its direction unless that is the opposite of the current one, which leaves the direction unchanged; so the direction never becomes the opposite; other keys, and all keys while stopped, leave the direction alone; snake, food and score are untouched; Space flips the running flag, M flips the sound flag, and only they do |
| `SnakeRules.TwoKeysReverse` | SnakeGame.java:229-258 | heading right, Up then Left between two ticks turns the snake fully around |
| `SnakeRules.TailChaseIsSafe` | SnakeGame.java:183-206 | for every state satisfying the invariant, a head that moves into the cell its tail leaves does not eat and does not collide; the snake keeps its length and a running tick leaves exactly the moved state |
| `SnakeRules.TailChaseExample` | SnakeGame.java:183-206 | one example state: a four-cell square whose head turns into its tail does not collide, and the tick yields the expected four cells |
| `SnakeRules.FoldedSnakeCollides` | SnakeGame.java:201-206 | for every running state satisfying the invariant, a next head on an old segment other than the tail ends the game, whatever cells the food generator picks |
| `SnakeRules.FoldedSnakeExample` | SnakeGame.java:201-206 | one example state: a folded five-cell snake whose next head lands on its fourth segment ends the game |
| `SnakeRules.RightWallCollides` | SnakeGame.java:196-199 | for every state satisfying the invariant, a running snake whose head is in the rightmost column and heads right ends the game on the next tick |
| `SnakeRules.LeavingBoardCollides` | SnakeGame.java:196-199 | a running tick whose next head is off the board ends the game, whatever cells the food generator picks |
| `SnakeRules.FiveTicksFromStart` | SnakeGame.java:165-191 | five ticks from a freshly started game with no keys pressed leave a one-cell snake at (15,10), score 0, food (15,15) |
| `SnakeEngine.SnakeGame.constructor` | SnakeGame.java:41-48 | a new game is the initial state with sound enabled |
| `SnakeEngine.SnakeGame.InitGame` | SnakeGame.java:51-62 | reassigns all state to the initial state, keeps the sound flag, and establishes the invariant |
| `SnakeEngine.SnakeGame.StartGame` | SnakeGame.java:65-71 | sets the running flag, a no-op when already running; the invariant is kept |
| `SnakeEngine.SnakeGame.PauseGame` | SnakeGame.java:74-79 | clears the running flag, a no-op when not running; the invariant is kept |
| `SnakeEngine.SnakeGame.GenerateFood` | SnakeGame.java:82-90 | changes only the food, which ends on a board cell not covered by the snake |
| `SnakeEngine.SnakeGame.IsFoodInsideSnake` | SnakeGame.java:92-99 | returns true if and only if some segment equals the food |
| `SnakeEngine.SnakeGame.MoveSnake` | SnakeGame.java:165-191 | the new state is the move of the old one, with the regenerated food on a free cell of the grown snake |
| `SnakeEngine.SnakeGame.CheckCollision` | SnakeGame.java:193-207 | the new state is the game-over state when the head is off the board or on a later segment, and the old state otherwise |
| `SnakeEngine.SnakeGame.CheckFood` | SnakeGame.java:209-216 | when the head is on the food, adds 10 points and puts the food on a free cell of the snake; otherwise changes nothing |
| `SnakeEngine.SnakeGame.GameOver` | SnakeGame.java:218-225 | the new state is the restarted initial state with the old sound flag |
| `SnakeEngine.SnakeGame.ActionPerformed` | SnakeGame.java:156-163 | one tick: move, collision check, food check when running, nothing otherwise; the invariant is kept |
| `SnakeEngine.SnakeGame.KeyPressed` | SnakeGame.java:229-270 | steers (refusing reversals) only while running, then Space starts or pauses and M toggles sound; the invariant is kept |

## Left out

- Rendering (`paintComponent`, `drawGameBoard`, `drawSnake`, `drawFood`, `drawScore`): Swing drawing, colour arithmetic and a floating-point pulse. It does not change the game state.
- The Swing `Timer` start and stop, `repaint`, `requestFocusInWindow` and the game-over message dialog: platform side effects. Only the state changes around them are modelled.
- The beeps of `playBiteSound` and `playGameOverSound`: audio output. Only the `soundEnabled` flag is modelled.
- `main`, `createButton` and the Start, Pause and Sound buttons: UI construction. The buttons call `startGame`, `pauseGame` and the same sound toggle as M.
- The empty `keyTyped` and `keyReleased` handlers: they do nothing.
- `java.util.Random`: the cell the generator draws is an arbitrary free cell. It is a `:|` choice in `GenerateFood` and a parameter of the step functions. The probabilistic retry loop is not modelled.
- SnakeEngine.SnakeGame.MoveSnake: requires that the move does not eat the food on the board's last free cell, because the source's `generateFood` then loops forever. `FreeCellIffShort` shows that this is exactly the case with no free cell left.
- SnakeEngine.SnakeGame.ActionPerformed: has the same requirement as `MoveSnake`, for the same reason.
- Key codes are the closed datatype `Key`. Every key the handler does not test is `KeyOther`.
- The direction string is the enumeration `Direction`. The source only ever stores `"up"`, `"down"`, `"left"` and `"right"`.
- Java's 32-bit `int` is not modelled. Coordinates stay within -1..20 and the score below 4000 (`InvBounds`), so no value wraps around.
