/**
 * The rules of the snake game as values: the 20 x 20 grid, cells, directions,
 * keys, the whole game state as one datatype, and one function per step of the
 * engine (move, collision check, food check, timer tick, key press, lifecycle).
 * The class in snake_engine.dfy mutates fields; its methods are specified by the
 * functions of this module, and the lemmas here state what the game promises.
 */
module SnakeRules {

  /** Board size in pixels and the size of one cell in pixels. */
  const Width := 400
  const Height := 400
  const GridSize := 20

  /** The grid has Width / GridSize columns and Height / GridSize rows (20 each). */
  const Cols := Width / GridSize
  const Rows := Height / GridSize
  const GridCells := Cols * Rows

  /** Starting cells of a fresh game and the score step per food eaten. */
  const StartCell := Cell(10, 10)
  const StartFood := Cell(15, 15)
  const FoodScore := 10

  datatype Cell = Cell(x: int, y: int)

  /** The four values the source's direction string ever takes. */
  datatype Direction = Up | Down | Left | Right

  /** The key codes the key handler distinguishes; every other key is KeyOther. */
  datatype Key = KeyW | KeyUp | KeyS | KeyDown | KeyA | KeyLeft | KeyD | KeyRight
               | KeySpace | KeyM | KeyOther

  /** Everything the engine stores, field by field. */
  datatype Game = Game(snake: seq<Cell>, food: Cell, direction: Direction,
                       running: bool, score: int, sound: bool)

  predicate InGrid(c: Cell) {
    0 <= c.x < Cols && 0 <= c.y < Rows
  }

  /** A cell where food may be placed: on the board and on no segment of s. */
  predicate Free(c: Cell, s: seq<Cell>) {
    InGrid(c) && c !in s
  }

  predicate AllInGrid(s: seq<Cell>) {
    forall i :: 0 <= i < |s| ==> InGrid(s[i])
  }

  predicate Distinct(s: seq<Cell>) {
    forall i, j :: 0 <= i < j < |s| ==> s[i] != s[j]
  }

  function Opposite(d: Direction): Direction {
    match d
    case Up => Down
    case Down => Up
    case Left => Right
    case Right => Left
  }

  /** The cell one step from c in direction d (y grows downwards). */
  function Step(c: Cell, d: Direction): Cell {
    match d
    case Up => Cell(c.x, c.y - 1)
    case Down => Cell(c.x, c.y + 1)
    case Left => Cell(c.x - 1, c.y)
    case Right => Cell(c.x + 1, c.y)
  }

  /**
   * What holds between any two engine calls: a non-empty snake of distinct
   * cells on the board, food on a free cell, and ten points per extra segment.
   */
  ghost predicate Inv(g: Game) {
    |g.snake| >= 1 &&
    AllInGrid(g.snake) &&
    Distinct(g.snake) &&
    Free(g.food, g.snake) &&
    g.score == FoodScore * (|g.snake| - 1)
  }

  // ---------------------------------------------------------------- lifecycle

  /** The state initGame leaves: one segment, fixed food, heading right, stopped. */
  function InitialGame(sound: bool): (g: Game)
    ensures Inv(g) && !g.running && g.sound == sound
  {
    Game([StartCell], StartFood, Right, false, 0, sound)
  }

  /** startGame: sets the running flag when it is clear. */
  function StartResult(g: Game): Game {
    if !g.running then g.(running := true) else g
  }

  /** pauseGame: clears the running flag when it is set. */
  function PauseResult(g: Game): Game {
    if g.running then g.(running := false) else g
  }

  /**
   * gameOver: clear the flag, re-initialise (which keeps the sound setting),
   * start again.
   */
  function GameOverResult(g: Game): (r: Game)
    ensures Inv(r) && r.running && r.sound == g.sound
  {
    StartResult(InitialGame(g.sound))
  }

  // ---------------------------------------------------------------- one tick

  function NextHead(g: Game): Cell
    requires |g.snake| > 0
  {
    Step(g.snake[0], g.direction)
  }

  predicate Eats(g: Game)
    requires |g.snake| > 0
  {
    NextHead(g) == g.food
  }

  /**
   * moveSnake: insert the new head; on food add ten points and put the food
   * on the cell `draw` that the food generator picks, otherwise drop the tail.
   */
  function MoveResult(g: Game, draw: Cell): Game
    requires |g.snake| > 0
  {
    var head := NextHead(g);
    if head == g.food then
      g.(snake := [head] + g.snake, score := g.score + FoodScore, food := draw)
    else
      g.(snake := [head] + g.snake[..|g.snake| - 1])
  }

  /** The test of checkCollision: head off the board, or on a later segment. */
  predicate Collides(s: seq<Cell>)
    requires |s| > 0
  {
    !InGrid(s[0]) || s[0] in s[1..]
  }

  function CollisionResult(g: Game): Game
    requires |g.snake| > 0
  {
    if Collides(g.snake) then GameOverResult(g) else g
  }

  /** checkFood: a head on the food scores and moves the food to `draw`. */
  function FoodResult(g: Game, draw: Cell): Game
    requires |g.snake| > 0
  {
    if g.snake[0] == g.food then g.(score := g.score + FoodScore, food := draw) else g
  }

  /**
   * actionPerformed: when running, move, check collision, check food.
   * moveDraw and foodDraw are the cells the two food-generator calls would pick.
   */
  function TickResult(g: Game, moveDraw: Cell, foodDraw: Cell): Game
    requires |g.snake| > 0
  {
    if !g.running then g
    else
      var moved := MoveResult(g, moveDraw);
      var checked := CollisionResult(moved);
      FoodResult(checked, foodDraw)
  }

  /** A draw the food generator can return after the move: a free cell of the grown snake. */
  predicate DrawOk(g: Game, draw: Cell)
    requires |g.snake| > 0
  {
    Eats(g) ==> Free(draw, [NextHead(g)] + g.snake)
  }

  /** The move that fills the last free cell, after which the food generator never returns. */
  predicate FillsBoard(g: Game)
    requires |g.snake| > 0
  {
    Eats(g) && |g.snake| + 1 == GridCells
  }

  // ---------------------------------------------------------------- keys

  /** The direction part of keyPressed: a turn is ignored when it would reverse. */
  function Steer(g: Game, k: Key): Game {
    match k
    case KeyW | KeyUp => if g.direction != Down then g.(direction := Up) else g
    case KeyS | KeyDown => if g.direction != Up then g.(direction := Down) else g
    case KeyA | KeyLeft => if g.direction != Right then g.(direction := Left) else g
    case KeyD | KeyRight => if g.direction != Left then g.(direction := Right) else g
    case _ => g
  }

  /** The keys that steer: W and Up, S and Down, A and Left, D and Right. */
  predicate IsSteeringKey(k: Key) {
    k != KeySpace && k != KeyM && k != KeyOther
  }

  /** The direction a steering key asks for. */
  function KeyDirection(k: Key): Direction
    requires IsSteeringKey(k)
  {
    match k
    case KeyW | KeyUp => Up
    case KeyS | KeyDown => Down
    case KeyA | KeyLeft => Left
    case KeyD | KeyRight => Right
  }

  /** keyPressed: steer while running, then Space toggles the run, then M the sound. */
  function KeyResult(g: Game, k: Key): Game {
    var steered := if g.running then Steer(g, k) else g;
    var toggled :=
      if k == KeySpace then
        (if !steered.running then StartResult(steered) else PauseResult(steered))
      else steered;
    if k == KeyM then toggled.(sound := !toggled.sound) else toggled
  }

  // ---------------------------------------------------------------- counting cells

  /** Every cell of the board, row by row. */
  function GridCellSeq(): seq<Cell> {
    seq(GridCells, k requires 0 <= k < GridCells => Cell(k % Cols, k / Cols))
  }

  function Elems(s: seq<Cell>): set<Cell> {
    set c | c in s
  }

  /** GridCellSeq lists each board cell exactly once. */
  lemma GridCellSeqEnumerates()
    ensures |GridCellSeq()| == GridCells
    ensures Distinct(GridCellSeq())
    ensures forall c :: c in GridCellSeq() <==> InGrid(c)
  {
    var s := GridCellSeq();
    assert Cols == 20 && Rows == 20;
    forall c | InGrid(c) ensures c in s {
      var k := c.y * Cols + c.x;
      assert s[k] == c;
    }
  }

  lemma {:induction false} DistinctCard(s: seq<Cell>)
    requires Distinct(s)
    ensures |Elems(s)| == |s|
  {
    if s != [] {
      DistinctCard(s[1..]);
      assert Elems(s) == {s[0]} + Elems(s[1..]);
      assert s[0] !in Elems(s[1..]);
    }
  }

  lemma SubsetCard(a: set<Cell>, b: set<Cell>)
    requires a <= b
    ensures |a| <= |b|
  {
    assert b == a + (b - a);
  }

  /**
   * Pigeonhole: a snake of distinct cells on the board leaves a free cell
   * exactly when it is shorter than the board has cells.
   */
  lemma FreeCellIffShort(s: seq<Cell>)
    requires AllInGrid(s) && Distinct(s)
    ensures (exists c :: Free(c, s)) <==> |s| < GridCells
  {
    GridCellSeqEnumerates();
    DistinctCard(s);
    DistinctCard(GridCellSeq());
    var all := Elems(GridCellSeq());
    assert Elems(s) <= all;
    if c :| Free(c, s) {
      assert Elems(s) <= all - {c};
      SubsetCard(Elems(s), all - {c});
    }
    if |s| < GridCells {
      var missing := all - Elems(s);
      SubsetCard(all * Elems(s), Elems(s));
      assert |missing| > 0;
      var c :| c in missing;
      assert Free(c, s);
    }
  }

  // ---------------------------------------------------------------- properties

  /** Between calls the snake is shorter than the board and the score is a non-negative multiple of ten. */
  lemma InvBounds(g: Game)
    requires Inv(g)
    ensures |g.snake| < GridCells
    ensures 0 <= g.score < FoodScore * (GridCells - 1) && g.score % FoodScore == 0
  {
    FreeCellIffShort(g.snake);
  }

  /**
   * A step and a step back in the opposite direction cancel; a step always
   * changes the cell. This is why the key handler refuses an outright reversal:
   * the snake's next head would be the cell its second segment came from.
   */
  lemma StepOpposite(c: Cell, d: Direction)
    ensures Step(Step(c, d), Opposite(d)) == c
    ensures Opposite(d) != d && Opposite(Opposite(d)) == d
    ensures Step(c, d) != c
  {
  }

  /**
   * moveSnake moves the head one cell in the current direction. On food the
   * snake grows by the new head and keeps all its old cells; otherwise its
   * length is unchanged and exactly the old tail is gone.
   */
  lemma MoveShape(g: Game, draw: Cell)
    requires |g.snake| > 0
    ensures var m := MoveResult(g, draw);
      |m.snake| > 0 &&
      m.snake[0] == Step(g.snake[0], g.direction) &&
      m.direction == g.direction && m.running == g.running && m.sound == g.sound &&
      (Eats(g) ==> m.snake[1..] == g.snake && m.score == g.score + FoodScore && m.food == draw) &&
      (!Eats(g) ==> |m.snake| == |g.snake| && m.snake + [g.snake[|g.snake| - 1]] == [m.snake[0]] + g.snake &&
                    m.score == g.score && m.food == g.food)
  {
  }

  /**
   * Game over on a tick happens exactly when the new head leaves the board or
   * lands on an old segment other than the tail the move just vacated; moving
   * onto the food never ends the game.
   */
  lemma CollidesIff(g: Game, draw: Cell)
    requires Inv(g)
    ensures var h := NextHead(g);
      Collides(MoveResult(g, draw).snake) <==>
        !InGrid(h) || (h != g.food && h in g.snake[..|g.snake| - 1])
  {
  }

  /** The moved snake, when it does not collide, again satisfies the invariant. */
  lemma MoveKeepsInv(g: Game, draw: Cell)
    requires Inv(g) && DrawOk(g, draw)
    requires !Collides(MoveResult(g, draw).snake)
    ensures Inv(MoveResult(g, draw))
  {
  }

  /** A tick preserves the invariant, whatever free cells the food generator picks. */
  lemma TickKeepsInv(g: Game, moveDraw: Cell, foodDraw: Cell)
    requires Inv(g) && DrawOk(g, moveDraw)
    ensures Inv(TickResult(g, moveDraw, foodDraw))
  {
  }

  /**
   * A running tick either ends the game and restarts it, or leaves exactly the
   * moved snake; checkFood never fires, because after a move that ate, the new
   * food is off the snake, and after a move that did not eat, the head is not
   * on the food. The score rises by ten exactly on a tick that eats.
   */
  lemma TickOutcome(g: Game, moveDraw: Cell, foodDraw: Cell)
    requires Inv(g) && DrawOk(g, moveDraw) && g.running
    ensures var m := MoveResult(g, moveDraw);
      var t := TickResult(g, moveDraw, foodDraw);
      (Collides(m.snake) ==> t == GameOverResult(g)) &&
      (!Collides(m.snake) ==> t == m && Inv(t)) &&
      t == CollisionResult(m) &&
      t.score == (if Collides(m.snake) then 0 else if Eats(g) then g.score + FoodScore else g.score)
  {
  }

  /** A tick while stopped changes nothing. */
  lemma TickWhileStopped(g: Game, moveDraw: Cell, foodDraw: Cell)
    requires |g.snake| > 0 && !g.running
    ensures TickResult(g, moveDraw, foodDraw) == g
  {
  }

  /** Game over leaves only the sound setting of the old state and a running fresh game. */
  lemma GameOverState(g: Game)
    ensures GameOverResult(g) == Game([Cell(10, 10)], Cell(15, 15), Right, true, 0, g.sound)
  {
  }

  /** Score bookkeeping across a tick: never negative, a multiple of ten, at most ten more. */
  lemma TickScore(g: Game, moveDraw: Cell, foodDraw: Cell)
    requires Inv(g) && DrawOk(g, moveDraw)
    ensures var t := TickResult(g, moveDraw, foodDraw);
      0 <= t.score <= g.score + FoodScore && t.score % FoodScore == 0
  {
  }

  /** Unless the move fills the board, a tick has a legal draw for the food generator. */
  lemma DrawExists(g: Game)
    requires Inv(g) && !FillsBoard(g)
    ensures exists c :: DrawOk(g, c)
  {
    if Eats(g) {
      var grown := [NextHead(g)] + g.snake;
      InvBounds(g);
      forall i, j | 0 <= i < j < |grown| ensures grown[i] != grown[j] {
        if i > 0 {
          assert grown[i] == g.snake[i - 1];
        }
        assert grown[j] == g.snake[j - 1];
      }
      assert AllInGrid(grown) by {
        forall i | 0 <= i < |grown| ensures InGrid(grown[i]) {
          if i > 0 {
            assert grown[i] == g.snake[i - 1];
          }
        }
      }
      FreeCellIffShort(grown);
      var c :| Free(c, grown);
      assert DrawOk(g, c);
    } else {
      assert DrawOk(g, g.food);
    }
  }

  /**
   * While running, a steering key sets the direction it asks for unless that
   * is the opposite of the current one, which leaves the direction as it was;
   * so a key never turns the snake straight back. Other keys, and every key
   * while stopped, leave the direction alone. Space flips the running flag
   * and M the sound.
   */
  lemma KeyEffect(g: Game, k: Key)
    ensures var r := KeyResult(g, k);
      r.direction != Opposite(g.direction) &&
      (g.running && IsSteeringKey(k) ==>
        r.direction == (if KeyDirection(k) == Opposite(g.direction) then g.direction else KeyDirection(k))) &&
      (!IsSteeringKey(k) ==> r.direction == g.direction) &&
      r.snake == g.snake && r.food == g.food && r.score == g.score &&
      (!g.running ==> r.direction == g.direction) &&
      (r.running <==> (if k == KeySpace then !g.running else g.running)) &&
      (r.sound <==> (if k == KeyM then !g.sound else g.sound))
  {
  }

  /** Two keys between ticks can reverse the snake: right, then up, then left. */
  lemma TwoKeysReverse(g: Game)
    requires g.running && g.direction == Right
    ensures KeyResult(KeyResult(g, KeyUp), KeyLeft).direction == Opposite(g.direction)
  {
  }

  /**
   * Chasing the tail is safe: a head that moves into the cell the tail leaves
   * does not eat, does not collide, and the tick leaves the moved snake, of
   * the same length, with the old tail cell as its new head.
   */
  lemma TailChaseIsSafe(g: Game, moveDraw: Cell, foodDraw: Cell)
    requires Inv(g) && NextHead(g) == g.snake[|g.snake| - 1]
    ensures !Eats(g) && !Collides(MoveResult(g, moveDraw).snake)
    ensures |MoveResult(g, moveDraw).snake| == |g.snake|
    ensures g.running ==> TickResult(g, moveDraw, foodDraw) == MoveResult(g, moveDraw)
  {
  }

  /** One example of a tail chase: a four-cell square turning into its own tail. */
  lemma TailChaseExample()
    ensures var g := Game([Cell(5, 5), Cell(5, 6), Cell(4, 6), Cell(4, 5)], Cell(0, 0), Left, true, 30, true);
      Inv(g) && !Collides(MoveResult(g, Cell(0, 0)).snake) &&
      TickResult(g, Cell(0, 0), Cell(0, 0)).snake == [Cell(4, 5), Cell(5, 5), Cell(5, 6), Cell(4, 6)]
  {
  }

  /** A running snake whose next head lands on a segment other than its tail ends the game. */
  lemma FoldedSnakeCollides(g: Game, moveDraw: Cell, foodDraw: Cell)
    requires Inv(g) && g.running && NextHead(g) in g.snake[..|g.snake| - 1]
    ensures TickResult(g, moveDraw, foodDraw) == GameOverResult(g)
  {
  }

  /** One example of a fold: a five-cell snake turning into its fourth segment. */
  lemma FoldedSnakeExample()
    ensures var g := Game([Cell(5, 5), Cell(5, 6), Cell(4, 6), Cell(4, 5), Cell(4, 4)], Cell(0, 0), Left, true, 40, true);
      Inv(g) && TickResult(g, Cell(0, 0), Cell(0, 0)) == GameOverResult(g)
  {
    var g := Game([Cell(5, 5), Cell(5, 6), Cell(4, 6), Cell(4, 5), Cell(4, 4)], Cell(0, 0), Left, true, 40, true);
    assert MoveResult(g, Cell(0, 0)).snake[4] == Cell(4, 5);
  }

  /** A running snake whose head is in the rightmost column and heads right ends the game. */
  lemma RightWallCollides(g: Game, moveDraw: Cell, foodDraw: Cell)
    requires Inv(g) && g.running && g.direction == Right && g.snake[0].x == Cols - 1
    ensures TickResult(g, moveDraw, foodDraw) == GameOverResult(g)
  {
  }

  /** More generally, a running tick whose next head leaves the board ends the game. */
  lemma LeavingBoardCollides(g: Game, moveDraw: Cell, foodDraw: Cell)
    requires Inv(g) && g.running && !InGrid(NextHead(g))
    ensures TickResult(g, moveDraw, foodDraw) == GameOverResult(g)
  {
  }

  /** Five ticks from a fresh running game heading right: head at (15, 10), nothing eaten. */
  lemma FiveTicksFromStart(draw: Cell)
    ensures var g0 := StartResult(InitialGame(true));
      var g1 := TickResult(g0, draw, draw);
      var g2 := TickResult(g1, draw, draw);
      var g3 := TickResult(g2, draw, draw);
      var g4 := TickResult(g3, draw, draw);
      var g5 := TickResult(g4, draw, draw);
      g5.snake == [Cell(15, 10)] && g5.score == 0 && g5.food == Cell(15, 15) && g5.running
  {
  }
}
