/**
 * The simulation core of the snake game: the snake, the food and the game
 * session with its fixed-timestep loop, without rendering. The board has a
 * fixed width and height; `Math.random()` is an arbitrary real in [0, 1).
 */
module SnakeGame {
  import opened Grid
  import opened Timing

  datatype Option<T> = None | Some(value: T)

  /** The heading rule of `setDirection`: the exact reverse of the current heading is refused. */
  function Steer(current: Dir, requested: Dir): (r: Dir)
    ensures requested == Reverse(current) ==> r == current
    ensures requested != Reverse(current) ==> r == requested
  {
    if current.dx == -requested.dx && current.dy == -requested.dy then current else requested
  }

  /**
   * The body after one move: the new head in front of the old body, which
   * loses its last cell unless the snake is growing.
   */
  function Advance(body: seq<Cell>, d: Dir, grow: bool, width: int, height: int): (r: seq<Cell>)
    requires |body| > 0 && width > 0 && height > 0
    ensures |r| == if grow then |body| + 1 else |body|
    ensures r[0] == NextHead(body[0], d, width, height)
    ensures forall i :: 1 <= i < |r| ==> r[i] == body[i - 1]
    ensures AllInGrid(body, width, height) && IsUnit(d) ==> AllInGrid(r, width, height)
  {
    [NextHead(body[0], d, width, height)] + if grow then body else body[..|body| - 1]
  }

  /** The head lies on another cell of the body. */
  predicate BitesItself(body: seq<Cell>): (r: bool)
    requires |body| > 0
    ensures r <==> exists i :: 1 <= i < |body| && body[i] == body[0]
  {
    body[0] in body[1..]
  }

  /**
   * Food that is off the body stays off it through a move that does not
   * bring the head onto it: the rest of the new body is old body.
   */
  lemma FoodStaysOff(body: seq<Cell>, d: Dir, grow: bool, food: Cell, width: int, height: int)
    requires |body| > 0 && width > 0 && height > 0 && food !in body
    ensures var moved := Advance(body, d, grow, width, height);
              moved[0] != food ==> food !in moved
  {
  }

  /**
   * The self-collision example: a snake coiled in a square whose head moves
   * onto the cell its neck has just left bites itself.
   */
  lemma SquareSnakeBites()
    ensures BitesItself(Advance([Cell(5, 5), Cell(6, 5), Cell(6, 6), Cell(5, 6)], Right, false, 20, 20))
  {
    var moved := Advance([Cell(5, 5), Cell(6, 5), Cell(6, 6), Cell(5, 6)], Right, false, 20, 20);
    NextHeadWraps(Cell(5, 5), Right, 20, 20);
    assert moved[1..][1] == Cell(6, 5);
  }

  /** No cell of the body appears twice. */
  predicate NoRepeats(cells: seq<Cell>) {
    forall i, j :: 0 <= i < j < |cells| ==> cells[i] != cells[j]
  }

  /**
   * A move of a body without repeated cells repeats a cell exactly when the
   * head lands on the rest of the body: the rest is old body, in order.
   */
  lemma AdvanceRepeatsIffBites(body: seq<Cell>, d: Dir, grow: bool, width: int, height: int)
    requires |body| > 0 && width > 0 && height > 0 && NoRepeats(body)
    ensures var moved := Advance(body, d, grow, width, height);
              NoRepeats(moved) <==> !BitesItself(moved)
  {
    var moved := Advance(body, d, grow, width, height);
    if BitesItself(moved) {
      var j :| 0 <= j < |moved[1..]| && moved[1..][j] == moved[0];
      assert moved[0] == moved[j + 1];
    } else {
      forall i, j | 0 <= i < j < |moved| ensures moved[i] != moved[j] {
        if i == 0 {
          assert moved[j] == moved[1..][j - 1];
        } else {
          assert moved[i] == body[i - 1] && moved[j] == body[j - 1];
        }
      }
    }
  }

  /** The simulation state of a session as a value: what a tick reads and writes. */
  datatype GameState = GameState(body: seq<Cell>, direction: Dir, grow: bool, food: Cell, gameOver: bool)

  /**
   * One pass of the drain loop's body: a finished game stays exactly as it
   * is; a running one moves the snake, then grows it and respawns the food
   * off the body if the new head is on the food, and is over exactly when
   * the new head lies on the rest of the body.
   */
  ghost predicate TickStep(s: GameState, t: GameState, width: int, height: int): (r: bool)
    ensures r && s.gameOver ==> t.gameOver
    ensures r ==> |t.body| >= |s.body| && t.direction == s.direction
    ensures r && !s.gameOver && AllInGrid(s.body, width, height) && IsUnit(s.direction) ==>
              AllInGrid(t.body, width, height)
  {
    if s.gameOver then t == s
    else
      |s.body| > 0 && width > 0 && height > 0
      && t.body == Advance(s.body, s.direction, s.grow, width, height)
      && t.direction == s.direction
      && (t.grow <==> t.body[0] == s.food)
      && (t.grow ==> InGrid(t.food, width, height) && t.food !in t.body)
      && (!t.grow ==> t.food == s.food)
      && (t.gameOver <==> BitesItself(t.body))
  }

  /** A sequence of states each of which is one tick after the one before. */
  ghost predicate IsRun(trace: seq<GameState>, width: int, height: int)
  {
    forall i :: 0 <= i < |trace| - 1 ==> TickStep(trace[i], trace[i + 1], width, height)
  }

  /** A run extended by one tick at its end is a run. */
  lemma RunExtends(trace: seq<GameState>, t: GameState, width: int, height: int)
    requires |trace| > 0 && IsRun(trace, width, height)
    requires TickStep(trace[|trace| - 1], t, width, height)
    ensures IsRun(trace + [t], width, height)
  {
    var longer := trace + [t];
    forall i | 0 <= i < |longer| - 1
      ensures TickStep(longer[i], longer[i + 1], width, height)
    {
      if i < |trace| - 1 {
        assert longer[i] == trace[i] && longer[i + 1] == trace[i + 1];
      } else {
        assert longer[i] == trace[|trace| - 1] && longer[i + 1] == t;
      }
    }
  }

  /** Once the game is over, every later tick leaves the whole state as it is. */
  lemma {:induction false} FinishedRunIsStill(trace: seq<GameState>, width: int, height: int, k: nat)
    requires IsRun(trace, width, height) && 0 < |trace| && trace[0].gameOver && k < |trace|
    ensures trace[k] == trace[0]
  {
    if k > 0 {
      FinishedRunIsStill(trace, width, height, k - 1);
      assert TickStep(trace[k - 1], trace[k], width, height);
    }
  }

  /** A tick keeps a running game's body free of repeated cells. */
  lemma TickKeepsNoRepeats(s: GameState, t: GameState, width: int, height: int)
    requires TickStep(s, t, width, height)
    requires !s.gameOver ==> NoRepeats(s.body)
    ensures !t.gameOver ==> NoRepeats(t.body)
  {
    if !s.gameOver {
      AdvanceRepeatsIffBites(s.body, s.direction, s.grow, width, height);
    }
  }

  /** `Math.random()`: some real in [0, 1); nothing is assumed about its distribution. */
  method MathRandom() returns (r: real)
    ensures 0.0 <= r < 1.0
  {
    r :| 0.0 <= r < 1.0;
  }

  /** `randomPosition`: the cell picked by two draws of `Math.random()`, scaled and floored. */
  function RandomPosition(width: int, height: int, rx: real, ry: real): (c: Cell)
    requires width > 0 && height > 0 && 0.0 <= rx < 1.0 && 0.0 <= ry < 1.0
    ensures InGrid(c, width, height)
  {
    FloorBelow(rx, width);
    FloorBelow(ry, height);
    Cell((rx * width as real).Floor, (ry * height as real).Floor)
  }

  lemma FloorBelow(r: real, n: int)
    requires 0.0 <= r < 1.0 && n > 0
    ensures 0 <= (r * n as real).Floor < n
  {
    assert r * n as real < n as real;
  }

  /** Every cell of the board is the position of some pair of draws. */
  lemma SampleFor(width: int, height: int, c: Cell) returns (rx: real, ry: real)
    requires width > 0 && height > 0 && InGrid(c, width, height)
    ensures 0.0 <= rx < 1.0 && 0.0 <= ry < 1.0
    ensures RandomPosition(width, height, rx, ry) == c
  {
    rx := c.x as real / width as real;
    ry := c.y as real / height as real;
    assert rx * width as real == c.x as real;
    assert ry * height as real == c.y as real;
  }

  /**
   * Food placed by the constructor or by a restart is not checked against
   * the body: it can land on the fresh snake's only cell.
   */
  lemma FreshFoodCanCoverFreshSnake(width: int, height: int) returns (rx: real, ry: real)
    requires width > 0 && height > 0
    ensures 0.0 <= rx < 1.0 && 0.0 <= ry < 1.0
    ensures RandomPosition(width, height, rx, ry) == Cell(width / 2, height / 2)
  {
    rx, ry := SampleFor(width, height, Cell(width / 2, height / 2));
  }

  /** The key table of the keyboard handler: arrow key codes to unit headings. */
  function KeyDirection(code: string): (r: Option<Dir>)
    ensures r.Some? ==> IsUnit(r.value)
    ensures r.Some? <==> code in {"ArrowUp", "ArrowDown", "ArrowLeft", "ArrowRight"}
  {
    if code == "ArrowUp" then Some(Up)
    else if code == "ArrowDown" then Some(Down)
    else if code == "ArrowLeft" then Some(Left)
    else if code == "ArrowRight" then Some(Right)
    else None
  }

  /** Every unit heading has a key. */
  lemma KeyFor(d: Dir) returns (code: string)
    requires IsUnit(d)
    ensures KeyDirection(code) == Some(d)
  {
    if d == Up { code := "ArrowUp"; }
    else if d == Down { code := "ArrowDown"; }
    else if d == Left { code := "ArrowLeft"; }
    else { code := "ArrowRight"; }
  }

  /** One call of the heading rule never yields the reverse of the current heading. */
  lemma SteerNeverReverses(current: Dir, requested: Dir)
    requires IsUnit(current) && IsUnit(requested)
    ensures IsUnit(Steer(current, requested))
    ensures Steer(current, requested) != Reverse(current)
    ensures requested != Reverse(current) ==> Steer(current, requested) == requested
  {
  }

  /**
   * The heading rule protects the neck: if the head just moved onto its cell
   * from `body[1]` along `moved`, then on a board at least 3 cells each way
   * no single change of heading sends the next head back onto `body[1]`.
   */
  lemma NeckIsSafe(body: seq<Cell>, moved: Dir, requested: Dir, width: int, height: int)
    requires width >= 3 && height >= 3 && |body| >= 2 && InGrid(body[1], width, height)
    requires IsUnit(moved) && IsUnit(requested)
    requires body[0] == NextHead(body[1], moved, width, height)
    ensures NextHead(body[0], Steer(moved, requested), width, height) != body[1]
  {
    SteerNeverReverses(moved, requested);
    ReturnOnlyByReversing(body[1], moved, Steer(moved, requested), width, height);
  }

  /** On a board at least 3 cells each way, two unit moves come back to the start only if the second reverses the first. */
  lemma ReturnOnlyByReversing(p: Cell, first: Dir, second: Dir, width: int, height: int)
    requires width >= 3 && height >= 3 && InGrid(p, width, height)
    requires IsUnit(first) && IsUnit(second)
    ensures NextHead(NextHead(p, first, width, height), second, width, height) == p ==> second == Reverse(first)
  {
    var q := NextHead(p, first, width, height);
    NextHeadWraps(p, first, width, height);
    NextHeadWraps(q, second, width, height);
    assert -1 <= first.dx <= 1 && -1 <= first.dy <= 1;
    assert -1 <= second.dx <= 1 && -1 <= second.dy <= 1;
    StepBackAxis(p.x, first.dx, second.dx, width);
    StepBackAxis(p.y, first.dy, second.dy, height);
  }

  /** Along one axis of at least 3 cells, two unit-or-zero steps return to the start only if they cancel. */
  lemma StepBackAxis(v: int, a: int, b: int, size: int)
    requires size >= 3 && 0 <= v < size && -1 <= a <= 1 && -1 <= b <= 1
    ensures Wrapped(Wrapped(v + a, size) + b, size) == v ==> a + b == 0
  {
  }

  /**
   * The rule compares against the current heading, not the last move: two
   * calls between ticks (Up, then Left) turn a right-moving snake around.
   */
  lemma TwoTurnsReverse()
    ensures Steer(Steer(Right, Up), Left) == Reverse(Right)
  {
  }

  /** The snake: its body, head first, its heading and whether the next move grows it. */
  class Snake {
    var body: seq<Cell>
    var direction: Dir
    var grow: bool

    ghost predicate Valid()
      reads this
    {
      |body| > 0 && IsUnit(direction)
    }

    /** The body length after the next move, if nothing is eaten in between. */
    ghost function NextLength(): nat
      reads this
    {
      |body| + if grow then 1 else 0
    }

    /** A snake of one cell at the centre of the board (floor of half each way), heading right. */
    constructor (width: int, height: int)
      ensures Valid()
      ensures body == [Cell(width / 2, height / 2)] && direction == Right && !grow
    {
      body := [Cell(width / 2, height / 2)];
      direction := Right;
      grow := false;
    }

    /** `update`: one move on the torus, growing by one cell if `grow` was set, which it clears. */
    method Update(width: int, height: int)
      requires |body| > 0 && width > 0 && height > 0
      modifies this
      ensures body == Advance(old(body), old(direction), old(grow), width, height)
      ensures direction == old(direction) && !grow
    {
      var newHead := NextHead(body[0], direction, width, height);
      body := [newHead] + body;
      if !grow {
        body := body[..|body| - 1];
      } else {
        grow := false;
      }
    }

    /** `setDirection`: takes the requested heading unless it is the exact reverse of the current one. */
    method SetDirection(d: Dir)
      modifies this
      ensures direction == Steer(old(direction), d)
      ensures body == old(body) && grow == old(grow)
    {
      if direction.dx == -d.dx && direction.dy == -d.dy {
        return;
      }
      direction := d;
    }
  }

  /** The food: one cell. */
  class Food {
    var position: Cell

    /** Food at a random cell, which may be any cell of the board, the snake's included. */
    constructor (width: int, height: int)
      requires width > 0 && height > 0
      ensures InGrid(position, width, height)
    {
      var rx := MathRandom();
      var ry := MathRandom();
      position := RandomPosition(width, height, rx, ry);
    }
  }

  /** The game session: board size, snake, food, the terminal flag and the clock. */
  class Game {
    const width: int
    const height: int
    const timeStep: int
    var snake: Snake
    var food: Food
    var gameOver: bool
    var lastTime: int
    var accumulator: int

    /** Board, step and every cell on the board. */
    ghost predicate OnBoard()
      reads this, snake, food
    {
      width > 0 && height > 0 && timeStep > 0
      && snake.Valid()
      && AllInGrid(snake.body, width, height)
      && InGrid(food.position, width, height)
    }

    /** The session invariant: on the board, and a running game's body repeats no cell. */
    ghost predicate Valid()
      reads this, snake, food
    {
      OnBoard() && (!gameOver ==> NoRepeats(snake.body))
    }

    ghost function State(): GameState
      reads this, snake, food
    {
      GameState(snake.body, snake.direction, snake.grow, food.position, gameOver)
    }

    ghost function ClockState(): Clock
      reads this
    {
      Clock(lastTime, accumulator)
    }

    /** A fresh session on a `w` by `h` board, with a step of 100 time units and no frame seen yet. */
    constructor (w: int, h: int)
      requires w > 0 && h > 0
      ensures Valid() && fresh(snake) && fresh(food)
      ensures width == w && height == h && timeStep == 100
      ensures snake.body == [Cell(w / 2, h / 2)] && snake.direction == Right && !snake.grow
      ensures !gameOver && lastTime == 0 && accumulator == 0
    {
      width, height := w, h;
      snake := new Snake(w, h);
      food := new Food(w, h);
      gameOver := false;
      lastTime := 0;
      accumulator := 0;
      timeStep := 100;
    }

    /**
     * `checkCollision`: if the head is on the food, the snake will grow and
     * the food moves to a random cell off the body (the accepted draw of the
     * rejection loop); then the terminal flag is set if the head is on any
     * other body cell. The body and the heading are not touched.
     */
    method CheckCollision()
      requires OnBoard()
      requires snake.body[0] == food.position ==>
                 exists c :: InGrid(c, width, height) && c !in snake.body
      modifies snake`grow, food, this`gameOver
      ensures OnBoard()
      ensures snake.body == old(snake.body) && snake.direction == old(snake.direction)
      ensures snake.body[0] == old(food.position) ==>
                snake.grow && food.position !in snake.body
      ensures snake.body[0] != old(food.position) ==>
                snake.grow == old(snake.grow) && food.position == old(food.position)
      ensures gameOver <==> old(gameOver) || BitesItself(snake.body)
    {
      var head := snake.body[0];
      if head == food.position {
        snake.grow := true;
        ghost var free :| InGrid(free, width, height) && free !in snake.body;
        ghost var gx, gy := SampleFor(width, height, free);
        assert RandomPosition(width, height, gx, gy) !in snake.body;
        var rx: real, ry: real :| 0.0 <= rx < 1.0 && 0.0 <= ry < 1.0
                                  && RandomPosition(width, height, rx, ry) !in snake.body;
        food.position := RandomPosition(width, height, rx, ry);
      }
      var i := 1;
      while i < |snake.body|
        invariant 1 <= i <= |snake.body|
        invariant gameOver == old(gameOver)
        invariant forall j :: 1 <= j < i ==> snake.body[j] != head
      {
        if head == snake.body[i] {
          assert snake.body[1..][i - 1] == head;
          gameOver := true;
          break;
        }
        i := i + 1;
      }
    }

    /**
     * The body of the drain loop: while the game is running, one move of the
     * snake followed by the collision check; once over, nothing.
     */
    method Tick()
      requires Valid()
      requires !gameOver ==> snake.NextLength() < width * height
      modifies snake, food, this`gameOver
      ensures Valid()
      ensures TickStep(old(State()), State(), width, height)
      ensures old(gameOver) ==> unchanged(snake) && unchanged(food)
      ensures old(food.position !in snake.body) ==> food.position !in snake.body
      ensures |old(snake.body)| <= |snake.body|
      ensures snake.NextLength() <= old(snake.NextLength()) + 1
    {
      if !gameOver {
        ghost var body0, direction0, grow0, food0 := snake.body, snake.direction, snake.grow, food.position;
        snake.Update(width, height);
        if snake.body[0] == food.position {
          ghost var free := FreeCell(snake.body, width, height);
        } else if food0 !in body0 {
          FoodStaysOff(body0, direction0, grow0, food0, width, height);
        }
        CheckCollision();
        TickKeepsNoRepeats(old(State()), State(), width, height);
      }
    }

    /**
     * `gameLoop`, without drawing and rescheduling: the clock fields follow
     * `Frame`, and the drain loop runs one `Tick` per whole step drained, so
     * a finished game only drains its accumulator.
     */
    method GameLoop(currentTime: int) returns (ghost ticks: nat, ghost trace: seq<GameState>)
      requires Valid()
      requires !gameOver ==>
                 snake.NextLength() + Frame(ClockState(), currentTime, timeStep).ticks <= width * height
      modifies this`lastTime, this`accumulator, this`gameOver, snake, food
      ensures Valid()
      ensures Frame(old(ClockState()), currentTime, timeStep) == FrameResult(ClockState(), ticks)
      ensures |trace| == ticks + 1 && trace[0] == old(State()) && trace[ticks] == State()
      ensures IsRun(trace, width, height)
      ensures lastTime == currentTime
      ensures old(gameOver) ==> gameOver && unchanged(snake) && unchanged(food)
      ensures old(lastTime) == 0 ==>
                accumulator == old(accumulator) && gameOver == old(gameOver)
                && unchanged(snake) && unchanged(food)
      ensures snake.direction == old(snake.direction)
      ensures old(food.position !in snake.body) ==> food.position !in snake.body
      ensures |old(snake.body)| <= |snake.body|
      ensures snake.NextLength() <= old(snake.NextLength()) + ticks
    {
      ticks := 0;
      trace := [State()];
      if lastTime != 0 {
        var deltaTime := currentTime - lastTime;
        accumulator := accumulator + deltaTime;
        ghost var total := accumulator;
        while accumulator >= timeStep
          invariant Valid()
          invariant |trace| == ticks + 1 && trace[0] == old(State()) && trace[ticks] == State()
          invariant IsRun(trace, width, height)
          invariant Drain(accumulator, timeStep).rest == Drain(total, timeStep).rest
          invariant ticks + Drain(accumulator, timeStep).steps == Drain(total, timeStep).steps
          invariant !gameOver ==> snake.NextLength() + Drain(accumulator, timeStep).steps <= width * height
          invariant old(gameOver) ==> gameOver && unchanged(snake) && unchanged(food)
          invariant snake.direction == old(snake.direction)
          invariant old(food.position !in snake.body) ==> food.position !in snake.body
          invariant |old(snake.body)| <= |snake.body|
          invariant snake.NextLength() <= old(snake.NextLength()) + ticks
          decreases accumulator
        {
          Tick();
          RunExtends(trace, State(), width, height);
          trace := trace + [State()];
          accumulator := accumulator - timeStep;
          ticks := ticks + 1;
        }
      }
      lastTime := currentTime;
    }

    /** `restart`: a fresh snake and fresh food, and the game running again; the clock is kept. */
    method Restart()
      requires Valid()
      modifies this
      ensures Valid() && fresh(snake) && fresh(food)
      ensures snake.body == [Cell(width / 2, height / 2)] && snake.direction == Right && !snake.grow
      ensures !gameOver && lastTime == old(lastTime) && accumulator == old(accumulator)
    {
      snake := new Snake(width, height);
      food := new Food(width, height);
      gameOver := false;
    }

    /**
     * The keyboard handler's logic: Space restarts a finished game; an arrow
     * key asks the snake for its heading (also while the game is over); any
     * other key does nothing.
     */
    method HandleKey(code: string)
      requires Valid()
      modifies this, snake
      ensures Valid()
      ensures lastTime == old(lastTime) && accumulator == old(accumulator)
      ensures old(gameOver) && code == "Space" ==>
                fresh(snake) && fresh(food) && !gameOver
                && snake.body == [Cell(width / 2, height / 2)] && snake.direction == Right && !snake.grow
      ensures !(old(gameOver) && code == "Space") ==>
                snake == old(snake) && food == old(food) && gameOver == old(gameOver)
                && snake.body == old(snake.body) && snake.grow == old(snake.grow)
                && snake.direction == match KeyDirection(code)
                                        case Some(d) => Steer(old(snake.direction), d)
                                        case None => old(snake.direction)
    {
      if gameOver && code == "Space" {
        Restart();
        return;
      }
      var d := KeyDirection(code);
      if d.Some? {
        snake.SetDirection(d.value);
      }
    }
  }
}
