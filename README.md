# Snake game simulation core, in Dafny

This project models the simulation core of a browser snake game (`snake_game.js`) without any rendering. The game has three parts:

- **The snake.** A body of cells, head first, moves one cell per tick on a width × height board whose edges wrap around (a torus). A `grow` flag keeps the tail on the next move. A heading change is refused when it is the exact reverse of the current heading.
- **The food.** It sits on one cell. When the head reaches it, the snake is marked to grow and the food is redrawn at random until it lands off the body. The game is over once the head lands on any other cell of the body.
- **The fixed-timestep driver.** A frame callback adds the elapsed time to an accumulator. It then drains the accumulator in steps of 100 time units and runs one tick per step while the game is running. A restart rebuilds the snake and the food.

The project has three modules:

- `Grid` (`grid.dfy`): cells and headings. It also holds JavaScript's remainder operator, written out (it truncates toward zero, unlike Dafny's Euclidean `%`), the one-cell wrapped move, and a pigeonhole lemma: a body shorter than the board leaves a free cell.
- `Timing` (`timing.dfy`): the clock as pure functions of integer timestamps. `Drain` is the drain loop, `Frame` is one callback, and `Run` is a run of callbacks.
- `SnakeGame` (`snake_game.dfy`): the classes `Snake`, `Food` and `Game`. Their fields are the source's fields, and their methods update them in place. The methods are proved against the functions above. A ghost value `GameState` (body, heading, `grow`, food, `gameOver`) and the relation `TickStep` describe one pass of the drain loop. `GameLoop` returns, as ghost outputs, the number of drained steps and the trace of states, one `TickStep` apart. The session invariant also says that a running game's body repeats no cell, so `gameOver` marks exactly the tick at which a cell repeats.

`Math.random()` is modelled as an arbitrary real in [0, 1) (`MathRandom`). `randomPosition` floors the draw times the board size, exactly as the source does, but on exact reals. The respawn loop is a do-while that redraws until the cell is off the body. It is modelled by choosing its accepted draw: a pair of draws whose cell is free. The rejected draws only overwrite `food.position` before the accepted one does, so they leave no trace in the state. The board width and height are fixed parameters, both positive. Timestamps, `lastTime` and `accumulator` are integers.

Two behaviours of the code are easy to misread:

- The clock bootstrap tests `if (this.lastTime)`, so a `lastTime` of 0 means "no previous frame". Timestamps 0, 250, 250 therefore run no tick (`Timing.ZeroStartBootstrapsTwice`). After a non-zero first timestamp, a gap of 250 runs two ticks (`Timing.NonZeroStartRunsTwoTicks`).
- Food placed by the constructor or by `restart` is not checked against the body. It can land on the fresh snake (`SnakeGame.FreshFoodCanCoverFreshSnake`). Only food placed by a respawn is proved to be off the body.

The heading guard compares a request with the current heading, not with the heading of the last move. A single change of heading never makes the next head land on the neck (`SnakeGame.NeckIsSafe`, on boards at least 3 cells each way). Two changes between ticks can reverse the snake (`SnakeGame.TwoTurnsReverse`).

## Model

| member | source | states |
|---|---|---|
| `Grid.JsRem` | snake_game.js:38-39 | JavaScript's `%` for a positive modulus: it equals Euclid's remainder on non-negative dividends; on negative ones it lies in (-m, 0] and is Euclid's remainder minus m unless m divides the dividend |
| `Grid.NextHead` | snake_game.js:37-40 | the new head `((x+dx+W) % W, (y+dy+H) % H)` is on the board whenever the old head is and the heading is a unit vector |
| `Grid.NextHeadWraps` | snake_game.js:37-40 | on the board, a unit move adds the heading and wraps: one past the last column or row gives 0, one before 0 gives the last |
| `Grid.EdgesWrap` | snake_game.js:37-40 | right from x = W-1 gives x = 0, left from x = 0 gives W-1, down from y = H-1 gives 0, up from 0 gives H-1 |
| `Grid.GridCells` | snake_game.js:193-197 | the set of board cells is exactly the in-grid cells and has W·H elements |
| `Grid.RowCells` | snake_game.js:193-197 | one row of the board has exactly `width` cells |
| `Grid.Occupied` | snake_game.js:195-197 | the set of cells a body occupies (the `some` membership test) holds exactly the body's cells and has no more elements than the body |
| `Grid.FreeCell` | snake_game.js:193-197 | a body of on-board cells shorter than W·H leaves a board cell that no body cell equals |
| `Timing.Drain` | snake_game.js:235-241 | draining in whole steps accounts for every step (`steps·step + rest == acc`) and leaves `rest < step`; for `acc >= 0` it runs ⌊acc/step⌋ steps and leaves `acc % step`; a negative amount runs none |
| `Timing.Frame` | snake_game.js:230-243 | afterwards `lastTime == t`; with a previous `lastTime` of 0 no tick runs and the accumulator is kept; otherwise the accumulator ends below one step and ticks·step + accumulator is the old accumulator plus the delta, with ⌊(acc+Δ)/step⌋ ticks when that sum is non-negative |
| `Timing.Run` | snake_game.js:230-243 | a sequence of `gameLoop` callbacks, each one `Frame`; afterwards `lastTime` is the last callback's time, or unchanged when there was none |
| `Timing.RunConservesTime` | snake_game.js:230-243 | over callbacks at non-zero times after a non-zero timestamp, ticks·step plus the leftover equal the starting leftover plus the total elapsed time |
| `Timing.ZeroStartBootstrapsTwice` | snake_game.js:231 | callbacks at 0, 250, 250 run zero ticks and end with `lastTime` 250 and accumulator 0 |
| `Timing.ShortFramesRunNothing` | snake_game.js:230-243 | callbacks at 0, 40, 80 run zero ticks and leave 40 in the accumulator |
| `Timing.NonZeroStartRunsTwoTicks` | snake_game.js:230-243 | callbacks at 16, 266, 266 run two ticks and leave 50 |
| `SnakeGame.Advance` | snake_game.js:37-46 | after a move, `body[0]` is the new head and every later cell is the old cell before it; the length grows by exactly 1 with `grow` and is unchanged without; on-board bodies stay on the board under unit headings |
| `SnakeGame.BitesItself` | snake_game.js:201-206 | the scan's condition: the head equals `body[i]` for some i ≥ 1 |
| `SnakeGame.FoodStaysOff` | snake_game.js:191-198 | food off the body stays off it through a move whose new head is not on the food |
| `SnakeGame.SquareSnakeBites` | snake_game.js:201-206 | body (5,5),(6,5),(6,6),(5,6) moving right puts the head on (6,5), a later body cell |
| `SnakeGame.MathRandom` | snake_game.js:92-93 | a `Math.random()` draw lies in [0, 1) |
| `SnakeGame.RandomPosition` | snake_game.js:90-95 | on a board of positive size, `(⌊rx·W⌋, ⌊ry·H⌋)` for draws in [0, 1) is a board cell |
| `SnakeGame.SampleFor` | snake_game.js:90-95 | every board cell is the position of some pair of draws, so `randomPosition` can yield every board cell |
| `SnakeGame.FreshFoodCanCoverFreshSnake` | snake_game.js:224-228 | the food drawn on restart can be the fresh snake's only cell `(⌊W/2⌋, ⌊H/2⌋)` |
| `SnakeGame.KeyDirection` | snake_game.js:151-156 | an entry exists exactly for the four arrow key codes, and every entry is a unit heading |
| `SnakeGame.KeyFor` | snake_game.js:151-156 | every unit heading is the entry of some key |
| `SnakeGame.SteerNeverReverses` | snake_game.js:76-79 | for unit headings, the heading rule yields a unit heading that is never the reverse of the current one, and yields the request whenever it is not the reverse |
| `SnakeGame.ReturnOnlyByReversing` | snake_game.js:37-40 | on a board at least 3 cells each way, two unit moves return to the start only if the second is the reverse of the first |
| `SnakeGame.NeckIsSafe` | snake_game.js:76-79 | after a move, no single heading change can send the next head onto `body[1]` (boards of at least 3×3) |
| `SnakeGame.TwoTurnsReverse` | snake_game.js:76-79 | two heading changes (Up, then Left) turn a right-moving snake to the reverse of its heading |
| `SnakeGame.Snake.constructor` | snake_game.js:28-31 | the fresh snake has body `[(⌊W/2⌋, ⌊H/2⌋)]`, heading (1, 0) and `grow` false |
| `SnakeGame.Snake.Update` | snake_game.js:36-46 | the new body is `Advance` of the old body, heading and flag (the new head at `body[0]`, the tail kept only with `grow`); `grow` ends false and the heading is unchanged |
| `SnakeGame.Snake.SetDirection` | snake_game.js:76-79 | the heading is unchanged when the request is the exact negation of the current heading and becomes the request otherwise; body and `grow` are untouched |
| `SnakeGame.Steer` | snake_game.js:77-78 | the heading rule: a request that is the exact reverse of the current heading leaves the current heading; any other request is taken |
| `SnakeGame.Food.constructor` | snake_game.js:83-84 | on a board of positive size, the first food is on the board; nothing keeps it off the snake |
| `SnakeGame.AdvanceRepeatsIffBites` | snake_game.js:201-206 | for a body without repeated cells, the moved body repeats a cell exactly when its head lies on `body[1..]`, the case the scan sets `gameOver` for |
| `SnakeGame.TickStep` | snake_game.js:236-239 | one pass of the drain-loop body: a finished game stays as it is; a running one has body `Advance` of the old body, heading kept, `grow` exactly when the new head is on the old food, food respawned on the board off the body when eaten and kept otherwise, and `gameOver` exactly on a bite; so a finished game stays finished, the body never shrinks, the heading is kept, and an on-board body under a unit heading stays on the board |
| `SnakeGame.TickKeepsNoRepeats` | snake_game.js:236-239 | one tick keeps "a running game's body repeats no cell" |
| `SnakeGame.RunExtends` | snake_game.js:235-241 | a run of ticks followed by one more tick is a run, which is how each pass of the drain loop extends the trace |
| `SnakeGame.FinishedRunIsStill` | snake_game.js:235-240 | in a run that starts with `gameOver` set, every later state equals the first: a finished game never changes |
| `SnakeGame.Game.constructor` | snake_game.js:128-136 | a fresh session: centred snake of length 1 heading right, food on the board, not over, `lastTime` and accumulator 0, and a step of 100 |
| `SnakeGame.Game.CheckCollision` | snake_game.js:188-207 | never changes the body or heading; with the head on the food, `grow` becomes true and the new food is a board cell off the body; otherwise food and `grow` are unchanged; `gameOver` ends true exactly when it was true or the head equals some `body[i]` with i ≥ 1 |
| `SnakeGame.Game.Tick` | snake_game.js:236-239 | the old and new states are one `TickStep` apart: a running game moves the snake (`Advance`), `grow` holds exactly when the new head was on the food, eaten food respawns on the board off the body, uneaten food stays, and `gameOver` holds exactly when the head bites the body; a finished game changes nothing; the invariant, with no repeated cell while running, is kept; food off the body stays off it |
| `SnakeGame.Game.GameLoop` | snake_game.js:230-243 | the states before and after form a run of exactly as many `TickStep`s as drained steps, and the clock fields and that number are those of `Frame`, so `lastTime` ends as the callback time and the accumulator below one step; with a previous `lastTime` of 0 nothing else changes; once over, snake, food and `gameOver` stay as they are; the heading is kept, the body never shrinks, food off the body stays off it |
| `SnakeGame.Game.Restart` | snake_game.js:224-228 | fresh snake `[(⌊W/2⌋, ⌊H/2⌋)]` heading (1, 0) with `grow` false, fresh food on the board, `gameOver` false, clock fields kept |
| `SnakeGame.Game.HandleKey` | snake_game.js:158-166 | Space on a finished game restarts it; otherwise an arrow key applies the heading rule to its table entry and any other key changes nothing; the clock is untouched |

## Left out

- Particles (`Particle`, the particle bookkeeping in `update`), hue cycling and the food's glow: cosmetic floating-point state that the simulation never reads.
- All drawing: the `draw` methods, `drawBackground` and `drawGameOver`.
- `resize` and the canvas: the board size is a fixed pair of positive integers. A resize in the middle of a game, which can leave body cells off the board, is not modelled.
- Event wiring and `requestAnimationFrame` rescheduling. `HandleKey` models only the decision the keydown handler makes. The on-screen buttons call `setDirection` with the same table entries as the arrow keys and can never restart. Codes that only match inherited properties of the `directions` object (such as `constructor`) are not modelled; arrow and Space codes are the only ones the table is meant for.
- `gridSize`: it is used only for particles and drawing, so `Update` takes no pixel size.
- Floating-point numbers: timestamps are integers, and `randomPosition` floors on exact reals. The uniformity of `Math.random()` is not modelled; it is any value in [0, 1).
- The rejected draws of the respawn loop: only the accepted draw is modelled, and the rejected ones leave no trace in the state.
- SnakeGame.Game.CheckCollision: requires a free board cell when the head is on the food. The source's do-while loop never ends when the body covers the board, and the model does not express non-termination.
- SnakeGame.Game.Tick: requires, while the game runs, that the body's length after the next move be below W·H. This is sufficient for a free cell to exist at a respawn. It also excludes a tick on the last free cell that ends in a bite and needs no respawn. The source demands nothing, but it would hang on a full board.
- SnakeGame.Game.GameLoop: requires, while the game runs, that the body's length after the next move plus the ticks of the frame be at most W·H. This leaves room for every respawn in the frame (a tick grows the body by at most one). It is stronger than the source, which hangs only if a respawn finds no free cell. It also excludes ordinary catch-up frames that the source runs without hanging. For example, a fresh 40×30 game after a stall of 120 000 time units has 1200 ticks to run, more than its 1199 free cells.
