# Snake game state, modelled in Dafny

This project models the game-state simulation of a single-player Snake game
played on a wrap-around (toroidal) grid. It covers:

- the grid of cells (`Empty`, `Snake`, `Fruit`; `Border` is what a read
  outside the grid answers);
- the snake: a sequence of cells from tail to head, its heading, the last
  move it made, and whether it is alive;
- the fruit: an optional position that is respawned on a random Empty cell
  each time it is eaten;
- the round lifecycle of the game field: waiting for a key, playing one move
  per timer tick, and dying.

The modules follow the program's classes:

- `Board` (board.dfy) is the grid half of `GameField`: the cells as an
  `array2` written in place, bounds-checked reads and writes, the wrap, the
  random search for an Empty cell, and the grid-to-pixel layout.
- `Snakes` (snake.dfy) is `Snake`: a class whose `Move` updates the body, the
  direction fields and the grid in place.
- `Fruits` (fruit.dfy) is `Fruit`.
- `Field` (game_field.dfy) is the round-lifecycle half of `GameField`: the
  `awaitStart` flag, the timer delay, the status message, and the handlers
  for key presses and timer ticks.
- `Scenarios` (scenarios.dfy) plays short rounds against those contracts.

`GameField` and `Snake` call each other in the source (`eatFruit`,
`startDeath`). Dafny modules cannot import each other in a cycle, so the grid
is its own class that `Snake` and `Fruit` write to. `Snake.Move` returns a
`MoveOutcome`, and `GameField.ActionPerformed` acts on it. On `Ate` it calls
`EatFruit`; on `Died(score, duration)` it calls `StartDeath`. This happens at
the same point in the move as the source's calls.

The central invariant is `Snakes.Snake.Valid`:

- the body's cells are pairwise distinct and inside the grid;
- the grid marks exactly those cells `Snake`;
- the current heading is never the reverse of the last move.

Every branch of `Move` preserves it. `Fruit.Spawn` and `ChangeDirection`
preserve it too. `GameField.Valid` carries it through every handler. It also
requires the grid to show a Fruit cell exactly where the fruit is, and no
Fruit cell while the fruit has no position.

`Math.random()` is an oracle. A `Rolls` value holds the draws in [0, 1)
that one search for an Empty cell consumes: an x and a y for each of the ten
probes, and one draw for the rank. `(int)(r * n)` is `Floor(r * n)`. Every
property is proved for all draws.

Three behaviours of the program shape the model:

- On a full board `getRandomEmptyFieldPos` answers null, and the write of
  that null position in `Fruit.spawn` throws a NullPointerException. After an
  eaten fruit, the exception leaves `actionPerformed` before its `repaint`.
  During the delayed first spawn, the background task that runs `spawn`
  keeps the exception and nothing reads it, so that failure is silent. In
  both cases the fruit is left without a position. `Fruit.Spawn` models this
  as the status `NullPointerThrown`, with the position `None` and the grid
  unchanged. It is not a precondition.
- `move` wraps the target cell onto the grid before reading it, so its
  Border branch cannot be reached; `Move` proves this.
- `reset` clears the same array in place, and so does the model
  (`Grid.Clear`).

## Model

| member | source | states |
|---|---|---|
| `Board.Scale` | src/main/java/snake/graphics/GameField.java:122-123 | a draw r in [0, 1) scaled by n > 0 and truncated gives an index in [0, n) |
| `Board.JavaDiv` | src/main/java/snake/graphics/GameField.java:85 | Java's int division truncates toward zero: for a >= 0, q*b <= a < q*b + b; for a < 0, q*b - b < a <= q*b <= 0 |
| `Board.Grid.constructor` | src/main/java/snake/graphics/GameField.java:51-61 | the grid has the given dimensions, every cell is Empty, no cell is Border |
| `Board.Grid.Clear` | src/main/java/snake/graphics/GameField.java:74-76 | the row-by-row fill leaves every cell Empty |
| `Board.Grid.GetBlockSize` | src/main/java/snake/graphics/GameField.java:84-86 | with w the frame width left after the xDimension + 1 separators: when w >= 0 the block size is the largest size with xDimension blocks fitting in w; when w < 0 it is w / xDimension truncated toward zero, so never positive |
| `Board.Grid.GetFramePosition` | src/main/java/snake/graphics/GameField.java:89-95 | cell p's upper-left corner lies one separator in, then one block plus one separator further for each cell before it on each axis |
| `Board.Grid.FramePositionSteps` | src/main/java/snake/graphics/GameField.java:89-95 | cell (0,0) starts at (separation, separation); one step right or down moves that axis by exactly size + separation and leaves the other axis alone |
| `Board.Grid.GridFitsFrame` | src/main/java/snake/graphics/GameField.java:84-86 | when the frame is at least as wide as the separators, the block size is non-negative, and the last column plus its trailing separator ends inside the frame, with fewer than xDimension pixels unused |
| `Board.Grid.GetFieldType` | src/main/java/snake/graphics/GameField.java:97-104 | outside the grid the answer is Border; inside it is the stored cell; on a valid grid, Border exactly when out of bounds |
| `Board.Grid.SetFieldType` | src/main/java/snake/graphics/GameField.java:106-117 | in bounds, exactly that cell takes the new value; out of bounds, no cell changes |
| `Board.Grid.GetLoopedPosition` | src/main/java/snake/graphics/GameField.java:149-151 | the wrapped position is always in bounds, and in-bounds positions are left as they are |
| `Board.Grid.LoopedPositionPeriodic` | src/main/java/snake/graphics/GameField.java:149-151 | shifting by a whole width or height reaches the same cell; with the two facts above this fixes the wrap as the floored modulo |
| `Board.Grid.LoopedPositionIdempotent` | src/main/java/snake/graphics/GameField.java:149-151 | wrapping twice is wrapping once |
| `Board.Grid.CountEmpty` | src/main/java/snake/graphics/GameField.java:130 | the count of Empty cells is at most xDimension * yDimension |
| `Board.Grid.CountEmptyZero` | src/main/java/snake/graphics/GameField.java:130-133 | the Empty count is zero exactly when no cell is Empty, so the search answers null only on a full board |
| `Board.Grid.RankStrictlyIncreasing` | src/main/java/snake/graphics/GameField.java:136-145 | along the scan order (x first, then y), Empty cells have strictly increasing ranks, so a rank names at most one cell |
| `Board.Grid.RankBelowCount` | src/main/java/snake/graphics/GameField.java:130-146 | every Empty cell's rank is below the number of Empty cells |
| `Board.Grid.ProbeResult` | src/main/java/snake/graphics/GameField.java:121-127 | the first probe that lands on an Empty cell, if any, is an in-bounds Empty cell |
| `Board.Grid.GetRandomEmptyFieldPos` | src/main/java/snake/graphics/GameField.java:119-147 | answers None exactly when no cell is Empty; an answer is an in-bounds Empty cell; it is the first probe that hits; otherwise it is the Empty cell whose rank is the drawn index in [0, emptyNum), which the scan always reaches, so the final null is unreachable |
| `Snakes.NextDirection` | src/main/java/snake/models/Snake.java:101-108 | a turn is granted unless it reverses the last move; a reversal or Stay keeps the heading; a heading that does not reverse the last move never becomes one that does |
| `Snakes.ISqrt` | src/main/java/snake/models/Snake.java:137 | the truncated square root r of n satisfies r*r <= n < (r+1)*(r+1) |
| `Snakes.ISqrtMonotone` | src/main/java/snake/models/Snake.java:137 | a longer snake's death animation is never shorter |
| `Snakes.Snake.constructor` | src/main/java/snake/models/Snake.java:33-38 | a one-segment body at the given cell, standing still and alive, with that cell marked Snake and no other cell changed; on an all-Empty grid the snake invariant holds |
| `Snakes.Snake.OffsetByDirection` | src/main/java/snake/models/Snake.java:110-131 | the new head is the wrap of one unit step (up is y-1, down y+1, left x-1, right x+1), so it is always in bounds; a step that stays on the grid needs no wrap |
| `Snakes.Snake.OffsetRoundTrip` | src/main/java/snake/models/Snake.java:110-131 | stepping one cell and then back in the opposite direction returns to the start, across the wrapped edges too |
| `Snakes.Snake.ChangeDirection` | src/main/java/snake/models/Snake.java:101-108 | the new heading is the granted turn; the snake invariant, including "never heads back onto its neck", is kept |
| `Snakes.Snake.Die` | src/main/java/snake/models/Snake.java:134-140 | the snake is dead, its death duration is isqrt(length) * 500, and the score reported is its length |
| `Snakes.Snake.StepInto` | src/main/java/snake/models/Snake.java:76-80 | the Empty branch: the body drops its tail and gains the target as head; the tail's cell becomes Empty, the target's Snake, no other cell changes, and the snake invariant is kept |
| `Snakes.Snake.GrowInto` | src/main/java/snake/models/Snake.java:81-83 | the Fruit branch: the body gains the target as head and keeps its tail; the target's cell becomes Snake, no other cell changes, and the snake invariant is kept |
| `Snakes.Snake.FollowTail` | src/main/java/snake/models/Snake.java:87-94 | the closed-loop branch: the tail's cell becomes the head, so the body rotates by one and the snake invariant is kept |
| `Snakes.Snake.Move` | src/main/java/snake/models/Snake.java:68-99 | `MovedSnake` and `MovedGrid` give the whole new state. Dead or standing still: nothing changes. Otherwise the last move becomes the heading, and the target is never Border. Empty target: the tail leaves and its cell becomes Empty; the head is added and its cell becomes Snake. Fruit target: the body grows by one and the target cell becomes Snake; the outcome asks for the fruit to respawn. Target is the tail: the body rotates and the snake lives. Any other Snake cell: the snake dies with the body unchanged and the death duration isqrt(length) * 500. No other cell changes in any branch. The death duration changes only on death. The snake invariant holds afterwards |
| `Fruits.Fruit.constructor` | src/main/java/snake/models/Fruit.java:16-28 | a new fruit has no position |
| `Fruits.Fruit.Spawn` | src/main/java/snake/models/Fruit.java:43-46 | if some cell was Empty, the fruit sits on a cell that was Empty, that cell becomes Fruit, and no other cell changes; otherwise the NullPointerException is reported, the position is None and the grid is unchanged |
| `Fruits.Fruit.GetEaten` | src/main/java/snake/models/Fruit.java:39-41 | being eaten is exactly one spawn, with the spawn's contract |
| `Field.KeyDirection` | src/main/java/snake/graphics/GameField.java:174-179 | only key codes 37 to 40 steer, and none of them asks for Stay |
| `Field.GameField.constructor` | src/main/java/snake/graphics/GameField.java:49-70 | an all-Empty grid, waiting for a key, with the start prompt and a 200 ms tick, and no snake or fruit yet |
| `Field.GameField.Reset` | src/main/java/snake/graphics/GameField.java:72-81 | every cell Empty except the centre, which is Snake; a fresh one-segment snake there, standing still; a fresh fruit with no position; not waiting; message hidden; 200 ms tick |
| `Field.GameField.KeyPressed` | src/main/java/snake/graphics/GameField.java:166-180 | while waiting, any key starts a new round and steers nothing; otherwise an arrow key asks the snake to turn and nothing else about the snake, the fruit or the grid changes, and any other key changes nothing |
| `Field.GameField.ActionPerformed` | src/main/java/snake/graphics/GameField.java:185-191 | the snake moves only when not waiting and alive, and otherwise nothing changes. During play the snake's new state is exactly that of one move (`MovedSnake`). Without eating, the grid changes exactly as the move changes it and the fruit is untouched. After eating, the only cells changed are the new head, now Snake, and the respawned fruit's cell, now Fruit; or the fruit is absent and no cell is Empty. After dying, the tick becomes 40 ms and the score is the length. The field invariant is kept, so after every tick the only Fruit cell is the fruit's position |
| `Field.GameField.SpawnFruit` | src/main/java/snake/models/Fruit.java:19-27 | the new fruit's delayed first spawn puts it on a cell that was Empty and changes no other cell, or reports the NullPointerException on a full board; the field invariant, including the snake's, is kept |
| `Field.GameField.EatFruit` | src/main/java/snake/graphics/GameField.java:193-195 | passes the eating on to the fruit, with the spawn's contract; called once the eaten fruit's cell holds the head, it restores the field invariant, so the respawned fruit is the only Fruit cell |
| `Field.GameField.StartDeath` | src/main/java/snake/graphics/GameField.java:197-198 | the tick delay becomes 40 ms |
| `Field.GameField.EndRound` | src/main/java/snake/graphics/GameField.java:199-208 | when the delayed death action runs, the field waits for a key and shows the loss with the score |
| `Scenarios.DeathDurationOfThree` | src/main/java/snake/models/Snake.java:137 | a snake of length 3 gets a 500 ms death animation |

## Left out

- Drawing: `Snake.draw` uses float arithmetic and the clock for its death-fade animation, and `Fruit.draw` uses float sizes. Both are left out, with `paintComponent` and `repaint`. The `size` fields are kept but only the drawing reads them.
- The death timestamp (`deathTime`, read from the wall clock) is left out, because only drawing reads it.
- Threads and wall-clock delays are left out. `Fruit`'s constructor schedules a spawn 3000 ms later; the model gives `GameField.SpawnFruit` as that delayed action's effect, and requires it to run while the fruit has no position. `startDeath` schedules the loss message `duration + 1000` ms later; the model gives `GameField.EndRound` as that delayed action's effect. When these run, and a stale action from an earlier round running after a reset, are not modelled.
- The Swing timer is reduced to its integer `delay` field.
- `Text.java` (font metrics, text drawing) and `GameFrame.java` (window set-up) are not part of this model. The status text is reduced to the `Message` value.
- Logging (`Logger.warning`, `System.out.println`), the font and focus set-up, and the empty `keyTyped` and `keyReleased` handlers are left out.
- The unused no-argument `Snake()` constructor is left out. The `isAlive()` getter is read as the field `isAlive`.
- `Math.random()` becomes the `Rolls` oracle. Uniformity of the draws is not modelled.
- Board.Scale: the product `Math.random() * n` is computed on reals, not doubles, so floating-point rounding is not modelled.
- Board.Grid.GetFramePosition: pixel coordinates use unbounded integers, not Java's 32-bit int, so overflow on absurdly large grids is not modelled.
- Board.Grid.GetBlockSize: the same 32-bit overflow is not modelled.
- Snakes.Snake.OffsetByDirection: requires a direction other than Stay. The source's only caller, `move`, returns before calling it with Stay. With Stay the source would wrap a null position and throw.
- Snakes.Snake.Move: returns the outcome instead of `this`. The source's calls back into the game field (`eatFruit`, `startDeath`) are made by `GameField.ActionPerformed` from that outcome.
- Field.GameField.ActionPerformed: the exception from a respawn on a full board is returned as a status, not thrown into the event loop. The repaint it would skip is not modelled anyway.
