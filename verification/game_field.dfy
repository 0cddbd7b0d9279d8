/** The round lifecycle of the game field: waiting for a key, playing
    (one snake move per timer tick), and dying (a faster tick while the
    death animation runs, then the loss message and a wait for a key). */
module Field {
  import opened Board
  import opened Snakes
  import opened Fruits

  /** The text shown over the field. */
  datatype Message = Prompt | Hidden | Lost(score: int)

  /** Timer delays in milliseconds: while playing, and while the snake dies. */
  const NormalDelay := 200
  const DeathDelay := 40
  /** Milliseconds before a new round's first fruit appears. */
  const FruitSpawnDelay := 3000

  /** The arrow keys' codes (left, up, right, down); other keys steer nothing. */
  function KeyDirection(keyCode: int): (d: Option<Direction>)
    ensures d.Some? <==> 37 <= keyCode <= 40
    ensures d != Some(Stay)
  {
    if keyCode == 37 then Some(Left)
    else if keyCode == 38 then Some(Up)
    else if keyCode == 39 then Some(Right)
    else if keyCode == 40 then Some(Down)
    else None
  }

  class GameField {
    const grid: Grid
    /** null until the first round starts. */
    var snake: Snake?
    var fruit: Fruit?
    var awaitStart: bool
    /** The tick timer's delay in milliseconds. */
    var delay: int
    var message: Message

    /** The field's invariant: while a round is on there is a snake and a
        fruit on this grid, the snake's own invariant holds, and the grid
        shows a fruit exactly where the fruit is. */
    ghost predicate Valid()
      reads this, grid.cells, snake, fruit
    {
      && SnakeShown()
      && FruitShown()
    }

    /** The invariant without the fruit's part. */
    ghost predicate SnakeShown()
      reads this, grid.cells, snake, fruit
    {
      && grid.Valid()
      && (!awaitStart ==> snake != null && fruit != null)
      && (snake != null ==> snake.grid == grid && snake.Valid())
      && (fruit != null ==> fruit.grid == grid)
    }

    /** No cell shows a fruit. */
    ghost predicate NoFruitShown()
      reads grid.cells
      requires grid.Shape()
    {
      forall x, y :: 0 <= x < grid.xDimension && 0 <= y < grid.yDimension ==> grid.cells[x, y] != FieldType.Fruit
    }

    /** The only Fruit cell is the fruit's position; with no position there
        is none. */
    ghost predicate FruitShown()
      reads this, grid.cells, fruit
      requires grid.Shape()
    {
      && (fruit != null && fruit.position.Some? ==> grid.InBounds(fruit.position.value))
      && forall x, y :: 0 <= x < grid.xDimension && 0 <= y < grid.yDimension ==>
           (grid.cells[x, y] == FieldType.Fruit <==> fruit != null && fruit.position == Some(FieldPosition(x, y)))
    }

    /** Where a new round's snake starts. */
    function Center(): FieldPosition {
      FieldPosition(grid.xDimension / 2, grid.yDimension / 2)
    }

    /** The state right after a reset: a one-segment snake standing still at
        the centre, no fruit yet, and every other cell Empty. */
    ghost predicate NewRound()
      reads this, grid.cells, snake, fruit
      requires grid.Shape()
    {
      && !awaitStart && delay == NormalDelay && message == Hidden
      && snake != null && fruit != null
      && snake.body == [Center()] && snake.direction == Stay && snake.prevMove == Stay && snake.isAlive
      && fruit.position == None
      && forall x, y :: 0 <= x < grid.xDimension && 0 <= y < grid.yDimension ==>
           grid.cells[x, y] == if FieldPosition(x, y) == Center() then FieldType.Snake else FieldType.Empty
    }

    constructor (frameWidth: int, xDimension: int, yDimension: int, separation: int)
      requires xDimension > 0 && yDimension > 0
      ensures Valid() && fresh(grid) && fresh(grid.cells)
      ensures grid.frameWidth == frameWidth && grid.separation == separation
      ensures grid.xDimension == xDimension && grid.yDimension == yDimension
      ensures grid.AllEmpty()
      ensures awaitStart && delay == NormalDelay && message == Prompt
      ensures snake == null && fruit == null
    {
      grid := new Grid(frameWidth, xDimension, yDimension, separation);
      snake := null;
      fruit := null;
      awaitStart := true;
      delay := NormalDelay;
      message := Prompt;
    }

    /** Starts a round: the grid is emptied in place, and a new snake and a
        new fruit are created. */
    method Reset()
      requires grid.Valid()
      modifies this, grid.cells
      ensures Valid() && NewRound() && fresh(snake) && fresh(fruit)
    {
      awaitStart := false;
      grid.Clear();
      var size := grid.GetBlockSize();
      snake := new Snake(grid, grid.xDimension / 2, grid.yDimension / 2, size);
      fruit := new Fruit(grid, FruitSpawnDelay, size);
      message := Hidden;
      delay := NormalDelay;
    }

    /** A key press: while waiting, any key starts a round; while playing,
        an arrow key asks the snake to turn. */
    method KeyPressed(keyCode: int)
      requires Valid()
      modifies this, grid.cells, snake
      ensures Valid()
      ensures old(awaitStart) ==> NewRound() && fresh(snake) && fresh(fruit)
      ensures !old(awaitStart) ==>
        && snake == old(snake) && fruit == old(fruit)
        && awaitStart == old(awaitStart) && delay == old(delay) && message == old(message)
        && unchanged(grid.cells)
        && snake.body == old(snake.body) && snake.prevMove == old(snake.prevMove)
        && snake.isAlive == old(snake.isAlive) && snake.deathDuration == old(snake.deathDuration)
        && snake.direction ==
             match KeyDirection(keyCode)
             case None => old(snake.direction)
             case Some(d) => NextDirection(old(snake.direction), snake.prevMove, d)
    {
      if awaitStart {
        Reset();
        message := Hidden;
        return;
      }
      match KeyDirection(keyCode)
      case Some(d) => snake.ChangeDirection(d);
      case None =>
    }

    /** A timer tick: the snake moves only while a round is on and it is
        alive. Eating respawns the fruit; dying speeds up the tick. */
    method ActionPerformed(rolls: Rolls) returns (outcome: MoveOutcome, status: Status)
      requires Valid() && rolls.Valid()
      modifies this, grid.cells, snake, fruit
      ensures Valid()
      ensures snake == old(snake) && fruit == old(fruit)
      ensures awaitStart == old(awaitStart) && message == old(message)
      ensures old(awaitStart) || old(!snake.isAlive) ==>
                && outcome == NoMove && status == Completed && delay == old(delay)
                && unchanged(grid.cells)
                && (snake != null ==> unchanged(snake)) && (fruit != null ==> unchanged(fruit))
      ensures !old(awaitStart) && old(snake.isAlive) ==>
                && snake.MovedSnake(outcome)
                && (!outcome.Ate? ==> snake.MovedGrid(outcome) && status == Completed && unchanged(fruit))
                && (outcome.Ate? ==>
                      var head := snake.Head();
                      && grid.GetFieldType(head) == FieldType.Snake
                      && (status == Completed ==>
                            && fruit.position.Some? && grid.InBounds(fruit.position.value)
                            && var p := fruit.position.value;
                            && grid.cells[p.x, p.y] == FieldType.Fruit
                            && grid.UnchangedExcept({head, p}))
                      && (status == NullPointerThrown ==>
                            && fruit.position == None && !grid.HasEmpty()
                            && grid.UnchangedExcept({head})))
                && (outcome.Died? ==> delay == DeathDelay && outcome.score == |snake.body|)
                && (!outcome.Died? ==> delay == old(delay))
    {
      outcome, status := NoMove, Completed;
      if !awaitStart && snake.isAlive {
        outcome := snake.Move();
        match outcome
        case Ate =>
          status := EatFruit(rolls);
        case Died(score, duration) =>
          StartDeath(score, duration);
        case _ =>
      }
    }

    /** The delayed action the new fruit schedules: FruitSpawnDelay ms after
        the reset it appears on a random Empty cell. */
    method SpawnFruit(rolls: Rolls) returns (status: Status)
      requires Valid() && rolls.Valid() && fruit != null && fruit.position == None
      modifies fruit, grid.cells
      ensures Valid()
      ensures fruit.SpawnedBy(status)
    {
      status := fruit.Spawn(rolls);
    }

    /** The snake has eaten: the fruit is respawned at once. */
    method EatFruit(rolls: Rolls) returns (status: Status)
      requires SnakeShown() && NoFruitShown() && rolls.Valid() && fruit != null
      modifies fruit, grid.cells
      ensures Valid()
      ensures fruit.SpawnedBy(status)
    {
      status := fruit.GetEaten(rolls);
    }

    /** The snake has died: the tick speeds up for the death animation.
        The loss message follows after duration + 1000 ms (see EndRound). */
    method StartDeath(score: int, duration: int)
      modifies this`delay
      ensures delay == DeathDelay
    {
      delay := DeathDelay;
    }

    /** The delayed end of a lost round: show the score, wait for a key. */
    method EndRound(score: int)
      requires Valid()
      modifies this`awaitStart, this`message
      ensures Valid()
      ensures awaitStart && message == Lost(score)
    {
      message := Lost(score);
      awaitStart := true;
    }
  }
}
