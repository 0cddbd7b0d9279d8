/** Short rounds played against the contracts of the other modules: each
    assertion below follows from those contracts alone. */
module Scenarios {
  import opened Board
  import opened Snakes
  import opened Fruits
  import opened Field

  /** Rolls whose probes all land on column x0 of row 0. */
  function ProbesAt(rx: real): (r: Rolls)
    requires InUnitInterval(rx)
    ensures r.Valid()
  {
    Rolls(seq(ProbeCount, _ => rx), seq(ProbeCount, _ => 0.0), 0.0)
  }

  /** On a 15 x 15 field the first key starts a round with the snake at
      (7, 7); RIGHT and one timer tick move its head to (8, 7) and free
      (7, 7). */
  method FirstMove() {
    var field := new GameField(400, 15, 15, 2);
    field.KeyPressed(32);
    assert field.snake.body == [FieldPosition(7, 7)];
    field.KeyPressed(39);
    var snake := field.snake;
    assert snake.direction == Right;
    assert snake.Target() == FieldPosition(8, 7);
    assert field.grid.GetFieldType(FieldPosition(8, 7)) == FieldType.Empty;
    var outcome, status := field.ActionPerformed(ProbesAt(0.0));
    assert outcome == Stepped && status == Completed;
    assert snake.body == [FieldPosition(8, 7)] && snake.prevMove == Right;
    assert field.grid.cells[7, 7] == FieldType.Empty;
    assert field.grid.cells[8, 7] == FieldType.Snake;
    assert field.delay == NormalDelay;
  }

  /** On a 2 x 1 grid with the snake at (0, 0), the only Empty cell gets
      the fruit. */
  method FruitOnLastCell() returns (grid: Grid, snake: Snake, fruit: Fruit)
    ensures fresh(grid) && fresh(grid.cells) && fresh(snake) && fresh(fruit)
    ensures snake.grid == grid && fruit.grid == grid
    ensures grid.xDimension == 2 && grid.yDimension == 1
    ensures snake.Valid() && snake.isAlive
    ensures snake.body == [FieldPosition(0, 0)] && snake.direction == Stay && snake.prevMove == Stay
    ensures fruit.position == Some(FieldPosition(1, 0))
    ensures grid.cells[1, 0] == FieldType.Fruit
  {
    grid := new Grid(100, 2, 1, 1);
    snake := new Snake(grid, 0, 0, grid.GetBlockSize());
    assert grid.cells[1, 0] == FieldType.Empty;
    fruit := new Fruit(grid, FruitSpawnDelay, grid.GetBlockSize());
    var status := fruit.Spawn(ProbesAt(0.5));
    assert status == Completed;
    assert fruit.position == Some(FieldPosition(1, 0));
    assert grid.cells[0, 0] == FieldType.Snake;
  }

  /** Eating the fruit on the 2 x 1 grid makes the snake fill the grid, and
      the next move follows the closed loop through the tail's cell instead
      of killing the snake; a half-turn is then refused. */
  method ClosedLoop() {
    var grid, snake, fruit := FruitOnLastCell();
    snake.ChangeDirection(Right);
    assert snake.Target() == FieldPosition(1, 0);
    assert grid.GetFieldType(FieldPosition(1, 0)) == FieldType.Fruit;
    var ate := snake.Move();
    assert ate == Ate;
    assert snake.body == [FieldPosition(0, 0), FieldPosition(1, 0)];
    assert snake.Target() == FieldPosition(0, 0);
    assert grid.GetFieldType(FieldPosition(0, 0)) == FieldType.Snake;
    var looped := snake.Move();
    assert looped == Looped;
    assert snake.isAlive && snake.body == [FieldPosition(1, 0), FieldPosition(0, 0)];
    snake.ChangeDirection(Left);
    assert snake.direction == Right;
  }

  /** A length-3 snake's death animation lasts 500 ms. */
  lemma DeathDurationOfThree()
    ensures ISqrt(3) * 500 == 500
  {
    assert ISqrt(1) == 1;
  }
}
