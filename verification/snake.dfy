/** The snake: a sequence of cells from tail (first) to head (last), the
    direction it is heading, the last move it made, and whether it is alive. */
module Snakes {
  import opened Board

  datatype Direction = Up | Right | Down | Left | Stay

  function Opposite(d: Direction): Direction {
    match d
    case Up => Down
    case Down => Up
    case Left => Right
    case Right => Left
    case Stay => Stay
  }

  /** Heading `requested` right after moving `prevMove` turns the snake back
      onto its own neck. */
  predicate Reverses(requested: Direction, prevMove: Direction) {
    requested != Stay && requested == Opposite(prevMove)
  }

  /** The direction after asking for `requested`: every turn is granted
      except a half-turn against the last move made. */
  function NextDirection(current: Direction, prevMove: Direction, requested: Direction): (d: Direction)
    ensures requested != Stay && !Reverses(requested, prevMove) ==> d == requested
    ensures requested == Stay || Reverses(requested, prevMove) ==> d == current
    ensures !Reverses(current, prevMove) ==> !Reverses(d, prevMove)
  {
    match requested
    case Up => if prevMove == Down then current else Up
    case Down => if prevMove == Up then current else Down
    case Right => if prevMove == Left then current else Right
    case Left => if prevMove == Right then current else Left
    case Stay => current
  }

  /** One cell in direction d, before wrapping: y grows downwards. */
  function Step(p: FieldPosition, d: Direction): FieldPosition {
    match d
    case Up => FieldPosition(p.x, p.y - 1)
    case Down => FieldPosition(p.x, p.y + 1)
    case Left => FieldPosition(p.x - 1, p.y)
    case Right => FieldPosition(p.x + 1, p.y)
    case Stay => p
  }

  /** `(int) Math.sqrt(n)`: the largest r with r * r <= n. */
  function ISqrt(n: nat): (r: nat)
    ensures r * r <= n < (r + 1) * (r + 1)
  {
    if n == 0 then 0
    else
      var s := ISqrt(n - 1);
      if (s + 1) * (s + 1) <= n then s + 1 else s
  }

  /** A longer snake never gets a shorter death animation. */
  lemma ISqrtMonotone(m: nat, n: nat)
    requires m <= n
    ensures ISqrt(m) <= ISqrt(n)
  {
    var a, b := ISqrt(m), ISqrt(n);
    if a > b {
      SquareMonotone(b + 1, a);
    }
  }

  lemma SquareMonotone(x: nat, y: nat)
    requires x <= y
    ensures x * x <= y * y
  {
    assert x * x <= x * y <= y * y;
  }

  ghost predicate Distinct(s: seq<FieldPosition>) {
    forall i, j :: 0 <= i < j < |s| ==> s[i] != s[j]
  }

  /** What a move did; Ate and Died are what the game field must act on. */
  datatype MoveOutcome =
    | NoMove
    | Stepped
    | Ate
    | Looped
    | Died(score: int, duration: int)

  class Snake {
    const grid: Grid
    /** Side of a drawn segment; used only for drawing. */
    const size: int
    var direction: Direction
    var prevMove: Direction
    /** The segments, tail first and head last. */
    var body: seq<FieldPosition>
    var isAlive: bool
    var deathDuration: int

    /** The snake's invariant: its segments are distinct cells of the grid,
        the grid marks exactly those cells Snake, and it never heads back
        onto its neck. */
    ghost predicate Valid()
      reads this, grid.cells
    {
      && grid.Valid()
      && |body| >= 1
      && (forall i :: 0 <= i < |body| ==> grid.InBounds(body[i]))
      && Distinct(body)
      && (forall x, y :: 0 <= x < grid.xDimension && 0 <= y < grid.yDimension ==>
            (grid.cells[x, y] == FieldType.Snake <==> FieldPosition(x, y) in body))
      && !Reverses(direction, prevMove)
    }

    /** A one-segment snake at (cordX, cordY), standing still. */
    constructor (grid: Grid, cordX: int, cordY: int, size: int)
      requires grid.Shape()
      modifies grid.cells
      ensures this.grid == grid && this.size == size
      ensures body == [FieldPosition(cordX, cordY)]
      ensures direction == Stay && prevMove == Stay && isAlive && deathDuration == 0
      ensures grid.InBounds(body[0]) ==> grid.cells[cordX, cordY] == FieldType.Snake
      ensures grid.UnchangedExcept({body[0]})
      ensures old(grid.Valid()) && old(grid.AllEmpty()) && grid.InBounds(body[0]) ==> Valid()
    {
      this.grid := grid;
      this.size := size;
      direction := Stay;
      prevMove := Stay;
      isAlive := true;
      deathDuration := 0;
      body := [FieldPosition(cordX, cordY)];
      new;
      grid.SetFieldType(body[|body| - 1], FieldType.Snake);
    }

    function Head(): FieldPosition
      reads this
      requires |body| >= 1
    {
      body[|body| - 1]
    }

    /** The neighbour of p in direction d, wrapped onto the grid. */
    function OffsetByDirection(p: FieldPosition, d: Direction): (q: FieldPosition)
      requires grid.Shape() && d != Stay
      ensures grid.InBounds(q)
      ensures q == grid.GetLoopedPosition(Step(p, d))
      ensures grid.InBounds(Step(p, d)) ==> q == Step(p, d)
    {
      grid.GetLoopedPosition(Step(p, d))
    }

    /** Stepping one cell and back again returns to the start, across the
        wrap-around edges too. */
    lemma OffsetRoundTrip(p: FieldPosition, d: Direction)
      requires grid.Shape() && grid.InBounds(p) && d != Stay
      ensures OffsetByDirection(OffsetByDirection(p, d), Opposite(d)) == p
    {
      var q := OffsetByDirection(p, d);
      ModNeighbours(p.x, grid.xDimension);
      ModNeighbours(p.y, grid.yDimension);
      assert grid.InBounds(q);
      ModNeighbours(q.x, grid.xDimension);
      ModNeighbours(q.y, grid.yDimension);
      match d
      case Up =>
        assert q == FieldPosition(p.x, (p.y - 1) % grid.yDimension);
      case Down =>
        assert q == FieldPosition(p.x, (p.y + 1) % grid.yDimension);
      case Left =>
        assert q == FieldPosition((p.x - 1) % grid.xDimension, p.y);
      case Right =>
        assert q == FieldPosition((p.x + 1) % grid.xDimension, p.y);
    }

    /** The cell the head moves into next. */
    function Target(): FieldPosition
      reads this
      requires grid.Shape() && |body| >= 1 && direction != Stay
    {
      OffsetByDirection(Head(), direction)
    }

    /** Asking for a new heading: refused when it reverses the last move. */
    method ChangeDirection(requested: Direction)
      requires Valid()
      modifies this`direction
      ensures Valid()
      ensures direction == NextDirection(old(direction), prevMove, requested)
    {
      direction := NextDirection(direction, prevMove, requested);
    }

    /** Ends the snake's life; the outcome carries the score (its length)
        and the length of the death animation. */
    method Die() returns (outcome: MoveOutcome)
      modifies this`isAlive, this`deathDuration
      ensures !isAlive && deathDuration == ISqrt(|body|) * 500
      ensures outcome == Died(|body|, deathDuration)
    {
      isAlive := false;
      deathDuration := ISqrt(|body|) * 500;
      outcome := Died(|body|, deathDuration);
    }

    /** What one tick of movement did to the snake's own fields, and the
        outcome it reported. A dead or still snake does nothing; otherwise
        the last move becomes the heading and the kind of the target cell
        decides: step, eat, follow the tail, or die. */
    twostate predicate MovedSnake(outcome: MoveOutcome)
      reads this, grid.cells
      requires grid.Shape() && old(|body|) >= 1
    {
      && direction == old(direction)
      && if old(!isAlive || direction == Stay) then
           && outcome == NoMove && body == old(body) && prevMove == old(prevMove)
           && isAlive == old(isAlive) && deathDuration == old(deathDuration)
         else
           var t := old(Target());
           var tail := old(body[0]);
           var target := old(grid.GetFieldType(t));
           && prevMove == old(direction)
           && target != FieldType.Border
           && (target == FieldType.Empty ==>
                 && outcome == Stepped && isAlive && deathDuration == old(deathDuration)
                 && body == old(body[1..]) + [t])
           && (target == FieldType.Fruit ==>
                 && outcome == Ate && isAlive && deathDuration == old(deathDuration)
                 && body == old(body) + [t])
           && (target == FieldType.Snake && t == tail ==>
                 && outcome == Looped && isAlive && deathDuration == old(deathDuration)
                 && body == old(body[1..]) + [t])
           && (target == FieldType.Snake && t != tail ==>
                 && outcome == Died(|body|, deathDuration) && !isAlive
                 && body == old(body)
                 && deathDuration == ISqrt(|body|) * 500)
    }

    /** What one tick of movement did to the grid, by outcome: a step frees
        the old tail's cell and marks the new head's; eating marks the new
        head's; nothing else changes a cell. */
    twostate predicate MovedGrid(outcome: MoveOutcome)
      reads this, grid.cells
      requires grid.Shape() && old(|body|) >= 1 && |body| >= 1
    {
      var tail, head := old(body[0]), Head();
      match outcome
      case Stepped =>
        && grid.GetFieldType(tail) == FieldType.Empty
        && grid.GetFieldType(head) == FieldType.Snake
        && grid.UnchangedExcept({tail, head})
      case Ate =>
        && grid.GetFieldType(head) == FieldType.Snake
        && grid.UnchangedExcept({head})
      case _ =>
        grid.UnchangedExcept({})
    }

    /** The Empty branch of a move: the tail leaves its cell and the head
        enters the Empty cell t. */
    method StepInto(t: FieldPosition)
      requires Valid() && grid.InBounds(t) && grid.cells[t.x, t.y] == FieldType.Empty
      modifies this`body, grid.cells
      ensures Valid()
      ensures body == old(body[1..]) + [t]
      ensures grid.cells[old(body[0]).x, old(body[0]).y] == FieldType.Empty
      ensures grid.cells[t.x, t.y] == FieldType.Snake
      ensures grid.UnchangedExcept({old(body[0]), t})
    {
      var tail := body[0];
      body := body[1..];
      grid.SetFieldType(tail, FieldType.Empty);
      body := body + [t];
      grid.SetFieldType(body[|body| - 1], FieldType.Snake);
    }

    /** The Fruit branch of a move: the head enters the fruit's cell t and
        the tail stays, so the snake grows by one. */
    method GrowInto(t: FieldPosition)
      requires Valid() && grid.InBounds(t) && grid.cells[t.x, t.y] == FieldType.Fruit
      modifies this`body, grid.cells
      ensures Valid()
      ensures body == old(body) + [t]
      ensures grid.cells[t.x, t.y] == FieldType.Snake
      ensures grid.UnchangedExcept({t})
    {
      body := body + [t];
      grid.SetFieldType(body[|body| - 1], FieldType.Snake);
    }

    /** The Snake branch of a move whose target is the tail's own cell: the
        tail leaves it as the head enters, so a closed loop may be followed. */
    method FollowTail()
      requires Valid()
      modifies this`body
      ensures Valid()
      ensures body == old(body[1..]) + [old(body[0])]
    {
      body := body[1..] + [body[0]];
    }

    /** One tick of movement. */
    method Move() returns (outcome: MoveOutcome)
      requires Valid()
      modifies this, grid.cells
      ensures Valid()
      ensures MovedSnake(outcome) && MovedGrid(outcome)
    {
      if !isAlive || direction == Stay {
        return NoMove;
      }
      prevMove := direction;
      var newPosition := OffsetByDirection(body[|body| - 1], direction);
      var fieldType := grid.GetFieldType(newPosition);
      match fieldType
      case Empty =>
        StepInto(newPosition);
        outcome := Stepped;
      case Fruit =>
        GrowInto(newPosition);
        // the game field is told to respawn the fruit
        outcome := Ate;
      case Border =>
        // the new head was wrapped onto the grid, so it is never outside it
        assert false;
      case Snake =>
        if newPosition != body[0] {
          outcome := Die();
        } else {
          FollowTail();
          outcome := Looped;
        }
    }
  }
}
