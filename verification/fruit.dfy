/** The fruit: at most one position on the grid, placed on a random Empty
    cell and placed again each time it is eaten. */
module Fruits {
  import opened Board

  /** How a spawn ends. With no Empty cell left the search answers null and
      marking the null position throws a NullPointerException. When the spawn
      follows an eaten fruit, the exception leaves the timer tick before its
      repaint; when it is the delayed first spawn, the background task that
      runs it keeps the exception and nothing reads it. */
  datatype Status = Completed | NullPointerThrown

  class Fruit {
    const grid: Grid
    /** Milliseconds before the first spawn; the delayed spawn itself is
        scheduled outside this model. */
    const spawnDelay: int
    /** Diameter basis of the drawn fruit; used only for drawing. */
    const size: int
    /** None until the first spawn, and after a spawn that found no Empty cell. */
    var position: Option<FieldPosition>

    constructor (grid: Grid, spawnDelay: int, size: int)
      ensures this.grid == grid && this.spawnDelay == spawnDelay && this.size == size
      ensures position == None
    {
      this.grid := grid;
      this.spawnDelay := spawnDelay;
      this.size := size;
      position := None;
    }

    /** What a spawn did: if some cell was Empty, the fruit now sits on a
        cell that was Empty, that cell shows Fruit and no other cell changed;
        otherwise the fruit has no position and no cell changed. */
    twostate predicate SpawnedBy(status: Status)
      reads this, grid.cells
      requires grid.Shape()
    {
      && (status == Completed <==> old(grid.HasEmpty()))
      && (status == Completed ==>
            && position.Some? && grid.InBounds(position.value)
            && var p := position.value;
            && old(grid.cells[p.x, p.y]) == FieldType.Empty
            && grid.cells[p.x, p.y] == FieldType.Fruit
            && grid.UnchangedExcept({p}))
      && (status == NullPointerThrown ==> position == None && grid.UnchangedExcept({}))
    }

    /** Puts the fruit on a random Empty cell and marks that cell Fruit. */
    method Spawn(rolls: Rolls) returns (status: Status)
      requires grid.Valid() && rolls.Valid()
      modifies this, grid.cells
      ensures grid.Valid()
      ensures SpawnedBy(status)
    {
      position := grid.GetRandomEmptyFieldPos(rolls);
      if position.None? {
        return NullPointerThrown;
      }
      grid.SetFieldType(position.value, FieldType.Fruit);
      status := Completed;
    }

    /** Being eaten respawns the fruit at once. */
    method GetEaten(rolls: Rolls) returns (status: Status)
      requires grid.Valid() && rolls.Valid()
      modifies this, grid.cells
      ensures grid.Valid()
      ensures SpawnedBy(status)
    {
      status := Spawn(rolls);
    }
  }
}
