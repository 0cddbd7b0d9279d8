/** The board of the Snake game: the grid of cells, its wrap-around
    coordinates, the search for an Empty cell and the grid-to-pixel layout.
    This is the state-holding half of the game field; the round lifecycle
    that drives it lives in module Field. */
module Board {

  datatype Option<+T> = None | Some(value: T)

  /** What occupies a cell. Border is never stored: it is what a read
      outside the grid answers. */
  datatype FieldType = Empty | Snake | Fruit | Border

  /** A cell of the grid: x counts columns from the left, y rows from the top. */
  datatype FieldPosition = FieldPosition(x: int, y: int)

  /** A pixel of the drawing area: the upper-left corner of a drawn cell. */
  datatype FramePosition = FramePosition(x: int, y: int)

  /** How many random cells are probed before the exhaustive search. */
  const ProbeCount := 10

  predicate InUnitInterval(r: real) {
    0.0 <= r < 1.0
  }

  /** The values Math.random() yields during one search for an Empty cell:
      an x and a y for each probe, and the draw that picks a rank in the
      exhaustive search. */
  datatype Rolls = Rolls(probeX: seq<real>, probeY: seq<real>, pick: real) {
    predicate Valid() {
      && |probeX| == ProbeCount
      && |probeY| == ProbeCount
      && (forall i :: 0 <= i < ProbeCount ==> InUnitInterval(probeX[i]))
      && (forall i :: 0 <= i < ProbeCount ==> InUnitInterval(probeY[i]))
      && InUnitInterval(pick)
    }
  }

  lemma ScaledBelow(r: real, n: int)
    requires InUnitInterval(r) && n > 0
    ensures 0.0 <= r * n as real < n as real
  {
    assert r * n as real <= 1.0 * n as real - (1.0 - r) * n as real;
  }

  /** `(int)(r * n)`: a draw r from [0, 1) scaled to an index of [0, n). */
  function Scale(r: real, n: int): (k: int)
    requires InUnitInterval(r) && n > 0
    ensures 0 <= k < n
  {
    ScaledBelow(r, n);
    (r * n as real).Floor
  }

  /** Java's `/` on int, which truncates toward zero. */
  function JavaDiv(a: int, b: int): (q: int)
    requires b > 0
    ensures a >= 0 ==> 0 <= q * b <= a < q * b + b
    ensures a < 0 ==> q * b - b < a <= q * b <= 0
  {
    DivBounds(if a >= 0 then a else -a, b);
    if a >= 0 then a / b else -((-a) / b)
  }

  lemma DivBounds(a: int, b: int)
    requires a >= 0 && b > 0
    ensures 0 <= (a / b) * b <= a < (a / b) * b + b
  {
    var q, r := a / b, a % b;
    assert a == q * b + r;
    assert q >= 0;
  }

  /** Euclidean division is unique: a remainder in [0, n) is THE remainder. */
  lemma ModUnique(a: int, n: int, q: int, r: int)
    requires n > 0 && 0 <= r < n && a == q * n + r
    ensures a % n == r
  {
    var q', r' := a / n, a % n;
    assert a == q' * n + r';
    var k := q' - q;
    assert k * n == r - r';
    if k >= 1 {
      MulAtLeast(k, n);
    } else if k <= -1 {
      MulAtLeast(-k, n);
    }
  }

  lemma MulAtLeast(k: int, n: int)
    requires k >= 1 && n > 0
    ensures k * n >= n
  {
    assert (k - 1) * n >= 0;
  }

  lemma ModShift(a: int, n: int)
    requires n > 0
    ensures (a + n) % n == a % n
  {
    assert a + n == (a / n + 1) * n + a % n;
    ModUnique(a + n, n, a / n + 1, a % n);
  }

  /** Wrapping a neighbour of an in-range coordinate. */
  lemma ModNeighbours(v: int, n: int)
    requires 0 <= v < n
    ensures v % n == v
    ensures (v + 1) % n == if v + 1 == n then 0 else v + 1
    ensures (v - 1) % n == if v == 0 then n - 1 else v - 1
  {
    ModUnique(v, n, 0, v);
    if v + 1 == n { ModUnique(v + 1, n, 1, 0); } else { ModUnique(v + 1, n, 0, v + 1); }
    if v == 0 { ModUnique(v - 1, n, -1, n - 1); } else { ModUnique(v - 1, n, 0, v - 1); }
  }

  class Grid {
    /** Width of the drawing area in pixels. */
    const frameWidth: int
    const xDimension: int
    const yDimension: int
    /** Pixels between neighbouring cells and around the grid. */
    const separation: int
    /** The stored cells, indexed [x, y]. */
    const cells: array2<FieldType>

    predicate Shape() {
      && 0 < xDimension && 0 < yDimension
      && cells.Length0 == xDimension && cells.Length1 == yDimension
    }

    /** The grid's invariant: the shape is fixed and no cell stores Border. */
    ghost predicate Valid()
      reads cells
    {
      && Shape()
      && forall x, y :: 0 <= x < xDimension && 0 <= y < yDimension ==> cells[x, y] != FieldType.Border
    }

    predicate InBounds(p: FieldPosition) {
      0 <= p.x < xDimension && 0 <= p.y < yDimension
    }

    ghost predicate AllEmpty()
      reads cells
      requires Shape()
    {
      forall x, y :: 0 <= x < xDimension && 0 <= y < yDimension ==> cells[x, y] == FieldType.Empty
    }

    ghost predicate HasEmpty()
      reads cells
      requires Shape()
    {
      exists x, y :: 0 <= x < xDimension && 0 <= y < yDimension && cells[x, y] == FieldType.Empty
    }

    /** Every cell except those in ps holds what it held before. */
    twostate predicate UnchangedExcept(ps: set<FieldPosition>)
      reads cells
      requires Shape()
    {
      forall x, y :: 0 <= x < xDimension && 0 <= y < yDimension && FieldPosition(x, y) !in ps ==>
        cells[x, y] == old(cells[x, y])
    }

    constructor (frameWidth: int, xDimension: int, yDimension: int, separation: int)
      requires xDimension > 0 && yDimension > 0
      ensures this.frameWidth == frameWidth && this.separation == separation
      ensures this.xDimension == xDimension && this.yDimension == yDimension
      ensures Valid() && AllEmpty() && fresh(cells)
    {
      this.frameWidth := frameWidth;
      this.xDimension := xDimension;
      this.yDimension := yDimension;
      this.separation := separation;
      cells := new FieldType[xDimension, yDimension];
      new;
      Clear();
    }

    /** Fills every row with Empty, one row after the other. */
    method Clear()
      requires Shape()
      modifies cells
      ensures Valid() && AllEmpty()
    {
      var i := 0;
      while i < xDimension
        invariant 0 <= i <= xDimension
        invariant forall x, y :: 0 <= x < i && 0 <= y < yDimension ==> cells[x, y] == FieldType.Empty
      {
        var j := 0;
        while j < yDimension
          invariant 0 <= j <= yDimension
          invariant forall x, y :: 0 <= x < i && 0 <= y < yDimension ==> cells[x, y] == FieldType.Empty
          invariant forall y :: 0 <= y < j ==> cells[i, y] == FieldType.Empty
        {
          cells[i, j] := FieldType.Empty;
          j := j + 1;
        }
        i := i + 1;
      }
    }

    /** Side of a drawn cell in pixels: the frame width left after the
        separators, shared by the columns. */
    function GetBlockSize(): (size: int)
      requires xDimension > 0
      ensures var w := frameWidth - separation * (xDimension + 1);
        && (w >= 0 ==> 0 <= size && size * xDimension <= w < (size + 1) * xDimension)
        && (w < 0 ==> (size - 1) * xDimension < w <= size * xDimension && size <= 0)
    {
      JavaDiv(frameWidth - separation * (xDimension + 1), xDimension)
    }

    /** The upper-left corner of cell p: one separator in, then one block
        and one separator per cell before it on each axis. */
    function GetFramePosition(p: FieldPosition): (f: FramePosition)
      requires xDimension > 0
      ensures f.x == separation + p.x * (GetBlockSize() + separation)
      ensures f.y == separation + p.y * (GetBlockSize() + separation)
    {
      var size := GetBlockSize();
      FramePosition((p.x + 1) * separation + p.x * size, (p.y + 1) * separation + p.y * size)
    }

    /** Cell (0, 0) starts one separator in, and each step right or down
        moves the corner by one cell and one separator. */
    lemma FramePositionSteps(p: FieldPosition)
      requires xDimension > 0
      ensures GetFramePosition(FieldPosition(0, 0)) == FramePosition(separation, separation)
      ensures GetFramePosition(FieldPosition(p.x + 1, p.y)).x == GetFramePosition(p).x + GetBlockSize() + separation
      ensures GetFramePosition(FieldPosition(p.x, p.y + 1)).y == GetFramePosition(p).y + GetBlockSize() + separation
      ensures GetFramePosition(FieldPosition(p.x + 1, p.y)).y == GetFramePosition(p).y
      ensures GetFramePosition(FieldPosition(p.x, p.y + 1)).x == GetFramePosition(p).x
    {
    }

    /** When the frame is wide enough for the separators, the last column
        and the separator after it end inside the frame, and fewer than
        xDimension pixels of the width are left unused. */
    lemma GridFitsFrame()
      requires xDimension > 0
      requires frameWidth >= separation * (xDimension + 1)
      ensures GetBlockSize() >= 0
      ensures var right := GetFramePosition(FieldPosition(xDimension - 1, 0)).x + GetBlockSize() + separation;
              frameWidth - xDimension < right <= frameWidth
    {
      var size := GetBlockSize();
      var a := frameWidth - separation * (xDimension + 1);
      assert 0 <= size * xDimension <= a < size * xDimension + xDimension;
      var right := GetFramePosition(FieldPosition(xDimension - 1, 0)).x + size + separation;
      calc {
        right;
        xDimension * separation + (xDimension - 1) * size + size + separation;
        separation * (xDimension + 1) + size * xDimension;
      }
    }

    /** Reading a cell: outside the grid the answer is Border. */
    function GetFieldType(p: FieldPosition): (t: FieldType)
      reads cells
      requires Shape()
      ensures !InBounds(p) ==> t == FieldType.Border
      ensures InBounds(p) ==> t == cells[p.x, p.y]
      ensures Valid() ==> (t == FieldType.Border <==> !InBounds(p))
    {
      if InBounds(p) then cells[p.x, p.y] else FieldType.Border
    }

    /** Writing a cell: a write outside the grid is dropped (the source
        logs a warning). */
    method SetFieldType(p: FieldPosition, t: FieldType)
      requires Shape()
      modifies cells
      ensures InBounds(p) ==> cells[p.x, p.y] == t
      ensures !InBounds(p) ==> unchanged(cells)
      ensures UnchangedExcept({p})
    {
      if InBounds(p) {
        cells[p.x, p.y] := t;
      }
    }

    /** The toroidal wrap: each coordinate reduced with a floored modulo. */
    function GetLoopedPosition(p: FieldPosition): (q: FieldPosition)
      requires Shape()
      ensures InBounds(q)
      ensures InBounds(p) ==> q == p
    {
      FieldPosition(p.x % xDimension, p.y % yDimension)
    }

    /** Moving a whole grid width or height away does not change the cell
        reached: together with the two facts above, this pins the wrap
        down as the floored modulo. */
    lemma LoopedPositionPeriodic(p: FieldPosition)
      requires Shape()
      ensures GetLoopedPosition(FieldPosition(p.x + xDimension, p.y)) == GetLoopedPosition(p)
      ensures GetLoopedPosition(FieldPosition(p.x, p.y + yDimension)) == GetLoopedPosition(p)
    {
      ModShift(p.x, xDimension);
      ModShift(p.y, yDimension);
    }

    lemma LoopedPositionIdempotent(p: FieldPosition)
      requires Shape()
      ensures GetLoopedPosition(GetLoopedPosition(p)) == GetLoopedPosition(p)
    {
    }

    // Counting Empty cells in the scan order of the exhaustive search:
    // column by column (x), and within a column by row (y).

    /** Empty cells of column x among its first n rows. */
    function EmptyInColumn(x: int, n: int): (c: nat)
      reads cells
      requires Shape() && 0 <= x < xDimension && 0 <= n <= yDimension
      ensures c <= n
      decreases n
    {
      if n == 0 then 0
      else EmptyInColumn(x, n - 1) + (if cells[x, n - 1] == FieldType.Empty then 1 else 0)
    }

    /** Empty cells of the first m columns. */
    function EmptyBeforeColumn(m: int): (c: nat)
      reads cells
      requires Shape() && 0 <= m <= xDimension
      ensures c <= m * yDimension
      decreases m
    {
      if m == 0 then 0
      else EmptyBeforeColumn(m - 1) + EmptyInColumn(m - 1, yDimension)
    }

    /** The number of Empty cells of the grid. */
    function CountEmpty(): (c: nat)
      reads cells
      requires Shape()
      ensures c <= xDimension * yDimension
    {
      EmptyBeforeColumn(xDimension)
    }

    /** The count is zero exactly when no cell is Empty: the fact the
        exhaustive search relies on before it draws a rank. */
    lemma CountEmptyZero()
      requires Shape()
      ensures CountEmpty() == 0 <==> !HasEmpty()
    {
      if HasEmpty() {
        var x, y :| 0 <= x < xDimension && 0 <= y < yDimension && cells[x, y] == FieldType.Empty;
        RankBelowCount(FieldPosition(x, y));
      } else {
        NoEmptyBeforeColumn(xDimension);
      }
    }

    lemma {:induction false} NoEmptyInColumn(x: int, n: int)
      requires Shape() && 0 <= x < xDimension && 0 <= n <= yDimension && !HasEmpty()
      ensures EmptyInColumn(x, n) == 0
      decreases n
    {
      if n > 0 {
        NoEmptyInColumn(x, n - 1);
      }
    }

    lemma {:induction false} NoEmptyBeforeColumn(m: int)
      requires Shape() && 0 <= m <= xDimension && !HasEmpty()
      ensures EmptyBeforeColumn(m) == 0
      decreases m
    {
      if m > 0 {
        NoEmptyBeforeColumn(m - 1);
        NoEmptyInColumn(m - 1, yDimension);
      }
    }

    /** How many Empty cells the scan meets before p. */
    function Rank(p: FieldPosition): nat
      reads cells
      requires Shape() && InBounds(p)
    {
      EmptyBeforeColumn(p.x) + EmptyInColumn(p.x, p.y)
    }

    lemma {:induction false} EmptyInColumnMonotone(x: int, a: int, b: int)
      requires Shape() && 0 <= x < xDimension && 0 <= a <= b <= yDimension
      ensures EmptyInColumn(x, a) <= EmptyInColumn(x, b)
      decreases b
    {
      if a < b {
        EmptyInColumnMonotone(x, a, b - 1);
      }
    }

    lemma {:induction false} EmptyBeforeColumnMonotone(a: int, b: int)
      requires Shape() && 0 <= a <= b <= xDimension
      ensures EmptyBeforeColumn(a) <= EmptyBeforeColumn(b)
      decreases b
    {
      if a < b {
        EmptyBeforeColumnMonotone(a, b - 1);
      }
    }

    /** The rank of an Empty cell is one less than the count taken just after it. */
    lemma RankOfEmpty(p: FieldPosition)
      requires Shape() && InBounds(p) && cells[p.x, p.y] == FieldType.Empty
      ensures Rank(p) + 1 == EmptyBeforeColumn(p.x) + EmptyInColumn(p.x, p.y + 1)
      ensures Rank(p) + 1 <= EmptyBeforeColumn(p.x + 1)
    {
      EmptyInColumnMonotone(p.x, p.y + 1, yDimension);
    }

    /** Ranks grow strictly along the scan order, so two Empty cells never
        share a rank: "the k-th Empty cell" names one cell. */
    lemma RankStrictlyIncreasing(p: FieldPosition, q: FieldPosition)
      requires Shape() && InBounds(p) && InBounds(q)
      requires cells[p.x, p.y] == FieldType.Empty && cells[q.x, q.y] == FieldType.Empty
      requires p.x < q.x || (p.x == q.x && p.y < q.y)
      ensures Rank(p) < Rank(q)
    {
      RankOfEmpty(p);
      if p.x == q.x {
        EmptyInColumnMonotone(p.x, p.y + 1, q.y);
      } else {
        EmptyBeforeColumnMonotone(p.x + 1, q.x);
      }
    }

    /** Every Empty cell has a rank below the count of Empty cells. */
    lemma RankBelowCount(p: FieldPosition)
      requires Shape() && InBounds(p) && cells[p.x, p.y] == FieldType.Empty
      ensures Rank(p) < CountEmpty()
    {
      RankOfEmpty(p);
      EmptyBeforeColumnMonotone(p.x + 1, xDimension);
    }

    /** The cell that probe i of the random phase looks at. */
    function ProbeAt(rolls: Rolls, i: int): (p: FieldPosition)
      requires Shape() && rolls.Valid() && 0 <= i < ProbeCount
      ensures InBounds(p)
    {
      FieldPosition(Scale(rolls.probeX[i], xDimension), Scale(rolls.probeY[i], yDimension))
    }

    /** The first of probes i, i+1, ... that lands on an Empty cell, if any. */
    function ProbeResult(rolls: Rolls, i: nat): (r: Option<FieldPosition>)
      reads cells
      requires Shape() && rolls.Valid() && i <= ProbeCount
      ensures r.Some? ==> InBounds(r.value) && cells[r.value.x, r.value.y] == FieldType.Empty
      decreases ProbeCount - i
    {
      if i == ProbeCount then None
      else
        var p := ProbeAt(rolls, i);
        if cells[p.x, p.y] == FieldType.Empty then Some(p) else ProbeResult(rolls, i + 1)
    }

    /** A random Empty cell: up to ProbeCount random probes, then the Empty
        cell whose rank is drawn from [0, CountEmpty()). None exactly when
        no cell is Empty. */
    method GetRandomEmptyFieldPos(rolls: Rolls) returns (r: Option<FieldPosition>)
      requires Shape() && rolls.Valid()
      ensures r.None? <==> !HasEmpty()
      ensures r.Some? ==> InBounds(r.value) && cells[r.value.x, r.value.y] == FieldType.Empty
      ensures ProbeResult(rolls, 0).Some? ==> r == ProbeResult(rolls, 0)
      ensures ProbeResult(rolls, 0).None? && CountEmpty() > 0 ==>
                r.Some? && Rank(r.value) == Scale(rolls.pick, CountEmpty())
    {
      var i := 0;
      while i < ProbeCount
        invariant 0 <= i <= ProbeCount
        invariant ProbeResult(rolls, i) == ProbeResult(rolls, 0)
      {
        var x := Scale(rolls.probeX[i], xDimension);
        var y := Scale(rolls.probeY[i], yDimension);
        if cells[x, y] == FieldType.Empty {
          return Some(FieldPosition(x, y));
        }
        i := i + 1;
      }

      var emptyNum := CountEmpty();
      CountEmptyZero();
      if emptyNum == 0 {
        return None;
      }
      var picked := Scale(rolls.pick, emptyNum);
      var counter := -1;
      var x := 0;
      while x < xDimension
        invariant 0 <= x <= xDimension
        invariant counter == EmptyBeforeColumn(x) - 1 < picked
      {
        var y := 0;
        while y < yDimension
          invariant 0 <= y <= yDimension
          invariant counter == EmptyBeforeColumn(x) + EmptyInColumn(x, y) - 1 < picked
        {
          if cells[x, y] == FieldType.Empty {
            counter := counter + 1;
            if counter == picked {
              return Some(FieldPosition(x, y));
            }
          }
          y := y + 1;
        }
        x := x + 1;
      }
      // Unreachable: the scan has now counted all emptyNum > picked Empty cells.
      assert false;
      return None;
    }
  }
}
