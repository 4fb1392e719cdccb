/**
  The Game-of-Life engine: a world of `numRows` x `numCols` integer cells held
  in two arrays, `world` (the current generation) and `worldBuffer` (where the
  next generation is written before the two are swapped).
 */
module World {
  import opened Grids
  import opened LifeRules

  /** The value of a two-dimensional array, row by row. */
  ghost function Snapshot(a: array2<int>): (g: Grid)
    reads a
    ensures IsRect(g, a.Length0, a.Length1)
  {
    seq(a.Length0, r requires 0 <= r < a.Length0 reads a =>
      seq(a.Length1, c requires 0 <= c < a.Length1 reads a => a[r, c]))
  }

  class LifeWorld {
    const numCols: nat
    const numRows: nat
    var world: array2<int>
    var worldBuffer: array2<int>

    /** Both grids have the world's shape and are two different arrays. */
    ghost predicate Valid()
      reads this
    {
      world != worldBuffer &&
      world.Length0 == numRows && world.Length1 == numCols &&
      worldBuffer.Length0 == numRows && worldBuffer.Length1 == numCols
    }

    /** The current generation as a value. */
    ghost function Cells(): (g: Grid)
      reads this, world
      requires Valid()
      ensures IsRect(g, numRows, numCols)
    {
      Snapshot(world)
    }

    /**
      A world whose two grids are fresh, distinct and all dead. Like the
      JavaScript `new LifeWorld(numCols, numRows)`, it takes the columns first.
     */
    constructor (numCols: nat, numRows: nat)
      ensures Valid()
      ensures this.numCols == numCols && this.numRows == numRows
      ensures fresh(world) && fresh(worldBuffer)
      ensures Snapshot(world) == Filled(numRows, numCols, 0)
      ensures Snapshot(worldBuffer) == Filled(numRows, numCols, 0)
    {
      this.numCols := numCols;
      this.numRows := numRows;
      var grid := BuildArray(numRows, numCols);
      var buffer := BuildArray(numRows, numCols);
      world := grid;
      worldBuffer := buffer;
    }

    /** A fresh `rows` x `cols` grid of zeros. */
    static method BuildArray(rows: nat, cols: nat) returns (a: array2<int>)
      ensures fresh(a) && a.Length0 == rows && a.Length1 == cols
      ensures Snapshot(a) == Filled(rows, cols, 0)
    {
      a := new int[rows, cols];
      for row := 0 to rows
        invariant forall r, c :: 0 <= r < row && 0 <= c < cols ==> a[r, c] == 0
      {
        for col := 0 to cols
          invariant forall r, c :: 0 <= r < row && 0 <= c < cols ==> a[r, c] == 0
          invariant forall c :: 0 <= c < col ==> a[row, c] == 0
        {
          a[row, col] := 0;
        }
      }
      SameCells(Snapshot(a), Filled(rows, cols, 0), rows, cols);
    }

    /** Seeds the current generation from the random source, one draw per cell. */
    method Init(draws: seq<seq<real>>)
      requires Valid() && IsRect(draws, numRows, numCols)
      modifies world
      ensures Valid()
      ensures Snapshot(world) == Seed(draws, numRows, numCols)
      ensures Snapshot(worldBuffer) == old(Snapshot(worldBuffer))
    {
      RandomSetup(draws);
    }

    /**
      Sets every cell of the current generation to 1 when its draw is below
      `Density` and to 0 otherwise; `draws[r][c]` stands for the value the
      random source returns when cell (r, c) is visited.
     */
    method RandomSetup(draws: seq<seq<real>>)
      requires Valid() && IsRect(draws, numRows, numCols)
      modifies world
      ensures Valid()
      ensures Snapshot(world) == Seed(draws, numRows, numCols)
      ensures Snapshot(worldBuffer) == old(Snapshot(worldBuffer))
    {
      for row := 0 to numRows
        invariant forall r, c :: 0 <= r < row && 0 <= c < numCols ==>
          world[r, c] == if draws[r][c] < Density then 1 else 0
      {
        for col := 0 to numCols
          invariant forall r, c :: 0 <= r < row && 0 <= c < numCols ==>
            world[r, c] == if draws[r][c] < Density then 1 else 0
          invariant forall c :: 0 <= c < col ==> world[row, c] == if draws[row][c] < Density then 1 else 0
        {
          world[row, col] := if draws[row][col] < Density then 1 else 0;
        }
      }
      SameCells(Snapshot(world), Seed(draws, numRows, numCols), numRows, numCols);
    }

    /** The neighbour count of (row, col) in the current generation; any integers are accepted. */
    method GetLivingNeighbors(row: int, col: int) returns (n: int)
      requires Valid()
      ensures n == LivingNeighbors(Cells(), numRows, numCols, row, col)
    {
      if row <= 0 || col <= 0 || row >= numRows - 1 || col >= numCols - 1 {
        return 0;
      }
      ghost var g := Cells();
      n := 0;
      for i := 0 to |Directions|
        invariant n == CountFirst(g, numRows, numCols, row, col, i)
      {
        var (x, y) := Directions[i];
        if world[row + x, col + y] == 1 {
          n := n + 1;
        }
      }
    }

    /**
      Advances one generation: every cell of the buffer is computed from the
      current generation, then the two arrays exchange roles.
     */
    method Step()
      requires Valid()
      modifies this, worldBuffer
      ensures Valid()
      ensures world == old(worldBuffer) && worldBuffer == old(world)
      ensures Cells() == Next(old(Cells()), numRows, numCols)
      ensures Snapshot(worldBuffer) == old(Cells())
    {
      ghost var g := Cells();
      ghost var next := Next(g, numRows, numCols);
      for row := 0 to numRows
        modifies worldBuffer
        invariant Cells() == g
        invariant forall r, c :: 0 <= r < row && 0 <= c < numCols ==> worldBuffer[r, c] == next[r][c]
      {
        for col := 0 to numCols
          modifies worldBuffer
          invariant Cells() == g
          invariant forall r, c :: 0 <= r < row && 0 <= c < numCols ==> worldBuffer[r, c] == next[r][c]
          invariant forall c :: 0 <= c < col ==> worldBuffer[row, c] == next[row][c]
        {
          var livingNeighbors := GetLivingNeighbors(row, col);
          if world[row, col] == 1 {
            worldBuffer[row, col] := if livingNeighbors < 2 || livingNeighbors > 4 then 0 else 1;
          } else {
            worldBuffer[row, col] := if livingNeighbors == 3 then 1 else 0;
          }
        }
      }
      SameCells(Snapshot(worldBuffer), next, numRows, numCols);
      var temp := world;
      world := worldBuffer;
      worldBuffer := temp;
    }
  }
}
