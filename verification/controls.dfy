/**
  The page's two direct writes into the running world: the wipe button, which
  toggles every cell of the current generation, and the paint write of a click
  or drag, which sets one cell alive.
 */
module Controls {
  import opened Grids
  import opened LifeRules
  import opened World

  /** Toggles every cell of the current generation in place: 1 becomes 0, anything else becomes 1. */
  method WipeSlime(lifeWorld: LifeWorld)
    requires lifeWorld.Valid()
    modifies lifeWorld.world
    ensures lifeWorld.Valid()
    ensures lifeWorld.Cells() == Toggle(old(lifeWorld.Cells()))
    ensures Snapshot(lifeWorld.worldBuffer) == old(Snapshot(lifeWorld.worldBuffer))
  {
    var rows, cols, world := lifeWorld.numRows, lifeWorld.numCols, lifeWorld.world;
    for row := 0 to rows
      invariant forall r, c :: 0 <= r < row && 0 <= c < cols ==>
        world[r, c] == if old(world[r, c]) == 1 then 0 else 1
      invariant forall r, c :: row <= r < rows && 0 <= c < cols ==> world[r, c] == old(world[r, c])
    {
      for col := 0 to cols
        invariant forall r, c :: 0 <= r < row && 0 <= c < cols ==>
          world[r, c] == if old(world[r, c]) == 1 then 0 else 1
        invariant forall c :: 0 <= c < col ==> world[row, c] == if old(world[row, c]) == 1 then 0 else 1
        invariant forall r, c :: row < r < rows && 0 <= c < cols ==> world[r, c] == old(world[r, c])
        invariant forall c :: col <= c < cols ==> world[row, c] == old(world[row, c])
      {
        world[row, col] := if world[row, col] == 1 then 0 else 1;
      }
    }
    SameCells(lifeWorld.Cells(), Toggle(old(lifeWorld.Cells())), rows, cols);
  }

  /**
    The paint write of a click at cell (row, col). The page computes the
    coordinates from the mouse position and writes without checking them, so
    they are required to lie inside the grid.
   */
  method FillCell(lifeWorld: LifeWorld, row: int, col: int)
    requires lifeWorld.Valid()
    requires 0 <= row < lifeWorld.numRows && 0 <= col < lifeWorld.numCols
    modifies lifeWorld.world
    ensures lifeWorld.Valid()
    ensures lifeWorld.Cells() == Paint(old(lifeWorld.Cells()), lifeWorld.numRows, lifeWorld.numCols, row, col)
    ensures Snapshot(lifeWorld.worldBuffer) == old(Snapshot(lifeWorld.worldBuffer))
  {
    lifeWorld.world[row, col] := 1;
    SameCells(lifeWorld.Cells(), Paint(old(lifeWorld.Cells()), lifeWorld.numRows, lifeWorld.numCols, row, col),
      lifeWorld.numRows, lifeWorld.numCols);
  }
}
