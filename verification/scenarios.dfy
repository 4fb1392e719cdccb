/** Worked generations of small worlds, proved from the rules. */
module Scenarios {
  import opened Grids
  import opened LifeRules
  import opened World
  import opened Controls

  /** A 5 x 5 world with three live cells in a row across the middle. */
  const HorizontalBlinker: Grid :=
    [[0, 0, 0, 0, 0],
     [0, 0, 0, 0, 0],
     [0, 1, 1, 1, 0],
     [0, 0, 0, 0, 0],
     [0, 0, 0, 0, 0]]

  /** The same three cells turned upright about the centre. */
  const VerticalBlinker: Grid :=
    [[0, 0, 0, 0, 0],
     [0, 0, 1, 0, 0],
     [0, 0, 1, 0, 0],
     [0, 0, 1, 0, 0],
     [0, 0, 0, 0, 0]]

  /** The horizontal blinker turns upright in one generation. */
  lemma BlinkerTurns()
    ensures Next(HorizontalBlinker, 5, 5) == VerticalBlinker
  {
    var g := HorizontalBlinker;
    forall r, c | 0 <= r < 5 && 0 <= c < 5
      ensures Next(g, 5, 5)[r][c] == VerticalBlinker[r][c]
    {
      NextCellRule(g, 5, 5, r, c);
      if !OnBorder(5, 5, r, c) {
        NeighbourSum(g, 5, 5, r, c);
      }
    }
    SameCells(Next(g, 5, 5), VerticalBlinker, 5, 5);
  }

  /** The upright blinker lies down again, so the pattern has period two. */
  lemma BlinkerReturns()
    ensures Next(VerticalBlinker, 5, 5) == HorizontalBlinker
  {
    var g := VerticalBlinker;
    forall r, c | 0 <= r < 5 && 0 <= c < 5
      ensures Next(g, 5, 5)[r][c] == HorizontalBlinker[r][c]
    {
      NextCellRule(g, 5, 5, r, c);
      if !OnBorder(5, 5, r, c) {
        NeighbourSum(g, 5, 5, r, c);
      }
    }
    SameCells(Next(g, 5, 5), HorizontalBlinker, 5, 5);
  }

  /** Painting the three middle cells of an empty 5 x 5 world gives the horizontal blinker. */
  lemma PaintBlinker()
    ensures Paint(Paint(Paint(Filled(5, 5, 0), 5, 5, 2, 1), 5, 5, 2, 2), 5, 5, 2, 3) == HorizontalBlinker
  {
    var g := Paint(Paint(Paint(Filled(5, 5, 0), 5, 5, 2, 1), 5, 5, 2, 2), 5, 5, 2, 3);
    SameCells(g, HorizontalBlinker, 5, 5);
  }

  /**
    A page session on a 5 x 5 world: paint the middle row, run two
    generations, and read back the expected grids from the engine.
   */
  method BlinkerSession()
  {
    var lifeWorld := new LifeWorld(5, 5);
    FillCell(lifeWorld, 2, 1);
    FillCell(lifeWorld, 2, 2);
    FillCell(lifeWorld, 2, 3);
    PaintBlinker();
    var first, second := lifeWorld.world, lifeWorld.worldBuffer;
    lifeWorld.Step();
    BlinkerTurns();
    assert lifeWorld.Cells() == VerticalBlinker;
    assert lifeWorld.world == second && lifeWorld.worldBuffer == first;
    lifeWorld.Step();
    BlinkerReturns();
    assert lifeWorld.Cells() == HorizontalBlinker;
    assert lifeWorld.world == first && lifeWorld.worldBuffer == second;
  }
}
