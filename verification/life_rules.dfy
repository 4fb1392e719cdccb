/**
  The rules of this Life variant, stated on grid values: neighbour counting
  with the border forced to zero, the survival band [2,4], birth on exactly
  three, the random seeding rule, the toggle performed by the wipe button and
  the single-cell paint write.
 */
module LifeRules {
  import opened Grids

  /** The eight neighbour offsets (row, col) in the engine's visiting order: N, E, S, W, NW, NE, SE, SW. */
  const Directions: seq<(int, int)> :=
    [(-1, 0), (0, 1), (1, 0), (0, -1), (-1, -1), (-1, 1), (1, 1), (1, -1)]

  /** The positions adjacent to a cell, diagonals included, as a set. */
  ghost const NeighbourOffsets: set<(int, int)> :=
    set dr: int, dc: int | -1 <= dr <= 1 && -1 <= dc <= 1 && (dr, dc) != (0, 0) :: (dr, dc)

  /** Probability threshold of the random seeding: a cell is seeded alive when its draw is below it. */
  const Density: real := 0.1

  /** No offset is listed twice. */
  predicate NoDuplicates(dirs: seq<(int, int)>)
  {
    forall i, j :: 0 <= i < j < |dirs| ==> dirs[i] != dirs[j]
  }

  /** The offsets listed in `dirs`, as a set. */
  ghost function Elements(dirs: seq<(int, int)>): (s: set<(int, int)>)
  {
    set i | 0 <= i < |dirs| :: dirs[i]
  }

  /**
    The engine's border guard. Like the JavaScript `getLivingNeighbors`, it
    accepts arbitrary integers: any position not strictly inside the grid
    counts as border.
   */
  predicate OnBorder(rows: int, cols: int, r: int, c: int)
  {
    r <= 0 || c <= 0 || r >= rows - 1 || c >= cols - 1
  }

  /** Number of the first `k` offsets of `Directions` whose cell around interior (r, c) holds exactly 1. */
  function CountFirst(g: Grid, rows: nat, cols: nat, r: int, c: int, k: nat): (n: nat)
    requires IsRect(g, rows, cols) && !OnBorder(rows, cols, r, c) && k <= |Directions|
    ensures n <= k
  {
    if k == 0 then 0
    else
      var (dr, dc) := Directions[k - 1];
      CountFirst(g, rows, cols, r, c, k - 1) + (if g[r + dr][c + dc] == 1 then 1 else 0)
  }

  /**
    The neighbour count of (r, c): zero on and outside the border, otherwise
    the number of the eight adjacent cells that hold exactly 1.
   */
  function LivingNeighbors(g: Grid, rows: nat, cols: nat, r: int, c: int): (n: nat)
    requires IsRect(g, rows, cols)
    ensures n <= 8
    ensures OnBorder(rows, cols, r, c) ==> n == 0
  {
    if OnBorder(rows, cols, r, c) then 0 else CountFirst(g, rows, cols, r, c, |Directions|)
  }

  /** The next state of one cell whose current value is `cell` and whose neighbour count is `n`. */
  function NextCell(cell: int, n: int): (v: int)
    ensures v == 0 || v == 1
    ensures cell == 1 ==> (v == 1 <==> 2 <= n <= 4)
    ensures cell != 1 ==> (v == 1 <==> n == 3)
  {
    if cell == 1 then
      (if n < 2 || n > 4 then 0 else 1)
    else
      (if n == 3 then 1 else 0)
  }

  /** Classic Conway rule B3/S23, as a reference to compare against. */
  function ConwayCell(cell: int, n: int): (v: int)
    ensures v == 0 || v == 1
  {
    if cell == 1 then (if n == 2 || n == 3 then 1 else 0) else (if n == 3 then 1 else 0)
  }

  /** The next state of cell (r, c) of `g`. */
  function NextAt(g: Grid, rows: nat, cols: nat, r: nat, c: nat): (v: int)
    requires IsRect(g, rows, cols) && r < rows && c < cols
    ensures v == 0 || v == 1
  {
    NextCell(g[r][c], LivingNeighbors(g, rows, cols, r, c))
  }

  /** The next generation, every cell computed from `g` alone. */
  function Next(g: Grid, rows: nat, cols: nat): (h: Grid)
    requires IsRect(g, rows, cols)
    ensures IsRect(h, rows, cols)
  {
    seq(rows, r requires 0 <= r < rows =>
      seq(cols, c requires 0 <= c < cols => NextAt(g, rows, cols, r, c)))
  }

  /** The grid seeded from one draw per cell: alive exactly where the draw is below `Density`. */
  function Seed(draws: seq<seq<real>>, rows: nat, cols: nat): (g: Grid)
    requires IsRect(draws, rows, cols)
    ensures IsRect(g, rows, cols) && IsBinary(g)
    ensures forall r, c :: 0 <= r < rows && 0 <= c < cols ==> (g[r][c] == 1 <==> draws[r][c] < Density)
  {
    seq(rows, r requires 0 <= r < rows => seq(cols, c requires 0 <= c < cols => if draws[r][c] < Density then 1 else 0))
  }

  /** The wipe: a cell holding exactly 1 becomes 0, every other cell becomes 1. */
  function Toggle(g: Grid): (h: Grid)
    ensures |h| == |g| && forall r :: 0 <= r < |g| ==> |h[r]| == |g[r]|
    ensures IsBinary(h)
    ensures forall r, c :: 0 <= r < |g| && 0 <= c < |g[r]| ==> (h[r][c] == 0 <==> g[r][c] == 1)
  {
    seq(|g|, r requires 0 <= r < |g| => seq(|g[r]|, c requires 0 <= c < |g[r]| => if g[r][c] == 1 then 0 else 1))
  }

  /** The paint write: cell (r, c) set to 1. */
  function Paint(g: Grid, rows: nat, cols: nat, r: nat, c: nat): (h: Grid)
    requires IsRect(g, rows, cols) && r < rows && c < cols
    ensures IsRect(h, rows, cols)
    ensures h[r][c] == 1
    ensures forall i, j :: 0 <= i < rows && 0 <= j < cols && (i, j) != (r, c) ==> h[i][j] == g[i][j]
  {
    g[r := g[r][c := 1]]
  }

  // ---------------------------------------------------------------------------
  // Neighbour counting

  /** The offsets of `offs` whose cell around interior (r, c) holds exactly 1. */
  ghost function AliveAround(g: Grid, rows: nat, cols: nat, r: int, c: int, offs: set<(int, int)>): (live: set<(int, int)>)
    requires IsRect(g, rows, cols) && !OnBorder(rows, cols, r, c)
    ensures live <= offs
  {
    set d | d in offs && -1 <= d.0 <= 1 && -1 <= d.1 <= 1 && g[r + d.0][c + d.1] == 1
  }

  /** Each further offset of `Directions` adds exactly itself to the offsets listed so far, and was not among them. */
  lemma ElementsStep(k: nat)
    requires 0 < k <= |Directions|
    ensures Elements(Directions[..k]) == Elements(Directions[..k - 1]) + {Directions[k - 1]}
    ensures Directions[k - 1] !in Elements(Directions[..k - 1])
  {
    var pre, cur, last := Directions[..k - 1], Directions[..k], Directions[k - 1];
    assert cur == pre + [last];
    forall d | d in Elements(cur) ensures d in Elements(pre) + {last} {
      var i :| 0 <= i < |cur| && cur[i] == d;
      if i < k - 1 { assert pre[i] == d; }
    }
    forall d | d in Elements(pre) + {last} ensures d in Elements(cur) {
      if d == last {
        assert cur[k - 1] == d;
      } else {
        var i :| 0 <= i < |pre| && pre[i] == d;
        assert cur[i] == d;
      }
    }
    forall i | 0 <= i < k - 1 ensures pre[i] != last {
      assert pre[i] == Directions[i];
    }
  }

  /** Adding one unit offset to a set adds it to the live offsets exactly when its cell holds 1. */
  lemma AliveAroundAdd(g: Grid, rows: nat, cols: nat, r: int, c: int, offs: set<(int, int)>, d: (int, int))
    requires IsRect(g, rows, cols) && !OnBorder(rows, cols, r, c)
    requires -1 <= d.0 <= 1 && -1 <= d.1 <= 1
    ensures AliveAround(g, rows, cols, r, c, offs + {d}) ==
      AliveAround(g, rows, cols, r, c, offs) + (if g[r + d.0][c + d.1] == 1 then {d} else {})
  {
  }

  /** Counting along the first `k` offsets is the size of the set of live offsets among them. */
  lemma {:induction false} CountIsCardinality(g: Grid, rows: nat, cols: nat, r: int, c: int, k: nat)
    requires IsRect(g, rows, cols) && !OnBorder(rows, cols, r, c) && k <= |Directions|
    ensures CountFirst(g, rows, cols, r, c, k) == |AliveAround(g, rows, cols, r, c, Elements(Directions[..k]))|
  {
    if k == 0 {
      assert AliveAround(g, rows, cols, r, c, Elements(Directions[..k])) == {};
    } else {
      CountIsCardinality(g, rows, cols, r, c, k - 1);
      ElementsStep(k);
      var pre, last := Elements(Directions[..k - 1]), Directions[k - 1];
      var before := AliveAround(g, rows, cols, r, c, pre);
      AliveAroundAdd(g, rows, cols, r, c, pre, last);
      assert last !in before;
      if g[r + last.0][c + last.1] == 1 {
        assert |before + {last}| == |before| + 1;
      } else {
        assert before + {} == before;
      }
    }
  }

  /** The visiting order lists every adjacent position exactly once. */
  lemma DirectionsEnumerateNeighbours()
    ensures NoDuplicates(Directions)
    ensures Elements(Directions) == NeighbourOffsets
  {
    forall d | d in NeighbourOffsets ensures d in Elements(Directions) {
      var dr, dc :| -1 <= dr <= 1 && -1 <= dc <= 1 && (dr, dc) != (0, 0) && d == (dr, dc);
      if dr == -1 && dc == 0 { assert Directions[0] == d; }
      else if dr == 0 && dc == 1 { assert Directions[1] == d; }
      else if dr == 1 && dc == 0 { assert Directions[2] == d; }
      else if dr == 0 && dc == -1 { assert Directions[3] == d; }
      else if dr == -1 && dc == -1 { assert Directions[4] == d; }
      else if dr == -1 && dc == 1 { assert Directions[5] == d; }
      else if dr == 1 && dc == 1 { assert Directions[6] == d; }
      else { assert Directions[7] == d; }
    }
    forall d | d in Elements(Directions) ensures d in NeighbourOffsets {
      var i :| 0 <= i < |Directions| && Directions[i] == d;
      assert -1 <= d.0 <= 1 && -1 <= d.1 <= 1 && (d.0, d.1) != (0, 0);
    }
  }

  /** At an interior cell the count is the number of adjacent positions holding exactly 1. */
  lemma LivingNeighborsIsAdjacentLiveCount(g: Grid, rows: nat, cols: nat, r: int, c: int)
    requires IsRect(g, rows, cols) && !OnBorder(rows, cols, r, c)
    ensures LivingNeighbors(g, rows, cols, r, c) == |AliveAround(g, rows, cols, r, c, NeighbourOffsets)|
  {
    DirectionsEnumerateNeighbours();
    CountIsCardinality(g, rows, cols, r, c, |Directions|);
    assert Directions[..|Directions|] == Directions;
  }

  /** 1 for a cell holding exactly 1, else 0. */
  function Alive(v: int): (a: nat)
    ensures a <= 1 && (a == 1 <==> v == 1)
  {
    if v == 1 then 1 else 0
  }

  /** At an interior cell the count is the sum over the eight adjacent cells, written out. */
  lemma NeighbourSum(g: Grid, rows: nat, cols: nat, r: int, c: int)
    requires IsRect(g, rows, cols) && !OnBorder(rows, cols, r, c)
    ensures LivingNeighbors(g, rows, cols, r, c) ==
      Alive(g[r - 1][c - 1]) + Alive(g[r - 1][c]) + Alive(g[r - 1][c + 1]) +
      Alive(g[r][c - 1]) + Alive(g[r][c + 1]) +
      Alive(g[r + 1][c - 1]) + Alive(g[r + 1][c]) + Alive(g[r + 1][c + 1])
  {
    assert CountFirst(g, rows, cols, r, c, 1) == Alive(g[r - 1][c]);
    assert CountFirst(g, rows, cols, r, c, 2) == CountFirst(g, rows, cols, r, c, 1) + Alive(g[r][c + 1]);
    assert CountFirst(g, rows, cols, r, c, 3) == CountFirst(g, rows, cols, r, c, 2) + Alive(g[r + 1][c]);
    assert CountFirst(g, rows, cols, r, c, 4) == CountFirst(g, rows, cols, r, c, 3) + Alive(g[r][c - 1]);
    assert CountFirst(g, rows, cols, r, c, 5) == CountFirst(g, rows, cols, r, c, 4) + Alive(g[r - 1][c - 1]);
    assert CountFirst(g, rows, cols, r, c, 6) == CountFirst(g, rows, cols, r, c, 5) + Alive(g[r - 1][c + 1]);
    assert CountFirst(g, rows, cols, r, c, 7) == CountFirst(g, rows, cols, r, c, 6) + Alive(g[r + 1][c + 1]);
    assert CountFirst(g, rows, cols, r, c, 8) == CountFirst(g, rows, cols, r, c, 7) + Alive(g[r + 1][c - 1]);
  }

  /** Around a cell whose every neighbour holds `v`, the count is all or nothing. */
  lemma {:induction false} CountUniform(g: Grid, rows: nat, cols: nat, r: int, c: int, k: nat, v: int)
    requires IsRect(g, rows, cols) && !OnBorder(rows, cols, r, c) && k <= |Directions|
    requires forall i, j :: 0 <= i < rows && 0 <= j < cols ==> g[i][j] == v
    ensures CountFirst(g, rows, cols, r, c, k) == if v == 1 then k else 0
  {
    if k != 0 {
      CountUniform(g, rows, cols, r, c, k - 1, v);
    }
  }

  // ---------------------------------------------------------------------------
  // The transition rule

  /**
    The transition rule at one cell of the next generation: the value is 0 or 1,
    a live cell survives exactly with 2 to 4 neighbours, any other cell is born
    exactly with 3, and a border cell is always dead.
   */
  lemma NextCellRule(g: Grid, rows: nat, cols: nat, r: nat, c: nat)
    requires IsRect(g, rows, cols) && r < rows && c < cols
    ensures Next(g, rows, cols)[r][c] == 0 || Next(g, rows, cols)[r][c] == 1
    ensures g[r][c] == 1 ==> (Next(g, rows, cols)[r][c] == 1 <==> 2 <= LivingNeighbors(g, rows, cols, r, c) <= 4)
    ensures g[r][c] != 1 ==> (Next(g, rows, cols)[r][c] == 1 <==> LivingNeighbors(g, rows, cols, r, c) == 3)
    ensures OnBorder(rows, cols, r, c) ==> Next(g, rows, cols)[r][c] == 0
  {
  }

  /** Every generation after the first holds only 0 and 1, and its border is dead. */
  lemma NextIsBinaryWithDeadBorder(g: Grid, rows: nat, cols: nat)
    requires IsRect(g, rows, cols)
    ensures IsBinary(Next(g, rows, cols))
    ensures forall r, c :: 0 <= r < rows && 0 <= c < cols && OnBorder(rows, cols, r, c) ==> Next(g, rows, cols)[r][c] == 0
  {
  }

  /** The rule differs from classic Conway only for a live cell with exactly four neighbours. */
  lemma NextCellVersusConway(cell: int, n: int)
    ensures NextCell(cell, n) != ConwayCell(cell, n) <==> cell == 1 && n == 4
  {
  }

  /** A grid whose every cell is alive dies out entirely in one generation. */
  lemma FullGridDies(rows: nat, cols: nat)
    ensures Next(Filled(rows, cols, 1), rows, cols) == Filled(rows, cols, 0)
  {
    var g := Filled(rows, cols, 1);
    forall r, c | 0 <= r < rows && 0 <= c < cols
      ensures Next(g, rows, cols)[r][c] == 0
    {
      NextCellRule(g, rows, cols, r, c);
      if !OnBorder(rows, cols, r, c) {
        CountUniform(g, rows, cols, r, c, |Directions|, 1);
      }
    }
    SameCells(Next(g, rows, cols), Filled(rows, cols, 0), rows, cols);
  }

  /** An all-dead grid stays dead. */
  lemma EmptyGridStaysEmpty(rows: nat, cols: nat)
    ensures Next(Filled(rows, cols, 0), rows, cols) == Filled(rows, cols, 0)
  {
    var g := Filled(rows, cols, 0);
    forall r, c | 0 <= r < rows && 0 <= c < cols
      ensures Next(g, rows, cols)[r][c] == 0
    {
      NextCellRule(g, rows, cols, r, c);
      if !OnBorder(rows, cols, r, c) {
        CountUniform(g, rows, cols, r, c, |Directions|, 0);
      }
    }
    SameCells(Next(g, rows, cols), g, rows, cols);
  }

  /** A grid with at most two rows or two columns has no interior cell, so it dies in one generation. */
  lemma ThinGridDies(g: Grid, rows: nat, cols: nat)
    requires IsRect(g, rows, cols) && (rows <= 2 || cols <= 2)
    ensures Next(g, rows, cols) == Filled(rows, cols, 0)
  {
    NextIsBinaryWithDeadBorder(g, rows, cols);
    SameCells(Next(g, rows, cols), Filled(rows, cols, 0), rows, cols);
  }

  // ---------------------------------------------------------------------------
  // The wipe and the paint write

  /** On a 0/1 grid the toggle is the complement 1 - cell. */
  lemma ToggleComplements(g: Grid, r: nat, c: nat)
    requires IsBinary(g) && r < |g| && c < |g[r]|
    ensures Toggle(g)[r][c] == 1 - g[r][c]
  {
  }

  /** On a 0/1 grid, wiping twice restores the grid. */
  lemma ToggleTwice(g: Grid)
    requires IsBinary(g)
    ensures Toggle(Toggle(g)) == g
  {
    var h := Toggle(Toggle(g));
    forall r | 0 <= r < |g|
      ensures h[r] == g[r]
    {
      assert |h[r]| == |g[r]|;
      forall c | 0 <= c < |g[r]| ensures h[r][c] == g[r][c] {
        ToggleComplements(g, r, c);
        ToggleComplements(Toggle(g), r, c);
      }
    }
  }

  /** Off 0/1 grids wiping twice is not the identity: a 2 becomes 1, then 0. */
  lemma ToggleTwiceLosesOtherValues()
    ensures Toggle(Toggle([[2]])) == [[0]] != [[2]]
  {
    var t := Toggle([[2]]);
    assert t[0] == [1];
    assert t == [[1]];
    var u := Toggle(t);
    assert u[0] == [0];
  }

  /** Wiping an empty world fills it, and the next generation is empty again. */
  lemma WipeEmptyThenStepIsEmpty(rows: nat, cols: nat)
    ensures Toggle(Filled(rows, cols, 0)) == Filled(rows, cols, 1)
    ensures Next(Toggle(Filled(rows, cols, 0)), rows, cols) == Filled(rows, cols, 0)
  {
    SameCells(Toggle(Filled(rows, cols, 0)), Filled(rows, cols, 1), rows, cols);
    FullGridDies(rows, cols);
  }

  /** Painting a cell twice is the same as painting it once. */
  lemma PaintIdempotent(g: Grid, rows: nat, cols: nat, r: nat, c: nat)
    requires IsRect(g, rows, cols) && r < rows && c < cols
    ensures Paint(Paint(g, rows, cols, r, c), rows, cols, r, c) == Paint(g, rows, cols, r, c)
  {
    var once := Paint(g, rows, cols, r, c);
    assert once[r][c := 1] == once[r];
  }

  /** Painting keeps a 0/1 grid 0/1, so every world the page can reach holds only 0 and 1. */
  lemma PaintKeepsBinary(g: Grid, rows: nat, cols: nat, r: nat, c: nat)
    requires IsRect(g, rows, cols) && r < rows && c < cols && IsBinary(g)
    ensures IsBinary(Paint(g, rows, cols, r, c))
  {
    var h := Paint(g, rows, cols, r, c);
    forall i, j | 0 <= i < |h| && 0 <= j < |h[i]| ensures h[i][j] == 0 || h[i][j] == 1 {
      if (i, j) != (r, c) { assert h[i][j] == g[i][j]; }
    }
  }
}
