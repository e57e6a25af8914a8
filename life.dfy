/** The birth and survival rule of test/testdescriptions/2dinvalid.py:
    Conway's game of life over the states 0 (dead) and 1 (live). */
module Life {
  import opened Common
  import Grid2D

  /** The next state of one cell from its state and its number of live
      neighbours: born when dead with exactly three live neighbours, kept
      alive when live with two or three, dead otherwise. */
  function LifeCell(v: int, live: int): (r: int)
    ensures r == 0 || r == 1
  {
    var birth := live == 3 && v == 0;
    var survive := (live == 2 || live == 3) && v == 1;
    if birth || survive then 1 else 0
  }

  /** The rule in Conway's terms: underpopulation and overcrowding kill,
      three neighbours give birth, and any state other than 0 or 1 is
      cleared. */
  lemma ConwayRule(v: int, live: int)
    ensures v == 0 ==> (LifeCell(v, live) == 1 <==> live == 3)
    ensures v == 1 && live < 2 ==> LifeCell(v, live) == 0
    ensures v == 1 && live > 3 ==> LifeCell(v, live) == 0
    ensures v == 1 && 2 <= live <= 3 ==> LifeCell(v, live) == 1
    ensures v != 0 && v != 1 ==> LifeCell(v, live) == 0
  {
  }

  /** `birth | survive`: the cells that are live in the next generation. */
  function Revives(g: Matrix, live: Matrix, rows: nat, cols: nat): (mask: seq<seq<bool>>)
    requires IsMatrix(g, rows, cols) && IsMatrix(live, rows, cols)
    ensures |mask| == rows && forall i :: 0 <= i < rows ==> |mask[i]| == cols
  {
    seq(rows, i requires 0 <= i < rows =>
      seq(cols, j requires 0 <= j < cols =>
        (live[i][j] == 3 && g[i][j] == 0) || ((live[i][j] == 2 || live[i][j] == 3) && g[i][j] == 1)))
  }

  /** The next generation, cell by cell. */
  function NextGeneration(g: Matrix, live: Matrix, rows: nat, cols: nat): (r: Matrix)
    requires IsMatrix(g, rows, cols) && IsMatrix(live, rows, cols)
    ensures IsMatrix(r, rows, cols)
  {
    seq(rows, i requires 0 <= i < rows =>
      seq(cols, j requires 0 <= j < cols => LifeCell(g[i][j], live[i][j])))
  }

  /** Fed the engine's counts for the states [0, 1], the rule sees at
      each cell the number of neighbour views that show a live cell. */
  lemma LiveNeighbourCount(g: Matrix, ns: seq<Matrix>, rows: nat, cols: nat, i: nat, j: nat)
    requires IsMatrix(g, rows, cols) && forall k :: 0 <= k < |ns| ==> IsMatrix(ns[k], rows, cols)
    requires i < rows && j < cols
    ensures |Grid2D.Counts2D(ns, [0, 1], rows, cols)| == 2
    ensures IsMatrix(Grid2D.Counts2D(ns, [0, 1], rows, cols)[1], rows, cols)
    ensures NextGeneration(g, Grid2D.Counts2D(ns, [0, 1], rows, cols)[1], rows, cols)[i][j]
         == LifeCell(g[i][j], |set k | 0 <= k < |ns| && ns[k][i][j] == 1|)
  {
    Grid2D.CountEqIsCardinality(ns, |ns|, rows, cols, i, j, 1);
  }

  /** transition_func: the counts unpack into dead and live neighbours
      (anything but two count arrays raises); the masks are taken from the
      grid as it was; the grid is cleared to 0 and set to 1 under the
      mask, and the same grid is returned. */
  method TransitionFunc(grid: array2<int>, neighbourCounts: seq<Matrix>) returns (r: Result<array2<int>>)
    requires forall k :: 0 <= k < |neighbourCounts| ==> IsMatrix(neighbourCounts[k], grid.Length0, grid.Length1)
    modifies grid
    ensures |neighbourCounts| != 2 ==> r == Err(UnpackFailed) && unchanged(grid)
    ensures |neighbourCounts| == 2 ==> r == Ok(grid)
    ensures |neighbourCounts| == 2 ==>
              Snapshot(grid) == NextGeneration(old(Snapshot(grid)), neighbourCounts[1], grid.Length0, grid.Length1)
  {
    if |neighbourCounts| != 2 {
      return Err(UnpackFailed);
    }
    var rows, cols := grid.Length0, grid.Length1;
    var live := neighbourCounts[1];
    var m := Snapshot(grid);
    var alive := Revives(m, live, rows, cols);
    Grid2D.Fill(grid, 0);
    SetWhere(grid, alive);
    forall i, j | 0 <= i < rows && 0 <= j < cols
      ensures Snapshot(grid)[i][j] == NextGeneration(m, live, rows, cols)[i][j]
    {
      assert Filled(rows, cols, 0)[i][j] == 0;
    }
    MatrixEq(Snapshot(grid), NextGeneration(m, live, rows, cols), rows, cols);
    r := Ok(grid);
  }

  /** `grid[mask] = 1`. */
  method SetWhere(grid: array2<int>, mask: seq<seq<bool>>)
    requires |mask| == grid.Length0 && forall i :: 0 <= i < |mask| ==> |mask[i]| == grid.Length1
    modifies grid
    ensures forall i, j :: 0 <= i < grid.Length0 && 0 <= j < grid.Length1 ==>
      grid[i, j] == if mask[i][j] then 1 else old(grid[i, j])
  {
    for i := 0 to grid.Length0
      invariant forall i', j :: 0 <= i' < grid.Length0 && 0 <= j < grid.Length1 ==>
        grid[i', j] == if i' < i && mask[i'][j] then 1 else old(grid[i', j])
    {
      SetRowWhere(grid, i, mask[i]);
    }
  }

  method SetRowWhere(grid: array2<int>, i: nat, row: seq<bool>)
    requires i < grid.Length0 && |row| == grid.Length1
    modifies grid
    ensures forall i', j :: 0 <= i' < grid.Length0 && 0 <= j < grid.Length1 ==>
      grid[i', j] == if i' == i && row[j] then 1 else old(grid[i', j])
  {
    for j := 0 to grid.Length1
      invariant forall i', j' :: 0 <= i' < grid.Length0 && 0 <= j' < grid.Length1 ==>
        grid[i', j'] == if i' == i && j' < j && row[j'] then 1 else old(grid[i', j'])
    {
      if row[j] {
        grid[i, j] := 1;
      }
    }
  }
}
