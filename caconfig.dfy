/** The run configuration of capyle/ca/caconfig.py: the fields a CA
    description fills in, the defaults for the ones it leaves unset, and
    the rules for resizing the grid. */
module CAConfig {
  import opened Common
  import opened Utils
  import Nh = Neighbourhood

  /** The `wrap` field as the grids read it: a bool, a number (the fixed
      border state), or any other Python object, of which the 1-D grid
      only uses the truthiness. */
  datatype Wrap = WrapFlag(flag: bool) | WrapValue(value: int) | WrapOther(truthy: bool)

  /** The configuration's fields as one value. */
  datatype ConfigState = ConfigState(
    dimensions: int,
    states: Option<seq<int>>,
    gridDims: Option<(int, int)>,
    ruleNum: Option<int>,
    numGenerations: Option<int>,
    nhoodArr: Option<Nh.MaskInput>,
    initialGrid: Option<Matrix>,
    wrap: Wrap)

  const AllOnes2D: Nh.MaskInput :=
    Nh.FromArray(Nh.Mat(3, [[1, 1, 1], [1, 1, 1], [1, 1, 1]]))
  const AllOnes1D: Nh.MaskInput := Nh.FromArray(Nh.Vec([1, 1, 1]))
  const SelfOnly1D: Nh.MaskInput := Nh.FromList(Nh.Vec([0, 1, 0]))

  /** The grid size a configuration gets when it has none: 200 x 200 in
      2-D, and what the generation count needs in 1-D. */
  function DefaultDims(dimensions: int, gens: int): (d: (int, int))
    ensures dimensions == 2 ==> d == (200, 200)
    ensures dimensions != 2 ==> d == GensToDims(gens)
  {
    if dimensions == 2 then (200, 200) else GensToDims(gens)
  }

  /** The state an unset initial grid is filled with. */
  function FillState(states: Option<seq<int>>): int
    requires states.Some? ==> |states.value| > 0
  {
    if states.Some? then states.value[0] else 0
  }

  /** The default initial grid cannot be built: `states[0]` of an empty
      state list, or a negative grid size for `np.zeros`. */
  predicate InitialGridFails(s: ConfigState)
    requires s.gridDims.Some?
  {
    s.initialGrid.None? &&
    ((s.states.Some? && |s.states.value| == 0) || s.gridDims.value.0 < 0 || s.gridDims.value.1 < 0)
  }

  /** The first three steps of fill_in_defaults: rule number, generation
      count and grid size. */
  function DefaultSizes(s: ConfigState): (r: ConfigState)
    ensures r.gridDims.Some? && r.numGenerations.Some?
  {
    var s1 := s.(ruleNum := if s.ruleNum.None? then Some(0) else s.ruleNum,
                 numGenerations := if s.numGenerations.None? then Some(100) else s.numGenerations);
    if s1.gridDims.None? then s1.(gridDims := Some(DefaultDims(s.dimensions, s1.numGenerations.value))) else s1
  }

  /** `np.zeros(grid_dims)` filled with the first state, or with 0. */
  function DefaultGrid(s: ConfigState): Matrix
    requires s.gridDims.Some? && !InitialGridFails(s) && s.initialGrid.None?
  {
    Filled(s.gridDims.value.0, s.gridDims.value.1, FillState(s.states))
  }

  /** The fields after fill_in_defaults, including the fields it has
      already set when building the initial grid raises. */
  function Defaults(s: ConfigState): (r: ConfigState)
    ensures r.dimensions == s.dimensions && r.states == s.states && r.wrap == s.wrap
    ensures r.ruleNum.Some? && r.numGenerations.Some? && r.gridDims.Some?
  {
    var s2 := DefaultSizes(s);
    if InitialGridFails(s2) then s2
    else
      var s3 := if s2.initialGrid.None? then s2.(initialGrid := Some(DefaultGrid(s2))) else s2;
      if s3.nhoodArr.None? then s3.(nhoodArr := Some(if s.dimensions == 2 then AllOnes2D else AllOnes1D)) else s3
  }

  predicate DefaultsFail(s: ConfigState) {
    var s2 := Defaults(s);
    InitialGridFails(s2)
  }

  /** Fields that were set keep their values; unset ones get the
      documented defaults. */
  lemma DefaultsKeepSetFields(s: ConfigState)
    ensures var r := Defaults(s);
      (s.ruleNum.Some? ==> r.ruleNum == s.ruleNum) &&
      (s.ruleNum.None? ==> r.ruleNum == Some(0)) &&
      (s.numGenerations.Some? ==> r.numGenerations == s.numGenerations) &&
      (s.numGenerations.None? ==> r.numGenerations == Some(100)) &&
      (s.gridDims.Some? ==> r.gridDims == s.gridDims) &&
      (s.gridDims.None? ==> r.gridDims == Some(DefaultDims(s.dimensions, r.numGenerations.value))) &&
      (s.initialGrid.Some? ==> r.initialGrid == s.initialGrid) &&
      (s.nhoodArr.Some? ==> r.nhoodArr == s.nhoodArr)
  {
  }

  /** When it succeeds, every field is set, an unset initial grid is a
      grid of the configured size filled with the first state (0 without
      states), and an unset mask is all ones of the configured rank. */
  lemma DefaultsComplete(s: ConfigState)
    requires !DefaultsFail(s)
    ensures var r := Defaults(s);
      r.initialGrid.Some? && r.nhoodArr.Some? &&
      (s.initialGrid.None? ==>
        r.gridDims.value.0 >= 0 && r.gridDims.value.1 >= 0 &&
        r.initialGrid.value == Filled(r.gridDims.value.0, r.gridDims.value.1, FillState(s.states)) &&
        IsMatrix(r.initialGrid.value, r.gridDims.value.0, r.gridDims.value.1)) &&
      (s.nhoodArr.None? ==> r.nhoodArr == Some(if s.dimensions == 2 then AllOnes2D else AllOnes1D))
  {
  }

  /** fill_in_defaults is idempotent: a second call changes nothing. */
  lemma DefaultsIdempotent(s: ConfigState)
    requires !DefaultsFail(s)
    ensures !DefaultsFail(Defaults(s))
    ensures Defaults(Defaults(s)) == Defaults(s)
  {
  }

  /** The axis rule of set_grid_dims: an axis of 2 or less becomes 3. */
  function ClampAxis(n: int): (r: int)
    ensures r >= 3
    ensures n > 2 ==> r == n
    ensures n <= 2 ==> r == 3
  {
    if n > 2 then n else 3
  }

  class Config {
    var dimensions: int
    var states: Option<seq<int>>
    var gridDims: Option<(int, int)>
    var ruleNum: Option<int>
    var numGenerations: Option<int>
    var nhoodArr: Option<Nh.MaskInput>
    var initialGrid: Option<Matrix>
    var wrap: Wrap

    function State(): ConfigState
      reads this
    {
      ConfigState(dimensions, states, gridDims, ruleNum, numGenerations, nhoodArr, initialGrid, wrap)
    }

    /** Every mask held is a well-formed array and the initial grid is
        rectangular, as numpy arrays are. */
    ghost predicate Valid()
      reads this
    {
      (nhoodArr.Some? ==> Nh.ValidInput(nhoodArr.value)) &&
      (initialGrid.Some? ==> Rect(initialGrid.value))
    }

    /** CAConfig.__init__: the dimensions come from the description file's
        metadata; everything else is unset and wrapping is on. */
    constructor(dimensions: int)
      ensures Valid()
      ensures State() == ConfigState(dimensions, None, None, None, None, None, None, WrapFlag(true))
    {
      this.dimensions := dimensions;
      states := None;
      gridDims := None;
      ruleNum := None;
      numGenerations := None;
      nhoodArr := None;
      initialGrid := None;
      wrap := WrapFlag(true);
    }

    /** The rule-number, generation-count and grid-size steps of
        fill_in_defaults. */
    method FillInSizes()
      requires Valid()
      modifies this
      ensures Valid()
      ensures State() == DefaultSizes(old(State()))
    {
      if ruleNum.None? {
        ruleNum := Some(0);
      }
      if numGenerations.None? {
        numGenerations := Some(100);
      }
      if gridDims.None? {
        gridDims := Some(DefaultDims(dimensions, numGenerations.value));
      }
    }

    /** fill_in_defaults. */
    method FillInDefaults() returns (ok: bool)
      requires Valid()
      modifies this
      ensures Valid()
      ensures ok == !DefaultsFail(old(State()))
      ensures State() == Defaults(old(State()))
    {
      FillInSizes();
      ghost var s2 := State();
      if initialGrid.None? {
        if (states.Some? && |states.value| == 0) || gridDims.value.0 < 0 || gridDims.value.1 < 0 {
          return false;
        }
        initialGrid := Some(DefaultGrid(State()));
      }
      assert State() == if s2.initialGrid.None? then s2.(initialGrid := Some(DefaultGrid(s2))) else s2;
      if nhoodArr.None? {
        nhoodArr := Some(if dimensions == 2 then AllOnes2D else AllOnes1D);
      }
      ok := true;
    }

    /** neighbourhood(): an unset mask becomes the list [0, 1, 0] (and is
        stored) before the mask is normalised for the dimensions. */
    method Neighbourhood() returns (r: Result<Nh.NdArray>)
      requires Valid()
      modifies this
      ensures Valid()
      ensures old(nhoodArr).None? ==> nhoodArr == Some(SelfOnly1D)
      ensures old(nhoodArr).Some? ==> nhoodArr == old(nhoodArr)
      ensures State() == old(State()).(nhoodArr := nhoodArr)
      ensures r == Nh.New(nhoodArr.value, dimensions)
    {
      if nhoodArr.None? {
        nhoodArr := Some(SelfOnly1D);
      }
      r := Nh.New(nhoodArr.value, dimensions);
    }

    /** set_grid_dims: explicit dimensions have each axis of 2 or less
        raised to 3; otherwise the generation count (at least 1) is stored
        and determines the 1-D size. An existing initial grid is rescaled
        (cells outside the old grid are uninitialised); a missing one stays
        missing, because the zeros are assigned to a misspelt attribute. */
    method SetGridDims(dims: Option<(int, int)>, gens: Option<int>) returns (ok: bool)
      requires Valid()
      modifies this
      ensures Valid()
      ensures ok == (dims.Some? || gens.Some?)
      ensures !ok ==> State() == old(State())
      ensures dims.Some? ==>
        gridDims == Some((ClampAxis(dims.value.0), ClampAxis(dims.value.1))) && numGenerations == old(numGenerations)
      ensures dims.None? && gens.Some? ==>
        numGenerations == Some(VerifyGens(gens.value)) && gridDims == Some(GensToDims(VerifyGens(gens.value)))
      ensures ok && old(initialGrid).None? ==> initialGrid.None?
      ensures ok && old(initialGrid).Some? ==>
        initialGrid.Some? && IsMatrix(initialGrid.value, gridDims.value.0, gridDims.value.1) &&
        forall i, j ::
          (0 <= i < Min(|old(initialGrid).value|, gridDims.value.0) &&
           0 <= j < Min(Dims(old(initialGrid).value).1, gridDims.value.1)) ==>
          initialGrid.value[i][j] == old(initialGrid).value[i][j]
      ensures dimensions == old(dimensions) && states == old(states) && ruleNum == old(ruleNum)
      ensures nhoodArr == old(nhoodArr) && wrap == old(wrap)
    {
      if dims.Some? {
        gridDims := Some((ClampAxis(dims.value.0), ClampAxis(dims.value.1)));
      } else if gens.Some? {
        var g := VerifyGens(gens.value);
        numGenerations := Some(g);
        gridDims := Some(GensToDims(g));
      } else {
        return false;
      }
      if initialGrid.Some? {
        var m := initialGrid.value;
        var (rows, cols) := Dims(m);
        var a := FromMatrix(m, rows, cols);
        var scaled := ScaleArray(a, gridDims.value.0, gridDims.value.1);
        initialGrid := Some(Snapshot(scaled));
      }
      ok := true;
    }

    /** set_initial_grid: a one-row grid is written into row 0 of the
        existing initial grid (numpy broadcasts a single value along the
        row); any other grid replaces the initial grid. */
    method SetInitialGrid(grid: Matrix) returns (r: Result<Matrix>)
      requires Valid() && Rect(grid)
      modifies this
      ensures Valid()
      ensures r.Ok? ==> initialGrid == Some(r.value)
      ensures r.Err? ==> State() == old(State())
      ensures |grid| != 1 ==> r == Ok(grid)
      ensures |grid| == 1 && old(initialGrid).None? ==> r == Err(MissingValue)
      ensures |grid| == 1 && old(initialGrid).Some? && |old(initialGrid).value| > 0 ==>
        var m := old(initialGrid).value;
        (|grid[0]| == |m[0]| ==> r == Ok(m[0 := grid[0]])) &&
        (|grid[0]| == 1 && |m[0]| != 1 ==> r == Ok(m[0 := seq(|m[0]|, _ => grid[0][0])])) &&
        (|grid[0]| != 1 && |grid[0]| != |m[0]| ==> r == Err(ShapeMismatch))
      ensures State() == old(State()).(initialGrid := initialGrid)
    {
      if |grid| == 1 {
        if initialGrid.None? {
          return Err(MissingValue);
        }
        var m := initialGrid.value;
        if |m| == 0 {
          return Err(IndexOutOfRange);
        }
        var row: seq<int>;
        if |grid[0]| == |m[0]| {
          row := grid[0];
        } else if |grid[0]| == 1 {
          row := seq(|m[0]|, _ => grid[0][0]);
        } else {
          return Err(ShapeMismatch);
        }
        initialGrid := Some(m[0 := row]);
      } else {
        initialGrid := Some(grid);
      }
      r := Ok(initialGrid.value);
    }
  }

  /** `np.array` of a rectangular grid. */
  method FromMatrix(m: Matrix, rows: nat, cols: nat) returns (a: array2<int>)
    requires IsMatrix(m, rows, cols)
    ensures fresh(a)
    ensures a.Length0 == rows && a.Length1 == cols
    ensures Snapshot(a) == m
  {
    a := new int[rows, cols];
    for i := 0 to rows
      invariant forall i', j :: 0 <= i' < i && 0 <= j < cols ==> a[i', j] == m[i'][j]
    {
      for j := 0 to cols
        invariant forall i', j' :: 0 <= i' < i && 0 <= j' < cols ==> a[i', j'] == m[i'][j']
        invariant forall j' :: 0 <= j' < j ==> a[i, j'] == m[i][j']
      {
        a[i, j] := m[i][j];
      }
    }
    MatrixEq(Snapshot(a), m, rows, cols);
  }
}
