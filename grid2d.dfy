/** The 2-D engine of capyle/ca/grid2d.py. The visible R x C grid is the
    interior of an (R+2) x (C+2) buffer whose one-cell border is rewritten
    after every change, either as a torus or with a fixed state; each step
    gives the transition rule eight shifted, mask-weighted views of the
    buffer and the per-state neighbour counts. */
module Grid2D {
  import opened Common
  import opened Utils
  import Nh = Neighbourhood
  import CAConfig
  import GridShared

  // ---------------------------------------------------------------------
  // _gen_wrap_indicies

  /** `(fromrows, torows, fromcols, tocols)`, Python slice bounds that may
      be negative. */
  datatype Slice2 = Slice2(r0: int, r1: int, c0: int, c1: int)

  /** A slice resolved against an array shape: half-open, in range. */
  datatype Range = Range(r0: nat, r1: nat, c0: nat, c1: nat)

  /** _gen_wrap_indicies: the eight border blocks of the buffer (top,
      bottom, left, right, then the four corners) and, in the same order,
      the blocks of the visible grid they are copied from. */
  function GenWrapIndices(wrapRows: int, wrapCols: int, gridRows: int, gridCols: int, wrapSize: int): (r: (seq<Slice2>, seq<Slice2>))
    ensures |r.0| == 8 && |r.1| == 8
  {
    var w, h := wrapSize, wrapSize;
    ([Slice2(0, h, w, -w),                 // wrap-top
      Slice2(-h, wrapRows, w, -w),         // wrap-bottom
      Slice2(h, -h, 0, w),                 // wrap-left
      Slice2(h, -h, -w, wrapCols),         // wrap-right
      Slice2(0, h, 0, w),                  // wrap-topleft
      Slice2(0, h, -w, wrapCols),          // wrap-topright
      Slice2(-h, wrapRows, 0, w),          // wrap-bottomleft
      Slice2(-h, wrapRows, -w, wrapCols)], // wrap-bottomright
     [Slice2(-h, gridRows, 0, gridCols),   // grid-bottom
      Slice2(0, h, 0, gridCols),           // grid-top
      Slice2(0, gridRows, -w, gridCols),   // grid-right
      Slice2(0, gridRows, 0, w),           // grid-left
      Slice2(-h, gridRows, -w, gridCols),  // grid-bottomright
      Slice2(-h, gridRows, 0, w),          // grid-bottomleft
      Slice2(0, h, -w, gridCols),          // grid-topright
      Slice2(0, h, 0, w)])                 // grid-topleft
  }

  function Resolve(s: Slice2, rows: nat, cols: nat): (g: Range)
    ensures g.r1 <= rows && g.c1 <= cols
  {
    Range(PyBound(s.r0, rows), PyBound(s.r1, rows), PyBound(s.c0, cols), PyBound(s.c1, cols))
  }

  predicate InRange(g: Range, i: int, j: int) {
    g.r0 <= i < g.r1 && g.c0 <= j < g.c1
  }

  /** A cell of the (R+2) x (C+2) buffer that is not visible. */
  predicate IsBorder(i: int, j: int, rows: nat, cols: nat) {
    0 <= i < rows + 2 && 0 <= j < cols + 2 && (i == 0 || i == rows + 1 || j == 0 || j == cols + 1)
  }

  predicate IsInterior(i: int, j: int, rows: nat, cols: nat) {
    1 <= i <= rows && 1 <= j <= cols
  }

  /** The buffer row (or column) a torus border cell mirrors: the border
      before the first visible row shows the last, the border after the
      last shows the first; visible rows mirror themselves. */
  function Src(i: int, n: nat): int {
    if i == 0 then n else if i == n + 1 then 1 else i
  }

  /** Block k of the buffer border, resolved against the buffer. */
  function WrapBlock(k: nat, rows: nat, cols: nat): Range
    requires k < 8
  {
    Resolve(GenWrapIndices(rows + 2, cols + 2, rows, cols, 1).0[k], rows + 2, cols + 2)
  }

  /** Block k of the visible grid, resolved against the visible grid. */
  function GridBlock(k: nat, rows: nat, cols: nat): Range
    requires k < 8
  {
    Resolve(GenWrapIndices(rows + 2, cols + 2, rows, cols, 1).1[k], rows, cols)
  }

  /** Each pair of blocks has one shape, each border block lies on the
      border, and copying grid block k onto border block k puts on every
      border cell the visible cell the torus puts there. */
  lemma WrapBlockPairs(k: nat, rows: nat, cols: nat)
    requires k < 8 && rows >= 1 && cols >= 1
    ensures var w, g := WrapBlock(k, rows, cols), GridBlock(k, rows, cols);
      w.r0 <= w.r1 && w.c0 <= w.c1 &&
      w.r1 - w.r0 == g.r1 - g.r0 && w.c1 - w.c0 == g.c1 - g.c0 &&
      forall i, j :: InRange(w, i, j) ==>
        IsBorder(i, j, rows, cols) &&
        g.r0 + (i - w.r0) + 1 == Src(i, rows) && g.c0 + (j - w.c0) + 1 == Src(j, cols) &&
        IsInterior(Src(i, rows), Src(j, cols), rows, cols)
  {
  }

  /** Together the eight border blocks cover the whole border. */
  lemma WrapBlocksCover(rows: nat, cols: nat, i: int, j: int)
    requires rows >= 1 && cols >= 1 && IsBorder(i, j, rows, cols)
    ensures exists k :: 0 <= k < 8 && InRange(WrapBlock(k, rows, cols), i, j)
  {
    var k :=
      if i == 0 && j == 0 then 4
      else if i == 0 && j == cols + 1 then 5
      else if i == rows + 1 && j == 0 then 6
      else if i == rows + 1 && j == cols + 1 then 7
      else if i == 0 then 0
      else if i == rows + 1 then 1
      else if j == 0 then 2
      else 3;
    assert InRange(WrapBlock(k, rows, cols), i, j);
  }

  // ---------------------------------------------------------------------
  // refresh_wrap

  /** What the border holds: the opposite side of the grid, or one value. */
  datatype Border = Torus | Fixed(value: int)

  /** The wrap setting as refresh_wrap reads it: False means the fixed
      state -100, True the torus, a number that fixed state; anything else
      ends the program. */
  function Policy2D(w: CAConfig.Wrap): (r: Result<Border>)
    ensures w == CAConfig.WrapFlag(false) ==> r == Ok(Fixed(-100))
    ensures w == CAConfig.WrapFlag(true) ==> r == Ok(Torus)
    ensures w.WrapValue? ==> r == Ok(Fixed(w.value))
    ensures w.WrapOther? ==> r == Err(InvalidWrapPolicy)
  {
    match w
    case WrapFlag(b) => if b then Ok(Torus) else Ok(Fixed(-100))
    case WrapValue(v) => Ok(Fixed(v))
    case WrapOther(_) => Err(InvalidWrapPolicy)
  }

  /** The value border policy b puts at buffer cell (i, j) of m. */
  function BorderValue(m: Matrix, rows: nat, cols: nat, b: Border, i: int, j: int): int
    requires IsMatrix(m, rows + 2, cols + 2) && rows >= 1 && cols >= 1
    requires 0 <= i < rows + 2 && 0 <= j < cols + 2
  {
    match b
    case Torus => m[Src(i, rows)][Src(j, cols)]
    case Fixed(v) => v
  }

  /** The buffer after refresh_wrap: the interior as it was, every border
      cell as the policy says. */
  function Refreshed(m: Matrix, rows: nat, cols: nat, b: Border): (r: Matrix)
    requires IsMatrix(m, rows + 2, cols + 2) && rows >= 1 && cols >= 1
    ensures IsMatrix(r, rows + 2, cols + 2)
    ensures forall i, j :: 1 <= i <= rows && 1 <= j <= cols ==> r[i][j] == m[i][j]
    ensures b.Fixed? ==> forall j :: 0 <= j < cols + 2 ==> r[0][j] == b.value && r[rows + 1][j] == b.value
    ensures b.Fixed? ==> forall i :: 0 <= i < rows + 2 ==> r[i][0] == b.value && r[i][cols + 1] == b.value
  {
    seq(rows + 2, i requires 0 <= i < rows + 2 =>
      seq(cols + 2, j requires 0 <= j < cols + 2 =>
        if IsBorder(i, j, rows, cols) then BorderValue(m, rows, cols, b, i, j) else m[i][j]))
  }

  /** The visible grid of a buffer. */
  function Interior(m: Matrix, rows: nat, cols: nat): (g: Matrix)
    requires IsMatrix(m, rows + 2, cols + 2)
    ensures IsMatrix(g, rows, cols)
    ensures forall i, j :: 0 <= i < rows && 0 <= j < cols ==> g[i][j] == m[i + 1][j + 1]
  {
    seq(rows, i requires 0 <= i < rows => seq(cols, j requires 0 <= j < cols => m[i + 1][j + 1]))
  }

  /** The buffer with its visible grid replaced by g. */
  function WithInterior(m: Matrix, g: Matrix, rows: nat, cols: nat): (r: Matrix)
    requires IsMatrix(m, rows + 2, cols + 2) && IsMatrix(g, rows, cols)
    ensures IsMatrix(r, rows + 2, cols + 2)
    ensures Interior(r, rows, cols) == g
  {
    var r := seq(rows + 2, i requires 0 <= i < rows + 2 =>
      seq(cols + 2, j requires 0 <= j < cols + 2 =>
        if IsInterior(i, j, rows, cols) then g[i - 1][j - 1] else m[i][j]));
    MatrixEq(Interior(r, rows, cols), g, rows, cols);
    r
  }

  /** Refreshing never changes the visible grid, and refreshing again
      changes nothing (the border only depends on the interior). */
  lemma RefreshedKeepsInterior(m: Matrix, rows: nat, cols: nat, b: Border)
    requires IsMatrix(m, rows + 2, cols + 2) && rows >= 1 && cols >= 1
    ensures Interior(Refreshed(m, rows, cols, b), rows, cols) == Interior(m, rows, cols)
    ensures Refreshed(Refreshed(m, rows, cols, b), rows, cols, b) == Refreshed(m, rows, cols, b)
  {
    var r := Refreshed(m, rows, cols, b);
    MatrixEq(Interior(r, rows, cols), Interior(m, rows, cols), rows, cols);
    MatrixEq(Refreshed(r, rows, cols, b), r, rows + 2, cols + 2);
  }

  /** On a torus every buffer cell shows the visible cell whose row and
      column are its own taken modulo the grid size. */
  lemma TorusCell(m: Matrix, rows: nat, cols: nat, x: int, y: int)
    requires IsMatrix(m, rows + 2, cols + 2) && rows >= 1 && cols >= 1
    requires 0 <= x < rows + 2 && 0 <= y < cols + 2
    ensures Refreshed(m, rows, cols, Torus)[x][y] == Interior(m, rows, cols)[(x - 1) % rows][(y - 1) % cols]
  {
    SrcIsMod(x, rows);
    SrcIsMod(y, cols);
  }

  /** The mirrored index is the index, less one for the border, modulo n. */
  lemma SrcIsMod(x: int, n: nat)
    requires 0 <= x < n + 2 && n >= 1
    ensures Src(x, n) == (x - 1) % n + 1
  {
    if x == 0 {
      assert (x - 1) % n == n - 1 by { assert x - 1 == (-1) * n + (n - 1); }
    } else if x == n + 1 {
      assert (x - 1) % n == 0 by { assert x - 1 == 1 * n + 0; }
    } else {
      assert (x - 1) % n == x - 1;
    }
  }

  // ---------------------------------------------------------------------
  // get_neighbour_states and count_neighbours

  /** The buffer offsets of the eight views, in the order NW, N, NE, W,
      E, SW, S, SE. The centre (1, 1) is not among them. */
  const Offsets: seq<(nat, nat)> := [(0, 0), (0, 1), (0, 2), (1, 0), (1, 2), (2, 0), (2, 1), (2, 2)]

  /** The weight view k gets: the mask entry at its offset, or 1 when the
      mask is not applied. */
  function Weight(nhood: Matrix, k: nat, applyNeighbourhood: bool): int
    requires IsMatrix(nhood, 3, 3) && k < 8
  {
    if applyNeighbourhood then nhood[Offsets[k].0][Offsets[k].1] else 1
  }

  /** get_neighbour_states: view k at visible cell (i, j) is the weight
      times the buffer cell at (i, j) shifted by offset k. */
  function NeighbourStates(m: Matrix, nhood: Matrix, rows: nat, cols: nat, applyNeighbourhood: bool): (ns: seq<Matrix>)
    requires IsMatrix(m, rows + 2, cols + 2) && IsMatrix(nhood, 3, 3)
    ensures |ns| == 8 && forall k :: 0 <= k < 8 ==> IsMatrix(ns[k], rows, cols)
  {
    seq(8, k requires 0 <= k < 8 =>
      seq(rows, i requires 0 <= i < rows =>
        seq(cols, j requires 0 <= j < cols =>
          Weight(nhood, k, applyNeighbourhood) * m[i + Offsets[k].0][j + Offsets[k].1])))
  }

  /** The centre weight of the mask is never used. */
  lemma CentreWeightIgnored(m: Matrix, nhood: Matrix, rows: nat, cols: nat, w: int)
    requires IsMatrix(m, rows + 2, cols + 2) && IsMatrix(nhood, 3, 3)
    ensures NeighbourStates(m, nhood[1 := nhood[1][1 := w]], rows, cols, true) == NeighbourStates(m, nhood, rows, cols, true)
  {
    var nh' := nhood[1 := nhood[1][1 := w]];
    forall k | 0 <= k < 8
      ensures Weight(nh', k, true) == Weight(nhood, k, true)
    {
    }
    forall k | 0 <= k < 8
      ensures NeighbourStates(m, nh', rows, cols, true)[k] == NeighbourStates(m, nhood, rows, cols, true)[k]
    {
      MatrixEq(NeighbourStates(m, nh', rows, cols, true)[k], NeighbourStates(m, nhood, rows, cols, true)[k], rows, cols);
    }
  }

  /** After a torus refresh, view k at (i, j) is the weighted state of the
      visible neighbour at offset (dr - 1, dc - 1), with indices taken
      modulo the grid size. */
  lemma TorusNeighbours(m: Matrix, nhood: Matrix, rows: nat, cols: nat, k: nat, i: nat, j: nat)
    requires IsMatrix(m, rows + 2, cols + 2) && IsMatrix(nhood, 3, 3) && rows >= 1 && cols >= 1
    requires k < 8 && i < rows && j < cols
    ensures var (dr, dc) := Offsets[k];
      NeighbourStates(Refreshed(m, rows, cols, Torus), nhood, rows, cols, true)[k][i][j] ==
      nhood[dr][dc] * Interior(m, rows, cols)[(i + dr - 1) % rows][(j + dc - 1) % cols]
  {
    var (dr, dc) := Offsets[k];
    var r := Refreshed(m, rows, cols, Torus);
    assert Weight(nhood, k, true) == nhood[dr][dc];
    assert NeighbourStates(r, nhood, rows, cols, true)[k][i][j] == Weight(nhood, k, true) * r[i + Offsets[k].0][j + Offsets[k].1];
    TorusCell(m, rows, cols, i + dr, j + dc);
  }

  /** With a fixed border, a neighbour outside the visible grid reads as
      the fixed value and one inside as its own state. */
  lemma FixedNeighbours(m: Matrix, nhood: Matrix, rows: nat, cols: nat, v: int, k: nat, i: nat, j: nat)
    requires IsMatrix(m, rows + 2, cols + 2) && IsMatrix(nhood, 3, 3) && rows >= 1 && cols >= 1
    requires k < 8 && i < rows && j < cols
    ensures var (dr, dc) := Offsets[k];
      var (x, y) := (i + dr - 1, j + dc - 1);
      NeighbourStates(Refreshed(m, rows, cols, Fixed(v)), nhood, rows, cols, true)[k][i][j] ==
      nhood[dr][dc] * (if 0 <= x < rows && 0 <= y < cols then Interior(m, rows, cols)[x][y] else v)
  {
    var (dr, dc) := Offsets[k];
    var r := Refreshed(m, rows, cols, Fixed(v));
    assert Weight(nhood, k, true) == nhood[dr][dc];
    assert NeighbourStates(r, nhood, rows, cols, true)[k][i][j] == Weight(nhood, k, true) * r[i + Offsets[k].0][j + Offsets[k].1];
    assert IsBorder(i + dr, j + dc, rows, cols) <==> !(0 <= i + dr - 1 < rows && 0 <= j + dc - 1 < cols);
  }

  /** The number of the first n views that show v at (i, j). */
  function CountEq(ns: seq<Matrix>, n: nat, rows: nat, cols: nat, i: nat, j: nat, v: int): (c: nat)
    requires n <= |ns| && forall k :: 0 <= k < |ns| ==> IsMatrix(ns[k], rows, cols)
    requires i < rows && j < cols
    ensures c <= n
  {
    if n == 0 then 0 else CountEq(ns, n - 1, rows, cols, i, j, v) + (if ns[n - 1][i][j] == v then 1 else 0)
  }

  /** The count is the size of the set of views that show v. */
  lemma {:induction false} CountEqIsCardinality(ns: seq<Matrix>, n: nat, rows: nat, cols: nat, i: nat, j: nat, v: int)
    requires n <= |ns| && forall k :: 0 <= k < |ns| ==> IsMatrix(ns[k], rows, cols)
    requires i < rows && j < cols
    ensures CountEq(ns, n, rows, cols, i, j, v) == |set k | 0 <= k < n && ns[k][i][j] == v|
  {
    if n > 0 {
      CountEqIsCardinality(ns, n - 1, rows, cols, i, j, v);
      var prev := set k | 0 <= k < n - 1 && ns[k][i][j] == v;
      var all := set k | 0 <= k < n && ns[k][i][j] == v;
      if ns[n - 1][i][j] == v {
        assert all == prev + {n - 1};
      } else {
        assert all == prev;
      }
    }
  }

  /** The counts of one state, cell by cell. */
  function CountsFor(ns: seq<Matrix>, n: nat, v: int, rows: nat, cols: nat): (c: Matrix)
    requires n <= |ns| && forall k :: 0 <= k < |ns| ==> IsMatrix(ns[k], rows, cols)
    ensures IsMatrix(c, rows, cols)
  {
    seq(rows, i requires 0 <= i < rows => seq(cols, j requires 0 <= j < cols => CountEq(ns, n, rows, cols, i, j, v)))
  }

  /** The counts count_neighbours returns: for state s, at each cell, the
      number of views equal to it. */
  function Counts2D(ns: seq<Matrix>, states: seq<int>, rows: nat, cols: nat): (nc: seq<Matrix>)
    requires forall k :: 0 <= k < |ns| ==> IsMatrix(ns[k], rows, cols)
    ensures |nc| == |states|
  {
    seq(|states|, s requires 0 <= s < |states| => CountsFor(ns, |ns|, states[s], rows, cols))
  }

  /** `countg += (g == state) + 0`. */
  function AddMatches(countg: Matrix, g: Matrix, v: int, rows: nat, cols: nat): (r: Matrix)
    requires IsMatrix(countg, rows, cols) && IsMatrix(g, rows, cols)
    ensures IsMatrix(r, rows, cols)
  {
    seq(rows, i requires 0 <= i < rows =>
      seq(cols, j requires 0 <= j < cols => countg[i][j] + (if g[i][j] == v then 1 else 0)))
  }

  /** count_neighbours. */
  method CountNeighbours(ns: seq<Matrix>, states: seq<int>, rows: nat, cols: nat) returns (counts: seq<Matrix>)
    requires forall k :: 0 <= k < |ns| ==> IsMatrix(ns[k], rows, cols)
    ensures counts == Counts2D(ns, states, rows, cols)
  {
    counts := [];
    for s := 0 to |states|
      invariant |counts| == s
      invariant forall t :: 0 <= t < s ==> counts[t] == CountsFor(ns, |ns|, states[t], rows, cols)
    {
      var countg := Filled(rows, cols, 0);
      MatrixEq(countg, CountsFor(ns, 0, states[s], rows, cols), rows, cols);
      for k := 0 to |ns|
        invariant countg == CountsFor(ns, k, states[s], rows, cols)
      {
        MatrixEq(AddMatches(countg, ns[k], states[s], rows, cols), CountsFor(ns, k + 1, states[s], rows, cols), rows, cols);
        countg := AddMatches(countg, ns[k], states[s], rows, cols);
      }
      counts := counts + [countg];
    }
  }

  /** Every count lies between 0 and the number of views (8). */
  lemma CountsBounded(ns: seq<Matrix>, states: seq<int>, rows: nat, cols: nat, s: nat, i: nat, j: nat)
    requires forall k :: 0 <= k < |ns| ==> IsMatrix(ns[k], rows, cols)
    requires s < |states| && i < rows && j < cols
    ensures 0 <= Counts2D(ns, states, rows, cols)[s][i][j] <= |ns|
  {
  }

  // ---------------------------------------------------------------------
  // The transition rule

  type Rule = (Matrix, seq<Matrix>, seq<Matrix>) -> Matrix
  type RuleWithArgs = (Matrix, seq<Matrix>, seq<Matrix>, seq<int>) -> Matrix

  /** The transition function, or (given as a tuple) the function together
      with the additional arguments it is called with. */
  datatype Transition = Plain(f: Rule) | WithArgs(g: RuleWithArgs, args: seq<int>)

  function Apply(t: Transition, grid: Matrix, ns: seq<Matrix>, nc: seq<Matrix>): Matrix {
    match t
    case Plain(f) => f(grid, ns, nc)
    case WithArgs(g, args) => g(grid, ns, nc, args)
  }

  /** The buffer after one step, when the rule returns a grid of the
      visible shape and the wrap setting is usable. */
  function NextBuffer(m: Matrix, rows: nat, cols: nat, nhood: Matrix, states: seq<int>, t: Transition, b: Border): (r: Option<Matrix>)
    requires IsMatrix(m, rows + 2, cols + 2) && IsMatrix(nhood, 3, 3) && rows >= 1 && cols >= 1
    ensures r.Some? ==> IsMatrix(r.value, rows + 2, cols + 2)
  {
    var ns := NeighbourStates(m, nhood, rows, cols, true);
    var g := Apply(t, Interior(m, rows, cols), ns, Counts2D(ns, states, rows, cols));
    if IsMatrix(g, rows, cols) then Some(Refreshed(WithInterior(m, g, rows, cols), rows, cols, b)) else None
  }

  /** The visible grid after a successful step is the rule's result, and
      the border is consistent with it. */
  lemma NextBufferShowsRule(m: Matrix, rows: nat, cols: nat, nhood: Matrix, states: seq<int>, t: Transition, b: Border)
    requires IsMatrix(m, rows + 2, cols + 2) && IsMatrix(nhood, 3, 3) && rows >= 1 && cols >= 1
    requires NextBuffer(m, rows, cols, nhood, states, t, b).Some?
    ensures var ns := NeighbourStates(m, nhood, rows, cols, true);
      var r := NextBuffer(m, rows, cols, nhood, states, t, b).value;
      Interior(r, rows, cols) == Apply(t, Interior(m, rows, cols), ns, Counts2D(ns, states, rows, cols)) &&
      Refreshed(r, rows, cols, b) == r
  {
    var ns := NeighbourStates(m, nhood, rows, cols, true);
    var g := Apply(t, Interior(m, rows, cols), ns, Counts2D(ns, states, rows, cols));
    RefreshedKeepsInterior(WithInterior(m, g, rows, cols), rows, cols, b);
  }

  // ---------------------------------------------------------------------
  // The grid object

  class Grid {
    const rows: nat
    const cols: nat
    const states: seq<int>
    const wrap: CAConfig.Wrap
    const transition: Transition
    const numGenerations: Option<int>
    const wrapIndices: seq<Slice2>
    const gridIndices: seq<Slice2>
    /** The padded buffer (`wrapping_grid`); the visible grid is its
        interior. */
    const buf: array2<int>
    /** The normalised 3x3 mask. */
    var nhood: Matrix

    ghost predicate Valid()
      reads this
    {
      rows > 2 && cols > 2 && |states| > 0 &&
      buf.Length0 == rows + 2 && buf.Length1 == cols + 2 &&
      IsMatrix(nhood, 3, 3) &&
      (wrapIndices, gridIndices) == GenWrapIndices(rows + 2, cols + 2, rows, cols, 1)
    }

    /** The buffer filled with the first state, the slice tables, and no
        mask yet. */
    constructor(rows: nat, cols: nat, states: seq<int>, wrap: CAConfig.Wrap, transition: Transition, numGenerations: Option<int>)
      requires rows > 2 && cols > 2 && |states| > 0
      ensures Valid() && fresh(buf)
      ensures this.rows == rows && this.cols == cols && this.states == states && this.wrap == wrap
      ensures this.transition == transition && this.numGenerations == numGenerations
      ensures Snapshot(buf) == Filled(rows + 2, cols + 2, states[0])
    {
      this.rows := rows;
      this.cols := cols;
      this.states := states;
      this.wrap := wrap;
      this.transition := transition;
      this.numGenerations := numGenerations;
      var (wi, gi) := GenWrapIndices(rows + 2, cols + 2, rows, cols, 1);
      wrapIndices := wi;
      gridIndices := gi;
      var s0 := states[0];
      buf := new int[rows + 2, cols + 2]((i, j) => s0);
      nhood := [[0, 0, 0], [0, 0, 0], [0, 0, 0]];
      new;
      MatrixEq(Snapshot(buf), Filled(rows + 2, cols + 2, states[0]), rows + 2, cols + 2);
    }

    /** The cells of buffer block w that must equal `Expected` after the
        first k blocks are done. */
    ghost predicate Covered(k: nat, i: int, j: int)
      requires k <= 8
    {
      exists b :: 0 <= b < k && InRange(WrapBlock(b, rows, cols), i, j)
    }

    /** `wrapping_grid[w] = grid[g]` for one pair of blocks, or
        `wrapping_grid[w] = value` for a fixed border. */
    method WriteBlock(k: nat, b: Border)
      requires Valid() && k < 8
      modifies buf
      ensures forall i, j :: 0 <= i < rows + 2 && 0 <= j < cols + 2 ==>
        buf[i, j] == if InRange(WrapBlock(k, rows, cols), i, j)
          then (if b.Torus? then old(buf[Src(i, rows), Src(j, cols)]) else b.value)
          else old(buf[i, j])
    {
      var w := Resolve(wrapIndices[k], rows + 2, cols + 2);
      var g := Resolve(gridIndices[k], rows, cols);
      WrapBlockPairs(k, rows, cols);
      WriteRange(w, g, b);
    }

    /** Every cell of border block w takes the visible cell of grid block
        g at the same offset, or the fixed value. */
    method WriteRange(w: Range, g: Range, b: Border)
      requires Valid() && w.r0 <= w.r1 <= rows + 2 && w.c0 <= w.c1 <= cols + 2
      requires forall i, j :: InRange(w, i, j) ==>
        IsBorder(i, j, rows, cols) &&
        g.r0 + (i - w.r0) + 1 == Src(i, rows) && g.c0 + (j - w.c0) + 1 == Src(j, cols) &&
        IsInterior(Src(i, rows), Src(j, cols), rows, cols)
      modifies buf
      ensures forall i, j :: 0 <= i < rows + 2 && 0 <= j < cols + 2 ==>
        buf[i, j] == if InRange(w, i, j)
          then (if b.Torus? then old(buf[Src(i, rows), Src(j, cols)]) else b.value)
          else old(buf[i, j])
    {
      for i := w.r0 to w.r1
        invariant forall i', j :: 0 <= i' < rows + 2 && 0 <= j < cols + 2 && !(w.r0 <= i' < i && w.c0 <= j < w.c1) ==>
          buf[i', j] == old(buf[i', j])
        invariant forall i', j :: w.r0 <= i' < i && w.c0 <= j < w.c1 ==>
          buf[i', j] == if b.Torus? then old(buf[Src(i', rows), Src(j, cols)]) else b.value
      {
        WriteBlockRow(w, g, i, b);
      }
    }

    /** Row i of the block pair (w, g): border cells (i, j) of w take the
        visible cell of g at the same offset, or the fixed value. */
    method WriteBlockRow(w: Range, g: Range, i: nat, b: Border)
      requires Valid() && w.r0 <= i < w.r1 <= rows + 2 && w.c0 <= w.c1 <= cols + 2
      requires forall i', j :: InRange(w, i', j) ==>
        IsBorder(i', j, rows, cols) &&
        g.r0 + (i' - w.r0) + 1 == Src(i', rows) && g.c0 + (j - w.c0) + 1 == Src(j, cols) &&
        IsInterior(Src(i', rows), Src(j, cols), rows, cols)
      modifies buf
      ensures forall i', j :: 0 <= i' < rows + 2 && 0 <= j < cols + 2 && !(i' == i && w.c0 <= j < w.c1) ==>
        buf[i', j] == old(buf[i', j])
      ensures forall j :: w.c0 <= j < w.c1 ==>
        buf[i, j] == if b.Torus? then old(buf[Src(i, rows), Src(j, cols)]) else b.value
    {
      for j := w.c0 to w.c1
        invariant forall i', j' :: 0 <= i' < rows + 2 && 0 <= j' < cols + 2 && !(i' == i && w.c0 <= j' < j) ==>
          buf[i', j'] == old(buf[i', j'])
        invariant forall j' :: w.c0 <= j' < j ==>
          buf[i, j'] == if b.Torus? then old(buf[Src(i, rows), Src(j', cols)]) else b.value
      {
        if b.Torus? {
          assert InRange(w, i, j);
          // the visible grid is the buffer's interior, one row and column in
          buf[i, j] := buf[g.r0 + (i - w.r0) + 1, g.c0 + (j - w.c0) + 1];
        } else {
          buf[i, j] := b.value;
        }
      }
    }

    /** refresh_wrap: the eight blocks, in the order of the slice tables. */
    method RefreshWrap() returns (ok: bool)
      requires Valid()
      modifies buf
      ensures ok == Policy2D(wrap).Ok?
      ensures !ok ==> unchanged(buf)
      ensures ok ==> Snapshot(buf) == Refreshed(old(Snapshot(buf)), rows, cols, Policy2D(wrap).value)
    {
      var policy := Policy2D(wrap);
      if policy.Err? {
        return false;
      }
      var b := policy.value;
      ghost var m0 := Snapshot(buf);
      for k := 0 to 8
        invariant forall i, j :: 0 <= i < rows + 2 && 0 <= j < cols + 2 ==>
          buf[i, j] == if Covered(k, i, j) then BorderValue(m0, rows, cols, b, i, j) else m0[i][j]
      {
        WrapBlockPairs(k, rows, cols);
        forall i, j | 0 <= i < rows + 2 && 0 <= j < cols + 2 && InRange(WrapBlock(k, rows, cols), i, j)
          ensures !Covered(k, Src(i, rows), Src(j, cols))
        {
          if Covered(k, Src(i, rows), Src(j, cols)) {
            var b' :| 0 <= b' < k && InRange(WrapBlock(b', rows, cols), Src(i, rows), Src(j, cols));
            WrapBlockPairs(b', rows, cols);
          }
        }
        WriteBlock(k, b);
        forall i, j | 0 <= i < rows + 2 && 0 <= j < cols + 2
          ensures Covered(k + 1, i, j) == (Covered(k, i, j) || InRange(WrapBlock(k, rows, cols), i, j))
        {
          if Covered(k + 1, i, j) && !InRange(WrapBlock(k, rows, cols), i, j) {
            var b' :| 0 <= b' < k + 1 && InRange(WrapBlock(b', rows, cols), i, j);
            assert Covered(k, i, j);
          }
        }
      }
      forall i, j | 0 <= i < rows + 2 && 0 <= j < cols + 2
        ensures buf[i, j] == Refreshed(m0, rows, cols, b)[i][j]
      {
        if IsBorder(i, j, rows, cols) {
          WrapBlocksCover(rows, cols, i, j);
        } else if Covered(8, i, j) {
          var b' :| 0 <= b' < 8 && InRange(WrapBlock(b', rows, cols), i, j);
          WrapBlockPairs(b', rows, cols);
        }
      }
      MatrixEq(Snapshot(buf), Refreshed(m0, rows, cols, b), rows + 2, cols + 2);
      ok := true;
    }

    /** The buffer after one step from buffer m, or None when the wrap
        setting is unusable or the rule returns a grid of another shape. */
    function Next(m: Matrix): (r: Option<Matrix>)
      requires Valid() && IsMatrix(m, rows + 2, cols + 2)
      reads this
      ensures r.Some? ==> IsMatrix(r.value, rows + 2, cols + 2)
      ensures Policy2D(wrap).Err? ==> r.None?
    {
      match Policy2D(wrap)
      case Err(_) => None
      case Ok(b) => NextBuffer(m, rows, cols, nhood, states, transition, b)
    }

    /** Next as a function value, for Iterate. */
    function StepFn(): Matrix -> Option<Matrix>
      reads this
    {
      var nh := nhood;
      x => StepBuffer(x, rows, cols, nh, states, transition, wrap)
    }

    lemma StepFnIsNext(m: Matrix)
      requires Valid() && IsMatrix(m, rows + 2, cols + 2)
      ensures StepFn()(m) == Next(m)
    {
    }

    /** The buffers after 0, 1, ..., n steps from m. */
    function Trajectory(m: Matrix, n: nat): (t: Option<seq<Matrix>>)
      requires Valid() && IsMatrix(m, rows + 2, cols + 2)
      reads this
      ensures t.Some? ==> |t.value| == n + 1 && t.value[0] == m
      ensures t.Some? ==> forall k :: 0 <= k <= n ==> IsMatrix(t.value[k], rows + 2, cols + 2)
    {
      GridShared.IterateKeeps(StepFn(), (x: Matrix) => IsMatrix(x, rows + 2, cols + 2), m, n);
      GridShared.Iterate(StepFn(), m, n)
    }

    /** Entry k + 1 of a run is entry k stepped once: its visible grid is
        the rule applied to entry k's grid, views and counts. */
    lemma TrajectoryFollowsRule(m: Matrix, n: nat, k: nat)
      requires Valid() && IsMatrix(m, rows + 2, cols + 2) && k < n
      requires Trajectory(m, n).Some?
      ensures var t := Trajectory(m, n).value;
        IsMatrix(t[k], rows + 2, cols + 2) &&
        var ns := NeighbourStates(t[k], nhood, rows, cols, true);
        Next(t[k]) == Some(t[k + 1]) &&
        Interior(t[k + 1], rows, cols) == Apply(transition, Interior(t[k], rows, cols), ns, Counts2D(ns, states, rows, cols))
    {
      GridShared.IterateStep(StepFn(), m, n, k);
      var t := Trajectory(m, n).value;
      StepFnIsNext(t[k]);
      NextBufferShowsRule(t[k], rows, cols, nhood, states, transition, Policy2D(wrap).value);
    }

    /** A run of i steps followed by a successful step is a run of
        i + 1 steps. */
    lemma TrajectoryExtends(m: Matrix, i: nat, x: Matrix)
      requires Valid() && IsMatrix(m, rows + 2, cols + 2) && Trajectory(m, i).Some?
      requires Next(Trajectory(m, i).value[i]) == Some(x)
      ensures Trajectory(m, i + 1) == Some(Trajectory(m, i).value + [x])
      ensures Interiors(Trajectory(m, i + 1).value, rows, cols) == Interiors(Trajectory(m, i).value, rows, cols) + [Interior(x, rows, cols)]
    {
      StepFnIsNext(Trajectory(m, i).value[i]);
      GridShared.IterateSnoc(StepFn(), m, i);
    }

    /** A run of i steps followed by a failing step fails for any n > i. */
    lemma TrajectoryStops(m: Matrix, i: nat, n: nat)
      requires Valid() && IsMatrix(m, rows + 2, cols + 2) && Trajectory(m, i).Some? && i < n
      requires Next(Trajectory(m, i).value[i]).None?
      ensures Trajectory(m, n).None?
    {
      StepFnIsNext(Trajectory(m, i).value[i]);
      GridShared.IterateFailed(StepFn(), m, i + 1, n);
    }

    /** step: the views, the counts, the rule, the rule's grid written into
        the visible part of the buffer, then the border refreshed. */
    method Step() returns (ok: bool)
      requires Valid()
      modifies buf
      ensures ok == Next(old(Snapshot(buf))).Some?
      ensures ok ==> Snapshot(buf) == Next(old(Snapshot(buf))).value
      ensures !ok ==> unchanged(buf)
    {
      var policy := Policy2D(wrap);
      if policy.Err? {
        return false;
      }
      var m := Snapshot(buf);
      var ns := NeighbourStates(m, nhood, rows, cols, true);
      var nc := CountNeighbours(ns, states, rows, cols);
      var g := Apply(transition, Interior(m, rows, cols), ns, nc);
      if !IsMatrix(g, rows, cols) {
        return false;
      }
      var written := GridShared.WriteVisible(buf, 1, 1, rows, cols, g);
      forall i, j | 0 <= i < rows + 2 && 0 <= j < cols + 2
        ensures buf[i, j] == WithInterior(m, g, rows, cols)[i][j]
      {
        if IsInterior(i, j, rows, cols) {
          assert buf[1 + (i - 1), 1 + (j - 1)] == g[i - 1][j - 1];
        }
      }
      MatrixEq(Snapshot(buf), WithInterior(m, g, rows, cols), rows + 2, cols + 2);
      ok := RefreshWrap();
    }

    /** _runca: the grid before the first step, then after each of n
        steps, each saved as a copy. */
    method RunCA(n: nat) returns (timeline: seq<Matrix>, ok: bool)
      requires Valid()
      modifies buf
      ensures var t := Trajectory(old(Snapshot(buf)), n);
        ok == t.Some? && (ok ==> timeline == Interiors(t.value, rows, cols) && Snapshot(buf) == t.value[n])
    {
      ghost var m0 := Snapshot(buf);
      timeline := [Interior(Snapshot(buf), rows, cols)];
      for i := 0 to n
        invariant Trajectory(m0, i).Some?
        invariant Snapshot(buf) == Trajectory(m0, i).value[i]
        invariant timeline == Interiors(Trajectory(m0, i).value, rows, cols)
      {
        ok := Step();
        if !ok {
          TrajectoryStops(m0, i, n);
          return;
        }
        TrajectoryExtends(m0, i, Snapshot(buf));
        timeline := timeline + [Interior(Snapshot(buf), rows, cols)];
      }
      ok := true;
    }

    /** run: the number of generations is checked (below 1 means 1; a
        missing one cannot be compared), then the CA is run. */
    method Run() returns (r: Result<seq<Matrix>>)
      requires Valid()
      modifies buf
      ensures numGenerations.None? ==> r == Err(MissingValue)
      ensures numGenerations.Some? ==>
        var t := Trajectory(old(Snapshot(buf)), VerifyGens(numGenerations.value));
        r.Ok? == t.Some? && (r.Ok? ==> r.value == Interiors(t.value, rows, cols))
      ensures r.Ok? ==> |r.value| == VerifyGens(numGenerations.value) + 1 && r.value[0] == Interior(old(Snapshot(buf)), rows, cols)
    {
      if numGenerations.None? {
        return Err(MissingValue);
      }
      var n := VerifyGens(numGenerations.value);
      var timeline, ok := RunCA(n);
      if !ok {
        return Err(if Policy2D(wrap).Err? then InvalidWrapPolicy else ShapeMismatch);
      }
      r := Ok(timeline);
    }

    /** set_grid followed by the border refresh. */
    method SetGrid(g: Matrix) returns (ok: bool)
      requires Valid() && Rect(g)
      modifies buf
      ensures ok == (|g| > 0 && Policy2D(wrap).Ok?)
      ensures |g| == 0 ==> unchanged(buf)
      ensures ok ==> Refreshed(Snapshot(buf), rows, cols, Policy2D(wrap).value) == Snapshot(buf)
      ensures ok && |g| > 1 ==> forall i, j :: 0 <= i < Min(|g|, rows) && 0 <= j < Min(|g[0]|, cols) ==> buf[i + 1, j + 1] == g[i][j]
      ensures ok && |g| == 1 ==> forall j :: 0 <= j < Min(|g[0]|, cols) ==> buf[1, j + 1] == g[0][j]
      ensures ok && |g| == 1 ==> forall i, j :: 2 <= i <= rows && 1 <= j <= cols ==> buf[i, j] == old(buf[i, j])
    {
      var written := GridShared.WriteVisible(buf, 1, 1, rows, cols, g);
      if !written {
        return false;
      }
      ghost var m1 := Snapshot(buf);
      ok := RefreshWrap();
      if ok {
        RefreshedKeepsInterior(m1, rows, cols, Policy2D(wrap).value);
      }
    }
  }

  /** One step on a whole buffer value: None when m is not a buffer of
      the given shape, the wrap setting is unusable or the rule returns a
      grid of another shape. */
  function StepBuffer(m: Matrix, rows: nat, cols: nat, nhood: Matrix, states: seq<int>, t: Transition, wrap: CAConfig.Wrap): (r: Option<Matrix>)
    ensures r.Some? ==> IsMatrix(r.value, rows + 2, cols + 2)
    ensures Policy2D(wrap).Err? ==> r.None?
  {
    if IsMatrix(m, rows + 2, cols + 2) && IsMatrix(nhood, 3, 3) && rows >= 1 && cols >= 1 then
      match Policy2D(wrap)
      case Err(_) => None
      case Ok(b) => NextBuffer(m, rows, cols, nhood, states, t, b)
    else None
  }

  /** The visible grids of a sequence of buffers. */
  function Interiors(t: seq<Matrix>, rows: nat, cols: nat): (g: seq<Matrix>)
    requires forall k :: 0 <= k < |t| ==> IsMatrix(t[k], rows + 2, cols + 2)
    ensures |g| == |t|
    ensures forall k :: 0 <= k < |t| ==> g[k] == Interior(t[k], rows, cols)
  {
    seq(|t|, k requires 0 <= k < |t| => Interior(t[k], rows, cols))
  }

  /** Grid2D.__init__: the grid size must exceed 2 both ways; the buffer
      starts in the first state; an initial grid is set (and the border
      refreshed); then the mask is built from the configuration. */
  method Create(cfg: CAConfig.Config, transition: Transition) returns (r: Result<Grid>)
    requires cfg.Valid()
    modifies cfg
    ensures cfg.Valid()
    ensures old(cfg.gridDims).None? ==> r == Err(MissingValue)
    ensures old(cfg.gridDims).Some? && !(old(cfg.gridDims).value.0 > 2 && old(cfg.gridDims).value.1 > 2) ==> r == Err(InvalidGridSize)
    ensures old(cfg.gridDims).Some? && old(cfg.gridDims).value.0 > 2 && old(cfg.gridDims).value.1 > 2 ==>
      (old(cfg.states).None? ==> r == Err(MissingValue)) && (old(cfg.states) == Some([]) ==> r == Err(IndexOutOfRange))
    ensures r.Ok? ==> fresh(r.value) && fresh(r.value.buf) && r.value.Valid()
    ensures r.Ok? ==> (r.value.rows, r.value.cols) == old(cfg.gridDims).value && Some(r.value.states) == old(cfg.states)
    ensures r.Ok? ==> r.value.wrap == old(cfg.wrap) && r.value.transition == transition && r.value.numGenerations == old(cfg.numGenerations)
    ensures r.Ok? ==> cfg.nhoodArr.Some? && Nh.New(cfg.nhoodArr.value, cfg.dimensions) == Ok(Nh.Mat(3, r.value.nhood))
    ensures r.Ok? && old(cfg.initialGrid).None? ==>
      Snapshot(r.value.buf) == Filled(r.value.rows + 2, r.value.cols + 2, r.value.states[0])
    ensures (old(cfg.gridDims).Some? && old(cfg.gridDims).value.0 > 2 && old(cfg.gridDims).value.1 > 2 &&
             old(cfg.states).Some? && |old(cfg.states).value| > 0 && old(cfg.initialGrid) == Some([])) ==>
      r == Err(IndexOutOfRange)
    ensures r.Ok? && old(cfg.initialGrid).Some? ==>
      var g := old(cfg.initialGrid).value; var grid := r.value;
      |g| > 0 && Policy2D(grid.wrap).Ok? &&
      Refreshed(Snapshot(grid.buf), grid.rows, grid.cols, Policy2D(grid.wrap).value) == Snapshot(grid.buf) &&
      (|g| > 1 ==> forall i, j :: 0 <= i < Min(|g|, grid.rows) && 0 <= j < Min(|g[0]|, grid.cols) ==> grid.buf[i + 1, j + 1] == g[i][j]) &&
      (|g| == 1 ==> forall j :: 0 <= j < Min(|g[0]|, grid.cols) ==> grid.buf[1, j + 1] == g[0][j]) &&
      (|g| == 1 ==> forall i, j :: 2 <= i <= grid.rows && 1 <= j <= grid.cols ==> grid.buf[i, j] == grid.states[0])
  {
    if cfg.gridDims.None? {
      return Err(MissingValue);
    }
    var (numRows, numCols) := cfg.gridDims.value;
    if !(numRows > 2 && numCols > 2) {
      return Err(InvalidGridSize);
    }
    if cfg.states.None? {
      return Err(MissingValue);
    }
    if |cfg.states.value| == 0 {
      return Err(IndexOutOfRange);
    }
    var grid := new Grid(numRows, numCols, cfg.states.value, cfg.wrap, transition, cfg.numGenerations);
    if cfg.initialGrid.Some? {
      var ok := grid.SetGrid(cfg.initialGrid.value);
      if !ok {
        return Err(if |cfg.initialGrid.value| == 0 then IndexOutOfRange else InvalidWrapPolicy);
      }
    }
    var mask := GridShared.SetNeighbourhood(cfg);
    if mask.Err? {
      return Err(mask.error);
    }
    if !Nh.Is3x3(mask.value) {
      return Err(InvalidShape);
    }
    grid.nhood := mask.value.rows;
    r := Ok(grid);
  }

  /** The position of cell (i, j) in a grid of `cols` columns flattened
      row by row. */
  function FlatPos(i: nat, j: nat, cols: nat): nat {
    i * cols + j
  }

  /** Every cell of a rows x cols grid has a position below rows * cols. */
  lemma FlatIndex(i: nat, j: nat, rows: nat, cols: nat)
    requires i < rows && j < cols
    ensures FlatPos(i, j, cols) < rows * cols
  {
    assert i * cols + j < (i + 1) * cols;
    var extra: nat := rows - (i + 1);
    assert rows * cols == (i + 1) * cols + extra * cols;
  }

  /** A flat sequence of rows * cols cells read back row by row
      (`reshape`). */
  function Unflatten(g: seq<int>, rows: nat, cols: nat): (m: Matrix)
    requires |g| == rows * cols
    ensures IsMatrix(m, rows, cols)
    ensures forall i, j :: 0 <= i < rows && 0 <= j < cols ==> FlatPos(i, j, cols) < |g| && m[i][j] == g[FlatPos(i, j, cols)]
  {
    FlatIndexAll(rows, cols);
    seq(rows, i requires 0 <= i < rows =>
      seq(cols, j requires 0 <= j < cols => g[FlatPos(i, j, cols)]))
  }

  lemma FlatIndexAll(rows: nat, cols: nat)
    ensures forall i, j :: 0 <= i < rows && 0 <= j < cols ==> FlatPos(i, j, cols) < rows * cols
  {
    forall i, j | 0 <= i < rows && 0 <= j < cols
      ensures FlatPos(i, j, cols) < rows * cols
    {
      FlatIndex(i, j, rows, cols);
    }
  }

  /** `grid[:, :] = v`. */
  method Fill(grid: array2<int>, v: int)
    modifies grid
    ensures Snapshot(grid) == Filled(grid.Length0, grid.Length1, v)
  {
    for i := 0 to grid.Length0
      invariant forall i', j :: 0 <= i' < i && 0 <= j < grid.Length1 ==> grid[i', j] == v
    {
      for j := 0 to grid.Length1
        invariant forall i', j' :: 0 <= i' < i && 0 <= j' < grid.Length1 ==> grid[i', j'] == v
        invariant forall j' :: 0 <= j' < j ==> grid[i, j'] == v
      {
        grid[i, j] := v;
      }
    }
    MatrixEq(Snapshot(grid), Filled(grid.Length0, grid.Length1, v), grid.Length0, grid.Length1);
  }

  /** The flattened grid randomise2d returns, before the reshape: the
      states scattered over the picks with the slice as written. */
  function Scattered2D(rows: nat, cols: nat, background: int, proportions: seq<(int, real)>, picks: seq<int>): (g: seq<int>)
    ensures |g| == rows * cols
  {
    var size := rows * cols;
    GridShared.ScatterSpec(seq(size, _ => background), GridShared.StatesOf(proportions),
                           GridShared.Quotas(proportions, size), picks, |proportions|, true)
  }

  /** randomise2d: the grid is reset to the background in place; each
      state's quota is its clipped proportion of all cells; `picks` is the
      random choice of as many distinct cells as the quotas add up to,
      which fails when that exceeds the number of cells; the states are
      scattered over a flattened copy, which is returned reshaped. */
  method Randomise2D(grid: array2<int>, background: int, proportions: seq<(int, real)>, picks: seq<int>) returns (r: Result<array2<int>>)
    requires var size := grid.Length0 * grid.Length1; var count := GridShared.Sum(GridShared.Quotas(proportions, size));
      count <= size ==> GridShared.ValidPicks(picks, count, size)
    modifies grid
    ensures Snapshot(grid) == Filled(grid.Length0, grid.Length1, background)
    ensures var size := grid.Length0 * grid.Length1;
      GridShared.Sum(GridShared.Quotas(proportions, size)) > size <==> r == Err(InsufficientCells)
    ensures GridShared.ClippedTotal(proportions) <= 1.0 ==> r.Ok?
    ensures r.Ok? ==> fresh(r.value) && r.value.Length0 == grid.Length0 && r.value.Length1 == grid.Length1
    ensures r.Ok? ==> Snapshot(r.value) == Unflatten(Scattered2D(grid.Length0, grid.Length1, background, proportions, picks), grid.Length0, grid.Length1)
  {
    var rows, cols := grid.Length0, grid.Length1;
    Fill(grid, background);
    var size := rows * cols;
    var quotas: seq<nat> := [];
    for k := 0 to |proportions|
      invariant quotas == GridShared.Quotas(proportions, size)[..k]
    {
      quotas := quotas + [GridShared.Quota(proportions[k].1, size)];
    }
    assert quotas == GridShared.Quotas(proportions, size);
    if GridShared.ClippedTotal(proportions) <= 1.0 {
      GridShared.QuotasFit(proportions, size);
    }
    if GridShared.Sum(quotas) > size {
      return Err(InsufficientCells);
    }
    var g := GridShared.Scatter(seq(size, _ => background), GridShared.StatesOf(proportions), quotas, picks);
    var out := CAConfig.FromMatrix(Unflatten(g, rows, cols), rows, cols);
    r := Ok(out);
  }
}
