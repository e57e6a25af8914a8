/** The 1-D automaton of test/capyle/ca/grid1d.py. The buffer holds one
    row per generation, padded by one hidden column on each side; row 0 is
    the start, and each step computes the row of the next generation from
    the current one and writes it below. */
module Grid1D {
  import opened Common
  import opened Utils
  import Nh = Neighbourhood
  import CAConfig
  import GridShared

  /** Python truthiness of the wrap setting (`if not ca_config.wrap`). */
  function Truthy(w: CAConfig.Wrap): bool {
    match w
    case WrapFlag(b) => b
    case WrapValue(v) => v != 0
    case WrapOther(t) => t
  }

  // ---------------------------------------------------------------------
  // refresh_wrap

  /** The buffer after refresh_wrap: on a wrapping automaton the hidden
      left column shows the last visible column and the hidden right column
      the first; otherwise both hidden columns are dead (0). */
  function Refreshed1D(m: Matrix, rows: nat, width: nat, wrap: bool): (r: Matrix)
    requires IsMatrix(m, rows, width + 2) && width >= 1
    ensures IsMatrix(r, rows, width + 2)
  {
    seq(rows, i requires 0 <= i < rows =>
      seq(width + 2, j requires 0 <= j < width + 2 =>
        if j == 0 then (if wrap then m[i][width] else 0)
        else if j == width + 1 then (if wrap then m[i][1] else 0)
        else m[i][j]))
  }

  /** The visible cells of row i. */
  function Row(m: Matrix, i: nat, width: nat): (r: seq<int>)
    requires i < |m| && |m[i]| == width + 2
    ensures |r| == width
  {
    m[i][1..width + 1]
  }

  /** The visible grid (`self.grid`, the buffer without its hidden
      columns). */
  function Visible(m: Matrix, rows: nat, width: nat): (g: Matrix)
    requires IsMatrix(m, rows, width + 2)
    ensures |g| == rows
  {
    seq(rows, i requires 0 <= i < rows => Row(m, i, width))
  }

  /** Refreshing keeps every visible cell, sets the hidden columns as the
      wrap setting says, and a second refresh changes nothing. */
  lemma RefreshedKeepsVisible(m: Matrix, rows: nat, width: nat, wrap: bool)
    requires IsMatrix(m, rows, width + 2) && width >= 1
    ensures Visible(Refreshed1D(m, rows, width, wrap), rows, width) == Visible(m, rows, width)
    ensures forall i :: 0 <= i < rows ==>
      Refreshed1D(m, rows, width, wrap)[i][0] == (if wrap then m[i][width] else 0) &&
      Refreshed1D(m, rows, width, wrap)[i][width + 1] == (if wrap then m[i][1] else 0)
    ensures Refreshed1D(Refreshed1D(m, rows, width, wrap), rows, width, wrap) == Refreshed1D(m, rows, width, wrap)
  {
    var r := Refreshed1D(m, rows, width, wrap);
    forall i | 0 <= i < rows
      ensures Row(r, i, width) == Row(m, i, width)
    {
      assert forall j :: 0 <= j < width ==> Row(r, i, width)[j] == r[i][j + 1];
    }
    MatrixEq(Refreshed1D(r, rows, width, wrap), r, rows, width + 2);
  }

  // ---------------------------------------------------------------------
  // get_neighbour_arrays

  /** The left, own and right states of every visible cell. */
  type Views = (seq<int>, seq<int>, seq<int>)

  predicate ViewsOf(ns: Views, width: nat) {
    |ns.0| == width && |ns.1| == width && |ns.2| == width
  }

  /** `nhood_bool[k] * v`: the mask's entry k is a switch; a side switched
      off reads as 0. Entries 0 and 2 are the ones consulted, whatever the
      mask's length. */
  function Gate(nhood: seq<int>, k: nat, v: int): int
    requires k < |nhood|
  {
    if nhood[k] == 1 then v else 0
  }

  /** The neighbour arrays of generation gen: the buffer row shifted one
      cell right and one cell left (through the hidden columns), each
      gated by its mask entry, with the visible row itself in the middle. */
  function NeighbourArrays(m: Matrix, width: nat, nhood: seq<int>, gen: nat): (ns: Views)
    requires gen < |m| && |m[gen]| == width + 2 && |nhood| >= 3
    ensures ViewsOf(ns, width)
    ensures ns.1 == Row(m, gen, width)
  {
    (seq(width, j requires 0 <= j < width => Gate(nhood, 0, m[gen][j])),
     Row(m, gen, width),
     seq(width, j requires 0 <= j < width => Gate(nhood, 2, m[gen][j + 2])))
  }

  /** Index arithmetic of a ring of `width` cells. */
  lemma RingIndices(j: nat, width: nat)
    requires j < width
    ensures (j + width - 1) % width == if j == 0 then width - 1 else j - 1
    ensures (j + 1) % width == if j + 1 == width then 0 else j + 1
  {
    if j == 0 {
      DivModUnique(j + width - 1, width, 0, width - 1);
    } else {
      DivModUnique(j + width - 1, width, 1, j - 1);
    }
    if j + 1 == width {
      DivModUnique(j + 1, width, 1, 0);
    } else {
      DivModUnique(j + 1, width, 0, j + 1);
    }
  }

  /** One padded row whose hidden cells copy the opposite ends. */
  lemma RingRow(r: seq<int>, width: nat, nhood: seq<int>, j: nat)
    requires |r| == width + 2 && j < width && |nhood| >= 3
    requires r[0] == r[width] && r[width + 1] == r[1]
    requires nhood[0] == 1 && nhood[2] == 1
    ensures Gate(nhood, 0, r[j]) == r[1..width + 1][(j + width - 1) % width]
    ensures Gate(nhood, 2, r[j + 2]) == r[1..width + 1][(j + 1) % width]
  {
    RingIndices(j, width);
  }

  /** On a refreshed wrapping buffer with both sides switched on, the
      visible row is a ring: the left neighbour of cell j is cell j - 1 and
      the right neighbour cell j + 1, both taken modulo the width. */
  lemma RingNeighbours(m: Matrix, rows: nat, width: nat, nhood: seq<int>, gen: nat, j: nat)
    requires IsMatrix(m, rows, width + 2) && width >= 1 && |nhood| >= 3 && gen < rows && j < width
    requires Refreshed1D(m, rows, width, true) == m
    requires nhood[0] == 1 && nhood[2] == 1
    ensures var ns := NeighbourArrays(m, width, nhood, gen);
      ns.0[j] == ns.1[(j + width - 1) % width] && ns.2[j] == ns.1[(j + 1) % width]
  {
    assert m[gen][0] == Refreshed1D(m, rows, width, true)[gen][0] == m[gen][width];
    assert m[gen][width + 1] == Refreshed1D(m, rows, width, true)[gen][width + 1] == m[gen][1];
    RingRow(m[gen], width, nhood, j);
  }

  /** Without wrapping, the cells at the two ends see a dead neighbour
      beyond the edge. */
  lemma DeadEdges(m: Matrix, rows: nat, width: nat, nhood: seq<int>, gen: nat)
    requires IsMatrix(m, rows, width + 2) && width >= 1 && |nhood| >= 3 && gen < rows
    requires Refreshed1D(m, rows, width, false) == m
    ensures var ns := NeighbourArrays(m, width, nhood, gen);
      ns.0[0] == 0 && ns.2[width - 1] == 0
  {
    assert m[gen][0] == Refreshed1D(m, rows, width, false)[gen][0];
    assert m[gen][width + 1] == Refreshed1D(m, rows, width, false)[gen][width + 1];
    assert NeighbourArrays(m, width, nhood, gen).2[width - 1] == Gate(nhood, 2, m[gen][width + 1]);
  }

  // ---------------------------------------------------------------------
  // count_neighbours

  function Match(x: int, v: int): nat {
    if x == v then 1 else 0
  }

  /** Per cell, how many of its two neighbours are in state v. */
  function CountRow(ns: Views, v: int, width: nat): (c: seq<int>)
    requires ViewsOf(ns, width)
    ensures |c| == width
  {
    seq(width, j requires 0 <= j < width => Match(ns.0[j], v) + Match(ns.2[j], v))
  }

  /** The counts evidently intended, one row per state, with
      `(l == s) + (r == s)` read as the sum of two truth values (as the
      2-D engine counts, adding 0 to make the sum an integer). */
  function Counts1D(ns: Views, states: seq<int>, width: nat): (nc: seq<seq<int>>)
    requires ViewsOf(ns, width)
    ensures |nc| == |states|
    ensures forall s :: 0 <= s < |states| ==> nc[s] == CountRow(ns, states[s], width)
  {
    seq(|states|, s requires 0 <= s < |states| => CountRow(ns, states[s], width))
  }

  /** Each count is the number of neighbours (left, right) equal to the
      state: so it is 0, 1 or 2, 2 exactly when both sides match and 0
      exactly when neither does. */
  lemma CountsAreNeighbourTotals(ns: Views, states: seq<int>, width: nat, s: nat, j: nat)
    requires ViewsOf(ns, width) && s < |states| && j < width
    ensures var c := Counts1D(ns, states, width)[s][j];
      c == |set k | 0 <= k < 2 && [ns.0[j], ns.2[j]][k] == states[s]| &&
      0 <= c <= 2 &&
      (c == 2 <==> ns.0[j] == states[s] && ns.2[j] == states[s]) &&
      (c == 0 <==> ns.0[j] != states[s] && ns.2[j] != states[s])
  {
    var pair := [ns.0[j], ns.2[j]];
    var v := states[s];
    var matches := set k | 0 <= k < 2 && pair[k] == v;
    if pair[0] == v && pair[1] == v {
      assert matches == {0, 1};
    } else if pair[0] == v {
      assert matches == {0};
    } else if pair[1] == v {
      assert matches == {1};
    } else {
      assert matches == {};
    }
  }

  /** `(l == v) + (r == v)` as numpy evaluates it: the sum of two boolean
      arrays is their logical or, 1 where either neighbour is in state v. */
  function OrRow(ns: Views, v: int, width: nat): (c: seq<int>)
    requires ViewsOf(ns, width)
    ensures |c| == width
    ensures forall j :: 0 <= j < width ==> (c[j] == 1 <==> ns.0[j] == v || ns.2[j] == v)
    ensures forall j :: 0 <= j < width ==> c[j] == 0 || c[j] == 1
  {
    seq(width, j requires 0 <= j < width => if ns.0[j] == v || ns.2[j] == v then 1 else 0)
  }

  /** count_neighbours, as written: one or-row per state, so a cell both
      of whose neighbours match counts once. These are the counts the
      engine hands the rule. */
  function CountsAsWritten(ns: Views, states: seq<int>, width: nat): (nc: seq<seq<int>>)
    requires ViewsOf(ns, width)
    ensures |nc| == |states|
  {
    seq(|states|, s requires 0 <= s < |states| => OrRow(ns, states[s], width))
  }

  /** Every count as written is 0 or 1, and it is 1 exactly when at
      least one of the two neighbours is in the state. */
  lemma CountsAsWrittenFlags(ns: Views, states: seq<int>, width: nat, s: nat, j: nat)
    requires ViewsOf(ns, width) && s < |states| && j < width
    ensures var c := CountsAsWritten(ns, states, width)[s][j];
      (c == 0 || c == 1) && (c == 1 <==> ns.0[j] == states[s] || ns.2[j] == states[s])
  {
  }

  /** The counts as written are the intended counts capped at 1. */
  lemma CountsAsWrittenCapped(ns: Views, states: seq<int>, width: nat, s: nat, j: nat)
    requires ViewsOf(ns, width) && s < |states| && j < width
    ensures CountsAsWritten(ns, states, width)[s][j] == Min(Counts1D(ns, states, width)[s][j], 1)
  {
  }

  /** A one-cell row whose two neighbours are both in state 1: the sum
      counts 2, the code as written 1. */
  lemma CountsAsWrittenLosesPair()
    ensures CountsAsWritten(([1], [1], [1]), [0, 1], 1) == [[0], [1]]
    ensures Counts1D(([1], [1], [1]), [0, 1], 1) == [[0], [2]]
  {
    assert CountsAsWritten(([1], [1], [1]), [0, 1], 1)[0] == [0];
    assert CountsAsWritten(([1], [1], [1]), [0, 1], 1)[1] == [1];
    assert CountRow(([1], [1], [1]), 0, 1) == [0];
    assert CountRow(([1], [1], [1]), 1, 1) == [2];
  }

  /** count_neighbours: one count row per state, built in a loop, with
      the or numpy computes (the counts as written). */
  method CountNeighbours(ns: Views, states: seq<int>, width: nat) returns (counts: seq<seq<int>>)
    requires ViewsOf(ns, width)
    ensures counts == CountsAsWritten(ns, states, width)
  {
    counts := [];
    for i := 0 to |states|
      invariant |counts| == i
      invariant forall t :: 0 <= t < i ==> counts[t] == OrRow(ns, states[t], width)
    {
      counts := counts + [OrRow(ns, states[i], width)];
    }
  }

  // ---------------------------------------------------------------------
  // The transition rule and one step

  type Rule = (Matrix, Views, seq<seq<int>>) -> seq<int>
  type RuleWithArgs = (Matrix, Views, seq<seq<int>>, seq<int>) -> seq<int>

  /** The transition function, or (given as a tuple) the function together
      with the additional arguments it is called with. */
  datatype Transition = Plain(f: Rule) | WithArgs(g: RuleWithArgs, args: seq<int>)

  function Apply(t: Transition, grid: Matrix, ns: Views, nc: seq<seq<int>>): seq<int> {
    match t
    case Plain(f) => f(grid, ns, nc)
    case WithArgs(g, args) => g(grid, ns, nc, args)
  }

  /** numpy's assignment of a row into a row of `width` cells: a row of
      that width is copied, a single value is broadcast. */
  function Fit(row: seq<int>, width: nat): (r: seq<int>)
    requires |row| == width || |row| == 1
    ensures |r| == width
    ensures forall j :: 0 <= j < width ==> r[j] == if |row| == width then row[j] else row[0]
  {
    if |row| == width then row else seq(width, _ => row[0])
  }

  /** The buffer with the visible cells of row i replaced. */
  function WithRow(m: Matrix, i: nat, row: seq<int>, width: nat): (r: Matrix)
    requires i < |m| && |m[i]| == width + 2 && |row| == width
    ensures |r| == |m|
  {
    m[i := [m[i][0]] + row + [m[i][width + 1]]]
  }

  /** The automaton's state: the buffer and the current generation. */
  datatype State1D = State1D(buf: Matrix, gen: nat)

  /** The state after one step, or None when the step raises: the next
      generation has no row in the buffer, or the rule's row has neither
      the grid's width nor a single value. */
  function NextState(x: State1D, rows: nat, width: nat, nhood: seq<int>, states: seq<int>, t: Transition, wrap: bool): (r: Option<State1D>)
    ensures r.Some? ==> IsMatrix(r.value.buf, rows, width + 2) && r.value.gen == x.gen + 1 && r.value.gen < rows
  {
    if !(IsMatrix(x.buf, rows, width + 2) && width >= 1 && |nhood| >= 3 && x.gen + 1 < rows) then None
    else
      var row := RuleRow(x, rows, width, nhood, states, t);
      if |row| != width && |row| != 1 then None
      else Some(State1D(Refreshed1D(WithRow(x.buf, x.gen + 1, Fit(row, width), width), rows, width, wrap), x.gen + 1))
  }

  /** What the rule returns for the current generation of x: it is given
      the visible grid, the neighbour arrays of that generation and their
      counts as count_neighbours computes them. */
  function RuleRow(x: State1D, rows: nat, width: nat, nhood: seq<int>, states: seq<int>, t: Transition): seq<int>
    requires IsMatrix(x.buf, rows, width + 2) && |nhood| >= 3 && x.gen < rows
  {
    var ns := NeighbourArrays(x.buf, width, nhood, x.gen);
    Apply(t, Visible(x.buf, rows, width), ns, CountsAsWritten(ns, states, width))
  }

  /** A step writes the rule's row (fitted to the width) as the next
      generation and leaves every other visible row as it was; the border
      it leaves is consistent with the wrap setting. */
  lemma StepWritesOneRow(x: State1D, rows: nat, width: nat, nhood: seq<int>, states: seq<int>, t: Transition, wrap: bool)
    requires NextState(x, rows, width, nhood, states, t, wrap).Some?
    ensures IsMatrix(x.buf, rows, width + 2) && width >= 1 && |nhood| >= 3
    ensures var y := NextState(x, rows, width, nhood, states, t, wrap).value;
      var row := RuleRow(x, rows, width, nhood, states, t);
      (|row| == width || |row| == 1) &&
      Row(y.buf, y.gen, width) == Fit(row, width) &&
      (forall i :: 0 <= i < rows && i != y.gen ==> Row(y.buf, i, width) == Row(x.buf, i, width)) &&
      Refreshed1D(y.buf, rows, width, wrap) == y.buf
  {
    var row := RuleRow(x, rows, width, nhood, states, t);
    RowWritten(x.buf, rows, width, x.gen + 1, Fit(row, width), wrap);
  }

  /** Writing row i and refreshing the border changes row i and no other
      visible row. */
  lemma RowWritten(m: Matrix, rows: nat, width: nat, i: nat, row: seq<int>, wrap: bool)
    requires IsMatrix(m, rows, width + 2) && width >= 1 && i < rows && |row| == width
    ensures var r := Refreshed1D(WithRow(m, i, row, width), rows, width, wrap);
      Row(r, i, width) == row &&
      (forall i' :: 0 <= i' < rows && i' != i ==> Row(r, i', width) == Row(m, i', width)) &&
      Refreshed1D(r, rows, width, wrap) == r
  {
    var w := WithRow(m, i, row, width);
    var r := Refreshed1D(w, rows, width, wrap);
    assert IsMatrix(w, rows, width + 2);
    RefreshedKeepsVisible(w, rows, width, wrap);
    assert Visible(r, rows, width)[i] == Visible(w, rows, width)[i];
    assert Row(w, i, width) == row;
    forall i' | 0 <= i' < rows && i' != i
      ensures Row(r, i', width) == Row(m, i', width)
    {
      assert Visible(r, rows, width)[i'] == Visible(w, rows, width)[i'];
    }
  }

  /** A rule that, given neighbour arrays of the grid's width, returns a
      row of that width (or a single value). */
  ghost predicate KeepsWidth(t: Transition, width: nat) {
    forall g, ns: Views, nc :: ViewsOf(ns, width) ==> |Apply(t, g, ns, nc)| == width || |Apply(t, g, ns, nc)| == 1
  }

  // ---------------------------------------------------------------------
  // The grid object

  class Grid {
    const rows: nat
    const width: nat
    const states: seq<int>
    const wrap: CAConfig.Wrap
    const transition: Transition
    const numGenerations: int
    /** The padded buffer (`wrapping_grid`): one row per generation, the
        visible cells in columns 1 .. width. */
    const buf: array2<int>
    /** The 1-D mask. */
    var nhood: seq<int>
    var currentGen: nat

    ghost predicate Valid()
      reads this
    {
      rows >= 2 && width >= 1 && |states| > 0 &&
      buf.Length0 == rows && buf.Length1 == width + 2 &&
      |nhood| >= 3 && |nhood| % 2 == 1
    }

    /** The buffer filled with the first state, at generation 0. */
    constructor(rows: nat, width: nat, states: seq<int>, wrap: CAConfig.Wrap, transition: Transition, numGenerations: int, nhood: seq<int>)
      requires rows >= 2 && width >= 1 && |states| > 0 && |nhood| >= 3 && |nhood| % 2 == 1
      ensures Valid() && fresh(buf)
      ensures this.rows == rows && this.width == width && this.states == states && this.wrap == wrap
      ensures this.transition == transition && this.numGenerations == numGenerations && this.nhood == nhood
      ensures currentGen == 0
      ensures Snapshot(buf) == Filled(rows, width + 2, states[0])
    {
      this.rows := rows;
      this.width := width;
      this.states := states;
      this.wrap := wrap;
      this.transition := transition;
      this.numGenerations := numGenerations;
      this.nhood := nhood;
      currentGen := 0;
      var s0 := states[0];
      buf := new int[rows, width + 2]((i, j) => s0);
      new;
      MatrixEq(Snapshot(buf), Filled(rows, width + 2, states[0]), rows, width + 2);
    }

    function State(): State1D
      reads this, buf
    {
      State1D(Snapshot(buf), currentGen)
    }

    /** refresh_wrap. */
    method RefreshWrap()
      requires Valid()
      modifies buf
      ensures Snapshot(buf) == Refreshed1D(old(Snapshot(buf)), rows, width, Truthy(wrap))
      ensures Refreshed1D(Snapshot(buf), rows, width, Truthy(wrap)) == Snapshot(buf)
      ensures forall i, j :: 0 <= i < rows && 1 <= j <= width ==> buf[i, j] == old(buf[i, j])
    {
      ghost var m0 := Snapshot(buf);
      var w := Truthy(wrap);
      for i := 0 to rows
        invariant forall i', j :: 0 <= i' < rows && 0 <= j < width + 2 ==>
          buf[i', j] == if i' < i && j == 0 then (if w then m0[i'][width] else 0)
                        else if i' < i && j == width + 1 then (if w then m0[i'][1] else 0)
                        else m0[i'][j]
      {
        buf[i, 0] := if w then buf[i, width] else 0;
        buf[i, width + 1] := if w then buf[i, 1] else 0;
      }
      MatrixEq(Snapshot(buf), Refreshed1D(m0, rows, width, w), rows, width + 2);
      RefreshedKeepsVisible(m0, rows, width, w);
    }

    /** `self.grid[i] = row` for a row of the grid's width. */
    method WriteRow(i: nat, row: seq<int>)
      requires Valid() && i < rows && |row| == width
      modifies buf
      ensures Snapshot(buf) == WithRow(old(Snapshot(buf)), i, row, width)
    {
      ghost var m0 := Snapshot(buf);
      for j := 0 to width
        invariant forall i', j' :: 0 <= i' < rows && 0 <= j' < width + 2 ==>
          buf[i', j'] == if i' == i && 1 <= j' <= j then row[j' - 1] else m0[i'][j']
      {
        buf[i, j + 1] := row[j];
      }
      MatrixEq(Snapshot(buf), WithRow(m0, i, row, width), rows, width + 2);
    }

    function Next(x: State1D): Option<State1D>
      reads this
    {
      NextState(x, rows, width, nhood, states, transition, Truthy(wrap))
    }

    /** step: the neighbour arrays and counts of the current generation,
        the rule, the generation counter advanced, the rule's row written
        as the new current generation, the border refreshed. Looking up the
        current row fails (with nothing changed) once the generation has
        run past the buffer; writing the new row fails (after the counter
        has advanced) when the new generation has no row or the rule's row
        does not fit. */
    method Step() returns (ok: bool)
      requires Valid()
      modifies this`currentGen, buf
      ensures Valid()
      ensures ok == Next(old(State())).Some?
      ensures ok ==> State() == Next(old(State())).value
      ensures !ok ==> unchanged(buf)
      ensures currentGen == if old(currentGen) >= rows then old(currentGen) else old(currentGen) + 1
    {
      if currentGen >= rows {
        return false;
      }
      var m := Snapshot(buf);
      var ns := NeighbourArrays(m, width, nhood, currentGen);
      var nc := CountNeighbours(ns, states, width);
      var row := Apply(transition, Visible(m, rows, width), ns, nc);
      assert row == RuleRow(State(), rows, width, nhood, states, transition);
      currentGen := currentGen + 1;
      if currentGen >= rows || (|row| != width && |row| != 1) {
        return false;
      }
      Commit(Fit(row, width));
      ok := true;
    }

    /** The new row written as the current generation, with the border
        refreshed. */
    method Commit(row: seq<int>)
      requires Valid() && currentGen < rows && |row| == width
      modifies buf
      ensures Snapshot(buf) == Refreshed1D(WithRow(old(Snapshot(buf)), currentGen, row, width), rows, width, Truthy(wrap))
    {
      WriteRow(currentGen, row);
      RefreshWrap();
    }

    function StepFn(): State1D -> Option<State1D>
      reads this
    {
      var nh := nhood;
      x => NextState(x, rows, width, nh, states, transition, Truthy(wrap))
    }

    lemma StepFnIsNext(x: State1D)
      ensures StepFn()(x) == Next(x)
    {
    }

    /** The states after 0, 1, ..., n steps from x. */
    function Trajectory(x: State1D, n: nat): (t: Option<seq<State1D>>)
      reads this
      ensures t.Some? ==> |t.value| == n + 1 && t.value[0] == x
      ensures t.Some? && IsMatrix(x.buf, rows, width + 2) ==>
        forall k :: 0 <= k <= n ==> IsMatrix(t.value[k].buf, rows, width + 2)
    {
      if IsMatrix(x.buf, rows, width + 2) then
        GridShared.IterateKeeps(StepFn(), (y: State1D) => IsMatrix(y.buf, rows, width + 2), x, n);
        GridShared.Iterate(StepFn(), x, n)
      else GridShared.Iterate(StepFn(), x, n)
    }

    /** Entry k of a run is at generation x.gen + k. */
    lemma {:induction false} TrajectoryGens(x: State1D, n: nat, k: nat)
      requires Trajectory(x, n).Some? && k <= n
      ensures Trajectory(x, n).value[k].gen == x.gen + k
    {
      if k > 0 {
        TrajectoryGens(x, n, k - 1);
        GridShared.IterateStep(StepFn(), x, n, k - 1);
      }
    }

    /** A step changes no visible row up to the current generation. */
    lemma StepKeepsRows(y: State1D, i: nat)
      requires IsMatrix(y.buf, rows, width + 2) && Next(y).Some? && i <= y.gen
      ensures Row(Next(y).value.buf, i, width) == Row(y.buf, i, width)
    {
      StepWritesOneRow(y, rows, width, nhood, states, transition, Truthy(wrap));
    }

    lemma StepFnKeepsRows()
      ensures KeepsRows(StepFn(), rows, width)
    {
      forall y: State1D, i: nat | IsMatrix(y.buf, rows, width + 2) && StepFn()(y).Some? && i <= y.gen
        ensures Row(StepFn()(y).value.buf, i, width) == Row(y.buf, i, width)
      {
        StepFnIsNext(y);
        StepKeepsRows(y, i);
      }
    }

    /** Once written, a row stays: a row up to the generation of entry k
        of a run is the same in every later entry. */
    lemma RowsSettle(x: State1D, n: nat, k: nat, k2: nat, i: nat)
      requires IsMatrix(x.buf, rows, width + 2)
      requires Trajectory(x, n).Some? && k <= k2 <= n && i <= Trajectory(x, n).value[k].gen && i < rows
      ensures Row(Trajectory(x, n).value[k2].buf, i, width) == Row(Trajectory(x, n).value[k].buf, i, width)
    {
      var t := Trajectory(x, n).value;
      StepFnKeepsRows();
      forall j | 0 <= j <= n
        ensures IsMatrix(t[j].buf, rows, width + 2) && t[j].gen == x.gen + j
      {
        TrajectoryGens(x, n, j);
      }
      SettledRows(StepFn(), rows, width, x, n, t, k, k2, i);
    }

    /** A rule that keeps the width never makes a run fail before the
        buffer is full: from generation g, every run of up to rows - 1 - g
        steps succeeds. */
    lemma {:induction false} RunCompletes(x: State1D, n: nat)
      requires Valid() && IsMatrix(x.buf, rows, width + 2) && KeepsWidth(transition, width)
      requires x.gen + n < rows
      ensures Trajectory(x, n).Some?
    {
      if n > 0 {
        RunCompletes(x, n - 1);
        var p := Trajectory(x, n - 1).value;
        TrajectoryGens(x, n - 1, n - 1);
        var ns := NeighbourArrays(p[n - 1].buf, width, nhood, p[n - 1].gen);
        assert |Apply(transition, Visible(p[n - 1].buf, rows, width), ns, CountsAsWritten(ns, states, width))| in {width, 1};
        assert StepFn()(p[n - 1]).Some?;
      }
    }

    /** A run of i steps followed by a successful step is a run of
        i + 1 steps. */
    lemma TrajectoryExtends(x: State1D, i: nat, y: State1D)
      requires Trajectory(x, i).Some? && Next(Trajectory(x, i).value[i]) == Some(y)
      ensures Trajectory(x, i + 1) == Some(Trajectory(x, i).value + [y])
    {
      StepFnIsNext(Trajectory(x, i).value[i]);
      GridShared.IterateSnoc(StepFn(), x, i);
    }

    /** The same, with the visible grids of the longer run. */
    lemma RunExtends(x: State1D, i: nat, t: seq<State1D>, y: State1D)
      requires IsMatrix(x.buf, rows, width + 2)
      requires Trajectory(x, i) == Some(t) && Next(t[i]) == Some(y)
      ensures Trajectory(x, i + 1) == Some(t + [y])
      ensures Visibles(t + [y], rows, width) == Visibles(t, rows, width) + [Visible(y.buf, rows, width)]
    {
      TrajectoryExtends(x, i, y);
      VisiblesSnoc(t, y, rows, width);
    }

    /** A run of i steps followed by a failing step fails for any n > i. */
    lemma TrajectoryStops(x: State1D, i: nat, n: nat)
      requires Trajectory(x, i).Some? && i < n && Next(Trajectory(x, i).value[i]).None?
      ensures Trajectory(x, n).None?
    {
      StepFnIsNext(Trajectory(x, i).value[i]);
      GridShared.IterateFailed(StepFn(), x, i + 1, n);
    }

    /** _runca: the visible grid before the first step, then after each of
        n steps, each saved as a copy. */
    method RunCA(n: nat) returns (timeline: seq<Matrix>, ok: bool)
      requires Valid()
      modifies this`currentGen, buf
      ensures Valid()
      ensures var t := Trajectory(old(State()), n);
        ok == t.Some? && (ok ==> timeline == Visibles(t.value, rows, width) && State() == t.value[n])
    {
      ghost var x0 := State();
      ghost var t := [x0];
      timeline := [Visible(Snapshot(buf), rows, width)];
      for i := 0 to n
        invariant Valid()
        invariant Trajectory(x0, i) == Some(t)
        invariant State() == t[i]
        invariant timeline == Visibles(t, rows, width)
      {
        ok := Step();
        if !ok {
          TrajectoryStops(x0, i, n);
          return;
        }
        RunExtends(x0, i, t, State());
        t := t + [State()];
        timeline := timeline + [Visible(Snapshot(buf), rows, width)];
      }
      ok := true;
    }

    /** run: the number of generations (below 1 means 1), then the CA is
        run; a failing step surfaces as the error it raises. */
    method Run() returns (r: Result<seq<Matrix>>)
      requires Valid()
      modifies this`currentGen, buf
      ensures Valid()
      ensures var t := Trajectory(old(State()), VerifyGens(numGenerations));
        r.Ok? == t.Some? && (r.Ok? ==> r.value == Visibles(t.value, rows, width))
      ensures r.Err? ==> r.error == if currentGen >= rows then IndexOutOfRange else ShapeMismatch
    {
      var n := VerifyGens(numGenerations);
      var timeline, ok := RunCA(n);
      if !ok {
        return Err(if currentGen >= rows then IndexOutOfRange else ShapeMismatch);
      }
      r := Ok(timeline);
    }

    /** set_grid (into the visible part of the buffer) with its border
        refresh. */
    method SetGrid(g: Matrix) returns (ok: bool)
      requires Valid() && Rect(g)
      modifies buf
      ensures ok == (|g| > 0)
      ensures !ok ==> unchanged(buf)
      ensures ok ==> Refreshed1D(Snapshot(buf), rows, width, Truthy(wrap)) == Snapshot(buf)
      ensures ok && |g| > 1 ==> forall i, j :: 0 <= i < Min(|g|, rows) && 0 <= j < Min(|g[0]|, width) ==> buf[i, j + 1] == g[i][j]
      ensures ok && |g| == 1 ==> forall j :: 0 <= j < Min(|g[0]|, width) ==> buf[0, j + 1] == g[0][j]
      ensures ok && |g| == 1 ==> forall i, j :: 1 <= i < rows && 1 <= j <= width ==> buf[i, j] == old(buf[i, j])
    {
      ok := GridShared.WriteVisible(buf, 0, 1, rows, width, g);
      if !ok {
        return;
      }
      RefreshWrap();
    }
  }

  lemma VisiblesSnoc(t: seq<State1D>, y: State1D, rows: nat, width: nat)
    requires forall k :: 0 <= k < |t| ==> IsMatrix(t[k].buf, rows, width + 2)
    requires IsMatrix(y.buf, rows, width + 2)
    ensures forall k :: 0 <= k < |t + [y]| ==> IsMatrix((t + [y])[k].buf, rows, width + 2)
    ensures Visibles(t + [y], rows, width) == Visibles(t, rows, width) + [Visible(y.buf, rows, width)]
  {
    assert forall k :: 0 <= k < |t + [y]| ==> (t + [y])[k] == if k < |t| then t[k] else y;
  }

  /** A step function that keeps every visible row up to the current
      generation. */
  ghost predicate KeepsRows(f: State1D -> Option<State1D>, rows: nat, width: nat) {
    forall y: State1D, i: nat {:trigger Row(f(y).value.buf, i, width)} ::
      IsMatrix(y.buf, rows, width + 2) && f(y).Some? && IsMatrix(f(y).value.buf, rows, width + 2) && i <= y.gen && i < rows ==>
        Row(f(y).value.buf, i, width) == Row(y.buf, i, width)
  }

  /** Under such a step function, a row up to the generation of entry k of
      a run is the same in every later entry. */
  lemma {:induction false} SettledRows(f: State1D -> Option<State1D>, rows: nat, width: nat, x: State1D, n: nat, t: seq<State1D>, k: nat, k2: nat, i: nat)
    requires KeepsRows(f, rows, width)
    requires GridShared.Iterate(f, x, n) == Some(t)
    requires forall j :: 0 <= j < |t| ==> IsMatrix(t[j].buf, rows, width + 2)
    requires forall j :: 0 <= j < |t| ==> t[j].gen == x.gen + j
    requires k <= k2 <= n && i <= x.gen + k && i < rows
    ensures IsMatrix(t[k].buf, rows, width + 2) && IsMatrix(t[k2].buf, rows, width + 2)
    ensures Row(t[k2].buf, i, width) == Row(t[k].buf, i, width)
    decreases k2
  {
    if k2 > k {
      SettledRows(f, rows, width, x, n, t, k, k2 - 1, i);
      GridShared.IterateStep(f, x, n, k2 - 1);
    }
  }

  /** The visible grids of a run. */
  function Visibles(t: seq<State1D>, rows: nat, width: nat): (g: seq<Matrix>)
    requires forall k :: 0 <= k < |t| ==> IsMatrix(t[k].buf, rows, width + 2)
    ensures |g| == |t|
    ensures forall k :: 0 <= k < |t| ==> g[k] == Visible(t[k].buf, rows, width)
  {
    seq(|t|, k requires 0 <= k < |t| => Visible(t[k].buf, rows, width))
  }

  /** Grid1D.__init__: at least one generation; the buffer has
      gens_to_dims rows and columns plus the two hidden ones; the mask must
      be 1-D; the buffer starts in the first state; an initial grid is set;
      the border is refreshed; the generation counter starts at 0. */
  method Create(cfg: CAConfig.Config, transition: Transition) returns (r: Result<Grid>)
    requires cfg.Valid()
    modifies cfg
    ensures cfg.Valid()
    ensures old(cfg.numGenerations).None? ==> r == Err(MissingValue)
    ensures old(cfg.numGenerations).Some? && old(cfg.numGenerations).value < 1 ==> r == Err(InvalidGenerationCount)
    ensures r.Ok? ==> fresh(r.value) && fresh(r.value.buf) && r.value.Valid()
    ensures r.Ok? ==> old(cfg.numGenerations).Some? && r.value.numGenerations == old(cfg.numGenerations).value
    ensures r.Ok? ==> (r.value.rows, r.value.width) == GensToDims(r.value.numGenerations)
    ensures r.Ok? ==> Some(r.value.states) == old(cfg.states) && r.value.wrap == old(cfg.wrap) && r.value.transition == transition
    ensures r.Ok? ==> cfg.nhoodArr.Some? && Nh.New(cfg.nhoodArr.value, cfg.dimensions) == Ok(Nh.Vec(r.value.nhood))
    ensures r.Ok? ==> r.value.currentGen == 0
    ensures r.Ok? ==> Refreshed1D(Snapshot(r.value.buf), r.value.rows, r.value.width, Truthy(r.value.wrap)) == Snapshot(r.value.buf)
    ensures r.Ok? && old(cfg.initialGrid).None? ==>
      Snapshot(r.value.buf) == Refreshed1D(Filled(r.value.rows, r.value.width + 2, r.value.states[0]), r.value.rows, r.value.width, Truthy(r.value.wrap))
    ensures old(cfg.initialGrid) == Some([]) ==> r.Err?
    ensures r.Ok? && old(cfg.initialGrid).Some? ==>
      var g := old(cfg.initialGrid).value; var grid := r.value;
      |g| > 0 &&
      (|g| > 1 ==> forall i, j :: 0 <= i < Min(|g|, grid.rows) && 0 <= j < Min(|g[0]|, grid.width) ==> grid.buf[i, j + 1] == g[i][j]) &&
      (|g| == 1 ==> forall j :: 0 <= j < Min(|g[0]|, grid.width) ==> grid.buf[0, j + 1] == g[0][j]) &&
      (|g| == 1 ==> forall i, j :: 1 <= i < grid.rows && 1 <= j <= grid.width ==> grid.buf[i, j] == grid.states[0])
  {
    if cfg.numGenerations.None? {
      return Err(MissingValue);
    }
    var gens := cfg.numGenerations.value;
    if gens < 1 {
      return Err(InvalidGenerationCount);
    }
    var (numRows, numCols) := GensToDims(gens);
    var mask := GridShared.SetNeighbourhood(cfg);
    if mask.Err? {
      return Err(mask.error);
    }
    if !mask.value.Vec? {
      return Err(InvalidShape);
    }
    if cfg.states.None? {
      return Err(MissingValue);
    }
    if |cfg.states.value| == 0 {
      return Err(IndexOutOfRange);
    }
    var grid := new Grid(numRows, numCols, cfg.states.value, cfg.wrap, transition, gens, mask.value.items);
    if cfg.initialGrid.Some? {
      var ok := grid.SetGrid(cfg.initialGrid.value);
      if !ok {
        return Err(IndexOutOfRange);
      }
    }
    grid.RefreshWrap();
    r := Ok(grid);
  }

  // ---------------------------------------------------------------------
  // randomise1d

  /** The first row randomise1d writes, as written: the background, with
      each state's quota taken from all `cells` of the grid, scattered
      with the slice as written. */
  function Scattered1D(width: nat, cells: nat, background: int, proportions: seq<(int, real)>, picks: seq<int>): (g: seq<int>)
    ensures |g| == width
  {
    GridShared.ScatterSpec(seq(width, _ => background), GridShared.StatesOf(proportions),
                           GridShared.Quotas(proportions, cells), picks, |proportions|, true)
  }

  /** randomise1d: row 0 is reset to the background; each state's quota is
      its clipped proportion of all the grid's cells (`grid.size`); `picks`
      is the random choice of that many distinct cells of the row, which
      fails when the quotas add up to more than the row holds; the states
      are scattered over a copy of row 0, which is written back. The other
      rows are left alone, and the grid itself is returned. */
  method Randomise1D(grid: array2<int>, background: int, proportions: seq<(int, real)>, picks: seq<int>) returns (r: Result<array2<int>>)
    requires var count := GridShared.Sum(GridShared.Quotas(proportions, grid.Length0 * grid.Length1));
      count <= grid.Length1 ==> GridShared.ValidPicks(picks, count, grid.Length1)
    modifies grid
    ensures grid.Length0 == 0 ==> r == Err(IndexOutOfRange)
    ensures forall i, j :: 1 <= i < grid.Length0 && 0 <= j < grid.Length1 ==> grid[i, j] == old(grid[i, j])
    ensures grid.Length0 > 0 ==>
      (GridShared.Sum(GridShared.Quotas(proportions, grid.Length0 * grid.Length1)) > grid.Length1 <==> r == Err(InsufficientCells))
    ensures r == Err(InsufficientCells) ==> forall j :: 0 <= j < grid.Length1 ==> grid[0, j] == background
    ensures grid.Length0 == 1 && GridShared.ClippedTotal(proportions) <= 1.0 ==> r.Ok?
    ensures r.Ok? ==> r.value == grid
    ensures r.Ok? ==> forall j :: 0 <= j < grid.Length1 ==>
      grid[0, j] == Scattered1D(grid.Length1, grid.Length0 * grid.Length1, background, proportions, picks)[j]
  {
    if grid.Length0 == 0 {
      return Err(IndexOutOfRange);
    }
    var width := grid.Length1;
    var size := grid.Length0 * grid.Length1;
    WriteFirstRow(grid, seq(width, _ => background));
    var quotas: seq<nat> := [];
    for k := 0 to |proportions|
      invariant quotas == GridShared.Quotas(proportions, size)[..k]
    {
      quotas := quotas + [GridShared.Quota(proportions[k].1, size)];
    }
    assert quotas == GridShared.Quotas(proportions, size);
    if grid.Length0 == 1 && GridShared.ClippedTotal(proportions) <= 1.0 {
      GridShared.QuotasFit(proportions, size);
    }
    if GridShared.Sum(quotas) > width {
      return Err(InsufficientCells);
    }
    var g := GridShared.Scatter(seq(width, _ => background), GridShared.StatesOf(proportions), quotas, picks);
    WriteFirstRow(grid, g);
    r := Ok(grid);
  }

  /** `grid[0, :] = row`. */
  method WriteFirstRow(grid: array2<int>, row: seq<int>)
    requires grid.Length0 > 0 && |row| == grid.Length1
    modifies grid
    ensures forall i, j :: 0 <= i < grid.Length0 && 0 <= j < grid.Length1 ==>
      grid[i, j] == if i == 0 then row[j] else old(grid[i, j])
  {
    for j := 0 to grid.Length1
      invariant forall i, j' :: 0 <= i < grid.Length0 && 0 <= j' < grid.Length1 ==>
        grid[i, j'] == if i == 0 && j' < j then row[j'] else old(grid[i, j'])
    {
      grid[0, j] := row[j];
    }
  }

  /** randomise1d as written takes the quotas from the size of the whole
      grid but picks the cells from row 0 alone: a state given all of a
      grid of two or more rows asks for more cells than the row has, and
      the random choice fails. */
  lemma QuotasAsWrittenOverflow(rows: nat, width: nat, s: int)
    requires rows >= 2 && width >= 1
    ensures GridShared.Sum(GridShared.Quotas([(s, 1.0)], rows * width)) > width
    ensures GridShared.Sum(GridShared.Quotas([(s, 1.0)], width)) <= width
  {
    var q := GridShared.Quotas([(s, 1.0)], rows * width);
    assert q[..0] == [];
    assert q[0] == rows * width;
    assert rows * width >= 2 * width;
    var q' := GridShared.Quotas([(s, 1.0)], width);
    assert q'[..0] == [];
  }

  /** The same on the grid a single generation gives (2 x 3): proportion
      1/2 asks for 3 of the 3 cells as written, against 1 when the quota
      is taken from the row. */
  lemma QuotasAsWrittenHalf()
    ensures GensToDims(1) == (2, 3)
    ensures GridShared.Quotas([(1, 0.5)], 2 * 3) == [3]
    ensures GridShared.Quotas([(1, 0.5)], 3) == [1]
  {
  }

  /** The first row randomise1d evidently means to write: quotas taken
      from the row's own cells, and the corrected slice. */
  function IntendedScattered1D(width: nat, background: int, proportions: seq<(int, real)>, picks: seq<int>): (g: seq<int>)
    ensures |g| == width
  {
    GridShared.ScatterSpec(seq(width, _ => background), GridShared.StatesOf(proportions),
                           GridShared.Quotas(proportions, width), picks, |proportions|, false)
  }

  /** With the quotas taken from the row, proportions whose clipped values
      add up to at most 1 always fit the row, and every state lands on its
      whole quota: the cell picked t-th, for t in the run of entry i,
      ends in state i. */
  lemma IntendedRandomise1DPlaces(width: nat, background: int, proportions: seq<(int, real)>, picks: seq<int>, i: nat, t: nat)
    requires GridShared.ClippedTotal(proportions) <= 1.0
    requires GridShared.ValidPicks(picks, GridShared.Sum(GridShared.Quotas(proportions, width)), width)
    requires var q := GridShared.Quotas(proportions, width);
      i < |q| && GridShared.Sum(q[..i]) <= t < GridShared.Sum(q[..i + 1])
    ensures GridShared.Sum(GridShared.Quotas(proportions, width)) <= width
    ensures t < |picks| && IntendedScattered1D(width, background, proportions, picks)[picks[t]] == proportions[i].0
  {
    GridShared.QuotasFit(proportions, width);
    GridShared.CorrectedPlacesEveryQuota(seq(width, _ => background), GridShared.StatesOf(proportions),
      GridShared.Quotas(proportions, width), picks, |proportions|, i, t);
  }
}
