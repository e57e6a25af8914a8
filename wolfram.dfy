/** The elementary-CA rule of ca_descriptions/wolframs_1d.py: the next
    state of a cell is the entry of the rule table for the pattern its
    left neighbour, itself and its right neighbour make. */
module Wolfram {
  import opened Common
  import opened Utils
  import Grid1D

  /** A cell counts as on only if its state is exactly 1. */
  predicate On(x: int) {
    x == 1
  }

  function Bit(b: bool): nat {
    if b then 1 else 0
  }

  /** The (left, centre, right) pattern of line k of the rule table:
      line 0 is 111, line 7 is 000. */
  function Pattern(k: nat): (bool, bool, bool)
    requires k < 8
  {
    match k
    case 0 => (true, true, true)
    case 1 => (true, true, false)
    case 2 => (true, false, true)
    case 3 => (true, false, false)
    case 4 => (false, true, true)
    case 5 => (false, true, false)
    case 6 => (false, false, true)
    case _ => (false, false, false)
  }

  /** The pattern a cell's neighbourhood makes, read as the 3-bit number
      l c r. */
  function PatternValue(l: int, c: int, r: int): (v: nat)
    ensures v < 8
  {
    4 * Bit(On(l)) + 2 * Bit(On(c)) + Bit(On(r))
  }

  /** Every neighbourhood matches exactly one line of the table: line
      7 - (4l + 2c + r). */
  lemma ExactlyOnePattern(l: int, c: int, r: int, k: nat)
    requires k < 8
    ensures Pattern(k) == (On(l), On(c), On(r)) <==> k == 7 - PatternValue(l, c, r)
  {
  }

  /** Line k of `rule_application`: where a cell's pattern is that of
      line k, the rule's entry k (numpy's `&` of an integer with truth
      values keeps its lowest bit); 0 elsewhere. */
  function Application(ns: Grid1D.Views, rulebool: seq<int>, k: nat, width: nat): (a: seq<int>)
    requires Grid1D.ViewsOf(ns, width) && k < 8 && |rulebool| >= 8
    ensures |a| == width
  {
    seq(width, j requires 0 <= j < width =>
      if Pattern(k) == (On(ns.0[j]), On(ns.1[j]), On(ns.2[j])) then rulebool[k] % 2 else 0)
  }

  /** What the rule computes: for each cell, the (lowest bit of the) table
      entry for its pattern. */
  function Output(ns: Grid1D.Views, rulebool: seq<int>, width: nat): (row: seq<int>)
    requires Grid1D.ViewsOf(ns, width) && |rulebool| >= 8
    ensures |row| == width
    ensures forall j :: 0 <= j < width ==> row[j] == 0 || row[j] == 1
  {
    seq(width, j requires 0 <= j < width => rulebool[7 - PatternValue(ns.0[j], ns.1[j], ns.2[j])] % 2)
  }

  /** transition_function: the eight lines of the table are added up,
      line by line, into the first. */
  method TransitionFunction(ns: Grid1D.Views, rulebool: seq<int>) returns (newrow: seq<int>)
    requires |ns.0| == |ns.1| && |ns.2| == |ns.1| && |rulebool| >= 8
    ensures newrow == Output(ns, rulebool, |ns.1|)
  {
    var width := |ns.1|;
    newrow := Application(ns, rulebool, 0, width);
    forall j | 0 <= j < width
      ensures newrow[j] == if 7 - PatternValue(ns.0[j], ns.1[j], ns.2[j]) == 0 then rulebool[0] % 2 else 0
    {
      ExactlyOnePattern(ns.0[j], ns.1[j], ns.2[j], 0);
    }
    for i := 0 to 7
      invariant |newrow| == width
      invariant forall j :: 0 <= j < width ==>
        var k := 7 - PatternValue(ns.0[j], ns.1[j], ns.2[j]);
        newrow[j] == if k <= i then rulebool[k] % 2 else 0
    {
      var a := Application(ns, rulebool, i + 1, width);
      forall j | 0 <= j < width
        ensures a[j] == if 7 - PatternValue(ns.0[j], ns.1[j], ns.2[j]) == i + 1 then rulebool[i + 1] % 2 else 0
      {
        ExactlyOnePattern(ns.0[j], ns.1[j], ns.2[j], i + 1);
      }
      newrow := seq(width, j requires 0 <= j < width => newrow[j] + a[j]);
    }
  }

  /** The rule table the program passes along: `int_to_binary(rule_num)`,
      most significant bit first. */
  function RuleBits(ruleNum: int): (bits: seq<int>)
    ensures |bits| == 8
  {
    IntToBinary(ruleNum as real)
  }

  /** The rule number as int_to_binary sees it: clipped to 0 .. 255. */
  lemma ClippedRuleNumber(ruleNum: int)
    ensures ClipNumeric(Trunc(ruleNum as real) as real, 0.0, 255.0).Floor == Min(Max(ruleNum, 0), 255)
  {
    assert Trunc(ruleNum as real) == ruleNum;
  }

  /** Wolfram's numbering: the next state of a cell whose neighbourhood
      reads l c r is bit 4l + 2c + r of the rule number (clipped to a
      byte). */
  lemma WolframNumbering(ruleNum: int, ns: Grid1D.Views, width: nat, j: nat)
    requires Grid1D.ViewsOf(ns, width) && j < width
    ensures Output(ns, RuleBits(ruleNum), width)[j] ==
      (Min(Max(ruleNum, 0), 255) / Pow2(PatternValue(ns.0[j], ns.1[j], ns.2[j]))) % 2
  {
    var p := PatternValue(ns.0[j], ns.1[j], ns.2[j]);
    IntToBinaryBit(ruleNum as real, p);
    ClippedRuleNumber(ruleNum);
  }

  /** Rule 30 as the program's own comment spells it out. */
  lemma Rule30Bits()
    ensures RuleBits(30) == [0, 0, 0, 1, 1, 1, 1, 0]
  {
    ClippedRuleNumber(30);
    Pow2Byte();
    assert 30 / 128 == 0 && 30 / 64 == 0 && 30 / 32 == 0 && 30 / 16 == 1 && 30 / 8 == 3 && 30 / 4 == 7 && 30 / 2 == 15;
    forall k | 0 <= k < 8
      ensures RuleBits(30)[k] == [0, 0, 0, 1, 1, 1, 1, 0][k]
    {
      IntToBinaryBit(30 as real, 7 - k);
    }
  }

  /** The rule as given to Grid1D: the function with the rule table as its
      extra argument. Neighbour arrays of unequal lengths, or a table of
      fewer than eight entries, make numpy raise; the model returns an
      empty row, which the step rejects. */
  function RuleFn(g: Matrix, ns: Grid1D.Views, nc: seq<seq<int>>, rulebool: seq<int>): (row: seq<int>)
    ensures |ns.0| == |ns.1| && |ns.2| == |ns.1| && |rulebool| >= 8 ==> |row| == |ns.1|
    ensures !(|ns.0| == |ns.1| && |ns.2| == |ns.1| && |rulebool| >= 8) ==> row == []
    ensures forall j :: 0 <= j < |row| ==> row[j] == 0 || row[j] == 1
  {
    if |ns.0| == |ns.1| && |ns.2| == |ns.1| && |rulebool| >= 8 then Output(ns, rulebool, |ns.1|) else []
  }

  /** The transition the program hands Grid1D: the rule with an
      eight-entry table of bits. */
  function Transition(ruleNum: int): (t: Grid1D.Transition)
    ensures t.WithArgs? && |t.args| == 8
    ensures forall k :: 0 <= k < 8 ==> t.args[k] == 0 || t.args[k] == 1
  {
    Grid1D.WithArgs(RuleFn, RuleBits(ruleNum))
  }

  /** The rule always returns a row as wide as the grid. */
  lemma TransitionKeepsWidth(ruleNum: int, width: nat)
    ensures Grid1D.KeepsWidth(Transition(ruleNum), width)
  {
  }

  /** A Wolfram automaton never fails mid-run: from generation 0 it runs
      all rows - 1 generations its buffer has room for. */
  lemma WolframRunCompletes(grid: Grid1D.Grid, ruleNum: int)
    requires grid.Valid() && grid.transition == Transition(ruleNum) && grid.currentGen == 0
    ensures grid.Trajectory(grid.State(), grid.rows - 1).Some?
  {
    TransitionKeepsWidth(ruleNum, grid.width);
    grid.RunCompletes(grid.State(), grid.rows - 1);
  }
}
