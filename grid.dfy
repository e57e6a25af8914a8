/** What capyle/ca/grid.py gives both grid kinds: writing a supplied grid
    into the visible part of the padded buffer (`set_grid`, before its
    final border refresh, which each grid kind does itself), and building
    the neighbourhood from the configuration. */
module GridShared {
  import opened Common
  import opened Utils
  import Nh = Neighbourhood
  import CAConfig

  /** The cells of buf outside the rows x cols block at (r0, c0) are as
      they were. */
  twostate predicate OutsideUnchanged(buf: array2<int>, r0: nat, c0: nat, rows: nat, cols: nat)
    reads buf
  {
    forall i, j ::
      (0 <= i < buf.Length0 && 0 <= j < buf.Length1 && !(r0 <= i < r0 + rows && c0 <= j < c0 + cols)) ==>
      buf[i, j] == old(buf[i, j])
  }

  /** set_grid, up to its border refresh. The visible grid is the
      rows x cols block of buf at (r0, c0). A grid of several rows is
      rescaled to the visible shape and written whole; a one-row grid is
      rescaled to the visible width and written into the first visible row
      only. Rescaling leaves cells beyond the supplied grid uninitialised,
      so those visible cells are left unconstrained. A grid without rows
      has no `shape[1]` and raises. */
  method WriteVisible(buf: array2<int>, r0: nat, c0: nat, rows: nat, cols: nat, g: Matrix) returns (ok: bool)
    requires r0 + rows <= buf.Length0 && c0 + cols <= buf.Length1
    requires Rect(g)
    modifies buf
    ensures ok == (|g| > 0)
    ensures !ok ==> unchanged(buf)
    ensures |g| > 1 ==> OutsideUnchanged(buf, r0, c0, rows, cols)
    ensures |g| > 1 ==> forall i, j :: 0 <= i < Min(|g|, rows) && 0 <= j < Min(|g[0]|, cols) ==>
      buf[r0 + i, c0 + j] == g[i][j]
    ensures |g| == 1 ==> OutsideUnchanged(buf, r0, c0, Min(rows, 1), cols)
    ensures |g| == 1 && rows > 0 ==> forall j :: 0 <= j < Min(|g[0]|, cols) ==> buf[r0, c0 + j] == g[0][j]
  {
    if |g| == 0 {
      return false;
    }
    var width := |g[0]|;
    var src := CAConfig.FromMatrix(g, |g|, width);
    var targetRows := if |g| > 1 then rows else 1;
    var scaled := ScaleArray(src, targetRows, cols);
    forall i, j | 0 <= i < Min(|g|, targetRows) && 0 <= j < Min(width, cols)
      ensures scaled[i, j] == g[i][j]
    {
      assert Snapshot(src)[i][j] == src[i, j];
    }
    var writeRows := if |g| > 1 then rows else Min(rows, 1);
    for i := 0 to writeRows
      invariant forall i, j :: 0 <= i < Min(|g|, targetRows) && 0 <= j < Min(width, cols) ==> scaled[i, j] == g[i][j]
      invariant OutsideUnchanged(buf, r0, c0, i, cols)
      invariant forall i', j :: 0 <= i' < i && 0 <= j < cols ==> buf[r0 + i', c0 + j] == scaled[i', j]
    {
      CopyRow(buf, scaled, r0 + i, c0, i, cols);
    }
    ok := true;
  }

  /** Row i of src, cols cells wide, written into buf at (r, c0). */
  method CopyRow(buf: array2<int>, src: array2<int>, r: nat, c0: nat, i: nat, cols: nat)
    requires buf != src
    requires r < buf.Length0 && c0 + cols <= buf.Length1 && i < src.Length0 && cols <= src.Length1
    modifies buf
    ensures forall i', j' :: 0 <= i' < buf.Length0 && 0 <= j' < buf.Length1 ==>
      buf[i', j'] == if i' == r && c0 <= j' < c0 + cols then src[i, j' - c0] else old(buf[i', j'])
  {
    for j := 0 to cols
      invariant forall i', j' :: 0 <= i' < buf.Length0 && 0 <= j' < buf.Length1 ==>
        buf[i', j'] == if i' == r && c0 <= j' < c0 + j then src[i, j' - c0] else old(buf[i', j'])
    {
      buf[r, c0 + j] := src[i, j];
    }
  }

  /** set_neighbourhood: the mask comes from the configuration
      (`CAConfig.neighbourhood`, which already builds it for the
      configuration's dimensions). */
  method SetNeighbourhood(cfg: CAConfig.Config) returns (r: Result<Nh.NdArray>)
    requires cfg.Valid()
    modifies cfg
    ensures cfg.Valid()
    ensures cfg.State() == old(cfg.State()).(nhoodArr := cfg.nhoodArr)
    ensures cfg.nhoodArr == if old(cfg.nhoodArr).None? then Some(CAConfig.SelfOnly1D) else old(cfg.nhoodArr)
    ensures r == Nh.New(cfg.nhoodArr.value, cfg.dimensions)
  {
    r := cfg.Neighbourhood();
  }

  // ---------------------------------------------------------------------
  // randomise1d / randomise2d: quotas and the scatter of states

  /** `int(clip_numeric(p, 0, 1) * size)`: the number of cells a state
      asks for. */
  function Quota(p: real, size: nat): (q: nat)
    ensures q <= size
    ensures p <= 0.0 ==> q == 0
    ensures p >= 1.0 ==> q == size
  {
    var c := ClipNumeric(p, 0.0, 1.0);
    assert 0.0 <= c * size as real <= size as real by {
      assert c * size as real <= 1.0 * size as real;
    }
    Trunc(c * size as real)
  }

  function Sum(s: seq<nat>): nat {
    if s == [] then 0 else Sum(s[..|s| - 1]) + s[|s| - 1]
  }

  lemma {:induction false} SumPrefixMonotone(s: seq<nat>, i: nat, j: nat)
    requires i <= j <= |s|
    ensures Sum(s[..i]) <= Sum(s[..j])
    decreases j - i
  {
    if i < j {
      SumPrefixMonotone(s, i, j - 1);
      assert s[..j][..j - 1] == s[..j - 1];
    }
  }

  /** `g[indices] = v`: every listed position takes the value v. */
  function Assign(g: seq<int>, indices: seq<int>, v: int): (r: seq<int>)
    ensures |r| == |g|
    ensures forall f :: 0 <= f < |g| ==> r[f] == if f in indices then v else g[f]
  {
    seq(|g|, f requires 0 <= f < |g| => if f in indices then v else g[f])
  }

  /** The positions entry n of the proportions is written to: the source
      slices `picks[used:quota]` (as written) where `picks[used:used+quota]`
      is evidently meant. */
  function EntrySlice(quotas: seq<nat>, picks: seq<int>, n: nat, asWritten: bool): seq<int>
    requires n < |quotas|
  {
    var used := Sum(quotas[..n]);
    PySlice(picks, used, if asWritten then quotas[n] else used + quotas[n])
  }

  /** The flattened grid after the first n entries have been scattered. */
  function ScatterSpec(g0: seq<int>, states: seq<int>, quotas: seq<nat>, picks: seq<int>, n: nat, asWritten: bool): (g: seq<int>)
    requires n <= |states| == |quotas|
    ensures |g| == |g0|
  {
    if n == 0 then g0
    else Assign(ScatterSpec(g0, states, quotas, picks, n - 1, asWritten), EntrySlice(quotas, picks, n - 1, asWritten), states[n - 1])
  }

  /** The loop shared by randomise1d and randomise2d, as written: entry i
      writes its state into the cells `picks[used:quota_i]`, then `used`
      grows by the quota. */
  method Scatter(g0: seq<int>, states: seq<int>, quotas: seq<nat>, picks: seq<int>) returns (g: seq<int>)
    requires |states| == |quotas|
    ensures g == ScatterSpec(g0, states, quotas, picks, |states|, true)
  {
    g := g0;
    var used := 0;
    for i := 0 to |states|
      invariant used == Sum(quotas[..i])
      invariant g == ScatterSpec(g0, states, quotas, picks, i, true)
    {
      var indices := PySlice(picks, used, quotas[i]);
      g := Assign(g, indices, states[i]);
      assert quotas[..i + 1][..i] == quotas[..i];
      used := used + quotas[i];
    }
  }

  /** The quota of every entry of a proportions list `[(state, p), ...]`. */
  function Quotas(proportions: seq<(int, real)>, size: nat): (q: seq<nat>)
    ensures |q| == |proportions|
    ensures forall i :: 0 <= i < |q| ==> q[i] <= size
  {
    seq(|proportions|, i requires 0 <= i < |proportions| => Quota(proportions[i].1, size))
  }

  /** The states of a proportions list, in order. */
  function StatesOf(proportions: seq<(int, real)>): (s: seq<int>)
    ensures |s| == |proportions|
  {
    seq(|proportions|, i requires 0 <= i < |proportions| => proportions[i].0)
  }

  /** The sum of a sequence of reals. */
  function RealSum(r: seq<real>): real {
    if r == [] then 0.0 else RealSum(r[..|r| - 1]) + r[|r| - 1]
  }

  /** The clipped proportions, in order. */
  function Clips(proportions: seq<(int, real)>): (r: seq<real>)
    ensures |r| == |proportions|
    ensures forall i :: 0 <= i < |r| ==> r[i] == ClipNumeric(proportions[i].1, 0.0, 1.0)
  {
    seq(|proportions|, i requires 0 <= i < |proportions| => ClipNumeric(proportions[i].1, 0.0, 1.0))
  }

  /** The sum of the clipped proportions. */
  function ClippedTotal(proportions: seq<(int, real)>): real {
    RealSum(Clips(proportions))
  }

  /** Natural numbers each at most s times the matching real add up to at
      most s times the reals' sum. */
  lemma {:induction false} SumWithinScaled(q: seq<nat>, c: seq<real>, s: real)
    requires |q| == |c|
    requires forall i :: 0 <= i < |q| ==> q[i] as real <= c[i] * s
    ensures Sum(q) as real <= RealSum(c) * s
  {
    if q != [] {
      var n := |q| - 1;
      SumWithinScaled(q[..n], c[..n], s);
      assert (RealSum(c[..n]) + c[n]) * s == RealSum(c[..n]) * s + c[n] * s;
    }
  }

  /** Truncation only rounds down: each quota is at most its share. */
  lemma QuotaBelowShare(p: real, size: nat)
    ensures Quota(p, size) as real <= ClipNumeric(p, 0.0, 1.0) * size as real
  {
  }

  lemma QuotasWithinShares(proportions: seq<(int, real)>, size: nat)
    ensures forall i :: 0 <= i < |proportions| ==>
      Quotas(proportions, size)[i] as real <= Clips(proportions)[i] * size as real
  {
    forall i | 0 <= i < |proportions|
      ensures Quotas(proportions, size)[i] as real <= Clips(proportions)[i] * size as real
    {
      QuotaBelowShare(proportions[i].1, size);
    }
  }

  lemma ScaleBound(x: nat, t: real, s: nat)
    requires x as real <= t * s as real && t <= 1.0
    ensures x <= s
  {
    assert (1.0 - t) * s as real >= 0.0;
  }

  /** Natural numbers each at most s times the matching real, where the
      reals add up to at most 1, add up to at most s. */
  lemma SumWithinWhole(q: seq<nat>, c: seq<real>, s: nat)
    requires |q| == |c|
    requires forall i :: 0 <= i < |q| ==> q[i] as real <= c[i] * s as real
    requires RealSum(c) <= 1.0
    ensures Sum(q) <= s
  {
    SumWithinScaled(q, c, s as real);
    ScaleBound(Sum(q), RealSum(c), s);
  }

  /** Proportions that add up to at most 1 never ask for more cells than
      there are, so the random choice cannot fail. */
  lemma QuotasFit(proportions: seq<(int, real)>, size: nat)
    requires ClippedTotal(proportions) <= 1.0
    ensures Sum(Quotas(proportions, size)) <= size
  {
    QuotasWithinShares(proportions, size);
    SumWithinWhole(Quotas(proportions, size), Clips(proportions), size);
  }

  /** The random choice: `count` distinct cells out of `size`. */
  predicate ValidPicks(picks: seq<int>, count: nat, size: nat) {
    |picks| == count && Distinct(picks) && forall t :: 0 <= t < |picks| ==> 0 <= picks[t] < size
  }

  lemma EntrySliceWithin(quotas: seq<nat>, picks: seq<int>, n: nat, asWritten: bool)
    requires n < |quotas| && |picks| == Sum(quotas)
    ensures forall f :: f in EntrySlice(quotas, picks, n, asWritten) ==>
      exists t :: Sum(quotas[..n]) <= t < Sum(quotas[..n + 1]) && t < |picks| && picks[t] == f
  {
    SumPrefixMonotone(quotas, n + 1, |quotas|);
    assert quotas[..|quotas|] == quotas;
    assert quotas[..n + 1][..n] == quotas[..n];
    var used, next := Sum(quotas[..n]), Sum(quotas[..n + 1]);
    var hi := PyBound(if asWritten then quotas[n] else next, |picks|);
    assert hi <= next;
    var sl := EntrySlice(quotas, picks, n, asWritten);
    assert sl == if used <= hi then picks[used..hi] else [];
    forall f | f in sl
      ensures exists t :: used <= t < next && t < |picks| && picks[t] == f
    {
      var k :| 0 <= k < |sl| && sl[k] == f;
      assert picks[used + k] == f;
    }
  }

  /** Cells that no entry's slice reaches keep the background. */
  lemma {:induction false} ScatterLeavesOthers(g0: seq<int>, states: seq<int>, quotas: seq<nat>, picks: seq<int>, n: nat, asWritten: bool, f: int)
    requires n <= |states| == |quotas| && |picks| == Sum(quotas)
    requires 0 <= f < |g0|
    requires forall t :: 0 <= t < Sum(quotas[..n]) && t < |picks| ==> picks[t] != f
    ensures ScatterSpec(g0, states, quotas, picks, n, asWritten)[f] == g0[f]
  {
    if n > 0 {
      SumPrefixMonotone(quotas, n - 1, n);
      EntrySliceWithin(quotas, picks, n - 1, asWritten);
      ScatterLeavesOthers(g0, states, quotas, picks, n - 1, asWritten, f);
    }
  }

  /** The last entry's slice misses every cell picked for an earlier
      entry, so such a cell keeps its value. */
  lemma LastSliceMisses(g0: seq<int>, states: seq<int>, quotas: seq<nat>, picks: seq<int>, n: nat, asWritten: bool, t: nat)
    requires 1 <= n <= |states| == |quotas|
    requires ValidPicks(picks, Sum(quotas), |g0|)
    requires t < Sum(quotas[..n - 1])
    ensures t < |picks|
    ensures ScatterSpec(g0, states, quotas, picks, n, asWritten)[picks[t]] ==
      ScatterSpec(g0, states, quotas, picks, n - 1, asWritten)[picks[t]]
  {
    SumPrefixMonotone(quotas, n - 1, |quotas|);
    assert quotas[..|quotas|] == quotas;
    EntrySliceWithin(quotas, picks, n - 1, asWritten);
    assert picks[t] !in EntrySlice(quotas, picks, n - 1, asWritten);
  }

  /** The corrected slice of the last entry is exactly its own run of
      picked cells. */
  lemma LastSliceWritten(g0: seq<int>, states: seq<int>, quotas: seq<nat>, picks: seq<int>, n: nat, t: nat)
    requires 1 <= n <= |states| == |quotas|
    requires ValidPicks(picks, Sum(quotas), |g0|)
    requires Sum(quotas[..n - 1]) <= t < Sum(quotas[..n])
    ensures t < |picks|
    ensures ScatterSpec(g0, states, quotas, picks, n, false)[picks[t]] == states[n - 1]
  {
    SumPrefixMonotone(quotas, n, |quotas|);
    assert quotas[..|quotas|] == quotas;
    assert quotas[..n][..n - 1] == quotas[..n - 1];
    assert EntrySlice(quotas, picks, n - 1, false) == picks[Sum(quotas[..n - 1])..Sum(quotas[..n])];
  }

  /** As written, the first state still lands on exactly the first
      quota_0 picked cells: every later slice starts at `used`, past them. */
  lemma {:induction false} FirstStatePlaced(g0: seq<int>, states: seq<int>, quotas: seq<nat>, picks: seq<int>, n: nat, t: nat)
    requires 1 <= n <= |states| == |quotas|
    requires ValidPicks(picks, Sum(quotas), |g0|)
    requires t < quotas[0]
    ensures t < |picks|
    ensures ScatterSpec(g0, states, quotas, picks, n, true)[picks[t]] == states[0]
  {
    SumPrefixMonotone(quotas, 1, |quotas|);
    assert quotas[..|quotas|] == quotas;
    assert quotas[..1] == [quotas[0]] && quotas[..1][..0] == [];
    if n == 1 {
      assert EntrySlice(quotas, picks, 0, true) == picks[0..quotas[0]];
    } else {
      FirstStatePlaced(g0, states, quotas, picks, n - 1, t);
      SumPrefixMonotone(quotas, 1, n - 1);
      LastSliceMisses(g0, states, quotas, picks, n, true, t);
    }
  }

  /** The corrected scatter gives every entry exactly its own run of
      picked cells: cell picks[t] with t in [used_i, used_i + quota_i)
      ends up in state i. */
  lemma {:induction false} CorrectedPlacesEveryQuota(g0: seq<int>, states: seq<int>, quotas: seq<nat>, picks: seq<int>, n: nat, i: nat, t: nat)
    requires n <= |states| == |quotas|
    requires ValidPicks(picks, Sum(quotas), |g0|)
    requires i < n && Sum(quotas[..i]) <= t < Sum(quotas[..i + 1])
    ensures t < |picks|
    ensures ScatterSpec(g0, states, quotas, picks, n, false)[picks[t]] == states[i]
  {
    if i == n - 1 {
      LastSliceWritten(g0, states, quotas, picks, n, t);
    } else {
      CorrectedPlacesEveryQuota(g0, states, quotas, picks, n - 1, i, t);
      SumPrefixMonotone(quotas, i + 1, n - 1);
      LastSliceMisses(g0, states, quotas, picks, n, false, t);
    }
  }

  /** The discrepancy on a concrete input: four cells, proportions 1/2 for
      state 1 and 1/4 for state 2 give quotas [2, 1]; with picks [0, 1, 2]
      the source leaves state 2 out entirely, while the corrected slice
      places it on cell 2. */
  lemma ScatterAsWrittenDropsState()
    ensures [Quota(0.5, 4), Quota(0.25, 4)] == [2, 1]
    ensures ScatterSpec([0, 0, 0, 0], [1, 2], [2, 1], [0, 1, 2], 2, true) == [1, 1, 0, 0]
    ensures ScatterSpec([0, 0, 0, 0], [1, 2], [2, 1], [0, 1, 2], 2, false) == [1, 1, 2, 0]
  {
    var q: seq<nat> := [2, 1];
    assert q[..0] == [] && q[..1] == [2];
    assert Sum(q[..1]) == 2;
    assert EntrySlice(q, [0, 1, 2], 0, true) == [0, 1];
    assert EntrySlice(q, [0, 1, 2], 1, true) == [];
    assert EntrySlice(q, [0, 1, 2], 1, false) == [2];
  }

  // ---------------------------------------------------------------------
  // _runca: repeated steps

  /** The states after 0, 1, ..., n applications of f, or None once f
      fails. */
  function Iterate<T>(f: T -> Option<T>, m: T, n: nat): (t: Option<seq<T>>)
    ensures t.Some? ==> |t.value| == n + 1 && t.value[0] == m
  {
    if n == 0 then Some([m])
    else
      match Iterate(f, m, n - 1)
      case None => None
      case Some(p) =>
        match f(p[n - 1])
        case None => None
        case Some(x) => Some(p + [x])
  }

  /** A step that succeeds extends the run by its result. */
  lemma IterateSnoc<T>(f: T -> Option<T>, m: T, n: nat)
    requires Iterate(f, m, n).Some? && f(Iterate(f, m, n).value[n]).Some?
    ensures Iterate(f, m, n + 1) == Some(Iterate(f, m, n).value + [f(Iterate(f, m, n).value[n]).value])
  {
  }

  /** Running longer only appends: the first k + 1 entries of a run of n
      steps are the run of k steps, and a run that fails stays failed. */
  lemma {:induction false} IteratePrefix<T>(f: T -> Option<T>, m: T, k: nat, n: nat)
    requires k <= n && Iterate(f, m, n).Some?
    ensures Iterate(f, m, k).Some? && Iterate(f, m, k).value == Iterate(f, m, n).value[..k + 1]
  {
    if k < n {
      var p := Iterate(f, m, n - 1);
      assert p.Some? && Iterate(f, m, n).value[..n] == p.value;
      IteratePrefix(f, m, k, n - 1);
      assert Iterate(f, m, n).value[..n][..k + 1] == Iterate(f, m, n).value[..k + 1];
    } else {
      assert Iterate(f, m, n).value[..n + 1] == Iterate(f, m, n).value;
    }
  }

  /** Once a run fails, every longer run fails. */
  lemma IterateFailed<T>(f: T -> Option<T>, m: T, k: nat, n: nat)
    requires k <= n && Iterate(f, m, k).None?
    ensures Iterate(f, m, n).None?
  {
    if Iterate(f, m, n).Some? {
      IteratePrefix(f, m, k, n);
    }
  }

  /** Entry k + 1 of a run is f applied to entry k. */
  lemma IterateStep<T>(f: T -> Option<T>, m: T, n: nat, k: nat)
    requires k < n && Iterate(f, m, n).Some?
    ensures f(Iterate(f, m, n).value[k]) == Some(Iterate(f, m, n).value[k + 1])
  {
    IteratePrefix(f, m, k + 1, n);
    var p := Iterate(f, m, k).value;
    assert Iterate(f, m, k + 1).value == Iterate(f, m, n).value[..k + 2];
    assert Iterate(f, m, k + 1).value[k] == Iterate(f, m, n).value[k];
  }

  /** A successful step from x ends in a state with property P. */
  predicate Keeps<T>(f: T -> Option<T>, P: T -> bool, x: T) {
    f(x).Some? ==> P(f(x).value)
  }

  /** When f keeps a property P and m has it, every entry of a run has it. */
  lemma {:induction false} IterateKeeps<T>(f: T -> Option<T>, P: T -> bool, m: T, n: nat)
    requires P(m)
    requires forall x :: Keeps(f, P, x)
    ensures Iterate(f, m, n).Some? ==> forall k :: 0 <= k <= n ==> P(Iterate(f, m, n).value[k])
  {
    if n > 0 && Iterate(f, m, n).Some? {
      IterateKeeps(f, P, m, n - 1);
      var p := Iterate(f, m, n - 1).value;
      var t := Iterate(f, m, n).value;
      assert f(p[n - 1]).Some? && t == p + [f(p[n - 1]).value];
      forall k | 0 <= k <= n
        ensures P(t[k])
      {
        if k < n {
          assert t[k] == p[k] && P(Iterate(f, m, n - 1).value[k]);
        } else {
          assert Keeps(f, P, p[n - 1]);
        }
      }
    }
  }

}
