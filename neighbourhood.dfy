/** Neighbourhood masks (capyle/ca/neighbourhood.py): a user-supplied mask
    is validated and brought to the 3x3 shape a 2-D grid uses, or checked
    as the odd-length row a 1-D grid uses. */
module Neighbourhood {
  import opened Common

  /** A numpy array as the mask code sees it: rank 1, rank 2 (with its
      width, so that shapes such as (0, k) exist), or any other rank. */
  datatype NdArray =
    | Vec(items: seq<int>)
    | Mat(width: nat, rows: seq<seq<int>>)
    | OtherRank(rank: nat)
  {
    ghost predicate WellFormed() {
      match this
      case Vec(_) => true
      case Mat(w, rows) => forall i :: 0 <= i < |rows| ==> |rows[i]| == w
      case OtherRank(k) => k != 1 && k != 2
    }

    function Rank(): nat {
      match this
      case Vec(_) => 1
      case Mat(_, _) => 2
      case OtherRank(k) => k
    }

    /** `a.shape` for ranks 1 and 2. */
    function Shape(): seq<int> {
      match this
      case Vec(items) => [|items|]
      case Mat(w, rows) => [|rows|, w]
      case OtherRank(_) => []
    }
  }

  /** What the caller passed: a Python list (converted by `np.array`), an
      ndarray, or something else. */
  datatype MaskInput = FromList(list: NdArray) | FromArray(ndarray: NdArray) | OtherObject

  ghost predicate ValidInput(x: MaskInput) {
    match x
    case FromList(a) => a.WellFormed()
    case FromArray(a) => a.WellFormed()
    case OtherObject => true
  }

  predicate Is3x3(a: NdArray) {
    a.Mat? && a.width == 3 && |a.rows| == 3
  }

  const EmptyMask2D: NdArray := Mat(3, [[0, 0, 0], [0, 1, 0], [0, 0, 0]])
  const Zeros3x3: NdArray := Mat(3, [[0, 0, 0], [0, 0, 0], [0, 0, 0]])

  /** Python's `<` on tuples of integers: lexicographic, and a proper
      prefix is smaller. */
  predicate TupleLess(x: seq<int>, y: seq<int>) {
    if x == [] then y != []
    else if y == [] then false
    else x[0] < y[0] || (x[0] == y[0] && TupleLess(x[1..], y[1..]))
  }

  /** _type_neighbourhood: only lists and ndarrays are accepted. */
  function TypeNeighbourhood(x: MaskInput): (r: Result<NdArray>)
    ensures x.OtherObject? <==> r == Err(NotArrayLike)
    ensures x.FromList? ==> r == Ok(x.list)
    ensures x.FromArray? ==> r == Ok(x.ndarray)
  {
    match x
    case FromList(a) => Ok(a)
    case FromArray(a) => Ok(a)
    case OtherObject => Err(NotArrayLike)
  }

  /** _has_center: every axis has odd length (a 1x1 mask included). */
  predicate HasCenter(a: NdArray) {
    match a
    case Vec(items) => |items| % 2 == 1
    case Mat(w, rows) => (|rows| == 1 && w == 1) || (|rows| % 2 == 1 && w % 2 == 1)
    case OtherRank(_) => false
  }

  /** Whether an axis of length n has a middle cell: one with as many
      cells before it as after it. */
  predicate HasMiddle(n: int) {
    n / 2 == n - 1 - n / 2
  }

  /** A mask has a centre exactly when it is of rank 1 or 2 and each of
      its axes has a middle cell. */
  lemma HasCenterMeansMiddleCell(a: NdArray)
    ensures a.Vec? ==> (HasCenter(a) <==> HasMiddle(|a.items|))
    ensures a.Mat? ==> (HasCenter(a) <==> HasMiddle(|a.rows|) && HasMiddle(a.width))
    ensures a.OtherRank? ==> !HasCenter(a)
  {
  }

  /** The 2-D emptiness test: no rows, or a zero-length second axis. */
  predicate IsEmpty2D(a: NdArray) {
    match a
    case Vec(items) => |items| == 0
    case Mat(w, rows) => |rows| == 0 || w == 0
    case OtherRank(_) => false
  }

  /** `nhood[1:-1]`: drop the first and the last row. */
  function StripRows(a: NdArray): (b: NdArray)
    requires a.Mat? && a.WellFormed() && |a.rows| >= 2
    ensures b.Mat? && b.WellFormed() && b.width == a.width && |b.rows| == |a.rows| - 2
    ensures forall i :: 0 <= i < |b.rows| ==> b.rows[i] == a.rows[i + 1]
  {
    Mat(a.width, a.rows[1..|a.rows| - 1])
  }

  /** `nhood[:, 1:-1]`: drop the first and the last column. */
  function StripCols(a: NdArray): (b: NdArray)
    requires a.Mat? && a.WellFormed() && a.width >= 2
    ensures b.Mat? && b.WellFormed() && b.width == a.width - 2 && |b.rows| == |a.rows|
    ensures forall i, j :: 0 <= i < |b.rows| && 0 <= j < b.width ==> b.rows[i][j] == a.rows[i][j + 1]
  {
    Mat(a.width - 2, seq(|a.rows|, i requires 0 <= i < |a.rows| => a.rows[i][1..a.width - 1]))
  }

  /** _reduce_to_3x3: strip outer rows and columns of every axis longer
      than 3 until the target shape is reached (exactly 3x3 when `full`,
      at most 3 on each axis otherwise). The shape is unpacked into two
      values, which fails for other ranks; a round that would strip
      nothing repeats forever in the source. */
  function ReduceTo3x3(a: NdArray, full: bool): (r: Result<NdArray>)
    requires a.WellFormed()
    ensures r.Ok? ==> r.value.Mat? && r.value.WellFormed()
    ensures r.Ok? && full ==> Is3x3(r.value)
    ensures r.Ok? && !full ==> r.value.width <= 3 && |r.value.rows| <= 3
    ensures a.Mat? && |a.rows| <= 3 && a.width <= 3 && !(full && Is3x3(a)) && full ==> r == Err(EndlessRecursion)
    ensures !a.Mat? ==> r == Err(UnpackFailed)
    decreases if a.Mat? then |a.rows| + a.width else 0
  {
    match a
    case Mat(w, rows) =>
      if full && |rows| == 3 && w == 3 then Ok(a)
      else if !full && w <= 3 && |rows| <= 3 then Ok(a)
      else if |rows| <= 3 && w <= 3 then Err(EndlessRecursion)
      else
        var a1 := if |rows| > 3 then StripRows(a) else a;
        var a2 := if w > 3 then StripCols(a1) else a1;
        ReduceTo3x3(a2, full)
    case _ => Err(UnpackFailed)
  }

  /** Some axis is longer than 3 (`any(s > 3 for s in nhood.shape)`). */
  predicate AnyAxisOver3(a: NdArray) {
    match a
    case Vec(items) => |items| > 3
    case Mat(w, rows) => |rows| > 3 || w > 3
    case OtherRank(_) => false
  }

  /** A length-3 row placed in the middle of a 3x3 array of zeros. */
  function MiddleRow(row: seq<int>): (b: NdArray)
    requires |row| == 3
    ensures Is3x3(b) && b.WellFormed()
  {
    Mat(3, [[0, 0, 0], row, [0, 0, 0]])
  }

  /** A 3x1 column placed in the middle of a 3x3 array of zeros. */
  function MiddleColumn(col: seq<seq<int>>): (b: NdArray)
    requires |col| == 3 && forall i :: 0 <= i < 3 ==> |col[i]| == 1
    ensures Is3x3(b) && b.WellFormed()
  {
    Mat(3, [[0, col[0][0], 0], [0, col[1][0], 0], [0, col[2][0], 0]])
  }

  /** _increase_to_3x3: cut over-long axes, then pad a row or a column
      with zeros; a single cell gives all zeros. Other shapes fall off the
      end of the source function, which yields None. */
  function IncreaseTo3x3(a: NdArray): (r: Result<NdArray>)
    requires a.WellFormed()
    ensures r.Ok? ==> Is3x3(r.value) && r.value.WellFormed()
  {
    var reduced := if AnyAxisOver3(a) then ReduceTo3x3(a, false) else Ok(a);
    match reduced
    case Err(e) => Err(e)
    case Ok(b) =>
      var c := if b.Mat? && |b.rows| == 1 && b.width == 3 then Vec(b.rows[0]) else b;
      if c.Vec? && |c.items| == 3 then Ok(MiddleRow(c.items))
      else if c.Mat? && |c.rows| == 3 && c.width == 1 then Ok(MiddleColumn(c.rows))
      else if (c.Vec? && |c.items| == 1) || (c.Mat? && |c.rows| == 1 && c.width == 1) then Ok(Zeros3x3)
      else Err(NoneResult)
  }

  /** The tuple comparisons with (3, 3), written out: a vector (n,) is
      larger exactly when n > 3 and smaller otherwise, and a matrix is
      compared on its row count first. */
  lemma CompareWith3x3(a: NdArray)
    requires a.Rank() == 1 || a.Rank() == 2
    ensures a.Vec? ==> (TupleLess([3, 3], a.Shape()) <==> |a.items| > 3)
    ensures a.Vec? ==> (TupleLess(a.Shape(), [3, 3]) <==> |a.items| <= 3)
    ensures a.Mat? ==> (TupleLess([3, 3], a.Shape()) <==> |a.rows| > 3 || (|a.rows| == 3 && a.width > 3))
    ensures a.Mat? ==> (TupleLess(a.Shape(), [3, 3]) <==> |a.rows| < 3 || (|a.rows| == 3 && a.width < 3))
  {
    var s := a.Shape();
    assert [3, 3][1..] == [3] && [3][1..] == [];
    if a.Vec? {
      assert s[1..] == [];
    } else if a.Mat? {
      assert s[1..] == [a.width] && s[1..][1..] == [];
    }
  }

  /** _prepare2D: type check, rank check, empty masks become the
      self-only mask, an even axis is rejected, then the mask is cut down
      or padded to 3x3 as the tuple comparison of its shape with (3, 3)
      decides. */
  function Prepare2D(x: MaskInput): (r: Result<NdArray>)
    requires ValidInput(x)
    ensures x.OtherObject? ==> r == Err(NotArrayLike)
    ensures r.Ok? ==> Is3x3(r.value) && r.value.WellFormed()
    ensures forall a :: TypeNeighbourhood(x) == Ok(a) ==>
      (a.Rank() != 1 && a.Rank() != 2 ==> r == Err(InvalidShape)) &&
      ((a.Rank() == 1 || a.Rank() == 2) && IsEmpty2D(a) ==> r == Ok(EmptyMask2D)) &&
      ((a.Rank() == 1 || a.Rank() == 2) && !IsEmpty2D(a) && !HasCenter(a) ==> r == Err(NoCenter)) &&
      (Is3x3(a) ==> r == Ok(a))
  {
    match TypeNeighbourhood(x)
    case Err(e) => Err(e)
    case Ok(a) =>
      if !(a.Rank() == 1 || a.Rank() == 2) then Err(InvalidShape)
      else
        var b := if IsEmpty2D(a) then EmptyMask2D else a;
        CompareWith3x3(b);
        if !HasCenter(b) then Err(NoCenter)
        else if TupleLess([3, 3], b.Shape()) then ReduceTo3x3(b, true)
        else if TupleLess(b.Shape(), [3, 3]) then IncreaseTo3x3(b)
        else Ok(b)
  }

  /** _prepare1D: empty masks become [0, 1, 0], a single weight w becomes
      [0, w, 0], and anything that is not an odd-length row is rejected. */
  function Prepare1D(x: MaskInput): (r: Result<NdArray>)
    requires ValidInput(x)
    ensures x.OtherObject? ==> r == Err(NotArrayLike)
    ensures r.Ok? ==> r.value.Vec? && |r.value.items| % 2 == 1 && |r.value.items| >= 3
    ensures forall a :: TypeNeighbourhood(x) == Ok(a) ==>
      (a.Rank() != 1 && a.Rank() != 2 ==> r == Err(InvalidShape)) &&
      ((a.Rank() == 1 || a.Rank() == 2) && a.Shape()[0] == 0 ==> r == Ok(Vec([0, 1, 0]))) &&
      (a.Vec? && |a.items| == 1 ==> r == Ok(Vec([0, a.items[0], 0]))) &&
      (a.Mat? && |a.rows| > 0 ==> r == Err(InvalidShape)) &&
      (a.Vec? && |a.items| > 0 && |a.items| % 2 == 0 ==> r == Err(NoCenter)) &&
      (a.Vec? && |a.items| >= 3 && |a.items| % 2 == 1 ==> r == Ok(a))
  {
    match TypeNeighbourhood(x)
    case Err(e) => Err(e)
    case Ok(a) =>
      if !(a.Rank() == 1 || a.Rank() == 2) then Err(InvalidShape)
      else
        var b := if a.Shape()[0] == 0 then Vec([0, 1, 0]) else a;
        var c := if b.Vec? && |b.items| == 1 then Vec([0, b.items[0], 0]) else b;
        if !c.Vec? then Err(InvalidShape)
        else if !HasCenter(c) then Err(NoCenter)
        else Ok(c)
  }

  /** Neighbourhood.__init__: only 1-D and 2-D automata exist. */
  function New(x: MaskInput, dims: int): (r: Result<NdArray>)
    requires ValidInput(x)
    ensures dims != 1 && dims != 2 ==> r == Err(InvalidDimensionality)
    ensures dims == 2 && r.Ok? ==> Is3x3(r.value) && r.value.WellFormed()
    ensures dims == 1 && r.Ok? ==> r.value.Vec? && |r.value.items| % 2 == 1 && |r.value.items| >= 3
    ensures x.OtherObject? && (dims == 1 || dims == 2) ==> r == Err(NotArrayLike)
  {
    if dims == 2 then Prepare2D(x)
    else if dims == 1 then Prepare1D(x)
    else Err(InvalidDimensionality)
  }

  // ---------------------------------------------------------------------
  // Properties of the 2-D normalisation

  /** A normalised mask is a fixed point: normalising twice is normalising
      once. */
  lemma Prepare2DIdempotent(x: MaskInput)
    requires ValidInput(x)
    ensures Prepare2D(x).Ok? ==> Prepare2D(FromArray(Prepare2D(x).value)) == Prepare2D(x)
  {
  }

  /** Reducing an odd x odd mask with both axes at least 3 trims the same
      number of rows from top and bottom and of columns from left and
      right: the result is the central 3x3 block. */
  /** r holds the central 3x3 block of the odd x odd matrix a. */
  ghost predicate CentralOf(r: Result<NdArray>, a: NdArray)
    requires a.Mat? && a.WellFormed() && |a.rows| >= 3 && a.width >= 3
  {
    r.Ok? && Is3x3(r.value) && r.value.WellFormed() &&
    forall i, j :: 0 <= i < 3 && 0 <= j < 3 ==>
      r.value.rows[i][j] == a.rows[(|a.rows| - 3) / 2 + i][(a.width - 3) / 2 + j]
  }

  /** The central block of a matrix with dr rows and dc columns stripped
      off each side is the central block of the original. */
  lemma CentralShift(r: Result<NdArray>, a: NdArray, b: NdArray, dr: nat, dc: nat)
    requires a.Mat? && a.WellFormed() && |a.rows| >= 3 && a.width >= 3
    requires b.Mat? && b.WellFormed() && |b.rows| >= 3 && b.width >= 3
    requires |b.rows| == |a.rows| - 2 * dr && b.width == a.width - 2 * dc
    requires forall i, j :: 0 <= i < |b.rows| && 0 <= j < b.width ==> b.rows[i][j] == a.rows[i + dr][j + dc]
    requires CentralOf(r, b)
    ensures CentralOf(r, a)
  {
    assert (|b.rows| - 3) / 2 + dr == (|a.rows| - 3) / 2;
    assert (b.width - 3) / 2 + dc == (a.width - 3) / 2;
  }

  /** Reducing an odd x odd mask with both axes at least 3 trims the same
      number of rows from top and bottom and of columns from left and
      right: the result is the central 3x3 block. */
  lemma {:induction false} ReduceCentral(a: NdArray)
    requires a.Mat? && a.WellFormed()
    requires |a.rows| >= 3 && a.width >= 3 && |a.rows| % 2 == 1 && a.width % 2 == 1
    ensures CentralOf(ReduceTo3x3(a, true), a)
    decreases |a.rows| + a.width
  {
    if Is3x3(a) {
      assert ReduceTo3x3(a, true) == Ok(a);
    } else {
      var b := a;
      var dr, dc := 0, 0;
      if |a.rows| > 3 {
        b := StripRows(b);
        dr := 1;
      }
      if a.width > 3 {
        b := StripCols(b);
        dc := 1;
      }
      assert ReduceTo3x3(a, true) == ReduceTo3x3(b, true);
      ReduceCentral(b);
      CentralShift(ReduceTo3x3(a, true), a, b, dr, dc);
    }
  }

  lemma CentralBlock(a: NdArray)
    requires a.Mat? && a.WellFormed()
    requires |a.rows| >= 3 && a.width >= 3 && |a.rows| % 2 == 1 && a.width % 2 == 1
    ensures CentralOf(Prepare2D(FromArray(a)), a)
  {
    CompareWith3x3(a);
    if !Is3x3(a) {
      ReduceCentral(a);
    }
  }

  /** Without `full`, a single odd row longer than 3 is cut to its middle
      three cells. */
  lemma {:induction false} ReduceRow(a: NdArray)
    requires a.Mat? && a.WellFormed() && |a.rows| == 1 && a.width >= 3 && a.width % 2 == 1
    ensures var r := ReduceTo3x3(a, false);
      r.Ok? && r.value.width == 3 && |r.value.rows| == 1 &&
      forall j :: 0 <= j < 3 ==> r.value.rows[0][j] == a.rows[0][(a.width - 3) / 2 + j]
    decreases a.width
  {
    if a.width > 3 {
      var a2 := StripCols(a);
      assert ReduceTo3x3(a, false) == ReduceTo3x3(a2, false);
      ReduceRow(a2);
    }
  }

  /** A length-3 vector, or a 1x3 row, becomes the middle row. */
  lemma RowBecomesMiddleRow(row: seq<int>)
    requires |row| == 3
    ensures Prepare2D(FromArray(Vec(row))) == Ok(MiddleRow(row))
    ensures Prepare2D(FromArray(Mat(3, [row]))) == Ok(MiddleRow(row))
  {
    CompareWith3x3(Vec(row));
    CompareWith3x3(Mat(3, [row]));
  }

  /** A 1xk row with odd k > 3 is first cut to its middle three cells. */
  lemma LongRowBecomesMiddleRow(a: NdArray)
    requires a.Mat? && a.WellFormed() && |a.rows| == 1 && a.width > 3 && a.width % 2 == 1
    ensures var k := (a.width - 3) / 2;
      Prepare2D(FromArray(a)) == Ok(MiddleRow(a.rows[0][k..k + 3]))
  {
    ReduceRow(a);
    var k := (a.width - 3) / 2;
    var r := ReduceTo3x3(a, false);
    assert r.value.rows[0] == a.rows[0][k..k + 3];
    assert r.value.rows == [a.rows[0][k..k + 3]];
  }

  /** A 3x1 column becomes the middle column. */
  lemma ColumnBecomesMiddleColumn(col: seq<seq<int>>)
    requires |col| == 3 && forall i :: 0 <= i < 3 ==> |col[i]| == 1
    ensures Prepare2D(FromArray(Mat(1, col))) == Ok(MiddleColumn(col))
  {
    CompareWith3x3(Mat(1, col));
  }

  /** A single weight, of shape (1,) or (1, 1), gives all zeros: the
      centre is not kept. */
  lemma SingleCellBecomesZeros(w: int)
    ensures Prepare2D(FromArray(Vec([w]))) == Ok(Zeros3x3)
    ensures Prepare2D(FromArray(Mat(1, [[w]]))) == Ok(Zeros3x3)
  {
  }

  /** A (k, 1) column with k > 3 is cut to (3, 1) and then never reaches
      3x3: the source recurses without end. */
  lemma {:induction false} TallColumnNeverEnds(a: NdArray)
    requires a.Mat? && a.WellFormed() && a.width == 1 && |a.rows| > 3 && |a.rows| % 2 == 1
    ensures Prepare2D(FromArray(a)) == Err(EndlessRecursion)
  {
    ReduceColumnNeverEnds(a);
  }

  lemma {:induction false} ReduceColumnNeverEnds(a: NdArray)
    requires a.Mat? && a.WellFormed() && a.width == 1 && |a.rows| >= 3 && |a.rows| % 2 == 1
    ensures ReduceTo3x3(a, true) == Err(EndlessRecursion)
    decreases |a.rows|
  {
    if |a.rows| > 3 {
      var a2 := StripRows(a);
      assert ReduceTo3x3(a, true) == ReduceTo3x3(a2, true);
      ReduceColumnNeverEnds(a2);
    }
  }

  /** An odd vector of length 5 or more is larger than (3, 3) and is handed
      to the 2-D reduction, whose unpacking of the shape fails. */
  lemma LongVectorFailsUnpacking(items: seq<int>)
    requires |items| >= 5 && |items| % 2 == 1
    ensures Prepare2D(FromArray(Vec(items))) == Err(UnpackFailed)
  {
  }
}
