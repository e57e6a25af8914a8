/** Values shared by every part of the CA engine model: optional values,
    results with the engine's error taxonomy, grids as nested sequences,
    and Python's rules for slice bounds. */
module Common {

  datatype Option<T> = None | Some(value: T)

  /** The exceptions the source raises (or runs into) on bad input. */
  datatype Error =
    | InvalidDimensionality   // Neighbourhood dims other than 1 or 2
    | InvalidShape            // array rank not 1 or 2, or a 2-D mask in 1-D mode
    | NoCenter                // an even-length axis: no centre cell
    | UnpackFailed            // `rows, cols = a.shape` on a rank-1 array
    | EndlessRecursion        // `_reduce_to_3x3` calling itself with the same array
    | NoneResult              // a helper that falls off its end and yields None
    | NotArrayLike            // TypeError: mask neither a list nor an ndarray
    | InvalidGridSize
    | InvalidGenerationCount
    | InvalidWrapPolicy
    | InsufficientCells       // sampling more distinct cells than exist
    | MissingKey              // KeyError
    | MissingValue            // a None where a value is needed (TypeError)
    | IndexOutOfRange
    | ShapeMismatch
    | ZeroDivision

  datatype Result<T> = Ok(value: T) | Err(error: Error)

  /** A grid or any 2-D array, row by row. */
  type Matrix = seq<seq<int>>

  predicate IsMatrix(m: Matrix, rows: nat, cols: nat) {
    |m| == rows && forall i :: 0 <= i < rows ==> |m[i]| == cols
  }

  /** Rectangular, and the shape numpy would report. */
  predicate Rect(m: Matrix) {
    forall i :: 0 <= i < |m| ==> |m[i]| == |m[0]|
  }

  function Dims(m: Matrix): (int, int) {
    (|m|, if |m| == 0 then 0 else |m[0]|)
  }

  function Min(a: int, b: int): int { if a < b then a else b }

  function Max(a: int, b: int): int { if a < b then b else a }

  /** A rows x cols array holding v everywhere. */
  function Filled(rows: nat, cols: nat, v: int): (m: Matrix)
    ensures IsMatrix(m, rows, cols)
    ensures forall i, j :: 0 <= i < rows && 0 <= j < cols ==> m[i][j] == v
  {
    seq(rows, i => seq(cols, j => v))
  }

  /** The contents of an array2, as a value (numpy's `np.copy`). */
  function Snapshot(a: array2<int>): (m: Matrix)
    reads a
    ensures IsMatrix(m, a.Length0, a.Length1)
    ensures forall i, j :: 0 <= i < a.Length0 && 0 <= j < a.Length1 ==> m[i][j] == a[i, j]
  {
    seq(a.Length0, i requires 0 <= i < a.Length0 reads a =>
      seq(a.Length1, j requires 0 <= j < a.Length1 reads a => a[i, j]))
  }

  /** Two matrices of one shape that agree cell by cell are equal. */
  lemma MatrixEq(a: Matrix, b: Matrix, rows: nat, cols: nat)
    requires IsMatrix(a, rows, cols) && IsMatrix(b, rows, cols)
    requires forall i, j :: 0 <= i < rows && 0 <= j < cols ==> a[i][j] == b[i][j]
    ensures a == b
  {
    forall i | 0 <= i < rows
      ensures a[i] == b[i]
    {
      assert forall j :: 0 <= j < cols ==> a[i][j] == b[i][j];
    }
  }

  /** Python's normalisation of one slice bound `k` against a length:
      negative bounds count from the end, and bounds are clamped. */
  function PyBound(k: int, len: nat): (r: nat)
    ensures r <= len
    ensures 0 <= k <= len ==> r == k
    ensures k < 0 && k + len >= 0 ==> r == k + len
  {
    if k < 0 then (if k + len < 0 then 0 else k + len)
    else if k > len then len
    else k
  }

  /** `s[:k]` and `s[k:]` with Python's bound rules. */
  function PyPrefix<T>(s: seq<T>, k: int): seq<T> {
    s[..PyBound(k, |s|)]
  }

  function PySuffix<T>(s: seq<T>, k: int): seq<T> {
    s[PyBound(k, |s|)..]
  }

  /** `s[a:b]` with Python's bound rules: an empty slice when the start
      lies past the stop. */
  function PySlice<T>(s: seq<T>, a: int, b: int): (r: seq<T>)
    ensures 0 <= a <= b <= |s| ==> r == s[a..b]
    ensures 0 <= b <= a ==> r == []
  {
    var lo, hi := PyBound(a, |s|), PyBound(b, |s|);
    if lo <= hi then s[lo..hi] else []
  }

  /** Sequences without repeated elements. */
  predicate Distinct<T(==)>(s: seq<T>) {
    forall i, j :: 0 <= i < j < |s| ==> s[i] != s[j]
  }
}
