/** The helpers of capyle/utils.py that the engine and the rule files use:
    clipping, generation counts and 1-D grid sizes, rescaling a 2-D array,
    the 8-bit encoding of a rule number, file-name cleaning and the states
    seen in a timeline. */
module Utils {
  import opened Common

  // ---------------------------------------------------------------------
  // clip_numeric, verify_gens, gens_to_dims

  /** clip_numeric: the upper bound is tested first, so for an empty range
      (lo > hi) every value above hi still gives hi. */
  function ClipNumeric(i: real, lo: real, hi: real): (r: real)
    ensures i > hi ==> r == hi
    ensures i <= hi && i < lo ==> r == lo
    ensures lo <= hi ==> lo <= r <= hi
  {
    if i > hi then hi
    else if i < lo then lo
    else i
  }

  /** Clipping into a non-empty range leaves values already inside it alone,
      so clipping twice is clipping once. */
  lemma ClipIdempotent(i: real, lo: real, hi: real)
    requires lo <= hi
    ensures ClipNumeric(ClipNumeric(i, lo, hi), lo, hi) == ClipNumeric(i, lo, hi)
    ensures lo <= i <= hi ==> ClipNumeric(i, lo, hi) == i
  {
  }

  /** verify_gens: a generation count below 1 is replaced by 1. */
  function VerifyGens(n: int): (r: int)
    ensures r >= 1
    ensures n >= 1 ==> r == n
    ensures n < 1 ==> r == 1
  {
    if n < 1 then 1 else n
  }

  /** gens_to_dims: a 1-D run of g generations is drawn as g + 1 rows of
      2g + 1 cells. */
  function GensToDims(g: int): (d: (int, int))
    ensures d.0 == g + 1
    ensures d.1 == 2 * d.0 - 1
  {
    (g + 1, g * 2 + 1)
  }

  /** The width is what a single seed in the middle of row 0 needs: after
      the last generation its light cone (one cell per generation on each
      side) spans exactly the columns 0 .. width - 1. */
  lemma LightConeFits(g: nat)
    ensures var (rows, cols) := GensToDims(g);
      var centre := g;
      centre - (rows - 1) == 0 && centre + (rows - 1) == cols - 1
  {
  }

  // ---------------------------------------------------------------------
  // scale_array

  /** Two arrays agree on their top-left rows x cols block. */
  ghost predicate AgreeTopLeft(a: Matrix, b: Matrix, rows: nat, cols: nat) {
    rows <= |a| && rows <= |b| &&
    (forall i :: 0 <= i < rows ==> cols <= |a[i]| && cols <= |b[i]|) &&
    forall i, j :: 0 <= i < rows && 0 <= j < cols ==> a[i][j] == b[i][j]
  }

  /** scale_array: a fresh newRows x newCols array whose overlap with `src`
      (top-left aligned) is copied from `src`. Cells outside the overlap come
      from `np.empty` and are left unconstrained. */
  method ScaleArray(src: array2<int>, newRows: nat, newCols: nat) returns (r: array2<int>)
    ensures fresh(r)
    ensures r.Length0 == newRows && r.Length1 == newCols
    ensures forall i, j :: 0 <= i < Min(src.Length0, newRows) && 0 <= j < Min(src.Length1, newCols) ==>
      r[i, j] == src[i, j]
  {
    r := new int[newRows, newCols];
    var copyRows := if src.Length0 < newRows then src.Length0 else newRows;
    var copyCols := if src.Length1 < newCols then src.Length1 else newCols;
    for i := 0 to copyRows
      invariant forall i', j :: 0 <= i' < i && 0 <= j < copyCols ==> r[i', j] == src[i', j]
    {
      for j := 0 to copyCols
        invariant forall i', j' :: 0 <= i' < i && 0 <= j' < copyCols ==> r[i', j'] == src[i', j']
        invariant forall j' :: 0 <= j' < j ==> r[i, j'] == src[i, j']
      {
        r[i, j] := src[i, j];
      }
    }
  }

  /** Round trip: scaling to r x c and back to the original shape recovers
      the original on the block both shapes share. */
  lemma ScaleRoundTrip(orig: Matrix, mid: Matrix, back: Matrix, rows: nat, cols: nat, r: nat, c: nat)
    requires IsMatrix(orig, rows, cols) && IsMatrix(mid, r, c) && IsMatrix(back, rows, cols)
    requires AgreeTopLeft(mid, orig, Min(rows, r), Min(cols, c))
    requires AgreeTopLeft(back, mid, Min(r, rows), Min(c, cols))
    ensures AgreeTopLeft(back, orig, Min(rows, r), Min(cols, c))
  {
  }

  /** `np.copy` of a 2-D array. */
  method Copy(src: array2<int>) returns (r: array2<int>)
    ensures fresh(r)
    ensures r.Length0 == src.Length0 && r.Length1 == src.Length1
    ensures Snapshot(r) == Snapshot(src)
  {
    r := ScaleArray(src, src.Length0, src.Length1);
    MatrixEq(Snapshot(r), Snapshot(src), src.Length0, src.Length1);
  }

  // ---------------------------------------------------------------------
  // int_to_binary

  function Pow2(n: nat): (p: nat)
    ensures p >= 1
  {
    if n == 0 then 1 else 2 * Pow2(n - 1)
  }

  /** Python's `int()` of a number: truncation toward zero. */
  function Trunc(x: real): int {
    if x >= 0.0 then x.Floor else -((-x).Floor)
  }

  /** The value of a bit string written most significant bit first. */
  function BitsValue(b: seq<int>): int {
    if b == [] then 0 else BitsValue(b[..|b| - 1]) * 2 + b[|b| - 1]
  }

  /** The n low bits of c, most significant first (what `bin` prints,
      padded with zeros to n places). */
  function Bits(c: nat, n: nat): (b: seq<int>)
    ensures |b| == n
  {
    seq(n, k requires 0 <= k < n => (c / Pow2(n - 1 - k)) % 2)
  }

  lemma {:induction false} MulAtLeast(d: int, e: int)
    requires d > 0 && e >= 1
    ensures d * e >= d
  {
    if e > 1 {
      MulAtLeast(d, e - 1);
      assert d * e == d * (e - 1) + d;
    }
  }

  /** Euclidean division is the unique quotient/remainder pair. */
  lemma DivModUnique(a: int, d: int, q: int, r: int)
    requires d > 0 && 0 <= r < d && a == d * q + r
    ensures a / d == q && a % d == r
  {
    var q', r' := a / d, a % d;
    assert d * q' + r' == d * q + r;
    if q' > q {
      assert d * (q' - q) == r - r';
      MulAtLeast(d, q' - q);
    } else if q' < q {
      assert d * (q - q') == r' - r;
      MulAtLeast(d, q - q');
    }
  }

  /** Halving then dividing by p is dividing by 2p, and the remainder
      modulo 2p is rebuilt from the two remainders. */
  lemma HalveDivMod(c: nat, p: nat)
    requires p >= 1
    ensures c / (2 * p) == (c / 2) / p
    ensures c % (2 * p) == ((c / 2) % p) * 2 + c % 2
  {
    var q, r2, r1 := (c / 2) / p, (c / 2) % p, c % 2;
    assert c / 2 == p * q + r2;
    assert c == 2 * (c / 2) + r1;
    assert c == (2 * p) * q + (r2 * 2 + r1);
    DivModUnique(c, 2 * p, q, r2 * 2 + r1);
  }

  /** Dropping the last of the n low bits of c leaves the n - 1 low bits
      of c / 2. */
  lemma BitsPrefix(c: nat, n: nat)
    requires n >= 1
    ensures Bits(c, n)[..n - 1] == Bits(c / 2, n - 1)
  {
    var b := Bits(c, n);
    forall k | 0 <= k < n - 1
      ensures b[k] == Bits(c / 2, n - 1)[k]
    {
      assert Pow2(n - 1 - k) == 2 * Pow2(n - 2 - k);
      HalveDivMod(c, Pow2(n - 2 - k));
    }
  }

  lemma {:induction false} BitsValueIsLowBits(c: nat, n: nat)
    ensures BitsValue(Bits(c, n)) == c % Pow2(n)
  {
    if n == 0 {
      assert Bits(c, 0) == [];
    } else {
      var b := Bits(c, n);
      BitsPrefix(c, n);
      assert Pow2(0) == 1;
      assert b[n - 1] == c % 2;
      BitsValueIsLowBits(c / 2, n - 1);
      HalveDivMod(c, Pow2(n - 1));
    }
  }

  lemma Pow2Byte()
    ensures Pow2(0) == 1 && Pow2(1) == 2 && Pow2(2) == 4 && Pow2(3) == 8 && Pow2(4) == 16
    ensures Pow2(5) == 32 && Pow2(6) == 64 && Pow2(7) == 128 && Pow2(8) == 256
  {
  }

  /** The eight bits of a byte value spell it out; 0 and 255 are all
      zeros and all ones. */
  lemma ByteBits(c: nat)
    requires c <= 255
    ensures BitsValue(Bits(c, 8)) == c
    ensures c == 0 ==> Bits(c, 8) == [0, 0, 0, 0, 0, 0, 0, 0]
    ensures c == 255 ==> Bits(c, 8) == [1, 1, 1, 1, 1, 1, 1, 1]
  {
    BitsValueIsLowBits(c, 8);
    Pow2Byte();
  }

  /** int_to_binary: eight bits, most significant first, of n truncated to
      an integer and clipped to 0..255. Bit k has weight 2^(7-k). */
  function IntToBinary(n: real): (bits: seq<int>)
    ensures |bits| == 8
    ensures forall k :: 0 <= k < 8 ==> bits[k] == 0 || bits[k] == 1
    ensures BitsValue(bits) == ClipNumeric(Trunc(n) as real, 0.0, 255.0).Floor
    ensures Trunc(n) < 0 ==> forall k :: 0 <= k < 8 ==> bits[k] == 0
    ensures Trunc(n) > 255 ==> forall k :: 0 <= k < 8 ==> bits[k] == 1
  {
    var c := ClipNumeric(Trunc(n) as real, 0.0, 255.0).Floor;
    ByteBits(c);
    Bits(c, 8)
  }

  /** Bit k of the encoding is bit 7 - k of the clipped number. */
  lemma IntToBinaryBit(n: real, p: nat)
    requires p < 8
    ensures IntToBinary(n)[7 - p] == (ClipNumeric(Trunc(n) as real, 0.0, 255.0).Floor / Pow2(p)) % 2
  {
  }

  // ---------------------------------------------------------------------
  // title_to_filename

  const Disallowed: seq<char> := ['"', '.', '>', '<', ':', '|', '/', '\\', '*', '?']

  /** Python's `str.replace` for a one-character pattern. */
  function ReplaceChar(s: string, c: char, w: string): (r: string)
    ensures c !in w ==> c !in r
  {
    if s == [] then [] else (if s[0] == c then w else [s[0]]) + ReplaceChar(s[1..], c, w)
  }

  lemma {:induction false} ReplaceCharConcat(a: string, b: string, c: char, w: string)
    ensures ReplaceChar(a + b, c, w) == ReplaceChar(a, c, w) + ReplaceChar(b, c, w)
  {
    if a == [] {
      assert a + b == b;
    } else {
      assert (a + b)[0] == a[0];
      assert (a + b)[1..] == a[1..] + b;
      ReplaceCharConcat(a[1..], b, c, w);
    }
  }

  /** What one title character becomes once spaces are replaced and the
      characters of `removed` are deleted. */
  function CleanChar(x: char, removed: seq<char>): string {
    if x == ' ' then "_" else if x in removed then "" else [x]
  }

  /** The title with every character cleaned, in their original order. */
  function Cleaned(s: string, removed: seq<char>): (r: string)
    ensures |r| <= |s|
    ensures ' ' !in r
  {
    if s == [] then [] else CleanChar(s[0], removed) + Cleaned(s[1..], removed)
  }

  lemma {:induction false} SpacesReplaced(s: string)
    ensures ReplaceChar(s, ' ', "_") == Cleaned(s, [])
  {
    if s != [] {
      SpacesReplaced(s[1..]);
    }
  }

  lemma {:induction false} RemoveOneMore(s: string, removed: seq<char>, c: char)
    requires c != '_' && c != ' '
    ensures ReplaceChar(Cleaned(s, removed), c, "") == Cleaned(s, removed + [c])
  {
    if s != [] {
      ReplaceCharConcat(CleanChar(s[0], removed), Cleaned(s[1..], removed), c, "");
      RemoveOneMore(s[1..], removed, c);
    }
  }

  /** title_to_filename: spaces become underscores, then each disallowed
      character is deleted in turn. */
  method TitleToFilename(s: string) returns (r: string)
    ensures r == Cleaned(s, Disallowed)
  {
    r := ReplaceChar(s, ' ', "_");
    SpacesReplaced(s);
    for k := 0 to |Disallowed|
      invariant r == Cleaned(s, Disallowed[..k])
    {
      RemoveOneMore(s, Disallowed[..k], Disallowed[k]);
      assert Disallowed[..k + 1] == Disallowed[..k] + [Disallowed[k]];
      r := ReplaceChar(r, Disallowed[k], "");
    }
    assert Disallowed[..|Disallowed|] == Disallowed;
  }

  /** A cleaned name has no spaces and no disallowed character, and every
      character of it is an underscore or comes from the title. */
  lemma {:induction false} CleanedIsSafe(s: string)
    ensures forall x :: x in Cleaned(s, Disallowed) ==> x != ' ' && x !in Disallowed
    ensures forall x :: x in Cleaned(s, Disallowed) ==> x == '_' || x in s
    ensures |Cleaned(s, Disallowed)| <= |s|
  {
    if s != [] {
      CleanedIsSafe(s[1..]);
    }
  }

  /** Characters that are neither spaces nor disallowed pass through in order. */
  lemma {:induction false} CleanedKeepsOthers(s: string)
    requires forall k :: 0 <= k < |s| ==> s[k] != ' ' && s[k] !in Disallowed
    ensures Cleaned(s, Disallowed) == s
  {
    if s != [] {
      CleanedKeepsOthers(s[1..]);
    }
  }

  // ---------------------------------------------------------------------
  // extract_states

  predicate StrictlyIncreasing(s: seq<int>) {
    forall i, j :: 0 <= i < j < |s| ==> s[i] < s[j]
  }

  /** Insert v into a strictly increasing sequence (no duplicates). */
  function Insert(s: seq<int>, v: int): (r: seq<int>)
    requires StrictlyIncreasing(s)
    ensures StrictlyIncreasing(r)
    ensures forall x :: x in r <==> x in s || x == v
  {
    if s == [] then [v]
    else if v < s[0] then [v] + s
    else if v == s[0] then s
    else
      var rest := Insert(s[1..], v);
      assert forall x :: x in rest ==> s[0] < x;
      assert forall j :: 0 < j < |[s[0]] + rest| ==> ([s[0]] + rest)[j] == rest[j - 1];
      [s[0]] + rest
  }

  /** `np.unique`: the distinct values of s, in increasing order. */
  function Unique(s: seq<int>): (r: seq<int>)
    ensures StrictlyIncreasing(r)
    ensures forall x :: x in r <==> x in s
  {
    if s == [] then [] else Insert(Unique(s[..|s| - 1]), s[|s| - 1])
  }

  /** x is a cell of m. */
  ghost predicate Occurs(m: Matrix, x: int) {
    exists i, j :: 0 <= i < |m| && 0 <= j < |m[i]| && m[i][j] == x
  }

  lemma OccursSplit(m: Matrix)
    requires m != []
    ensures forall x :: Occurs(m, x) <==> x in m[0] || Occurs(m[1..], x)
  {
    forall x | Occurs(m, x)
      ensures x in m[0] || Occurs(m[1..], x)
    {
      var i, j :| 0 <= i < |m| && 0 <= j < |m[i]| && m[i][j] == x;
      if i > 0 {
        assert m[1..][i - 1][j] == x;
      }
    }
    forall x | Occurs(m[1..], x)
      ensures Occurs(m, x)
    {
      var i, j :| 0 <= i < |m[1..]| && 0 <= j < |m[1..][i]| && m[1..][i][j] == x;
      assert m[i + 1][j] == x;
    }
    forall x | x in m[0]
      ensures Occurs(m, x)
    {
      var j :| 0 <= j < |m[0]| && m[0][j] == x;
      assert m[0][j] == x;
    }
  }

  /** numpy's row-major flattening of a 2-D array. */
  function Flatten(m: Matrix): (r: seq<int>)
    ensures forall x :: x in r <==> Occurs(m, x)
  {
    if m == [] then []
    else
      OccursSplit(m);
      m[0] + Flatten(m[1..])
  }

  /** x occurs somewhere in snapshot t of the timeline. */
  ghost predicate InSnapshot(timeline: seq<Matrix>, t: int, x: int) {
    0 <= t < |timeline| && Occurs(timeline[t], x)
  }

  /** extract_states: the sorted distinct values found anywhere in the
      timeline. */
  method ExtractStates(timeline: seq<Matrix>) returns (vals: seq<int>)
    ensures StrictlyIncreasing(vals)
    ensures forall x :: x in vals <==> exists t :: InSnapshot(timeline, t, x)
  {
    var uniques: seq<int> := [];
    for t := 0 to |timeline|
      invariant forall x :: x in uniques <==> exists t' :: 0 <= t' < t && InSnapshot(timeline, t', x)
    {
      var u := Unique(Flatten(timeline[t]));
      forall x
        ensures x in uniques + u <==> exists t' :: 0 <= t' < t + 1 && InSnapshot(timeline, t', x)
      {
        if InSnapshot(timeline, t, x) {
          assert x in u;
        }
      }
      uniques := uniques + u;
    }
    vals := Unique(uniques);
  }
}
