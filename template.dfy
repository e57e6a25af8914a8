/** The placeholder substitution of capyle/guicomponents/newcawindow.py:
    `replace` splices a replacement over the occurrences of a placeholder
    at given positions, shifting every later position by the change in
    length made so far; the positions come from scanning the template for
    the placeholder (`re.finditer` with a literal pattern). */
module Template {
  import opened Common

  /** The first n positions of idx start ascending, non-overlapping spans
      of length len inside a string of length m: the last of them ends by
      m, and the others are well placed before it starts. */
  predicate WellPlaced(idx: seq<int>, len: nat, n: nat, m: int)
    requires n <= |idx|
    decreases n
  {
    n == 0 ||
    (0 <= idx[n - 1] && idx[n - 1] + len <= m && WellPlaced(idx, len, n - 1, idx[n - 1]))
  }

  /** Every span of a well-placed list lies inside the string, and the
      spans come in order without overlapping. */
  lemma {:induction false} WellPlacedSpans(idx: seq<int>, len: nat, n: nat, m: int)
    requires n <= |idx| && WellPlaced(idx, len, n, m)
    ensures forall k :: 0 <= k < n ==> 0 <= idx[k] && idx[k] + len <= m
    ensures forall k, k' :: 0 <= k < k' < n ==> idx[k] + len <= idx[k']
    decreases n
  {
    if n > 0 {
      WellPlacedSpans(idx, len, n - 1, idx[n - 1]);
    }
  }

  /** A list well placed in a shorter string is well placed in a longer. */
  lemma WellPlacedWider(idx: seq<int>, len: nat, n: nat, m: int, m': int)
    requires n <= |idx| && WellPlaced(idx, len, n, m) && m <= m'
    ensures WellPlaced(idx, len, n, m')
  {
  }

  /** The first k positions of a well-placed list are well placed. */
  lemma {:induction false} WellPlacedShorter(idx: seq<int>, len: nat, n: nat, k: nat, m: int)
    requires k <= n <= |idx| && WellPlaced(idx, len, n, m)
    ensures WellPlaced(idx, len, k, m)
    decreases n
  {
    if k < n {
      WellPlacedShorter(idx, len, n - 1, k, idx[n - 1]);
      WellPlacedWider(idx, len, k, idx[n - 1], m);
    }
  }

  /** A span placed before a well-placed list extends it. */
  lemma {:induction false} WellPlacedCons(i: int, rest: seq<int>, len: nat, n: nat, m: int)
    requires n <= |rest| && WellPlaced(rest, len, n, m) && 0 <= i
    requires if n == 0 then i + len <= m else i + len <= rest[0]
    ensures WellPlaced([i] + rest, len, n + 1, m)
    decreases n
  {
    var idx := [i] + rest;
    if n > 0 {
      WellPlacedCons(i, rest, len, n - 1, rest[n - 1]);
    }
  }

  /** k times d, by repeated addition: where the k-th replacement lands
      after k earlier ones each changed the length by d. */
  function Shift(k: nat, d: int): int {
    if k == 0 then 0 else Shift(k - 1, d) + d
  }

  lemma {:induction false} ShiftIsProduct(k: nat, d: int)
    ensures Shift(k, d) == k * d
  {
    if k > 0 {
      ShiftIsProduct(k - 1, d);
      assert k * d == (k - 1) * d + d;
    }
  }

  /** The intended result, independent of offsets: the string cut at the
      first n spans, with the replacement put between the pieces. */
  function Spliced(s: string, len: nat, rw: string, idx: seq<int>, n: nat): string
    requires n <= |idx| && WellPlaced(idx, len, n, |s|)
    decreases n
  {
    if n == 0 then s
    else Spliced(s[..idx[n - 1]], len, rw, idx, n - 1) + rw + s[idx[n - 1] + len..]
  }

  lemma {:induction false} SplicedLength(s: string, len: nat, rw: string, idx: seq<int>, n: nat)
    requires n <= |idx| && WellPlaced(idx, len, n, |s|)
    ensures |Spliced(s, len, rw, idx, n)| == |s| + Shift(n, |rw| - len)
    decreases n
  {
    if n > 0 {
      SplicedLength(s[..idx[n - 1]], len, rw, idx, n - 1);
    }
  }

  /** Each replacement changes the length by |rw| - len. */
  lemma SplicedSize(s: string, len: nat, rw: string, idx: seq<int>, n: nat)
    requires n <= |idx| && WellPlaced(idx, len, n, |s|)
    ensures |Spliced(s, len, rw, idx, n)| == |s| + n * (|rw| - len)
  {
    SplicedLength(s, len, rw, idx, n);
    ShiftIsProduct(n, |rw| - len);
  }

  /** Splicing does not look past the last span. */
  lemma SplicedPrefix(s: string, len: nat, rw: string, idx: seq<int>, n: nat, m: nat)
    requires n <= |idx| && m <= |s| && WellPlaced(idx, len, n, m)
    ensures WellPlaced(idx, len, n, |s|)
    ensures Spliced(s, len, rw, idx, n) == Spliced(s[..m], len, rw, idx, n) + s[m..]
  {
    WellPlacedWider(idx, len, n, m, |s|);
    if n > 0 {
      var last := idx[n - 1];
      assert s[..m][..last] == s[..last];
      assert s[..m][last + len..] + s[m..] == s[last + len..];
    }
  }

  lemma SliceLeft(a: string, b: string, c: string, lo: int, hi: int)
    requires 0 <= lo <= hi <= |a|
    ensures (a + b + c)[lo..hi] == a[lo..hi]
  {
  }

  /** The last span of a splice. */
  lemma SplicedUnfold(s: string, len: nat, rw: string, idx: seq<int>, n: nat)
    requires 0 < n <= |idx| && WellPlaced(idx, len, n, |s|)
    ensures 0 <= idx[n - 1] && idx[n - 1] + len <= |s|
    ensures WellPlaced(idx, len, n - 1, |s[..idx[n - 1]]|)
    ensures Spliced(s, len, rw, idx, n) == Spliced(s[..idx[n - 1]], len, rw, idx, n - 1) + rw + s[idx[n - 1] + len..]
  {
    assert |s[..idx[n - 1]]| == idx[n - 1];
  }

  /** Taking off the last span: the rest are well placed in the text
      before it. */
  lemma WellPlacedLast(s: string, len: nat, idx: seq<int>, n: nat)
    requires 0 < n <= |idx| && WellPlaced(idx, len, n, |s|)
    ensures 0 <= idx[n - 1] && idx[n - 1] + len <= |s|
    ensures WellPlaced(idx, len, n - 1, |s[..idx[n - 1]]|)
  {
    assert |s[..idx[n - 1]]| == idx[n - 1];
  }

  /** Cutting a prefix a followed by the rest of s from last on, right
      after a, puts the replacement over the first len characters after
      last. */
  lemma PieceAfter(a: string, s: string, last: nat, at: int, rw: string, len: nat)
    requires last + len <= |s| && at == |a|
    ensures (a + s[last..])[..at] + rw + (a + s[last..])[at + len..] == a + rw + s[last + len..]
  {
    var w := a + s[last..];
    assert w[..|a|] == a;
    assert w[|a| + len..] == s[last + len..];
  }

  /** One more iteration of replace extends the splice by one span: the
      text cut around the next span, with the replacement between. */
  lemma SpliceStep(s: string, len: nat, rw: string, idx: seq<int>, n: nat)
    requires 0 < n <= |idx| && WellPlaced(idx, len, n, |s|)
    ensures WellPlaced(idx, len, n - 1, |s|)
    ensures 0 <= idx[n - 1] + Shift(n - 1, |rw| - len)
    ensures idx[n - 1] + Shift(n - 1, |rw| - len) + len <= |Spliced(s, len, rw, idx, n - 1)|
    ensures Spliced(s, len, rw, idx, n - 1)[..idx[n - 1] + Shift(n - 1, |rw| - len)] + rw
          + Spliced(s, len, rw, idx, n - 1)[idx[n - 1] + Shift(n - 1, |rw| - len) + len..]
         == Spliced(s, len, rw, idx, n)
  {
    var last := idx[n - 1];
    SplicedUnfold(s, len, rw, idx, n);
    SplicedPrefix(s, len, rw, idx, n - 1, last);
    assert |s[..last]| == last;
    SplicedLength(s[..last], len, rw, idx, n - 1);
    PieceAfter(Spliced(s[..last], len, rw, idx, n - 1), s, last, last + Shift(n - 1, |rw| - len), rw, len);
  }

  /** The text before the first span is kept. */
  lemma {:induction false} PrefixKept(s: string, len: nat, rw: string, idx: seq<int>, n: nat)
    requires n <= |idx| && WellPlaced(idx, len, n, |s|) && n > 0
    ensures 0 <= idx[0] <= |s| && idx[0] <= |Spliced(s, len, rw, idx, n)|
    ensures Spliced(s, len, rw, idx, n)[..idx[0]] == s[..idx[0]]
    decreases n
  {
    WellPlacedSpans(idx, len, n, |s|);
    var last := idx[n - 1];
    WellPlacedLast(s, len, idx, n);
    var u := s[..last];
    var a := Spliced(u, len, rw, idx, n - 1);
    var t := s[last + len..];
    assert Spliced(s, len, rw, idx, n) == a + rw + t;
    if n > 1 {
      PrefixKept(u, len, rw, idx, n - 1);
      assert u[..idx[0]] == s[..idx[0]];
      assert (a + rw + t)[..idx[0]] == a[..idx[0]];
    } else {
      assert a == u;
    }
  }

  /** The k-th replacement starts at idx[k] + k * (|rw| - len). */
  lemma {:induction false} ReplacementAt(s: string, len: nat, rw: string, idx: seq<int>, n: nat, k: nat)
    requires n <= |idx| && WellPlaced(idx, len, n, |s|) && k < n
    ensures 0 <= idx[k] + Shift(k, |rw| - len)
    ensures idx[k] + Shift(k, |rw| - len) + |rw| <= |Spliced(s, len, rw, idx, n)|
    ensures Spliced(s, len, rw, idx, n)[idx[k] + Shift(k, |rw| - len)..idx[k] + Shift(k, |rw| - len) + |rw|] == rw
    decreases n
  {
    var last := idx[n - 1];
    WellPlacedLast(s, len, idx, n);
    var u := s[..last];
    var a := Spliced(u, len, rw, idx, n - 1);
    var t := s[last + len..];
    assert Spliced(s, len, rw, idx, n) == a + rw + t;
    SplicedLength(u, len, rw, idx, n - 1);
    var at := idx[k] + Shift(k, |rw| - len);
    if k < n - 1 {
      ReplacementAt(u, len, rw, idx, n - 1, k);
      assert (a + rw + t)[at..at + |rw|] == a[at..at + |rw|];
    } else {
      assert at == |a|;
      assert (a + rw + t)[|a|..|a| + |rw|] == rw;
    }
  }

  /** The text between the last two spans is kept, shifted. */
  lemma GapLast(s: string, len: nat, rw: string, idx: seq<int>, n: nat, k: nat)
    requires n <= |idx| && WellPlaced(idx, len, n, |s|) && k + 1 == n - 1
    ensures 0 <= idx[k] + Shift(k, |rw| - len) + |rw| <= idx[k + 1] + Shift(k + 1, |rw| - len)
    ensures idx[k + 1] + Shift(k + 1, |rw| - len) <= |Spliced(s, len, rw, idx, n)|
    ensures 0 <= idx[k] && idx[k] + len <= idx[k + 1] <= |s|
    ensures Spliced(s, len, rw, idx, n)[idx[k] + Shift(k, |rw| - len) + |rw|..idx[k + 1] + Shift(k + 1, |rw| - len)]
         == s[idx[k] + len..idx[k + 1]]
  {
    var last := idx[n - 1];
    SplicedUnfold(s, len, rw, idx, n);
    var u := s[..last];
    assert |u| == last;
    SplicedLength(u, len, rw, idx, n - 1);
    var a := Spliced(u, len, rw, idx, n - 1);
    SplicedUnfold(u, len, rw, idx, k + 1);
    var v := u[..idx[k]];
    assert |v| == idx[k];
    SplicedLength(v, len, rw, idx, k);
    var b := Spliced(v, len, rw, idx, k);
    var lo, hi := |b| + |rw|, |a|;
    SliceLeft(a, rw, s[last + len..], lo, hi);
    var g := u[idx[k] + len..];
    assert a[lo..hi] == g by {
      SliceRight(b, rw, g);
    }
    assert g == s[idx[k] + len..last];
  }

  lemma SliceRight(a: string, b: string, c: string)
    ensures (a + b + c)[|a| + |b|..] == c
  {
  }

  /** The text between the k-th and the next span is kept, shifted. */
  lemma {:induction false} GapKept(s: string, len: nat, rw: string, idx: seq<int>, n: nat, k: nat)
    requires n <= |idx| && WellPlaced(idx, len, n, |s|) && k + 1 < n
    ensures 0 <= idx[k] + Shift(k, |rw| - len) + |rw| <= idx[k + 1] + Shift(k + 1, |rw| - len)
    ensures idx[k + 1] + Shift(k + 1, |rw| - len) <= |Spliced(s, len, rw, idx, n)|
    ensures 0 <= idx[k] && idx[k] + len <= idx[k + 1] <= |s|
    ensures Spliced(s, len, rw, idx, n)[idx[k] + Shift(k, |rw| - len) + |rw|..idx[k + 1] + Shift(k + 1, |rw| - len)]
         == s[idx[k] + len..idx[k + 1]]
    decreases n
  {
    if k + 1 == n - 1 {
      GapLast(s, len, rw, idx, n, k);
    } else {
      var last := idx[n - 1];
      SplicedUnfold(s, len, rw, idx, n);
      GapKept(s[..last], len, rw, idx, n - 1, k);
      GapStep(Spliced(s, len, rw, idx, n), Spliced(s[..last], len, rw, idx, n - 1), rw, s[last + len..], s, last,
        idx[k] + Shift(k, |rw| - len) + |rw|, idx[k + 1] + Shift(k + 1, |rw| - len), idx[k] + len, idx[k + 1]);
    }
  }

  /** A slice inside the head of a concatenation, whose head keeps a
      slice of a prefix of s, keeps that slice of s. */
  lemma GapStep(x: string, a: string, rw: string, t: string, s: string, last: nat, lo: int, hi: int, p: int, q: int)
    requires x == a + rw + t && last <= |s|
    requires 0 <= lo <= hi <= |a| && 0 <= p <= q <= last
    requires a[lo..hi] == s[..last][p..q]
    ensures x[lo..hi] == s[p..q]
  {
    assert x[lo..hi] == a[lo..hi];
  }

  /** The text after the last span is kept. */
  lemma SuffixKept(s: string, len: nat, rw: string, idx: seq<int>, n: nat)
    requires n <= |idx| && WellPlaced(idx, len, n, |s|) && n > 0
    ensures |s| - (idx[n - 1] + len) <= |Spliced(s, len, rw, idx, n)|
    ensures Spliced(s, len, rw, idx, n)[|Spliced(s, len, rw, idx, n)| - (|s| - (idx[n - 1] + len))..]
         == s[idx[n - 1] + len..]
  {
  }

  /** Python's slices are Dafny's when their bounds are in range. */
  lemma PyCut(w: string, v: string, at: int, b: int, at': int, len: nat)
    requires w == v && at == b && 0 <= at && at' == at + len && at' <= |w|
    ensures PyPrefix(w, at) == v[..b] && PySuffix(w, at') == v[b + len..]
  {
  }

  lemma Join(r: string, p: string, q: string, rw: string, p': string, q': string, y: string)
    requires r == p + rw + q && p == p' && q == q' && p' + rw + q' == y
    ensures r == y
  {
  }

  /** One iteration of replace, with the shift i * offset of the i-th
      index written as sh, turns the first i spans into the first i + 1. */
  lemma ReplaceStep(s: string, len: nat, rw: string, idx: seq<int>, i: nat, w: string, r: string, sh: int)
    requires i < |idx| && WellPlaced(idx, len, |idx|, |s|) && WellPlaced(idx, len, i, |s|)
    requires w == Spliced(s, len, rw, idx, i) && sh == Shift(i, |rw| - len)
    requires r == PyPrefix(w, idx[i] + sh) + rw + PySuffix(w, idx[i] + len + sh)
    ensures WellPlaced(idx, len, i + 1, |s|) && r == Spliced(s, len, rw, idx, i + 1)
  {
    WellPlacedShorter(idx, len, |idx|, i + 1, |s|);
    SpliceStep(s, len, rw, idx, i + 1);
    var v, b, y := Spliced(s, len, rw, idx, i), idx[i] + Shift(i, |rw| - len), Spliced(s, len, rw, idx, i + 1);
    var p, q := PyPrefix(w, idx[i] + sh), PySuffix(w, idx[i] + len + sh);
    PyCut(w, v, idx[i] + sh, b, idx[i] + len + sh, len);
    Join(r, p, q, rw, v[..b], v[b + len..], y);
  }

  /** `replace`: the i-th index is cut at index + i * offset, offset being
      the change in length one replacement makes. On well-placed indexes
      this is the splice; the empty list leaves the string as it is. */
  method Replace(s: string, toreplace: string, replacewith: string, idx: seq<int>) returns (r: string)
    ensures idx == [] ==> r == s
    ensures WellPlaced(idx, |toreplace|, |idx|, |s|) ==> r == Spliced(s, |toreplace|, replacewith, idx, |idx|)
  {
    var offset := |replacewith| - |toreplace|;
    ghost var placed := WellPlaced(idx, |toreplace|, |idx|, |s|);
    r := s;
    for i := 0 to |idx|
      invariant placed ==> WellPlaced(idx, |toreplace|, i, |s|) && r == Spliced(s, |toreplace|, replacewith, idx, i)
    {
      var header := PyPrefix(r, idx[i] + i * offset);
      var footer := PySuffix(r, idx[i] + |toreplace| + i * offset);
      ghost var w := r;
      r := header + replacewith + footer;
      if placed {
        ShiftIsProduct(i, offset);
        ReplaceStep(s, |toreplace|, replacewith, idx, i, w, r, i * offset);
      }
    }
  }

  /** Whether toreplace occurs at position p of s. */
  predicate OccursAt(s: string, toreplace: string, p: int) {
    0 <= p && p + |toreplace| <= |s| && s[p..p + |toreplace|] == toreplace
  }

  /** The start positions `re.finditer` reports for a non-empty literal
      pattern, scanning from position i: leftmost match first, the scan
      resuming after each match. */
  function FindFrom(s: string, toreplace: string, i: nat): (r: seq<int>)
    requires |toreplace| > 0 && i <= |s|
    ensures forall k :: 0 <= k < |r| ==> i <= r[k] && r[k] + |toreplace| <= |s|
    decreases |s| - i
  {
    if i + |toreplace| > |s| then []
    else if s[i..i + |toreplace|] == toreplace then [i] + FindFrom(s, toreplace, i + |toreplace|)
    else FindFrom(s, toreplace, i + 1)
  }

  /** Every reported position, at or after the start, is an occurrence,
      and the matches come in order without overlapping. */
  lemma {:induction false} FindFromSound(s: string, toreplace: string, i: nat)
    requires |toreplace| > 0 && i <= |s|
    ensures WellPlaced(FindFrom(s, toreplace, i), |toreplace|, |FindFrom(s, toreplace, i)|, |s|)
    ensures forall k :: 0 <= k < |FindFrom(s, toreplace, i)| ==>
      i <= FindFrom(s, toreplace, i)[k] && OccursAt(s, toreplace, FindFrom(s, toreplace, i)[k])
    decreases |s| - i
  {
    if i + |toreplace| <= |s| {
      var r := FindFrom(s, toreplace, i);
      if s[i..i + |toreplace|] == toreplace {
        var rest := FindFrom(s, toreplace, i + |toreplace|);
        assert r == [i] + rest;
        FindFromSound(s, toreplace, i + |toreplace|);
        WellPlacedCons(i, rest, |toreplace|, |rest|, |s|);
        assert OccursAt(s, toreplace, r[0]);
        forall k | 1 <= k < |r|
          ensures i <= r[k] && OccursAt(s, toreplace, r[k])
        {
          assert r[k] == rest[k - 1];
        }
      } else {
        assert r == FindFrom(s, toreplace, i + 1);
        FindFromSound(s, toreplace, i + 1);
      }
    }
  }

  /** No occurrence is missed: each one at or after the scan's start is
      covered by a reported match that starts at or before it. */
  lemma {:induction false} FindFromComplete(s: string, toreplace: string, i: nat, p: int)
    requires |toreplace| > 0 && i <= |s|
    requires i <= p && OccursAt(s, toreplace, p)
    ensures exists k :: 0 <= k < |FindFrom(s, toreplace, i)| &&
                        FindFrom(s, toreplace, i)[k] <= p < FindFrom(s, toreplace, i)[k] + |toreplace|
    decreases |s| - i
  {
    var r := FindFrom(s, toreplace, i);
    if s[i..i + |toreplace|] == toreplace {
      var rest := FindFrom(s, toreplace, i + |toreplace|);
      assert r == [i] + rest;
      if p < i + |toreplace| {
        assert r[0] <= p < r[0] + |toreplace|;
      } else {
        FindFromComplete(s, toreplace, i + |toreplace|, p);
        var k :| 0 <= k < |rest| && rest[k] <= p < rest[k] + |toreplace|;
        assert r[k + 1] == rest[k];
      }
    } else {
      assert r == FindFrom(s, toreplace, i + 1);
      FindFromComplete(s, toreplace, i + 1, p);
    }
  }

  /** re.finditer over the whole template: the occurrences it reports,
      in order and without overlap. */
  function FindAll(s: string, toreplace: string): (r: seq<int>)
    requires |toreplace| > 0
    ensures WellPlaced(r, |toreplace|, |r|, |s|)
    ensures forall k :: 0 <= k < |r| ==> OccursAt(s, toreplace, r[k])
  {
    FindFromSound(s, toreplace, 0);
    FindFrom(s, toreplace, 0)
  }

  /** The substitution save performs for one placeholder: every occurrence
      the scan finds is replaced, and the result is the template cut at
      those occurrences with the replacement between the pieces. */
  method Substitute(template: string, toreplace: string, replacewith: string) returns (r: string)
    requires |toreplace| > 0
    ensures WellPlaced(FindAll(template, toreplace), |toreplace|, |FindAll(template, toreplace)|, |template|)
    ensures r == Spliced(template, |toreplace|, replacewith, FindAll(template, toreplace), |FindAll(template, toreplace)|)
  {
    var idx := FindAll(template, toreplace);
    FindFromSound(template, toreplace, 0);
    r := Replace(template, toreplace, replacewith, idx);
  }
}
