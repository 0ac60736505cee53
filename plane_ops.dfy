/**
 * Byte-plane operations of the picture buffer: the memcpy of one run of
 * samples, the row-by-row copy of a w×h window between planes with different
 * row pitches, and the memset of a whole plane.
 */
module PlaneOps {
  import opened Util
  import opened BlockCost

  /** The n samples of s starting at i (empty when n is 0). */
  function Run(s: seq<UInt8>, i: int, n: int): (run: seq<UInt8>)
    requires RunIn(s, i, n)
    ensures |run| == n
    ensures forall j | 0 <= j < n :: run[j] == s[i + j]
  {
    if n == 0 then [] else s[i..i + n]
  }

  /** d with the samples at k .. k+|run| replaced by run. */
  function Splice(d: seq<UInt8>, k: int, run: seq<UInt8>): (r: seq<UInt8>)
    requires RunIn(d, k, |run|)
    ensures |r| == |d|
    ensures forall i | 0 <= i < |d| :: r[i] == if k <= i < k + |run| then run[i - k] else d[i]
  {
    if |run| == 0 then d else d[..k] + run + d[k + |run|..]
  }

  /**
   * The destination plane d after its first h rows (row pitch dstride) have
   * received the first w samples of the matching rows of s (row pitch sstride).
   */
  function CopyRows(d: seq<UInt8>, dstride: int, s: seq<UInt8>, sstride: int, w: int, h: int): (r: seq<UInt8>)
    requires WindowIn(d, 0, dstride, w, h) && WindowIn(s, 0, sstride, w, h)
    ensures |r| == |d|
    decreases h
  {
    if h == 0 then d
    else
      WindowInPrefix(d, 0, dstride, w, h, h - 1);
      WindowInPrefix(s, 0, sstride, w, h, h - 1);
      WindowRow(d, 0, dstride, w, h, h - 1);
      WindowRow(s, 0, sstride, w, h, h - 1);
      Splice(CopyRows(d, dstride, s, sstride, w, h - 1), Pos(0, dstride, h - 1, 0), Row(s, 0, sstride, w, h - 1))
  }

  /** Unfolds CopyRows by its last row. */
  lemma CopyRowsLastRow(d: seq<UInt8>, dstride: int, s: seq<UInt8>, sstride: int, w: int, h: int)
    requires WindowIn(d, 0, dstride, w, h) && WindowIn(s, 0, sstride, w, h) && h > 0
    ensures WindowIn(d, 0, dstride, w, h - 1) && WindowIn(s, 0, sstride, w, h - 1)
    ensures RunIn(d, Pos(0, dstride, h - 1, 0), w) && RunIn(s, Pos(0, sstride, h - 1, 0), w)
    ensures CopyRows(d, dstride, s, sstride, w, h)
            == Splice(CopyRows(d, dstride, s, sstride, w, h - 1), Pos(0, dstride, h - 1, 0),
                      Run(s, Pos(0, sstride, h - 1, 0), w))
  {
    WindowInPrefix(d, 0, dstride, w, h, h - 1);
    WindowInPrefix(s, 0, sstride, w, h, h - 1);
    WindowRow(d, 0, dstride, w, h, h - 1);
    WindowRow(s, 0, sstride, w, h, h - 1);
  }

  /** Position i lies in the first w samples of one of the first h rows. */
  predicate Covered(i: int, stride: int, w: int, h: int)
  {
    exists r :: 0 <= r < h && Pos(0, stride, r, 0) <= i < Pos(0, stride, r, 0) + w
  }

  /** Rows that start before row k and are no wider than the pitch end before it starts. */
  lemma RowEndsBefore(stride: int, w: int, r: int, k: int)
    requires 0 <= w <= stride && r < k
    ensures Pos(0, stride, r, 0) + w <= Pos(0, stride, k, 0)
  {
    MulLeft(r + 1, k, stride);
  }

  /** The copy leaves every sample outside the copied rows as it was. */
  lemma {:induction false} CopyRowsOutside(d: seq<UInt8>, dstride: int, s: seq<UInt8>, sstride: int,
                                           w: int, h: int)
    requires WindowIn(d, 0, dstride, w, h) && WindowIn(s, 0, sstride, w, h)
    ensures forall i | 0 <= i < |d| && !Covered(i, dstride, w, h) ::
              CopyRows(d, dstride, s, sstride, w, h)[i] == d[i]
  {
    if h > 0 {
      WindowInPrefix(d, 0, dstride, w, h, h - 1);
      WindowInPrefix(s, 0, sstride, w, h, h - 1);
      CopyRowsOutside(d, dstride, s, sstride, w, h - 1);
      forall i | 0 <= i < |d| && !Covered(i, dstride, w, h)
        ensures CopyRows(d, dstride, s, sstride, w, h)[i] == d[i]
      {
        assert !Covered(i, dstride, w, h - 1);
        assert !(Pos(0, dstride, h - 1, 0) <= i < Pos(0, dstride, h - 1, 0) + w);
      }
    }
  }

  /** Splicing at k leaves a run that ends by k as it was. */
  lemma SpliceKeepsRun(d: seq<UInt8>, k: int, run: seq<UInt8>, a: int, n: int)
    requires RunIn(d, k, |run|) && RunIn(d, a, n) && a + n <= k
    ensures RunIn(Splice(d, k, run), a, n)
    ensures Run(Splice(d, k, run), a, n) == Run(d, a, n)
  {
    assert forall j | 0 <= j < n :: Run(Splice(d, k, run), a, n)[j] == Run(d, a, n)[j];
  }

  /** Splicing at or after the end of the first h rows keeps those rows equal to the source's. */
  lemma SpliceKeepsWindow(d: seq<UInt8>, dstride: int, s: seq<UInt8>, sstride: int, w: int, h: int,
                          k: int, run: seq<UInt8>)
    requires WindowIn(d, 0, dstride, w, h) && WindowIn(s, 0, sstride, w, h) && w <= dstride
    requires RunIn(d, k, |run|) && Pos(0, dstride, h, 0) <= k
    requires SameWindow(d, 0, dstride, s, 0, sstride, w, h)
    ensures WindowIn(Splice(d, k, run), 0, dstride, w, h)
    ensures SameWindow(Splice(d, k, run), 0, dstride, s, 0, sstride, w, h)
  {
    var e := Splice(d, k, run);
    forall r | 0 <= r < h
      ensures RunIn(d, Pos(0, dstride, r, 0), w) && RunIn(e, Pos(0, dstride, r, 0), w)
      ensures Row(e, 0, dstride, w, r) == Row(d, 0, dstride, w, r)
    {
      WindowRow(d, 0, dstride, w, h, r);
      RowEndsBefore(dstride, w, r, h);
      SpliceKeepsRun(d, k, run, Pos(0, dstride, r, 0), w);
    }
  }

  /** When rows are no wider than the destination pitch, every copied row holds the source row. */
  lemma {:induction false} CopyRowsRows(d: seq<UInt8>, dstride: int, s: seq<UInt8>, sstride: int,
                                        w: int, h: int)
    requires WindowIn(d, 0, dstride, w, h) && WindowIn(s, 0, sstride, w, h) && w <= dstride
    ensures SameWindow(CopyRows(d, dstride, s, sstride, w, h), 0, dstride, s, 0, sstride, w, h)
  {
    if h > 0 {
      CopyRowsLastRow(d, dstride, s, sstride, w, h);
      var prev := CopyRows(d, dstride, s, sstride, w, h - 1);
      var k := Pos(0, dstride, h - 1, 0);
      var run := Run(s, Pos(0, sstride, h - 1, 0), w);
      var cur := Splice(prev, k, run);
      assert CopyRows(d, dstride, s, sstride, w, h) == cur;
      CopyRowsRows(d, dstride, s, sstride, w, h - 1);
      SpliceKeepsWindow(prev, dstride, s, sstride, w, h - 1, k, run);
      SameWindowLastRow(cur, 0, dstride, s, 0, sstride, w, h);
      assert Row(cur, 0, dstride, w, h - 1) == Row(s, 0, sstride, w, h - 1) by {
        assert forall j | 0 <= j < w :: Run(cur, k, w)[j] == run[j];
      }
    }
  }

  /** A byte past the first w samples of a row lies in no copied row when rows fit the pitch. */
  lemma PaddingNotCovered(stride: int, w: int, h: int, r: int, c: int)
    requires 0 <= w <= c < stride && 0 <= r < h
    ensures !Covered(Pos(0, stride, r, c), stride, w, h)
  {
    var i := Pos(0, stride, r, c);
    assert i == Pos(0, stride, r, 0) + c;
    forall q | 0 <= q < h
      ensures !(Pos(0, stride, q, 0) <= i < Pos(0, stride, q, 0) + w)
    {
      if q < r {
        RowEndsBefore(stride, w, q, r);
      } else if q > r {
        RowEndsBefore(stride, c + 1, r, q);
      }
    }
  }

  /** The bytes past the copied width of a copied row keep their old value. */
  lemma CopyRowsPadding(d: seq<UInt8>, dstride: int, s: seq<UInt8>, sstride: int,
                        w: int, h: int, r: int, c: int)
    requires WindowIn(d, 0, dstride, w, h) && WindowIn(s, 0, sstride, w, h)
    requires 0 <= r < h && w <= c < dstride && Pos(0, dstride, r, c) < |d|
    ensures CopyRows(d, dstride, s, sstride, w, h)[Pos(0, dstride, r, c)] == d[Pos(0, dstride, r, c)]
  {
    var i := Pos(0, dstride, r, c);
    PaddingNotCovered(dstride, w, h, r, c);
    CopyRowsOutside(d, dstride, s, sstride, w, h);
    assert 0 <= i < |d|;
  }

  /** memcpy of n samples from src at sOff to dst at dOff. */
  method CopyRun(dst: array<UInt8>, dOff: int, src: array<UInt8>, sOff: int, n: int)
    requires dst != src && RunIn(dst[..], dOff, n) && RunIn(src[..], sOff, n)
    modifies dst
    ensures dst[..] == Splice(old(dst[..]), dOff, Run(src[..], sOff, n))
  {
    var j := 0;
    while j < n
      invariant 0 <= j <= n
      invariant forall i | 0 <= i < dst.Length ::
                  dst[i] == if dOff <= i < dOff + j then src[sOff + i - dOff] else old(dst[i])
    {
      dst[dOff + j] := src[sOff + j];
      j := j + 1;
    }
    assert forall i | 0 <= i < dst.Length ::
             dst[..][i] == Splice(old(dst[..]), dOff, Run(src[..], sOff, n))[i];
  }

  /** The row loop of de265_copy_image over one plane: one memcpy of w samples per row. */
  method CopyPlane(dst: array<UInt8>, dstride: int, src: array<UInt8>, sstride: int, w: int, h: int)
    requires dst != src
    requires WindowIn(dst[..], 0, dstride, w, h) && WindowIn(src[..], 0, sstride, w, h)
    modifies dst
    ensures dst[..] == CopyRows(old(dst[..]), dstride, src[..], sstride, w, h)
  {
    var y := 0;
    while y < h
      invariant 0 <= y <= h
      invariant WindowIn(old(dst[..]), 0, dstride, w, y) && WindowIn(src[..], 0, sstride, w, y)
      invariant dst[..] == CopyRows(old(dst[..]), dstride, src[..], sstride, w, y)
    {
      WindowInPrefix(old(dst[..]), 0, dstride, w, h, y + 1);
      WindowInPrefix(src[..], 0, sstride, w, h, y + 1);
      CopyRowsLastRow(old(dst[..]), dstride, src[..], sstride, w, y + 1);
      CopyRun(dst, Pos(0, dstride, y, 0), src, Pos(0, sstride, y, 0), w);
      y := y + 1;
    }
  }

  /** memset of a whole plane to v. */
  method FillPlane(a: array<UInt8>, v: UInt8)
    modifies a
    ensures forall i | 0 <= i < a.Length :: a[i] == v
  {
    forall i | 0 <= i < a.Length {
      a[i] := v;
    }
  }
}
