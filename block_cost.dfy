/**
 * The block-matching cost of the motion search: the sum of absolute
 * differences (SAD) between two w×h windows of 8-bit samples, each read from
 * a flat buffer with its own row pitch (stride).
 */
module BlockCost {
  import opened Util

  /** Buffer position of sample (r, c) of a window that starts at off and has row pitch stride. */
  function Pos(off: int, stride: int, r: int, c: int): int
  {
    off + r * stride + c
  }

  /** Every sample of the w×h window at off with row pitch stride lies inside s. */
  predicate WindowIn(s: seq<UInt8>, off: int, stride: int, w: int, h: int)
  {
    && 0 <= off && 0 <= stride && 0 <= w && 0 <= h
    && (w > 0 && h > 0 ==> off + (h - 1) * stride + w <= |s|)
  }

  lemma MulLeft(a: int, b: int, k: int)
    requires a <= b && 0 <= k
    ensures a * k <= b * k
  {
    assert b * k - a * k == (b - a) * k;
  }

  /** The first k rows of a window that fits also fit. */
  lemma WindowInPrefix(s: seq<UInt8>, off: int, stride: int, w: int, h: int, k: int)
    requires WindowIn(s, off, stride, w, h) && 0 <= k <= h
    ensures WindowIn(s, off, stride, w, k)
  {
    if w > 0 && k > 0 {
      MulLeft(k - 1, h - 1, stride);
    }
  }

  /** Every position the window names is an index of s. */
  lemma WindowPos(s: seq<UInt8>, off: int, stride: int, w: int, h: int, r: int, c: int)
    requires WindowIn(s, off, stride, w, h) && 0 <= r < h && 0 <= c < w
    ensures 0 <= Pos(off, stride, r, c) < |s|
  {
    MulLeft(r, h - 1, stride);
    assert 0 <= r * stride;
  }

  lemma PosNextRow(off: int, stride: int, r: int)
    ensures Pos(off, stride, r + 1, 0) == Pos(off, stride, r, 0) + stride
  {
  }

  /** The n samples starting at i are inside s (nothing is read when n is 0). */
  predicate RunIn(s: seq<UInt8>, i: int, n: int)
  {
    0 <= n && (n > 0 ==> 0 <= i && i + n <= |s|)
  }

  /** SAD of n consecutive samples starting at i1 in p1 and at i2 in p2. */
  function RowSad(p1: seq<UInt8>, i1: int, p2: seq<UInt8>, i2: int, n: int): nat
    requires RunIn(p1, i1, n) && RunIn(p2, i2, n)
    decreases n
  {
    if n == 0 then 0
    else RowSad(p1, i1, p2, i2, n - 1) + Abs(p1[i1 + n - 1] as int - p2[i2 + n - 1] as int)
  }

  /**
   * The cost that `sad` computes: the sum over 0 <= r < h, 0 <= c < w of
   * |p1[off1 + r*stride1 + c] - p2[off2 + r*stride2 + c]|.
   */
  function Sad(p1: seq<UInt8>, off1: int, stride1: int,
               p2: seq<UInt8>, off2: int, stride2: int, w: int, h: int): nat
    requires WindowIn(p1, off1, stride1, w, h) && WindowIn(p2, off2, stride2, w, h)
    decreases h
  {
    if h == 0 then 0
    else
      WindowInPrefix(p1, off1, stride1, w, h, h - 1);
      WindowRow(p1, off1, stride1, w, h, h - 1);
      WindowRow(p2, off2, stride2, w, h, h - 1);
      WindowInPrefix(p2, off2, stride2, w, h, h - 1);
      Sad(p1, off1, stride1, p2, off2, stride2, w, h - 1)
      + RowSad(p1, Pos(off1, stride1, h - 1, 0), p2, Pos(off2, stride2, h - 1, 0), w)
  }

  /** Row r of the window at off with row pitch stride: its w samples. */
  function Row(s: seq<UInt8>, off: int, stride: int, w: int, r: int): (row: seq<UInt8>)
    requires RunIn(s, Pos(off, stride, r, 0), w)
    ensures |row| == w
  {
    if w == 0 then [] else s[Pos(off, stride, r, 0)..Pos(off, stride, r, 0) + w]
  }

  /** Each row of a window that fits is inside the buffer. */
  lemma WindowRow(s: seq<UInt8>, off: int, stride: int, w: int, h: int, r: int)
    requires WindowIn(s, off, stride, w, h) && 0 <= r < h
    ensures RunIn(s, Pos(off, stride, r, 0), w)
  {
    if w > 0 {
      WindowPos(s, off, stride, w, h, r, w - 1);
      WindowPos(s, off, stride, w, h, r, 0);
    }
  }

  /** The two w×h windows hold the same samples, row by row. */
  predicate SameWindow(p1: seq<UInt8>, off1: int, stride1: int,
                       p2: seq<UInt8>, off2: int, stride2: int, w: int, h: int)
    requires WindowIn(p1, off1, stride1, w, h) && WindowIn(p2, off2, stride2, w, h)
  {
    forall r | 0 <= r < h ::
      WindowRow(p1, off1, stride1, w, h, r);
      WindowRow(p2, off2, stride2, w, h, r);
      Row(p1, off1, stride1, w, r) == Row(p2, off2, stride2, w, r)
  }

  lemma {:induction false} RowSadZeroIff(p1: seq<UInt8>, i1: int, p2: seq<UInt8>, i2: int, n: int)
    requires n > 0 && RunIn(p1, i1, n) && RunIn(p2, i2, n)
    ensures RowSad(p1, i1, p2, i2, n) == 0 <==> p1[i1..i1 + n] == p2[i2..i2 + n]
  {
    var a, b := p1[i1..i1 + n], p2[i2..i2 + n];
    var last := p1[i1 + n - 1] == p2[i2 + n - 1];
    assert RowSad(p1, i1, p2, i2, n) == 0 <==> RowSad(p1, i1, p2, i2, n - 1) == 0 && last;
    if n > 1 {
      RowSadZeroIff(p1, i1, p2, i2, n - 1);
      assert a[..n - 1] == p1[i1..i1 + n - 1] && b[..n - 1] == p2[i2..i2 + n - 1];
      assert a == a[..n - 1] + [a[n - 1]] && b == b[..n - 1] + [b[n - 1]];
    } else {
      assert a == [p1[i1]] && b == [p2[i2]];
    }
  }

  /** SameWindow grows one row at a time. */
  lemma SameWindowLastRow(p1: seq<UInt8>, off1: int, stride1: int,
                          p2: seq<UInt8>, off2: int, stride2: int, w: int, h: int)
    requires WindowIn(p1, off1, stride1, w, h) && WindowIn(p2, off2, stride2, w, h) && h > 0
    ensures WindowIn(p1, off1, stride1, w, h - 1) && WindowIn(p2, off2, stride2, w, h - 1)
    ensures RunIn(p1, Pos(off1, stride1, h - 1, 0), w) && RunIn(p2, Pos(off2, stride2, h - 1, 0), w)
    ensures SameWindow(p1, off1, stride1, p2, off2, stride2, w, h)
            <==> SameWindow(p1, off1, stride1, p2, off2, stride2, w, h - 1)
                 && Row(p1, off1, stride1, w, h - 1) == Row(p2, off2, stride2, w, h - 1)
  {
    WindowInPrefix(p1, off1, stride1, w, h, h - 1);
    WindowInPrefix(p2, off2, stride2, w, h, h - 1);
    WindowRow(p1, off1, stride1, w, h, h - 1);
    WindowRow(p2, off2, stride2, w, h, h - 1);
  }

  /** The last row of two windows contributes no SAD exactly when the two rows are equal. */
  lemma LastRowZeroIff(p1: seq<UInt8>, off1: int, stride1: int,
                       p2: seq<UInt8>, off2: int, stride2: int, w: int, h: int)
    requires WindowIn(p1, off1, stride1, w, h) && WindowIn(p2, off2, stride2, w, h) && h > 0
    ensures RunIn(p1, Pos(off1, stride1, h - 1, 0), w) && RunIn(p2, Pos(off2, stride2, h - 1, 0), w)
    ensures RowSad(p1, Pos(off1, stride1, h - 1, 0), p2, Pos(off2, stride2, h - 1, 0), w) == 0
            <==> Row(p1, off1, stride1, w, h - 1) == Row(p2, off2, stride2, w, h - 1)
  {
    WindowRow(p1, off1, stride1, w, h, h - 1);
    WindowRow(p2, off2, stride2, w, h, h - 1);
    if w > 0 {
      RowSadZeroIff(p1, Pos(off1, stride1, h - 1, 0), p2, Pos(off2, stride2, h - 1, 0), w);
    }
  }

  /** SAD is zero exactly when the two windows are equal. */
  lemma {:induction false} SadZeroIff(p1: seq<UInt8>, off1: int, stride1: int,
                                      p2: seq<UInt8>, off2: int, stride2: int, w: int, h: int)
    requires WindowIn(p1, off1, stride1, w, h) && WindowIn(p2, off2, stride2, w, h)
    ensures Sad(p1, off1, stride1, p2, off2, stride2, w, h) == 0
            <==> SameWindow(p1, off1, stride1, p2, off2, stride2, w, h)
  {
    if h > 0 {
      SadLastRow(p1, off1, stride1, p2, off2, stride2, w, h);
      SameWindowLastRow(p1, off1, stride1, p2, off2, stride2, w, h);
      SadZeroIff(p1, off1, stride1, p2, off2, stride2, w, h - 1);
      LastRowZeroIff(p1, off1, stride1, p2, off2, stride2, w, h);
    }
  }

  lemma {:induction false} RowSadBound(p1: seq<UInt8>, i1: int, p2: seq<UInt8>, i2: int, n: int)
    requires RunIn(p1, i1, n) && RunIn(p2, i2, n)
    ensures RowSad(p1, i1, p2, i2, n) <= 255 * n
  {
    if n > 0 {
      RowSadBound(p1, i1, p2, i2, n - 1);
    }
  }

  /** Unfolds Sad by its last row. */
  lemma SadLastRow(p1: seq<UInt8>, off1: int, stride1: int,
                   p2: seq<UInt8>, off2: int, stride2: int, w: int, h: int)
    requires WindowIn(p1, off1, stride1, w, h) && WindowIn(p2, off2, stride2, w, h) && h > 0
    ensures WindowIn(p1, off1, stride1, w, h - 1) && WindowIn(p2, off2, stride2, w, h - 1)
    ensures RunIn(p1, Pos(off1, stride1, h - 1, 0), w) && RunIn(p2, Pos(off2, stride2, h - 1, 0), w)
    ensures Sad(p1, off1, stride1, p2, off2, stride2, w, h)
            == Sad(p1, off1, stride1, p2, off2, stride2, w, h - 1)
               + RowSad(p1, Pos(off1, stride1, h - 1, 0), p2, Pos(off2, stride2, h - 1, 0), w)
  {
    WindowInPrefix(p1, off1, stride1, w, h, h - 1);
    WindowInPrefix(p2, off2, stride2, w, h, h - 1);
  }

  lemma MulNextRow(w: int, k: int)
    ensures 255 * (w * k) + 255 * w == 255 * (w * (k + 1))
  {
  }

  /** 255·w·h, built up one row of w samples at a time. */
  function RowsBound(w: int, h: nat): int
  {
    if h == 0 then 0 else RowsBound(w, h - 1) + 255 * w
  }

  lemma {:induction false} RowsBoundIs(w: int, h: nat)
    ensures RowsBound(w, h) == 255 * (w * h)
  {
    if h > 0 {
      RowsBoundIs(w, h - 1);
      MulNextRow(w, h - 1);
    }
  }

  lemma {:induction false} SadRowsBound(p1: seq<UInt8>, off1: int, stride1: int,
                                        p2: seq<UInt8>, off2: int, stride2: int, w: int, h: int)
    requires WindowIn(p1, off1, stride1, w, h) && WindowIn(p2, off2, stride2, w, h)
    ensures Sad(p1, off1, stride1, p2, off2, stride2, w, h) <= RowsBound(w, h)
  {
    if h > 0 {
      SadLastRow(p1, off1, stride1, p2, off2, stride2, w, h);
      SadRowsBound(p1, off1, stride1, p2, off2, stride2, w, h - 1);
      RowSadBound(p1, Pos(off1, stride1, h - 1, 0), p2, Pos(off2, stride2, h - 1, 0), w);
    }
  }

  /** Each sample pair differs by at most 255, so a w×h SAD is at most 255·w·h. */
  lemma SadBound(p1: seq<UInt8>, off1: int, stride1: int,
                 p2: seq<UInt8>, off2: int, stride2: int, w: int, h: int)
    requires WindowIn(p1, off1, stride1, w, h) && WindowIn(p2, off2, stride2, w, h)
    ensures Sad(p1, off1, stride1, p2, off2, stride2, w, h) <= 255 * (w * h)
  {
    SadRowsBound(p1, off1, stride1, p2, off2, stride2, w, h);
    RowsBoundIs(w, h);
  }

  /**
   * `sad`: walks both windows row by row with two running positions, as the
   * source advances its two pointers, and returns their SAD.
   */
  method ComputeSad(p1: seq<UInt8>, off1: int, stride1: int,
                    p2: seq<UInt8>, off2: int, stride2: int, w: int, h: int)
    returns (cost: int)
    requires WindowIn(p1, off1, stride1, w, h) && WindowIn(p2, off2, stride2, w, h)
    ensures cost == Sad(p1, off1, stride1, p2, off2, stride2, w, h)
  {
    cost := 0;
    var i1, i2 := off1, off2;
    var y := 0;
    while y < h
      invariant 0 <= y <= h
      invariant i1 == Pos(off1, stride1, y, 0) && i2 == Pos(off2, stride2, y, 0)
      invariant WindowIn(p1, off1, stride1, w, y) && WindowIn(p2, off2, stride2, w, y)
      invariant cost == Sad(p1, off1, stride1, p2, off2, stride2, w, y)
    {
      WindowInPrefix(p1, off1, stride1, w, h, y + 1);
      WindowInPrefix(p2, off2, stride2, w, h, y + 1);
      ghost var row1, row2 := i1, i2;
      var x := 0;
      while x < w
        invariant 0 <= x <= w
        invariant i1 == row1 + x && i2 == row2 + x
        invariant RunIn(p1, row1, w) && RunIn(p2, row2, w)
        invariant cost == Sad(p1, off1, stride1, p2, off2, stride2, w, y) + RowSad(p1, row1, p2, row2, x)
      {
        WindowPos(p1, off1, stride1, w, h, y, x);
        WindowPos(p2, off2, stride2, w, h, y, x);
        cost := cost + Abs(p1[i1] as int - p2[i2] as int);
        i1, i2 := i1 + 1, i2 + 1;
        x := x + 1;
      }
      i1, i2 := i1 + stride1 - w, i2 + stride2 - w;
      PosNextRow(off1, stride1, y);
      PosNextRow(off2, stride2, y);
      assert cost == Sad(p1, off1, stride1, p2, off2, stride2, w, y + 1);
      y := y + 1;
    }
  }
}
