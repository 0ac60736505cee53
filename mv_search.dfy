/**
 * The full-pel exhaustive motion search of the search strategy: every
 * integer displacement of a rectangular window is visited in raster order,
 * candidates whose block would leave the reference picture are skipped, and
 * the first candidate of least SAD is kept.
 */
module MvSearch {
  import opened Util
  import opened BlockCost

  /** The cost the search starts from (0x7fffffff, the largest 32-bit int). */
  const MaxCost: int := 0x7fff_ffff

  /** A luma plane: samples in rows of pitch stride, width×height of them valid. */
  datatype LumaPlane = LumaPlane(samples: seq<UInt8>, stride: int, width: int, height: int)

  predicate WellFormed(p: LumaPlane)
  {
    0 <= p.width <= p.stride && 0 <= p.height && p.height * p.stride <= |p.samples|
  }

  /**
   * The block to match (at (x, y), pbW×pbH in the input picture) and the
   * search half-ranges hrange, vrange in whole samples.
   */
  datatype SearchWindow = SearchWindow(x: int, y: int, pbW: int, pbH: int, hrange: int, vrange: int)

  /** A full-pel candidate position of the block in the reference picture. */
  datatype Candidate = Candidate(mx: int, my: int)

  /** The block at (mx, my) lies inside the plane. */
  predicate Fits(p: LumaPlane, w: int, h: int, mx: int, my: int)
  {
    0 <= mx && mx + w <= p.width && 0 <= my && my + h <= p.height
  }

  predicate InWindow(sw: SearchWindow, c: Candidate)
  {
    sw.x - sw.hrange <= c.mx <= sw.x + sw.hrange && sw.y - sw.vrange <= c.my <= sw.y + sw.vrange
  }

  /** Raster order: earlier row first, then earlier column. */
  predicate Before(a: Candidate, b: Candidate)
  {
    a.my < b.my || (a.my == b.my && a.mx < b.mx)
  }

  /** A position the search evaluates: inside the window and not skipped by the bounds test. */
  predicate IsCandidate(ref: LumaPlane, sw: SearchWindow, c: Candidate)
  {
    InWindow(sw, c) && Fits(ref, sw.pbW, sw.pbH, c.mx, c.my)
  }

  /** What the caller guarantees: two sane planes and a block that lies inside the input picture. */
  predicate SearchInputs(ref: LumaPlane, input: LumaPlane, sw: SearchWindow)
  {
    && WellFormed(ref) && WellFormed(input)
    && 0 <= sw.pbW && 0 <= sw.pbH
    && Fits(input, sw.pbW, sw.pbH, sw.x, sw.y)
  }

  /** A block that fits in a well-formed plane is read only from inside its samples. */
  lemma FitsWindowIn(p: LumaPlane, w: int, h: int, mx: int, my: int)
    requires WellFormed(p) && 0 <= w && 0 <= h && Fits(p, w, h, mx, my)
    ensures WindowIn(p.samples, my * p.stride + mx, p.stride, w, h)
  {
    if w > 0 && h > 0 {
      assert my * p.stride + (h - 1) * p.stride == (my + h - 1) * p.stride;
      MulLeft(my + h, p.height, p.stride);
      assert (my + h) * p.stride == (my + h - 1) * p.stride + p.stride;
    }
    assert 0 <= my * p.stride;
  }

  /** The SAD between the reference block at c and the input block at (x, y). */
  function Cost(ref: LumaPlane, input: LumaPlane, sw: SearchWindow, c: Candidate): nat
    requires SearchInputs(ref, input, sw) && Fits(ref, sw.pbW, sw.pbH, c.mx, c.my)
  {
    FitsWindowIn(ref, sw.pbW, sw.pbH, c.mx, c.my);
    FitsWindowIn(input, sw.pbW, sw.pbH, sw.x, sw.y);
    Sad(ref.samples, c.my * ref.stride + c.mx, ref.stride,
        input.samples, sw.y * input.stride + sw.x, input.stride, sw.pbW, sw.pbH)
  }

  /** The reference block at c holds exactly the samples of the input block. */
  predicate ExactMatch(ref: LumaPlane, input: LumaPlane, sw: SearchWindow, c: Candidate)
    requires SearchInputs(ref, input, sw) && Fits(ref, sw.pbW, sw.pbH, c.mx, c.my)
  {
    FitsWindowIn(ref, sw.pbW, sw.pbH, c.mx, c.my);
    FitsWindowIn(input, sw.pbW, sw.pbH, sw.x, sw.y);
    SameWindow(ref.samples, c.my * ref.stride + c.mx, ref.stride,
               input.samples, sw.y * input.stride + sw.x, input.stride, sw.pbW, sw.pbH)
  }

  /** c has least cost among all candidates, and every candidate before it costs strictly more. */
  ghost predicate IsFirstMinimum(ref: LumaPlane, input: LumaPlane, sw: SearchWindow, c: Candidate)
    requires SearchInputs(ref, input, sw)
  {
    && IsCandidate(ref, sw, c)
    && (forall d :: IsCandidate(ref, sw, d) ==> Cost(ref, input, sw, c) <= Cost(ref, input, sw, d))
    && (forall d :: IsCandidate(ref, sw, d) && Before(d, c) ==> Cost(ref, input, sw, c) < Cost(ref, input, sw, d))
  }

  /**
   * The loop state after visiting every candidate before next: best is the
   * first minimum so far (below the start cost), mincost its cost.
   */
  ghost predicate Scanned(ref: LumaPlane, input: LumaPlane, sw: SearchWindow,
                          best: Option<Candidate>, mincost: int, next: Candidate)
    requires SearchInputs(ref, input, sw)
  {
    && (best.None? ==> mincost == MaxCost)
    && (best.Some? ==> && IsCandidate(ref, sw, best.value) && Before(best.value, next)
                       && mincost == Cost(ref, input, sw, best.value) && mincost < MaxCost)
    && (forall d :: IsCandidate(ref, sw, d) && Before(d, next) ==> mincost <= Cost(ref, input, sw, d))
    && (best.Some? ==> forall d :: IsCandidate(ref, sw, d) && Before(d, best.value) ==>
                                     mincost < Cost(ref, input, sw, d))
  }

  /** Passing a position the bounds test skips keeps the state. */
  lemma ScanSkip(ref: LumaPlane, input: LumaPlane, sw: SearchWindow,
                 best: Option<Candidate>, mincost: int, c: Candidate)
    requires SearchInputs(ref, input, sw) && !IsCandidate(ref, sw, c)
    requires Scanned(ref, input, sw, best, mincost, c)
    ensures Scanned(ref, input, sw, best, mincost, Candidate(c.mx + 1, c.my))
  {
  }

  /** Evaluating a candidate and keeping it only on a strictly smaller cost keeps the state. */
  lemma ScanVisit(ref: LumaPlane, input: LumaPlane, sw: SearchWindow,
                  best: Option<Candidate>, mincost: int, c: Candidate)
    requires SearchInputs(ref, input, sw) && IsCandidate(ref, sw, c)
    requires Scanned(ref, input, sw, best, mincost, c)
    ensures var cost := Cost(ref, input, sw, c);
            if cost < mincost then Scanned(ref, input, sw, Some(c), cost, Candidate(c.mx + 1, c.my))
            else Scanned(ref, input, sw, best, mincost, Candidate(c.mx + 1, c.my))
  {
  }

  /** Past the last column of a window row comes the first column of the next. */
  lemma ScanNextRow(ref: LumaPlane, input: LumaPlane, sw: SearchWindow,
                    best: Option<Candidate>, mincost: int, mx: int, my: int)
    requires SearchInputs(ref, input, sw) && sw.x + sw.hrange < mx
    requires Scanned(ref, input, sw, best, mincost, Candidate(mx, my))
    ensures Scanned(ref, input, sw, best, mincost, Candidate(sw.x - sw.hrange, my + 1))
  {
    forall d | InWindow(sw, d)
      ensures Before(d, Candidate(mx, my)) == Before(d, Candidate(sw.x - sw.hrange, my + 1))
    {
    }
  }

  /** Once every window row is visited, the kept candidate is the first minimum. */
  lemma ScanDone(ref: LumaPlane, input: LumaPlane, sw: SearchWindow,
                 best: Option<Candidate>, mincost: int, my: int)
    requires SearchInputs(ref, input, sw) && sw.y + sw.vrange < my
    requires Scanned(ref, input, sw, best, mincost, Candidate(sw.x - sw.hrange, my))
    ensures best.Some? ==> IsFirstMinimum(ref, input, sw, best.value)
    ensures best.Some? ==> mincost == Cost(ref, input, sw, best.value) < MaxCost
    ensures best.None? ==> mincost == MaxCost
    ensures best.None? ==> forall d :: IsCandidate(ref, sw, d) ==> Cost(ref, input, sw, d) >= MaxCost
  {
    forall d | InWindow(sw, d) ensures Before(d, Candidate(sw.x - sw.hrange, my)) {
    }
  }

  /**
   * One pass of the inner loop at (mx, my): a candidate whose block leaves
   * the reference picture is skipped; otherwise its SAD is computed and it
   * replaces the kept one only when strictly cheaper.
   */
  method SearchStep(ref: LumaPlane, input: LumaPlane, sw: SearchWindow,
                    best: Option<Candidate>, mincost: int, mx: int, my: int)
    returns (best': Option<Candidate>, mincost': int)
    requires SearchInputs(ref, input, sw) && InWindow(sw, Candidate(mx, my))
    requires Scanned(ref, input, sw, best, mincost, Candidate(mx, my))
    ensures Scanned(ref, input, sw, best', mincost', Candidate(mx + 1, my))
  {
    best', mincost' := best, mincost;
    if mx < 0 || mx + sw.pbW > ref.width || my < 0 || my + sw.pbH > ref.height {
      ScanSkip(ref, input, sw, best, mincost, Candidate(mx, my));
    } else {
      ScanVisit(ref, input, sw, best, mincost, Candidate(mx, my));
      FitsWindowIn(ref, sw.pbW, sw.pbH, mx, my);
      FitsWindowIn(input, sw.pbW, sw.pbH, sw.x, sw.y);
      var cost := ComputeSad(ref.samples, my * ref.stride + mx, ref.stride,
                             input.samples, sw.y * input.stride + sw.x, input.stride,
                             sw.pbW, sw.pbH);
      if cost < mincost {
        mincost' := cost;
        best' := Some(Candidate(mx, my));
      }
    }
  }

  /**
   * The window loop of the search strategy: my outer, mx inner, both
   * ascending; out-of-picture candidates skipped; the minimum replaced only
   * on a strictly smaller cost. None means no candidate cost less than
   * MaxCost (in particular, none was inside the picture).
   */
  method FullPelSearch(ref: LumaPlane, input: LumaPlane, sw: SearchWindow)
    returns (best: Option<Candidate>, mincost: int)
    requires SearchInputs(ref, input, sw)
    ensures best.Some? ==> IsFirstMinimum(ref, input, sw, best.value)
    ensures best.Some? ==> mincost == Cost(ref, input, sw, best.value) < MaxCost
    ensures best.None? ==> mincost == MaxCost
    ensures best.None? ==> forall d :: IsCandidate(ref, sw, d) ==> Cost(ref, input, sw, d) >= MaxCost
  {
    mincost := MaxCost;
    best := None;
    var my := sw.y - sw.vrange;
    while my <= sw.y + sw.vrange
      invariant sw.y - sw.vrange <= my && (my <= sw.y + sw.vrange + 1 || my == sw.y - sw.vrange)
      invariant Scanned(ref, input, sw, best, mincost, Candidate(sw.x - sw.hrange, my))
    {
      var mx := sw.x - sw.hrange;
      while mx <= sw.x + sw.hrange
        invariant sw.x - sw.hrange <= mx && (mx <= sw.x + sw.hrange + 1 || mx == sw.x - sw.hrange)
        invariant Scanned(ref, input, sw, best, mincost, Candidate(mx, my))
      {
        best, mincost := SearchStep(ref, input, sw, best, mincost, mx, my);
        mx := mx + 1;
      }
      ScanNextRow(ref, input, sw, best, mincost, mx, my);
      my := my + 1;
    }
    ScanDone(ref, input, sw, best, mincost, my);
  }

  /** Two first minima of the same search are the same candidate: the result is determined. */
  lemma FirstMinimumUnique(ref: LumaPlane, input: LumaPlane, sw: SearchWindow, a: Candidate, b: Candidate)
    requires SearchInputs(ref, input, sw)
    requires IsFirstMinimum(ref, input, sw, a) && IsFirstMinimum(ref, input, sw, b)
    ensures a == b
  {
  }

  /** Every candidate's SAD is at most 255·pbW·pbH. */
  lemma CostBound(ref: LumaPlane, input: LumaPlane, sw: SearchWindow, d: Candidate)
    requires SearchInputs(ref, input, sw) && IsCandidate(ref, sw, d)
    ensures Cost(ref, input, sw, d) <= 255 * (sw.pbW * sw.pbH)
  {
    FitsWindowIn(ref, sw.pbW, sw.pbH, d.mx, d.my);
    FitsWindowIn(input, sw.pbW, sw.pbH, sw.x, sw.y);
    SadBound(ref.samples, d.my * ref.stride + d.mx, ref.stride,
             input.samples, sw.y * input.stride + sw.x, input.stride, sw.pbW, sw.pbH);
  }

  /**
   * For blocks whose worst-case SAD stays below the start cost (every block
   * size up to 64×64 and far beyond), the search fails only when no candidate
   * of the window lies inside the reference picture.
   */
  lemma NoneOnlyWithoutCandidates(ref: LumaPlane, input: LumaPlane, sw: SearchWindow, d: Candidate)
    requires SearchInputs(ref, input, sw) && 255 * (sw.pbW * sw.pbH) < MaxCost
    requires forall e :: IsCandidate(ref, sw, e) ==> Cost(ref, input, sw, e) >= MaxCost
    ensures !IsCandidate(ref, sw, d)
  {
    if IsCandidate(ref, sw, d) {
      CostBound(ref, input, sw, d);
    }
  }

  /** A candidate costs 0 exactly when it matches the input block sample for sample. */
  lemma CostZeroIffExactMatch(ref: LumaPlane, input: LumaPlane, sw: SearchWindow, c: Candidate)
    requires SearchInputs(ref, input, sw) && Fits(ref, sw.pbW, sw.pbH, c.mx, c.my)
    ensures Cost(ref, input, sw, c) == 0 <==> ExactMatch(ref, input, sw, c)
  {
    FitsWindowIn(input, sw.pbW, sw.pbH, sw.x, sw.y);
    FitsWindowIn(ref, sw.pbW, sw.pbH, c.mx, c.my);
    var o1, o2 := c.my * ref.stride + c.mx, sw.y * input.stride + sw.x;
    assert Cost(ref, input, sw, c) == Sad(ref.samples, o1, ref.stride, input.samples, o2, input.stride, sw.pbW, sw.pbH);
    assert ExactMatch(ref, input, sw, c)
           == SameWindow(ref.samples, o1, ref.stride, input.samples, o2, input.stride, sw.pbW, sw.pbH);
    SadZeroIff(ref.samples, o1, ref.stride, input.samples, o2, input.stride, sw.pbW, sw.pbH);
  }

  /**
   * When the zero displacement is a candidate and the reference holds the
   * input block there, the winner costs 0 and is itself an exact match; it is
   * the zero displacement unless an earlier candidate is an exact match too.
   */
  lemma ExactMatchWins(ref: LumaPlane, input: LumaPlane, sw: SearchWindow, c: Candidate)
    requires SearchInputs(ref, input, sw)
    requires IsCandidate(ref, sw, Candidate(sw.x, sw.y)) && ExactMatch(ref, input, sw, Candidate(sw.x, sw.y))
    requires IsFirstMinimum(ref, input, sw, c)
    ensures Cost(ref, input, sw, c) == 0 && ExactMatch(ref, input, sw, c)
    ensures (forall d :: IsCandidate(ref, sw, d) && Before(d, Candidate(sw.x, sw.y)) ==> !ExactMatch(ref, input, sw, d))
            ==> c == Candidate(sw.x, sw.y)
  {
    var o := Candidate(sw.x, sw.y);
    CostZeroIffExactMatch(ref, input, sw, o);
    CostZeroIffExactMatch(ref, input, sw, c);
    assert Cost(ref, input, sw, c) <= Cost(ref, input, sw, o);
  }
}
