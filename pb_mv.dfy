/**
 * The two motion decision strategies for an inter prediction block: the
 * test-pattern strategy (a fixed or pseudo-random vector) and the search
 * strategy (the full-pel exhaustive search). Both code the vector against the
 * list-0 predictor, write the block's motion syntax and motion field, and fill
 * in the block's cost on the no-residual path.
 */
module PbMv {
  import opened Util
  import opened Motion
  import opened MvSearch

  datatype InterPredIdc = PredL0 | PredL1 | PredBi

  /** The motion syntax of one prediction block (motion_spec). */
  datatype MotionSpec = MotionSpec(
    mergeFlag: bool, mergeIdx: int, interPredIdc: InterPredIdc,
    refIdxL0: int, refIdxL1: int, mvpL0Flag: int, mvpL1Flag: int,
    mvdL0: MotionVector, mvdL1: MotionVector)

  /** One prediction-block slot of a coding block: its syntax and its motion field. */
  datatype PredictionBlock = PredictionBlock(spec: MotionSpec, motion: PredVectorInfo)

  /** The fake rate both strategies report for the motion vector. */
  const FakeRate: int := 5

  /** An inter coding block (enc_cb) with its prediction-block slots and its cost. */
  class CodingBlock {
    var x: int
    var y: int
    var log2Size: nat
    var pb: array<PredictionBlock>
    var distortion: int
    var rate: int
    var rqtRootCbf: bool

    constructor (x0: int, y0: int, log2CbSize: nat)
      ensures x == x0 && y == y0 && log2Size == log2CbSize
      ensures fresh(pb) && pb.Length == 4
    {
      x, y, log2Size := x0, y0, log2CbSize;
      pb := new PredictionBlock[4];
      distortion, rate, rqtRootCbf := 0, 0, false;
    }
  }

  datatype MvTestMode = Zero | Random | Horizontal | Vertical

  /**
   * One component of the Random pattern, `rand() % (2*range+1) - range`,
   * where rnd stands for the value rand() returned. rand() is never
   * negative, so C's truncating % agrees with Dafny's on it; 2*range+1 is
   * odd and so never 0.
   */
  function RandomComponent(rnd: nat, range: int): (v: int)
    ensures range >= 0 ==> -range <= v <= range
  {
    rnd % Abs(2 * range + 1) - range
  }

  /** Every value of [-range, range] is the outcome of some draw. */
  lemma RandomComponentCovers(range: int, v: int)
    requires -range <= v <= range
    ensures RandomComponent((v + range) as nat, range) == v
  {
  }

  /** The raw vector of a test mode, before the predictor is subtracted. */
  function TestPattern(mode: MvTestMode, range: int, rndX: nat, rndY: nat): (raw: MotionVector)
    ensures mode == Random && range >= 0 ==> -range <= raw.x <= range && -range <= raw.y <= range
  {
    match mode
    case Zero => MotionVector(0, 0)
    case Random => MotionVector(RandomComponent(rndX, range), RandomComponent(rndY, range))
    case Horizontal => MotionVector(range, 0)
    case Vertical => MotionVector(0, range)
  }

  /**
   * The slot after a uni-directional list-0 decision with raw vector raw and
   * predictor mvp: mvd = raw - mvp and mv = mvp + mvd; the other fixed syntax
   * elements are set and the list-1 entries are left as they were.
   */
  function UniPredL0(old_: PredictionBlock, raw: MotionVector, mvp: MotionVector): (r: PredictionBlock)
    ensures r.spec.mvdL0 == Sub(raw, mvp) && Add(mvp, r.spec.mvdL0) == r.motion.mvL0
    ensures r.motion.mvL0 == raw
    ensures !r.spec.mergeFlag && r.spec.mergeIdx == 0 && r.spec.interPredIdc == PredL0
    ensures r.spec.refIdxL0 == 0 && r.motion.refIdxL0 == 0 && r.spec.mvpL0Flag == 0
    ensures r.motion.predFlagL0 && !r.motion.predFlagL1
    ensures r.spec.refIdxL1 == old_.spec.refIdxL1 && r.spec.mvpL1Flag == old_.spec.mvpL1Flag
    ensures r.spec.mvdL1 == old_.spec.mvdL1
    ensures r.motion.refIdxL1 == old_.motion.refIdxL1 && r.motion.mvL1 == old_.motion.mvL1
  {
    var mvd := Sub(raw, mvp);
    var spec := old_.spec.(mergeFlag := false, mergeIdx := 0, interPredIdc := PredL0,
                           refIdxL0 := 0, mvpL0Flag := 0, mvdL0 := mvd);
    var motion := old_.motion.(refIdxL0 := 0, mvL0 := Add(mvp, mvd),
                               predFlagL0 := true, predFlagL1 := false);
    PredictionBlock(spec, motion)
  }

  /** The raw vector of a search result: the full-pel displacement in quarter samples. */
  function SearchVector(sw: SearchWindow, c: Candidate): (raw: MotionVector)
    ensures raw.x % 4 == 0 && raw.y % 4 == 0
    ensures c.mx == sw.x + raw.x / 4 && c.my == sw.y + raw.y / 4
  {
    MotionVector((c.mx - sw.x) * 4, (c.my - sw.y) * 4)
  }

  /**
   * Commits the decision into slot pbIdx and sets the no-residual result:
   * distortion is what the exact (SSD) distortion of the predicted block
   * comes to, rate the fake MV rate, no residual.
   */
  method Commit(cb: CodingBlock, pbIdx: int, raw: MotionVector, mvp: MotionVector, ssd: int)
    requires 0 <= pbIdx < cb.pb.Length
    modifies cb, cb.pb
    ensures cb.pb == old(cb.pb) && cb.x == old(cb.x) && cb.y == old(cb.y) && cb.log2Size == old(cb.log2Size)
    ensures cb.pb[pbIdx] == UniPredL0(old(cb.pb[pbIdx]), raw, mvp)
    ensures forall i | 0 <= i < cb.pb.Length && i != pbIdx :: cb.pb[i] == old(cb.pb[i])
    ensures cb.distortion == ssd && cb.rate == FakeRate && !cb.rqtRootCbf
  {
    cb.pb[pbIdx] := UniPredL0(cb.pb[pbIdx], raw, mvp);
    cb.distortion := ssd;
    cb.rate := FakeRate;
    cb.rqtRootCbf := false;
  }

  /**
   * Algo_PB_MV_Test::analyze on the no-residual path: the raw vector comes
   * from the test mode, then mvd = raw - mvp and mv = mvp + mvd = raw.
   */
  method AnalyzeTest(mode: MvTestMode, range: int, cb: CodingBlock, pbIdx: int,
                     mvp: MotionVector, rndX: nat, rndY: nat, ssd: int)
    requires 0 <= pbIdx < cb.pb.Length
    modifies cb, cb.pb
    ensures cb.pb == old(cb.pb) && cb.x == old(cb.x) && cb.y == old(cb.y) && cb.log2Size == old(cb.log2Size)
    ensures cb.pb[pbIdx] == UniPredL0(old(cb.pb[pbIdx]), TestPattern(mode, range, rndX, rndY), mvp)
    ensures forall i | 0 <= i < cb.pb.Length && i != pbIdx :: cb.pb[i] == old(cb.pb[i])
    ensures cb.distortion == ssd && cb.rate == FakeRate && !cb.rqtRootCbf
    ensures mode == Zero ==> cb.pb[pbIdx].motion.mvL0 == MotionVector(0, 0)
    ensures mode == Zero ==> cb.pb[pbIdx].spec.mvdL0 == MotionVector(-mvp.x, -mvp.y)
    ensures mode == Horizontal ==> cb.pb[pbIdx].spec.mvdL0 == MotionVector(range - mvp.x, -mvp.y)
    ensures mode == Vertical ==> cb.pb[pbIdx].spec.mvdL0 == MotionVector(-mvp.x, range - mvp.y)
    ensures mode == Random && range >= 0 ==>
              -range <= cb.pb[pbIdx].motion.mvL0.x <= range && -range <= cb.pb[pbIdx].motion.mvL0.y <= range
  {
    var raw := TestPattern(mode, range, rndX, rndY);
    Commit(cb, pbIdx, raw, mvp, ssd);
  }

  /**
   * Algo_PB_MV_Search::analyze on the no-residual path: the raw vector is
   * the displacement of the first least-SAD candidate, in quarter samples.
   * When the search keeps no candidate, the raw vector is whatever the
   * slot's list-0 mvd held before (the source never overwrites it), and the
   * slot is committed all the same.
   */
  method AnalyzeSearch(hrange: int, vrange: int, cb: CodingBlock, pbIdx: int,
                       x: int, y: int, pbW: int, pbH: int, mvp: MotionVector,
                       ref: LumaPlane, input: LumaPlane, ssd: int)
    returns (best: Option<Candidate>)
    requires 0 <= pbIdx < cb.pb.Length
    requires SearchInputs(ref, input, SearchWindow(x, y, pbW, pbH, hrange, vrange))
    modifies cb, cb.pb
    ensures cb.pb == old(cb.pb) && cb.x == old(cb.x) && cb.y == old(cb.y) && cb.log2Size == old(cb.log2Size)
    ensures var sw := SearchWindow(x, y, pbW, pbH, hrange, vrange);
            best.Some? ==> && IsFirstMinimum(ref, input, sw, best.value)
                           && cb.pb[pbIdx] == UniPredL0(old(cb.pb[pbIdx]), SearchVector(sw, best.value), mvp)
    ensures var sw := SearchWindow(x, y, pbW, pbH, hrange, vrange);
            best.None? ==> && (forall d :: IsCandidate(ref, sw, d) ==> Cost(ref, input, sw, d) >= MaxCost)
                           && cb.pb[pbIdx] == UniPredL0(old(cb.pb[pbIdx]), old(cb.pb[pbIdx].spec.mvdL0), mvp)
    ensures forall i | 0 <= i < cb.pb.Length && i != pbIdx :: cb.pb[i] == old(cb.pb[i])
    ensures cb.distortion == ssd && cb.rate == FakeRate && !cb.rqtRootCbf
  {
    var sw := SearchWindow(x, y, pbW, pbH, hrange, vrange);
    var mincost;
    best, mincost := FullPelSearch(ref, input, sw);
    var raw := if best.Some? then SearchVector(sw, best.value) else cb.pb[pbIdx].spec.mvdL0;
    Commit(cb, pbIdx, raw, mvp, ssd);
  }
}
