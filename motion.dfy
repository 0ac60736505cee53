/** Motion data of one prediction block, as the encoder stores it. */
module Motion {

  /** A signed displacement in quarter-sample units. */
  datatype MotionVector = MotionVector(x: int, y: int)

  function Add(a: MotionVector, b: MotionVector): MotionVector
  {
    MotionVector(a.x + b.x, a.y + b.y)
  }

  function Sub(a: MotionVector, b: MotionVector): MotionVector
  {
    MotionVector(a.x - b.x, a.y - b.y)
  }

  /**
   * Motion field of a prediction block (PredVectorInfo): for each reference
   * list whether it is used, its reference index and its vector.
   */
  datatype PredVectorInfo = PredVectorInfo(
    predFlagL0: bool, predFlagL1: bool,
    refIdxL0: int, refIdxL1: int,
    mvL0: MotionVector, mvL1: MotionVector)
}
