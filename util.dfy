/** Small value types shared by the encoder and picture-buffer modules. */
module Util {

  /** An 8-bit sample, as stored in a picture plane (uint8_t). */
  type UInt8 = b: int | 0 <= b < 0x100

  /** Absent or present value; used where the source would hand back NULL or an unset result. */
  datatype Option<T> = None | Some(value: T)

  function Abs(x: int): (r: nat)
    ensures r == x || r == -x
  {
    if x < 0 then -x else x
  }
}
