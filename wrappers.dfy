/** Small failure-compatible wrappers shared by every module. */
module Wrappers {

  datatype Option<+T> = None | Some(value: T)

  datatype Result<+T, +E> = Ok(value: T) | Err(error: E)

  /** A 0/1 value: the orientation flag of a canonical k-mer and the end of a graph node.
      The source stores both as an Int and flips them with `xor 1`. */
  type Bit = b: int | 0 <= b <= 1

  /** `b xor 1` on a 0/1 value. */
  function Xor1(b: Bit): (r: Bit)
    ensures r != b
  {
    1 - b
  }
}
