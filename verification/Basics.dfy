/** Types that several components share. */
module Basics {
  datatype Option<+T> = None | Some(value: T)

  type byte = b: int | 0 <= b < 256
  type uint64 = n: int | 0 <= n < 0x1_0000_0000_0000_0000
}
