/** Types shared by all parts of the model. */
module Basics {

  datatype Option<+T> = None | Some(value: T)

  type byte = x: int | 0 <= x < 256
  type uint16 = x: int | 0 <= x < 0x1_0000
  type uint32 = x: int | 0 <= x < 0x1_0000_0000

  const INT64_MAX := 0x7fff_ffff_ffff_ffff
  type int64 = x: int | -INT64_MAX - 1 <= x <= INT64_MAX
}
